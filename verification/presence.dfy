/** The in-memory list of online nodes (`this.online.nodes`) and the three
    things the handlers do with it: append at login, filter at logout, and
    refresh the cached components of the first entry for an id at update. */
module Presence {

  import opened Wrappers

  /** One online session: cached components, the node's id, the transport
      address it is reachable at and the transport protocol. */
  datatype OnlineNode = OnlineNode(components: string, id: nat, resource: string, protocol: string)

  /** The entries that stay when `sender` logs out: those on any other
      address, in their original order. Only the address is compared. */
  function Logout(online: seq<OnlineNode>, sender: string): (r: seq<OnlineNode>)
    ensures |r| <= |online|
    ensures forall e :: e in r <==> e in online && e.resource != sender
  {
    if online == [] then []
    else if online[0].resource == sender then Logout(online[1..], sender)
    else [online[0]] + Logout(online[1..], sender)
  }

  /** The position of the first entry for `id`, as Array.prototype.find
      visits them. */
  function Find(online: seq<OnlineNode>, id: nat): (r: Option<nat>)
    ensures r.Some? ==> r.value < |online| && online[r.value].id == id
    ensures r.Some? ==> forall k :: 0 <= k < r.value ==> online[k].id != id
    ensures r.None? ==> forall k :: 0 <= k < |online| ==> online[k].id != id
  {
    if online == [] then None
    else if online[0].id == id then Some(0)
    else match Find(online[1..], id)
      case None => None
      case Some(k) => Some(k + 1)
  }

  /** The list after the first entry for `id` gets `components` as its
      cached components. Every other entry, and every other field of that
      entry, is left as it was; without an entry for `id` nothing changes. */
  function SetComponents(online: seq<OnlineNode>, id: nat, components: string): (r: seq<OnlineNode>)
    ensures |r| == |online|
    ensures Find(online, id).None? ==> r == online
    ensures Find(online, id).Some? ==>
      var i := Find(online, id).value;
      r == online[i := online[i].(components := components)]
  {
    if online == [] then []
    else if online[0].id == id then [online[0].(components := components)] + online[1..]
    else [online[0]] + SetComponents(online[1..], id, components)
  }

  /** Logging out distributes over concatenation, so the surviving entries
      keep their relative order. */
  lemma {:induction false} LogoutAppend(a: seq<OnlineNode>, b: seq<OnlineNode>, sender: string)
    ensures Logout(a + b, sender) == Logout(a, sender) + Logout(b, sender)
  {
    if a == [] {
      assert a + b == b;
    } else {
      assert (a + b)[0] == a[0];
      assert (a + b)[1..] == a[1..] + b;
      LogoutAppend(a[1..], b, sender);
    }
  }

  /** A list with no entry on `sender` is left as it is. */
  lemma {:induction false} LogoutAbsent(online: seq<OnlineNode>, sender: string)
    requires forall k :: 0 <= k < |online| ==> online[k].resource != sender
    ensures Logout(online, sender) == online
  {
    if online != [] {
      LogoutAbsent(online[1..], sender);
      assert [online[0]] + online[1..] == online;
    }
  }

  /** Logging the same address out twice is the same as once. */
  lemma {:induction false} LogoutIdempotent(online: seq<OnlineNode>, sender: string)
    ensures Logout(Logout(online, sender), sender) == Logout(online, sender)
  {
    var r := Logout(online, sender);
    forall k | 0 <= k < |r|
      ensures r[k].resource != sender
    {
      assert r[k] in r;
    }
    LogoutAbsent(r, sender);
  }
}
