/** Properties that relate several handler runs: what a node sees when it
    logs in after registering, updating or deleting, and how logout and
    login behave when repeated. */
module Properties {

  import opened Wrappers
  import opened Directory
  import opened Presence
  import opened Instance

  /** Logging in with the token a registration stored finds the new row:
      the reply carries the registered components and the online entry the
      new id. This holds even when the registration itself sent no reply. */
  lemma RegisterThenLogin(st: State, protocol: string, sender: string, p: Params, env: Env,
                          protocol': string, sender': string, p': Params, env': Env)
    requires WellFormed(st)
    requires env.writeOk && env'.selectOk && p'.token == env.token
    requires forall id :: id in st.nodes.rows ==> st.nodes.rows[id].token != env.token
    ensures var st1 := RegisterNode(st, protocol, sender, p, env).state;
      var r := LoginNode(st1, protocol', sender', p', env');
      && r.reply == Some(Logged(p.components))
      && r.state.online == st.online + [OnlineNode(p.components, NewId(st.nodes), sender', protocol')]
  {
  }

  /** A registration with a token no row carries keeps tokens unique. */
  lemma RegisterKeepsTokensUnique(st: State, protocol: string, sender: string, p: Params, env: Env)
    requires WellFormed(st) && TokensUnique(st.nodes)
    requires forall id :: id in st.nodes.rows ==> st.nodes.rows[id].token != env.token
    ensures TokensUnique(RegisterNode(st, protocol, sender, p, env).state.nodes)
  {
  }

  /** Two tables with the same keys and the same token in every row resolve
      a token to the same row id. */
  lemma {:induction false} LookupFollowsTokens(t: Table, t': Table, token: string)
    requires Valid(t) && Valid(t')
    requires t'.rows.Keys == t.rows.Keys
    requires forall id :: id in t.rows ==> t'.rows[id].token == t.rows[id].token
    ensures Lookup(t', token, true).Some? <==> Lookup(t, token, true).Some?
    ensures Lookup(t, token, true).Some? ==>
      Lookup(t', token, true).value.nodeId == Lookup(t, token, true).value.nodeId
  {
  }

  /** After a successful update, logging in with the same token replies
      with the new components. */
  lemma UpdateThenLogin(st: State, protocol: string, sender: string, p: Params, env: Env,
                        protocol': string, sender': string, env': Env)
    requires WellFormed(st)
    requires UpdateNode(st, protocol, sender, p, env).reply == Some(Succeeded)
    requires env'.selectOk
    ensures LoginNode(UpdateNode(st, protocol, sender, p, env).state, protocol', sender', p, env').reply
      == Some(Logged(p.components))
  {
  }

  /** When tokens are unique, a deleted node can no longer log in. */
  lemma DeleteThenLogin(st: State, protocol: string, sender: string, p: Params, env: Env,
                        protocol': string, sender': string, env': Env)
    requires WellFormed(st) && TokensUnique(st.nodes)
    requires DeleteNode(st, protocol, sender, p, env).reply == Some(Succeeded)
    ensures LoginNode(DeleteNode(st, protocol, sender, p, env).state, protocol', sender', p, env').reply
      == Some(Failed)
  {
  }

  /** Login never deduplicates: the same node logging in twice from the
      same address has two online entries. */
  lemma LoginTwiceAppendsTwice(st: State, protocol: string, sender: string, p: Params, env: Env)
    requires WellFormed(st)
    requires Lookup(st.nodes, p.token, env.selectOk).Some?
    ensures var st1 := LoginNode(st, protocol, sender, p, env).state;
      var st2 := LoginNode(st1, protocol, sender, p, env).state;
      var row := Lookup(st.nodes, p.token, env.selectOk).value;
      var e := OnlineNode(row.node.components, row.nodeId, sender, protocol);
      st2.online == st.online + [e, e]
  {
  }

  /** A second logout of the same address leaves the online list as the
      first left it. */
  lemma LogoutNodeIdempotent(st: State, protocol: string, sender: string)
    ensures var once := LogoutNode(st, protocol, sender);
      LogoutNode(once, protocol, sender).online == once.online
  {
    LogoutIdempotent(st.online, sender);
  }

  /** Logging out an address with no online entry leaves the list as it is. */
  lemma LogoutNodeAbsent(st: State, protocol: string, sender: string)
    requires forall k :: 0 <= k < |st.online| ==> st.online[k].resource != sender
    ensures LogoutNode(st, protocol, sender).online == st.online
  {
    LogoutAbsent(st.online, sender);
  }

  /** Logout keeps the other entries in their original order: logging out
      from a list split in two is logging out from each part. */
  lemma LogoutNodeKeepsOrder(st: State, protocol: string, sender: string, a: seq<OnlineNode>,
                             b: seq<OnlineNode>)
    requires st.online == a + b
    ensures LogoutNode(st, protocol, sender).online == Logout(a, sender) + Logout(b, sender)
  {
    LogoutAppend(a, b, sender);
  }

  /** The protocol argument of logout has no effect. */
  lemma LogoutIgnoresProtocol(st: State, protocol: string, protocol': string, sender: string)
    ensures LogoutNode(st, protocol, sender) == LogoutNode(st, protocol', sender)
  {
  }

  /** A login followed by a logout of the same address removes the new
      entry together with any older one on that address. */
  lemma {:induction false} LoginThenLogout(st: State, protocol: string, sender: string, p: Params, env: Env)
    requires WellFormed(st)
    ensures var st1 := LoginNode(st, protocol, sender, p, env).state;
      LogoutNode(st1, protocol, sender).online == Logout(st.online, sender)
  {
    var st1 := LoginNode(st, protocol, sender, p, env).state;
    if Lookup(st.nodes, p.token, env.selectOk).Some? {
      var e := st1.online[|st.online|];
      assert st1.online == st.online + [e];
      LogoutAppend(st.online, [e], sender);
      assert Logout([e], sender) == Logout([], sender);
    }
  }

  /** Deleting a node logs out the sender's address only: an online entry
      of the deleted node on any other address stays. */
  lemma DeleteKeepsOtherAddresses(st: State, protocol: string, sender: string, p: Params, env: Env,
                                  e: OnlineNode)
    requires WellFormed(st)
    requires DeleteNode(st, protocol, sender, p, env).reply == Some(Succeeded)
    requires e in st.online && e.resource != sender
    ensures e in DeleteNode(st, protocol, sender, p, env).state.online
  {
  }

  /** Logout removes every entry on the sender's address, whatever protocol
      that entry was logged in with. */
  lemma LogoutAnyProtocol(st: State, protocol: string, sender: string, e: OnlineNode)
    requires e in st.online && e.resource == sender
    ensures e !in LogoutNode(st, protocol, sender).online
  {
  }

  /** The same address under two protocols: logging out one protocol's
      session ends the other's too. */
  lemma LogoutSameAddressTwoProtocols(st: State)
    requires st.online == [OnlineNode("ipfs://a", 1, "10.0.0.1", "ws"), OnlineNode("ipfs://b", 2, "10.0.0.1", "http")]
    ensures LogoutNode(st, "ws", "10.0.0.1").online == []
  {
    var a := "10.0.0.1";
    assert st.online[0].resource == a && st.online[1].resource == a;
    assert Logout(st.online[1..][1..], a) == [] by {
      assert st.online[1..][1..] == [];
    }
    assert Logout(st.online[1..], a) == [];
  }
}
