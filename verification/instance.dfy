/** The node handlers of src/Instance.js as atomic transitions over the
    persisted directory and the online list. Each handler takes the state,
    the transport protocol and address of the sender, the request
    parameters and the environment (the freshly generated token, whether
    each SQL run succeeds, and which side stores exist), and returns the new
    state, the reply it sends (none when the handler ends without replying,
    including when it throws) and the side-store save it starts. */
module Instance {

  import opened Wrappers
  import opened Directory
  import opened Presence
  import Components
  import Bindings

  /** The request parameters the node handlers read. */
  datatype Params = Params(token: string, components: string, information: string)

  /** The notifications the instance emits: `ping` with the request
      parameters, and `disconnected` on every logout. */
  datatype Event = Pinged(parameters: Params) | Disconnected

  datatype State = State(nodes: Table, online: seq<OnlineNode>, events: seq<Event>)

  /** The reply objects: {success:false}, {success:true},
      {success:true, token} and {success:true, components}. */
  datatype Reply = Failed | Succeeded | Registered(token: string) | Logged(components: string)

  /** What the world decides for one handler run: the token the generator
      produces, whether the SELECT and the writing statement succeed, and
      the keys of the decentralized side stores. */
  datatype Env = Env(token: string, selectOk: bool, writeOk: bool, stores: set<string>)

  datatype Step = Step(state: State, reply: Option<Reply>, save: Option<Components.Target>)

  predicate WellFormed(st: State) {
    Valid(st.nodes)
  }

  /** `isNodeTokenValid` followed by `results[0]`: the stored row with that
      token and the lowest node_id, or nothing when the run fails or no row
      carries the token. */
  function Lookup(t: Table, token: string, ok: bool): (r: Option<Row>)
    requires Valid(t)
    ensures r.Some? ==>
      && ok
      && r.value.nodeId in t.rows
      && t.rows[r.value.nodeId] == r.value.node
      && r.value.node.token == token
    ensures r.Some? ==> forall id :: id in t.rows && t.rows[id].token == token ==> r.value.nodeId <= id
    ensures r.None? <==> !ok || forall id :: id in t.rows ==> t.rows[id].token != token
  {
    var q := GetByToken(t, token, ok);
    if q.success then
      assert |q.results| > 0 by {
        assert exists id :: id in t.rows && t.rows[id].token == token && Row(id, t.rows[id]) in q.results;
      }
      forall id | id in t.rows && t.rows[id].token == token
        ensures q.results[0].nodeId <= id
      {
        var j :| 0 <= j < |q.results| && q.results[j] == Row(id, t.rows[id]);
        assert j == 0 || q.results[0].nodeId < q.results[j].nodeId;
      }
      Some(q.results[0])
    else
      None
  }

  /** `ping`: emit the parameters and reply {success:true}. */
  function Ping(st: State, protocol: string, sender: string, p: Params, env: Env): (r: Step)
    ensures r.state.nodes == st.nodes && r.state.online == st.online
    ensures r.state.events == st.events + [Pinged(p)]
    ensures r.reply == Some(Succeeded) && r.save == None
  {
    Step(st.(events := st.events + [Pinged(p)]), Some(Succeeded), None)
  }

  /** `registerNode`: insert a row for the generated token with resource
      `protocol://sender` and active 0. A failed insert replies
      {success:false}. After a successful insert the components URI is
      split; if it has no scheme prefix, or names a side store that does not
      exist, the handler throws with the row already stored and sends no
      reply. Otherwise the path is saved to that store (its failures are
      swallowed) and the reply carries the stored token. */
  function RegisterNode(st: State, protocol: string, sender: string, p: Params, env: Env): (r: Step)
    requires WellFormed(st)
    ensures WellFormed(r.state)
    ensures r.state.online == st.online && r.state.events == st.events
    ensures !env.writeOk ==> r.state == st && r.reply == Some(Failed) && r.save == None
    ensures env.writeOk ==>
      && NewId(st.nodes) !in st.nodes.rows
      && r.state.nodes.rows.Keys == st.nodes.rows.Keys + {NewId(st.nodes)}
      && r.state.nodes.rows[NewId(st.nodes)] ==
         NodeRow(env.token, p.components, p.information, protocol + "://" + sender, 0)
      && forall id :: id in st.nodes.rows ==> r.state.nodes.rows[id] == st.nodes.rows[id]
    ensures r.reply.Some? ==> r.reply.value in {Failed, Registered(env.token)}
    ensures env.writeOk ==> r.reply != Some(Failed)
    ensures r.reply == Some(Registered(env.token)) <==> r.save.Some?
    ensures r.save.Some? ==> r.save == Components.Split(p.components)
    ensures r.save.Some? ==>
      && env.writeOk
      && r.save.value.store in env.stores
      && (r.save.value.store == "//" || p.components == r.save.value.store + "://" + r.save.value.path)
    ensures env.writeOk && r.save.None? ==>
      Components.Split(p.components).None? || Components.Split(p.components).value.store !in env.stores
  {
    var w := Create(st.nodes, env.token, p.components, p.information, protocol + "://" + sender, env.writeOk);
    if !w.success then
      Step(st, Some(Failed), None)
    else
      var st' := st.(nodes := w.table);
      match Components.Split(p.components)
      case None => Step(st', None, None)
      case Some(target) =>
        if target.store in env.stores then Step(st', Some(Registered(env.token)), Some(target))
        else Step(st', None, None)
  }

  /** `updateNode`: look the token up; on success overwrite components and
      information of that row and, if the node is online, the cached
      components of its first online entry. A failed lookup sends no reply;
      a failed UPDATE replies {success:false}. */
  function UpdateNode(st: State, protocol: string, sender: string, p: Params, env: Env): (r: Step)
    requires WellFormed(st)
    ensures WellFormed(r.state)
    ensures r.save == None && r.state.events == st.events
    ensures r.reply.None? <==> Lookup(st.nodes, p.token, env.selectOk).None?
    ensures r.reply.Some? ==> r.reply.value == if env.writeOk then Succeeded else Failed
    ensures r.reply != Some(Succeeded) ==> r.state == st
    ensures r.reply == Some(Succeeded) ==>
      var id := Lookup(st.nodes, p.token, env.selectOk).value.nodeId;
      && r.state.nodes.next == st.nodes.next
      && r.state.nodes.rows.Keys == st.nodes.rows.Keys
      && r.state.nodes.rows[id] == st.nodes.rows[id].(components := p.components, information := p.information)
      && (forall k :: k in st.nodes.rows && k != id ==> r.state.nodes.rows[k] == st.nodes.rows[k])
      && |r.state.online| == |st.online|
      && (Find(st.online, id).None? ==> r.state.online == st.online)
      && (Find(st.online, id).Some? ==>
            var i := Find(st.online, id).value;
            && r.state.online[i] == st.online[i].(components := p.components)
            && forall k :: 0 <= k < |st.online| && k != i ==> r.state.online[k] == st.online[k])
  {
    match Lookup(st.nodes, p.token, env.selectOk)
    case None => Step(st, None, None)
    case Some(node) =>
      var w := Update(st.nodes, p.components, p.information, node.nodeId, env.writeOk);
      if w.success then
        Step(st.(nodes := w.table, online := SetComponents(st.online, node.nodeId, p.components)),
             Some(Succeeded), None)
      else
        Step(st, Some(Failed), None)
  }

  /** `logoutNode`: drop every online entry on the sender's address, whatever
      its protocol, and emit `disconnected`. */
  function LogoutNode(st: State, protocol: string, sender: string): (r: State)
    ensures r.nodes == st.nodes
    ensures r.events == st.events + [Disconnected]
    ensures forall e :: e in r.online <==> e in st.online && e.resource != sender
    ensures |r.online| <= |st.online|
  {
    st.(online := Logout(st.online, sender), events := st.events + [Disconnected])
  }

  /** `deleteNode`: look the token up; on success delete that row, reply
      {success:true} and log out the sender's address (not the deleted
      node's online entries). A failed lookup sends no reply; a failed
      DELETE replies {success:false}. */
  function DeleteNode(st: State, protocol: string, sender: string, p: Params, env: Env): (r: Step)
    requires WellFormed(st)
    ensures WellFormed(r.state)
    ensures r.save == None
    ensures r.reply.None? <==> Lookup(st.nodes, p.token, env.selectOk).None?
    ensures r.reply.Some? ==> r.reply.value == if env.writeOk then Succeeded else Failed
    ensures r.reply != Some(Succeeded) ==> r.state == st
    ensures r.reply == Some(Succeeded) ==>
      var id := Lookup(st.nodes, p.token, env.selectOk).value.nodeId;
      && r.state.nodes.rows.Keys == st.nodes.rows.Keys - {id}
      && (forall k :: k in r.state.nodes.rows ==> r.state.nodes.rows[k] == st.nodes.rows[k])
      && r.state.nodes.next == st.nodes.next
      && r.state.online == Logout(st.online, sender)
      && r.state.events == st.events + [Disconnected]
  {
    match Lookup(st.nodes, p.token, env.selectOk)
    case None => Step(st, None, None)
    case Some(node) =>
      var w := Delete(st.nodes, node.nodeId, env.writeOk);
      if w.success then
        Step(LogoutNode(st.(nodes := w.table), protocol, sender), Some(Succeeded), None)
      else
        Step(st, Some(Failed), None)
  }

  /** `loginNode`: look the token up; on success append an online entry for
      that row on the sender's address and protocol (existing entries are
      kept, even one for the same address) and reply with the stored
      components; otherwise reply {success:false} and change nothing. */
  function LoginNode(st: State, protocol: string, sender: string, p: Params, env: Env): (r: Step)
    requires WellFormed(st)
    ensures r.save == None && r.state.nodes == st.nodes && r.state.events == st.events
    ensures Lookup(st.nodes, p.token, env.selectOk).None? ==> r.state == st && r.reply == Some(Failed)
    ensures Lookup(st.nodes, p.token, env.selectOk).Some? ==>
      var row := Lookup(st.nodes, p.token, env.selectOk).value;
      && |r.state.online| == |st.online| + 1
      && r.state.online[..|st.online|] == st.online
      && r.state.online[|st.online|] == OnlineNode(row.node.components, row.nodeId, sender, protocol)
      && r.reply == Some(Logged(row.node.components))
  {
    match Lookup(st.nodes, p.token, env.selectOk)
    case None => Step(st, Some(Failed), None)
    case Some(node) =>
      var entry := OnlineNode(node.node.components, node.nodeId, sender, protocol);
      Step(st.(online := st.online + [entry]), Some(Logged(node.node.components)), None)
  }

  /** A request's outcome and the route its reply travels on. */
  datatype Answer = Answer(step: Step, response: Bindings.Route)

  /** Runs the handler bound to `route`, as the adapters are configured to
      do with the binding table; an unbound route runs nothing. */
  function Dispatch(st: State, route: Bindings.Route, protocol: string, sender: string,
                    p: Params, env: Env): (r: Option<Answer>)
    requires WellFormed(st)
    ensures r.None? <==> forall b :: b in Bindings.NodeBindings ==> b.request != route
    ensures r.Some? ==> route.channel == Bindings.NodeToInstance
    ensures r.Some? ==> r.value.response.channel == Bindings.InstanceToNode
    ensures r.Some? ==> WellFormed(r.value.step.state)
    ensures route == Bindings.Route(Bindings.NodeToInstance, "register") ==>
      r == Some(Answer(RegisterNode(st, protocol, sender, p, env), Bindings.Route(Bindings.InstanceToNode, "registerConfirm")))
    ensures route == Bindings.Route(Bindings.NodeToInstance, "update") ==>
      r == Some(Answer(UpdateNode(st, protocol, sender, p, env), Bindings.Route(Bindings.InstanceToNode, "updated")))
    ensures route == Bindings.Route(Bindings.NodeToInstance, "delete") ==>
      r == Some(Answer(DeleteNode(st, protocol, sender, p, env), Bindings.Route(Bindings.InstanceToNode, "deleted")))
    ensures route == Bindings.Route(Bindings.NodeToInstance, "login") ==>
      r == Some(Answer(LoginNode(st, protocol, sender, p, env), Bindings.Route(Bindings.InstanceToNode, "logged")))
    ensures route == Bindings.Route(Bindings.NodeToInstance, "ping") ==>
      r == Some(Answer(Ping(st, protocol, sender, p, env), Bindings.Route(Bindings.InstanceToNode, "pinged")))
  {
    Bindings.NodeBindingsWellFormed();
    match Bindings.Bind(Bindings.NodeBindings, route)
    case None => None
    case Some(b) =>
      var step :=
        match b.handler
        case RegisterNode => RegisterNode(st, protocol, sender, p, env)
        case UpdateNode => UpdateNode(st, protocol, sender, p, env)
        case DeleteNode => DeleteNode(st, protocol, sender, p, env)
        case LoginNode => LoginNode(st, protocol, sender, p, env)
        case Ping => Ping(st, protocol, sender, p, env);
      Some(Answer(step, b.response))
  }
}
