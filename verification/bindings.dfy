/** The static binding table an Instance hands to every transport adapter:
    each (channel, action) a node may send to the instance, the handler it
    runs, and the (channel, action) its reply travels back on. */
module Bindings {

  import opened Wrappers

  datatype Handler = RegisterNode | UpdateNode | DeleteNode | LoginNode | Ping

  datatype Route = Route(channel: string, action: string)

  datatype Binding = Binding(request: Route, handler: Handler, response: Route)

  const NodeToInstance: string := "node.to.instance"
  const InstanceToNode: string := "instance.to.node"

  /** The table, in the order the constructor lists it. */
  const NodeBindings: seq<Binding> := [
    Binding(Route(NodeToInstance, "register"), RegisterNode, Route(InstanceToNode, "registerConfirm")),
    Binding(Route(NodeToInstance, "update"), UpdateNode, Route(InstanceToNode, "updated")),
    Binding(Route(NodeToInstance, "delete"), DeleteNode, Route(InstanceToNode, "deleted")),
    Binding(Route(NodeToInstance, "login"), LoginNode, Route(InstanceToNode, "logged")),
    Binding(Route(NodeToInstance, "ping"), Ping, Route(InstanceToNode, "pinged"))
  ]

  /** The first binding listening on `route`, if any. */
  function Bind(table: seq<Binding>, route: Route): (r: Option<Binding>)
    ensures r.Some? ==> r.value in table && r.value.request == route
    ensures r.None? ==> forall b :: b in table ==> b.request != route
  {
    if table == [] then None
    else if table[0].request == route then Some(table[0])
    else Bind(table[1..], route)
  }

  /** The reply action conventionally paired with each handler. */
  function ReplyAction(h: Handler): string {
    match h
    case RegisterNode => "registerConfirm"
    case UpdateNode => "updated"
    case DeleteNode => "deleted"
    case LoginNode => "logged"
    case Ping => "pinged"
  }

  /** The five requests are distinct, all arrive on node.to.instance, and
      every reply leaves on instance.to.node with its handler's action. */
  lemma NodeBindingsWellFormed()
    ensures |NodeBindings| == 5
    ensures forall i, j :: 0 <= i < j < |NodeBindings| ==>
      NodeBindings[i].request != NodeBindings[j].request
    ensures forall b :: b in NodeBindings ==>
      && b.request.channel == NodeToInstance
      && b.response == Route(InstanceToNode, ReplyAction(b.handler))
  {
  }

  /** Every handler is reachable: some bound request runs it. */
  lemma EveryHandlerBound(h: Handler)
    ensures Bind(NodeBindings, Route(NodeToInstance, RequestAction(h))).Some?
    ensures Bind(NodeBindings, Route(NodeToInstance, RequestAction(h))).value.handler == h
  {
  }

  /** The request action that runs each handler. */
  function RequestAction(h: Handler): string {
    match h
    case RegisterNode => "register"
    case UpdateNode => "update"
    case DeleteNode => "delete"
    case LoginNode => "login"
    case Ping => "ping"
  }

  /** Nothing is bound outside node.to.instance. */
  lemma OnlyNodeChannelBound(route: Route)
    requires route.channel != NodeToInstance
    ensures Bind(NodeBindings, route) == None
  {
  }
}
