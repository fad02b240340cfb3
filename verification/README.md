# Node directory and presence table of nile-local-instance

This project models the node side of the nile local instance: a broker where
service endpoints ("nodes") register, log in and out, update and delete
themselves over any transport protocol. Two pieces of state are involved:

- the persisted **directory**, the SQL table `nodes(node_id, token,
  components, information, resource, active)`, seen through the thin CRUD
  layer `src/models/Node.js`; the SQL engine is an abstract keyed store, a
  map from `node_id` to the other columns plus the next id it will assign;
- the in-memory **online list** `this.online.nodes`, a sequence of
  `{components, id, resource, protocol}` entries.

Every request handler of `src/Instance.js` is one atomic, pure transition
`(state, protocol, sender, parameters, environment) -> (state', reply?, save?)`;
`logoutNode`, which takes only the protocol and the address and never
replies, is a transition `(state, protocol, sender) -> state'`.
The environment carries what the outside world decides: the generated token,
whether each SQL run succeeds, and which decentralized side stores exist. A
handler that ends without calling `reply`, because it returns early or
because it throws, has no reply. The notifications `ping` and `disconnected`
are appended to an event log in the state.

Modules, one per concern:

| file | module | models |
|---|---|---|
| `wrappers.dfy` | `Wrappers` | `Option` |
| `directory.dfy` | `Directory` | the `nodes` table and `Node.create/getByToken/getById/update/delete` |
| `components.dfy` | `Components` | the `scheme://path` split done at registration |
| `presence.dfy` | `Presence` | the online list: filter at logout, `find` and in-place update |
| `bindings.dfy` | `Bindings` | the static `(channel, action) -> handler, response` table |
| `instance.dfy` | `Instance` | `ping`, `registerNode`, `isNodeTokenValid`, `updateNode`, `deleteNode`, `loginNode`, `logoutNode`, dispatch |
| `properties.dfy` | `Properties` | facts relating several handler runs |

Behaviour pinned down by the contracts, as the code is written:

- logout matches on the address alone; the protocol argument is ignored, so
  the same address under two protocols is logged out together;
- login appends an entry and never deduplicates;
- delete logs out the *sender's* address, not the deleted node's entries;
- update and delete send no reply when the token lookup fails;
- registration inserts the row before splitting the components URI, so a
  URI without a scheme prefix (the regular expression does not match and
  the code dereferences `null`) or naming a side store that does not exist
  leaves the row stored and sends no reply;
- a bare leading `//` does match the regular expression; its store key is
  then `//` itself, because the match contains no `://` to strip.

`Properties.LogoutAnyProtocol`, `Properties.LogoutSameAddressTwoProtocols`,
`Properties.LoginTwiceAppendsTwice` and `Properties.DeleteKeepsOtherAddresses`
state the address-only logout, the appending login and the sender-only
logout on delete as lemmas.

Assumptions about code that is not part of this model:

- `src/Db.js` is not part of this model. The handlers read a SELECT's
  `success` as "a row was found" (they index `results[0]` straight away), so
  a SELECT is modelled as succeeding exactly when the run works and matches
  at least one row. A write succeeds exactly when the run works; an UPDATE
  that matches no row still succeeds.
- The SQL has no ORDER BY; rows come back in ascending `node_id`, SQLite's
  table-scan order, so `results[0]` is the lowest matching id.
- The table schema is not part of this model; the store assigns ids from a
  counter that never hands out an id twice.

## Model

| member | source | states |
|---|---|---|
| Directory.Select | src/models/Node.js:23-28 | a SELECT returns exactly the stored rows satisfying its WHERE clause, each with its stored columns, in strictly ascending node_id |
| Directory.Run | src/Instance.js:105-107 | a failed run returns no rows; a working run returns the selection and reports success iff some stored row matches |
| Directory.Create | src/models/Node.js:5-22 | a successful insert adds exactly one row, under a key no existing row has, carrying the given token, components, information and resource with active = 0; every old row is unchanged; a failed insert changes nothing; the key invariant is kept |
| Directory.GetByToken | src/models/Node.js:23-25 | the results are exactly the rows whose token equals the argument, in ascending id; success iff the run works and such a row exists |
| Directory.GetById | src/models/Node.js:26-28 | the result is the single row with that node_id when it exists, and an unsuccessful empty result otherwise |
| Directory.SelectById | src/models/Node.js:26-28 | selecting by key yields the keyed row alone or nothing |
| Directory.Update | src/models/Node.js:29-38 | only components and information of the row with that node_id change; token, resource, active, the key set and every other row stay; a missing key or failed run changes nothing |
| Directory.Delete | src/models/Node.js:39-42 | a successful delete removes that key and no other; every remaining row is unchanged |
| Directory.CreateThenGetByToken | src/models/Node.js:5-25 | a created row is found again by its token with the created fields and active = 0, and is the only result when no earlier row had that token |
| Components.Split | src/Instance.js:96-98 | a match with a scheme yields a store key made of word characters and a path that rebuild the input around `://`; a bare `//` match yields key `//` and the rest as path |
| Components.SplitRoundTrip | src/Instance.js:96-98 | `s + "://" + p` with `s` a non-empty run of word characters splits into exactly key `s` and path `p` |
| Components.SplitBareSlashes | src/Instance.js:96-98 | an input starting with `//` splits into key `//` and the rest |
| Components.SplitNeedsDoubleSlash | src/Instance.js:96-97 | an input without `//` anywhere has no match |
| Presence.Logout | src/Instance.js:171 | the surviving entries are exactly those whose address differs from the sender's |
| Presence.Find | src/Instance.js:119 | the index found is the first entry with that id; none is found only when no entry has it |
| Presence.SetComponents | src/Instance.js:119-122 | only the first entry with that id gets the new components; all other entries and fields are unchanged, and nothing changes without such an entry |
| Presence.LogoutAppend | src/Instance.js:171 | logout distributes over concatenation, so survivors keep their relative order |
| Presence.LogoutAbsent | src/Instance.js:171 | logout with no entry on that address is a no-op |
| Presence.LogoutIdempotent | src/Instance.js:171 | logging out the same address twice equals once |
| Bindings.Bind | src/Instance.js:15-61 | the binding returned listens on the requested route; none is returned only when no binding listens there |
| Bindings.NodeBindingsWellFormed | src/Instance.js:15-61 | five bindings with pairwise distinct requests, all on `node.to.instance`, each replying on `instance.to.node` with its handler's response action |
| Bindings.EveryHandlerBound | src/Instance.js:15-61 | each of the five handlers is reached from its request action |
| Bindings.OnlyNodeChannelBound | src/Instance.js:15-61 | no route outside `node.to.instance` is bound |
| Instance.Lookup | src/Instance.js:105-111 | the token lookup yields a stored row carrying that token with the lowest such id, and fails exactly when the run fails or no row has the token |
| Instance.Ping | src/Instance.js:70-75 | ping records a `ping` event with the parameters, replies success and touches neither the directory nor the online list |
| Instance.RegisterNode | src/Instance.js:76-104 | a successful insert stores one new row with the generated token, `protocol://sender` as resource and active 0; a failed insert replies failure and starts no save; after a successful insert the reply is never failure: it carries the stored token exactly when a save to an existing side store is started, and otherwise (no scheme match, or an unknown store, where the source throws) there is no reply; the save started is exactly the split of the components |
| Instance.UpdateNode | src/Instance.js:108-132 | a failed lookup gives no reply and no change; a failed UPDATE replies failure and changes nothing; on success only that row's components and information change, only the first online entry with that id gets the new components, and the reply is success |
| Instance.DeleteNode | src/Instance.js:133-149 | a failed lookup gives no reply and no change; a failed DELETE replies failure and changes nothing; on success exactly the found row is removed, the id counter is kept, the reply is success, and the online list becomes the order-preserving logout of the sender's address |
| Instance.LoginNode | src/Instance.js:150-169 | a found row appends exactly one entry (row components, row id, sender, protocol) after the unchanged existing entries and replies with the row's components; otherwise the reply is failure and nothing changes |
| Instance.LogoutNode | src/Instance.js:170-173 | the online list keeps exactly the entries on other addresses, the directory is unchanged and a `disconnected` event is recorded |
| Instance.Dispatch | src/Instance.js:15-61 | a request runs a handler exactly when its route is bound, always on `node.to.instance`, and the reply route is on `instance.to.node` |
| Properties.RegisterThenLogin | src/Instance.js:76-169 | logging in with a freshly registered token replies with the registered components and appends an entry with the new id |
| Properties.RegisterKeepsTokensUnique | src/Instance.js:76-94 | registering with a token no row carries keeps tokens unique |
| Properties.LookupFollowsTokens | src/Instance.js:105-111 | tables with the same keys and tokens resolve a token to the same row |
| Properties.UpdateThenLogin | src/Instance.js:108-169 | after a successful update, login with the same token replies with the new components |
| Properties.DeleteThenLogin | src/Instance.js:133-169 | with unique tokens, login after a successful delete replies failure |
| Properties.LoginTwiceAppendsTwice | src/Instance.js:154-159 | two logins of the same node from the same address leave two identical entries |
| Properties.LogoutNodeIdempotent | src/Instance.js:170-173 | a second logout of the same address leaves the online list unchanged |
| Properties.LogoutNodeAbsent | src/Instance.js:170-173 | logout of an address with no entry leaves the online list unchanged |
| Properties.LogoutNodeKeepsOrder | src/Instance.js:170-173 | logout keeps the surviving entries in their original order |
| Properties.LogoutIgnoresProtocol | src/Instance.js:170-171 | the protocol argument of logout has no effect |
| Properties.LoginThenLogout | src/Instance.js:150-173 | logout right after a login from the same address removes the new entry with the older ones |
| Properties.DeleteKeepsOtherAddresses | src/Instance.js:133-142 | delete leaves online entries on other addresses, including the deleted node's own |
| Properties.LogoutAnyProtocol | src/Instance.js:170-171 | logout removes every entry on the sender's address, whatever protocol it was logged in with |
| Properties.LogoutSameAddressTwoProtocols | src/Instance.js:170-171 | for example, a ws and an http session on the same address are both removed by one logout |

## Left out

- Transport adapters and listener wiring (`loadListeners`, the adapters'
  disconnect hook, socket.io, HTTP): I/O plumbing over adapter code that is
  not part of this model. `Instance.Dispatch` models only what the binding
  table tells an adapter to do.
- Token generation (`randomstring.generate(5) + Date.now()`): random and
  clock-dependent; the token is an input (`Env.token`). Token uniqueness is
  therefore not guaranteed by the model, and the lemmas that need it assume it.
- The side store's `save` call and its swallowed rejection: an external
  asynchronous collaborator; the model records only the `(store, path)` it
  is given.
- The SQL engine and `Db.run`: replaced by the keyed store; whether a run
  succeeds is an input.
- JSON serialization: the information is an opaque string.
- Instance.RegisterNode: stores the information as given, whereas the source
  stores `JSON.stringify` of it (update stores it unserialized), because the
  serializer belongs to the JavaScript runtime.
- Exceptions from malformed parameters (a missing or non-string
  `components`, a missing `token`): parameters are typed strings.
- Client records, message forwarding and the offline queue: not in the
  modelled handlers.
- Concurrency and interleaving of the asynchronous handlers: each handler is
  one atomic transition.
