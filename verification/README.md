# Union: node coordination in gounite, modelled in Dafny

This project models the node-coordination core of the gounite framework,
the `Union` type in `framework/union.go`. A Union is a process-wide node. It
owns a set of local units, which are services with an id and a list of
dependency ids. It keeps four maps:

- `localUnits`: unit id → unit.
- `remoteUnits`: unit id → the peer connection that advertised it.
- `dialUnions`: sibling node address → "has joined" flag.
- `rpcs`: correlation index → pending outbound call.

Inbound packets go through `OnPacket`, which switches on the message kind.
The model has no goroutines or sockets, so each packet becomes one atomic,
deterministic transition:

    Step(state, peer, message, env) -> Transition(state', effects)

The effects are the things the Go code hands to the runtime: `Dial(addr)`,
`Listen(port)`, `Send(peer, msg)`, `InitAll`, `StartAll`,
`Call(unit, method, args, withResult)` (the dynamic call into a unit, through the entry point that returns a result only when one is asked for) and
`Notify(callback, result)` (running a pending call's completion callback).
`env` carries two things the runtime decides for each message: the order in which a Go
`range` walks the local-unit map, and the dynamic-call adapter.

Files:

- `types.dfy` (module `UnionTypes`): units, peers, pending calls, the eight
  message kinds and the effects.
- `registry.dfy` (module `Registry`): the local-unit table built by
  `NewUnion`, `collect` and `depends`.
- `directory.dfy` (module `Directory`): routing advertised ids to peers, the
  join map, and the readiness scan of `tryStart`.
- `correlator.dfy` (module `Correlator`): the pending-call table (`invoke`
  and the RPC_RESPONSE lookup).
- `union.dfy` (module `Union`): the node state, `NewUnion`, `invoke` and the
  dispatcher `Step`.
- `properties.dfy` (module `UnionProperties`): per-message and multi-message
  properties of `Step`, and `Run`, which feeds a sequence of packets through
  `Step` one at a time.

Go map iteration order is unspecified, and the model handles that in two ways:

- `Collect` and `TryStart` are methods that pick the next key with `:|`, so
  they are proved for every iteration order.
- `Depends` takes the order as a parameter. Its result is related to an
  order-free reference bag, `DependsBag`, so any two orders give
  permutations of each other.

## Model

| member | source | states |
|---|---|---|
| Union.NewUnion | framework/union.go:14-29 | A new node has no remote units, no join entries and no pending calls. Every given unit's id is a key of `localUnits`. Every stored unit is one of the given units. When ids repeat, the last unit with that id is the one kept. |
| Registry.UnitTableDomain | framework/union.go:22-26 | The local-unit table holds exactly the ids of the given units. Each entry is one of the given units, filed under its own id. |
| Registry.UnitTableLastWins | framework/union.go:22-26 | If a unit is the last one in the argument list with its id, the table maps that id to this unit. A later unit overwrites an earlier one. |
| Registry.Collect | framework/union.go:169-176 | For any iteration order of the map, the collected ids list every local unit id exactly once. Its length equals the number of local units. |
| Registry.Depends | framework/union.go:178-185 | For any iteration order, the IMPORT_REQUEST payload holds, as a multiset, exactly the bag of all units' dependency lists combined. Nothing is deduplicated. |
| Registry.DependsOrderIrrelevant | framework/union.go:178-185 | Two different iteration orders give payloads that are permutations of each other and have the same length. |
| Registry.DependsMembership | framework/union.go:178-185 | An id is in the payload iff some local unit lists it as a dependency. |
| Registry.DependsKeepsDuplicates | framework/union.go:178-185 | If two distinct units both depend on the same id, that id appears at least twice in the payload. |
| Directory.Assign | framework/union.go:71-73 | Every advertised id routes to the sending peer. All other routes are unchanged. The route keys are the old keys plus the advertised ids. |
| Directory.AssignIdempotent | framework/union.go:71-73 | Routing the same ids to the same peer a second time leaves the routes unchanged. |
| Directory.TryStart | framework/union.go:187-195 | For any scan order, the scan decides to start iff every join flag is true. An empty join map always starts. |
| Directory.Pending | framework/union.go:105-110 | A new import round's join map has exactly the listed addresses as keys, each marked not joined. A non-empty round is not ready. Marking any single address joined makes it ready iff that address is the only one listed. |
| Directory.DialAll | framework/union.go:106-109 | One dial is emitted per listed address, in list order, so a repeated address is dialled once per listing. |
| Correlator.Record | framework/union.go:203-205 | `invoke` files the call under its index. Any call already pending at that index is replaced. Other entries are kept, and a consistent table stays consistent. |
| Correlator.Complete | framework/union.go:151-158 | A pending index runs that call's callback once with the response's result and removes only that entry, so the table shrinks by one. An unknown index changes nothing and emits nothing. |
| Correlator.CompleteOnce | framework/union.go:151-158 | If the same index is completed twice, the second completion is a no-op. |
| Correlator.RecordThenComplete | framework/union.go:151-158 | Recording a call under a fresh index and then completing it restores the original table and runs exactly that call's callback. |
| Union.Invoke | framework/union.go:203-205 | Registering a pending call changes only `rpcs`. The new call sits under its own index, other entries are unchanged, and well-formedness is preserved. |
| Union.Step | framework/union.go:61-161 | No message changes the node's name or local units. No message adds a pending call. Every message preserves well-formedness: units are filed under their ids and calls under their indices. |
| UnionProperties.Run | framework/union.go:61-161 | Any sequence of messages, handled one at a time with a separate runtime environment (iteration order and call results) for each message, keeps the local units, never adds a pending call, and preserves well-formedness. |
| UnionProperties.IgnoredKinds | framework/union.go:63-67 | ERROR and IMPORT_REQUEST change nothing and emit nothing. IMPORT_REQUEST has no case in the switch. |
| UnionProperties.RegisterRequestRoutes | framework/union.go:70-78 | REGISTER_REQUEST routes every advertised id to the sender and keeps all other routes. Afterwards the sender's address is marked joined. Other join entries and the pending calls are unchanged. |
| UnionProperties.RegisterRequestIdempotent | framework/union.go:75-80 | If the sender's address is already joined, the join map is unchanged and no start is emitted. |
| UnionProperties.RegisterRequestTwice | framework/union.go:70-80 | The same REGISTER_REQUEST delivered a second time changes no state and emits nothing. |
| UnionProperties.RegisterRequestStartsIff | framework/union.go:75-80 | REGISTER_REQUEST emits `StartAll` iff the sender was not yet joined and every other join entry is true. It emits nothing else. |
| UnionProperties.StartRepeatsPerNewAddress | framework/union.go:76-79 | There is no "already started" guard. On a ready node, each REGISTER_REQUEST from a new address emits `StartAll` again. |
| UnionProperties.TwoRegistrationsBothRecorded | framework/union.go:70-78 | Two peers that register disjoint ids one after the other both end up routed and both marked joined. No update is lost. |
| UnionProperties.RegisterResponseImports | framework/union.go:82-100 | REGISTER_RESPONSE leaves the state unchanged. In order, it listens on the assigned port, runs the init hooks, and sends the sender an IMPORT_REQUEST. That payload is the bag of all dependency ids, and an id is in it iff some unit depends on it. |
| UnionProperties.ImportResponseReplaces | framework/union.go:103-111 | A non-empty IMPORT_RESPONSE replaces the join map with exactly the listed addresses, all not joined, dropping earlier entries. The node is then not ready. It emits one dial per listed address, in order. Nothing else changes. |
| UnionProperties.ImportResponseEmptyStarts | framework/union.go:112-114 | An empty IMPORT_RESPONSE leaves the state unchanged and emits `StartAll`. |
| UnionProperties.ImportThenRegister | framework/union.go:101-114 | After a non-empty import round, the next REGISTER_REQUEST starts the node iff its sender's address is the only address listed. |
| UnionProperties.QueryResponseDials | framework/union.go:116-121 | QUERY_RESPONSE dials the named address and changes nothing. |
| UnionProperties.RpcRequestUnknownDropped | framework/union.go:124-126 | An RPC_REQUEST for a unit the node does not hold produces no state change and no effect. |
| UnionProperties.RpcRequestReplies | framework/union.go:124-147 | For a local unit, RPC_REQUEST calls the unit and replies to the sender with the same index, unit id and method. The result is absent when no result was asked for, and otherwise is the call's result. The state is unchanged. |
| UnionProperties.RpcResponseCompletes | framework/union.go:149-158 | RPC_RESPONSE with a pending index runs that entry's callback with the response's result and removes only that index. The rest of the node is unchanged. |
| UnionProperties.RpcResponseUnknownIgnored | framework/union.go:151-153 | RPC_RESPONSE with an index that is not pending changes nothing and emits nothing. |
| UnionProperties.RpcResponseOnce | framework/union.go:151-158 | A second RPC_RESPONSE for the same index, after the first, is a no-op. |
| UnionProperties.InvokeThenRespond | framework/union.go:151-158 | Registering a call under a fresh index and then receiving its response runs the callback once and restores the node to its state before the call. |
| UnionProperties.RpcRoundTrip | framework/union.go:122-158 | This is the cross-node round trip of a call. A caller registers a call under a fresh index, and the callee holds the target unit. The callee serves the matching RPC_REQUEST with a call of that unit and method, with those arguments and the same `withResult` flag, followed by one RPC_RESPONSE to the caller, whose result is absent when none was asked for. The callee's own state does not change. Delivering that response back to the caller runs the registered callback once with that result. The caller is then left exactly as it was before the call. |
| UnionProperties.JoiningNodeDepends | framework/union.go:179-186 | For the scenario's two-unit table, the dependency list is exactly `["a1"]` under every iteration order. |
| UnionProperties.RunTwo | framework/union.go:61-161 | Two messages handled in a row: the second sees the state the first leaves, and the effects are the first message's followed by the second's. |
| UnionProperties.JoinWithoutSiblings | framework/union.go:82-114 | Consider a node with `b1` (depending on `a1`) and `b2`, joining a hub that answers with no siblings. It listens, initialises, asks to import exactly `["a1"]`, and then starts. |

## Left out

- Sockets are not modelled. Socket creation, `Dial`, `Listen` and `peer.Send` (framework/union.go:40-43, 86-87, 107-108, 119-120) appear only as emitted effect values, and their failures are not modelled.
- Concurrency is not modelled. Every goroutine in the file is dropped and each packet is one atomic step: `go socket.Dial()` and `go socket.Listen()` (framework/union.go:43, 87, 108, 120), the sending goroutine of `OnConnected` (:47), the init-and-import goroutine of REGISTER_RESPONSE (:89), the call-and-reply goroutine of RPC_REQUEST (:127), the callback-and-delete goroutine of RPC_RESPONSE (:154) and `go u.start()` (:113, 194). In the Go code two responses with the same index can race on that delete; the model makes lookup and delete one step and emits the callback as a `Notify` effect. For the same reason, the listen goroutine and the init goroutine of REGISTER_RESPONSE appear in a fixed order.
- Correlator.Complete: removes the pending entry before the callback runs, because the callback is an emitted `Notify` effect performed after the step. Go runs `rpc.callback` (framework/union.go:155) before `delete` (:156), so while the callback runs the entry is still pending, and a call the callback re-registers under the same index is then deleted. The model cannot express a callback that re-enters the node, so this interleaving is not modelled.
- Malformed input is not modelled. The Go code panics on a failed type assertion (`v.(*unit)` at framework/union.go:23, `obj.(*packer)` at :62, the payload assertions at :70, 84, 103, 118, 124, 151) and on a nil unit at :24, and a packet whose kind matches no case falls through the switch silently. The `Unit` and `Message` datatypes admit only well-typed units and the eight known kinds, so these inputs cannot be written down.
- The dynamic call through `chancall` is a parameter. `Env.call` is an opaque function from (callee, method, args) to an optional result. The error that `CallWithResult` returns is discarded by the Go code, so the model has no error value either.
- Serializer registration and wire encoding (framework/union.go:40) are not modelled.
- The bodies of the `OnInit` and `OnStart` hooks are not modelled. They appear as the single effects `InitAll` and `StartAll`, which stand for "run the hook on every local unit". The address string built with `fmt.Sprintf` is not modelled either: `Listen` keeps the port as a number.
- `Run`, `OnConnected` and `OnClosed` are not modelled. `Run` only registers the serializer and dials the hub. `OnConnected` only sends `collect()` in a REGISTER_REQUEST. `OnClosed` is empty.
- The back-reference `u.union = union` is not modelled, because unit internals are not part of this model. The `unit` and `rpc` types are defined outside framework/union.go and are not modelled; the model takes a unit to be (id, dependency list, invocable object) and a pending call to be (index, unit id, method, callback).
- The `nil != target` and `nil != rpc` checks are treated as key membership. A map entry holding a nil value is not modelled.
- Port width is an assumption. The proto types are defined outside framework/union.go; the model takes the port to be an unsigned 16-bit value and the index to be a signed 64-bit value.
- In three places the code does less than a reader of the protocol might expect, and the model follows the code each time:
  - There is no "already started" flag. Readiness is re-evaluated whenever a new address joins, so `StartAll` can be emitted more than once (`StartRepeatsPerNewAddress`).
  - `invoke` only records the pending call. It neither allocates an index nor sends the RPC_REQUEST, and it overwrites a call already pending under the same index.
  - IMPORT_REQUEST is ignored by `OnPacket`.
