/**
 The node ("Union") as an immutable record of four maps and the inbound
 message dispatcher as a pure transition: one message from one peer yields
 the next state and the effects the runtime must perform, in order.
 */
module Union {
  import opened UnionTypes
  import opened Registry
  import opened Directory
  import opened Correlator

  datatype State = State(
    name: string,
    localUnits: map<UnitId, Unit>,
    remoteUnits: map<UnitId, Peer>,
    dialUnions: map<Address, bool>,
    rpcs: map<Index, Rpc>)

  /**
   What the runtime supplies to a transition: the order in which it ranges
   over the local-unit map, and the dynamic-call adapter that returns a
   method's result.
   */
  datatype Env = Env(order: seq<UnitId>, call: (Callee, Method, seq<Value>) -> Option<Value>)

  datatype Transition = Transition(state: State, effects: seq<Effect>)

  /** The well-formedness every reachable state keeps. */
  predicate Valid(s: State)
  {
    && (forall k | k in s.localUnits :: s.localUnits[k].id == k)
    && Consistent(s.rpcs)
  }

  /** A node holding the given units and nothing else. */
  function NewUnion(name: string, units: seq<Unit>): (s: State)
    ensures s.name == name
    ensures s.remoteUnits == map[] && s.dialUnions == map[] && s.rpcs == map[]
    ensures forall i | 0 <= i < |units| :: units[i].id in s.localUnits
    ensures forall k | k in s.localUnits :: s.localUnits[k] in units
    ensures forall i | 0 <= i < |units| && LastWithId(units, i) :: s.localUnits[units[i].id] == units[i]
    ensures Valid(s)
  {
    UnitTableDomain(units);
    forall i | 0 <= i < |units| && LastWithId(units, i)
      ensures UnitTable(units)[units[i].id] == units[i]
    {
      UnitTableLastWins(units, i);
    }
    State(name, UnitTable(units), map[], map[], map[])
  }

  /** Registers a pending outbound call; nothing else about the node changes. */
  function Invoke(s: State, rpc: Rpc): (s': State)
    ensures s'.rpcs.Keys == s.rpcs.Keys + {rpc.index}
    ensures s'.rpcs[rpc.index] == rpc
    ensures forall i | i in s.rpcs && i != rpc.index :: s'.rpcs[i] == s.rpcs[i]
    ensures s' == s.(rpcs := s'.rpcs)
    ensures Valid(s) ==> Valid(s')
  {
    s.(rpcs := Record(s.rpcs, rpc))
  }

  /** The effects of one readiness evaluation: start every local unit, or nothing. */
  function StartIfReady(dial: map<Address, bool>): seq<Effect>
  {
    if Ready(dial) then [StartAll] else []
  }

  /** REGISTER_REQUEST: route the advertised ids to the sender; mark its address joined once. */
  function OnRegisterRequest(s: State, peer: Peer, ids: seq<UnitId>): (t: Transition)
  {
    var routed := s.(remoteUnits := Assign(s.remoteUnits, ids, peer));
    var addr := peer.addr;
    if addr !in s.dialUnions || !s.dialUnions[addr] then
      var dial := s.dialUnions[addr := true];
      Transition(routed.(dialUnions := dial), StartIfReady(dial))
    else
      Transition(routed, [])
  }

  /** REGISTER_RESPONSE: listen on the assigned port, initialise the local units, ask the sender to resolve their dependencies. */
  function OnRegisterResponse(s: State, peer: Peer, port: Port, env: Env): (t: Transition)
    requires Enumerates(env.order, s.localUnits.Keys)
  {
    Transition(s, [Listen(port), InitAll, Send(peer, ImportRequest(Depends(s.localUnits, env.order)))])
  }

  /** IMPORT_RESPONSE: wait for the listed siblings afresh, or start at once when there are none. */
  function OnImportResponse(s: State, unions: seq<Address>): (t: Transition)
  {
    if |unions| > 0 then
      Transition(s.(dialUnions := Pending(unions)), DialAll(unions))
    else
      Transition(s, [StartAll])
  }

  /** RPC_REQUEST: call a local unit and reply; a request for an unknown unit is dropped. */
  function OnRpcRequest(s: State, peer: Peer, index: Index, unitId: UnitId, methodName: Method,
                        args: seq<Value>, withResult: bool, env: Env): (t: Transition)
  {
    if unitId in s.localUnits then
      var result := if withResult then env.call(s.localUnits[unitId].callee, methodName, args) else None;
      Transition(s, [Call(unitId, methodName, args, withResult), Send(peer, RpcResponse(index, unitId, methodName, result))])
    else
      Transition(s, [])
  }

  /** RPC_RESPONSE: complete the matching pending call, if there is one. */
  function OnRpcResponse(s: State, index: Index, result: Option<Value>): (t: Transition)
  {
    var c := Complete(s.rpcs, index, result);
    Transition(s.(rpcs := c.rpcs), c.effects)
  }

  /**
   The dispatcher: one inbound message from `peer`, handled atomically.
   ERROR and IMPORT_REQUEST (which only a hub answers) change nothing.
   */
  function Step(s: State, peer: Peer, msg: Message, env: Env): (t: Transition)
    requires msg.RegisterResponse? ==> Enumerates(env.order, s.localUnits.Keys)
    ensures t.state.name == s.name && t.state.localUnits == s.localUnits
    ensures t.state.rpcs.Keys <= s.rpcs.Keys
    ensures Valid(s) ==> Valid(t.state)
  {
    match msg
    case Error => Transition(s, [])
    case RegisterRequest(ids) => OnRegisterRequest(s, peer, ids)
    case RegisterResponse(port) => OnRegisterResponse(s, peer, port, env)
    case ImportRequest(_) => Transition(s, [])
    case ImportResponse(unions) => OnImportResponse(s, unions)
    case QueryResponse(addr) => Transition(s, [Dial(addr)])
    case RpcRequest(index, unitId, methodName, args, withResult) =>
      OnRpcRequest(s, peer, index, unitId, methodName, args, withResult, env)
    case RpcResponse(index, _, _, result) => OnRpcResponse(s, index, result)
  }
}
