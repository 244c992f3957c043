/**
 What the dispatcher promises, message kind by message kind, and across
 short sequences of messages.
 */
module UnionProperties {
  import opened UnionTypes
  import opened Registry
  import opened Directory
  import opened Correlator
  import opened Union

  /**
   Inbound messages processed one after another, effects concatenated in
   arrival order. Each message gets its own environment, so every `range`
   over the local units may take a fresh order and every dynamic call may
   return a different result.
   */
  function Run(s: State, inbox: seq<(Peer, Message)>, envs: seq<Env>): (t: Transition)
    requires |envs| == |inbox|
    requires forall i | 0 <= i < |envs| :: Enumerates(envs[i].order, s.localUnits.Keys)
    ensures t.state.name == s.name && t.state.localUnits == s.localUnits
    ensures t.state.rpcs.Keys <= s.rpcs.Keys
    ensures Valid(s) ==> Valid(t.state)
    decreases |inbox|
  {
    if |inbox| == 0 then Transition(s, [])
    else
      var first := Step(s, inbox[0].0, inbox[0].1, envs[0]);
      var rest := Run(first.state, inbox[1..], envs[1..]);
      Transition(rest.state, first.effects + rest.effects)
  }

  // ---------------------------------------------------------------- REGISTER_REQUEST

  /** Every advertised id is routed to the sender, other routes are kept, and the sender's address ends up joined. */
  lemma RegisterRequestRoutes(s: State, peer: Peer, ids: seq<UnitId>, env: Env)
    ensures var t := Step(s, peer, RegisterRequest(ids), env);
      && t.state.remoteUnits.Keys == s.remoteUnits.Keys + (set id | id in ids)
      && (forall id | id in ids :: t.state.remoteUnits[id] == peer)
      && (forall k | k in s.remoteUnits && k !in ids :: t.state.remoteUnits[k] == s.remoteUnits[k])
      && t.state.dialUnions.Keys == s.dialUnions.Keys + {peer.addr}
      && t.state.dialUnions[peer.addr]
      && (forall a | a in s.dialUnions && a != peer.addr :: t.state.dialUnions[a] == s.dialUnions[a])
      && t.state.rpcs == s.rpcs
  {
  }

  /** A sender already marked joined leaves the join map alone and triggers no start. */
  lemma RegisterRequestIdempotent(s: State, peer: Peer, ids: seq<UnitId>, env: Env)
    requires peer.addr in s.dialUnions && s.dialUnions[peer.addr]
    ensures var t := Step(s, peer, RegisterRequest(ids), env);
      t.state.dialUnions == s.dialUnions && t.effects == []
  {
  }

  /** The same REGISTER_REQUEST delivered twice: the second delivery changes nothing and emits nothing. */
  lemma RegisterRequestTwice(s: State, peer: Peer, ids: seq<UnitId>, env: Env)
    ensures var t1 := Step(s, peer, RegisterRequest(ids), env);
      Step(t1.state, peer, RegisterRequest(ids), env) == Transition(t1.state, [])
  {
    AssignIdempotent(s.remoteUnits, ids, peer);
  }

  /**
   A REGISTER_REQUEST starts the local units exactly when the sender was not
   yet joined and every other address in the join map already was.
   */
  lemma RegisterRequestStartsIff(s: State, peer: Peer, ids: seq<UnitId>, env: Env)
    ensures var t := Step(s, peer, RegisterRequest(ids), env);
      && (t.effects == [] || t.effects == [StartAll])
      && (StartAll in t.effects <==>
           && (peer.addr !in s.dialUnions || !s.dialUnions[peer.addr])
           && (forall a | a in s.dialUnions && a != peer.addr :: s.dialUnions[a]))
  {
    var addr := peer.addr;
    if addr !in s.dialUnions || !s.dialUnions[addr] {
      var dial := s.dialUnions[addr := true];
      if forall a | a in s.dialUnions && a != addr :: s.dialUnions[a] {
        assert Ready(dial);
      } else {
        var a :| a in s.dialUnions && a != addr && !s.dialUnions[a];
        assert a in dial && !dial[a];
      }
    }
  }

  /**
   The readiness evaluation has no "already started" guard: on a node whose
   join map is ready, each REGISTER_REQUEST from a new address starts the
   local units again.
   */
  lemma StartRepeatsPerNewAddress(s: State, p1: Peer, p2: Peer, ids1: seq<UnitId>, ids2: seq<UnitId>, env: Env)
    requires Ready(s.dialUnions)
    requires p1.addr !in s.dialUnions && p2.addr !in s.dialUnions && p1.addr != p2.addr
    ensures var t1 := Step(s, p1, RegisterRequest(ids1), env);
      var t2 := Step(t1.state, p2, RegisterRequest(ids2), env);
      t1.effects == [StartAll] && t2.effects == [StartAll]
  {
  }

  /** Two nodes registering one after the other: neither registration is lost. */
  lemma TwoRegistrationsBothRecorded(s: State, p1: Peer, p2: Peer, ids1: seq<UnitId>, ids2: seq<UnitId>, env: Env)
    requires forall id | id in ids1 :: id !in ids2
    ensures var t1 := Step(s, p1, RegisterRequest(ids1), env);
      var t2 := Step(t1.state, p2, RegisterRequest(ids2), env);
      && (forall id | id in ids1 :: t2.state.remoteUnits[id] == p1)
      && (forall id | id in ids2 :: t2.state.remoteUnits[id] == p2)
      && p1.addr in t2.state.dialUnions && t2.state.dialUnions[p1.addr]
      && p2.addr in t2.state.dialUnions && t2.state.dialUnions[p2.addr]
  {
    var t1 := Step(s, p1, RegisterRequest(ids1), env);
    RegisterRequestRoutes(s, p1, ids1, env);
    RegisterRequestRoutes(t1.state, p2, ids2, env);
  }

  // ---------------------------------------------------------------- REGISTER_RESPONSE

  /**
   A REGISTER_RESPONSE listens on the assigned port, runs the init hooks and
   sends the sender every local unit's dependency ids, duplicates included;
   the state is untouched.
   */
  lemma RegisterResponseImports(s: State, peer: Peer, port: Port, env: Env)
    requires Enumerates(env.order, s.localUnits.Keys)
    ensures var t := Step(s, peer, RegisterResponse(port), env);
      && t.state == s
      && |t.effects| == 3
      && t.effects[0] == Listen(port)
      && t.effects[1] == InitAll
      && t.effects[2].Send? && t.effects[2].to == peer && t.effects[2].msg.ImportRequest?
      && multiset(t.effects[2].msg.dependencies) == DependsBag(s.localUnits)
      && (forall d :: d in t.effects[2].msg.dependencies <==> exists k | k in s.localUnits :: d in s.localUnits[k].depends)
  {
    forall d ensures d in Depends(s.localUnits, env.order) <==> exists k | k in s.localUnits :: d in s.localUnits[k].depends {
      DependsMembership(s.localUnits, env.order, d);
    }
  }

  // ---------------------------------------------------------------- IMPORT_RESPONSE

  /**
   A non-empty IMPORT_RESPONSE replaces the join map by exactly the listed
   addresses, none joined, dials each listed address once per listing, and
   leaves the node not ready.
   */
  lemma ImportResponseReplaces(s: State, peer: Peer, unions: seq<Address>, env: Env)
    requires |unions| > 0
    ensures var t := Step(s, peer, ImportResponse(unions), env);
      && t.state.dialUnions.Keys == (set a | a in unions)
      && (forall a | a in t.state.dialUnions :: !t.state.dialUnions[a])
      && !Ready(t.state.dialUnions)
      && |t.effects| == |unions|
      && (forall i | 0 <= i < |unions| :: t.effects[i] == Dial(unions[i]))
      && t.state == s.(dialUnions := t.state.dialUnions)
  {
    var t := Step(s, peer, ImportResponse(unions), env);
    assert unions[0] in t.state.dialUnions;
  }

  /** An empty IMPORT_RESPONSE starts the local units at once and changes nothing. */
  lemma ImportResponseEmptyStarts(s: State, peer: Peer, env: Env)
    ensures Step(s, peer, ImportResponse([]), env) == Transition(s, [StartAll])
  {
  }

  /**
   After a non-empty import round, the next REGISTER_REQUEST starts the node
   exactly when its sender's address is the only one listed.
   */
  lemma ImportThenRegister(s: State, hub: Peer, unions: seq<Address>, peer: Peer, ids: seq<UnitId>, env: Env)
    requires |unions| > 0
    ensures var t1 := Step(s, hub, ImportResponse(unions), env);
      var t2 := Step(t1.state, peer, RegisterRequest(ids), env);
      StartAll in t2.effects <==> (set a | a in unions) == {peer.addr}
  {
    var t1 := Step(s, hub, ImportResponse(unions), env);
    var dial := t1.state.dialUnions;
    RegisterRequestStartsIff(t1.state, peer, ids, env);
    if (set a | a in unions) == {peer.addr} {
      assert forall a | a in dial && a != peer.addr :: dial[a];
    } else {
      assert unions[0] in dial;
      var other :| other in (set a | a in unions) && other != peer.addr;
      assert other in dial && !dial[other];
    }
  }

  // ---------------------------------------------------------------- QUERY_RESPONSE, ERROR, IMPORT_REQUEST

  /** A QUERY_RESPONSE dials the named node and changes nothing. */
  lemma QueryResponseDials(s: State, peer: Peer, addr: Address, env: Env)
    ensures Step(s, peer, QueryResponse(addr), env) == Transition(s, [Dial(addr)])
  {
  }

  /** ERROR and IMPORT_REQUEST are ignored by a joining node. */
  lemma IgnoredKinds(s: State, peer: Peer, deps: seq<UnitId>, env: Env)
    ensures Step(s, peer, Error, env) == Transition(s, [])
    ensures Step(s, peer, ImportRequest(deps), env) == Transition(s, [])
  {
  }

  // ---------------------------------------------------------------- RPC_REQUEST

  /** A request for a unit the node does not hold is dropped: no reply, no change. */
  lemma RpcRequestUnknownDropped(s: State, peer: Peer, index: Index, unitId: UnitId, methodName: Method,
                                 args: seq<Value>, withResult: bool, env: Env)
    requires unitId !in s.localUnits
    ensures Step(s, peer, RpcRequest(index, unitId, methodName, args, withResult), env) == Transition(s, [])
  {
  }

  /**
   A request for a local unit calls it and replies to the sender with the
   same index, unit id and method; the result is absent unless one was asked for.
   */
  lemma RpcRequestReplies(s: State, peer: Peer, index: Index, unitId: UnitId, methodName: Method,
                          args: seq<Value>, withResult: bool, env: Env)
    requires unitId in s.localUnits
    ensures var t := Step(s, peer, RpcRequest(index, unitId, methodName, args, withResult), env);
      && t.state == s
      && |t.effects| == 2
      && t.effects[0] == Call(unitId, methodName, args, withResult)
      && t.effects[1].Send? && t.effects[1].to == peer
      && t.effects[1].msg.RpcResponse?
      && t.effects[1].msg.index == index
      && t.effects[1].msg.unitId == unitId
      && t.effects[1].msg.methodName == methodName
      && (!withResult ==> t.effects[1].msg.result == None)
      && (withResult ==> t.effects[1].msg.result == env.call(s.localUnits[unitId].callee, methodName, args))
  {
  }

  // ---------------------------------------------------------------- RPC_RESPONSE

  /** A response for a pending call runs that call's callback with the result and removes only that entry. */
  lemma RpcResponseCompletes(s: State, peer: Peer, index: Index, unitId: UnitId, methodName: Method,
                             result: Option<Value>, env: Env)
    requires index in s.rpcs
    ensures var t := Step(s, peer, RpcResponse(index, unitId, methodName, result), env);
      && t.effects == [Notify(s.rpcs[index].callback, result)]
      && t.state.rpcs.Keys == s.rpcs.Keys - {index}
      && (forall i | i in t.state.rpcs :: t.state.rpcs[i] == s.rpcs[i])
      && t.state == s.(rpcs := t.state.rpcs)
  {
  }

  /** A response whose index is not pending is ignored. */
  lemma RpcResponseUnknownIgnored(s: State, peer: Peer, index: Index, unitId: UnitId, methodName: Method,
                                  result: Option<Value>, env: Env)
    requires index !in s.rpcs
    ensures Step(s, peer, RpcResponse(index, unitId, methodName, result), env) == Transition(s, [])
  {
  }

  /** A second response for the same index, after the first, is a no-op. */
  lemma RpcResponseOnce(s: State, peer: Peer, index: Index, unitId: UnitId, methodName: Method,
                        result1: Option<Value>, result2: Option<Value>, env: Env)
    ensures var t1 := Step(s, peer, RpcResponse(index, unitId, methodName, result1), env);
      Step(t1.state, peer, RpcResponse(index, unitId, methodName, result2), env) == Transition(t1.state, [])
  {
  }

  /**
   Registering a call under a fresh index and then receiving its response
   runs the call's callback once and leaves the node as it was before the call.
   */
  lemma InvokeThenRespond(s: State, rpc: Rpc, peer: Peer, unitId: UnitId, methodName: Method,
                                             result: Option<Value>, env: Env)
    requires rpc.index !in s.rpcs
    ensures Step(Invoke(s, rpc), peer, RpcResponse(rpc.index, unitId, methodName, result), env)
      == Transition(s, [Notify(rpc.callback, result)])
  {
  }

  /**
   A call across two nodes: the caller registers it, the callee answers the
   RPC_REQUEST, and the callee's reply, delivered back to the caller, runs the
   callback once with the reply's result and leaves the caller as it was
   before the call. Without a result asked for, the callback gets none.
   */
  lemma RpcRoundTrip(caller: State, callee: State, rpc: Rpc, args: seq<Value>, withResult: bool,
                     toCaller: Peer, toCallee: Peer, calleeEnv: Env, callerEnv: Env)
    requires rpc.index !in caller.rpcs
    requires rpc.unitId in callee.localUnits
    ensures var served := Step(callee, toCaller, RpcRequest(rpc.index, rpc.unitId, rpc.methodName, args, withResult), calleeEnv);
      && served.state == callee
      && |served.effects| == 2
      && served.effects[0] == Call(rpc.unitId, rpc.methodName, args, withResult)
      && served.effects[1].Send? && served.effects[1].to == toCaller
      && var reply := served.effects[1].msg;
      && reply.RpcResponse?
      && (!withResult ==> reply.result == None)
      && Step(Invoke(caller, rpc), toCallee, reply, callerEnv) == Transition(caller, [Notify(rpc.callback, reply.result)])
  {
  }

  // ---------------------------------------------------------------- Scenarios

  /** The joining node of the scenario below asks for exactly ["a1"], whatever its iteration order. */
  lemma JoiningNodeDepends(units: map<UnitId, Unit>, order: seq<UnitId>)
    requires units.Keys == {"b1", "b2"} && units["b1"].depends == ["a1"] && units["b2"].depends == []
    requires Enumerates(order, units.Keys)
    ensures Depends(units, order) == ["a1"]
  {
    var deps := Depends(units, order);
    DependsBagSplit(units, "b1");
    DependsBagSplit(units - {"b1"}, "b2");
    assert units - {"b1"} - {"b2"} == map[];
    assert multiset(deps) == multiset{"a1"};
    assert |deps| == |multiset(deps)| == 1;
    assert deps[0] in multiset(deps);
  }

  /** The scenario's joining node holds b1, depending on a1, and b2, depending on nothing. */
  lemma JoiningNodeTable(callee1: Callee, callee2: Callee)
    ensures var s := NewUnion("B", [Unit("b1", ["a1"], callee1), Unit("b2", [], callee2)]);
      && s.localUnits.Keys == {"b1", "b2"}
      && s.localUnits["b1"].depends == ["a1"]
      && s.localUnits["b2"].depends == []
  {
    var units := [Unit("b1", ["a1"], callee1), Unit("b2", [], callee2)];
    var s := NewUnion("B", units);
    assert units[0].id in s.localUnits && units[1].id in s.localUnits;
    assert s.localUnits.Keys == {"b1", "b2"};
    assert s.localUnits["b1"] == units[0] by {
      assert LastWithId(units, 0);
    }
    assert s.localUnits["b2"] == units[1];
  }

  /** Two messages in a row: the second is handled in the state the first leaves, and the effects concatenate. */
  lemma RunTwo(s: State, m1: (Peer, Message), m2: (Peer, Message), env1: Env, env2: Env)
    requires Enumerates(env1.order, s.localUnits.Keys) && Enumerates(env2.order, s.localUnits.Keys)
    ensures var t1 := Step(s, m1.0, m1.1, env1);
      var t2 := Step(t1.state, m2.0, m2.1, env2);
      Run(s, [m1, m2], [env1, env2]) == Transition(t2.state, t1.effects + t2.effects)
  {
    var inbox := [m1, m2];
    var envs := [env1, env2];
    var t1 := Step(s, m1.0, m1.1, env1);
    assert inbox[1..] == [m2] && envs[1..] == [env2];
    assert inbox[1..][1..] == [] && envs[1..][1..] == [];
    var t2 := Step(t1.state, m2.0, m2.1, env2);
    assert Run(t1.state, [m2], [env2]) == Transition(t2.state, t2.effects + []);
    assert t2.effects + [] == t2.effects;
  }

  /** Such a node, once registered, asks the hub to resolve exactly a1. */
  lemma JoiningNodeRegistered(s: State, hub: Peer, port: Port, env: Env)
    requires s.localUnits.Keys == {"b1", "b2"}
    requires s.localUnits["b1"].depends == ["a1"] && s.localUnits["b2"].depends == []
    requires Enumerates(env.order, {"b1", "b2"})
    ensures Step(s, hub, RegisterResponse(port), env) == Transition(s, [Listen(port), InitAll, Send(hub, ImportRequest(["a1"]))])
  {
    JoiningNodeDepends(s.localUnits, env.order);
  }

  /** The two-message join of such a node: register response, then an empty import answer. */
  lemma JoiningNodeRun(s: State, hub: Peer, port: Port, env1: Env, env2: Env)
    requires s.localUnits.Keys == {"b1", "b2"}
    requires s.localUnits["b1"].depends == ["a1"] && s.localUnits["b2"].depends == []
    requires Enumerates(env1.order, {"b1", "b2"}) && Enumerates(env2.order, {"b1", "b2"})
    ensures Run(s, [(hub, RegisterResponse(port)), (hub, ImportResponse([]))], [env1, env2]).effects
      == [Listen(port), InitAll, Send(hub, ImportRequest(["a1"])), StartAll]
  {
    JoiningNodeRegistered(s, hub, port, env1);
    ImportResponseEmptyStarts(s, hub, env2);
    RunTwo(s, (hub, RegisterResponse(port)), (hub, ImportResponse([])), env1, env2);
  }

  /**
   A node holding b1 (depending on a1) and b2 joins through a hub that owns
   a1: it asks the hub to resolve exactly ["a1"], and on an empty import
   answer starts at once.
   */
  lemma JoinWithoutSiblings(callee1: Callee, callee2: Callee, hub: Peer, port: Port, env1: Env, env2: Env)
    requires Enumerates(env1.order, {"b1", "b2"}) && Enumerates(env2.order, {"b1", "b2"})
    ensures var s := NewUnion("B", [Unit("b1", ["a1"], callee1), Unit("b2", [], callee2)]);
      && s.localUnits.Keys == {"b1", "b2"}
      && Run(s, [(hub, RegisterResponse(port)), (hub, ImportResponse([]))], [env1, env2]).effects
        == [Listen(port), InitAll, Send(hub, ImportRequest(["a1"])), StartAll]
  {
    JoiningNodeTable(callee1, callee2);
    JoiningNodeRun(NewUnion("B", [Unit("b1", ["a1"], callee1), Unit("b2", [], callee2)]), hub, port, env1, env2);
  }
}
