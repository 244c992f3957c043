/**
 The RPC correlator: the table of pending outbound calls, filled by `invoke`
 and drained, one entry per matching RPC_RESPONSE, when the response arrives.
 */
module Correlator {
  import opened UnionTypes

  /** Every pending call is filed under its own correlation index. */
  predicate Consistent(rpcs: map<Index, Rpc>)
  {
    forall i | i in rpcs :: rpcs[i].index == i
  }

  /** Files `rpc` under its index, replacing any call already pending there. */
  function Record(rpcs: map<Index, Rpc>, rpc: Rpc): (r: map<Index, Rpc>)
    ensures r.Keys == rpcs.Keys + {rpc.index}
    ensures r[rpc.index] == rpc
    ensures forall i | i in rpcs && i != rpc.index :: r[i] == rpcs[i]
    ensures Consistent(rpcs) ==> Consistent(r)
  {
    rpcs[rpc.index := rpc]
  }

  /** The outcome of a response: the remaining table and the callback to run, if any. */
  datatype Completion = Completion(rpcs: map<Index, Rpc>, effects: seq<Effect>)

  /**
   Matches a response to its pending call: a known index runs that call's
   callback with the result and drops the entry; an unknown one is ignored.
   */
  function Complete(rpcs: map<Index, Rpc>, index: Index, result: Option<Value>): (c: Completion)
    ensures index in rpcs ==>
      && c.rpcs.Keys == rpcs.Keys - {index}
      && (forall i | i in c.rpcs :: c.rpcs[i] == rpcs[i])
      && |c.rpcs| == |rpcs| - 1
      && c.effects == [Notify(rpcs[index].callback, result)]
    ensures index !in rpcs ==> c.rpcs == rpcs && c.effects == []
    ensures index !in c.rpcs
    ensures Consistent(rpcs) ==> Consistent(c.rpcs)
  {
    if index in rpcs then
      var rest := rpcs - {index};
      assert rest.Keys == rpcs.Keys - {index};
      Completion(rest, [Notify(rpcs[index].callback, result)])
    else
      Completion(rpcs, [])
  }

  /** A response delivered twice completes once: the second delivery is ignored. */
  lemma CompleteOnce(rpcs: map<Index, Rpc>, index: Index, result1: Option<Value>, result2: Option<Value>)
    ensures Complete(Complete(rpcs, index, result1).rpcs, index, result2) == Completion(Complete(rpcs, index, result1).rpcs, [])
  {
  }

  /** Recording a fresh call and then completing it restores the table and runs exactly that call's callback. */
  lemma RecordThenComplete(rpcs: map<Index, Rpc>, rpc: Rpc, result: Option<Value>)
    requires rpc.index !in rpcs
    ensures Complete(Record(rpcs, rpc), rpc.index, result) == Completion(rpcs, [Notify(rpc.callback, result)])
  {
  }
}
