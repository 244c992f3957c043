/**
 The peer directory and the join-tracking map: where remote unit ids are
 routed, which sibling nodes the node waits for, and the readiness test that
 gates local startup.
 */
module Directory {
  import opened UnionTypes

  /** Routes every id in `ids` to `peer`, in list order, leaving all other routes as they were. */
  function Assign(routes: map<UnitId, Peer>, ids: seq<UnitId>, peer: Peer): (r: map<UnitId, Peer>)
    ensures r.Keys == routes.Keys + (set id | id in ids)
    ensures forall id | id in ids :: r[id] == peer
    ensures forall k | k in routes && k !in ids :: r[k] == routes[k]
    decreases |ids|
  {
    if |ids| == 0 then routes
    else Assign(routes[ids[0] := peer], ids[1..], peer)
  }

  /** Routing the same ids to the same peer a second time changes nothing. */
  lemma AssignIdempotent(routes: map<UnitId, Peer>, ids: seq<UnitId>, peer: Peer)
    ensures Assign(Assign(routes, ids, peer), ids, peer) == Assign(routes, ids, peer)
  {
  }

  /** A join map is ready when every listed address has joined; an empty map is ready. */
  predicate Ready(dial: map<Address, bool>)
  {
    forall a | a in dial :: dial[a]
  }

  /** The readiness scan over the join map, visiting addresses in arbitrary order and stopping at the first one not joined. */
  method TryStart(dial: map<Address, bool>) returns (start: bool)
    ensures start <==> Ready(dial)
    ensures dial == map[] ==> start
  {
    var rest := dial.Keys;
    while rest != {}
      invariant rest <= dial.Keys
      invariant forall a | a in dial && a !in rest :: dial[a]
      decreases rest
    {
      var a :| a in rest;
      if !dial[a] {
        return false;
      }
      rest := rest - {a};
    }
    return true;
  }

  /** The join map of a fresh import round: every listed address, none joined yet. */
  function Pending(addrs: seq<Address>): (dial: map<Address, bool>)
    ensures dial.Keys == set a | a in addrs
    ensures forall a | a in dial :: !dial[a]
    ensures |addrs| > 0 ==> !Ready(dial)
    ensures forall a :: Ready(dial[a := true]) <==> (set x | x in addrs) <= {a}
  {
    var dial := map a | a in addrs :: false;
    assert |addrs| > 0 ==> addrs[0] in dial;
    forall a ensures Ready(dial[a := true]) <==> (set x | x in addrs) <= {a} {
      if !((set x | x in addrs) <= {a}) {
        var b :| b in (set x | x in addrs) && b != a;
        assert b in dial[a := true] && !dial[a := true][b];
      }
    }
    dial
  }

  /** One outbound dial per listed address, in list order (a repeated address is dialled again). */
  function DialAll(addrs: seq<Address>): (effects: seq<Effect>)
    ensures |effects| == |addrs|
    ensures forall i | 0 <= i < |addrs| :: effects[i] == Dial(addrs[i])
    decreases |addrs|
  {
    if |addrs| == 0 then []
    else [Dial(addrs[0])] + DialAll(addrs[1..])
  }
}
