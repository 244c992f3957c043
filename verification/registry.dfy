/**
 The unit registry: the table of local units built at construction time, and
 the two views the protocol takes of it, the list of unit ids advertised in
 REGISTER_REQUEST and the list of dependency ids sent in IMPORT_REQUEST.
 A Go map has no iteration order, so an order is either chosen arbitrarily
 (`Collect`) or passed in as a parameter (`Depends`).
 */
module Registry {
  import opened UnionTypes

  /** True when position `i` is the last one in `units` that carries its id. */
  predicate LastWithId(units: seq<Unit>, i: int)
    requires 0 <= i < |units|
  {
    forall j | i < j < |units| :: units[j].id != units[i].id
  }

  /** The local-unit table: every unit filed under its id, a later unit replacing an earlier one. */
  function UnitTable(units: seq<Unit>): map<UnitId, Unit>
    decreases |units|
  {
    if |units| == 0 then map[]
    else
      var last := units[|units| - 1];
      UnitTable(units[..|units| - 1])[last.id := last]
  }

  /** The table holds exactly the given ids, and files each unit under its own id. */
  lemma {:induction false} UnitTableDomain(units: seq<Unit>)
    ensures forall i | 0 <= i < |units| :: units[i].id in UnitTable(units)
    ensures forall k | k in UnitTable(units) :: UnitTable(units)[k].id == k && UnitTable(units)[k] in units
    decreases |units|
  {
    if |units| > 0 {
      var front := units[..|units| - 1];
      UnitTableDomain(front);
      assert forall i | 0 <= i < |front| :: front[i] == units[i];
    }
  }

  /** Of several units sharing an id, the last one given is the one kept. */
  lemma {:induction false} UnitTableLastWins(units: seq<Unit>, i: int)
    requires 0 <= i < |units| && LastWithId(units, i)
    ensures units[i].id in UnitTable(units) && UnitTable(units)[units[i].id] == units[i]
    decreases |units|
  {
    var front := units[..|units| - 1];
    if i < |front| {
      assert units[|units| - 1].id != units[i].id;
      assert LastWithId(front, i);
      UnitTableLastWins(front, i);
    }
  }

  /** `order` lists every element of `keys` exactly once. */
  predicate Enumerates<K(==)>(order: seq<K>, keys: set<K>)
  {
    && (forall i, j | 0 <= i < j < |order| :: order[i] != order[j])
    && (set k | k in order) == keys
  }

  /** The ids of the local units in the arbitrary order a Go map range yields. */
  method Collect(units: map<UnitId, Unit>) returns (ids: seq<UnitId>)
    ensures Enumerates(ids, units.Keys)
    ensures |ids| == |units|
  {
    ids := [];
    var rest := units.Keys;
    while rest != {}
      invariant rest <= units.Keys
      invariant forall i | 0 <= i < |ids| :: ids[i] in units && ids[i] !in rest
      invariant forall k | k in units && k !in rest :: k in ids
      invariant forall i, j | 0 <= i < j < |ids| :: ids[i] != ids[j]
      invariant |ids| + |rest| == |units|
      decreases rest
    {
      var id :| id in rest;
      ids := ids + [id];
      rest := rest - {id};
    }
  }

  /**
   The dependency ids of all units as one bag: the reference meaning of
   `Depends`, independent of any iteration order.
   */
  ghost function DependsBag(units: map<UnitId, Unit>): multiset<UnitId>
    decreases units.Keys
  {
    if units.Keys == {} then multiset{}
    else
      var k :| k in units;
      multiset(units[k].depends) + DependsBag(units - {k})
  }

  /** Any unit can be taken out first: the bag does not depend on the choice made in its definition. */
  lemma {:induction false} DependsBagSplit(units: map<UnitId, Unit>, k: UnitId)
    requires k in units
    ensures DependsBag(units) == multiset(units[k].depends) + DependsBag(units - {k})
    decreases units.Keys
  {
    var j :| j in units && DependsBag(units) == multiset(units[j].depends) + DependsBag(units - {j});
    if j != k {
      assert units - {j} - {k} == units - {k} - {j};
      DependsBagSplit(units - {j}, k);
      DependsBagSplit(units - {k}, j);
    }
  }

  /** A dependency id is in the bag exactly when some unit lists it. */
  lemma {:induction false} DependsBagMembership(units: map<UnitId, Unit>, d: UnitId)
    ensures d in DependsBag(units) <==> exists k | k in units :: d in units[k].depends
    decreases units.Keys
  {
    if units.Keys != {} {
      var j :| j in units && DependsBag(units) == multiset(units[j].depends) + DependsBag(units - {j});
      DependsBagMembership(units - {j}, d);
      if d in DependsBag(units) && d !in units[j].depends {
        var k :| k in units - {j} && d in (units - {j})[k].depends;
        assert k in units && d in units[k].depends;
      }
      if exists k | k in units :: d in units[k].depends {
        var k :| k in units && d in units[k].depends;
        if k == j {
          assert d in multiset(units[j].depends);
        } else {
          assert k in units - {j} && d in (units - {j})[k].depends;
        }
      }
    }
  }

  /**
   The concatenation, in `order`, of every unit's dependency list, with
   duplicates kept: the payload of IMPORT_REQUEST.
   */
  function Depends(units: map<UnitId, Unit>, order: seq<UnitId>): (deps: seq<UnitId>)
    requires Enumerates(order, units.Keys)
    ensures multiset(deps) == DependsBag(units)
    decreases |order|
  {
    if |order| == 0 then []
    else
      var k := order[0];
      assert k in units;
      assert (set x | x in order[1..]) == units.Keys - {k} by {
        forall x | x in order[1..] ensures x != k {
          var i :| 0 <= i < |order[1..]| && order[1..][i] == x;
          assert order[i + 1] == x;
        }
        forall x | x in units.Keys - {k} ensures x in order[1..] {
          var i :| 0 <= i < |order| && order[i] == x;
          assert order[1..][i - 1] == x;
        }
      }
      DependsBagSplit(units, k);
      units[k].depends + Depends(units - {k}, order[1..])
  }

  /** Two iteration orders give the same dependency ids, each as often: a permutation. */
  lemma DependsOrderIrrelevant(units: map<UnitId, Unit>, order1: seq<UnitId>, order2: seq<UnitId>)
    requires Enumerates(order1, units.Keys) && Enumerates(order2, units.Keys)
    ensures multiset(Depends(units, order1)) == multiset(Depends(units, order2))
    ensures |Depends(units, order1)| == |Depends(units, order2)|
  {
    assert |multiset(Depends(units, order1))| == |Depends(units, order1)|;
    assert |multiset(Depends(units, order2))| == |Depends(units, order2)|;
  }

  /** The payload lists exactly the ids some local unit depends on. */
  lemma DependsMembership(units: map<UnitId, Unit>, order: seq<UnitId>, d: UnitId)
    requires Enumerates(order, units.Keys)
    ensures d in Depends(units, order) <==> exists k | k in units :: d in units[k].depends
  {
    var deps := Depends(units, order);
    assert d in deps <==> d in multiset(deps);
    DependsBagMembership(units, d);
  }

  /** A dependency shared by two units appears twice: the payload is not deduplicated. */
  lemma DependsKeepsDuplicates(units: map<UnitId, Unit>, order: seq<UnitId>, a: UnitId, b: UnitId, d: UnitId)
    requires Enumerates(order, units.Keys)
    requires a in units && b in units && a != b
    requires d in units[a].depends && d in units[b].depends
    ensures multiset(Depends(units, order))[d] >= 2
  {
    DependsBagSplit(units, a);
    DependsBagSplit(units - {a}, b);
    assert multiset(units[a].depends)[d] >= 1;
    assert multiset(units[b].depends)[d] >= 1;
  }
}
