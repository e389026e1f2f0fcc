/** Summing a value column per distinct key (`pivot_table(aggfunc='sum')`
    and `groupby(x)[y].sum()`): rows with a missing key are dropped, and the
    groups come out in ascending key order. */
module GroupBy {
  import opened Cells
  import opened Tables

  datatype Group = Group(key: Cell, value: real)

  /** Adds one row's value to its key's group, keeping the keys ascending. */
  function AddTo(gs: seq<Group>, k: Cell, v: real): seq<Group>
  {
    if gs == [] then [Group(k, v)]
    else if gs[0].key == k then [Group(k, gs[0].value + v)] + gs[1..]
    else if KeyBelow(k, gs[0].key) then [Group(k, v)] + gs
    else [gs[0]] + AddTo(gs[1..], k, v)
  }

  /** The groups of the rows: their keys are strictly ascending and are the
      distinct present keys; the value for a key is the sum of the values of
      the rows with that key, and the values add up to the sum over all rows
      whose key is present. */
  function GroupBySum(xs: seq<Cell>, ys: seq<real>): (r: seq<Group>)
    requires |xs| == |ys|
    ensures Ordered(r)
    ensures KeySet(r) == PresentKeys(xs)
    ensures forall q: Cell | !q.Missing? :: SumFor(r, q) == RowSum(xs, ys, q)
    ensures Total(r) == PresentSum(xs, ys)
  {
    if xs == [] then []
    else
      var n := |xs| - 1;
      var g := GroupBySum(xs[..n], ys[..n]);
      PresentKeysStep(xs);
      if xs[n].Missing? then g
      else
        AddToOrdered(g, xs[n], ys[n]);
        AddToKeys(g, xs[n], ys[n]);
        AddToTotal(g, xs[n], ys[n]);
        AddToSums(g, xs[n], ys[n]);
        AddTo(g, xs[n], ys[n])
  }

  /** The group values, in key order. */
  function Values(gs: seq<Group>): (vs: seq<real>)
    ensures |vs| == |gs| && forall i | 0 <= i < |gs| :: vs[i] == gs[i].value
  {
    seq(|gs|, i requires 0 <= i < |gs| => gs[i].value)
  }

  // ---------------------------------------------------------------------
  // The columns the aggregation reads

  /** The y column after `pd.to_numeric(errors='coerce').fillna(0)`. */
  function YValues(t: Table, y: string): (vs: seq<real>)
    requires WellFormed(t) && HasColumn(t, y)
    ensures |vs| == t.height
  {
    LookupHeight(t, y);
    ZeroFilled(Lookup(t, y).value)
  }

  /** The key column. It is read after the y column was replaced by its
      numbers, which leaves it as it was: both callers refuse a request
      whose two axes name the same column before they group. */
  function XKeys(t: Table, x: string): (xs: seq<Cell>)
    requires WellFormed(t) && HasColumn(t, x)
    ensures |xs| == t.height
  {
    LookupHeight(t, x);
    Lookup(t, x).value
  }

  /** The per-key sums of the y column by the x column of a frame. */
  function Sums(t: Table, x: string, y: string): seq<Group>
    requires WellFormed(t) && HasColumn(t, x) && HasColumn(t, y)
  {
    GroupBySum(XKeys(t, x), YValues(t, y))
  }

  // ---------------------------------------------------------------------
  // Reference definitions

  /** Keys strictly ascending (hence distinct) and never missing. */
  predicate Ordered(gs: seq<Group>)
  {
    && (forall i | 0 <= i < |gs| :: !gs[i].key.Missing?)
    && (forall i, j | 0 <= i < j < |gs| :: KeyBelow(gs[i].key, gs[j].key))
  }

  function KeySet(gs: seq<Group>): set<Cell>
  {
    set i | 0 <= i < |gs| :: gs[i].key
  }

  /** The distinct present values of a key column. */
  function PresentKeys(xs: seq<Cell>): set<Cell>
  {
    set i | 0 <= i < |xs| && !xs[i].Missing? :: xs[i]
  }

  /** The sum of the values of the rows whose key is `q`. */
  function RowSum(xs: seq<Cell>, ys: seq<real>, q: Cell): real
    requires |xs| == |ys|
  {
    if xs == [] then 0.0
    else
      var n := |xs| - 1;
      RowSum(xs[..n], ys[..n], q) + (if xs[n] == q then ys[n] else 0.0)
  }

  /** The sum of the values of the rows whose key is present. */
  function PresentSum(xs: seq<Cell>, ys: seq<real>): real
    requires |xs| == |ys|
  {
    if xs == [] then 0.0
    else
      var n := |xs| - 1;
      PresentSum(xs[..n], ys[..n]) + (if xs[n].Missing? then 0.0 else ys[n])
  }

  function SumFor(gs: seq<Group>, q: Cell): real
  {
    if gs == [] then 0.0 else (if gs[0].key == q then gs[0].value else 0.0) + SumFor(gs[1..], q)
  }

  function Total(gs: seq<Group>): real
  {
    if gs == [] then 0.0 else gs[0].value + Total(gs[1..])
  }

  // ---------------------------------------------------------------------
  // AddTo

  lemma KeySetCons(g: Group, rest: seq<Group>)
    ensures KeySet([g] + rest) == {g.key} + KeySet(rest)
  {
    var s := [g] + rest;
    forall c | c in KeySet(s) ensures c in {g.key} + KeySet(rest) {
      var i :| 0 <= i < |s| && s[i].key == c;
      if i > 0 { assert rest[i - 1].key == c; }
    }
    forall c | c in KeySet(rest) ensures c in KeySet(s) {
      var i :| 0 <= i < |rest| && rest[i].key == c;
      assert s[i + 1].key == c;
    }
    assert s[0].key == g.key;
  }

  lemma {:induction false} AddToKeys(gs: seq<Group>, k: Cell, v: real)
    ensures KeySet(AddTo(gs, k, v)) == KeySet(gs) + {k}
  {
    if gs != [] {
      assert gs == [gs[0]] + gs[1..];
      KeySetCons(gs[0], gs[1..]);
      if gs[0].key == k {
        KeySetCons(Group(k, gs[0].value + v), gs[1..]);
      } else if KeyBelow(k, gs[0].key) {
        KeySetCons(Group(k, v), gs);
      } else {
        AddToKeys(gs[1..], k, v);
        KeySetCons(gs[0], AddTo(gs[1..], k, v));
      }
    } else {
      assert KeySet([Group(k, v)]) == {k} by { KeySetCons(Group(k, v), []); }
    }
  }

  lemma {:induction false} AddToOrdered(gs: seq<Group>, k: Cell, v: real)
    requires Ordered(gs) && !k.Missing?
    ensures Ordered(AddTo(gs, k, v))
  {
    if gs != [] {
      var r := AddTo(gs, k, v);
      if gs[0].key == k {
        assert forall i | 0 < i < |gs| :: r[i] == gs[i];
      } else if KeyBelow(k, gs[0].key) {
        forall j | 0 < j < |r| ensures KeyBelow(k, r[j].key) {
          assert r[j] == gs[j - 1];
          if j > 1 { KeyBelowTransitive(k, gs[0].key, gs[j - 1].key); }
        }
      } else {
        KeyBelowTotal(k, gs[0].key);
        var rest := AddTo(gs[1..], k, v);
        AddToOrdered(gs[1..], k, v);
        AddToKeys(gs[1..], k, v);
        forall j | 0 <= j < |rest| ensures KeyBelow(gs[0].key, rest[j].key) {
          assert rest[j].key in KeySet(gs[1..]) + {k};
          if rest[j].key != k {
            var i :| 0 <= i < |gs[1..]| && gs[1..][i].key == rest[j].key;
            assert gs[1..][i] == gs[i + 1];
          }
        }
        assert forall j | 0 < j < |r| :: r[j] == rest[j - 1];
      }
    }
  }

  lemma {:induction false} AddToSumFor(gs: seq<Group>, k: Cell, v: real, q: Cell)
    ensures SumFor(AddTo(gs, k, v), q) == SumFor(gs, q) + (if q == k then v else 0.0)
  {
    if gs != [] {
      if gs[0].key == k {
        assert AddTo(gs, k, v)[1..] == gs[1..];
      } else if KeyBelow(k, gs[0].key) {
        assert AddTo(gs, k, v)[1..] == gs;
      } else {
        AddToSumFor(gs[1..], k, v, q);
        assert AddTo(gs, k, v)[1..] == AddTo(gs[1..], k, v);
      }
    }
  }

  lemma {:induction false} AddToTotal(gs: seq<Group>, k: Cell, v: real)
    ensures Total(AddTo(gs, k, v)) == Total(gs) + v
  {
    if gs != [] {
      if gs[0].key == k {
        assert AddTo(gs, k, v)[1..] == gs[1..];
      } else if KeyBelow(k, gs[0].key) {
        assert AddTo(gs, k, v)[1..] == gs;
      } else {
        AddToTotal(gs[1..], k, v);
        assert AddTo(gs, k, v)[1..] == AddTo(gs[1..], k, v);
      }
    }
  }

  // ---------------------------------------------------------------------
  // Facts about ordered group lists

  /** In an ordered list, a group's value is the sum for its key. */
  lemma {:induction false} SumForOrdered(gs: seq<Group>, i: nat)
    requires Ordered(gs) && i < |gs|
    ensures SumFor(gs, gs[i].key) == gs[i].value
  {
    var q := gs[i].key;
    if i == 0 {
      assert q !in KeySet(gs[1..]) by {
        if q in KeySet(gs[1..]) {
          var j :| 0 <= j < |gs[1..]| && gs[1..][j].key == q;
          assert KeyBelow(gs[0].key, gs[j + 1].key);
          KeyBelowIrreflexive(q);
        }
      }
      SumForAbsent(gs[1..], q);
    } else {
      KeyBelowIrreflexive(gs[0].key);
      assert gs[0].key != q;
      SumForOrdered(gs[1..], i - 1);
    }
  }

  lemma {:induction false} SumForAbsent(gs: seq<Group>, q: Cell)
    requires Ordered(gs) && q !in KeySet(gs)
    ensures SumFor(gs, q) == 0.0
  {
    if gs != [] {
      assert gs[0].key in KeySet(gs);
      assert KeySet(gs[1..]) <= KeySet(gs) by {
        forall c | c in KeySet(gs[1..]) ensures c in KeySet(gs) {
          var i :| 0 <= i < |gs[1..]| && gs[1..][i].key == c;
          assert gs[i + 1].key == c;
        }
      }
      SumForAbsent(gs[1..], q);
    }
  }

  /** An ordered list has as many groups as distinct keys. */
  lemma {:induction false} OrderedCount(gs: seq<Group>)
    requires Ordered(gs)
    ensures |KeySet(gs)| == |gs|
  {
    if gs != [] {
      OrderedCount(gs[1..]);
      assert KeySet(gs) == {gs[0].key} + KeySet(gs[1..]) by {
        assert forall i | 0 < i < |gs| :: gs[i].key == gs[1..][i - 1].key;
      }
      assert gs[0].key !in KeySet(gs[1..]) by {
        if gs[0].key in KeySet(gs[1..]) {
          var i :| 0 <= i < |gs[1..]| && gs[1..][i].key == gs[0].key;
          assert KeyBelow(gs[0].key, gs[i + 1].key);
          KeyBelowIrreflexive(gs[0].key);
        }
      }
    }
  }

  // ---------------------------------------------------------------------
  // GroupBySum

  lemma PresentKeysStep(xs: seq<Cell>)
    requires xs != []
    ensures var n := |xs| - 1;
      PresentKeys(xs) == PresentKeys(xs[..n]) + (if xs[n].Missing? then {} else {xs[n]})
  {
    var n := |xs| - 1;
    forall c | c in PresentKeys(xs)
      ensures c in PresentKeys(xs[..n]) + (if xs[n].Missing? then {} else {xs[n]})
    {
      var i :| 0 <= i < |xs| && !xs[i].Missing? && xs[i] == c;
      if i < n { assert xs[..n][i] == c; }
    }
  }

  lemma AddToSums(gs: seq<Group>, k: Cell, v: real)
    ensures forall q: Cell :: SumFor(AddTo(gs, k, v), q) == SumFor(gs, q) + (if q == k then v else 0.0)
  {
    forall q: Cell ensures SumFor(AddTo(gs, k, v), q) == SumFor(gs, q) + (if q == k then v else 0.0) {
      AddToSumFor(gs, k, v, q);
    }
  }

  /** The aggregation: one group per distinct present key, in ascending key
      order; each group's value is the sum of the values of the rows with
      that key; the values add up to the sum over all rows whose key is
      present. */
  lemma GroupBySumSpec(xs: seq<Cell>, ys: seq<real>)
    requires |xs| == |ys|
    ensures var gs := GroupBySum(xs, ys);
      && (forall i, j | 0 <= i < j < |gs| :: KeyBelow(gs[i].key, gs[j].key))
      && (forall i | 0 <= i < |gs| :: !gs[i].key.Missing? && gs[i].value == RowSum(xs, ys, gs[i].key))
      && KeySet(gs) == PresentKeys(xs)
      && |gs| == |PresentKeys(xs)|
      && Total(gs) == PresentSum(xs, ys)
  {
    var gs := GroupBySum(xs, ys);
    OrderedCount(gs);
    forall i | 0 <= i < |gs| ensures gs[i].value == RowSum(xs, ys, gs[i].key) {
      SumForOrdered(gs, i);
    }
  }

  /** There is no group exactly when no row has a key. */
  lemma NoGroupsIff(xs: seq<Cell>, ys: seq<real>)
    requires |xs| == |ys|
    ensures GroupBySum(xs, ys) == [] <==> forall i | 0 <= i < |xs| :: xs[i].Missing?
  {
    var gs := GroupBySum(xs, ys);
    assert forall i | 0 <= i < |xs| && !xs[i].Missing? :: xs[i] in PresentKeys(xs);
    assert gs != [] ==> gs[0].key in KeySet(gs);
  }
}
