/** Merging two uploaded tables on a key column of each: both key columns
    are first turned into text, then joined with inner, left, right or outer
    semantics. */
module Merge {
  import opened Common
  import opened Cells
  import opened Tables

  datatype JoinKind = Inner | LeftJoin | RightJoin | Outer

  /** The `how` values the join accepts; any other is refused. */
  function ParseJoinKind(s: string): Option<JoinKind>
  {
    if s == "inner" then Some(Inner)
    else if s == "left" then Some(LeftJoin)
    else if s == "right" then Some(RightJoin)
    else if s == "outer" then Some(Outer)
    else None
  }

  datatype MergeError =
    | MissingKey(name: string)        // KeyError on a key column
    | UnknownJoin(how: string)        // the join kind is not one of the four
    | DuplicateColumns                // the suffixed column names still collide

  /** One row of a join: the left row and the right row it is made from
      (None where that side has no partner). */
  datatype RowPair = RowPair(left: Option<nat>, right: Option<nat>)

  /** The positions of `keys` that hold `key`, ascending. */
  function MatchesOf(key: string, keys: seq<string>): (r: seq<nat>)
    ensures forall k | 0 <= k < |r| :: r[k] < |keys| && keys[r[k]] == key
    ensures forall j | 0 <= j < |keys| && keys[j] == key :: j in r
    ensures forall a, b | 0 <= a < b < |r| :: r[a] < r[b]
    ensures r == [] <==> forall j | 0 <= j < |keys| :: keys[j] != key
  {
    var r := KeepWhere(seq(|keys|, j requires 0 <= j < |keys| => keys[j] == key));
    assert r != [] ==> keys[r[0]] == key;
    r
  }

  /** The rows left row `i` contributes: paired with every matching right
      row in right order, or, when nothing matches and `keepUnmatched`
      holds, once with no right partner. */
  function Block(lk: seq<string>, rk: seq<string>, i: nat, keepUnmatched: bool): (r: seq<RowPair>)
    requires i < |lk|
    ensures forall p | p in r ::
      && p.left == Some(i)
      && (p.right.Some? ==> p.right.value < |rk|)
  {
    var ms := MatchesOf(lk[i], rk);
    if ms == [] then (if keepUnmatched then [RowPair(Some(i), None)] else [])
    else seq(|ms|, k requires 0 <= k < |ms| => RowPair(Some(i), Some(ms[k])))
  }

  /** The rows contributed by left rows i.. , block after block. */
  function LeftRows(lk: seq<string>, rk: seq<string>, i: nat, keepUnmatched: bool): (r: seq<RowPair>)
    ensures forall p | p in r ::
      && p.left.Some? && i <= p.left.value < |lk|
      && (p.right.Some? ==> p.right.value < |rk|)
    decreases |lk| - i
  {
    if i >= |lk| then []
    else Block(lk, rk, i, keepUnmatched) + LeftRows(lk, rk, i + 1, keepUnmatched)
  }

  function Flip(ps: seq<RowPair>): (r: seq<RowPair>)
    ensures |r| == |ps|
    ensures forall k | 0 <= k < |ps| :: r[k] == RowPair(ps[k].right, ps[k].left)
  {
    seq(|ps|, k requires 0 <= k < |ps| => RowPair(ps[k].right, ps[k].left))
  }

  /** The right rows that no left row matches, each with no left partner. */
  function UnmatchedRight(lk: seq<string>, rk: seq<string>): (r: seq<RowPair>)
    ensures forall p | p in r :: p.left.None? && p.right.Some? && p.right.value < |rk|
  {
    var js := KeepWhere(seq(|rk|, j requires 0 <= j < |rk| => MatchesOf(rk[j], lk) == []));
    seq(|js|, k requires 0 <= k < |js| => RowPair(None, Some(js[k])))
  }

  // ---------------------------------------------------------------------
  // Which rows a join produces

  /** Both partners present and their keys equal. */
  predicate Matched(lk: seq<string>, rk: seq<string>, p: RowPair)
  {
    && p.left.Some? && p.right.Some?
    && p.left.value < |lk| && p.right.value < |rk|
    && lk[p.left.value] == rk[p.right.value]
  }

  /** A left row whose key no right row has, without a right partner. */
  predicate LeftOnly(lk: seq<string>, rk: seq<string>, p: RowPair)
  {
    && p.left.Some? && p.right.None? && p.left.value < |lk|
    && forall j | 0 <= j < |rk| :: rk[j] != lk[p.left.value]
  }

  /** A right row whose key no left row has, without a left partner. */
  predicate RightOnly(lk: seq<string>, rk: seq<string>, p: RowPair)
  {
    && p.left.None? && p.right.Some? && p.right.value < |rk|
    && forall i | 0 <= i < |lk| :: lk[i] != rk[p.right.value]
  }

  lemma BlockMembers(lk: seq<string>, rk: seq<string>, i: nat, keep: bool, p: RowPair)
    requires i < |lk|
    ensures p in Block(lk, rk, i, keep) <==>
      p.left == Some(i) && (Matched(lk, rk, p) || (keep && LeftOnly(lk, rk, p)))
  {
    var ms := MatchesOf(lk[i], rk);
    var b := Block(lk, rk, i, keep);
    if p.left == Some(i) && Matched(lk, rk, p) {
      assert p.right.value in ms;
      var k :| 0 <= k < |ms| && ms[k] == p.right.value;
      assert b[k] == p;
    }
    if p.left == Some(i) && keep && LeftOnly(lk, rk, p) {
      assert b[0] == p;
    }
    if p in b && p.right.None? {
      assert ms == [];
    }
  }

  lemma {:induction false} LeftRowsMembers(lk: seq<string>, rk: seq<string>, i: nat, keep: bool)
    ensures forall p :: p in LeftRows(lk, rk, i, keep) <==>
      p.left.Some? && i <= p.left.value && (Matched(lk, rk, p) || (keep && LeftOnly(lk, rk, p)))
    decreases |lk| - i
  {
    if i < |lk| {
      LeftRowsMembers(lk, rk, i + 1, keep);
      var block, rest := Block(lk, rk, i, keep), LeftRows(lk, rk, i + 1, keep);
      assert LeftRows(lk, rk, i, keep) == block + rest;
      forall p
        ensures p in LeftRows(lk, rk, i, keep) <==>
          p.left.Some? && i <= p.left.value && (Matched(lk, rk, p) || (keep && LeftOnly(lk, rk, p)))
      {
        assert p in block + rest <==> p in block || p in rest;
        BlockMembers(lk, rk, i, keep, p);
      }
    }
  }

  /** Orders join rows by left position, then right position (absent first). */
  function Rank(o: Option<nat>): int
  {
    if o.None? then -1 else o.value
  }

  predicate RowBefore(p: RowPair, q: RowPair)
  {
    Rank(p.left) < Rank(q.left) || (Rank(p.left) == Rank(q.left) && Rank(p.right) < Rank(q.right))
  }

  predicate Ascending(ps: seq<RowPair>)
  {
    forall a, b | 0 <= a < b < |ps| :: RowBefore(ps[a], ps[b])
  }

  lemma AscendingConcat(xs: seq<RowPair>, ys: seq<RowPair>)
    requires Ascending(xs) && Ascending(ys)
    requires forall p, q | p in xs && q in ys :: RowBefore(p, q)
    ensures Ascending(xs + ys)
  {
    var all := xs + ys;
    forall a, b | 0 <= a < b < |all| ensures RowBefore(all[a], all[b]) {
      if a < |xs| && b >= |xs| {
        assert all[a] == xs[a] && all[b] == ys[b - |xs|];
      } else if a >= |xs| {
        assert all[a] == ys[a - |xs|] && all[b] == ys[b - |xs|];
      }
    }
  }

  lemma {:induction false} LeftRowsAscending(lk: seq<string>, rk: seq<string>, i: nat, keep: bool)
    ensures Ascending(LeftRows(lk, rk, i, keep))
    decreases |lk| - i
  {
    if i < |lk| {
      LeftRowsAscending(lk, rk, i + 1, keep);
      var rest := LeftRows(lk, rk, i + 1, keep);
      var block := Block(lk, rk, i, keep);
      assert LeftRows(lk, rk, i, keep) == block + rest;
      BlockAscending(lk, rk, i, keep);
      LeftRowsMembers(lk, rk, i + 1, keep);
      forall p, q | p in block && q in rest ensures RowBefore(p, q) {
        BlockMembers(lk, rk, i, keep, p);
      }
      AscendingConcat(block, rest);
    }
  }

  lemma BlockAscending(lk: seq<string>, rk: seq<string>, i: nat, keep: bool)
    requires i < |lk|
    ensures Ascending(Block(lk, rk, i, keep))
  {
    var ms := MatchesOf(lk[i], rk);
    var b := Block(lk, rk, i, keep);
    if ms != [] {
      forall x, y | 0 <= x < y < |b| ensures RowBefore(b[x], b[y]) {
        assert ms[x] < ms[y];
      }
    }
  }

  lemma AscendingDistinct(ps: seq<RowPair>)
    requires Ascending(ps)
    ensures Distinct(ps)
  {
  }

  lemma FlipMembers(f: seq<RowPair>)
    ensures forall p :: p in Flip(f) <==> RowPair(p.right, p.left) in f
    ensures Distinct(f) ==> Distinct(Flip(f))
  {
    var r := Flip(f);
    forall p ensures p in r <==> RowPair(p.right, p.left) in f {
      if p in r {
        var k :| 0 <= k < |r| && r[k] == p;
        assert f[k] == RowPair(p.right, p.left);
      }
      if RowPair(p.right, p.left) in f {
        var k :| 0 <= k < |f| && f[k] == RowPair(p.right, p.left);
        assert r[k] == p;
      }
    }
    if Distinct(f) {
      forall a, b | 0 <= a < b < |r| ensures r[a] != r[b] {
        assert f[a] != f[b];
      }
    }
  }

  lemma UnmatchedRightMembers(lk: seq<string>, rk: seq<string>)
    ensures Distinct(UnmatchedRight(lk, rk))
    ensures forall p :: p in UnmatchedRight(lk, rk) <==> RightOnly(lk, rk, p)
  {
    var u := UnmatchedRight(lk, rk);
    var js := KeepWhere(seq(|rk|, j requires 0 <= j < |rk| => MatchesOf(rk[j], lk) == []));
    forall p ensures p in u <==> RightOnly(lk, rk, p) {
      if RightOnly(lk, rk, p) {
        var j := p.right.value;
        assert j in js;
        var k :| 0 <= k < |js| && js[k] == j;
        assert u[k] == p;
      }
      if p in u {
        var k :| 0 <= k < |u| && u[k] == p;
        assert MatchesOf(rk[js[k]], lk) == [];
      }
    }
    forall a, b | 0 <= a < b < |u| ensures u[a] != u[b] {
      assert js[a] < js[b];
    }
  }

  lemma DistinctAppend(l: seq<RowPair>, u: seq<RowPair>)
    requires Distinct(l) && Distinct(u)
    requires forall p | p in l :: p.left.Some?
    requires forall p | p in u :: p.left.None?
    ensures Distinct(l + u)
  {
    forall a, b | 0 <= a < b < |l + u| ensures (l + u)[a] != (l + u)[b] {
      if a < |l| && b >= |l| {
        assert (l + u)[a] in l && (l + u)[b] in u;
      } else if a >= |l| {
        assert (l + u)[a] == u[a - |l|] && (l + u)[b] == u[b - |l|];
      }
    }
  }

  /** The rows of `pd.merge(how=...)`, left and right keys given as text.
      An inner join has exactly the pairs of rows whose key texts are equal,
      each once; left and right joins add the unmatched rows of their own
      side; an outer join adds both. Inner and left joins list the left rows
      in order, each followed by its right partners in right order; a right
      join lists the right rows in order, each with its left partners; an
      outer join puts the unmatched right rows after the left join's rows. */
  function JoinRows(lk: seq<string>, rk: seq<string>, how: JoinKind): (r: seq<RowPair>)
    ensures forall p | p in r ::
      && (p.left.Some? ==> p.left.value < |lk|)
      && (p.right.Some? ==> p.right.value < |rk|)
    ensures Distinct(r)
    ensures forall p :: p in r <==>
      || Matched(lk, rk, p)
      || ((how == LeftJoin || how == Outer) && LeftOnly(lk, rk, p))
      || ((how == RightJoin || how == Outer) && RightOnly(lk, rk, p))
  {
    match how
    case Inner =>
      LeftRowsMembers(lk, rk, 0, false);
      LeftRowsAscending(lk, rk, 0, false);
      AscendingDistinct(LeftRows(lk, rk, 0, false));
      LeftRows(lk, rk, 0, false)
    case LeftJoin =>
      LeftRowsMembers(lk, rk, 0, true);
      LeftRowsAscending(lk, rk, 0, true);
      AscendingDistinct(LeftRows(lk, rk, 0, true));
      LeftRows(lk, rk, 0, true)
    case RightJoin =>
      var f := LeftRows(rk, lk, 0, true);
      LeftRowsMembers(rk, lk, 0, true);
      LeftRowsAscending(rk, lk, 0, true);
      AscendingDistinct(f);
      FlipMembers(f);
      assert forall p | p in Flip(f) :: RowPair(p.right, p.left) in f;
      Flip(f)
    case Outer =>
      var l := LeftRows(lk, rk, 0, true);
      LeftRowsMembers(lk, rk, 0, true);
      LeftRowsAscending(lk, rk, 0, true);
      AscendingDistinct(l);
      UnmatchedRightMembers(lk, rk);
      DistinctAppend(l, UnmatchedRight(lk, rk));
      l + UnmatchedRight(lk, rk)
  }

  /** The order `how` documents: inner and left joins list the rows by left
      row, then right row; a right join by right row, then left row. */
  lemma JoinRowsOrder(lk: seq<string>, rk: seq<string>, how: JoinKind)
    ensures how == Inner || how == LeftJoin ==> Ascending(JoinRows(lk, rk, how))
    ensures how == RightJoin ==> Ascending(Flip(JoinRows(lk, rk, how)))
  {
    match how
    case Inner => LeftRowsAscending(lk, rk, 0, false);
    case LeftJoin => LeftRowsAscending(lk, rk, 0, true);
    case RightJoin =>
      var f := LeftRows(rk, lk, 0, true);
      LeftRowsAscending(rk, lk, 0, true);
      assert Flip(Flip(f)) == f;
    case Outer =>
  }

  /** Every left row appears in a left or outer join, and every right row in
      a right or outer join, with the cells of the other side missing exactly
      when no row of the other side has its key. */
  lemma UnmatchedRowsKept(lk: seq<string>, rk: seq<string>, how: JoinKind)
    ensures how == LeftJoin || how == Outer ==>
      forall i | 0 <= i < |lk| :: exists p | p in JoinRows(lk, rk, how) :: p.left == Some(i)
    ensures how == RightJoin || how == Outer ==>
      forall j | 0 <= j < |rk| :: exists p | p in JoinRows(lk, rk, how) :: p.right == Some(j)
  {
    var rows := JoinRows(lk, rk, how);
    if how == LeftJoin || how == Outer {
      forall i | 0 <= i < |lk| ensures exists p | p in rows :: p.left == Some(i) {
        var ms := MatchesOf(lk[i], rk);
        if ms == [] {
          assert LeftOnly(lk, rk, RowPair(Some(i), None));
          assert RowPair(Some(i), None) in rows;
        } else {
          assert Matched(lk, rk, RowPair(Some(i), Some(ms[0])));
          assert RowPair(Some(i), Some(ms[0])) in rows;
        }
      }
    }
    if how == RightJoin || how == Outer {
      forall j | 0 <= j < |rk| ensures exists p | p in rows :: p.right == Some(j) {
        var ms := MatchesOf(rk[j], lk);
        if ms == [] {
          assert RightOnly(lk, rk, RowPair(None, Some(j)));
          assert RowPair(None, Some(j)) in rows;
        } else {
          assert Matched(lk, rk, RowPair(Some(ms[0]), Some(j)));
          assert RowPair(Some(ms[0]), Some(j)) in rows;
        }
      }
    }
  }

  // ---------------------------------------------------------------------
  // Building the merged frame

  /** The cells of one source column laid out along the join rows: the cell
      of the partner row, or missing where there is no partner. */
  function Gather(cells: seq<Cell>, pick: seq<Option<nat>>): (r: seq<Cell>)
    requires forall k | 0 <= k < |pick| && pick[k].Some? :: pick[k].value < |cells|
    ensures |r| == |pick|
    ensures forall k | 0 <= k < |pick| ::
      r[k] == if pick[k].Some? then cells[pick[k].value] else Missing
  {
    seq(|pick|, k requires 0 <= k < |pick| => if pick[k].Some? then cells[pick[k].value] else Missing)
  }

  /** A key column shared by both sides (same name): the left key, or the
      right key for rows with no left partner. */
  function Coalesce(lcells: seq<Cell>, rcells: seq<Cell>, rows: seq<RowPair>): (r: seq<Cell>)
    requires forall k | 0 <= k < |rows| ::
      && (rows[k].left.Some? ==> rows[k].left.value < |lcells|)
      && (rows[k].right.Some? ==> rows[k].right.value < |rcells|)
    ensures |r| == |rows|
  {
    seq(|rows|, k requires 0 <= k < |rows| =>
      if rows[k].left.Some? then lcells[rows[k].left.value]
      else if rows[k].right.Some? then rcells[rows[k].right.value]
      else Missing)
  }

  function Lefts(rows: seq<RowPair>): (r: seq<Option<nat>>)
    ensures |r| == |rows| && forall k | 0 <= k < |rows| :: r[k] == rows[k].left
  {
    seq(|rows|, k requires 0 <= k < |rows| => rows[k].left)
  }

  function Rights(rows: seq<RowPair>): (r: seq<Option<nat>>)
    ensures |r| == |rows| && forall k | 0 <= k < |rows| :: r[k] == rows[k].right
  {
    seq(|rows|, k requires 0 <= k < |rows| => rows[k].right)
  }

  /** The name a column keeps in the result: names found on both sides get
      pandas' default suffixes "_x" (left) and "_y" (right); a key column of
      the same name on both sides is merged into one and keeps its name. */
  function LeftName(n: string, shared: Option<string>, rightNames: seq<string>): string
  {
    if n in rightNames && shared != Some(n) then n + "_x" else n
  }

  function RightName(n: string, leftNames: seq<string>): string
  {
    if n in leftNames then n + "_y" else n
  }

  /** The columns of the merged frame: every left column laid out along the
      left partners (a key shared by name takes the right partner's key where
      there is no left one), then every right column except a shared key,
      laid out along the right partners; names get the suffixes of
      `LeftName` and `RightName`. */
  function MergedColumns(left: Table, right: Table, shared: Option<string>, rows: seq<RowPair>): (r: seq<Column>)
    requires WellFormed(left) && WellFormed(right)
    requires forall k | 0 <= k < |rows| ::
      && (rows[k].left.Some? ==> rows[k].left.value < left.height)
      && (rows[k].right.Some? ==> rows[k].right.value < right.height)
    ensures forall c | 0 <= c < |r| :: |r[c].cells| == |rows|
    ensures var rcols := KeptRight(right, shared);
      && RightLaidOut(r, |left.columns|, rcols, Names(left.columns), Rights(rows), right.height)
      && (forall c | 0 <= c < |left.columns| ::
            r[c].name == LeftName(left.columns[c].name, shared, Names(right.columns)))
      && (forall c | 0 <= c < |left.columns| && shared != Some(left.columns[c].name) ::
            r[c].cells == Gather(left.columns[c].cells, Lefts(rows)))
  {
    var leftPart := LeftPart(left, right, shared, rows);
    var rightPart := RightPart(KeptRight(right, shared), Names(left.columns), right.height, rows);
    AppendIndex(leftPart, rightPart);
    leftPart + rightPart
  }

  /** From position `n` on, `t` holds the columns `rcols` laid out along the
      right partners `pick`, with the "_y" suffix where a left name clashes. */
  predicate RightLaidOut(t: seq<Column>, n: nat, rcols: seq<Column>, leftNames: seq<string>,
                         pick: seq<Option<nat>>, h: nat)
  {
    && (forall c | 0 <= c < |rcols| :: |rcols[c].cells| == h)
    && (forall k | 0 <= k < |pick| && pick[k].Some? :: pick[k].value < h)
    && |t| == n + |rcols|
    && forall c | 0 <= c < |rcols| ::
         t[n + c] == Column(RightName(rcols[c].name, leftNames), Gather(rcols[c].cells, pick))
  }

  lemma AppendIndex(a: seq<Column>, b: seq<Column>)
    ensures |a + b| == |a| + |b|
    ensures forall c | 0 <= c < |a| :: (a + b)[c] == a[c]
    ensures forall c | 0 <= c < |b| :: (a + b)[|a| + c] == b[c]
  {
  }

  /** The right columns that the merged frame keeps: all of them, less a key
      shared by name. */
  function KeptRight(right: Table, shared: Option<string>): (r: seq<Column>)
    requires WellFormed(right)
    ensures forall c | 0 <= c < |r| :: |r[c].cells| == right.height
    ensures shared.Some? ==> forall c | 0 <= c < |r| :: r[c].name != shared.value
  {
    if shared.Some? then
      WithoutSubset(right.columns, shared.value);
      var r := Without(right.columns, shared.value);
      assert forall c | 0 <= c < |r| :: r[c] in right.columns;
      r
    else right.columns
  }

  /** The left columns of the merged frame. */
  function LeftPart(left: Table, right: Table, shared: Option<string>, rows: seq<RowPair>): (r: seq<Column>)
    requires WellFormed(left) && WellFormed(right)
    requires forall k | 0 <= k < |rows| ::
      && (rows[k].left.Some? ==> rows[k].left.value < left.height)
      && (rows[k].right.Some? ==> rows[k].right.value < right.height)
    ensures |r| == |left.columns|
    ensures forall c | 0 <= c < |r| :: |r[c].cells| == |rows|
    ensures forall c | 0 <= c < |r| ::
      r[c].name == LeftName(left.columns[c].name, shared, Names(right.columns))
    ensures forall c | 0 <= c < |r| && shared != Some(left.columns[c].name) ::
      r[c].cells == Gather(left.columns[c].cells, Lefts(rows))
  {
    var rnames, ls := Names(right.columns), Lefts(rows);
    seq(|left.columns|, c requires 0 <= c < |left.columns| =>
      var col := left.columns[c];
      Column(LeftName(col.name, shared, rnames),
             if shared == Some(col.name) && Lookup(right, col.name).Some?
             then
               LookupHeight(right, col.name);
               Coalesce(col.cells, Lookup(right, col.name).value, rows)
             else Gather(col.cells, ls)))
  }

  /** The right columns of the merged frame (a shared key already removed). */
  function RightPart(rcols: seq<Column>, leftNames: seq<string>, height: nat, rows: seq<RowPair>): (r: seq<Column>)
    requires forall c | 0 <= c < |rcols| :: |rcols[c].cells| == height
    requires forall k | 0 <= k < |rows| && rows[k].right.Some? :: rows[k].right.value < height
    ensures |r| == |rcols|
    ensures forall c | 0 <= c < |r| ::
      r[c] == Column(RightName(rcols[c].name, leftNames), Gather(rcols[c].cells, Rights(rows)))
  {
    var rs := Rights(rows);
    seq(|rcols|, c requires 0 <= c < |rcols| => Column(RightName(rcols[c].name, leftNames), Gather(rcols[c].cells, rs)))
  }

  /** `df[key].astype(str)`: `render(column, cell)` is the text pandas prints
      for a cell of that column, which depends on the column's dtype (the
      number 1 prints as "1" in an integer column and as "1.0" in a float
      column). */
  function KeyTexts(cells: seq<Cell>, render: (seq<Cell>, Cell) -> string): (r: seq<string>)
    ensures |r| == |cells|
    ensures forall i | 0 <= i < |cells| :: r[i] == render(cells, cells[i])
  {
    seq(|cells|, i requires 0 <= i < |cells| => render(cells, cells[i]))
  }

  function AsCells(ks: seq<string>): (r: seq<Cell>)
    ensures |r| == |ks| && forall i | 0 <= i < |ks| :: r[i] == Text(ks[i])
  {
    seq(|ks|, i requires 0 <= i < |ks| => Text(ks[i]))
  }

  /** `df[key] = df[key].astype(str)`. */
  function Stringify(t: Table, key: string, render: (seq<Cell>, Cell) -> string): (r: Table)
    requires WellFormed(t) && HasColumn(t, key)
    ensures WellFormed(r) && r.height == t.height && |r.columns| == |t.columns|
    ensures Names(r.columns) == Names(t.columns)
    ensures var i := Find(t.columns, key).value;
      r.columns[i] == Column(key, AsCells(KeyTexts(t.columns[i].cells, render)))
    ensures forall c | 0 <= c < |t.columns| && t.columns[c].name != key :: r.columns[c] == t.columns[c]
  {
    var i := Find(t.columns, key).value;
    LookupHeight(t, key);
    SetColumn(t, key, AsCells(KeyTexts(t.columns[i].cells, render)))
  }

  /** The key texts of one side. */
  function Keys(t: Table, key: string, render: (seq<Cell>, Cell) -> string): (r: seq<string>)
    requires WellFormed(t) && HasColumn(t, key)
    ensures |r| == t.height
  {
    LookupHeight(t, key);
    KeyTexts(Lookup(t, key).value, render)
  }

  /** `pd.merge` of the two stringified frames. */
  function Joined(left: Table, right: Table, leftKey: string, rightKey: string,
                  how: JoinKind, render: (seq<Cell>, Cell) -> string): (r: Result<Table, MergeError>)
    requires WellFormed(left) && WellFormed(right)
    requires HasColumn(left, leftKey) && HasColumn(right, rightKey)
    ensures r.Ok? ==> WellFormed(r.value)
    ensures r.Ok? ==> r.value.height == |JoinRows(Keys(left, leftKey, render), Keys(right, rightKey, render), how)|
    ensures r.Err? ==> r.error == DuplicateColumns
  {
    var rows := JoinRows(Keys(left, leftKey, render), Keys(right, rightKey, render), how);
    var shared := if leftKey == rightKey then Some(leftKey) else None;
    var cols := MergedColumns(Stringify(left, leftKey, render), Stringify(right, rightKey, render), shared, rows);
    if Distinct(Names(cols)) then Ok(Table(cols, |rows|)) else Err(DuplicateColumns)
  }

  /** `merge_data`: stringify both key columns in place, then `pd.merge`.
      `render` is how pandas prints a cell of a given column as text
      (`astype(str)`). */
  function MergeTables(left: Table, right: Table, leftKey: string, rightKey: string,
                       joinType: string, render: (seq<Cell>, Cell) -> string): (r: Result<Table, MergeError>)
    requires WellFormed(left) && WellFormed(right)
    ensures r.Ok? ==> WellFormed(r.value)
    ensures r.Err? <==>
      || !HasColumn(left, leftKey) || !HasColumn(right, rightKey)
      || ParseJoinKind(joinType).None?
      || Joined(left, right, leftKey, rightKey, ParseJoinKind(joinType).value, render).Err?
  {
    if !HasColumn(left, leftKey) then Err(MissingKey(leftKey))
    else if !HasColumn(right, rightKey) then Err(MissingKey(rightKey))
    else match ParseJoinKind(joinType)
      case None => Err(UnknownJoin(joinType))
      case Some(how) => Joined(left, right, leftKey, rightKey, how, render)
  }

  /** In the merged frame the left key column holds, row by row, the key text
      of the row's left partner (for a key shared by name, the right
      partner's when there is no left one; missing otherwise). */
  lemma MergedLeftKey(left: Table, right: Table, leftKey: string, rightKey: string,
                      how: JoinKind, render: (seq<Cell>, Cell) -> string)
    requires WellFormed(left) && WellFormed(right)
    requires HasColumn(left, leftKey) && HasColumn(right, rightKey)
    requires Joined(left, right, leftKey, rightKey, how, render).Ok?
    ensures
      var t := Joined(left, right, leftKey, rightKey, how, render).value;
      var lk, rk := Keys(left, leftKey, render), Keys(right, rightKey, render);
      var rows := JoinRows(lk, rk, how);
      var li := Find(left.columns, leftKey).value;
      && li < |t.columns|
      && forall k | 0 <= k < |rows| ::
           t.columns[li].cells[k] ==
             if rows[k].left.Some? then Text(lk[rows[k].left.value])
             else if leftKey == rightKey && rows[k].right.Some? then Text(rk[rows[k].right.value])
             else Missing
  {
    var lk, rk := Keys(left, leftKey, render), Keys(right, rightKey, render);
    var rows := JoinRows(lk, rk, how);
    var li := Find(left.columns, leftKey).value;
    var left', right' := Stringify(left, leftKey, render), Stringify(right, rightKey, render);
    assert left'.columns[li] == Column(leftKey, AsCells(lk));
    if leftKey == rightKey {
      var ri := Find(right.columns, rightKey).value;
      assert Find(right'.columns, rightKey) == Some(ri) by {
        assert Names(right'.columns)[ri] == rightKey;
      }
      assert Lookup(right', leftKey) == Some(AsCells(rk));
    }
  }

  /** With differently named keys, the right key column sits after all left
      columns and holds the key text of each row's right partner, or a
      missing cell where there is none. */
  lemma MergedRightKey(left: Table, right: Table, leftKey: string, rightKey: string,
                       how: JoinKind, render: (seq<Cell>, Cell) -> string)
    requires WellFormed(left) && WellFormed(right)
    requires HasColumn(left, leftKey) && HasColumn(right, rightKey) && leftKey != rightKey
    requires Joined(left, right, leftKey, rightKey, how, render).Ok?
    ensures
      var t := Joined(left, right, leftKey, rightKey, how, render).value;
      var rk := Keys(right, rightKey, render);
      var rows := JoinRows(Keys(left, leftKey, render), rk, how);
      var ri := |left.columns| + Find(right.columns, rightKey).value;
      && ri < |t.columns|
      && forall k | 0 <= k < |rows| ::
           t.columns[ri].cells[k] == if rows[k].right.Some? then Text(rk[rows[k].right.value]) else Missing
  {
    var rj := Find(right.columns, rightKey).value;
    var rows := JoinRows(Keys(left, leftKey, render), Keys(right, rightKey, render), how);
    var left', right' := Stringify(left, leftKey, render), Stringify(right, rightKey, render);
    assert right'.columns[rj] == Column(rightKey, AsCells(Keys(right, rightKey, render)));
  }

  /** Every left column other than the key sits in the merged frame at its
      own position, suffixed "_x" when the right side has the same name, and
      holds the cells of each row's left partner (missing where there is
      none). */
  lemma MergedLeftColumns(left: Table, right: Table, leftKey: string, rightKey: string,
                          how: JoinKind, render: (seq<Cell>, Cell) -> string)
    requires WellFormed(left) && WellFormed(right)
    requires HasColumn(left, leftKey) && HasColumn(right, rightKey)
    requires Joined(left, right, leftKey, rightKey, how, render).Ok?
    ensures
      var t := Joined(left, right, leftKey, rightKey, how, render).value;
      var rows := JoinRows(Keys(left, leftKey, render), Keys(right, rightKey, render), how);
      var shared := if leftKey == rightKey then Some(leftKey) else None;
      && |left.columns| <= |t.columns|
      && forall c | 0 <= c < |left.columns| && left.columns[c].name != leftKey ::
           t.columns[c] == Column(LeftName(left.columns[c].name, shared, Names(right.columns)),
                                  Gather(left.columns[c].cells, Lefts(rows)))
  {
    var rows := JoinRows(Keys(left, leftKey, render), Keys(right, rightKey, render), how);
    var shared := if leftKey == rightKey then Some(leftKey) else None;
    var left', right' := Stringify(left, leftKey, render), Stringify(right, rightKey, render);
    var cols := MergedColumns(left', right', shared, rows);
    assert Joined(left, right, leftKey, rightKey, how, render).value.columns == cols;
    MergedLeftOf(left', right', left, right, leftKey, shared, rows);
  }

  /** After the left columns, the merged frame holds every right column (less
      a key shared by name) in order, suffixed "_y" when the left side has the
      same name; each right column other than the key holds the cells of each
      row's right partner (missing where there is none). */
  lemma MergedRightColumns(left: Table, right: Table, leftKey: string, rightKey: string,
                           how: JoinKind, render: (seq<Cell>, Cell) -> string)
    requires WellFormed(left) && WellFormed(right)
    requires HasColumn(left, leftKey) && HasColumn(right, rightKey)
    requires Joined(left, right, leftKey, rightKey, how, render).Ok?
    ensures
      var t := Joined(left, right, leftKey, rightKey, how, render).value;
      var rows := JoinRows(Keys(left, leftKey, render), Keys(right, rightKey, render), how);
      var rcols := KeptRight(right, if leftKey == rightKey then Some(leftKey) else None);
      && |t.columns| == |left.columns| + |rcols|
      && forall c | 0 <= c < |rcols| && rcols[c].name != rightKey ::
           t.columns[|left.columns| + c] == Column(RightName(rcols[c].name, Names(left.columns)),
                                                   Gather(rcols[c].cells, Rights(rows)))
  {
    var rows := JoinRows(Keys(left, leftKey, render), Keys(right, rightKey, render), how);
    var shared := if leftKey == rightKey then Some(leftKey) else None;
    var left', right' := Stringify(left, leftKey, render), Stringify(right, rightKey, render);
    var cols := MergedColumns(left', right', shared, rows);
    assert Joined(left, right, leftKey, rightKey, how, render).value.columns == cols;
    if leftKey == rightKey {
      WithoutOthersSame(right'.columns, right.columns, rightKey);
      MergedRightShared(left', right', left, right, rightKey, rows);
    } else {
      MergedRightDistinct(left', right', left, right, rightKey, rows);
    }
  }

  /** The right columns of `MergedColumns` for a key shared by name, read
      back in terms of the right frame before its key was stringified. */
  lemma MergedRightShared(left': Table, right': Table, left: Table, right: Table,
                          key: string, rows: seq<RowPair>)
    requires WellFormed(left') && WellFormed(right') && WellFormed(right)
    requires right'.height == right.height
    requires forall k | 0 <= k < |rows| ::
      && (rows[k].left.Some? ==> rows[k].left.value < left'.height)
      && (rows[k].right.Some? ==> rows[k].right.value < right'.height)
    requires |left'.columns| == |left.columns| && Names(left'.columns) == Names(left.columns)
    requires Without(right'.columns, key) == Without(right.columns, key)
    ensures RightLaidOut(MergedColumns(left', right', Some(key), rows), |left.columns|,
                         KeptRight(right, Some(key)), Names(left.columns), Rights(rows), right.height)
  {
    assert KeptRight(right', Some(key)) == KeptRight(right, Some(key));
  }

  /** The right columns of `MergedColumns` for differently named keys, read
      back in terms of the right frame before its key was stringified. */
  lemma MergedRightDistinct(left': Table, right': Table, left: Table, right: Table,
                            key: string, rows: seq<RowPair>)
    requires WellFormed(left') && WellFormed(right') && WellFormed(right)
    requires right'.height == right.height
    requires forall k | 0 <= k < |rows| ::
      && (rows[k].left.Some? ==> rows[k].left.value < left'.height)
      && (rows[k].right.Some? ==> rows[k].right.value < right'.height)
    requires |left'.columns| == |left.columns| && Names(left'.columns) == Names(left.columns)
    requires |right'.columns| == |right.columns|
    requires forall c | 0 <= c < |right.columns| && right.columns[c].name != key ::
      right'.columns[c] == right.columns[c]
    ensures var t := MergedColumns(left', right', None, rows);
      && |t| == |left.columns| + |right.columns|
      && forall c | 0 <= c < |right.columns| && right.columns[c].name != key ::
           t[|left.columns| + c] == Column(RightName(right.columns[c].name, Names(left.columns)),
                                          Gather(right.columns[c].cells, Rights(rows)))
  {
    var t := MergedColumns(left', right', None, rows);
    assert KeptRight(right', None) == right'.columns;
    RightColumnsAgree(t, |left.columns|, right'.columns, right.columns, Names(left.columns),
                      Rights(rows), right.height, key);
  }

  /** The left columns of `MergedColumns`, read back in terms of the left
      frame before its key column was stringified. */
  lemma MergedLeftOf(left': Table, right': Table, left: Table, right: Table,
                     leftKey: string, shared: Option<string>, rows: seq<RowPair>)
    requires WellFormed(left') && WellFormed(right') && WellFormed(left)
    requires left'.height == left.height
    requires forall k | 0 <= k < |rows| ::
      && (rows[k].left.Some? ==> rows[k].left.value < left.height)
      && (rows[k].right.Some? ==> rows[k].right.value < right'.height)
    requires shared.Some? ==> shared.value == leftKey
    requires |left'.columns| == |left.columns| && Names(right'.columns) == Names(right.columns)
    requires forall c | 0 <= c < |left.columns| && left.columns[c].name != leftKey ::
      left'.columns[c] == left.columns[c]
    ensures
      var t := MergedColumns(left', right', shared, rows);
      forall c | 0 <= c < |left.columns| && left.columns[c].name != leftKey ::
        t[c] == Column(LeftName(left.columns[c].name, shared, Names(right.columns)),
                       Gather(left.columns[c].cells, Lefts(rows)))
  {
    var t := MergedColumns(left', right', shared, rows);
    forall c | 0 <= c < |left.columns| && left.columns[c].name != leftKey
      ensures t[c] == Column(LeftName(left.columns[c].name, shared, Names(right.columns)),
                             Gather(left.columns[c].cells, Lefts(rows)))
    {
      assert left'.columns[c] == left.columns[c];
    }
  }

  /** Right columns laid out from source columns that agree off the key
      column agree off the key column too. */
  lemma RightColumnsAgree(t: seq<Column>, n: nat, rcols': seq<Column>, rcols: seq<Column>,
                          leftNames: seq<string>, pick: seq<Option<nat>>, h: nat, key: string)
    requires RightLaidOut(t, n, rcols', leftNames, pick, h) && |rcols'| == |rcols|
    requires forall c | 0 <= c < |rcols| && rcols[c].name != key :: rcols'[c] == rcols[c]
    ensures |t| == n + |rcols|
    ensures forall c | 0 <= c < |rcols| && rcols[c].name != key ::
      t[n + c] == Column(RightName(rcols[c].name, leftNames), Gather(rcols[c].cells, pick))
  {
  }

  lemma {:induction false} WithoutOthersSame(a: seq<Column>, b: seq<Column>, name: string)
    requires |a| == |b|
    requires forall i | 0 <= i < |a| :: a[i].name == b[i].name
    requires forall i | 0 <= i < |a| && a[i].name != name :: a[i] == b[i]
    ensures Without(a, name) == Without(b, name)
  {
    if a != [] {
      WithoutOthersSame(a[1..], b[1..], name);
    }
  }

  /** Text keys print as themselves, so two rows whose key cells hold the
      same text are paired by every join kind. */
  lemma EqualTextKeysJoin(left: Table, right: Table, leftKey: string, rightKey: string,
                          how: JoinKind, render: (seq<Cell>, Cell) -> string, i: nat, j: nat, s: string)
    requires WellFormed(left) && WellFormed(right)
    requires HasColumn(left, leftKey) && HasColumn(right, rightKey)
    requires forall col: seq<Cell>, text: string :: render(col, Text(text)) == text
    requires i < left.height && j < right.height
    requires Lookup(left, leftKey).value[i] == Text(s) && Lookup(right, rightKey).value[j] == Text(s)
    ensures RowPair(Some(i), Some(j)) in JoinRows(Keys(left, leftKey, render), Keys(right, rightKey, render), how)
  {
    LookupHeight(left, leftKey);
    LookupHeight(right, rightKey);
    var lk, rk := Keys(left, leftKey, render), Keys(right, rightKey, render);
    assert lk[i] == s && rk[j] == s;
    assert Matched(lk, rk, RowPair(Some(i), Some(j)));
  }

  /** Every row of an inner join is made of a left row and a right row whose
      key texts are equal (so the two key columns agree row by row). */
  lemma InnerRowsAgree(lk: seq<string>, rk: seq<string>)
    ensures forall k | 0 <= k < |JoinRows(lk, rk, Inner)| ::
      var p := JoinRows(lk, rk, Inner)[k];
      p.left.Some? && p.right.Some? && lk[p.left.value] == rk[p.right.value]
  {
    var rows := JoinRows(lk, rk, Inner);
    forall k | 0 <= k < |rows|
      ensures rows[k].left.Some? && rows[k].right.Some? && lk[rows[k].left.value] == rk[rows[k].right.value]
    {
      assert rows[k] in rows;
    }
  }
}
