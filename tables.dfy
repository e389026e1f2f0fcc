/** The data frame: an ordered list of uniquely named columns of equal
    length, the column-level operations the request handlers use, and the
    mutable frame object those handlers update in place. */
module Tables {
  import opened Common
  import opened Cells

  datatype Column = Column(name: string, cells: seq<Cell>)

  /** Columns in order, and the number of rows (kept explicitly so that a
      frame without columns still has a row count). */
  datatype Table = Table(columns: seq<Column>, height: nat)

  function Names(cols: seq<Column>): (ns: seq<string>)
    ensures |ns| == |cols|
    ensures forall i | 0 <= i < |cols| :: ns[i] == cols[i].name
  {
    seq(|cols|, i requires 0 <= i < |cols| => cols[i].name)
  }

  /** Every column has one cell per row, and no two columns share a name. */
  predicate WellFormed(t: Table)
  {
    && (forall i | 0 <= i < |t.columns| :: |t.columns[i].cells| == t.height)
    && Distinct(Names(t.columns))
  }

  /** The position of the first column called `name`, if any. */
  function Find(cols: seq<Column>, name: string): (r: Option<nat>)
    ensures r.Some? ==> r.value < |cols| && cols[r.value].name == name
    ensures r.Some? ==> forall j | 0 <= j < r.value :: cols[j].name != name
    ensures r.None? ==> forall j | 0 <= j < |cols| :: cols[j].name != name
  {
    if cols == [] then None
    else if cols[0].name == name then Some(0)
    else
      match Find(cols[1..], name)
      case None => None
      case Some(k) => Some(k + 1)
  }

  /** `df[name]`: the cells of the column called `name`, or None when the
      frame has no such column (pandas raises KeyError). */
  function Lookup(t: Table, name: string): Option<seq<Cell>>
  {
    match Find(t.columns, name)
    case Some(i) => Some(t.columns[i].cells)
    case None => None
  }

  predicate HasColumn(t: Table, name: string)
  {
    Find(t.columns, name).Some?
  }

  lemma LookupHeight(t: Table, name: string)
    requires WellFormed(t) && Lookup(t, name).Some?
    ensures |Lookup(t, name).value| == t.height
  {
  }

  // ---------------------------------------------------------------------
  // Dropping a column

  /** The columns not called `name`, in their order. */
  function Without(cols: seq<Column>, name: string): (r: seq<Column>)
    ensures forall k | 0 <= k < |r| :: r[k].name != name
    ensures Find(cols, name).None? ==> r == cols
  {
    if cols == [] then []
    else (if cols[0].name == name then [] else [cols[0]]) + Without(cols[1..], name)
  }

  lemma {:induction false} WithoutSubset(cols: seq<Column>, name: string)
    ensures forall c | c in Without(cols, name) :: c in cols
  {
    if cols != [] {
      WithoutSubset(cols[1..], name);
    }
  }

  /** `df.drop(columns=[name])` when `name` is a column; the frame itself
      otherwise. */
  function RemoveColumn(t: Table, name: string): (r: Table)
    ensures r.height == t.height
    ensures !HasColumn(t, name) ==> r == t
    ensures !HasColumn(r, name)
  {
    Table(Without(t.columns, name), t.height)
  }

  lemma {:induction false} WithoutSplit(cols: seq<Column>, name: string, i: nat)
    requires i < |cols| && cols[i].name == name
    requires forall j | 0 <= j < |cols| && j != i :: cols[j].name != name
    ensures Without(cols, name) == cols[..i] + cols[i + 1..]
  {
    var rest := cols[1..];
    if i == 0 {
      forall j | 0 <= j < |rest| ensures rest[j].name != name {
        assert rest[j] == cols[j + 1];
      }
      assert Find(rest, name).None?;
      assert Without(cols, name) == [] + Without(rest, name);
    } else {
      forall j | 0 <= j < |rest| && j != i - 1 ensures rest[j].name != name {
        assert rest[j] == cols[j + 1];
      }
      WithoutSplit(rest, name, i - 1);
      assert Without(cols, name) == [cols[0]] + Without(rest, name);
      assert rest[..i - 1] == cols[1..i];
      assert rest[i..] == cols[i + 1..];
      assert cols[..i] == [cols[0]] + cols[1..i];
    }
  }

  /** A frame without the column at position `i` is still well formed. */
  lemma WellFormedRemoveAt(t: Table, i: nat)
    requires WellFormed(t) && i < |t.columns|
    ensures WellFormed(Table(t.columns[..i] + t.columns[i + 1..], t.height))
  {
    var cols := t.columns[..i] + t.columns[i + 1..];
    assert forall k | 0 <= k < |cols| :: cols[k] == t.columns[if k < i then k else k + 1];
    var ns, rs := Names(t.columns), Names(cols);
    forall a, b | 0 <= a < b < |cols| ensures rs[a] != rs[b] {
      var a', b' := if a < i then a else a + 1, if b < i then b else b + 1;
      assert rs[a] == ns[a'] && rs[b] == ns[b'];
    }
  }

  /** Dropping a present column removes exactly that column: every other
      column keeps its place, name and cells, and the row count is kept. */
  lemma RemoveColumnExact(t: Table, name: string)
    requires WellFormed(t)
    ensures WellFormed(RemoveColumn(t, name))
    ensures !HasColumn(t, name) ==> RemoveColumn(t, name) == t
    ensures HasColumn(t, name) ==>
      var i := Find(t.columns, name).value;
      RemoveColumn(t, name).columns == t.columns[..i] + t.columns[i + 1..]
  {
    if HasColumn(t, name) {
      var i := Find(t.columns, name).value;
      var ns := Names(t.columns);
      assert forall j | 0 <= j < |t.columns| && j != i :: t.columns[j].name != name by {
        forall j | 0 <= j < |t.columns| && j != i ensures t.columns[j].name != name {
          if j < i { assert ns[j] != ns[i]; } else { assert ns[i] != ns[j]; }
        }
      }
      WithoutSplit(t.columns, name, i);
      WellFormedRemoveAt(t, i);
    }
  }

  // ---------------------------------------------------------------------
  // Assigning a column

  /** `df[name] = cells`: overwrites the column in its place, or appends a
      new column at the end. Afterwards the column holds the new cells, every
      other column reads as before, the column order is kept (a new name goes
      last), and a well-formed frame given a full column stays well formed. */
  function SetColumn(t: Table, name: string, cells: seq<Cell>): (r: Table)
    ensures r.height == t.height
    ensures Lookup(r, name) == Some(cells)
    ensures forall n | n != name :: Lookup(r, n) == Lookup(t, n)
    ensures Names(r.columns) ==
      if HasColumn(t, name) then Names(t.columns) else Names(t.columns) + [name]
    ensures WellFormed(t) && |cells| == t.height ==> WellFormed(r)
  {
    match Find(t.columns, name)
    case Some(i) =>
      var cols := t.columns[i := Column(name, cells)];
      assert Names(cols) == Names(t.columns);
      LookupOthersSame(t.columns, cols, name);
      Table(cols, t.height)
    case None =>
      var cols := t.columns + [Column(name, cells)];
      assert Names(cols) == Names(t.columns) + [name];
      assert cols[|t.columns|].name == name;
      LookupOthersAppend(t.columns, Column(name, cells));
      Table(cols, t.height)
  }

  lemma LookupOthersSame(a: seq<Column>, b: seq<Column>, name: string)
    requires |a| == |b|
    requires forall k | 0 <= k < |a| :: a[k].name == b[k].name
    requires forall k | 0 <= k < |a| && a[k].name != name :: a[k] == b[k]
    ensures forall n | n != name :: Lookup(Table(b, 0), n) == Lookup(Table(a, 0), n)
  {
    forall n | n != name ensures Lookup(Table(b, 0), n) == Lookup(Table(a, 0), n) {
      LookupSame(a, b, n);
    }
  }

  lemma LookupOthersAppend(a: seq<Column>, c: Column)
    ensures forall n | n != c.name :: Find(a + [c], n) == Find(a, n)
  {
    forall n | n != c.name ensures Find(a + [c], n) == Find(a, n) {
      LookupAppend(a, c, n);
    }
  }

  lemma LookupSame(a: seq<Column>, b: seq<Column>, n: string)
    requires |a| == |b|
    requires forall k | 0 <= k < |a| :: a[k].name == n <==> b[k].name == n
    requires forall k | 0 <= k < |a| && a[k].name == n :: a[k] == b[k]
    ensures Lookup(Table(a, 0), n) == Lookup(Table(b, 0), n)
  {
    var fa, fb := Find(a, n), Find(b, n);
    if fa.Some? { assert b[fa.value].name == n; }
    if fb.Some? { assert a[fb.value].name == n; }
  }

  lemma LookupAppend(a: seq<Column>, c: Column, n: string)
    requires c.name != n
    ensures Find(a + [c], n) == Find(a, n)
  {
    var b := a + [c];
    var fa, fb := Find(a, n), Find(b, n);
    if fa.Some? { assert b[fa.value].name == n; }
    if fb.Some? {
      assert b[|a|].name != n;
      assert a[fb.value].name == n;
    }
  }

  // ---------------------------------------------------------------------
  // Selecting rows

  /** `df[mask]`: the rows at the given positions, in the given order. */
  function TakeRows(t: Table, keep: seq<nat>): (r: Table)
    requires WellFormed(t)
    requires forall k | 0 <= k < |keep| :: keep[k] < t.height
    ensures WellFormed(r) && r.height == |keep|
    ensures Names(r.columns) == Names(t.columns)
    ensures forall c, k | 0 <= c < |r.columns| && 0 <= k < |keep| ::
      r.columns[c].cells[k] == t.columns[c].cells[keep[k]]
  {
    var cols := seq(|t.columns|, c requires 0 <= c < |t.columns| =>
      Column(t.columns[c].name,
             seq(|keep|, k requires 0 <= k < |keep| => t.columns[c].cells[keep[k]])));
    assert Names(cols) == Names(t.columns);
    Table(cols, |keep|)
  }

  /** The pandas frame a handler works on: `pd.read_json` makes a fresh one
      from the stored table, and `df[name] = cells` updates it in place. */
  class DataFrame {
    var columns: seq<Column>
    var height: nat

    function Value(): Table
      reads this
    {
      Table(columns, height)
    }

    constructor (t: Table)
      ensures Value() == t
    {
      columns := t.columns;
      height := t.height;
    }

    /** `df[name]`. */
    function Get(name: string): (r: Option<seq<Cell>>)
      reads this
      ensures r == Lookup(Value(), name)
    {
      match Find(columns, name)
      case Some(i) => Some(columns[i].cells)
      case None => None
    }

    /** `df[name] = cells`. */
    method Assign(name: string, cells: seq<Cell>)
      modifies this
      ensures Value() == SetColumn(old(Value()), name, cells)
    {
      match Find(columns, name) {
        case Some(i) =>
          columns := columns[i := Column(name, cells)];
        case None =>
          columns := columns + [Column(name, cells)];
      }
    }
  }
}
