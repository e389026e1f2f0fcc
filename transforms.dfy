/** The data-preparation actions: removing a column, filling missing cells,
    and adding a column calculated from two others; and the handler that
    applies one action to the stored frame. */
module Transforms {
  import opened Common
  import opened Cells
  import opened Tables

  datatype Operator = Add | Subtract | Multiply | Divide

  function ParseOperator(s: string): Option<Operator>
  {
    if s == "+" then Some(Add)
    else if s == "-" then Some(Subtract)
    else if s == "*" then Some(Multiply)
    else if s == "/" then Some(Divide)
    else None
  }

  /** One submitted preparation form. */
  datatype Action =
    | RemoveColumnAction(column: string)
    | FillNaAction(column: string, fillValue: string)
    | CalculatedColumnAction(newName: string, operand1: string, operand2: string, operator: string)
    | OtherAction

  datatype ActionError =
    | MissingColumn(name: string)      // pandas KeyError
    | FillValueNotNumber               // "Fill value must be a number for numeric columns."
    | NonNumericOperand(name: string)  // pd.to_numeric raised ValueError

  /** What the handler leaves behind: a frame written back to the session
      (with the error that was reported, if any), or nothing written because
      the handler returned early or raised. */
  datatype Outcome =
    | Saved(table: Table, failure: Option<ActionError>)
    | NotSaved(reason: ActionError)

  // ---------------------------------------------------------------------
  // fill_na

  /** `cells.fillna(v)`. */
  function FillCells(cells: seq<Cell>, v: Cell): (r: seq<Cell>)
    ensures |r| == |cells|
    ensures forall i | 0 <= i < |cells| :: r[i] == if cells[i].Missing? then v else cells[i]
  {
    seq(|cells|, i requires 0 <= i < |cells| => if cells[i].Missing? then v else cells[i])
  }

  /** The fill value as the handler uses it: a float for a numeric column
      (rejected when the text is not a number), the raw text otherwise. */
  function FillValue(cells: seq<Cell>, raw: string): Option<Cell>
  {
    if NumericColumn(cells) then
      match ParseNumber(raw)
      case Some(v) => Some(Num(v))
      case None => None
    else Some(Text(raw))
  }

  /** `fill_na`. Filling is rejected exactly when the column is absent, or
      numeric with a fill value that is not a number; otherwise the target
      column has no missing cell left, its present cells keep their values,
      its missing cells hold the fill value, and every other column reads as
      before. NaN text is refused as not a number, unlike `FillNaAsWritten`. */
  function FillNa(t: Table, column: string, raw: string): (r: Result<Table, ActionError>)
    requires WellFormed(t)
    ensures r == Err(MissingColumn(column)) <==> !HasColumn(t, column)
    ensures r == Err(FillValueNotNumber) <==>
      HasColumn(t, column) && NumericColumn(Lookup(t, column).value) && ParseNumber(raw).None?
    ensures r.Ok? ==>
      var before := Lookup(t, column).value;
      && WellFormed(r.value) && r.value.height == t.height
      && Names(r.value.columns) == Names(t.columns)
      && Lookup(r.value, column).Some?
      && var after := Lookup(r.value, column).value;
      && |after| == |before|
      && (forall i | 0 <= i < |after| :: !after[i].Missing?)
      && (forall i | 0 <= i < |after| && !before[i].Missing? :: after[i] == before[i])
      && (forall i | 0 <= i < |after| && before[i].Missing? ::
            after[i] == if NumericColumn(before) then Num(ParseNumber(raw).value) else Text(raw))
      && (forall n | n != column :: Lookup(r.value, n) == Lookup(t, n))
  {
    match Lookup(t, column)
    case None => Err(MissingColumn(column))
    case Some(cells) =>
      match FillValue(cells, raw)
      case None => Err(FillValueNotNumber)
      case Some(v) =>
        LookupHeight(t, column);
        Ok(SetColumn(t, column, FillCells(cells, v)))
  }

  /** Text Python's `float` reads as NaN: "nan" in any letter case, after an
      optional sign. */
  predicate IsNanText(raw: string)
  {
    var u := if raw != [] && (raw[0] == '-' || raw[0] == '+') then raw[1..] else raw;
    |u| == 3 && LowerAscii(u[0]) == 'n' && LowerAscii(u[1]) == 'a' && LowerAscii(u[2]) == 'n'
  }

  function LowerAscii(c: char): char
  {
    if 'A' <= c <= 'Z' then (c as int + 32) as char else c
  }

  /** `float(fill_value)` as written: NaN text is accepted too, and a NaN
      cell is a missing cell. */
  function FloatAsWritten(raw: string): Option<Cell>
  {
    if IsNanText(raw) then Some(Missing)
    else match ParseNumber(raw)
      case Some(v) => Some(Num(v))
      case None => None
  }

  /** `fill_na` as written, with `float` accepting NaN text. */
  function FillNaAsWritten(t: Table, column: string, raw: string): (r: Result<Table, ActionError>)
    requires WellFormed(t)
    ensures r.Ok? ==> WellFormed(r.value)
  {
    match Lookup(t, column)
    case None => Err(MissingColumn(column))
    case Some(cells) =>
      var fill := if NumericColumn(cells) then FloatAsWritten(raw) else Some(Text(raw));
      match fill
      case None => Err(FillValueNotNumber)
      case Some(v) =>
        LookupHeight(t, column);
        Ok(SetColumn(t, column, FillCells(cells, v)))
  }

  /** As written, filling a numeric column with "nan" (or "NaN", "-nan", …)
      is accepted and saved, yet every missing cell stays missing. */
  lemma NanFillFillsNothing(t: Table, column: string, raw: string)
    requires WellFormed(t) && HasColumn(t, column)
    requires NumericColumn(Lookup(t, column).value) && IsNanText(raw)
    ensures FillNaAsWritten(t, column, raw).Ok?
    ensures Lookup(FillNaAsWritten(t, column, raw).value, column) == Lookup(t, column)
  {
    var cells := Lookup(t, column).value;
    assert FillCells(cells, Missing) == cells;
  }

  /** The NaN text is the only difference: `FillNa` refuses it as not a
      number and agrees with the code as written on every other fill value. */
  lemma FillNaRefusesOnlyNan(t: Table, column: string, raw: string)
    requires WellFormed(t)
    ensures IsNanText(raw) && HasColumn(t, column) && NumericColumn(Lookup(t, column).value) ==>
      FillNa(t, column, raw) == Err(FillValueNotNumber)
    ensures !IsNanText(raw) ==> FillNa(t, column, raw) == FillNaAsWritten(t, column, raw)
  {
  }

  // ---------------------------------------------------------------------
  // create_calculated_column

  /** `pd.to_numeric(column)` (errors='raise'): accepted exactly when every
      non-empty text cell is a number, and then the same column as the
      coercing conversion gives, where empty text is missing. */
  function NumericOperand(cells: seq<Cell>): (r: Option<seq<Cell>>)
    ensures r.Some? <==>
      forall i | 0 <= i < |cells| && cells[i].Text? && cells[i].s != "" :: ParseNumber(cells[i].s).Some?
    ensures r.Some? ==> r.value == ToNumeric(cells)
    ensures r.Some? ==> forall i | 0 <= i < |cells| && cells[i] == Text("") :: r.value[i] == Missing
  {
    if forall i | 0 <= i < |cells| :: StrictNumeric(cells[i]).Some? then
      var r := seq(|cells|, i requires 0 <= i < |cells| => StrictNumeric(cells[i]).value);
      assert forall i | 0 <= i < |cells| :: r[i] == ToNumeric(cells)[i];
      Some(r)
    else
      assert exists i | 0 <= i < |cells| :: cells[i].Text? && cells[i].s != "" && ParseNumber(cells[i].s).None?;
      None
  }

  /** One cell of `op1 <op> op2`. Addition, subtraction and multiplication
      leave the cell missing exactly when an operand is missing. For division,
      `.fillna(0)` and the replacement of infinities by 0 make every cell a
      number: the quotient when the divisor is a non-zero number, else 0. */
  function Combine(op: Operator, a: Cell, b: Cell): (r: Cell)
    ensures !r.Text?
    ensures op != Divide && !a.Text? && !b.Text? ==> (r.Missing? <==> a.Missing? || b.Missing?)
    ensures op == Divide ==> r.Num?
    ensures op == Divide && a.Num? && b.Num? && b.x != 0.0 ==> r.x * b.x == a.x
    ensures op == Divide && !(a.Num? && b.Num? && b.x != 0.0) ==> r.x == 0.0
  {
    match op
    case Add => if a.Num? && b.Num? then Num(a.x + b.x) else Missing
    case Subtract => if a.Num? && b.Num? then Num(a.x - b.x) else Missing
    case Multiply => if a.Num? && b.Num? then Num(a.x * b.x) else Missing
    case Divide => if a.Num? && b.Num? && b.x != 0.0 then Num(a.x / b.x) else Num(0.0)
  }

  function CombineColumns(op: Operator, a: seq<Cell>, b: seq<Cell>): (r: seq<Cell>)
    requires |a| == |b|
    ensures |r| == |a|
    ensures forall i | 0 <= i < |a| :: r[i] == Combine(op, a[i], b[i])
  {
    seq(|a|, i requires 0 <= i < |a| => Combine(op, a[i], b[i]))
  }

  /** `create_calculated_column`. It is refused only when an operand column is
      absent or holds text that is not a number; with a known operator the new
      column (replacing any column of that name) has one cell per row,
      combining the two operands row by row, and every other column reads as
      before; an unknown operator leaves the frame as it was. */
  function CalculatedColumn(t: Table, newName: string, operand1: string, operand2: string,
                            operator: string): (r: Result<Table, ActionError>)
    requires WellFormed(t)
    ensures r.Err? <==>
      || !HasColumn(t, operand1) || !HasColumn(t, operand2)
      || NumericOperand(Lookup(t, operand1).value).None?
      || NumericOperand(Lookup(t, operand2).value).None?
    ensures r.Ok? ==>
      && WellFormed(r.value) && r.value.height == t.height
      && (ParseOperator(operator).None? ==> r.value == t)
      && (ParseOperator(operator).Some? ==>
            && Lookup(r.value, newName).Some?
            && (forall n | n != newName :: Lookup(r.value, n) == Lookup(t, n))
            && var op1 := NumericOperand(Lookup(t, operand1).value).value;
            && var op2 := NumericOperand(Lookup(t, operand2).value).value;
            && var out := Lookup(r.value, newName).value;
            && |out| == t.height == |op1| == |op2|
            && forall i | 0 <= i < |out| :: out[i] == Combine(ParseOperator(operator).value, op1[i], op2[i]))
  {
    match Lookup(t, operand1)
    case None => Err(MissingColumn(operand1))
    case Some(c1) =>
      match NumericOperand(c1)
      case None => Err(NonNumericOperand(operand1))
      case Some(n1) =>
        match Lookup(t, operand2)
        case None => Err(MissingColumn(operand2))
        case Some(c2) =>
          match NumericOperand(c2)
          case None => Err(NonNumericOperand(operand2))
          case Some(n2) =>
            LookupHeight(t, operand1);
            LookupHeight(t, operand2);
            if |n1| != |n2| then Ok(t)
            else match ParseOperator(operator)
              case None => Ok(t)
              case Some(op) => Ok(SetColumn(t, newName, CombineColumns(op, n1, n2)))
  }

  // ---------------------------------------------------------------------
  // The handler

  /** The effect of one action on the stored frame. */
  function ActionOutcome(t: Table, action: Action): Outcome
    requires WellFormed(t)
  {
    match action
    case RemoveColumnAction(c) => Saved(RemoveColumn(t, c), None)
    case FillNaAction(c, raw) =>
      (match FillNa(t, c, raw)
       case Ok(r) => Saved(r, None)
       case Err(e) => NotSaved(e))
    case CalculatedColumnAction(name, a, b, op) =>
      (match CalculatedColumn(t, name, a, b, op)
       case Ok(r) => Saved(r, None)
       case Err(e) => Saved(t, Some(e)))
    case OtherAction => Saved(t, None)
  }

  /** `handle_data_action`: loads the stored frame, applies the action to it
      in place, and writes it back unless the fill value was rejected. */
  method HandleDataAction(stored: Table, action: Action) returns (outcome: Outcome)
    requires WellFormed(stored)
    ensures outcome == ActionOutcome(stored, action)
    ensures outcome.Saved? ==> WellFormed(outcome.table)
    ensures outcome.NotSaved? ==> action.FillNaAction?
  {
    var df := new DataFrame(stored);
    match action {
      case RemoveColumnAction(c) =>
        if df.Get(c).Some? {
          df := new DataFrame(RemoveColumn(df.Value(), c));
        }
        RemoveColumnExact(stored, c);
        outcome := Saved(df.Value(), None);

      case FillNaAction(c, raw) =>
        var cells := df.Get(c);
        if cells.None? {
          return NotSaved(MissingColumn(c));
        }
        var fill := Text(raw);
        if NumericColumn(cells.value) {
          var v := ParseNumber(raw);
          if v.None? {
            return NotSaved(FillValueNotNumber);
          }
          fill := Num(v.value);
        }
        df.Assign(c, FillCells(cells.value, fill));
        outcome := Saved(df.Value(), None);

      case CalculatedColumnAction(name, a, b, op) =>
        var failure: Option<ActionError> := None;
        var c1 := df.Get(a);
        if c1.None? {
          failure := Some(MissingColumn(a));
        } else if NumericOperand(c1.value).None? {
          failure := Some(NonNumericOperand(a));
        } else {
          var c2 := df.Get(b);
          if c2.None? {
            failure := Some(MissingColumn(b));
          } else if NumericOperand(c2.value).None? {
            failure := Some(NonNumericOperand(b));
          } else {
            var n1, n2 := NumericOperand(c1.value).value, NumericOperand(c2.value).value;
            var operator := ParseOperator(op);
            if |n1| == |n2| && operator.Some? {
              df.Assign(name, CombineColumns(operator.value, n1, n2));
            }
          }
        }
        outcome := Saved(df.Value(), failure);

      case OtherAction =>
        outcome := Saved(df.Value(), None);
    }
  }
}
