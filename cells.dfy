/** Cells of a data frame, the numeric coercions the application applies to
    them, decimal text for numbers, and the order in which group keys sort. */
module Cells {
  import opened Common

  /** One cell: a number (held exactly, as a real), a piece of text, or a
      missing value (NaN / None). */
  datatype Cell = Num(x: real) | Text(s: string) | Missing

  // ---------------------------------------------------------------------
  // Decimal digits

  predicate IsDigit(c: char)
  {
    '0' <= c <= '9'
  }

  predicate AllDigits(s: string)
  {
    forall i | 0 <= i < |s| :: IsDigit(s[i])
  }

  function DigitChar(d: nat): (c: char)
    requires d < 10
    ensures IsDigit(c) && c as int - '0' as int == d
  {
    ('0' as int + d) as char
  }

  /** The value of a run of decimal digits, most significant digit first
      (leading zeros allowed, as for Python's `int`). */
  function DigitsValue(s: string): nat
    requires AllDigits(s)
  {
    if s == [] then 0
    else DigitsValue(s[..|s| - 1]) * 10 + (s[|s| - 1] as int - '0' as int)
  }

  /** `str(n)` for a natural number. */
  function NatToString(n: nat): (s: string)
    ensures |s| > 0 && AllDigits(s)
  {
    if n < 10 then [DigitChar(n)] else NatToString(n / 10) + [DigitChar(n % 10)]
  }

  /** `str(i)` for an integer. */
  function IntToString(i: int): (s: string)
    ensures |s| > 0
  {
    if i < 0 then "-" + NatToString(-i) else NatToString(i)
  }

  lemma {:induction false} DigitsRoundTrip(n: nat)
    ensures DigitsValue(NatToString(n)) == n
  {
    if n >= 10 {
      var s := NatToString(n);
      assert s[..|s| - 1] == NatToString(n / 10);
      DigitsRoundTrip(n / 10);
    }
  }

  // ---------------------------------------------------------------------
  // Parsing a number from text (Python's `float`, pandas' `to_numeric`)

  function Pow10(k: nat): (p: nat)
    ensures p >= 1
  {
    if k == 0 then 1 else 10 * Pow10(k - 1)
  }

  /** The position of the first '.', or |s| when there is none. */
  function DotIndex(s: string): (p: nat)
    ensures p <= |s|
    ensures forall i | 0 <= i < p :: s[i] != '.'
    ensures p < |s| ==> s[p] == '.'
  {
    if s == [] then 0 else if s[0] == '.' then 0 else 1 + DotIndex(s[1..])
  }

  /** An unsigned decimal literal: `digits`, `digits.`, `.digits` or
      `digits.digits`. */
  function ParseUnsigned(s: string): (r: Option<real>)
    ensures r.Some? ==> r.value >= 0.0
    ensures r.Some? ==> exists i | 0 <= i < |s| :: IsDigit(s[i])
    ensures r.Some? ==> forall i | 0 <= i < |s| :: IsDigit(s[i]) || i == DotIndex(s)
  {
    var p := DotIndex(s);
    if p == |s| then
      if s != [] && AllDigits(s) then
        assert IsDigit(s[0]);
        Some(DigitsValue(s) as real)
      else None
    else
      var whole, frac := s[..p], s[p + 1..];
      if |s| > 1 && AllDigits(whole) && AllDigits(frac) then
        assert forall i | 0 <= i < p :: s[i] == whole[i];
        assert forall i | p < i < |s| :: s[i] == frac[i - p - 1];
        assert if p > 0 then IsDigit(s[0]) else IsDigit(s[1]);
        Some(DecimalValue(whole, frac))
      else None
  }

  /** The number `w.f` denotes: the whole part plus the fraction digits
      scaled by ten to the power of their count. */
  function DecimalValue(w: string, f: string): (v: real)
    requires AllDigits(w) && AllDigits(f)
    ensures v >= 0.0
  {
    DigitsValue(w) as real + DigitsValue(f) as real / Pow10(|f|) as real
  }

  /** A signed decimal literal as text, read as an exact number; None when
      the text is not a number. Accepted text holds at least one digit, at
      most one '.', and nothing else but a leading sign. */
  function ParseNumber(s: string): (r: Option<real>)
    ensures r.Some? ==> exists i | 0 <= i < |s| :: IsDigit(s[i])
    ensures r.Some? ==> forall i | 0 <= i < |s| && !IsDigit(s[i]) && s[i] != '.' ::
      i == 0 && (s[0] == '-' || s[0] == '+')
    ensures r.Some? ==> forall i, j | 0 <= i < j < |s| :: s[i] != '.' || s[j] != '.'
    ensures r.Some? && r.value < 0.0 ==> s[0] == '-'
  {
    if s != [] && (s[0] == '-' || s[0] == '+') then
      match ParseUnsigned(s[1..])
      case None => None
      case Some(v) => Some(if s[0] == '-' then -v else v)
    else ParseUnsigned(s)
  }

  /** Text printed for an integer parses back to that integer. */
  lemma ParseIntToString(i: int)
    ensures ParseNumber(IntToString(i)) == Some(i as real)
  {
    var n: nat := if i < 0 then -i else i;
    var d := NatToString(n);
    ParseNatToString(n);
    if i < 0 {
      assert IntToString(i)[1..] == d;
    } else {
      assert IsDigit(d[0]);
    }
  }

  /** The digits of a natural number parse back to it. */
  lemma ParseNatToString(n: nat)
    ensures ParseUnsigned(NatToString(n)) == Some(n as real)
  {
    var d := NatToString(n);
    DigitsRoundTrip(n);
    assert forall k | 0 <= k < |d| :: d[k] != '.';
    assert DotIndex(d) == |d|;
  }

  /** Every signed literal `digits.digits` (either run may be empty, not
      both) is accepted, and reads as the whole part plus the fraction
      scaled by its number of digits, negated after a '-'. */
  lemma ParseDecimal(sign: string, w: string, f: string)
    requires sign == "" || sign == "-" || sign == "+"
    requires AllDigits(w) && AllDigits(f) && |w| + |f| > 0
    ensures ParseNumber(sign + w + "." + f) ==
      Some(if sign == "-" then -DecimalValue(w, f) else DecimalValue(w, f))
  {
    UnsignedDecimal(w, f);
    ParseSigned(sign, w + "." + f, DecimalValue(w, f));
    ConcatAssoc(sign, w, f);
  }

  lemma ConcatAssoc(sign: string, w: string, f: string)
    ensures sign + w + "." + f == sign + (w + "." + f)
  {
  }

  /** Every signed run of digits is accepted and reads as its integer. */
  lemma ParseWhole(sign: string, w: string)
    requires sign == "" || sign == "-" || sign == "+"
    requires w != [] && AllDigits(w)
    ensures ParseNumber(sign + w) == Some(if sign == "-" then -(DigitsValue(w) as real) else DigitsValue(w) as real)
  {
    assert forall k | 0 <= k < |w| :: w[k] != '.';
    assert DotIndex(w) == |w|;
    assert IsDigit(w[0]);
    ParseSigned(sign, w, DigitsValue(w) as real);
  }

  /** A sign in front of an unsigned literal negates it ('-') or keeps it. */
  lemma ParseSigned(sign: string, u: string, v: real)
    requires sign == "" || sign == "-" || sign == "+"
    requires u != [] && u[0] != '-' && u[0] != '+' && ParseUnsigned(u) == Some(v)
    ensures ParseNumber(sign + u) == Some(if sign == "-" then -v else v)
  {
    if sign == "" {
      assert sign + u == u;
    } else {
      assert (sign + u)[1..] == u;
    }
  }

  lemma UnsignedDecimal(w: string, f: string)
    requires AllDigits(w) && AllDigits(f) && |w| + |f| > 0
    ensures ParseUnsigned(w + "." + f) == Some(DecimalValue(w, f))
    ensures var u := w + "." + f; u[0] != '-' && u[0] != '+'
  {
    var u := w + "." + f;
    var p := DotIndex(u);
    assert u[|w|] == '.';
    assert p == |w|;
    var whole, frac := u[..p], u[p + 1..];
    assert whole == w;
    assert frac == f;
    assert |u| > 1 && AllDigits(whole) && AllDigits(frac);
    if w != [] { assert u[0] == w[0]; } else { assert u[0] == '.'; }
  }

  // ---------------------------------------------------------------------
  // Numeric coercion of cells

  /** `pd.to_numeric` (errors='raise') of one cell: numbers and missing cells
      pass through, empty text reads as missing, and any other text must parse
      as a number. */
  function StrictNumeric(c: Cell): Option<Cell>
  {
    match c
    case Num(_) => Some(c)
    case Missing => Some(Missing)
    case Text(s) =>
      if s == "" then Some(Missing)
      else match ParseNumber(s)
      case Some(v) => Some(Num(v))
      case None => None
  }

  /** `pd.to_numeric(..., errors='coerce')` of one cell: text that is not a
      number becomes missing. */
  function CoerceNumeric(c: Cell): (r: Cell)
    ensures !r.Text?
    ensures StrictNumeric(c).Some? ==> r == StrictNumeric(c).value
    ensures StrictNumeric(c).None? ==> r == Missing
  {
    match StrictNumeric(c)
    case Some(v) => v
    case None => Missing
  }

  /** `pd.to_numeric(..., errors='coerce').fillna(0)` of one cell. */
  function NumberOrZero(c: Cell): (v: real)
    ensures CoerceNumeric(c).Num? ==> v == CoerceNumeric(c).x
    ensures CoerceNumeric(c).Missing? ==> v == 0.0
  {
    match CoerceNumeric(c)
    case Num(x) => x
    case _ => 0.0
  }

  /** `pd.to_numeric(column, errors='coerce')`: numbers are kept, text that
      parses becomes its number, anything else becomes missing. */
  function ToNumeric(cells: seq<Cell>): (r: seq<Cell>)
    ensures |r| == |cells| && NumericColumn(r)
    ensures forall i | 0 <= i < |cells| && !cells[i].Text? :: r[i] == cells[i]
    ensures forall i | 0 <= i < |cells| && cells[i].Text? ::
      r[i] == if ParseNumber(cells[i].s).Some? then Num(ParseNumber(cells[i].s).value) else Missing
  {
    seq(|cells|, i requires 0 <= i < |cells| => CoerceNumeric(cells[i]))
  }

  /** Coercing an already coerced column changes nothing. */
  lemma ToNumericIdempotent(cells: seq<Cell>)
    ensures ToNumeric(ToNumeric(cells)) == ToNumeric(cells)
  {
    var once := ToNumeric(cells);
    assert forall i | 0 <= i < |once| :: CoerceNumeric(once[i]) == once[i];
  }

  /** `pd.to_numeric(column, errors='coerce').fillna(0)`, as numbers. */
  function ZeroFilled(cells: seq<Cell>): (vs: seq<real>)
    ensures |vs| == |cells|
    ensures forall i | 0 <= i < |cells| && ToNumeric(cells)[i].Num? :: vs[i] == ToNumeric(cells)[i].x
    ensures forall i | 0 <= i < |cells| && ToNumeric(cells)[i].Missing? :: vs[i] == 0.0
  {
    seq(|cells|, i requires 0 <= i < |cells| => NumberOrZero(cells[i]))
  }

  /** A column of numbers. */
  function Nums(vs: seq<real>): (r: seq<Cell>)
    ensures |r| == |vs| && forall i | 0 <= i < |vs| :: r[i] == Num(vs[i])
  {
    seq(|vs|, i requires 0 <= i < |vs| => Num(vs[i]))
  }

  /** A column has a numeric dtype when no cell holds text. */
  predicate NumericColumn(cells: seq<Cell>)
  {
    forall i | 0 <= i < |cells| :: !cells[i].Text?
  }

  // ---------------------------------------------------------------------
  // Order of group keys (pandas sorts group keys ascending)

  /** Python's `<` on strings: code point by code point. */
  predicate StrBelow(a: string, b: string)
  {
    if a == [] then b != []
    else if b == [] then false
    else if a[0] == b[0] then StrBelow(a[1..], b[1..])
    else a[0] < b[0]
  }

  /** The strict order on keys: numbers by value, then texts by code point;
      missing cells are never keys. */
  predicate KeyBelow(a: Cell, b: Cell)
  {
    match (a, b)
    case (Num(x), Num(y)) => x < y
    case (Num(_), Text(_)) => true
    case (Text(s), Text(t)) => StrBelow(s, t)
    case _ => false
  }

  lemma {:induction false} StrBelowIrreflexive(a: string)
    ensures !StrBelow(a, a)
  {
    if a != [] { StrBelowIrreflexive(a[1..]); }
  }

  lemma {:induction false} StrBelowTransitive(a: string, b: string, c: string)
    requires StrBelow(a, b) && StrBelow(b, c)
    ensures StrBelow(a, c)
  {
    if a != [] && b != [] && c != [] && a[0] == b[0] && b[0] == c[0] {
      StrBelowTransitive(a[1..], b[1..], c[1..]);
    }
  }

  lemma {:induction false} StrBelowTotal(a: string, b: string)
    requires a != b
    ensures StrBelow(a, b) || StrBelow(b, a)
  {
    if a != [] && b != [] && a[0] == b[0] {
      assert a == [a[0]] + a[1..] && b == [b[0]] + b[1..];
      StrBelowTotal(a[1..], b[1..]);
    }
  }

  lemma KeyBelowIrreflexive(a: Cell)
    ensures !KeyBelow(a, a)
  {
    if a.Text? { StrBelowIrreflexive(a.s); }
  }

  lemma KeyBelowTransitive(a: Cell, b: Cell, c: Cell)
    requires KeyBelow(a, b) && KeyBelow(b, c)
    ensures KeyBelow(a, c)
  {
    if a.Text? { StrBelowTransitive(a.s, b.s, c.s); }
  }

  lemma KeyBelowTotal(a: Cell, b: Cell)
    requires a != b && !a.Missing? && !b.Missing?
    ensures KeyBelow(a, b) || KeyBelow(b, a)
  {
    if a.Text? && b.Text? { StrBelowTotal(a.s, b.s); }
  }
}
