/** Choosing the name under which a project is saved as new: the requested
    name when it is free, otherwise "<name> (n)" with n one more than the
    largest bracketed number that ends a similar existing name. */
module ProjectNames {
  import opened Common
  import opened Cells

  /** The position where the run of digits that ends `s` begins. */
  function DigitRunStart(s: string): (k: nat)
    ensures k <= |s| && AllDigits(s[k..])
    ensures k > 0 ==> !IsDigit(s[k - 1])
  {
    if s == [] || !IsDigit(s[|s| - 1]) then |s|
    else
      var k := DigitRunStart(s[..|s| - 1]);
      assert s[k..] == s[..|s| - 1][k..] + [s[|s| - 1]];
      k
  }

  /** `s` ends with "(", the digits from position `k` on spelling `n`, and ")". */
  predicate BracketedFrom(s: string, k: nat, n: nat)
  {
    && 0 < k < |s| - 1
    && s[k - 1] == '(' && s[|s| - 1] == ')'
    && AllDigits(s[k..|s| - 1]) && DigitsValue(s[k..|s| - 1]) == n
  }

  /** `s` ends with "(", one or more digits spelling `n`, and ")". */
  predicate EndsBracketed(s: string, n: nat)
  {
    exists k | 0 < k < |s| :: BracketedFrom(s, k, n)
  }

  /** The number in "(digits)" when `s` ends with it. */
  function BracketedEnd(s: string): (r: Option<nat>)
    ensures r.Some? ==> EndsBracketed(s, r.value)
  {
    if s == [] || s[|s| - 1] != ')' then None
    else
      var body := s[..|s| - 1];
      var k := DigitRunStart(body);
      if 0 < k < |body| && body[k - 1] == '(' then
        assert body[k..] == s[k..|s| - 1] && BracketedFrom(s, k, DigitsValue(body[k..]));
        Some(DigitsValue(body[k..]))
      else None
  }

  /** `re.search(r'\((\d+)\)$', name)` and `int(match.group(1))`: Python's `$`
      also matches just before a final newline. */
  function TrailingNumber(name: string): (r: Option<nat>)
    ensures r.Some? ==>
      || EndsBracketed(name, r.value)
      || (name != [] && name[|name| - 1] == '\n' && EndsBracketed(name[..|name| - 1], r.value))
  {
    match BracketedEnd(name)
    case Some(n) => Some(n)
    case None =>
      if name != [] && name[|name| - 1] == '\n' then BracketedEnd(name[..|name| - 1]) else None
  }

  /** `f"{base} ({n})"`. */
  function Numbered(base: string, n: nat): string
  {
    base + " (" + NatToString(n) + ")"
  }

  lemma {:induction false} DigitRunAfter(a: string, d: string)
    requires a != [] && !IsDigit(a[|a| - 1]) && AllDigits(d)
    ensures DigitRunStart(a + d) == |a|
  {
    if d != [] {
      assert (a + d)[..|a + d| - 1] == a + d[..|d| - 1];
      DigitRunAfter(a, d[..|d| - 1]);
    } else {
      assert a + d == a;
    }
  }

  /** Every name that ends with a bracketed number yields that number. */
  lemma BracketedEndComplete(s: string, n: nat)
    requires EndsBracketed(s, n)
    ensures BracketedEnd(s) == Some(n)
  {
    var k: nat :| 0 < k < |s| && BracketedFrom(s, k, n);
    var body := s[..|s| - 1];
    assert body == body[..k] + s[k..|s| - 1];
    DigitRunAfter(body[..k], s[k..|s| - 1]);
    assert body[k..] == s[k..|s| - 1];
  }

  /** The converse of `TrailingNumber`'s contract: a name ending in
      "(digits)", possibly followed by one newline, yields those digits. */
  lemma TrailingNumberComplete(name: string, n: nat)
    requires || EndsBracketed(name, n)
             || (name != [] && name[|name| - 1] == '\n' && EndsBracketed(name[..|name| - 1], n))
    ensures TrailingNumber(name) == Some(n)
  {
    if EndsBracketed(name, n) {
      BracketedEndComplete(name, n);
    } else {
      BracketedEndComplete(name[..|name| - 1], n);
    }
  }

  /** The regular expression reads back the number a numbered name was made
      with. */
  lemma TrailingNumberOfNumbered(base: string, n: nat)
    ensures TrailingNumber(Numbered(base, n)) == Some(n)
  {
    var d := NatToString(n);
    var s := Numbered(base, n);
    var a := base + " (";
    assert s == a + d + ")";
    assert s[..|s| - 1] == a + d;
    DigitRunAfter(a, d);
    assert (a + d)[|a|..] == d;
    DigitsRoundTrip(n);
  }

  /** What one similar name adds to `existing_nums`. */
  function Contribution(base: string, name: string): seq<nat>
  {
    var m := TrailingNumber(name);
    (if name == base && m.None? then [0] else []) + (if m.Some? then [m.value] else [])
  }

  /** `existing_nums` after the loop over the first names. */
  function SuffixNumbers(base: string, similar: seq<string>): (nums: seq<nat>)
    ensures |nums| > 0 && nums[0] == 0
  {
    if similar == [] then [0]
    else SuffixNumbers(base, similar[..|similar| - 1]) + Contribution(base, similar[|similar| - 1])
  }

  lemma SuffixNumbersAre(base: string, similar: seq<string>)
    ensures forall j | 0 <= j < |similar| && TrailingNumber(similar[j]).Some? ::
      TrailingNumber(similar[j]).value in SuffixNumbers(base, similar)
    ensures forall v | v in SuffixNumbers(base, similar) ::
      v == 0 || exists j | 0 <= j < |similar| :: TrailingNumber(similar[j]) == Some(v)
  {
    SuffixNumbersCollect(base, similar);
    SuffixNumbersFrom(base, similar);
  }

  /** Every trailing number of a similar name is collected. */
  lemma {:induction false} SuffixNumbersCollect(base: string, similar: seq<string>)
    ensures forall j | 0 <= j < |similar| && TrailingNumber(similar[j]).Some? ::
      TrailingNumber(similar[j]).value in SuffixNumbers(base, similar)
  {
    if similar != [] {
      var init := similar[..|similar| - 1];
      var last := similar[|similar| - 1];
      SuffixNumbersCollect(base, init);
      assert SuffixNumbers(base, similar) == SuffixNumbers(base, init) + Contribution(base, last);
      forall j | 0 <= j < |similar| && TrailingNumber(similar[j]).Some?
        ensures TrailingNumber(similar[j]).value in SuffixNumbers(base, similar)
      {
        if j < |init| { assert similar[j] == init[j]; }
        else { assert TrailingNumber(last).value in Contribution(base, last); }
      }
    }
  }

  /** Every collected number is 0 or the trailing number of a similar name. */
  lemma {:induction false} SuffixNumbersFrom(base: string, similar: seq<string>)
    ensures forall v | v in SuffixNumbers(base, similar) ::
      v == 0 || exists j | 0 <= j < |similar| :: TrailingNumber(similar[j]) == Some(v)
  {
    if similar != [] {
      var init := similar[..|similar| - 1];
      var last := similar[|similar| - 1];
      SuffixNumbersFrom(base, init);
      assert SuffixNumbers(base, similar) == SuffixNumbers(base, init) + Contribution(base, last);
      forall v | v in SuffixNumbers(base, similar)
        ensures v == 0 || exists j | 0 <= j < |similar| :: TrailingNumber(similar[j]) == Some(v)
      {
        if v in SuffixNumbers(base, init) {
          if v != 0 {
            var j :| 0 <= j < |init| && TrailingNumber(init[j]) == Some(v);
            assert similar[j] == init[j];
          }
        } else {
          assert v in Contribution(base, last);
          assert similar[|similar| - 1] == last;
        }
      }
    }
  }

  /** `n` is what the loop computes: one more than the largest trailing
      number among the similar names, or 1 when none has one. */
  predicate IsNextNumber(similar: seq<string>, n: nat)
  {
    && n >= 1
    && (forall j | 0 <= j < |similar| && TrailingNumber(similar[j]).Some? ::
          TrailingNumber(similar[j]).value < n)
    && (n == 1 || exists j | 0 <= j < |similar| :: TrailingNumber(similar[j]) == Some(n - 1))
  }

  /** `max(existing_nums)`. */
  method Max(nums: seq<nat>) returns (top: nat)
    requires |nums| > 0
    ensures top in nums
    ensures forall i | 0 <= i < |nums| :: nums[i] <= top
  {
    top := nums[0];
    for i := 1 to |nums|
      invariant top in nums[..i]
      invariant forall k | 0 <= k < i :: nums[k] <= top
    {
      if nums[i] > top {
        top := nums[i];
      }
    }
  }

  /** One more than the largest collected number is the next number. */
  lemma NextAfterLargest(base: string, similar: seq<string>, top: nat)
    requires top in SuffixNumbers(base, similar)
    requires forall k | 0 <= k < |SuffixNumbers(base, similar)| :: SuffixNumbers(base, similar)[k] <= top
    ensures IsNextNumber(similar, top + 1)
  {
    SuffixNumbersAre(base, similar);
  }

  lemma SuffixNumbersStep(base: string, similar: seq<string>, i: nat)
    requires i < |similar|
    ensures SuffixNumbers(base, similar[..i + 1]) ==
      SuffixNumbers(base, similar[..i]) + Contribution(base, similar[i])
  {
    assert similar[..i + 1][..i] == similar[..i];
  }

  /** The loop over the similar names that collects `existing_nums`. */
  method CollectNumbers(base: string, similar: seq<string>) returns (existing: seq<nat>)
    ensures existing == SuffixNumbers(base, similar)
  {
    existing := [0];
    for i := 0 to |similar|
      invariant existing == SuffixNumbers(base, similar[..i])
    {
      var p := similar[i];
      var m := TrailingNumber(p);
      SuffixNumbersStep(base, similar, i);
      ghost var before := existing;
      if p == base && m.None? {
        existing := existing + [0];
      }
      if m.Some? {
        existing := existing + [m.value];
      }
      assert existing == before + Contribution(base, p);
    }
    assert similar[..|similar|] == similar;
  }

  /** `max(existing_nums) + 1` over the collected numbers. */
  method NextNumber(base: string, similar: seq<string>) returns (next: nat)
    ensures IsNextNumber(similar, next)
  {
    var existing := CollectNumbers(base, similar);
    var top := Max(existing);
    NextAfterLargest(base, similar, top);
    next := top + 1;
  }

  /** The `save_new` branch: the requested name when no project has it,
      otherwise a numbered name that none of the similar names equals. */
  method SaveAsNewName(base: string, taken: bool, similar: seq<string>) returns (finalName: string)
    ensures !taken ==> finalName == base
    ensures taken ==> exists n | IsNextNumber(similar, n) :: finalName == Numbered(base, n)
    ensures taken ==> finalName !in similar && finalName != base
  {
    finalName := base;
    if taken {
      var n := NextNumber(base, similar);
      finalName := Numbered(base, n);
      TrailingNumberOfNumbered(base, n);
      assert |finalName| > |base|;
    }
  }
}
