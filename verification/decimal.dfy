/**
 * The string side of `reduceNumber`, the minimiser that shortens the decimal
 * text of a float one fraction digit at a time. The floating-point parse and
 * compare (`copy[0] = +text; copy[0] === value`) is the parameter `same`: it
 * says whether a candidate text reads back as the original value at the
 * inspector's width. The starting text (`value + ''`, or `'-0'`) is an input.
 */
module Decimal {
  import opened Seqs

  predicate IsDigit(c: char) {
    '0' <= c <= '9'
  }

  predicate AllDigits(s: string) {
    forall k :: 0 <= k < |s| ==> IsDigit(s[k])
  }

  function DigitValue(c: char): (v: nat)
    requires IsDigit(c)
    ensures v < 10
  {
    c as int - '0' as int
  }

  function Pow10(k: nat): (p: nat)
    ensures p >= 1
  {
    if k == 0 then 1 else 10 * Pow10(k - 1)
  }

  /** The number a digit string denotes, most significant digit first. */
  function DigitsValue(d: string): nat
    requires AllDigits(d)
  {
    if d == "" then 0 else 10 * DigitsValue(d[..|d| - 1]) + DigitValue(d[|d| - 1])
  }

  // ---------------------------------------------------------------------------
  // The pattern /^([+-]?\d+)((?:\.\d+)?)((?:[eE][+-]?\d+)?)$/

  /** The length of an optional leading `+` or `-`. */
  function SignLength(s: string): nat {
    if |s| > 0 && (s[0] == '+' || s[0] == '-') then 1 else 0
  }

  /** `[+-]?\d+` */
  predicate IsWhole(w: string) {
    SignLength(w) < |w| && AllDigits(w[SignLength(w)..])
  }

  /** `(?:\.\d+)?` */
  predicate IsFraction(f: string) {
    f == "" || (|f| >= 2 && f[0] == '.' && AllDigits(f[1..]))
  }

  /** `(?:[eE][+-]?\d+)?` */
  predicate IsExponent(e: string) {
    e == "" || ((e[0] == 'e' || e[0] == 'E') && IsWhole(e[1..]))
  }

  /** The three capture groups. */
  datatype Parts = Parts(whole: string, fraction: string, exponent: string)

  /** The length of the run of digits starting at `i`. */
  function DigitRun(s: string, i: nat): (k: nat)
    requires i <= |s|
    ensures i + k <= |s|
    ensures forall j :: i <= j < i + k ==> IsDigit(s[j])
    ensures i + k == |s| || !IsDigit(s[i + k])
    decreases |s| - i
  {
    if i < |s| && IsDigit(s[i]) then 1 + DigitRun(s, i + 1) else 0
  }

  /**
   * The match of the pattern against the whole text, or None when it does not
   * match. Each group is greedy and what may follow it never starts with a
   * digit, so the match is found without backtracking.
   */
  function Split(x: string): (r: Option<Parts>)
    ensures r.Some? ==> r.value.whole + r.value.fraction + r.value.exponent == x
    ensures r.Some? ==> IsWhole(r.value.whole) && IsFraction(r.value.fraction) && IsExponent(r.value.exponent)
  {
    var i := WholeEnd(x);
    if i == SignLength(x) then None
    else
      var j := FractionEnd(x, i);
      if j == i + 1 then None
      else if IsExponent(x[j..]) then
        Groups(x, i, j);
        Some(Parts(x[..i], x[i..j], x[j..]))
      else None
  }

  /** Where the greedy `[+-]?\d+` ends when it is matched from the start of `x`. */
  function WholeEnd(x: string): (i: nat)
    ensures SignLength(x) <= i <= |x|
    ensures forall k :: SignLength(x) <= k < i ==> IsDigit(x[k])
  {
    SignLength(x) + DigitRun(x, SignLength(x))
  }

  /** Where the greedy `(?:\.\d+)?` ends when it is matched from index `i` of `x`. */
  function FractionEnd(x: string, i: nat): (j: nat)
    requires i <= |x|
    ensures i <= j <= |x|
    ensures j > i ==> x[i] == '.' && forall k :: i + 1 <= k < j ==> IsDigit(x[k])
  {
    if i < |x| && x[i] == '.' then i + 1 + DigitRun(x, i + 1) else i
  }

  /** The three slices `Split` takes are groups of the pattern, and together they are the text. */
  lemma Groups(x: string, i: nat, j: nat)
    requires SignLength(x) < i <= j <= |x|
    requires forall k :: SignLength(x) <= k < i ==> IsDigit(x[k])
    requires j == i || (i + 2 <= j && x[i] == '.' && forall k :: i + 1 <= k < j ==> IsDigit(x[k]))
    ensures IsWhole(x[..i]) && IsFraction(x[i..j])
    ensures x[..i] + x[i..j] + x[j..] == x
  {
    WholeGroup(x, i);
    FractionGroup(x, i, j);
  }

  /** A sign and a non-empty run of digits form the first group. */
  lemma WholeGroup(x: string, i: nat)
    requires SignLength(x) < i <= |x|
    requires forall k :: SignLength(x) <= k < i ==> IsDigit(x[k])
    ensures IsWhole(x[..i])
  {
    var w := x[..i];
    assert SignLength(w) == SignLength(x);
    assert forall k :: 0 <= k < |w[SignLength(w)..]| ==> w[SignLength(w)..][k] == x[SignLength(x) + k];
  }

  /** Nothing, or a `.` and a non-empty run of digits, form the second group. */
  lemma FractionGroup(x: string, i: nat, j: nat)
    requires i <= j <= |x|
    requires j == i || (i + 2 <= j && x[i] == '.' && forall k :: i + 1 <= k < j ==> IsDigit(x[k]))
    ensures IsFraction(x[i..j])
  {
    if j > i {
      var f := x[i..j];
      assert forall k :: 0 <= k < |f[1..]| ==> f[1..][k] == x[i + 1 + k];
    }
  }

  /** A run of exactly `k` digits followed by a non-digit or the end has length `k`. */
  lemma {:induction false} DigitRunExact(s: string, i: nat, k: nat)
    requires i + k <= |s|
    requires forall j :: i <= j < i + k ==> IsDigit(s[j])
    requires i + k == |s| || !IsDigit(s[i + k])
    ensures DigitRun(s, i) == k
    decreases k
  {
    if k > 0 {
      DigitRunExact(s, i + 1, k - 1);
    }
  }

  /** How `Split` reads a text once it is known where its first two groups end. */
  lemma SplitAt(x: string, i: nat, j: nat)
    requires SignLength(x) < i && WholeEnd(x) == i && FractionEnd(x, i) == j && j != i + 1
    requires IsExponent(x[j..])
    ensures Split(x) == Some(Parts(x[..i], x[i..j], x[j..]))
  {
  }

  /** In a text that starts with a whole part, the first group ends where the whole part does. */
  lemma WholeRun(x: string, w: string, rest: string)
    requires x == w + rest && IsWhole(w) && (rest == "" || !IsDigit(rest[0]))
    ensures SignLength(x) < |w| && WholeEnd(x) == |w|
  {
    var sign := SignLength(w);
    assert x[0] == w[0];
    forall j | sign <= j < |w|
      ensures IsDigit(x[j])
    {
      assert x[j] == w[sign..][j - sign];
    }
    if |w| < |x| {
      assert x[|w|] == rest[0];
    }
    DigitRunExact(x, sign, |w| - sign);
  }

  /** After the whole part, the second group covers exactly the fraction part. */
  lemma FractionRun(x: string, a: string, f: string, e: string)
    requires x == a + f + e && IsFraction(f) && (e == "" || !IsDigit(e[0]))
    requires f == "" ==> e == "" || e[0] != '.'
    ensures FractionEnd(x, |a|) == |a| + |f|
  {
    if f == "" {
      assert |a| < |x| ==> x[|a|] == e[0];
    } else {
      assert x[|a|] == f[0];
      forall j | |a| + 1 <= j < |a| + |f|
        ensures IsDigit(x[j])
      {
        assert x[j] == f[1..][j - |a| - 1];
      }
      if |a| + |f| < |x| {
        assert x[|a| + |f|] == e[0];
      }
      DigitRunExact(x, |a| + 1, |f| - 1);
    }
  }

  /** What follows the whole part starts with `.`, `e`, `E` or nothing, and what follows the fraction part with `e`, `E` or nothing. */
  lemma AfterWhole(f: string, e: string)
    requires IsFraction(f) && IsExponent(e)
    ensures f + e == "" || !IsDigit((f + e)[0])
    ensures e == "" || (!IsDigit(e[0]) && e[0] != '.')
  {
    if f != "" {
      assert (f + e)[0] == '.';
    } else if e != "" {
      assert (f + e)[0] == e[0];
    }
  }

  /** The pattern matches every text made of a whole, a fraction and an exponent part, and splits it back into them. */
  lemma SplitComplete(w: string, f: string, e: string)
    requires IsWhole(w) && IsFraction(f) && IsExponent(e)
    ensures Split(w + f + e) == Some(Parts(w, f, e))
  {
    var x := w + f + e;
    AfterWhole(f, e);
    WholeRun(x, w, f + e);
    FractionRun(x, w, f, e);
    PartsOf(x, w, f, e);
    SplitAt(x, |w|, |w| + |f|);
  }

  /** The three parts of a concatenation are its slices at the parts' boundaries. */
  lemma PartsOf(x: string, w: string, f: string, e: string)
    requires x == w + f + e
    ensures x[..|w|] == w && x[|w|..|w| + |f|] == f && x[|w| + |f|..] == e
  {
    assert x == w + (f + e);
  }

  /** `x === 'NaN' || x === 'Infinity' || x === '-Infinity'` */
  predicate IsSpecial(x: string) {
    x == "NaN" || x == "Infinity" || x == "-Infinity"
  }

  // ---------------------------------------------------------------------------
  // Digit-carry rounding

  /** `String.fromCharCode((c + 1) % 10 + zero)` for a digit with value `c`. */
  function NextDigit(c: char): (r: char)
    requires IsDigit(c)
    ensures IsDigit(r)
  {
    ((DigitValue(c) + 1) % 10 + '0' as int) as char
  }

  /** A digit string plus one in its last place, with carry; a carry out of the first digit is dropped. */
  function IncrementDigits(d: string): (r: string)
    requires AllDigits(d)
    ensures |r| == |d| && AllDigits(r)
  {
    if d == "" then ""
    else if d[|d| - 1] != '9' then d[..|d| - 1] + [NextDigit(d[|d| - 1])]
    else IncrementDigits(d[..|d| - 1]) + "0"
  }

  /** A fraction part while it is being trimmed: empty, or `.` followed by zero or more digits. */
  predicate IsTrimmedFraction(f: string) {
    f == "" || (f[0] == '.' && AllDigits(f[1..]))
  }

  /**
   * The rounded fraction the minimiser tries: the character at index 0 (the
   * `.`) is never touched, and the digits after it are incremented with carry.
   */
  function RoundedFraction(t: string): (r: string)
    requires IsTrimmedFraction(t)
    ensures |r| == |t| && IsTrimmedFraction(r)
    ensures |t| > 0 ==> r[0] == t[0]
  {
    if |t| <= 1 then t else t[..1] + IncrementDigits(t[1..])
  }

  /** A digit string is below `10^length`. */
  lemma {:induction false} DigitsValueBound(d: string)
    requires AllDigits(d)
    ensures DigitsValue(d) < Pow10(|d|)
  {
    if d != "" {
      DigitsValueBound(d[..|d| - 1]);
    }
  }

  /**
   * The carry increments the number the digits denote, unless every digit is
   * a nine: then it wraps round to zero (the carry out of the first digit is
   * lost).
   */
  lemma {:induction false} IncrementValue(d: string)
    requires AllDigits(d)
    ensures DigitsValue(d) + 1 < Pow10(|d|) ==> DigitsValue(IncrementDigits(d)) == DigitsValue(d) + 1
    ensures DigitsValue(d) + 1 == Pow10(|d|) ==> DigitsValue(IncrementDigits(d)) == 0
  {
    if d != "" {
      var p := d[..|d| - 1];
      var c := d[|d| - 1];
      var r := IncrementDigits(d);
      DigitsValueBound(p);
      if c != '9' {
        assert r[..|r| - 1] == p;
      } else {
        var q := IncrementDigits(p);
        assert r[..|r| - 1] == q;
        IncrementValue(p);
      }
    }
  }

  /** A run of trailing nines becomes zeros and the digit before it goes up by one; the rest is kept. */
  lemma {:induction false} IncrementCarries(p: string, c: char, nines: nat)
    requires AllDigits(p) && IsDigit(c) && c != '9'
    ensures AllDigits(p + [c] + Repeat('9', nines))
    ensures IncrementDigits(p + [c] + Repeat('9', nines)) == p + [NextDigit(c)] + Repeat('0', nines)
  {
    var d := p + [c] + Repeat('9', nines);
    if nines == 0 {
      assert d == p + [c];
      assert d[..|d| - 1] == p;
    } else {
      assert d[..|d| - 1] == p + [c] + Repeat('9', nines - 1);
      IncrementCarries(p, c, nines - 1);
      assert Repeat('0', nines - 1) + "0" == Repeat('0', nines);
      assert p + [NextDigit(c)] + Repeat('0', nines - 1) + "0" == p + [NextDigit(c)] + Repeat('0', nines);
    }
  }

  /** An all-nines string wraps round to all zeros. */
  lemma {:induction false} IncrementAllNines(nines: nat)
    ensures IncrementDigits(Repeat('9', nines)) == Repeat('0', nines)
  {
    if nines > 0 {
      var d := Repeat('9', nines);
      assert d[..|d| - 1] == Repeat('9', nines - 1);
      IncrementAllNines(nines - 1);
      assert Repeat('0', nines - 1) + "0" == Repeat('0', nines);
    }
  }

  /**
   * One pass of the carry loop at index `i`, where everything after `i` is
   * already zero: digit `i` goes up by one (a nine becomes a zero).
   */
  lemma CarryStep(t: string, i: nat, rounded: string, next: string)
    requires IsTrimmedFraction(t) && 0 < i < |t|
    requires rounded == t[..i + 1] + Repeat('0', |t| - 1 - i)
    requires t[i + 1..] == Repeat('9', |t| - 1 - i)
    requires next == rounded[..i] + [NextDigit(t[i])] + rounded[i + 1..]
    ensures next == t[..i] + [NextDigit(t[i])] + Repeat('0', |t| - 1 - i)
    ensures t[i] == '9' ==> next == t[..i] + Repeat('0', |t| - i) && t[i..] == Repeat('9', |t| - i)
  {
    assert rounded[..i] == t[..i];
    assert rounded[i + 1..] == Repeat('0', |t| - 1 - i);
    assert t[i..] == [t[i]] + t[i + 1..];
  }

  /** Every character after the `.` of a trimmed fraction is a digit. */
  lemma DigitAt(t: string, i: nat)
    requires IsTrimmedFraction(t) && 0 < i < |t|
    ensures IsDigit(t[i])
  {
    assert t[i] == t[1..][i - 1];
  }

  /** Where the carry stops at digit `i`: the digits after it were nines and are now zeros. */
  lemma CarryStops(t: string, i: nat, rounded: string)
    requires IsTrimmedFraction(t) && 0 < i < |t| && t[i] != '9'
    requires t[i + 1..] == Repeat('9', |t| - 1 - i)
    requires rounded == t[..i] + [NextDigit(t[i])] + Repeat('0', |t| - 1 - i)
    ensures rounded == RoundedFraction(t)
  {
    var p := t[1..i];
    var nines := |t| - 1 - i;
    var c, z := [NextDigit(t[i])], Repeat('0', nines);
    DigitAt(t, i);
    FractionAround(t, i, p, nines);
    IncrementCarries(p, t[i], nines);
    RoundedIs(t, p + c + z);
    Regroup(t, i, p, c, z);
  }

  /** The rounded fraction keeps the `.` and increments the digits after it. */
  lemma RoundedIs(t: string, incremented: string)
    requires IsTrimmedFraction(t) && |t| > 1
    requires AllDigits(t[1..]) && incremented == IncrementDigits(t[1..])
    ensures RoundedFraction(t) == t[..1] + incremented
  {
  }

  /** The digits of a trimmed fraction around index `i`: those before it, digit `i`, and a run of nines after it. */
  lemma FractionAround(t: string, i: nat, p: string, nines: nat)
    requires IsTrimmedFraction(t) && 0 < i < |t| && p == t[1..i] && nines == |t| - 1 - i
    requires t[i + 1..] == Repeat('9', nines)
    ensures AllDigits(p)
    ensures t[1..] == p + [t[i]] + Repeat('9', nines)
  {
    assert forall k :: 0 <= k < |p| ==> p[k] == t[1..][k];
    assert t[1..] == t[1..i] + [t[i]] + t[i + 1..];
  }

  /** Re-attaching the `.` to the incremented digits. */
  lemma Regroup(t: string, i: nat, p: string, c: string, z: string)
    requires 1 <= i <= |t| && p == t[1..i]
    ensures t[..i] + c + z == t[..1] + (p + c + z)
  {
    assert t[..i] == t[..1] + p;
  }

  /** Where the carry reaches index 0: every digit was a nine and is now a zero. */
  lemma CarryWraps(t: string, i: int, rounded: string)
    requires IsTrimmedFraction(t) && -1 <= i <= 0 && i < |t| && (|t| >= 1 ==> i == 0)
    requires t[i + 1..] == Repeat('9', |t| - 1 - i)
    requires rounded == t[..i + 1] + Repeat('0', |t| - 1 - i)
    ensures rounded == RoundedFraction(t)
  {
    if |t| == 0 {
      assert rounded == [];
    } else if |t| == 1 {
      assert rounded == t[..1];
    } else {
      IncrementAllNines(|t| - 1);
      RoundedIs(t, Repeat('0', |t| - 1));
    }
  }

  /** The carry loop of `reduceNumber`: walks left from the last digit, stopping at index 0 or once no carry is needed. */
  method RoundUp(truncated: string) returns (rounded: string)
    requires IsTrimmedFraction(truncated)
    ensures rounded == RoundedFraction(truncated)
  {
    rounded := truncated;
    var i := |rounded| - 1;
    while i > 0
      invariant -1 <= i < |truncated|
      invariant |truncated| >= 1 ==> i >= 0
      invariant rounded == truncated[..i + 1] + Repeat('0', |truncated| - 1 - i)
      invariant truncated[i + 1..] == Repeat('9', |truncated| - 1 - i)
    {
      DigitAt(truncated, i);
      assert rounded[i] == truncated[i];
      ghost var before := rounded;
      var c := DigitValue(rounded[i]);
      rounded := rounded[..i] + [NextDigit(rounded[i])] + rounded[i + 1..];
      CarryStep(truncated, i, before, rounded);
      if c < 9 {
        CarryStops(truncated, i, rounded);
        break;
      }
      i := i - 1;
    }
    if i <= 0 {
      CarryWraps(truncated, i, rounded);
    }
  }

  // ---------------------------------------------------------------------------
  // The trimming loop

  /** `whole + (fraction !== '.' ? fraction : '') + exponent` */
  function Candidate(whole: string, fraction: string, exponent: string): (text: string)
    ensures |text| <= |whole| + |fraction| + |exponent|
  {
    whole + (if fraction != "." then fraction else "") + exponent
  }

  /** `fraction.slice(0, -1)`: a trimmed fraction one character shorter, and a prefix of the old one. */
  function Truncated(fraction: string): (t: string)
    requires IsTrimmedFraction(fraction) && |fraction| > 0
    ensures IsTrimmedFraction(t) && |t| == |fraction| - 1 && t <= fraction
  {
    var t := fraction[..|fraction| - 1];
    assert |t| <= 1 || t[1..] == fraction[1..|fraction| - 1];
    t
  }

  /**
   * One pass of the loop body: drop the last fraction character and keep the
   * shorter text if it reads back as the same value; otherwise try it rounded
   * up. None when neither reads back (the `break`).
   */
  function Step(whole: string, fraction: string, exponent: string, same: string -> bool): (next: Option<(string, string)>)
    requires IsTrimmedFraction(fraction) && |fraction| > 0
    ensures next.Some? ==> IsTrimmedFraction(next.value.0) && |next.value.0| == |fraction| - 1
    ensures next.Some? ==> next.value.1 == Candidate(whole, next.value.0, exponent) && same(next.value.1)
    ensures next.None? <==>
      !same(Candidate(whole, Truncated(fraction), exponent)) &&
      !same(Candidate(whole, RoundedFraction(Truncated(fraction)), exponent))
  {
    var truncated := Truncated(fraction);
    var text := Candidate(whole, truncated, exponent);
    if same(text) then Some((truncated, text))
    else
      var rounded := RoundedFraction(truncated);
      var roundedText := Candidate(whole, rounded, exponent);
      if same(roundedText) then Some((rounded, roundedText)) else None
  }

  /**
   * The loop of `reduceNumber` as a function of its state (`fraction`, `x`):
   * take steps while the fraction is not empty and a step is accepted. Gives
   * the final `fraction` and `x`.
   */
  function Trim(whole: string, fraction: string, exponent: string, same: string -> bool, x: string): (r: (string, string))
    requires IsTrimmedFraction(fraction)
    ensures IsTrimmedFraction(r.0) && |r.0| <= |fraction|
    decreases |fraction|
  {
    if |fraction| == 0 then (fraction, x)
    else match Step(whole, fraction, exponent, same)
      case None => (fraction, x)
      case Some(next) => Trim(whole, next.0, exponent, same, next.1)
  }

  /** The number of accepted steps the loop takes before it stops. */
  function Steps(whole: string, fraction: string, exponent: string, same: string -> bool): (steps: nat)
    requires IsTrimmedFraction(fraction)
    decreases |fraction|
  {
    if |fraction| == 0 then 0
    else match Step(whole, fraction, exponent, same)
      case None => 0
      case Some(next) => 1 + Steps(whole, next.0, exponent, same)
  }

  /**
   * Each accepted step removes exactly one fraction character, so the loop
   * runs at most `|fraction|` times and the final fraction is as much shorter.
   */
  lemma {:induction false} StepsBound(whole: string, fraction: string, exponent: string, same: string -> bool, x: string)
    requires IsTrimmedFraction(fraction)
    ensures Steps(whole, fraction, exponent, same) <= |fraction|
    ensures |Trim(whole, fraction, exponent, same, x).0| == |fraction| - Steps(whole, fraction, exponent, same)
    decreases |fraction|
  {
    if |fraction| > 0 {
      var next := Step(whole, fraction, exponent, same);
      if next.Some? {
        StepsBound(whole, next.value.0, exponent, same, next.value.1);
      }
    }
  }

  /** The loop ends on the text it started from or on a candidate the round-trip check accepted. */
  lemma {:induction false} TrimAccepted(whole: string, fraction: string, exponent: string, same: string -> bool, x: string)
    requires IsTrimmedFraction(fraction)
    ensures var r := Trim(whole, fraction, exponent, same, x); r.1 == x || same(r.1)
    decreases |fraction|
  {
    if |fraction| > 0 {
      var next := Step(whole, fraction, exponent, same);
      if next.Some? {
        TrimAccepted(whole, next.value.0, exponent, same, next.value.1);
      }
    }
  }

  /** Text and fraction stay in step: the final text is the candidate built from the final fraction. */
  lemma {:induction false} TrimShape(whole: string, fraction: string, exponent: string, same: string -> bool, x: string)
    requires IsTrimmedFraction(fraction) && x == Candidate(whole, fraction, exponent)
    ensures var r := Trim(whole, fraction, exponent, same, x); r.1 == Candidate(whole, r.0, exponent)
    decreases |fraction|
  {
    if |fraction| > 0 {
      var next := Step(whole, fraction, exponent, same);
      if next.Some? {
        TrimShape(whole, next.value.0, exponent, same, next.value.1);
      }
    }
  }

  /** Running the loop again from where it stopped stops at once: the result is a fixed point. */
  lemma {:induction false} TrimStable(whole: string, fraction: string, exponent: string, same: string -> bool, x: string)
    requires IsTrimmedFraction(fraction)
    ensures var r := Trim(whole, fraction, exponent, same, x); Trim(whole, r.0, exponent, same, r.1) == r
    decreases |fraction|
  {
    if |fraction| > 0 {
      var next := Step(whole, fraction, exponent, same);
      if next.Some? {
        TrimStable(whole, next.value.0, exponent, same, next.value.1);
      }
    }
  }

  /** The `while (fraction.length > 0)` loop of `reduceNumber`. */
  method TrimLoop(whole: string, fraction0: string, exponent: string, same: string -> bool, x0: string)
    returns (fraction: string, x: string)
    requires IsTrimmedFraction(fraction0)
    ensures (fraction, x) == Trim(whole, fraction0, exponent, same, x0)
  {
    fraction, x := fraction0, x0;
    while |fraction| > 0
      invariant IsTrimmedFraction(fraction)
      invariant Trim(whole, fraction, exponent, same, x) == Trim(whole, fraction0, exponent, same, x0)
      decreases |fraction|
    {
      // Try truncating
      var truncatedFraction := fraction[..|fraction| - 1];
      assert truncatedFraction == Truncated(fraction);
      var text := Candidate(whole, truncatedFraction, exponent);
      if same(text) {
        fraction, x := truncatedFraction, text;
        continue;
      }
      // Try rounding
      var roundedFraction := RoundUp(truncatedFraction);
      text := Candidate(whole, roundedFraction, exponent);
      if same(text) {
        fraction, x := roundedFraction, text;
        continue;
      }
      // Both changed the value: keep the old text
      break;
    }
  }

  /** What `reduceNumber` returns for the formatted text `x` of a value. */
  function Reduced(x: string, same: string -> bool): (result: string)
    requires IsSpecial(x) || Split(x).Some?
  {
    if IsSpecial(x) then x
    else
      var parts := Split(x).value;
      Trim(parts.whole, parts.fraction, parts.exponent, same, x).1
  }

  /**
   * `reduceNumber` after the value has been formatted: special values come back
   * as they are; any other text is split into whole, fraction and exponent
   * parts and its fraction trimmed.
   */
  method ReduceNumber(x: string, same: string -> bool) returns (result: string)
    requires IsSpecial(x) || Split(x).Some?
    ensures result == Reduced(x, same)
    ensures result == x || same(result)
    ensures |result| <= |x|
    ensures IsSpecial(x) ==> result == x
  {
    if IsSpecial(x) {
      return x;
    }
    var parts := Split(x).value;
    var whole := parts.whole;
    var fraction := parts.fraction;
    var exponent := parts.exponent;
    assert IsTrimmedFraction(fraction);
    assert x == Candidate(whole, fraction, exponent);
    var _, text := TrimLoop(whole, fraction, exponent, same, x);
    result := text;
    TrimAccepted(whole, fraction, exponent, same, x);
    TrimShape(whole, fraction, exponent, same, x);
  }

  /**
   * When the starting text reads back as the value (as the platform's own
   * formatting guarantees), so does the minimised one.
   */
  lemma ReducedRoundTrips(x: string, same: string -> bool)
    requires IsSpecial(x) || Split(x).Some?
    requires same(x)
    ensures same(Reduced(x, same))
  {
    if !IsSpecial(x) {
      var parts := Split(x).value;
      TrimAccepted(parts.whole, parts.fraction, parts.exponent, same, x);
    }
  }
}
