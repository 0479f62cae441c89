/**
 Python's `float()` applied to a string over the alphabet the percent cleaner
 leaves behind: the ASCII digits, `.` and `-`. On such a string `float()`
 accepts exactly an optional single leading `-` followed by digits holding at
 most one `.` and at least one digit, and raises otherwise.

 The parser is a left-to-right scanner (`Scan`, `ParseNumber`). The grammar
 (`IsNumeral`) and the value a numeral denotes (`Denotes`) are defined
 independently of it, and `ParseNumber`'s contract ties the two together.
 */
module Numerals {
  import opened Wrappers
  import opened Decimals

  predicate IsDigit(c: char) {
    '0' <= c <= '9'
  }

  /** The value of a digit character; other characters count as 0. */
  function Digit(c: char): (r: nat)
    ensures r <= 9
  {
    if IsDigit(c) then c as int - '0' as int else 0
  }

  /** The value of a string of digits, most significant first. */
  function DigitsValue(ds: string): nat {
    if ds == [] then 0 else DigitsValue(ds[..|ds| - 1]) * 10 + Digit(ds[|ds| - 1])
  }

  lemma ShiftDigit(x: int, p: int, y: int, d: int)
    ensures (x * p + y) * 10 + d == x * (p * 10) + (y * 10 + d)
  {
  }

  /** Appending digits shifts the value left by their count. */
  lemma {:induction false} DigitsValueAppend(a: string, b: string)
    ensures DigitsValue(a + b) == DigitsValue(a) * Pow10(|b|) + DigitsValue(b)
  {
    if b == [] {
      assert a + b == a;
    } else {
      var b' := b[..|b| - 1];
      var d := Digit(b[|b| - 1]);
      assert (a + b)[..|a + b| - 1] == a + b';
      assert (a + b)[|a + b| - 1] == b[|b| - 1];
      assert DigitsValue(a + b) == DigitsValue(a + b') * 10 + d;
      assert DigitsValue(b) == DigitsValue(b') * 10 + d;
      assert Pow10(|b|) == Pow10(|b'|) * 10;
      DigitsValueAppend(a, b');
      ShiftDigit(DigitsValue(a), Pow10(|b'|), DigitsValue(b'), d);
    }
  }

  /** The position of the first `.` in `s`, or `|s|` when there is none. */
  function DotIndex(s: string): (k: nat)
    ensures k <= |s|
    ensures forall i :: 0 <= i < k ==> s[i] != '.'
    ensures k < |s| ==> s[k] == '.'
  {
    if s == [] then 0 else if s[0] == '.' then 0 else 1 + DotIndex(s[1..])
  }

  /** The first-occurrence property determines the dot index. */
  lemma DotIndexUnique(s: string, k: nat)
    requires k <= |s|
    requires forall i :: 0 <= i < k ==> s[i] != '.'
    requires k < |s| ==> s[k] == '.'
    ensures DotIndex(s) == k
  {
  }

  lemma DotIndexAppend(p: string, c: char)
    ensures DotIndex(p) < |p| ==> DotIndex(p + [c]) == DotIndex(p)
    ensures DotIndex(p) == |p| && c == '.' ==> DotIndex(p + [c]) == |p|
    ensures DotIndex(p) == |p| && c != '.' ==> DotIndex(p + [c]) == |p| + 1
  {
    var q := p + [c];
    var d := DotIndex(p);
    if d < |p| {
      DotIndexUnique(q, d);
    } else if c == '.' {
      DotIndexUnique(q, |p|);
    } else {
      DotIndexUnique(q, |q|);
    }
  }

  predicate HasDot(s: string) {
    DotIndex(s) < |s|
  }

  /** The digits before the dot (all of `s` when there is no dot). */
  function IntPart(s: string): string {
    s[..DotIndex(s)]
  }

  /** The digits after the dot (none when there is no dot). */
  function FracPart(s: string): string {
    if HasDot(s) then s[DotIndex(s) + 1..] else []
  }

  predicate OnlyDigitsAndDots(s: string) {
    forall i :: 0 <= i < |s| ==> IsDigit(s[i]) || s[i] == '.'
  }

  predicate AtMostOneDot(s: string) {
    forall i, j :: 0 <= i < |s| && 0 <= j < |s| && s[i] == '.' && s[j] == '.' ==> i == j
  }

  predicate HasDigit(s: string) {
    exists i :: 0 <= i < |s| && IsDigit(s[i])
  }

  /** Digits with at most one `.` among them and at least one digit. */
  predicate IsUnsignedNumeral(s: string) {
    OnlyDigitsAndDots(s) && AtMostOneDot(s) && HasDigit(s)
  }

  predicate IsNegative(s: string) {
    |s| > 0 && s[0] == '-'
  }

  /** The string without its leading `-`, if it has one. */
  function Magnitude(s: string): string {
    if IsNegative(s) then s[1..] else s
  }

  /** The strings `float()` accepts, over the alphabet digits, `.` and `-`. */
  predicate IsNumeral(s: string) {
    IsUnsignedNumeral(Magnitude(s))
  }

  /** Integer part plus fraction, the fraction's digits read as tenths, hundredths, ... */
  function UnsignedValue(s: string): real {
    DigitsValue(IntPart(s)) as real + DigitsValue(FracPart(s)) as real / Pow10(|FracPart(s)|) as real
  }

  /** The number a numeral denotes. */
  function Denotes(s: string): real {
    if IsNegative(s) then -UnsignedValue(Magnitude(s)) else UnsignedValue(Magnitude(s))
  }

  // ---------------------------------------------------------------------------
  // The scanner
  // ---------------------------------------------------------------------------

  /** What the scanner has seen so far: a failure, or the dot, digit, mantissa and scale read. */
  datatype ScanState = Failed | Scanning(seenDot: bool, seenDigit: bool, mantissa: nat, scale: nat)

  const Start := Scanning(false, false, 0, 0)

  /** Reads one character: a digit extends the mantissa (and the scale after the dot), one `.` is allowed, anything else fails. */
  function Step(st: ScanState, c: char): ScanState {
    match st
    case Failed => Failed
    case Scanning(dot, digit, m, k) =>
      if IsDigit(c) then Scanning(dot, true, m * 10 + Digit(c), if dot then k + 1 else k)
      else if c == '.' then (if dot then Failed else Scanning(true, digit, m, k))
      else Failed
  }

  function Scan(st: ScanState, rest: string): ScanState
    decreases |rest|
  {
    if rest == [] then st else Scan(Step(st, rest[0]), rest[1..])
  }

  function ParseUnsigned(s: string): Option<Dec> {
    match Scan(Start, s)
    case Failed => None
    case Scanning(_, digit, m, k) => if digit then Some(Dec(m, k)) else None
  }

  /**
   `float()` on the alphabet digits, `.` and `-`: it succeeds exactly on numerals,
   and then yields the number the numeral denotes.
   */
  function ParseNumber(s: string): (r: Option<Dec>)
    ensures r.Some? <==> IsNumeral(s)
    ensures r.Some? ==> ToReal(r.value) == Denotes(s)
  {
    var m := Magnitude(s);
    ParseUnsignedCorrect(m);
    match ParseUnsigned(m)
    case None => None
    case Some(d) => if IsNegative(s) then Some(Negate(d)) else Some(d)
  }

  // ---------------------------------------------------------------------------
  // Correctness of the scanner
  // ---------------------------------------------------------------------------

  /** The state the scanner should be in after reading `p`, stated without running it. */
  function Expected(p: string): ScanState {
    if OnlyDigitsAndDots(p) && AtMostOneDot(p) then
      Scanning(HasDot(p), HasDigit(p), DigitsValue(IntPart(p) + FracPart(p)), |FracPart(p)|)
    else
      Failed
  }

  /** Once the prefix is malformed, so is every extension of it. */
  lemma StepFromFailed(p: string, c: char)
    requires !(OnlyDigitsAndDots(p) && AtMostOneDot(p))
    ensures Expected(p + [c]) == Failed
  {
    var q := p + [c];
    if !OnlyDigitsAndDots(p) {
      var i :| 0 <= i < |p| && !(IsDigit(p[i]) || p[i] == '.');
      assert q[i] == p[i];
    } else {
      var i, j :| 0 <= i < |p| && 0 <= j < |p| && p[i] == '.' && p[j] == '.' && i != j;
      assert q[i] == p[i] && q[j] == p[j];
    }
  }

  lemma StepDigit(p: string, c: char)
    requires OnlyDigitsAndDots(p) && AtMostOneDot(p)
    requires IsDigit(c)
    ensures Step(Expected(p), c) == Expected(p + [c])
  {
    var q := p + [c];
    DotIndexAppend(p, c);
    assert q[|p|] == c;
    assert OnlyDigitsAndDots(q);
    assert AtMostOneDot(q);
    assert HasDigit(q);
    var ip, fp := IntPart(p), FracPart(p);
    if HasDot(p) {
      assert IntPart(q) == ip;
      assert FracPart(q) == fp + [c];
      assert IntPart(q) + FracPart(q) == (ip + fp) + [c];
    } else {
      assert IntPart(q) == q;
      assert FracPart(q) == [] && fp == [];
      assert ip == p;
      assert IntPart(q) + FracPart(q) == (ip + fp) + [c];
    }
    DigitsValueAppend(ip + fp, [c]);
    assert DigitsValue([c]) == Digit(c) by {
      assert [c][..0] == [];
    }
  }

  lemma StepDot(p: string)
    requires OnlyDigitsAndDots(p) && AtMostOneDot(p)
    ensures Step(Expected(p), '.') == Expected(p + ['.'])
  {
    var q := p + ['.'];
    DotIndexAppend(p, '.');
    if HasDot(p) {
      var d := DotIndex(p);
      assert q[d] == '.' && q[|p|] == '.';
    } else {
      assert q[|p|] == '.';
      assert OnlyDigitsAndDots(q);
      assert AtMostOneDot(q);
      assert HasDigit(q) == HasDigit(p) by {
        if HasDigit(q) {
          var i :| 0 <= i < |q| && IsDigit(q[i]);
          assert i < |p| && p[i] == q[i];
        }
        if HasDigit(p) {
          var i :| 0 <= i < |p| && IsDigit(p[i]);
          assert q[i] == p[i];
        }
      }
      assert IntPart(q) == p && IntPart(p) == p;
      assert FracPart(q) == [] && FracPart(p) == [];
    }
  }

  /** One step of the scanner keeps it in the expected state. */
  lemma StepExpected(p: string, c: char)
    ensures Step(Expected(p), c) == Expected(p + [c])
  {
    if !(OnlyDigitsAndDots(p) && AtMostOneDot(p)) {
      StepFromFailed(p, c);
    } else if IsDigit(c) {
      StepDigit(p, c);
    } else if c == '.' {
      StepDot(p);
    } else {
      assert (p + [c])[|p|] == c;
    }
  }

  /** Scanning the rest of the input from the expected state after `p` ends in the expected state after `p + rest`. */
  lemma {:induction false} ScanExpected(p: string, rest: string)
    ensures Scan(Expected(p), rest) == Expected(p + rest)
    decreases |rest|
  {
    if rest == [] {
      assert p + rest == p;
    } else {
      StepExpected(p, rest[0]);
      ScanExpected(p + [rest[0]], rest[1..]);
      assert (p + [rest[0]]) + rest[1..] == p + rest;
    }
  }

  lemma DivideSum(a: real, b: real, p: real)
    requires p > 0.0
    ensures (a * p + b) / p == a + b / p
  {
    assert (a + b / p) * p == a * p + b;
  }

  lemma CastMulAdd(a: int, p: int, b: int)
    ensures (a * p + b) as real == a as real * p as real + b as real
  {
  }

  lemma ScaledSum(m: int, a: int, b: int, p: int)
    requires p >= 1 && m == a * p + b
    ensures m as real / p as real == a as real + b as real / p as real
  {
    CastMulAdd(a, p, b);
    DivideSum(a as real, b as real, p as real);
  }

  /** Integer digits followed by fraction digits, scaled by the fraction's length, is integer plus fraction. */
  lemma ScaledDigits(ip: string, fp: string)
    ensures ToReal(Dec(DigitsValue(ip + fp), |fp|)) == DigitsValue(ip) as real + DigitsValue(fp) as real / Pow10(|fp|) as real
  {
    DigitsValueAppend(ip, fp);
    ScaledSum(DigitsValue(ip + fp), DigitsValue(ip), DigitsValue(fp), Pow10(|fp|));
  }

  /** The decimal with the integer and fraction digits as mantissa, scaled by the fraction's length, has the numeral's value. */
  lemma ValueOfParts(s: string)
    ensures ToReal(Dec(DigitsValue(IntPart(s) + FracPart(s)), |FracPart(s)|)) == UnsignedValue(s)
  {
    ScaledDigits(IntPart(s), FracPart(s));
  }

  /** The scanner accepts exactly the unsigned numerals, with the integer and fraction digits as mantissa. */
  lemma ParseUnsignedCorrect(s: string)
    ensures ParseUnsigned(s).Some? <==> IsUnsignedNumeral(s)
    ensures ParseUnsigned(s).Some? ==> ToReal(ParseUnsigned(s).value) == UnsignedValue(s)
  {
    assert Expected([]) == Start by {
      assert IntPart([]) == [] && FracPart([]) == [];
    }
    ScanExpected([], s);
    assert [] + s == s;
    ValueOfParts(s);
  }
}
