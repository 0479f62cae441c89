/** The trend label the script gives each row, from the sign of its cleaned change. */
module Trends {
  import opened Decimals
  import opened Numerals
  import opened Percent

  datatype Trend = Up | Down | Flat

  /** The labelling lambda: positive is UP, negative is DOWN, anything else FLAT. */
  function Classify(x: Dec): (t: Trend)
    ensures t == Up <==> ToReal(x) > 0.0
    ensures t == Down <==> ToReal(x) < 0.0
    ensures t == Flat <==> ToReal(x) == 0.0
  {
    SignOfMantissa(x);
    if x.mantissa > 0 then Up else if x.mantissa < 0 then Down else Flat
  }

  /** The text written to the sheet for each trend. */
  function Label(t: Trend): string {
    match t
    case Up => "UP \U{1F4C8}"
    case Down => "DOWN \U{1F4C9}"
    case Flat => "FLAT"
  }

  /** Different trends are written differently. */
  lemma LabelInjective(a: Trend, b: Trend)
    ensures Label(a) == Label(b) ==> a == b
  {
  }

  /** A change text that does not clean to a numeral is labelled FLAT. */
  lemma UnparseableIsFlat(val: string)
    requires !IsNumeral(Strip(val))
    ensures Classify(CleanPercent(val)) == Flat
  {
  }
}

module TrendExamples {
  import opened Sequences
  import opened Decimals
  import opened Numerals
  import opened Percent
  import opened Trends

  /** `"+2.5%"`: the sign and the percent sign are stripped, leaving 2.5, which is UP. */
  lemma ExamplePlus()
    ensures Strip("+2.5%") == "2.5"
    ensures CleanPercent("+2.5%") == Dec(25, 1) && ToReal(Dec(25, 1)) == 2.5
    ensures Classify(CleanPercent("+2.5%")) == Up
  {
    var s := "+2.5%";
    assert s[1..] == "2.5%" && s[1..][1..] == ".5%" && s[1..][1..][1..] == "5%";
    assert s[1..][1..][1..][1..] == "%";
    assert Filter("%", IsKept) == [];
    var f := "2.5";
    assert f[1..] == ".5" && f[1..][1..] == "5" && f[1..][1..][1..] == [];
    assert Scan(Start, f) == Scanning(true, true, 25, 1);
  }

  /** `"-1.10"`: already clean; it denotes -1.10 (scale 2 kept), which is DOWN. */
  lemma ExampleMinus()
    ensures Strip("-1.10") == "-1.10"
    ensures CleanPercent("-1.10") == Dec(-110, 2) && ToReal(Dec(-110, 2)) == -1.1
    ensures Classify(CleanPercent("-1.10")) == Down
  {
    var s := "-1.10";
    StripKeptText(s);
    var f := "1.10";
    assert s[1..] == f;
    assert f[1..] == ".10" && f[1..][1..] == "10" && f[1..][1..][1..] == "0" && f[1..][1..][1..][1..] == [];
    assert Scan(Start, f) == Scanning(true, true, 110, 2);
  }

  /** `"n/a"`: nothing is left after stripping, so the value is 0 and the trend FLAT. */
  lemma ExampleNotAvailable()
    ensures Strip("n/a") == []
    ensures CleanPercent("n/a") == Zero && Classify(CleanPercent("n/a")) == Flat
  {
    var s := "n/a";
    assert s[1..] == "/a" && s[1..][1..] == "a";
  }

  /** Clean text that `float()` rejects: a bare sign, a bare dot, two dots, an inner or a doubled minus. */
  lemma ExamplesRejected()
    ensures CleanPercent("-") == Zero && CleanPercent(".") == Zero
    ensures CleanPercent("1.2.3") == Zero && CleanPercent("1-2") == Zero && CleanPercent("--1") == Zero
  {
    StripKeptText("-");
    StripKeptText(".");
    StripKeptText("1.2.3");
    StripKeptText("1-2");
    StripKeptText("--1");
    assert "-"[1..] == [];
    var a := "1.2.3";
    assert a[1..] == ".2.3" && a[1..][1..] == "2.3" && a[1..][1..][1..] == ".3";
    var b := "1-2";
    assert b[1..] == "-2";
    var c := "--1";
    assert c[1..] == "-1";
  }
}
