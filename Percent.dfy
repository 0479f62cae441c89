/**
 `clean_percent` of dse_bot.py: the change text of a row with every character
 other than an ASCII digit, `.` or `-` deleted, read as a number when what is
 left is one, and 0 otherwise.
 */
module Percent {
  import opened Wrappers
  import opened Sequences
  import opened Decimals
  import opened Numerals

  /** The character class the substitution keeps: digits, `.` and `-` (and not `%`). */
  predicate IsKept(c: char) {
    IsDigit(c) || c == '.' || c == '-'
  }

  /** The regular-expression substitution: every run of characters outside the class is replaced by nothing. */
  function Strip(s: string): (r: string)
    ensures forall i :: 0 <= i < |r| ==> IsKept(r[i])
  {
    Filter(s, IsKept)
  }

  /** The stripped text is the input with exactly the other characters deleted, the kept ones in their original order. */
  lemma StripDeletesOthers(s: string)
    ensures IsSubsequence(Strip(s), s)
    ensures forall c :: IsKept(c) ==> multiset(Strip(s))[c] == multiset(s)[c]
    ensures forall c :: !IsKept(c) ==> c !in Strip(s)
  {
    FilterIsSubsequence(s, IsKept);
    forall c | IsKept(c) ensures multiset(Strip(s))[c] == multiset(s)[c] {
      FilterCount(s, IsKept, c);
    }
  }

  /** Conversely, any such text is the stripped text. */
  lemma StripCharacterized(s: string, t: string)
    requires IsSubsequence(t, s)
    requires forall i :: 0 <= i < |t| ==> IsKept(t[i])
    requires forall c :: IsKept(c) ==> multiset(t)[c] == multiset(s)[c]
    ensures t == Strip(s)
  {
    FilterUnique(s, IsKept, t);
  }

  /** Stripping stripped text changes nothing. */
  lemma StripIdempotent(s: string)
    ensures Strip(Strip(s)) == Strip(s)
  {
    FilterIdempotent(s, IsKept);
  }

  /** Text made only of kept characters is its own stripped form. */
  lemma StripKeptText(s: string)
    requires forall i :: 0 <= i < |s| ==> IsKept(s[i])
    ensures Strip(s) == s
  {
    FilterAllKept(s, IsKept);
  }

  /**
   `clean_percent`: 0 when nothing is left after stripping or when what is
   left is not a numeral; otherwise the number the stripped text denotes.
   It is total: no input raises.
   */
  function CleanPercent(val: string): (r: Dec)
    ensures Strip(val) == [] ==> r == Zero
    ensures IsNumeral(Strip(val)) ==> ToReal(r) == Denotes(Strip(val))
    ensures !IsNumeral(Strip(val)) ==> r == Zero
  {
    var f := Strip(val);
    if f == [] then Zero
    else
      match ParseNumber(f)
      case Some(d) => d
      case None => Zero
  }
}
