/** The parts of java.lang.String the name registry relies on: `trim`,
    `toLowerCase` (restricted to ASCII) and `compareToIgnoreCase`. */
module JavaString {

  /** `String.trim` strips every character whose code is at most U+0020. */
  predicate IsBlank(c: char) { c <= ' ' }

  predicate AllBlank(s: string) {
    forall i :: 0 <= i < |s| ==> IsBlank(s[i])
  }

  /** A string that `trim` leaves alone: it neither starts nor ends with a blank. */
  predicate IsTrimmed(s: string) {
    s == [] || (!IsBlank(s[0]) && !IsBlank(s[|s| - 1]))
  }

  /** First index at or after `st` that is not blank: `trim`'s forward scan. */
  function SkipLeading(s: string, st: nat): (r: nat)
    requires st <= |s|
    ensures st <= r <= |s|
    ensures forall i :: st <= i < r ==> IsBlank(s[i])
    ensures r < |s| ==> !IsBlank(s[r])
    decreases |s| - st
  {
    if st < |s| && IsBlank(s[st]) then SkipLeading(s, st + 1) else st
  }

  /** End of the text once the blanks before `len` are dropped, never going
      below `st`: `trim`'s backward scan. */
  function SkipTrailing(s: string, st: nat, len: nat): (r: nat)
    requires st <= len <= |s|
    ensures st <= r <= len
    ensures forall i :: r <= i < len ==> IsBlank(s[i])
    ensures r > st ==> !IsBlank(s[r - 1])
  {
    if st < len && IsBlank(s[len - 1]) then SkipTrailing(s, st, len - 1) else len
  }

  /** `String.trim`: the text between the blank prefix and the blank suffix. */
  function Trim(s: string): (r: string)
    ensures |r| <= |s|
    ensures IsTrimmed(r)
    ensures r == [] <==> AllBlank(s)
  {
    var st := SkipLeading(s, 0);
    var len := SkipTrailing(s, st, |s|);
    s[st..len]
  }

  /** The result of `trim` is the slice of `s` that only blanks surround. */
  lemma TrimIsSlice(s: string)
    ensures exists i :: 0 <= i <= |s| - |Trim(s)| && Trim(s) == s[i..i + |Trim(s)|]
                        && AllBlank(s[..i]) && AllBlank(s[i + |Trim(s)|..])
  {
    var st := SkipLeading(s, 0);
    var len := SkipTrailing(s, st, |s|);
    assert Trim(s) == s[st..len];
    assert forall i :: 0 <= i < st ==> s[..st][i] == s[i];
    assert forall i :: len <= i < |s| ==> s[len..][i - len] == s[i];
  }

  /** Trimming a trimmed string changes nothing. */
  lemma TrimOfTrimmed(s: string)
    requires IsTrimmed(s)
    ensures Trim(s) == s
  {
    if s != [] {
      assert SkipLeading(s, 0) == 0;
      assert SkipTrailing(s, 0, |s|) == |s|;
      assert s[0..|s|] == s;
    }
  }

  /** `trim` is idempotent. */
  lemma TrimIdempotent(s: string)
    ensures Trim(Trim(s)) == Trim(s)
  {
    TrimOfTrimmed(Trim(s));
  }

  predicate IsUpper(c: char) { 'A' <= c <= 'Z' }

  /** `Character.toLowerCase` in a locale that maps 'A'..'Z' to 'a'..'z'
      and leaves every other character alone. */
  function Lower(c: char): (r: char)
    ensures !IsUpper(r)
    ensures IsUpper(c) ==> 'a' <= r <= 'z' && r as int - c as int == 'a' as int - 'A' as int
    ensures !IsUpper(c) ==> r == c
  {
    if 'A' <= c <= 'Z' then (c as int + 32) as char else c
  }

  /** The whole string folded to lower case: the reference meaning of
      "equal ignoring case" that `compareToIgnoreCase` is measured against. */
  function Fold(s: string): string {
    seq(|s|, i requires 0 <= i < |s| => Lower(s[i]))
  }

  /** Folding leaves no upper-case letter and keeps every other character. */
  lemma FoldLowerCase(s: string)
    ensures |Fold(s)| == |s|
    ensures forall i :: 0 <= i < |s| ==> !IsUpper(Fold(s)[i])
    ensures forall i :: 0 <= i < |s| && !IsUpper(s[i]) ==> Fold(s)[i] == s[i]
  {
  }

  lemma FoldFirst(s: string)
    requires |s| != 0
    ensures Fold(s) == [Lower(s[0])] + Fold(s[1..])
  {
    FoldLowerCase(s);
    FoldLowerCase(s[1..]);
  }

  /** Folding a folded string changes nothing. */
  lemma FoldIdempotent(s: string)
    ensures Fold(Fold(s)) == Fold(s)
  {
    FoldLowerCase(s);
  }

  /** `String.compareToIgnoreCase`: at the first position where the folded
      characters differ, their difference; otherwise the difference of the lengths. */
  function CompareIgnoreCase(a: string, b: string): (r: int)
    ensures |a| != |b| ==> r != 0
  {
    if |a| == 0 || |b| == 0 then |a| - |b|
    else if Lower(a[0]) != Lower(b[0]) then Lower(a[0]) as int - Lower(b[0]) as int
    else CompareIgnoreCase(a[1..], b[1..])
  }

  lemma {:induction false} CompareIgnoreCaseAntisymmetric(a: string, b: string)
    ensures CompareIgnoreCase(a, b) == -CompareIgnoreCase(b, a)
  {
    if |a| != 0 && |b| != 0 && Lower(a[0]) == Lower(b[0]) {
      CompareIgnoreCaseAntisymmetric(a[1..], b[1..]);
    }
  }

  /** Two strings compare equal ignoring case exactly when their folds coincide. */
  lemma {:induction false} CompareIgnoreCaseZero(a: string, b: string)
    ensures CompareIgnoreCase(a, b) == 0 <==> Fold(a) == Fold(b)
  {
    if |a| == 0 || |b| == 0 {
      assert |Fold(a)| == |a| && |Fold(b)| == |b|;
    } else if Lower(a[0]) != Lower(b[0]) {
      assert Fold(a)[0] != Fold(b)[0];
    } else {
      CompareIgnoreCaseZero(a[1..], b[1..]);
      FoldFirst(a);
      FoldFirst(b);
      assert Fold(a)[1..] == Fold(a[1..]) && Fold(b)[1..] == Fold(b[1..]);
    }
  }

  lemma {:induction false} CompareIgnoreCaseTransitive(a: string, b: string, c: string)
    requires CompareIgnoreCase(a, b) <= 0 && CompareIgnoreCase(b, c) <= 0
    ensures CompareIgnoreCase(a, c) <= 0
  {
    if |a| != 0 && |b| != 0 && |c| != 0 && Lower(a[0]) == Lower(b[0]) == Lower(c[0]) {
      CompareIgnoreCaseTransitive(a[1..], b[1..], c[1..]);
    }
  }
}
