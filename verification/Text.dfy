/** Strings as sequences of Unicode scalar values: character runs, decimal
    numerals, first occurrences and literal replacement. */
module Text {
  datatype Option<+T> = None | Some(value: T)

  predicate AsciiDigit(c: char) { '0' <= c <= '9' }

  ghost predicate All(p: char -> bool, s: string, i: nat, j: nat)
    requires j <= |s|
  { forall x | i <= x < j :: p(s[x]) }

  /** End of the longest run of characters satisfying `p` that starts at `i`. */
  function RunEnd(p: char -> bool, s: string, i: nat): (j: nat)
    requires i <= |s|
    ensures i <= j <= |s| && (forall x | i <= x < j :: p(s[x])) && (j < |s| ==> !p(s[j]))
    decreases |s| - i
  {
    if i < |s| && p(s[i]) then RunEnd(p, s, i + 1) else i
  }

  // ----- decimal numerals -----

  function DigitChar(d: nat): char
    requires d < 10
  { '0' + d as char }

  function DigitValue(c: char): nat
    requires AsciiDigit(c)
  { c as int - '0' as int }

  function Decimal(n: nat): (s: string)
    ensures s != "" && forall i | 0 <= i < |s| :: AsciiDigit(s[i])
  {
    if n < 10 then [DigitChar(n)] else Decimal(n / 10) + [DigitChar(n % 10)]
  }

  function DecimalValue(s: string): nat
    requires forall i | 0 <= i < |s| :: AsciiDigit(s[i])
  {
    if s == "" then 0 else DecimalValue(s[..|s| - 1]) * 10 + DigitValue(s[|s| - 1])
  }

  lemma {:induction false} DecimalRoundTrip(n: nat)
    ensures DecimalValue(Decimal(n)) == n
  {
    var s := Decimal(n);
    if n >= 10 {
      DecimalRoundTrip(n / 10);
      assert s[..|s| - 1] == Decimal(n / 10);
    } else {
      assert s[..|s| - 1] == "";
    }
  }

  /** A numeral is the whole of what follows the last underscore of a key. */
  lemma {:induction false} KeySplits(l1: string, n1: nat, l2: string, n2: nat)
    requires l1 + "_" + Decimal(n1) == l2 + "_" + Decimal(n2)
    ensures l1 == l2 && n1 == n2
  {
    var key := l1 + "_" + Decimal(n1);
    var d1, d2 := Decimal(n1), Decimal(n2);
    assert key[|l1|] == '_' && forall i | |l1| < i < |key| :: key[i] == d1[i - |l1| - 1];
    assert key[|l2|] == '_' && forall i | |l2| < i < |key| :: key[i] == d2[i - |l2| - 1];
    assert key[..|l1|] == l1 && (l2 + "_" + d2)[..|l2|] == l2;
    assert key[|l1| + 1..] == d1 && (l2 + "_" + d2)[|l2| + 1..] == d2;
    DecimalRoundTrip(n1);
    DecimalRoundTrip(n2);
  }

  /** The ASCII digits of a text. */
  function DigitsOf(s: string): string {
    if s == "" then "" else (if AsciiDigit(s[0]) then [s[0]] else "") + DigitsOf(s[1..])
  }

  // ----- searching and replacing -----

  ghost predicate OccursAt(s: string, pat: string, i: nat) { i + |pat| <= |s| && s[i..i + |pat|] == pat }

  /** First position from `i` on where `pat` occurs, as `str::find` gives it. */
  function Find(s: string, pat: string, i: nat): (r: Option<nat>)
    requires i <= |s|
    ensures r.Some? ==> i <= r.value && OccursAt(s, pat, r.value)
    ensures r.Some? ==> forall j: nat | i <= j < r.value :: !OccursAt(s, pat, j)
    ensures r.None? ==> forall j: nat | i <= j :: !OccursAt(s, pat, j)
    decreases |s| - i
  {
    if i + |pat| > |s| then None
    else if s[i..i + |pat|] == pat then Some(i)
    else if i == |s| then None
    else Find(s, pat, i + 1)
  }

  /** `str::replace` for a non-empty pattern. */
  function ReplaceAll(s: string, pat: string, with: string): string
    requires pat != ""
    decreases |s|
  {
    if |s| < |pat| then s
    else if s[..|pat|] == pat then with + ReplaceAll(s[|pat|..], pat, with)
    else [s[0]] + ReplaceAll(s[1..], pat, with)
  }

  lemma {:induction false} ReplaceSkips(x: string, s: string, pat: string, with: string)
    requires pat != "" && pat[0] !in x
    ensures ReplaceAll(x + s, pat, with) == x + ReplaceAll(s, pat, with)
    decreases |x|
  {
    if x == "" {
      assert x + s == s;
    } else {
      var t := x + s;
      assert t[0] == x[0] && t[1..] == x[1..] + s;
      assert |t| >= |pat| ==> t[..|pat|][0] == x[0];
      ReplaceSkips(x[1..], s, pat, with);
      if |t| < |pat| {
        assert ReplaceAll(s, pat, with) == s;
      } else {
        assert ReplaceAll(t, pat, with) == [x[0]] + (x[1..] + ReplaceAll(s, pat, with));
      }
    }
  }

  lemma ReplaceHit(s: string, pat: string, with: string)
    requires pat != ""
    ensures ReplaceAll(pat + s, pat, with) == with + ReplaceAll(s, pat, with)
  {
    assert (pat + s)[..|pat|] == pat && (pat + s)[|pat|..] == s;
  }
}
