/** When two spellings have one canonical form: names by their words, numbers by their digits. */
module Canonical {
  import opened Text
  import opened Entities
  import opened Pipeline
  import Scanner

  /** The maximal runs of characters that are not white space. */
  function Words(space: char -> bool, s: string): seq<string>
    decreases |s|
  {
    if s == "" then []
    else if space(s[0]) then Words(space, s[1..])
    else
      var n := RunEnd(c => !space(c), s, 0);
      [s[..n]] + Words(space, s[n..])
  }

  function Joined(ws: seq<string>): string {
    if ws == [] then "" else if |ws| == 1 then ws[0] else ws[0] + " " + Joined(ws[1..])
  }

  ghost predicate IsWordOf(space: char -> bool, w: string) { w != "" && forall i | 0 <= i < |w| :: !space(w[i]) }

  ghost predicate AllWords(space: char -> bool, ws: seq<string>) { forall i | 0 <= i < |ws| :: IsWordOf(space, ws[i]) }

  lemma {:induction false} WordsAreWords(space: char -> bool, s: string)
    ensures AllWords(space, Words(space, s))
    decreases |s|
  {
    if s == "" {
    } else if space(s[0]) {
      WordsAreWords(space, s[1..]);
    } else {
      WordsAreWords(space, s[RunEnd(c => !space(c), s, 0)..]);
    }
  }

  lemma JoinedNotEmpty(space: char -> bool, ws: seq<string>)
    requires AllWords(space, ws)
    ensures Joined(ws) == "" <==> ws == []
  {
    if ws != [] { assert IsWordOf(space, ws[0]); }
  }

  /** The canonical form of a name is its words joined by single spaces. */
  lemma {:induction false} SqueezeJoinsWords(space: char -> bool, s: string)
    ensures Squeeze(space, s) == Joined(Words(space, s))
    decreases |s|
  {
    hide RunEnd;
    if s == "" {
    } else if space(s[0]) {
      SqueezeJoinsWords(space, s[1..]);
    } else {
      var n := RunEnd(c => !space(c), s, 0);
      var rest := Words(space, s[n..]);
      SqueezeJoinsWords(space, s[n..]);
      WordsAreWords(space, s[n..]);
      JoinedNotEmpty(space, rest);
      assert ([s[..n]] + rest)[1..] == rest;
    }
  }

  lemma {:induction false} WordFirst(space: char -> bool, w: string, rest: string)
    requires IsWordOf(space, w) && (rest == "" || space(rest[0]))
    ensures Words(space, w + rest) == [w] + Words(space, rest)
  {
    var s := w + rest;
    assert forall i | 0 <= i < |w| :: s[i] == w[i];
    Scanner.RunUnique(c => !space(c), s, 0, |w|);
    assert s[..|w|] == w && s[|w|..] == rest;
  }

  /** Splitting inverts joining. */
  lemma {:induction false} WordsOfJoined(space: char -> bool, ws: seq<string>)
    requires space(' ') && AllWords(space, ws)
    ensures Words(space, Joined(ws)) == ws
    decreases |ws|
  {
    hide Words, RunEnd;
    if ws == [] {
      NoWords(space);
    } else {
      assert IsWordOf(space, ws[0]) && ws == [ws[0]] + ws[1..];
      var rest := if |ws| == 1 then "" else " " + Joined(ws[1..]);
      assert Joined(ws) == ws[0] + rest;
      WordFirst(space, ws[0], rest);
      WordsOfJoined(space, ws[1..]);
      if |ws| == 1 { NoWords(space); } else { BlankSkipped(space, Joined(ws[1..])); }
    }
  }

  lemma NoWords(space: char -> bool)
    ensures Words(space, "") == []
  {}

  lemma BlankSkipped(space: char -> bool, s: string)
    requires space(' ')
    ensures Words(space, " " + s) == Words(space, s)
  {
    assert (" " + s)[1..] == s;
  }

  /** Two names have one canonical form iff their lower-cased spellings have the same words:
      white space around and between them does not matter, and nothing else is lost. */
  lemma NamesAlikeIffSameWords(u: Setup, s: string, t: string, pdType: PdType)
    requires u.space(' ') && pdType in {"FIO", "CARD_HOLDER"}
    ensures CanonicalOf(u, s, pdType) == CanonicalOf(u, t, pdType) <==>
      Words(u.space, u.lower(s)) == Words(u.space, u.lower(t))
  {
    hide Words, Joined, Squeeze;
    var a, b := u.lower(s), u.lower(t);
    SqueezeJoinsWords(u.space, a);
    SqueezeJoinsWords(u.space, b);
    WordsAreWords(u.space, a);
    WordsAreWords(u.space, b);
    WordsOfJoined(u.space, Words(u.space, a));
    WordsOfJoined(u.space, Words(u.space, b));
  }

  /** Squeezing is idempotent. */
  lemma SqueezeTwice(space: char -> bool, s: string)
    requires space(' ')
    ensures Squeeze(space, Squeeze(space, s)) == Squeeze(space, s)
  {
    hide Words, Joined, Squeeze;
    SqueezeJoinsWords(space, s);
    SqueezeJoinsWords(space, Squeeze(space, s));
    WordsAreWords(space, s);
    WordsOfJoined(space, Words(space, s));
  }

  lemma {:induction false} DigitsAppend(a: string, b: string)
    ensures DigitsOf(a + b) == DigitsOf(a) + DigitsOf(b)
  {
    if a == "" {
      assert a + b == b;
    } else {
      assert (a + b)[1..] == a[1..] + b;
      DigitsAppend(a[1..], b);
      var first := if AsciiDigit(a[0]) then [a[0]] else "";
      assert first + (DigitsOf(a[1..]) + DigitsOf(b)) == first + DigitsOf(a[1..]) + DigitsOf(b);
    }
  }

  /** For numbers, what stands between the digits does not matter. */
  lemma NumbersAlikeWithoutSeparators(u: Setup, a: string, mark: char, b: string, pdType: PdType)
    requires pdType in {"CARD_NUMBER", "INN", "ORG_INN", "SNILS", "PHONE"}
    ensures CanonicalOf(u, a + [mark] + b, pdType) == CanonicalOf(u, a + b, pdType) <==> !('0' <= mark <= '9')
  {
    hide DigitsOf;
    DigitsAppend(a + [mark], b);
    DigitsAppend(a, [mark]);
    DigitsAppend(a, b);
    OneMark(mark);
  }

  lemma OneMark(mark: char)
    ensures DigitsOf([mark]) == if AsciiDigit(mark) then [mark] else ""
  {
    assert [mark][1..] == "";
  }

  /** The decimal digits of a text, in their order. */
  function OnlyDigits(s: string): string {
    if s == "" then ""
    else OnlyDigits(s[..|s| - 1]) + if '0' <= s[|s| - 1] <= '9' then [s[|s| - 1]] else ""
  }

  lemma {:induction false} DigitsFromRight(s: string)
    ensures DigitsOf(s) == OnlyDigits(s)
  {
    if s != "" {
      var n := |s| - 1;
      DigitsFromRight(s[..n]);
      DigitsAppend(s[..n], [s[n]]);
      OneMark(s[n]);
      assert s == s[..n] + [s[n]];
    }
  }

  /** Two spellings count as one value of their type: numbers by their digits, names by their
      lower-cased words, everything else by its lower-cased spelling. */
  predicate Alike(u: Setup, t: PdType, x: string, y: string) {
    if t in {"CARD_NUMBER", "INN", "ORG_INN", "SNILS", "PHONE"} then OnlyDigits(x) == OnlyDigits(y)
    else if t in {"FIO", "CARD_HOLDER"} then Words(u.space, u.lower(x)) == Words(u.space, u.lower(y))
    else u.lower(x) == u.lower(y)
  }

  lemma AlikeIffOneForm(u: Setup, t: PdType, x: string, y: string)
    requires u.space(' ')
    ensures CanonicalOf(u, x, t) == CanonicalOf(u, y, t) <==> Alike(u, t, x, y)
  {
    hide Words, OnlyDigits, DigitsOf, Squeeze;
    DigitsFromRight(x);
    DigitsFromRight(y);
    if t in {"FIO", "CARD_HOLDER"} { NamesAlikeIffSameWords(u, x, y, t); }
  }

  /** The canonical forms themselves: what tokens, digests and synthetic values are made from. */
  lemma CanonicalForm(u: Setup, t: PdType, x: string)
    ensures CanonicalOf(u, x, t) ==
      if t in {"CARD_NUMBER", "INN", "ORG_INN", "SNILS", "PHONE"} then OnlyDigits(x)
      else if t in {"FIO", "CARD_HOLDER"} then Joined(Words(u.space, u.lower(x)))
      else u.lower(x)
  {
    hide Words, OnlyDigits, DigitsOf, Squeeze, Joined;
    DigitsFromRight(x);
    SqueezeJoinsWords(u.space, u.lower(x));
  }
}
