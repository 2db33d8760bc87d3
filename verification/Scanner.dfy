/** The tolerant placeholder scanner of `demask`: the regex
    `(?:[\[\(\{<]\s*)?([A-ZА-Я]+(?:_[A-ZА-Я]+)*)[ _-]?(\d+)(?:\s*[\]\)\}>])?`
    as a hand-written matcher, the grammar it implements, and how matches behave
    when a placeholder is embedded in an arbitrary text. */
module Scanner {
  import opened Text

  /** The Unicode classes `\d` and `\s`, of which only a few facts matter. */
  datatype CharClasses = CharClasses(digit: char -> bool, space: char -> bool) {
    ghost predicate Valid() {
      && (forall c :: AsciiDigit(c) ==> digit(c)) && !digit('*')
      && (forall c :: digit(c) ==> !IsLetter(c) && !IsOpener(c) && !IsCloser(c) && !IsSeparator(c))
      && (forall c :: space(c) ==> !IsLetter(c) && !IsOpener(c) && !IsCloser(c) && !digit(c))
    }
  }

  type Classes = k: CharClasses | k.Valid()
    witness CharClasses(c => AsciiDigit(c), c => c == ' ')

  predicate IsLetter(c: char) { 'A' <= c <= 'Z' || '\U{0410}' <= c <= '\U{042F}' }
  predicate IsOpener(c: char) { c == '[' || c == '(' || c == '{' || c == '<' }
  predicate IsCloser(c: char) { c == ']' || c == ')' || c == '}' || c == '>' }
  predicate IsSeparator(c: char) { c == ' ' || c == '_' || c == '-' }

  // ----- the matcher -----

  /** End of the label `L+(_L+)*` at `i`; `i` itself if there is none. */
  function LabelEnd(s: string, i: nat): (j: nat)
    requires i <= |s|
    ensures i <= j <= |s|
    decreases |s| - i
  {
    var r := RunEnd(IsLetter, s, i);
    if i < r && r + 1 < |s| && s[r] == '_' && IsLetter(s[r + 1]) then LabelEnd(s, r + 1) else r
  }

  function OpenEnd(k: Classes, s: string, i: nat): (j: nat)
    requires i <= |s|
    ensures i <= j <= |s|
  {
    if i < |s| && IsOpener(s[i]) then RunEnd(k.space, s, i + 1) else i
  }

  function CloseEnd(k: Classes, s: string, i: nat): (j: nat)
    requires i <= |s|
    ensures i <= j <= |s|
  {
    var w := RunEnd(k.space, s, i);
    if w < |s| && IsCloser(s[w]) then w + 1 else i
  }

  function SepEnd(s: string, i: nat): (j: nat)
    requires i <= |s|
    ensures i <= j <= |s|
  {
    if i < |s| && IsSeparator(s[i]) then i + 1 else i
  }

  /** One match: the boundaries between its opening bracket, label, separator,
      number and closing bracket. */
  datatype Cuts = Cuts(start: nat, tag: nat, sep: nat, num: nat, close: nat, end: nat) {
    predicate In(s: string) { start <= tag <= sep <= num <= close <= end <= |s| }

    function Plus(n: nat): Cuts { Cuts(start + n, tag + n, sep + n, num + n, close + n, end + n) }

    /** The key under which the two capture groups are looked up. */
    function Key(s: string): string
      requires In(s)
    { s[tag..sep] + "_" + s[num..close] }
  }

  /** The greedy cuts at `i`, whether or not they make a match. */
  function CutsAt(k: Classes, s: string, i: nat): (c: Cuts)
    requires i <= |s|
    ensures c.In(s) && c.start == i
  {
    var o := OpenEnd(k, s, i);
    var l := LabelEnd(s, o);
    var q := SepEnd(s, l);
    var d := RunEnd(k.digit, s, q);
    Cuts(i, o, l, q, d, CloseEnd(k, s, d))
  }

  predicate Complete(c: Cuts) { c.tag < c.sep && c.num < c.close }

  function MatchAt(k: Classes, s: string, i: nat): (m: Option<Cuts>)
    requires i <= |s|
    ensures m.Some? ==> m.value.In(s) && m.value.start == i < m.value.end
  {
    var c := CutsAt(k, s, i);
    if Complete(c) then Some(c) else None
  }

  /** Where scanning resumes after looking for a match at `i`. */
  function NextPos(k: Classes, s: string, i: nat): (j: nat)
    requires i < |s|
    ensures i < j <= |s|
  {
    if MatchAt(k, s, i).Some? then MatchAt(k, s, i).value.end else i + 1
  }

  function Prepend<T>(m: Option<T>, rest: seq<T>): seq<T> {
    if m.Some? then [m.value] + rest else rest
  }

  /** All leftmost, non-overlapping matches of `s` from `i` on. */
  function Hits(k: Classes, s: string, i: nat): (hs: seq<Cuts>)
    requires i <= |s|
    decreases |s| - i
  {
    if i == |s| then []
    else
      Prepend(MatchAt(k, s, i), Hits(k, s, NextPos(k, s, i)))
  }

  // ----- the grammar, as an independent reference -----

  /** `[A-ZА-Я]` by its code points: Latin and Cyrillic capitals, without the letter Io. */
  predicate Capital(c: char) { '\U{0041}' <= c <= '\U{005A}' || '\U{0410}' <= c <= '\U{042F}' }

  /** Capitals, and underscores only between two of them. */
  ghost predicate IsLabelAt(s: string, i: nat, j: nat) {
    && i < j <= |s|
    && forall x | i <= x < j ::
      || Capital(s[x])
      || (s[x] == '_' && i < x && x + 1 < j && Capital(s[x - 1]) && Capital(s[x + 1]))
  }

  ghost predicate IsLabel(s: string) { IsLabelAt(s, 0, |s|) }

  /** A word of the regular expression, with its character sets written out. */
  ghost predicate IsWord(k: Classes, s: string, c: Cuts) {
    && c.In(s)
    && (c.start == c.tag || (s[c.start] in {'[', '(', '{', '<'} && All(k.space, s, c.start + 1, c.tag)))
    && IsLabelAt(s, c.tag, c.sep)
    && (c.sep == c.num || (c.num == c.sep + 1 && s[c.sep] in {' ', '_', '-'}))
    && c.num < c.close && All(k.digit, s, c.num, c.close)
    && (c.close == c.end || (s[c.end - 1] in {']', ')', '}', '>'} && All(k.space, s, c.close, c.end - 1)))
  }

  lemma RunUnique(p: char -> bool, s: string, i: nat, j: nat)
    requires i <= j <= |s| && All(p, s, i, j)
    requires j < |s| ==> !p(s[j])
    ensures RunEnd(p, s, i) == j
  {}

  lemma {:induction false} LabelSound(s: string, i: nat)
    requires i <= |s| && i < LabelEnd(s, i)
    ensures IsLabelAt(s, i, LabelEnd(s, i))
    decreases |s| - i
  {
    hide RunEnd;
    var r := RunEnd(IsLetter, s, i);
    assert forall x | i <= x < r :: IsLetter(s[x]);
    if r < LabelEnd(s, i) { LabelSound(s, r + 1); }
  }

  /** A label that cannot be continued is found whole. */
  lemma {:induction false} LabelExact(s: string, i: nat, j: nat)
    requires IsLabelAt(s, i, j)
    requires j < |s| ==> !IsLetter(s[j])
    requires j + 1 < |s| && s[j] == '_' ==> !IsLetter(s[j + 1])
    ensures LabelEnd(s, i) == j
    decreases j - i
  {
    var r := RunEnd(IsLetter, s, i);
    if r < j { LabelExact(s, r + 1, j); }
  }

  /** The cuts of a complete match are a word of the grammar. */
  lemma MatchSound(k: Classes, s: string, i: nat)
    requires i <= |s| && Complete(CutsAt(k, s, i))
    ensures IsWord(k, s, CutsAt(k, s, i))
  {
    LabelSound(s, CutsAt(k, s, i).tag);
  }

  lemma OpenExact(k: Classes, s: string, w: Cuts)
    requires IsWord(k, s, w)
    ensures OpenEnd(k, s, w.start) == w.tag
  {
    assert IsLetter(s[w.tag]);
    if w.start < w.tag { RunUnique(k.space, s, w.start + 1, w.tag); }
  }

  lemma CloseExact(k: Classes, s: string, w: Cuts)
    requires IsWord(k, s, w) && w.close < w.end
    ensures RunEnd(k.digit, s, w.num) == w.close && CloseEnd(k, s, w.close) == w.end
  {
    RunUnique(k.digit, s, w.num, w.close);
    RunUnique(k.space, s, w.close, w.end - 1);
  }

  lemma BodyExact(k: Classes, s: string, w: Cuts)
    requires IsWord(k, s, w)
    ensures LabelEnd(s, w.tag) == w.sep && SepEnd(s, w.sep) == w.num && RunEnd(k.digit, s, w.num) >= w.close
  {
    assert k.digit(s[w.num]);
    LabelExact(s, w.tag, w.sep);
  }

  /** Every word starting at `i` is cut as the matcher cuts up to its digits, and
      reaches no further; a word that ends in a bracket is the match. */
  lemma MatchMaximal(k: Classes, s: string, w: Cuts)
    requires IsWord(k, s, w)
    ensures var c := CutsAt(k, s, w.start);
      && Complete(c) && c.tag == w.tag && c.sep == w.sep && c.num == w.num
      && w.close <= c.close && w.end <= c.end
      && (w.close < w.end ==> c == w)
  {
    OpenExact(k, s, w);
    BodyExact(k, s, w);
    if w.close < w.end { CloseExact(k, s, w); }
  }

  /** The scanner matches at `i` iff the grammar has a word there, and takes the
      longest one; label and separator are the same in all of them. */
  lemma MatchIsLongestWord(k: Classes, s: string, i: nat)
    requires i <= |s|
    ensures MatchAt(k, s, i).Some? <==> exists w :: IsWord(k, s, w) && w.start == i
    ensures MatchAt(k, s, i).Some? ==> IsWord(k, s, MatchAt(k, s, i).value)
    ensures forall w :: IsWord(k, s, w) && w.start == i ==>
      var m := MatchAt(k, s, i).value;
      w.end <= m.end && w.tag == m.tag && w.sep == m.sep && w.num == m.num
  {
    if Complete(CutsAt(k, s, i)) { MatchSound(k, s, i); }
    forall w | IsWord(k, s, w) && w.start == i { MatchMaximal(k, s, w); }
  }

  // ----- placeholders inside arbitrary texts -----

  function Bracketed(tag: string, num: string): string { "[" + tag + "_" + num + "]" }

  function Shift(hs: seq<Cuts>, n: nat): seq<Cuts> {
    if hs == [] then [] else [hs[0].Plus(n)] + Shift(hs[1..], n)
  }

  /** An opening bracket, of any kind, can only be the first character of a match. */
  ghost predicate Fresh(t: string) { t == "" || IsOpener(t[0]) }

  lemma {:induction false} RunBarrier(p: char -> bool, a: string, t: string, i: nat)
    requires i <= |a| && (t == "" || !p(t[0]))
    ensures RunEnd(p, a + t, i) == RunEnd(p, a, i)
  {
    RunUnique(p, a + t, i, RunEnd(p, a, i));
  }

  lemma {:induction false} LabelBarrier(a: string, t: string, i: nat)
    requires i <= |a| && Fresh(t)
    ensures LabelEnd(a + t, i) == LabelEnd(a, i)
    decreases |a| - i
  {
    hide RunEnd;
    RunBarrier(IsLetter, a, t, i);
    var r := RunEnd(IsLetter, a, i);
    if r < |a| { LabelBarrier(a, t, r + 1); }
  }

  lemma OpenBarrier(k: Classes, a: string, t: string, i: nat)
    requires i < |a| && Fresh(t)
    ensures OpenEnd(k, a + t, i) == OpenEnd(k, a, i)
  {
    RunBarrier(k.space, a, t, i + 1);
  }

  lemma CloseBarrier(k: Classes, a: string, t: string, i: nat)
    requires i <= |a| && Fresh(t)
    ensures CloseEnd(k, a + t, i) == CloseEnd(k, a, i)
  {
    RunBarrier(k.space, a, t, i);
  }

  lemma SepBarrier(a: string, t: string, i: nat)
    requires i <= |a| && Fresh(t)
    ensures SepEnd(a + t, i) == SepEnd(a, i)
  {}

  lemma CutsBarrier(k: Classes, a: string, t: string, i: nat)
    requires i < |a| && Fresh(t)
    ensures CutsAt(k, a + t, i) == CutsAt(k, a, i)
  {
    hide LabelEnd, RunEnd, OpenEnd, CloseEnd, SepEnd;
    var c := CutsAt(k, a, i);
    OpenBarrier(k, a, t, i);
    LabelBarrier(a, t, c.tag);
    SepBarrier(a, t, c.sep);
    RunBarrier(k.digit, a, t, c.num);
    CloseBarrier(k, a, t, c.close);
  }

  lemma StepBarrier(k: Classes, a: string, t: string, i: nat)
    requires i < |a| && Fresh(t)
    ensures MatchAt(k, a + t, i) == MatchAt(k, a, i) && NextPos(k, a + t, i) == NextPos(k, a, i)
  {
    CutsBarrier(k, a, t, i);
  }

  lemma PrependAppend<T>(m: Option<T>, x: seq<T>, y: seq<T>)
    ensures Prepend(m, x + y) == Prepend(m, x) + y
  {}

  lemma {:induction false} HitsBarrier(k: Classes, a: string, t: string, i: nat)
    requires i <= |a| && Fresh(t)
    ensures Hits(k, a + t, i) == Hits(k, a, i) + Hits(k, a + t, |a|)
    decreases |a| - i
  {
    hide MatchAt, NextPos;
    if i < |a| {
      StepBarrier(k, a, t, i);
      var j := NextPos(k, a, i);
      HitsBarrier(k, a, t, j);
      PrependAppend(MatchAt(k, a, i), Hits(k, a, j), Hits(k, a + t, |a|));
    }
  }

  lemma {:induction false} RunShift(p: char -> bool, a: string, t: string, i: nat)
    requires i <= |t|
    ensures RunEnd(p, a + t, |a| + i) == |a| + RunEnd(p, t, i)
  {
    RunUnique(p, a + t, |a| + i, |a| + RunEnd(p, t, i));
  }

  lemma {:induction false} LabelShift(a: string, t: string, i: nat)
    requires i <= |t|
    ensures LabelEnd(a + t, |a| + i) == |a| + LabelEnd(t, i)
    decreases |t| - i
  {
    hide RunEnd;
    RunShift(IsLetter, a, t, i);
    var r := RunEnd(IsLetter, t, i);
    if r < |t| { LabelShift(a, t, r + 1); }
  }

  lemma OpenShift(k: Classes, a: string, t: string, i: nat)
    requires i <= |t|
    ensures OpenEnd(k, a + t, |a| + i) == |a| + OpenEnd(k, t, i)
  {
    if i < |t| { RunShift(k.space, a, t, i + 1); }
  }

  lemma CloseShift(k: Classes, a: string, t: string, i: nat)
    requires i <= |t|
    ensures CloseEnd(k, a + t, |a| + i) == |a| + CloseEnd(k, t, i)
  {
    RunShift(k.space, a, t, i);
  }

  lemma SepShift(a: string, t: string, i: nat)
    requires i <= |t|
    ensures SepEnd(a + t, |a| + i) == |a| + SepEnd(t, i)
  {}

  lemma CutsShift(k: Classes, a: string, t: string, i: nat)
    requires i <= |t|
    ensures CutsAt(k, a + t, |a| + i) == CutsAt(k, t, i).Plus(|a|)
  {
    hide LabelEnd, RunEnd, OpenEnd, CloseEnd, SepEnd;
    var c := CutsAt(k, t, i);
    OpenShift(k, a, t, i);
    LabelShift(a, t, c.tag);
    SepShift(a, t, c.sep);
    RunShift(k.digit, a, t, c.num);
    CloseShift(k, a, t, c.close);
  }

  lemma StepShift(k: Classes, a: string, t: string, i: nat)
    requires i < |t|
    ensures NextPos(k, a + t, |a| + i) == |a| + NextPos(k, t, i)
    ensures MatchAt(k, a + t, |a| + i) ==
      if MatchAt(k, t, i).Some? then Some(MatchAt(k, t, i).value.Plus(|a|)) else None
  {
    CutsShift(k, a, t, i);
  }

  lemma ShiftPrepend(m: Option<Cuts>, x: seq<Cuts>, n: nat)
    ensures Shift(Prepend(m, x), n) == Prepend(if m.Some? then Some(m.value.Plus(n)) else None, Shift(x, n))
  {
    if m.Some? { assert Prepend(m, x)[1..] == x; }
  }

  lemma {:induction false} HitsShift(k: Classes, a: string, t: string, i: nat)
    requires i <= |t|
    ensures Hits(k, a + t, |a| + i) == Shift(Hits(k, t, i), |a|)
    decreases |t| - i
  {
    hide MatchAt, NextPos;
    if i < |t| {
      StepShift(k, a, t, i);
      var j := NextPos(k, t, i);
      HitsShift(k, a, t, j);
      ShiftPrepend(MatchAt(k, t, i), Hits(k, t, j), |a|);
    }
  }

  /** The cuts of a placeholder with the given label and number lengths. */
  function PlaceholderCuts(l: nat, n: nat): Cuts { Cuts(0, 1, 1 + l, 2 + l, 2 + l + n, 3 + l + n) }

  lemma PlaceholderMatch(k: Classes, tag: string, num: string, b: string)
    requires IsLabel(tag) && num != "" && All(k.digit, num, 0, |num|)
    ensures MatchAt(k, Bracketed(tag, num) + b, 0) == Some(PlaceholderCuts(|tag|, |num|))
    ensures Fresh(Bracketed(tag, num) + b) && PlaceholderCuts(|tag|, |num|).end == |Bracketed(tag, num)|
  {
    var ph := Bracketed(tag, num);
    var s := ph + b;
    assert forall x | 1 <= x < 1 + |tag| :: s[x] == tag[x - 1];
    assert forall x | 2 + |tag| <= x < |ph| - 1 :: s[x] == num[x - 2 - |tag|];
    hide MatchAt, CutsAt;
    MatchMaximal(k, s, PlaceholderCuts(|tag|, |num|));
  }

  lemma HitsLead(k: Classes, ph: string, c: Cuts, b: string)
    requires MatchAt(k, ph + b, 0) == Some(c) && c.end == |ph|
    ensures Hits(k, ph + b, 0) == [c] + Shift(Hits(k, b, 0), |ph|)
  {
    hide MatchAt;
    assert NextPos(k, ph + b, 0) == |ph|;
    HitsShift(k, ph, b, 0);
  }

  /** The matches of `a`, the match `c` of the next `n` characters, the matches of `b`. */
  function HitsAround(k: Classes, a: string, c: Cuts, b: string, n: nat): seq<Cuts> {
    Hits(k, a, 0) + ([c.Plus(|a|)] + Shift(Hits(k, b, 0), |a| + n))
  }

  lemma HitsMiddle(k: Classes, a: string, ph: string, b: string, c: Cuts)
    requires Fresh(ph + b) && Hits(k, ph + b, 0) == [c] + Shift(Hits(k, b, 0), |ph|)
    ensures Hits(k, a + (ph + b), 0) == HitsAround(k, a, c, b, |ph|)
  {
    hide Hits;
    HitsBarrier(k, a, ph + b, 0);
    HitsShift(k, a, ph + b, 0);
    ShiftPrepend(Some(c), Shift(Hits(k, b, 0), |ph|), |a|);
    ShiftShift(Hits(k, b, 0), |ph|, |a|);
  }

  lemma {:induction false} ShiftShift(hs: seq<Cuts>, m: nat, n: nat)
    ensures Shift(Shift(hs, m), n) == Shift(hs, n + m)
  {
    if hs != [] {
      assert Shift(hs, m)[1..] == Shift(hs[1..], m);
      ShiftShift(hs[1..], m, n);
    }
  }

  lemma HitsPlaceholder(k: Classes, tag: string, num: string, b: string)
    requires IsLabel(tag) && num != "" && All(k.digit, num, 0, |num|)
    ensures Fresh(Bracketed(tag, num) + b)
    ensures Hits(k, Bracketed(tag, num) + b, 0) ==
      [PlaceholderCuts(|tag|, |num|)] + Shift(Hits(k, b, 0), |Bracketed(tag, num)|)
  {
    hide *;
    PlaceholderMatch(k, tag, num, b);
    HitsLead(k, Bracketed(tag, num), PlaceholderCuts(|tag|, |num|), b);
  }

  /** The matches of `a + "[L_n]" + b` are those of `a`, the placeholder, and those
      of `b`: no match straddles a placeholder, whatever surrounds it. */
  lemma ScannerDecomposition(k: Classes, a: string, tag: string, num: string, b: string)
    requires IsLabel(tag) && num != "" && All(k.digit, num, 0, |num|)
    ensures Hits(k, a + (Bracketed(tag, num) + b), 0) ==
      HitsAround(k, a, PlaceholderCuts(|tag|, |num|), b, |Bracketed(tag, num)|)
  {
    hide *;
    HitsPlaceholder(k, tag, num, b);
    HitsMiddle(k, a, Bracketed(tag, num), b, PlaceholderCuts(|tag|, |num|));
  }
}
