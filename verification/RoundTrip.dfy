/** Masking a text and demasking the result: the two passes of `demask` over the
    pieces that `mask_line` produced. */
module RoundTrip {
  import opened Text
  import opened Scanner
  import opened Masking
  import opened Pipeline
  import opened Demask

  // ----- the first pass is a homomorphism at every `[` -----

  lemma StepResultBarrier(k: Classes, a: string, t: string, i: nat, tb: Table)
    requires i < |a| && Fresh(t)
    ensures StepResult(k, a + t, i, tb) == StepResult(k, a, i, tb) && NextPos(k, a + t, i) == NextPos(k, a, i)
  {
    hide MatchAt, NextPos, Fresh;
    StepBarrier(k, a, t, i);
    match MatchAt(k, a, i)
    case None =>
    case Some(c) => ResolveWithin(a + t, a, c, tb, t);
  }

  lemma ResolveWithin(s: string, a: string, c: Cuts, tb: Table, t: string)
    requires c.In(a) && s == a + t
    ensures c.In(s) && Resolve(s, c, tb) == Resolve(a, c, tb)
  {
    assert s[c.tag..c.sep] == a[c.tag..c.sep] && s[c.num..c.close] == a[c.num..c.close];
    assert s[c.start..c.end] == a[c.start..c.end];
  }

  lemma ResolveShifted(s: string, a: string, c: Cuts, tb: Table, t: string)
    requires c.In(t) && s == a + t
    ensures c.Plus(|a|).In(s) && Resolve(s, c.Plus(|a|), tb) == Resolve(t, c, tb)
  {
    var d := c.Plus(|a|);
    assert s[d.tag..d.sep] == t[c.tag..c.sep] && s[d.num..d.close] == t[c.num..c.close];
    assert s[d.start..d.end] == t[c.start..c.end];
  }

  lemma {:induction false} Pass1Barrier(k: Classes, a: string, t: string, i: nat, tb: Table)
    requires i <= |a| && Fresh(t)
    ensures Pass1(k, a + t, i, tb) == Pass1(k, a, i, tb).Then(Pass1(k, a + t, |a|, tb))
    decreases |a| - i
  {
    hide StepResult, NextPos, Fresh;
    if i < |a| {
      StepResultBarrier(k, a, t, i, tb);
      var j := NextPos(k, a, i);
      Pass1Barrier(k, a, t, j, tb);
      ThenAssoc(StepResult(k, a, i, tb), Pass1(k, a, j, tb), Pass1(k, a + t, |a|, tb));
    } else {
      ThenLeft(Pass1(k, a + t, |a|, tb));
    }
  }

  lemma StepResultShift(k: Classes, a: string, t: string, i: nat, tb: Table)
    requires i < |t|
    ensures StepResult(k, a + t, |a| + i, tb) == StepResult(k, t, i, tb)
    ensures NextPos(k, a + t, |a| + i) == |a| + NextPos(k, t, i)
  {
    hide MatchAt, NextPos;
    StepShift(k, a, t, i);
    match MatchAt(k, t, i)
    case None =>
    case Some(c) => ResolveShifted(a + t, a, c, tb, t);
  }

  lemma {:induction false} Pass1Shift(k: Classes, a: string, t: string, i: nat, tb: Table)
    requires i <= |t|
    ensures Pass1(k, a + t, |a| + i, tb) == Pass1(k, t, i, tb)
    decreases |t| - i
  {
    hide StepResult, NextPos;
    if i < |t| {
      StepResultShift(k, a, t, i, tb);
      Pass1Shift(k, a, t, NextPos(k, t, i), tb);
    }
  }

  lemma Pass1Append(k: Classes, a: string, t: string, tb: Table)
    requires Fresh(t)
    ensures Pass1(k, a + t, 0, tb) == Pass1(k, a, 0, tb).Then(Pass1(k, t, 0, tb))
  {
    hide Pass1, Fresh;
    Pass1Barrier(k, a, t, 0, tb);
    Pass1Shift(k, a, t, 0, tb);
  }

  lemma Pass1Lead(k: Classes, ph: string, b: string, c: Cuts, tb: Table)
    requires MatchAt(k, ph + b, 0) == Some(c) && c.end == |ph| > 0
    ensures Pass1(k, ph + b, 0, tb) == Resolve(ph + b, c, tb).Then(Pass1(k, b, 0, tb))
  {
    hide MatchAt, Resolve;
    Pass1Shift(k, ph, b, 0, tb);
    assert NextPos(k, ph + b, 0) == |ph|;
  }

  lemma PlaceholderKeyOf(tag: string, num: string, b: string)
    ensures var c := PlaceholderCuts(|tag|, |num|);
      && c.In(Bracketed(tag, num) + b) && c.Key(Bracketed(tag, num) + b) == tag + "_" + num
      && c.end == |Bracketed(tag, num)| > 0
  {
    var s := Bracketed(tag, num) + b;
    var c := PlaceholderCuts(|tag|, |num|);
    assert s[c.tag..c.sep] == tag && s[c.num..c.close] == num;
  }

  lemma Pass1Placeholder(k: Classes, a: string, tag: string, num: string, b: string, tb: Table)
    requires IsLabel(tag) && num != "" && All(k.digit, num, 0, |num|)
    ensures var c := PlaceholderCuts(|tag|, |num|);
      && c.In(Bracketed(tag, num) + b)
      && Pass1(k, a + (Bracketed(tag, num) + b), 0, tb) ==
           Pass1(k, a, 0, tb).Then(Resolve(Bracketed(tag, num) + b, c, tb).Then(Pass1(k, b, 0, tb)))
  {
    hide Pass1, MatchAt, Bracketed, Cuts.Key, Fresh, PlaceholderCuts, Resolve;
    HitsPlaceholder(k, tag, num, b);
    PlaceholderMatch(k, tag, num, b);
    PlaceholderKeyOf(tag, num, b);
    Pass1Append(k, a, Bracketed(tag, num) + b, tb);
    Pass1Lead(k, Bracketed(tag, num), b, PlaceholderCuts(|tag|, |num|), tb);
  }

  /** A placeholder inside any text is replaced by its key's original; what stands
      before and after it is treated as if it stood alone. */
  lemma Pass1Around(k: Classes, a: string, tag: string, num: string, b: string, tb: Table)
    requires IsLabel(tag) && num != "" && All(k.digit, num, 0, |num|) && tag + "_" + num in tb
    ensures Pass1(k, a + (Bracketed(tag, num) + b), 0, tb) ==
      Pass1(k, a, 0, tb).Then(DemaskResult(tb[tag + "_" + num], 1, 0).Then(Pass1(k, b, 0, tb)))
  {
    hide Pass1, Bracketed, Cuts.Key, PlaceholderCuts, IsLabel, All;
    Pass1Placeholder(k, a, tag, num, b, tb);
    PlaceholderKeyOf(tag, num, b);
  }

  /** A placeholder whose key is not known stays as it is. */
  lemma Pass1AroundUnknown(k: Classes, a: string, tag: string, num: string, b: string, tb: Table)
    requires IsLabel(tag) && num != "" && All(k.digit, num, 0, |num|) && tag + "_" + num !in tb
    ensures Pass1(k, a + (Bracketed(tag, num) + b), 0, tb) ==
      Pass1(k, a, 0, tb).Then(DemaskResult(Bracketed(tag, num), 0, 1).Then(Pass1(k, b, 0, tb)))
  {
    Pass1Placeholder(k, a, tag, num, b, tb);
    PlaceholderKeyOf(tag, num, b);
    var s, c := Bracketed(tag, num) + b, PlaceholderCuts(|tag|, |num|);
    assert s[c.start..c.end] == Bracketed(tag, num);
    hide Pass1, Bracketed, Cuts.Key, PlaceholderCuts, IsLabel, All;
  }

  /** Tolerance: a label and a number in brackets of any kind, with blanks inside them and
      any of the separators or none between, restore the same key wherever they stand. */
  lemma TolerantRestore(k: Classes, a: string, word: string, w: Cuts, b: string, tb: Table)
    requires IsWord(k, word, w) && w.start == 0 < w.tag && w.close < w.end == |word| && w.Key(word) in tb
    ensures Pass1(k, a + (word + b), 0, tb) ==
      Pass1(k, a, 0, tb).Then(DemaskResult(tb[w.Key(word)], 1, 0).Then(Pass1(k, b, 0, tb)))
  {
    WordExtends(k, word, w, b);
    hide Pass1, MatchAt, IsWord, Cuts.Key;
    MatchMaximal(k, word + b, w);
    assert MatchAt(k, word + b, 0) == Some(w) by { MatchOfCuts(k, word + b); }
    Pass1Append(k, a, word + b, tb);
    Pass1Lead(k, word, b, w, tb);
    ResolveWithin(word + b, word, w, tb, b);
  }

  lemma MatchOfCuts(k: Classes, s: string)
    requires Complete(CutsAt(k, s, 0))
    ensures MatchAt(k, s, 0) == Some(CutsAt(k, s, 0))
  {
    hide CutsAt;
  }

  lemma WordExtends(k: Classes, word: string, w: Cuts, b: string)
    requires IsWord(k, word, w) && w.start == 0 < w.tag
    ensures IsWord(k, word + b, w) && Fresh(word + b)
  {
    assert forall x | 0 <= x < |word| :: (word + b)[x] == word[x];
  }

  /** A text in which no match is resolved is copied verbatim. */
  lemma {:induction false} Pass1Verbatim(k: Classes, s: string, i: nat, tb: Table)
    requires i <= |s| && Pass1(k, s, i, tb).restored == 0
    ensures Pass1(k, s, i, tb).text == s[i..]
    decreases |s| - i
  {
    hide MatchAt, Cuts.Key;
    if i < |s| {
      var j := NextPos(k, s, i);
      Pass1Verbatim(k, s, j, tb);
      assert s[i..] == s[i..j] + s[j..];
    }
  }

  // ----- kinds of pieces -----

  ghost predicate IsPlaceholderOf(p: Piece, tag: string, n: nat) {
    IsLabel(tag) && p.out == Output(Bracketed(tag, Decimal(n)), Some(tag + "_" + Decimal(n)))
  }

  ghost predicate IsPlaceholder(p: Piece) { exists tag, n :: IsPlaceholderOf(p, tag, n) }

  /** Recorded, but not as a placeholder: the second pass has to find its mask. */
  ghost predicate Filed(p: Piece) { p.out.key.Some? && !IsPlaceholder(p) }

  ghost predicate NoneFiled(ps: seq<Piece>) { forall i | 0 <= i < |ps| :: !Filed(ps[i]) }

  /** The masker starred some characters and kept the others. */
  ghost predicate IsPartial(p: Piece) {
    && |p.out.replacement| == |p.original|
    && forall i | 0 <= i < |p.original| :: p.out.replacement[i] == p.original[i] || p.out.replacement[i] == '*'
  }

  /** Everything the second pass has to find was masked partially. */
  ghost predicate PartialsOnly(ps: seq<Piece>) { forall i | 0 <= i < |ps| :: Filed(ps[i]) ==> IsPartial(ps[i]) }

  /** What of a value can come back: the value, or its mask if it was not recorded. */
  function Shown(p: Piece): string { if p.out.key.None? then p.out.replacement else p.original }

  /** The text, with the values that were not recorded shown as their masks. */
  function ShownText(ps: seq<Piece>): string {
    if ps == [] then "" else ps[0].gap + Shown(ps[0]) + ShownText(ps[1..])
  }

  lemma DecimalDigits(k: Classes, n: nat)
    ensures Decimal(n) != "" && All(k.digit, Decimal(n), 0, |Decimal(n)|)
  {}

  function EntryOf(p: Piece): seq<Entry> {
    if p.out.key.None? then []
    else
      var form := if p.out.replacement == "" then None else Some(p.out.replacement);
      [Entry(p.out.key.value, p.entity.pdType, p.original, form)]
  }

  function EntriesOf(ps: seq<Piece>): seq<Entry> {
    if ps == [] then [] else EntryOf(ps[0]) + EntriesOf(ps[1..])
  }

  ghost function Placeholders(ps: seq<Piece>): nat {
    if ps == [] then 0 else (if IsPlaceholder(ps[0]) then 1 else 0) + Placeholders(ps[1..])
  }

  /** Non-empty masks that the second pass has to find. */
  ghost function FiledForms(ps: seq<Piece>): nat {
    if ps == [] then 0
    else (if Filed(ps[0]) && ps[0].out.replacement != "" then 1 else 0) + FiledForms(ps[1..])
  }

  /** What a piece comes back as: the original stored last under a placeholder's key, and
      otherwise what of it can come back. */
  ghost function Value(p: Piece, tb: Table): string {
    if IsPlaceholder(p) && p.out.key.Some? && p.out.key.value in tb then tb[p.out.key.value] else Shown(p)
  }

  ghost predicate KeysIn(ps: seq<Piece>, tb: Table) {
    forall i | 0 <= i < |ps| :: ps[i].out.key.Some? ==> ps[i].out.key.value in tb
  }

  /** After the first pass: placeholders restored, other masks still there. */
  ghost function Half(ps: seq<Piece>, tb: Table): string {
    if ps == [] then ""
    else ps[0].gap + (if IsPlaceholder(ps[0]) then Value(ps[0], tb) else ps[0].out.replacement) + Half(ps[1..], tb)
  }

  /** After both passes. */
  ghost function Restored(ps: seq<Piece>, tb: Table): string {
    if ps == [] then "" else ps[0].gap + Value(ps[0], tb) + Restored(ps[1..], tb)
  }

  // ----- first pass over the masked text -----

  lemma FirstPassPlaceholder(k: Classes, a: string, p: Piece, rest: string, tb: Table)
    requires IsPlaceholder(p) && KeysIn([p], tb)
    ensures Pass1(k, a + p.gap + p.out.replacement + rest, 0, tb) ==
      Pass1(k, a + p.gap, 0, tb).Then(DemaskResult(Value(p, tb), 1, 0).Then(Pass1(k, rest, 0, tb)))
  {
    hide Pass1, IsLabel, All, Bracketed, Decimal;
    var tag, n :| IsPlaceholderOf(p, tag, n);
    DecimalDigits(k, n);
    assert [p][0] == p;
    Pass1Around(k, a + p.gap, tag, Decimal(n), rest, tb);
    assert a + p.gap + (Bracketed(tag, Decimal(n)) + rest) == a + p.gap + p.out.replacement + rest;
  }

  /** What the first pass makes of a text with at least `n` issued placeholders. */
  ghost predicate PassesTo(r: DemaskResult, n: nat, text: string) {
    r.restored >= n && (r.restored == n ==> r.text == text)
  }

  lemma PassPlaceholder(k: Classes, a: string, p: Piece, rest: string, n: nat, text: string, tb: Table)
    requires IsPlaceholder(p) && KeysIn([p], tb) && PassesTo(Pass1(k, rest, 0, tb), n, text)
    ensures PassesTo(Pass1(k, a + p.gap + p.out.replacement + rest, 0, tb), n + 1, a + p.gap + Value(p, tb) + text)
  {
    hide Pass1, KeysIn, Value, IsPlaceholder;
    FirstPassPlaceholder(k, a, p, rest, tb);
    if Pass1(k, a + p.gap, 0, tb).restored == 0 { Pass1Verbatim(k, a + p.gap, 0, tb); }
    assert a + p.gap + (Value(p, tb) + text) == a + p.gap + Value(p, tb) + text;
  }

  lemma PassEnd(k: Classes, s: string, tb: Table)
    ensures PassesTo(Pass1(k, s, 0, tb), 0, s)
  {
    hide Pass1;
    if Pass1(k, s, 0, tb).restored == 0 { Pass1Verbatim(k, s, 0, tb); }
  }

  lemma HalfCons(ps: seq<Piece>, tb: Table, a: string, tail: string)
    requires ps != []
    ensures var p := ps[0];
      a + Half(ps, tb) + tail ==
        a + p.gap + (if IsPlaceholder(p) then Value(p, tb) else p.out.replacement) + (Half(ps[1..], tb) + tail)
  {
    hide Value, IsPlaceholder;
    var p := ps[0];
    var x := if IsPlaceholder(p) then Value(p, tb) else p.out.replacement;
    assert a + (p.gap + x + Half(ps[1..], tb)) + tail == a + p.gap + x + (Half(ps[1..], tb) + tail);
  }

  lemma MaskedCons(ps: seq<Piece>, a: string, tail: string)
    requires ps != []
    ensures var p := ps[0];
      a + MaskedText(ps) + tail == a + p.gap + p.out.replacement + (MaskedText(ps[1..]) + tail)
  {
    hide MaskedText;
    MaskedTextCons(ps);
  }

  /** Every placeholder is restored; if nothing else is, the rest of the text is verbatim. */
  lemma {:induction false} FirstPass(k: Classes, a: string, ps: seq<Piece>, tail: string, tb: Table)
    requires KeysIn(ps, tb)
    ensures PassesTo(Pass1(k, a + MaskedText(ps) + tail, 0, tb), Placeholders(ps), a + Half(ps, tb) + tail)
    decreases |ps|
  {
    hide Pass1, KeysIn, Value, IsPlaceholder, MaskedText, PassesTo;
    if ps == [] {
      MaskedTextNil();
      assert a + "" + tail == a + tail;
      PassEnd(k, a + tail, tb);
    } else {
      var p := ps[0];
      MaskedCons(ps, a, tail);
      HalfCons(ps, tb, a, tail);
      KeysInParts(ps, tb);
      if IsPlaceholder(p) {
        FirstPass(k, "", ps[1..], tail, tb);
        assert "" + MaskedText(ps[1..]) == MaskedText(ps[1..]) && "" + Half(ps[1..], tb) == Half(ps[1..], tb);
        PassPlaceholder(
          k, a, p, MaskedText(ps[1..]) + tail, Placeholders(ps[1..]), Half(ps[1..], tb) + tail, tb);
      } else {
        var b := a + p.gap + p.out.replacement;
        FirstPass(k, b, ps[1..], tail, tb);
        assert b + MaskedText(ps[1..]) + tail == b + (MaskedText(ps[1..]) + tail);
        assert b + Half(ps[1..], tb) + tail == b + (Half(ps[1..], tb) + tail);
      }
    }
  }

  lemma MaskedTextNil()
    ensures MaskedText([]) == ""
  {}

  lemma KeysInParts(ps: seq<Piece>, tb: Table)
    requires ps != [] && KeysIn(ps, tb)
    ensures KeysIn([ps[0]], tb) && KeysIn(ps[1..], tb)
  {}

  // ----- second pass over the half-restored text -----

  lemma Occurrence(s: string, m: string, i: nat)
    ensures OccursAt(s, m, i) ==> forall x | 0 <= x < |m| :: s[i + x] == m[x]
  {
    if OccursAt(s, m, i) {
      forall x | 0 <= x < |m| ensures s[i + x] == m[x] { assert s[i..i + |m|][x] == m[x]; }
    }
  }

  /** In front of its own place a mask cannot occur: its first star would fall on
      a character that is not a star. */
  lemma FindOwnPlace(s: string, m: string, from: nat, at: nat)
    requires from <= at && OccursAt(s, m, at) && '*' in m
    requires forall i | from <= i < at :: s[i] != '*'
    ensures Find(s, m, from) == Some(at)
  {
    var first := RunEnd(c => c != '*', m, 0);
    assert first < |m| && m[first] == '*' by {
      var i :| 0 <= i < |m| && m[i] == '*';
      assert !(i < first);
    }
    Occurrence(s, m, at);
    assert s[at + first] == '*' && forall i | from <= i < at + first :: s[i] != '*' by {
      assert forall i | at <= i < at + first :: s[i] == m[i - at];
    }
    forall j: nat | from <= j < at ensures !OccursAt(s, m, j) {
      Occurrence(s, m, j);
      assert s[j + first] != '*';
    }
  }

  /** `m` occurs nowhere in `s`. */
  ghost predicate Absent(s: string, m: string) { forall j: nat :: !OccursAt(s, m, j) }

  lemma NoBracketAbsent(s: string, m: string)
    requires m != "" && m[0] == '[' && '[' !in s
    ensures Absent(s, m)
  {
    forall j: nat ensures !OccursAt(s, m, j) {
      Occurrence(s, m, j);
      assert j < |s| ==> s[j + 0] != '[';
    }
  }

  lemma SkipAbsent(st: Edited, f: Form)
    requires st.from <= |st.text| && Absent(st.text, f.masked)
    ensures Pass2Step(st, f) == st
  {
    hide OccursAt;
  }

  lemma RestoreFound(st: Edited, done: string, f: Form, rest: string)
    requires st.text == done + f.masked + rest && st.from <= |done| && f.masked != ""
    requires Find(st.text, f.masked, st.from) == Some(|done|)
    ensures Pass2Step(st, f) == Edited(done + f.original + rest, |done| + |f.original|, st.found + 1)
  {
    var m, at := f.masked, |done|;
    hide Find;
    assert st.text[..at] == done && st.text[at + |m|..] == rest;
  }

  /** Substituting a mask that equals its value changes nothing. */
  lemma RestoreUnstarred(st: Edited, done: string, m: string, rest: string)
    requires st.text == done + m + rest && st.from <= |done| && m != ""
    ensures var r := Pass2Step(st, Form(m, m));
      r.text == st.text && st.from <= r.from <= |done| + |m| && r.found == st.found + 1
  {
    assert OccursAt(st.text, m, |done|);
    var pos := Find(st.text, m, st.from).value;
    assert st.text == st.text[..pos] + st.text[pos..pos + |m|] + st.text[pos + |m|..];
  }

  /** The mask differs from its value. */
  ghost predicate Altered(p: Piece) { Filed(p) && p.out.replacement != p.original }

  /** What the second pass does with the entry of one piece. */
  function PieceStep(st: Edited, p: Piece): (r: Edited)
    requires st.from <= |st.text|
    ensures r.from <= |r.text|
  {
    if p.out.key.None? || p.out.replacement == "" then st else Pass2Step(st, Form(p.out.replacement, p.original))
  }

  lemma {:induction false} Pass2Cons(st: Edited, ps: seq<Piece>)
    requires ps != [] && st.from <= |st.text|
    ensures Pass2(st, Forms(EntriesOf(ps))) == Pass2(PieceStep(st, ps[0]), Forms(EntriesOf(ps[1..])))
  {
    hide Pass2Step;
    var es := EntryOf(ps[0]) + EntriesOf(ps[1..]);
    if ps[0].out.key.None? {
      assert es == EntriesOf(ps[1..]);
    } else {
      assert es[1..] == EntriesOf(ps[1..]);
      var fs := Forms(es);
      if ps[0].out.replacement == "" {
        assert fs == Forms(EntriesOf(ps[1..]));
      } else {
        assert fs[1..] == Forms(EntriesOf(ps[1..]));
      }
    }
  }

  /** One entry of the second pass restores its piece if a placeholder is not found, and an
      altered mask is found first at its own place. A mask that equals its value may be
      found anywhere, since nothing changes. */
  lemma RestorePiece(st: Edited, done: string, p: Piece, rest: string, tb: Table)
    requires st.from <= |done|
    requires st.text == done + p.gap + (if IsPlaceholder(p) then Value(p, tb) else p.out.replacement) + rest
    requires IsPlaceholder(p) ==> Absent(st.text, p.out.replacement)
    requires Altered(p) ==>
      p.out.replacement != "" && Find(st.text, p.out.replacement, st.from) == Some(|done + p.gap|)
    ensures var r := PieceStep(st, p);
      && r.text == done + p.gap + Value(p, tb) + rest
      && r.from <= |done + p.gap + Value(p, tb)|
      && r.found == st.found + FiledForms([p])
  {
    hide Pass2Step, Absent, Find;
    if IsPlaceholder(p) { PlaceholderKeyed(p); }
    assert [p][1..] == [];
    hide IsPlaceholder;
    if IsPlaceholder(p) {
      SkipAbsent(st, Form(p.out.replacement, p.original));
    } else if p.out.key.Some? && p.out.replacement != "" {
      if p.out.replacement == p.original {
        RestoreUnstarred(st, done + p.gap, p.original, rest);
      } else {
        RestoreFound(st, done + p.gap, Form(p.out.replacement, p.original), rest);
      }
    }
  }

  lemma PlaceholderKeyed(p: Piece)
    requires IsPlaceholder(p)
    ensures p.out.key.Some?
  {}

  /** When the second pass comes to a placeholder's entry, the placeholder's text does not
      occur: not in what was restored before (`done`), nor in what is still masked. */
  ghost predicate Silent(done: string, ps: seq<Piece>, tail: string, tb: Table)
    decreases |ps|
  {
    ps == [] ||
    var next := done + ps[0].gap + Value(ps[0], tb);
    && (IsPlaceholder(ps[0]) ==> Absent(next + (Half(ps[1..], tb) + tail), ps[0].out.replacement))
    && Silent(next, ps[1..], tail, tb)
  }

  /** The text at a piece: before it all is restored, from it on all is half restored. */
  ghost function TextAt(done: string, ps: seq<Piece>, tail: string, tb: Table): string
    requires ps != []
  {
    done + ps[0].gap + (if IsPlaceholder(ps[0]) then Value(ps[0], tb) else ps[0].out.replacement)
      + (Half(ps[1..], tb) + tail)
  }

  /** From the search position on, each altered mask is found first at its own place. */
  ghost predicate AtHome(from: nat, done: string, ps: seq<Piece>, tail: string, tb: Table)
    requires from <= |done|
    decreases |ps|
  {
    ps == [] ||
    var text := TextAt(done, ps, tail, tb);
    var next := done + ps[0].gap + Value(ps[0], tb);
    && (Altered(ps[0]) ==>
          ps[0].out.replacement != "" && Find(text, ps[0].out.replacement, from) == Some(|done + ps[0].gap|))
    && var later := PieceStep(Edited(text, from, 0), ps[0]).from;
    later <= |next| && AtHome(later, next, ps[1..], tail, tb)
  }

  lemma PieceStepFrom(st: Edited, p: Piece)
    requires st.from <= |st.text|
    ensures PieceStep(Edited(st.text, st.from, 0), p).from == PieceStep(st, p).from
  {}

  /** Every recorded non-empty mask is found and restored, and nothing else changes. */
  lemma {:induction false} SecondPass(st: Edited, done: string, ps: seq<Piece>, tail: string, tb: Table)
    requires Silent(done, ps, tail, tb)
    requires st.from <= |done| && AtHome(st.from, done, ps, tail, tb) && st.text == done + Half(ps, tb) + tail
    ensures var r := Pass2(st, Forms(EntriesOf(ps)));
      r.text == done + Restored(ps, tb) + tail && r.found == st.found + FiledForms(ps)
    decreases |ps|
  {
    hide Value, IsPlaceholder, Altered, PieceStep, Forms, Pass2, Half, Restored, FiledForms, EntriesOf, Absent, Find;
    if ps == [] {
      NothingToRestore(tb);
      NoForms();
      Pass2Ends(st);
    } else {
      var p := ps[0];
      var rest := Half(ps[1..], tb) + tail;
      HalfCons(ps, tb, done, tail);
      RestorePiece(st, done, p, rest, tb);
      PieceStepFrom(st, p);
      Pass2Cons(st, ps);
      var r := PieceStep(st, p);
      var next := done + p.gap + Value(p, tb);
      assert next + rest == next + Half(ps[1..], tb) + tail;
      SecondPass(r, next, ps[1..], tail, tb);
      RestoredCons(ps, tb, done, tail);
      FiledFormsCons(ps);
    }
  }

  // ----- a mask that is found elsewhere -----

  /** The second pass never touches what lies before its search position. */
  lemma {:induction false} Pass2KeepsBefore(st: Edited, fs: seq<Form>)
    requires st.from <= |st.text|
    ensures var r := Pass2(st, fs);
      st.from <= |r.text| && r.text[..st.from] == st.text[..st.from]
    decreases |fs|
  {
    hide Find, Pass2Step;
    if fs != [] {
      var next := Pass2Step(st, fs[0]);
      StepKeepsBefore(st, fs[0]);
      Pass2KeepsBefore(next, fs[1..]);
      var r := Pass2(next, fs[1..]);
      assert r.text[..st.from] == r.text[..next.from][..st.from];
      assert next.text[..st.from] == next.text[..next.from][..st.from];
    }
  }

  lemma StepKeepsBefore(st: Edited, f: Form)
    requires st.from <= |st.text|
    ensures var r := Pass2Step(st, f);
      st.from <= r.from && r.text[..st.from] == st.text[..st.from]
  {
    if f.masked != "" && Find(st.text, f.masked, st.from).Some? {
      var at := Find(st.text, f.masked, st.from).value;
      assert st.from <= at;
      hide OccursAt, Find;
      Front(st.text, at, f.original, st.text[at + |f.masked|..], st.from);
    }
  }

  lemma Front(s: string, at: nat, b: string, c: string, n: nat)
    requires n <= at <= |s|
    ensures (s[..at] + b + c)[..n] == s[..n]
  {}

  /** Found before its own place, a starred mask puts a character of its original where the
      text has a star, and that place is never visited again. */
  lemma FoundElsewhere(st: Edited, here: string, p: Piece, rest: string, fs: seq<Form>)
    requires IsPartial(p) && '*' in p.out.replacement && '*' !in p.original && st.from <= |here|
    requires st.text == here + p.out.replacement + rest
    requires Find(st.text, p.out.replacement, st.from) != Some(|here|)
    ensures !(here <= Pass2(Pass2Step(st, Form(p.out.replacement, p.original)), fs).text)
  {
    hide IsPlaceholder, Pass2, Pass2Step, Find, OccursAt;
    var m, o := p.out.replacement, p.original;
    var q := Elsewhere(st.text, here, m, rest, st.from);
    StarBefore(st.text, here, m, rest, q);
    var first: nat :| first < |m| && m[first] == '*' && q + first < |here| && here[q + first] == '*';
    var next := Pass2Step(st, Form(m, o));
    Substituted(st, Form(m, o), q, first);
    Pass2KeepsBefore(next, fs);
    NotAStar(o, first);
    StaysDifferent(next, Pass2(next, fs).text, here, q + first);
  }

  lemma NotAStar(o: string, i: nat)
    requires i < |o| && '*' !in o
    ensures o[i] != '*'
  {}

  lemma Elsewhere(s: string, here: string, m: string, rest: string, from: nat) returns (q: nat)
    requires s == here + m + rest && from <= |here| && Find(s, m, from) != Some(|here|)
    ensures from <= q < |here| && OccursAt(s, m, q) && Find(s, m, from) == Some(q)
  {
    assert OccursAt(s, m, |here|);
    hide OccursAt;
    q := Find(s, m, from).value;
  }

  lemma Substituted(st: Edited, f: Form, q: nat, i: nat)
    requires st.from <= |st.text| && f.masked != "" && Find(st.text, f.masked, st.from) == Some(q) && i < |f.original|
    ensures var r := Pass2Step(st, f);
      r.from == q + |f.original| && q + i < r.from && r.text[q + i] == f.original[i]
  {
    hide Find;
  }

  lemma StaysDifferent(next: Edited, r: string, here: string, i: nat)
    requires i < next.from <= |next.text| && next.from <= |r| && r[..next.from] == next.text[..next.from]
    requires i < |here| && next.text[i] != here[i]
    ensures !(here <= r)
  {
    assert r[i] == r[..next.from][i] == next.text[..next.from][i] == next.text[i];
  }

  /** An occurrence before the own place has its first star before it. */
  lemma StarBefore(s: string, here: string, m: string, rest: string, q: nat)
    requires s == here + m + rest && '*' in m && q < |here| && OccursAt(s, m, q)
    ensures exists first: nat :: first < |m| && m[first] == '*' && q + first < |here| && here[q + first] == '*'
  {
    var first := RunEnd(c => c != '*', m, 0);
    assert first < |m| by {
      var i :| 0 <= i < |m| && m[i] == '*';
      assert !(i < first);
    }
    Occurrence(s, m, q);
    assert s[q + first] == '*';
    assert forall x | |here| <= x < |here| + |m| :: s[x] == m[x - |here|];
    assert q + first < |here|;
    assert here[q + first] == s[q + first];
  }

  ghost predicate StarlessPartials(ps: seq<Piece>) {
    forall i | 0 <= i < |ps| :: Filed(ps[i]) ==> IsPartial(ps[i]) && '*' !in ps[i].original
  }

  lemma AlteredHasStar(p: Piece)
    requires Altered(p) && IsPartial(p)
    ensures '*' in p.out.replacement && p.out.replacement != ""
  {
    hide IsPlaceholder;
    assert '*' !in p.out.replacement ==> p.out.replacement == p.original;
  }

  /** If some starred mask is found away from its place, the text does not come back. */
  lemma {:induction false} NotAtHome(st: Edited, done: string, ps: seq<Piece>, tail: string, tb: Table)
    requires Silent(done, ps, tail, tb) && StarlessPartials(ps)
    requires st.from <= |done| && st.text == done + Half(ps, tb) + tail
    requires !AtHome(st.from, done, ps, tail, tb)
    ensures Pass2(st, Forms(EntriesOf(ps))).text != done + Restored(ps, tb) + tail
    decreases |ps|
  {
    hide Value, IsPlaceholder, IsPartial, PieceStep, Forms, Pass2, Half, Restored, EntriesOf, Absent, Find;
    if ps != [] {
      var p := ps[0];
      var rest := Half(ps[1..], tb) + tail;
      HalfCons(ps, tb, done, tail);
      Pass2Cons(st, ps);
      RestoredCons(ps, tb, done, tail);
      if Altered(p) { AlteredHasStar(p); }
      var here, fs := done + p.gap, Forms(EntriesOf(ps[1..]));
      if Altered(p) && Find(st.text, p.out.replacement, st.from) != Some(|here|) {
        NotHere(st, here, p, rest, fs);
        assert here <= here + Value(p, tb) + Restored(ps[1..], tb) + tail;
      } else {
        RestorePiece(st, done, p, rest, tb);
        PieceStepFrom(st, p);
        var r, next := PieceStep(st, p), here + Value(p, tb);
        assert next + rest == next + Half(ps[1..], tb) + tail;
        NotAtHome(r, next, ps[1..], tail, tb);
      }
    }
  }

  lemma NotHere(st: Edited, here: string, p: Piece, rest: string, fs: seq<Form>)
    requires Altered(p) && IsPartial(p) && '*' !in p.original && st.from <= |here|
    requires st.text == here + p.out.replacement + rest
    requires Find(st.text, p.out.replacement, st.from) != Some(|here|)
    ensures !(here <= Pass2(PieceStep(st, p), fs).text)
  {
    AlteredHasStar(p);
    hide Pass2, Pass2Step, Find, IsPlaceholder;
    FoundElsewhere(st, here, p, rest, fs);
  }

  lemma NothingToRestore(tb: Table)
    ensures Half([], tb) == "" && Restored([], tb) == "" && FiledForms([]) == 0
  {}

  lemma RestoredCons(ps: seq<Piece>, tb: Table, a: string, tail: string)
    requires ps != []
    ensures a + Restored(ps, tb) + tail == a + ps[0].gap + Value(ps[0], tb) + Restored(ps[1..], tb) + tail
  {
    var x, rest := Value(ps[0], tb), Restored(ps[1..], tb);
    assert Restored(ps, tb) == ps[0].gap + x + rest;
    hide Value, Restored;
    FourParts(a, ps[0].gap, x, rest);
  }

  lemma FourParts(a: string, b: string, c: string, d: string)
    ensures a + (b + c + d) == a + b + c + d
  {}

  lemma NoForms()
    ensures Forms(EntriesOf([])) == []
  {}

  lemma FiledFormsCons(ps: seq<Piece>)
    requires ps != []
    ensures FiledForms(ps) == FiledForms([ps[0]]) + FiledForms(ps[1..])
  {
    assert [ps[0]][1..] == [];
  }

  // ----- stars only behind the masks -----

  /** No star stands before a mask that the second pass has to find, neither in a gap nor in
      what comes back. */
  ghost predicate StarsLate(ps: seq<Piece>, tb: Table) {
    forall i, j | 0 <= j <= i < |ps| && Filed(ps[i]) ::
      '*' !in ps[j].gap && (j < i ==> '*' !in Value(ps[j], tb))
  }

  lemma StarsLateTail(ps: seq<Piece>, tb: Table)
    requires ps != [] && StarsLate(ps, tb)
    ensures StarsLate(ps[1..], tb)
    ensures Filed(ps[0]) || !NoneFiled(ps[1..]) ==> '*' !in ps[0].gap
    ensures !NoneFiled(ps[1..]) ==> '*' !in Value(ps[0], tb)
  {
    hide IsPlaceholder, Value;
    var rest := ps[1..];
    assert forall i | 0 <= i < |rest| :: rest[i] == ps[i + 1];
  }

  lemma StarlessFindsOwn(here: string, m: string, rest: string, from: nat)
    requires from <= |here| && '*' !in here[from..] && '*' in m
    ensures Find(here + m + rest, m, from) == Some(|here|)
  {
    var s := here + m + rest;
    assert OccursAt(s, m, |here|);
    assert forall i | from <= i < |here| :: s[i] == here[from..][i - from];
    hide OccursAt;
    FindOwnPlace(s, m, from, |here|);
  }

  lemma SuffixStarless(s: string, from: nat, later: nat)
    requires from <= later <= |s| && '*' !in s[from..]
    ensures '*' !in s[later..]
  {
    assert s[later..] == s[from..][later - from..];
  }

  /** Without a star before it every partial mask is found at its own place. */
  lemma {:induction false} StarsLateAtHome(from: nat, done: string, ps: seq<Piece>, tail: string, tb: Table)
    requires PartialsOnly(ps) && StarsLate(ps, tb) && Silent(done, ps, tail, tb)
    requires from <= |done| && (NoneFiled(ps) || '*' !in done[from..])
    ensures AtHome(from, done, ps, tail, tb)
    decreases |ps|
  {
    hide Value, IsPlaceholder, IsPartial, PieceStep, Half, Absent, Find, StarsLate;
    if ps != [] {
      var p := ps[0];
      var here, rest := done + p.gap, Half(ps[1..], tb) + tail;
      var next, st := here + Value(p, tb), Edited(TextAt(done, ps, tail, tb), from, 0);
      StarsLateTail(ps, tb);
      assert here[from..] == done[from..] + p.gap && next[from..] == here[from..] + Value(p, tb);
      if Altered(p) {
        AlteredHasStar(p);
        StarlessFindsOwn(here, p.out.replacement, rest, from);
      }
      RestorePiece(st, done, p, rest, tb);
      var later := PieceStep(st, p).from;
      PieceStepGrows(st, p);
      if !NoneFiled(ps[1..]) { SuffixStarless(next, from, later); }
      StarsLateAtHome(later, next, ps[1..], tail, tb);
    }
  }

  lemma PieceStepGrows(st: Edited, p: Piece)
    requires st.from <= |st.text|
    ensures st.from <= PieceStep(st, p).from
  {
    hide Pass2Step;
    StepKeepsBefore(st, Form(p.out.replacement, p.original));
  }

  // ----- texts in which no placeholder can be found -----

  ghost predicate BracketFree(ps: seq<Piece>, tb: Table) {
    forall i | 0 <= i < |ps| ::
      '[' !in ps[i].gap && '[' !in Value(ps[i], tb) && (!IsPlaceholder(ps[i]) ==> '[' !in ps[i].out.replacement)
  }

  lemma PlaceholderStarts(p: Piece)
    requires IsPlaceholder(p)
    ensures p.out.replacement != "" && p.out.replacement[0] == '['
  {}

  lemma {:induction false} HalfBracketFree(ps: seq<Piece>, tb: Table)
    requires BracketFree(ps, tb)
    ensures '[' !in Half(ps, tb)
    decreases |ps|
  {
    hide IsPlaceholder, Value;
    if ps != [] { HalfBracketFree(ps[1..], tb); }
  }

  /** Without an opening square bracket outside the placeholders none is ever found. */
  lemma {:induction false} BracketFreeSilent(done: string, ps: seq<Piece>, tail: string, tb: Table)
    requires BracketFree(ps, tb) && '[' !in done && '[' !in tail
    ensures Silent(done, ps, tail, tb)
    decreases |ps|
  {
    hide IsPlaceholder, Value, Half, Absent;
    if ps != [] {
      var p := ps[0];
      var next := done + p.gap + Value(p, tb);
      assert '[' !in next;
      HalfBracketFree(ps[1..], tb);
      BracketFreeSilent(next, ps[1..], tail, tb);
      if IsPlaceholder(p) {
        PlaceholderStarts(p);
        NoBracketAbsent(next + (Half(ps[1..], tb) + tail), p.out.replacement);
      }
    }
  }
}
