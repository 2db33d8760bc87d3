/** Demasking a masked line under a mapping that need not be its own, as happens when several
    strings are masked under one session. */
module SharedMapping {
  import opened Text
  import opened Scanner
  import opened Pipeline
  import opened Demask
  import opened RoundTrip
  import opened Lines
  import opened Interlacing
  import opened Inversion

  /** The table has an original for the piece's key. */
  predicate KeyKnown(q: Piece, tb: Table) { q.out.key.Some? && q.out.key.value in tb }

  /** What a mask turns into: a placeholder into the original filed under its key, if there
      is one; anything else stays. */
  ghost function Answer(q: Piece, tb: Table): string {
    if IsPlaceholder(q) && KeyKnown(q, tb) then tb[q.out.key.value] else q.out.replacement
  }

  ghost function Answers(ps: seq<Piece>, tb: Table): (r: seq<string>)
    ensures |r| == |ps|
  { seq(|ps|, i requires 0 <= i < |ps| => Answer(ps[i], tb)) }

  ghost function AnsweredText(ps: seq<Piece>, tb: Table): string { Interlaced(Gaps(ps), Answers(ps, tb)) }

  /** Placeholders whose key the table has. */
  ghost function KnownKeys(ps: seq<Piece>, tb: Table): nat {
    if ps == [] then 0 else (if IsPlaceholder(ps[0]) && KeyKnown(ps[0], tb) then 1 else 0) + KnownKeys(ps[1..], tb)
  }

  lemma AnsweredCons(ps: seq<Piece>, tb: Table, a: string, tail: string)
    requires ps != []
    ensures a + AnsweredText(ps, tb) + tail == a + ps[0].gap + Answer(ps[0], tb) + (AnsweredText(ps[1..], tb) + tail)
  {
    hide Answer;
    assert Gaps(ps)[1..] == Gaps(ps[1..]) && Answers(ps, tb)[1..] == Answers(ps[1..], tb);
    FiveParts(a, ps[0].gap, Answer(ps[0], tb), AnsweredText(ps[1..], tb), tail);
  }

  lemma FiveParts(a: string, b: string, c: string, d: string, e: string)
    ensures a + (b + c + d) + e == a + b + c + (d + e)
  {}

  // ----- first pass -----

  lemma PassAnswer(k: Classes, a: string, p: Piece, rest: string, tb: Table)
    requires IsPlaceholder(p)
    ensures var n := if KeyKnown(p, tb) then 1 else 0;
      Pass1(k, a + p.gap + p.out.replacement + rest, 0, tb) ==
        Pass1(k, a + p.gap, 0, tb).Then(DemaskResult(Answer(p, tb), n, 1 - n).Then(Pass1(k, rest, 0, tb)))
  {
    hide Pass1, IsLabel, All, Bracketed, Decimal;
    var tag, n :| IsPlaceholderOf(p, tag, n);
    DecimalDigits(k, n);
    assert a + p.gap + (Bracketed(tag, Decimal(n)) + rest) == a + p.gap + p.out.replacement + rest;
    if KeyKnown(p, tb) {
      Pass1Around(k, a + p.gap, tag, Decimal(n), rest, tb);
    } else {
      Pass1AroundUnknown(k, a + p.gap, tag, Decimal(n), rest, tb);
    }
  }

  /** Under any table the first pass restores the placeholders whose keys are known, and the
      known keys outside placeholders; if there are none of these, all else stays. */
  ghost predicate Passes(r: DemaskResult, known: nat, outside: nat, text: string) {
    r.restored == known + outside && (outside == 0 ==> r.text == text)
  }

  lemma PassesEnd(k: Classes, s: string, tb: Table)
    ensures Passes(Pass1(k, s, 0, tb), 0, KnownIn(k, [s], tb), s)
  {
    hide Pass1, Hits, Known;
    Pass1Counts(k, s, 0, tb);
    assert [s][1..] == [];
    if Pass1(k, s, 0, tb).restored == 0 { Pass1Verbatim(k, s, 0, tb); }
  }

  lemma PassesCons(k: Classes, a: string, p: Piece, rest: string, n: nat, ss: seq<string>, text: string, tb: Table)
    requires IsPlaceholder(p) && Passes(Pass1(k, rest, 0, tb), n, KnownIn(k, ss, tb), text)
    ensures Passes(Pass1(k, a + p.gap + p.out.replacement + rest, 0, tb), KnownKeys([p], tb) + n,
                   KnownIn(k, [a + p.gap] + ss, tb), a + p.gap + Answer(p, tb) + text)
  {
    hide Pass1, Hits, Known, IsPlaceholder, Answer;
    PassAnswer(k, a, p, rest, tb);
    Pass1Counts(k, a + p.gap, 0, tb);
    assert ([a + p.gap] + ss)[1..] == ss && [p][1..] == [];
    if Pass1(k, a + p.gap, 0, tb).restored == 0 { Pass1Verbatim(k, a + p.gap, 0, tb); }
    assert a + p.gap + (Answer(p, tb) + text) == a + p.gap + Answer(p, tb) + text;
  }

  lemma {:induction false} FirstPassAny(k: Classes, a: string, ps: seq<Piece>, tail: string, tb: Table)
    ensures Passes(Pass1(k, a + MaskedText(ps) + tail, 0, tb), KnownKeys(ps, tb),
                   KnownIn(k, Stretches(a, ps, tail), tb), a + AnsweredText(ps, tb) + tail)
    decreases |ps|
  {
    hide Pass1, KnownIn, IsPlaceholder, MaskedText, Passes, AnsweredText;
    if ps == [] {
      MaskedTextNil();
      NothingAnswered(tb);
      assert a + "" + tail == a + tail;
      PassesEnd(k, a + tail, tb);
    } else {
      var p := ps[0];
      MaskedCons(ps, a, tail);
      AnsweredCons(ps, tb, a, tail);
      if IsPlaceholder(p) {
        FirstPassAny(k, "", ps[1..], tail, tb);
        assert "" + MaskedText(ps[1..]) == MaskedText(ps[1..]);
        assert "" + AnsweredText(ps[1..], tb) == AnsweredText(ps[1..], tb);
        PassesCons(k, a, p, MaskedText(ps[1..]) + tail, KnownKeys(ps[1..], tb), Stretches("", ps[1..], tail),
          AnsweredText(ps[1..], tb) + tail, tb);
        assert [p][1..] == [];
      } else {
        var b := a + p.gap + p.out.replacement;
        FirstPassAny(k, b, ps[1..], tail, tb);
        assert b + MaskedText(ps[1..]) + tail == b + (MaskedText(ps[1..]) + tail);
        assert b + AnsweredText(ps[1..], tb) + tail == b + (AnsweredText(ps[1..], tb) + tail);
      }
    }
  }

  lemma NothingAnswered(tb: Table)
    ensures AnsweredText([], tb) == ""
  {}

  // ----- second pass -----

  /** Forms that occur nowhere change nothing. */
  lemma {:induction false} Pass2Nothing(st: Edited, fs: seq<Form>)
    requires st.from <= |st.text| && forall i | 0 <= i < |fs| :: Absent(st.text, fs[i].masked)
    ensures Pass2(st, fs) == st
    decreases |fs|
  {
    hide Pass2Step, Absent;
    if fs != [] {
      SkipAbsent(st, fs[0]);
      Pass2Nothing(st, fs[1..]);
    }
  }

  /** A placeholder has its opening bracket first and its closing bracket last only. */
  lemma BracketsOutermost(tag: string, n: nat)
    requires IsLabel(tag)
    ensures var m := Bracketed(tag, Decimal(n));
      && (forall i | 0 < i < |m| :: m[i] != '[') && (forall i | 0 <= i < |m| - 1 :: m[i] != ']')
      && m != "" && m[0] == '[' && m[|m| - 1] == ']' && m[1..|m| - 1] == tag + "_" + Decimal(n)
  {
    hide Decimal;
    var m := Bracketed(tag, Decimal(n));
    forall i | 0 < i < |m| - 1 ensures m[i] != '[' && m[i] != ']' {
      if i <= |tag| { assert m[i] == tag[i - 1]; }
      else if i > |tag| + 1 { assert m[i] == Decimal(n)[i - |tag| - 2] && AsciiDigit(m[i]); }
    }
    assert m[1..|m| - 1] == tag + "_" + Decimal(n);
  }

  /** Two placeholders that begin at one place are the same. */
  lemma SameBegin(x: string, rest: string, m: string)
    requires |x| > 0 && |m| > 0 && x[|x| - 1] == ']' && m[|m| - 1] == ']'
    requires (forall i | 0 <= i < |x| - 1 :: x[i] != ']') && (forall i | 0 <= i < |m| - 1 :: m[i] != ']')
    requires OccursAt(x + rest, m, 0)
    ensures x == m
  {
    Occurrence(x + rest, m, 0);
    assert (x + rest)[0 + (|m| - 1)] == m[|m| - 1];
    assert |x| <= |m| ==> (x + rest)[0 + (|x| - 1)] == m[|x| - 1];
    assert (x + rest)[..|x|] == x;
  }

  lemma OccursInRest(a: string, rest: string, m: string, j: nat)
    requires OccursAt(a + rest, m, j) && |a| <= j
    ensures OccursAt(rest, m, j - |a|)
  {
    assert (a + rest)[j..j + |m|] == rest[j - |a|..j - |a| + |m|];
  }

  lemma FirstChar(s: string, m: string, j: nat)
    requires m != "" && OccursAt(s, m, j)
    ensures j < |s| && s[j] == m[0]
  {
    Occurrence(s, m, j);
    assert s[j + 0] == m[0];
  }

  /** Behind a text without brackets and another placeholder, `m` occurs only later. */
  lemma NotBefore(b: string, x: string, rest: string, m: string)
    requires '[' !in b && m != "" && m[0] == '[' && Absent(rest, m)
    requires forall i | 0 < i < |x| :: x[i] != '['
    requires x != "" ==> !OccursAt(x + rest, m, 0)
    ensures Absent(b + x + rest, m)
  {
    var s := b + x + rest;
    assert s == b + (x + rest);
    forall j: nat ensures !OccursAt(s, m, j) {
      assert j < |b| ==> s[j] == b[j];
      assert |b| <= j < |b| + |x| ==> s[j] == x[j - |b|];
      if OccursAt(s, m, j) {
        FirstChar(s, m, j);
        if j >= |b| + |x| {
          OccursInRest(b + x, rest, m, j);
        } else if j >= |b| {
          OccursInRest(b, x + rest, m, j);
        }
      }
    }
  }

  ghost predicate Unanswered(q: Piece, tb: Table) { IsPlaceholder(q) && !KeyKnown(q, tb) }

  /** No opening square bracket but those of unknown placeholders. */
  ghost predicate BracketFreeGaps(ps: seq<Piece>, tb: Table) {
    forall i | 0 <= i < |ps| ::
      '[' !in ps[i].gap && (Unanswered(ps[i], tb) || '[' !in Answer(ps[i], tb))
  }

  /** What the first pass leaves holds no placeholder whose key is known. */
  lemma {:induction false} AnsweredHoldsNone(
    a: string, ps: seq<Piece>, tail: string, tb: Table, tag: string, n: nat)
    requires BracketFreeGaps(ps, tb) && '[' !in a && '[' !in tail
    requires IsLabel(tag) && tag + "_" + Decimal(n) in tb
    ensures Absent(a + AnsweredText(ps, tb) + tail, Bracketed(tag, Decimal(n)))
    decreases |ps|
  {
    hide IsPlaceholder, Answer, AnsweredText, Absent, Bracketed, Decimal, IsLabel, KeyKnown;
    var m := Bracketed(tag, Decimal(n));
    BracketsOutermost(tag, n);
    if ps == [] {
      NothingAnswered(tb);
      NoBracketAbsent(a + "" + tail, m);
    } else {
      var p := ps[0];
      var x, rest := Answer(p, tb), AnsweredText(ps[1..], tb) + tail;
      AnsweredCons(ps, tb, a, tail);
      if '[' !in x {
        AnsweredHoldsNone(a + p.gap + x, ps[1..], tail, tb, tag, n);
        assert a + p.gap + x + AnsweredText(ps[1..], tb) + tail == a + p.gap + x + rest;
      } else {
        AnsweredHoldsNone("", ps[1..], tail, tb, tag, n);
        assert "" + AnsweredText(ps[1..], tb) + tail == rest;
        UnknownStays(p, tb, rest, tag, n);
        NotBefore(a + p.gap, x, rest, m);
      }
    }
  }

  lemma UnknownStays(p: Piece, tb: Table, rest: string, tag: string, n: nat)
    requires IsPlaceholder(p) && !KeyKnown(p, tb) && IsLabel(tag) && tag + "_" + Decimal(n) in tb
    ensures var x := Answer(p, tb);
      && (forall i | 0 < i < |x| :: x[i] != '[') && !OccursAt(x + rest, Bracketed(tag, Decimal(n)), 0)
  {
    hide Bracketed, Decimal, IsLabel, OccursAt;
    var tag', n' :| IsPlaceholderOf(p, tag', n');
    BracketsOutermost(tag, n);
    BracketsOutermost(tag', n');
    var x := Answer(p, tb);
    if OccursAt(x + rest, Bracketed(tag, Decimal(n)), 0) {
      SameBegin(x, rest, Bracketed(tag, Decimal(n)));
    }
  }

  // ----- the mapping of another line -----

  lemma {:induction false} FormsCons(ps: seq<Piece>)
    requires ps != []
    ensures var q := ps[0];
      var own := if q.out.key.Some? && q.out.replacement != "" then [Form(q.out.replacement, q.original)] else [];
      Forms(EntriesOf(ps)) == own + Forms(EntriesOf(ps[1..]))
  {
    var es := EntryOf(ps[0]) + EntriesOf(ps[1..]);
    if ps[0].out.key.None? {
      assert es == EntriesOf(ps[1..]);
    } else {
      assert es[1..] == EntriesOf(ps[1..]);
    }
  }

  /** The form of some placeholder whose key is in the table, or of some other mask. */
  ghost predicate FormFiled(ps: seq<Piece>, m: string, tb: Table) {
    || (exists tag, n :: IsLabel(tag) && tag + "_" + Decimal(n) in tb && m == Bracketed(tag, Decimal(n)))
    || (m != "" && exists i :: 0 <= i < |ps| && Filed(ps[i]) && m == ps[i].out.replacement)
  }

  lemma FormOfPiece(ps: seq<Piece>, tb: Table)
    requires ps != [] && ps[0].out.key.Some? && ps[0].out.replacement != ""
    requires IsPlaceholder(ps[0]) ==> KeyKnown(ps[0], tb)
    ensures FormFiled(ps, ps[0].out.replacement, tb)
  {
    hide IsLabel, Decimal, Bracketed;
    if IsPlaceholder(ps[0]) {
      var tag, n :| IsPlaceholderOf(ps[0], tag, n);
      assert tag + "_" + Decimal(n) in tb;
    }
  }

  lemma FormLater(ps: seq<Piece>, m: string, tb: Table)
    requires ps != [] && FormFiled(ps[1..], m, tb)
    ensures FormFiled(ps, m, tb)
  {
    hide IsPlaceholder, Bracketed, Decimal, IsLabel;
    if m != "" && exists i :: 0 <= i < |ps[1..]| && Filed(ps[1..][i]) && m == ps[1..][i].out.replacement {
      var i :| 0 <= i < |ps[1..]| && Filed(ps[1..][i]) && m == ps[1..][i].out.replacement;
      assert ps[1..][i] == ps[i + 1];
    }
  }

  /** The forms that a line files. */
  lemma {:induction false} FormsFiled(ps: seq<Piece>, tb: Table, i: nat)
    requires forall j | 0 <= j < |ps| && IsPlaceholder(ps[j]) :: KeyKnown(ps[j], tb)
    requires i < |Forms(EntriesOf(ps))|
    ensures FormFiled(ps, Forms(EntriesOf(ps))[i].masked, tb)
    decreases |ps|
  {
    hide IsPlaceholder, FormFiled, KeyKnown;
    if ps != [] {
      FormsCons(ps);
      var q := ps[0];
      if q.out.key.Some? && q.out.replacement != "" {
        FormOfPiece(ps, tb);
        if i > 0 {
          FormsFiled(ps[1..], tb, i - 1);
          FormLater(ps, Forms(EntriesOf(ps))[i].masked, tb);
        }
      } else {
        FormsFiled(ps[1..], tb, i);
        FormLater(ps, Forms(EntriesOf(ps))[i].masked, tb);
      }
    }
  }

  lemma OwnKeysKnown(ps: seq<Piece>)
    ensures forall j | 0 <= j < |ps| && IsPlaceholder(ps[j]) :: KeyKnown(ps[j], TableOf(EntriesOf(ps)))
  {
    hide EntriesOf, TableOf, IsPlaceholder;
    KeysAreIn(ps);
    forall j | 0 <= j < |ps| && IsPlaceholder(ps[j]) ensures ps[j].out.key.Some? { PlaceholderKeyed(ps[j]); }
  }

  /** No opening square bracket in what can come back, nor in a mask besides placeholders. */
  ghost predicate BracketFreeLine(s: Spliced) {
    '[' !in ShownLine(s) && forall i | 0 <= i < |s.pieces| && Filed(s.pieces[i]) :: '[' !in s.pieces[i].out.replacement
  }

  /** With partial masks only, the line itself tells. */
  lemma PartialsBracketFree(s: Spliced)
    requires PartialsOnly(s.pieces) && '[' !in ShownLine(s)
    ensures BracketFreeLine(s)
  {
    hide ShownText, Shown, IsPlaceholder;
    PartsFree('[', s.pieces, s.tail);
    forall i | 0 <= i < |s.pieces| && Filed(s.pieces[i]) ensures '[' !in s.pieces[i].out.replacement {
      assert IsPartial(s.pieces[i]) && '[' !in Shown(s.pieces[i]);
      MaskBracketFree(s.pieces[i]);
    }
  }

  lemma RecordsBracketFree(ps: seq<Piece>, tail: string)
    requires '[' !in ShownText(ps) + tail
    ensures forall e <- EntriesOf(ps) :: '[' !in e.original
  {
    hide ShownText, EntriesOf;
    PartsFree('[', ps, tail);
    forall i | 0 <= i < |ps| && ps[i].out.key.Some? ensures '[' !in ps[i].original { assert '[' !in Shown(ps[i]); }
    EntriesFree('[', ps);
  }

  lemma AnswersBracketFree(s: Spliced, es: seq<Entry>)
    requires BracketFreeLine(s) && forall e <- es :: '[' !in e.original
    ensures BracketFreeGaps(s.pieces, TableOf(es)) && '[' !in s.tail
  {
    hide ShownText, TableOf, IsPlaceholder;
    PartsFree('[', s.pieces, s.tail);
    forall i | 0 <= i < |s.pieces|
      ensures '[' !in s.pieces[i].gap
      ensures Unanswered(s.pieces[i], TableOf(es)) || '[' !in Answer(s.pieces[i], TableOf(es))
    {
      var q := s.pieces[i];
      assert '[' !in Shown(q);
      if IsPlaceholder(q) && KeyKnown(q, TableOf(es)) { TableFree('[', es, q.out.key.value); }
    }
  }

  /** No stretch outside the placeholders of `s` has a match with a key of `tb`. */
  ghost predicate NoForeignKey(k: Classes, s: Spliced, tb: Table) {
    KnownIn(k, Stretches("", s.pieces, s.tail), tb) == 0
  }

  /** None of the masks that `ps` files besides placeholders occurs in the text. */
  ghost predicate NoForeignMask(text: string, ps: seq<Piece>) {
    forall i | 0 <= i < |ps| && Filed(ps[i]) :: ps[i].out.replacement != "" ==> Absent(text, ps[i].out.replacement)
  }

  lemma StretchesCons(a: string, ps: seq<Piece>, tail: string)
    requires ps != [] && IsPlaceholder(ps[0])
    ensures Stretches(a, ps, tail) == [a + ps[0].gap] + Stretches("", ps[1..], tail)
    ensures Stretches("", [], tail) == ["" + tail]
  {}

  lemma FiledAbsent(s1: Spliced, ps2: seq<Piece>, tb: Table, m: string)
    requires BracketFreeGaps(s1.pieces, tb) && '[' !in s1.tail && FormFiled(ps2, m, tb)
    requires NoForeignMask(AnsweredText(s1.pieces, tb) + s1.tail, ps2)
    ensures Absent(AnsweredText(s1.pieces, tb) + s1.tail, m)
  {
    hide IsLabel, Decimal, Bracketed, AnsweredText, Absent, IsPlaceholder, BracketFreeGaps;
    if exists tag, n :: IsLabel(tag) && tag + "_" + Decimal(n) in tb && m == Bracketed(tag, Decimal(n)) {
      var tag, n :| IsLabel(tag) && tag + "_" + Decimal(n) in tb && m == Bracketed(tag, Decimal(n));
      AnsweredHoldsNone("", s1.pieces, s1.tail, tb, tag, n);
      assert "" + AnsweredText(s1.pieces, tb) == AnsweredText(s1.pieces, tb);
    }
  }

  /** A masked line under the mapping of any other line, or of its own: each placeholder
      becomes what that mapping holds under its key, or stays; all else stays. Both lines may
      hold masks of any kind. */
  lemma OtherLineDemasked(k: Classes, s1: Spliced, text2: string, s2: Spliced)
    requires BracketFreeLine(s1) && BracketFreeLine(s2)
    requires var tb := TableOf(EntriesOf(s2.pieces));
      NoForeignKey(k, s1, tb) && NoForeignMask(AnsweredText(s1.pieces, tb) + s1.tail, s2.pieces)
    ensures var tb := TableOf(EntriesOf(s2.pieces));
      var r := Demasked(k, MaskedText(s1.pieces) + s1.tail, MappingOf(text2, s2));
      && r.text == AnsweredText(s1.pieces, tb) + s1.tail
      && r.restored == KnownKeys(s1.pieces, tb)
  {
    hide Pass1, Pass2, Forms, EntriesOf, TableOf, MaskedText, ShownText, AnsweredText, KnownIn, Stretches, KnownKeys,
      Absent, NoForeignMask, FormFiled, BracketFreeGaps, KeyKnown, IsPlaceholder;
    var ps, es := s1.pieces, EntriesOf(s2.pieces);
    var tb, fs := TableOf(es), Forms(es);
    RecordsBracketFree(s2.pieces, s2.tail);
    FirstPassAny(k, "", ps, s1.tail, tb);
    assert "" + MaskedText(ps) == MaskedText(ps) && "" + AnsweredText(ps, tb) == AnsweredText(ps, tb);
    var first := AnsweredText(ps, tb) + s1.tail;
    AnswersBracketFree(s1, es);
    OwnKeysKnown(s2.pieces);
    forall i | 0 <= i < |fs| ensures Absent(first, fs[i].masked) {
      FormsFiled(s2.pieces, tb, i);
      FiledAbsent(s1, s2.pieces, tb, fs[i].masked);
    }
    Pass2Nothing(Edited(first, 0, 0), fs);
  }

  /** The line with its placeholders as their values, and all other masks as they are. */
  ghost function Plain(q: Piece): string { if IsPlaceholder(q) then q.original else q.out.replacement }

  ghost function Plains(ps: seq<Piece>): (r: seq<string>)
    ensures |r| == |ps|
  { seq(|ps|, i requires 0 <= i < |ps| => Plain(ps[i])) }

  ghost function PlainLine(s: Spliced): string { Interlaced(Gaps(s.pieces), Plains(s.pieces)) + s.tail }

  /** If nothing else is recorded, that is all that can come back. */
  lemma PlainIsShown(s: Spliced)
    requires NoneFiled(s.pieces)
    ensures PlainLine(s) == ShownLine(s)
  {
    ShownInterlaced(s.pieces);
    hide IsPlaceholder, ShownText, Interlaced;
    forall i | 0 <= i < |s.pieces| ensures Plain(s.pieces[i]) == Shown(s.pieces[i]) {
      if IsPlaceholder(s.pieces[i]) { PlaceholderKeyed(s.pieces[i]); }
    }
    assert Plains(s.pieces) == ShownValues(s.pieces);
  }

  /** Every placeholder of the line has its key in the table, with the same original. */
  ghost predicate FiledAlike(ps: seq<Piece>, tb: Table) {
    forall i | 0 <= i < |ps| && IsPlaceholder(ps[i]) :: KeyKnown(ps[i], tb) && tb[ps[i].out.key.value] == ps[i].original
  }

  ghost predicate AllKnown(ps: seq<Piece>, tb: Table) {
    forall i | 0 <= i < |ps| && IsPlaceholder(ps[i]) :: KeyKnown(ps[i], tb)
  }

  lemma {:induction false} InterlacedHolds(gaps: seq<string>, xs: seq<string>, i: nat, c: char)
    requires |gaps| == |xs| && i < |xs| && c in xs[i]
    ensures c in Interlaced(gaps, xs)
    decreases |xs|
  {
    if i > 0 { InterlacedHolds(gaps[1..], xs[1..], i - 1, c); }
  }

  lemma {:induction false} InterlacedFree(gaps: seq<string>, xs: seq<string>, c: char)
    requires |gaps| == |xs| && forall i | 0 <= i < |xs| :: c !in gaps[i] && c !in xs[i]
    ensures c !in Interlaced(gaps, xs)
    decreases |xs|
  {
    if xs != [] { InterlacedFree(gaps[1..], xs[1..], c); }
  }

  /** An unknown placeholder leaves its bracket in the text. */
  lemma UnknownLeavesBracket(s: Spliced, tb: Table, i: nat)
    requires i < |s.pieces| && IsPlaceholder(s.pieces[i]) && !KeyKnown(s.pieces[i], tb)
    ensures '[' in AnsweredText(s.pieces, tb) + s.tail
  {
    PlaceholderStarts(s.pieces[i]);
    hide IsPlaceholder, KeyKnown, Interlaced;
    assert Answer(s.pieces[i], tb)[0] == '[';
    InterlacedHolds(Gaps(s.pieces), Answers(s.pieces, tb), i, '[');
  }

  lemma PlainBracketFree(s: Spliced)
    requires BracketFreeLine(s)
    ensures '[' !in PlainLine(s)
  {
    hide IsPlaceholder, ShownText, Interlaced;
    PartsFree('[', s.pieces, s.tail);
    forall i | 0 <= i < |s.pieces| ensures '[' !in Gaps(s.pieces)[i] && '[' !in Plains(s.pieces)[i] {
      assert '[' !in Shown(s.pieces[i]);
      if IsPlaceholder(s.pieces[i]) { PlaceholderKeyed(s.pieces[i]); }
    }
    InterlacedFree(Gaps(s.pieces), Plains(s.pieces), '[');
  }

  lemma AlikeAnswers(ps: seq<Piece>, tb: Table)
    requires AllKnown(ps, tb)
    ensures Answers(ps, tb) == Plains(ps) <==> FiledAlike(ps, tb)
  {
    hide IsPlaceholder;
    if Answers(ps, tb) == Plains(ps) {
      forall i | 0 <= i < |ps| && IsPlaceholder(ps[i])
        ensures KeyKnown(ps[i], tb) && tb[ps[i].out.key.value] == ps[i].original
      {
        assert Answers(ps, tb)[i] == Plains(ps)[i];
      }
    }
    if FiledAlike(ps, tb) {
      forall i | 0 <= i < |ps| ensures Answer(ps[i], tb) == Plain(ps[i]) {}
    }
  }

  /** All placeholder values come back iff each key is in that mapping with the same original,
      wherever one can see the ends of the values. If some key is missing they never do, and
      if all are there and alike they always do. */
  lemma OtherLineIff(k: Classes, s1: Spliced, text2: string, s2: Spliced)
    requires BracketFreeLine(s1) && BracketFreeLine(s2)
    requires var tb := TableOf(EntriesOf(s2.pieces));
      NoForeignKey(k, s1, tb) && NoForeignMask(AnsweredText(s1.pieces, tb) + s1.tail, s2.pieces)
    ensures var tb := TableOf(EntriesOf(s2.pieces));
      var back := Demasked(k, MaskedText(s1.pieces) + s1.tail, MappingOf(text2, s2)).text;
      && (FiledAlike(s1.pieces, tb) ==> back == PlainLine(s1))
      && (back == PlainLine(s1) ==> AllKnown(s1.pieces, tb))
      && (EndsSeen(Gaps(s1.pieces), Answers(s1.pieces, tb), Plains(s1.pieces), s1.tail) ==>
            (back == PlainLine(s1) <==> FiledAlike(s1.pieces, tb)))
  {
    hide TableOf, EntriesOf, Demasked, MaskedText, BracketFreeLine, NoForeignKey, NoForeignMask, KeyKnown, EndsSeen,
      Gaps, Answers, Plains, IsPlaceholder;
    var ps, tb := s1.pieces, TableOf(EntriesOf(s2.pieces));
    OtherLineDemasked(k, s1, text2, s2);
    PlainBracketFree(s1);
    if AnsweredText(ps, tb) + s1.tail == PlainLine(s1) {
      forall i | 0 <= i < |ps| && IsPlaceholder(ps[i]) ensures KeyKnown(ps[i], tb) {
        if !KeyKnown(ps[i], tb) { UnknownLeavesBracket(s1, tb, i); }
      }
      AlikeAnswers(ps, tb);
      if EndsSeen(Gaps(ps), Answers(ps, tb), Plains(ps), s1.tail) {
        InterlacedTells(Gaps(ps), Answers(ps, tb), Plains(ps), s1.tail);
      }
    }
    if FiledAlike(ps, tb) { AlikeAnswers(ps, tb); }
  }

  // ----- how many are restored -----

  lemma {:induction false} Pass1BracketFree(k: Classes, s: string, i: nat, tb: Table)
    requires i <= |s| && '[' !in s && forall key <- tb :: '[' !in tb[key]
    ensures '[' !in Pass1(k, s, i, tb).text
    decreases |s| - i
  {
    hide MatchAt, Cuts.Key;
    if i < |s| { Pass1BracketFree(k, s, NextPos(k, s, i), tb); }
  }

  lemma {:induction false} FirstPassBracketFree(k: Classes, a: string, ps: seq<Piece>, tail: string, tb: Table)
    requires AllKnown(ps, tb) && BracketFreeGaps(ps, tb) && forall key <- tb :: '[' !in tb[key]
    requires '[' !in a && '[' !in tail
    ensures '[' !in Pass1(k, a + MaskedText(ps) + tail, 0, tb).text
    decreases |ps|
  {
    hide Pass1, IsPlaceholder, MaskedText;
    if ps == [] {
      MaskedTextNil();
      assert a + "" + tail == a + tail;
      Pass1BracketFree(k, a + tail, 0, tb);
    } else {
      var p := ps[0];
      MaskedCons(ps, a, tail);
      if IsPlaceholder(p) {
        FirstPassBracketFree(k, "", ps[1..], tail, tb);
        assert "" + MaskedText(ps[1..]) == MaskedText(ps[1..]);
        PassAnswer(k, a, p, MaskedText(ps[1..]) + tail, tb);
        Pass1BracketFree(k, a + p.gap, 0, tb);
      } else {
        var b := a + p.gap + p.out.replacement;
        FirstPassBracketFree(k, b, ps[1..], tail, tb);
        assert b + MaskedText(ps[1..]) + tail == b + (MaskedText(ps[1..]) + tail);
      }
    }
  }

  lemma {:induction false} OneRecordEach(ps: seq<Piece>)
    requires NoneFiled(ps)
    ensures |EntriesOf(ps)| == Placeholders(ps)
    decreases |ps|
  {
    hide IsPlaceholder;
    if ps != [] {
      if IsPlaceholder(ps[0]) { PlaceholderKeyed(ps[0]); }
      assert !Filed(ps[0]);
      OneRecordEach(ps[1..]);
    }
  }

  /** On a line that records placeholders only and holds no opening square bracket the second
      pass has nothing to do, accidental keys or not. */
  lemma FirstPassOnly(k: Classes, text: string, s: Spliced)
    requires NoneFiled(s.pieces) && '[' !in ShownLine(s)
    ensures var m := MappingOf(text, s);
      Demasked(k, m.masked, m) == Pass1(k, m.masked, 0, TableOf(m.entries))
  {
    hide Pass1, Pass2, Forms, EntriesOf, TableOf, MaskedText, ShownText, Absent, KeyKnown, IsPlaceholder, FormFiled,
      BracketFreeGaps;
    var ps, es := s.pieces, EntriesOf(s.pieces);
    var tb, fs := TableOf(es), Forms(es);
    assert BracketFreeLine(s);
    RecordsBracketFree(ps, s.tail);
    AnswersBracketFree(s, es);
    OwnKeysKnown(ps);
    forall key <- tb ensures '[' !in tb[key] { TableFree('[', es, key); }
    FirstPassBracketFree(k, "", ps, s.tail, tb);
    assert "" + MaskedText(ps) == MaskedText(ps);
    var first := Pass1(k, MaskedText(ps) + s.tail, 0, tb).text;
    forall i | 0 <= i < |fs| ensures Absent(first, fs[i].masked) {
      FormsFiled(ps, tb, i);
      FormBracketed(ps, fs[i].masked, tb);
      NoBracketAbsent(first, fs[i].masked);
    }
    Pass2Nothing(Edited(first, 0, 0), fs);
  }

  lemma FormBracketed(ps: seq<Piece>, m: string, tb: Table)
    requires NoneFiled(ps) && FormFiled(ps, m, tb)
    ensures m != "" && m[0] == '['
  {
    hide IsPlaceholder;
    var tag, n :| IsLabel(tag) && tag + "_" + Decimal(n) in tb && m == Bracketed(tag, Decimal(n));
    BracketsOutermost(tag, n);
  }

  /** Such a line has no accidental key iff demasking reports as many restorations as there
      are records: every accident is counted. */
  lemma RestoredIffNoAccident(k: Classes, text: string, s: Spliced)
    requires NoneFiled(s.pieces) && '[' !in ShownLine(s)
    ensures var m := MappingOf(text, s);
      Demasked(k, m.masked, m).restored == |m.entries| <==> NoAccidentalKey(k, s)
  {
    hide Pass1, Demasked, EntriesOf, TableOf, MaskedText, ShownText, Known, Hits, NoneFiled, Placeholders;
    FirstPassOnly(k, text, s);
    OneRecordEach(s.pieces);
    Pass1Counts(k, MaskedText(s.pieces) + s.tail, 0, TableOf(EntriesOf(s.pieces)));
  }
}
