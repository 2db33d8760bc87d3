/** Texts that do not come back, each masked by the pipeline itself: what the hypotheses of
    the round trip are for. */
module Counterexamples {
  import opened Text
  import opened Scanner
  import opened Entities
  import opened Masking
  import opened Pipeline
  import opened Demask
  import opened RoundTrip
  import opened Lines
  import opened Inversion
  import opened SharedMapping

  // ----- a star in the text -----

  lemma LabelNeedsLetter(k: Classes, s: string, i: nat)
    requires i <= |s| && forall x | 0 <= x < |s| :: !IsLetter(s[x])
    ensures MatchAt(k, s, i) == None
  {
    hide OpenEnd, SepEnd, CloseEnd;
    var o := OpenEnd(k, s, i);
    assert o < |s| ==> !IsLetter(s[o]);
  }

  lemma NoLettersNoMatch(k: Classes, s: string, i: nat, tb: Table)
    requires i <= |s| && forall x | 0 <= x < |s| :: !IsLetter(s[x])
    ensures Pass1(k, s, i, tb).restored == 0
    decreases |s| - i
  {
    hide Cuts.Key;
    if i < |s| {
      LabelNeedsLetter(k, s, i);
      NoLettersNoMatch(k, s, NextPos(k, s, i), tb);
    }
  }

  /** The text "*1234 51234", in which the second number is a secret. */
  const STARRED := "*1234 51234"

  /** The same text masked. */
  const TWICE := "*1234 *1234"

  const SECRET := Entity("PIN", Span(6, 11), 1.0, [], "")

  lemma SecretParts()
    ensures STARRED[6..11] == "51234" && STARRED[..6] == "*1234 " && STARRED[11..] == ""
    ensures "*1234 " + "*1234" + "" == TWICE
  {}

  lemma SecretMasked()
    ensures PartialText("51234", 4) == "*1234"
  {
    var r := PartialText("51234", 4);
    assert r[0] == '*' && r[1] == '1' && r[2] == '2' && r[3] == '3' && r[4] == '4';
  }

  /** Its mask, with the last four characters kept, is the text's first word. */
  lemma SecretLine(u: Setup, p: Policy)
    requires !p.components && "PIN" in p.types && p.KindOf("PIN") == Partial && u.maskers.keepLast == 4
    ensures AllInText(Selected(p, [SECRET]), STARRED)
    ensures var m := MappingOf(STARRED, MaskedLine(u, p, STARRED, [SECRET]));
      m.masked == TWICE && Forms(m.entries) == [Form("*1234", "51234")]
  {
    OneEntityLine(u, p, STARRED, SECRET);
    SecretParts();
    SecretMasked();
    hide MaskedLine, Selected, CanonicalOf, PartialText, Decimal, Next, EntriesOf, Forms, MaskedText;
    var s := MaskedLine(u, p, STARRED, [SECRET]);
    var q := s.pieces[0];
    assert s.pieces == [q] && q.out.replacement == "*1234" && q.original == "51234";
    OneForm(q);
    OneMasked(q);
  }

  lemma OneMasked(q: Piece)
    ensures MaskedText([q]) == q.gap + q.out.replacement
  {
    MaskedTextCons([q]);
    assert [q][1..] == [];
    MaskedTextNil();
  }

  lemma OneForm(q: Piece)
    requires q.out.key.Some? && q.out.replacement != ""
    ensures Forms(EntriesOf([q])) == [Form(q.out.replacement, q.original)]
  {
    FormsCons([q]);
    assert [q][1..] == [];
    NoForms();
  }

  lemma OneStep(st: Edited, f: Form)
    requires st.from <= |st.text|
    ensures Pass2(st, [f]) == Pass2Step(st, f)
  {
    hide Pass2Step;
    assert [f][1..] == [];
  }

  lemma TwiceParts()
    ensures TWICE[0..0 + 5] == "*1234" && TWICE[..0] == "" && TWICE[5..] == " *1234" && TWICE[0..] == TWICE
    ensures forall x | 0 <= x < |TWICE| :: !IsLetter(TWICE[x])
  {}

  /** The first of two equal words is taken. */
  lemma FirstTaken()
    ensures Pass2Step(Edited(TWICE, 0, 0), Form("*1234", "51234")).text == "51234 *1234"
  {
    TwiceParts();
    assert OccursAt(TWICE, "*1234", 0);
    hide OccursAt;
    assert "" + "51234" + " *1234" == "51234 *1234";
  }

  lemma SecretDemasked(k: Classes, m: Mapping)
    requires m.masked == TWICE && Forms(m.entries) == [Form("*1234", "51234")]
    ensures Demasked(k, m.masked, m).text == "51234 *1234"
  {
    hide Pass1, Pass2, TableOf, Forms, Pass2Step;
    TwiceParts();
    NoLettersNoMatch(k, TWICE, 0, TableOf(m.entries));
    Pass1Verbatim(k, TWICE, 0, TableOf(m.entries));
    OneStep(Edited(TWICE, 0, 0), Form("*1234", "51234"));
    FirstTaken();
  }

  /** With a star in the text itself the second pass may restore the wrong place: under the
      service's partial masker "*1234 51234" comes back as "51234 *1234". */
  lemma StarInTextBreaksRoundTrip(k: Classes, u: Setup, p: Policy)
    requires !p.components && "PIN" in p.types && p.KindOf("PIN") == Partial && u.maskers.keepLast == 4
    ensures AllInText(Selected(p, [SECRET]), STARRED)
    ensures var m := MappingOf(STARRED, MaskedLine(u, p, STARRED, [SECRET]));
      Demasked(k, m.masked, m).text == "51234 *1234" != STARRED
  {
    SecretLine(u, p);
    hide Demasked, Forms, EntriesOf, MaskedLine, Selected;
    SecretDemasked(k, MappingOf(STARRED, MaskedLine(u, p, STARRED, [SECRET])));
    assert "51234 *1234"[0] != STARRED[0];
  }

  // ----- an issued key in the text -----

  lemma BareKeyMatch(k: Classes, tag: string, num: string)
    requires IsLabel(tag) && num != "" && All(k.digit, num, 0, |num|)
    ensures var s := tag + "_" + num + " ";
      var c := Cuts(0, 0, |tag|, |tag| + 1, |s| - 1, |s| - 1);
      MatchAt(k, s, 0) == Some(c) && c.In(s) && c.Key(s) == tag + "_" + num
  {
    var s := tag + "_" + num + " ";
    var w := Cuts(0, 0, |tag|, |tag| + 1, |s| - 1, |s| - 1);
    assert forall x | 0 <= x < |tag| :: s[x] == tag[x];
    assert forall x | |tag| < x < |s| - 1 :: s[x] == num[x - |tag| - 1];
    assert s[|s| - 1] == ' ' && !k.digit(' ');
    assert IsWord(k, s, w);
    RunUnique(k.digit, s, w.num, w.close);
    assert s[w.tag..w.sep] == tag && s[w.num..w.close] == num;
    hide IsWord, RunEnd;
    MatchMaximal(k, s, w);
    assert CloseEnd(k, s, w.close) == w.close by { NoCloser(k, s, w.close); }
  }

  lemma NoCloser(k: Classes, s: string, i: nat)
    requires i < |s| && forall x | i <= x < |s| :: !IsCloser(s[x])
    ensures CloseEnd(k, s, i) == i
  {}

  lemma BareKeyRestored(k: Classes, tag: string, num: string, tb: Table)
    requires IsLabel(tag) && num != "" && All(k.digit, num, 0, |num|) && tag + "_" + num in tb
    ensures Pass1(k, tag + "_" + num + " ", 0, tb).text == tb[tag + "_" + num] + " "
  {
    hide Pass1, MatchAt, Cuts.Key;
    var s := tag + "_" + num;
    BareKeyMatch(k, tag, num);
    Pass1Lead(k, s, " ", MatchAt(k, s + " ", 0).value, tb);
    NoLettersNoMatch(k, " ", 0, tb);
    Pass1Verbatim(k, " ", 0, tb);
  }

  lemma NothingCopied(k: Classes, tb: Table)
    ensures Pass1(k, "", 0, tb) == DemaskResult("", 0, 0)
  {}

  /** A value after the text that its own placeholder's key reads. */
  function KeyText(tag: string, x: string): string { tag + "_1 " + x }

  function KeyValue(tag: string, t: PdType, x: string): Entity {
    Entity(t, Span(|tag| + 3, |tag| + 3 + |x|), 1.0, [], "")
  }

  lemma KeyLine(u: Setup, p: Policy, t: PdType, x: string)
    requires Scannable(u, p) && !p.components && t in p.types && p.KindOf(t) == Placeholder
    ensures var tag := u.maskers.LabelOf(t);
      var key, text, e := tag + "_1", KeyText(tag, x), KeyValue(tag, t, x);
      && AllInText(Selected(p, [e]), text)
      && var m := MappingOf(text, MaskedLine(u, p, text, [e]));
      m.masked == key + " " + Bracketed(tag, "1") && TableOf(m.entries) == map[key := x]
      && Forms(m.entries) == [Form(Bracketed(tag, "1"), x)]
  {
    var tag := u.maskers.LabelOf(t);
    var text, e := KeyText(tag, x), KeyValue(tag, t, x);
    KeyParts(tag, x);
    OnePlaceholderLine(u, p, text, e);
    hide MaskedLine, Selected, Scannable, KeyText;
    KeyFiled(tag, x, MaskedLine(u, p, text, [e]));
  }

  lemma KeyFiled(tag: string, x: string, s: Spliced)
    requires |s.pieces| == 1 && s.pieces[0].gap == tag + "_1" + " " && s.pieces[0].original == x && s.tail == ""
    requires IsPlaceholderOf(s.pieces[0], tag, 1)
    ensures MaskedText(s.pieces) + s.tail == tag + "_1" + " " + Bracketed(tag, "1")
    ensures TableOf(EntriesOf(s.pieces)) == map[tag + "_1" := x]
    ensures Forms(EntriesOf(s.pieces)) == [Form(Bracketed(tag, "1"), x)]
  {
    KeyOne(tag);
    BracketNotEmpty(tag, "1");
    assert Decimal(1) == "1";
    hide IsLabel, Decimal, TableOf, EntriesOf, Forms, MaskedText, Bracketed;
    assert s.pieces == [s.pieces[0]];
    OneForm(s.pieces[0]);
    OneMasked(s.pieces[0]);
    OneTable(s.pieces[0]);
    NothingAfter(tag + "_1" + " " + Bracketed(tag, "1"));
  }

  lemma NothingAfter(s: string)
    ensures s + "" == s
  {}

  lemma KeyParts(tag: string, x: string)
    ensures var text, n := KeyText(tag, x), |tag| + 3;
      |text| == n + |x| && text[..n] == tag + "_1" + " " && text[n..n + |x|] == x && text[n + |x|..] == ""
  {}

  /** If the text before a masked value already reads like its key, demasking turns that
      into the value too: "FIO_1 x" is masked to "FIO_1 [FIO_1]" and comes back as "x x". */
  lemma AccidentalKeyBreaksRoundTrip(k: Classes, u: Setup, p: Policy, t: PdType, x: string)
    requires Scannable(u, p) && !p.components && t in p.types && p.KindOf(t) == Placeholder && '[' !in x
    ensures var tag := u.maskers.LabelOf(t);
      var text, e := KeyText(tag, x), KeyValue(tag, t, x);
      && AllInText(Selected(p, [e]), text)
      && var m := MappingOf(text, MaskedLine(u, p, text, [e]));
      Demasked(k, m.masked, m).text == x + " " + x
  {
    KeyLine(u, p, t, x);
    var tag := u.maskers.LabelOf(t);
    assert IsLabel(tag);
    hide Pass1, Pass2, Bracketed, IsLabel, All, TableOf, Forms, EntriesOf, MaskedLine, Selected, Scannable;
    var text, e := KeyText(tag, x), KeyValue(tag, t, x);
    var m := MappingOf(text, MaskedLine(u, p, text, [e]));
    KeyDemasked(k, tag, x, m);
  }

  lemma KeyDemasked(k: Classes, tag: string, x: string, m: Mapping)
    requires IsLabel(tag) && '[' !in x && TableOf(m.entries) == map[tag + "_1" := x]
    requires m.masked == tag + "_1" + " " + Bracketed(tag, "1") && Forms(m.entries) == [Form(Bracketed(tag, "1"), x)]
    ensures Demasked(k, m.masked, m).text == x + " " + x
  {
    hide Pass1, Pass2, Bracketed, IsLabel, TableOf, Forms;
    var ph, tb := Bracketed(tag, "1"), TableOf(m.entries);
    assert tag + "_" + "1" == tag + "_1" && All(k.digit, "1", 0, 1);
    hide All;
    Pass1Around(k, tag + "_1" + " ", tag, "1", "", tb);
    assert tag + "_1" + " " + (ph + "") == m.masked;
    BareKeyRestored(k, tag, "1", tb);
    NothingCopied(k, tb);
    var first := Pass1(k, m.masked, 0, tb);
    assert first.text == x + " " + x;
    BracketStarts(tag, "1");
    NoBracketAbsent(first.text, ph);
    OneStep(Edited(first.text, 0, 0), Form(ph, x));
    SkipAbsent(Edited(first.text, 0, 0), Form(ph, x));
  }

  lemma BracketStarts(tag: string, num: string)
    ensures Bracketed(tag, num) != "" && Bracketed(tag, num)[0] == '['
  {}

  // ----- an issued placeholder in the text -----

  lemma TwoPrepared(u: Setup, p: Policy, text: string, e: Entity, f: Entity)
    requires !p.components && e.pdType in p.types && f.pdType in p.types && InText(e, text) && InText(f, text)
    requires e.span.start <= f.span.start
    ensures AllInText(Selected(p, [e, f]), text)
    ensures Prepared(u, p, text, [e, f]) == [SetCanonical(u, text, e), SetCanonical(u, text, f)]
  {
    OneSelected(p, f);
    assert [e, f][1..] == [f] && Retain([e, f], p.types) == [e] + Retain([f], p.types);
    assert Selected(p, [e, f]) == [e, f];
    hide Selected, CanonicalOf;
    var c, d := SetCanonical(u, text, e), SetCanonical(u, text, f);
    var named := seq(2, i requires 0 <= i < 2 => SetCanonical(u, text, [e, f][i]));
    assert named == [c, d] && [c, d][1..] == [d] && [d][1..] == [];
    assert StableSort([d], EntityByStart()) == [d];
    InsertFirst(c, [d], EntityByStart());
    assert StableSort([c, d], EntityByStart()) == [c] + [d];
  }

  lemma TwoEntityLine(u: Setup, p: Policy, text: string, e: Entity, f: Entity)
    requires !p.components && e.pdType in p.types && f.pdType in p.types && InText(e, text) && InText(f, text)
    requires e.span.end <= f.span.start
    ensures AllInText(Selected(p, [e, f]), text)
    ensures var c, d := SetCanonical(u, text, e), SetCanonical(u, text, f);
      var x, y := text[e.span.start..e.span.end], text[f.span.start..f.span.end];
      var (out, st) := MaskValue(u.maskers, p.KindOf(e.pdType), (e.pdType, c.canonical), x, NoNumbers);
      var (out', st') := MaskValue(u.maskers, p.KindOf(f.pdType), (f.pdType, d.canonical), y, st);
      MaskedLine(u, p, text, [e, f]) == Spliced(
        [Piece(text[..e.span.start], c, x, out), Piece(text[e.span.end..f.span.start], d, y, out')],
        text[f.span.end..], st')
  {
    TwoPrepared(u, p, text, e, f);
    hide Prepared, Selected, CanonicalOf, MaskValue;
    var c, d := SetCanonical(u, text, e), SetCanonical(u, text, f);
    var x, y := text[e.span.start..e.span.end], text[f.span.start..f.span.end];
    var (out, st) := MaskValue(u.maskers, p.KindOf(e.pdType), (e.pdType, c.canonical), x, NoNumbers);
    var (out', st') := MaskValue(u.maskers, p.KindOf(f.pdType), (f.pdType, d.canonical), y, st);
    var q := Piece(text[e.span.end..f.span.start], d, y, out');
    assert [c, d][1..] == [d] && [d][1..] == [] && text[0..e.span.start] == text[..e.span.start];
    assert SpliceFrom(u, p, text, [], f.span.end, st') == Spliced([], text[f.span.end..], st');
    assert SpliceFrom(u, p, text, [d], e.span.end, st) == Spliced([q] + [], text[f.span.end..], st');
  }

  /** The first value of a type gets number 1. */
  lemma FirstOfType(u: Setup, p: Policy, v: Masking.Value, original: string, st: Numbers)
    requires Scannable(u, p) && v.0 in p.types && p.KindOf(v.0) == Placeholder
    requires v !in st.given && v.0 !in st.counters
    ensures var (out, st') := MaskValue(u.maskers, Placeholder, v, original, st);
      var tag := u.maskers.LabelOf(v.0);
      && out == Output(Bracketed(tag, Decimal(1)), Some(tag + "_" + Decimal(1)))
      && st' == Numbers(st.counters[v.0 := 1], st.given[v := 1])
  {
    LabelHasNoBrace(u.maskers.LabelOf(v.0));
    hide PlaceholderText, IsLabel, Decimal, Bracketed;
    DefaultPlaceholder(u.maskers, v.0, 1);
  }

  /** Two placeholders of different types, each with number 1. */
  lemma TwoPlaceholderLine(u: Setup, p: Policy, text: string, e: Entity, f: Entity)
    requires Scannable(u, p) && !p.components && e.pdType in p.types && f.pdType in p.types
    requires p.KindOf(e.pdType) == Placeholder == p.KindOf(f.pdType) && e.pdType != f.pdType
    requires InText(e, text) && InText(f, text) && e.span.end <= f.span.start
    ensures AllInText(Selected(p, [e, f]), text)
    ensures var s := MaskedLine(u, p, text, [e, f]);
      var tag, tag' := u.maskers.LabelOf(e.pdType), u.maskers.LabelOf(f.pdType);
      && |s.pieces| == 2 && s.tail == text[f.span.end..]
      && s.pieces[0].gap == text[..e.span.start] && s.pieces[0].original == text[e.span.start..e.span.end]
      && s.pieces[1].gap == text[e.span.end..f.span.start] && s.pieces[1].original == text[f.span.start..f.span.end]
      && s.pieces[0].out == Output(Bracketed(tag, Decimal(1)), Some(tag + "_" + Decimal(1)))
      && s.pieces[1].out == Output(Bracketed(tag', Decimal(1)), Some(tag' + "_" + Decimal(1)))
  {
    TwoEntityLine(u, p, text, e, f);
    hide Selected, MaskedLine, CanonicalOf, MaskValue, IsLabel, Decimal, Bracketed, Scannable;
    var c, d := SetCanonical(u, text, e), SetCanonical(u, text, f);
    var v, w := (e.pdType, c.canonical), (f.pdType, d.canonical);
    FirstOfType(u, p, v, text[e.span.start..e.span.end], NoNumbers);
    FirstOfType(u, p, w, text[f.span.start..f.span.end], Numbers(map[v.0 := 1], map[v := 1]));
  }

  lemma NoDigitsNoMatch(k: Classes, s: string, i: nat, tb: Table)
    requires i <= |s| && forall x | 0 <= x < |s| :: !k.digit(s[x])
    ensures Pass1(k, s, i, tb).restored == 0
    decreases |s| - i
  {
    hide Cuts.Key, LabelEnd, OpenEnd, CloseEnd, SepEnd;
    if i < |s| {
      assert MatchAt(k, s, i) == None;
      NoDigitsNoMatch(k, s, NextPos(k, s, i), tb);
    }
  }

  /** The text "x [FIO_1]", in which x is a name and the digit a value of another type. */
  function BracketText(tag: string, x: string): string { x + " [" + tag + "_1]" }

  function BracketName(t: PdType, x: string): Entity { Entity(t, Span(0, |x|), 1.0, [], "") }

  function BracketDigit(tag: string, t: PdType, x: string): Entity {
    Entity(t, Span(|x| + |tag| + 3, |x| + |tag| + 4), 1.0, [], "")
  }

  lemma BracketParts(tag: string, x: string)
    ensures var text, n := BracketText(tag, x), |x| + |tag| + 3;
      && |text| == n + 2 && text[..0] == "" && text[0..|x|] == x
      && text[|x|..n] == " [" + tag + "_" && text[n..n + 1] == "1" && text[n + 1..] == "]"
  {
    var text := BracketText(tag, x);
    assert text == x + (" [" + tag + "_") + "1" + "]";
  }

  lemma BracketLine(u: Setup, p: Policy, t: PdType, t': PdType, x: string)
    requires Scannable(u, p) && !p.components && t in p.types && t' in p.types && t != t'
    requires p.KindOf(t) == Placeholder == p.KindOf(t') && u.maskers.LabelOf(t) != u.maskers.LabelOf(t')
    ensures var tag, tag' := u.maskers.LabelOf(t), u.maskers.LabelOf(t');
      var text, es := BracketText(tag, x), [BracketName(t, x), BracketDigit(tag, t', x)];
      && AllInText(Selected(p, es), text)
      && var m := MappingOf(text, MaskedLine(u, p, text, es));
      && m.masked == Bracketed(tag, "1") + (" [" + tag + "_" + (Bracketed(tag', "1") + "]"))
      && TableOf(m.entries) == map[tag + "_1" := x, tag' + "_1" := "1"]
      && Forms(m.entries) == [Form(Bracketed(tag, "1"), x), Form(Bracketed(tag', "1"), "1")]
  {
    var tag, tag' := u.maskers.LabelOf(t), u.maskers.LabelOf(t');
    var text, e, f := BracketText(tag, x), BracketName(t, x), BracketDigit(tag, t', x);
    BracketParts(tag, x);
    TwoPlaceholderLine(u, p, text, e, f);
    hide MaskedLine, Selected, Scannable, BracketText;
    BracketFiled(tag, tag', x, MaskedLine(u, p, text, [e, f]));
  }

  lemma BracketFiled(tag: string, tag': string, x: string, s: Spliced)
    requires |s.pieces| == 2 && s.pieces[0].gap == "" && s.pieces[1].gap == " [" + tag + "_" && s.tail == "]"
    requires s.pieces[0].original == x && s.pieces[1].original == "1" && tag != tag'
    requires s.pieces[0].out == Output(Bracketed(tag, Decimal(1)), Some(tag + "_" + Decimal(1)))
    requires s.pieces[1].out == Output(Bracketed(tag', Decimal(1)), Some(tag' + "_" + Decimal(1)))
    ensures MaskedText(s.pieces) + s.tail == Bracketed(tag, "1") + (" [" + tag + "_" + (Bracketed(tag', "1") + "]"))
    ensures TableOf(EntriesOf(s.pieces)) == map[tag + "_1" := x, tag' + "_1" := "1"]
    ensures Forms(EntriesOf(s.pieces)) == [Form(Bracketed(tag, "1"), x), Form(Bracketed(tag', "1"), "1")]
  {
    assert Decimal(1) == "1";
    KeyOne(tag);
    KeyOne(tag');
    SameTag(tag, tag');
    hide Decimal, Bracketed, TableOf, EntriesOf, Forms, MaskedText;
    var q, r := s.pieces[0], s.pieces[1];
    assert s.pieces == [q, r];
    BracketNotEmpty(tag, "1");
    BracketNotEmpty(tag', "1");
    TwoFiled(q, r);
    TwoMasked(q, r, s.tail);
  }

  lemma BracketNotEmpty(tag: string, num: string)
    ensures Bracketed(tag, num) != ""
  {}

  lemma KeyOne(tag: string)
    ensures tag + "_" + "1" == tag + "_1"
  {}

  lemma SameTag(a: string, b: string)
    ensures a + "_1" == b + "_1" ==> a == b
  {
    assert (a + "_1")[..|a + "_1"| - 2] == a && (b + "_1")[..|b + "_1"| - 2] == b;
  }

  lemma TwoMasked(q: Piece, r: Piece, tail: string)
    requires q.gap == ""
    ensures MaskedText([q, r]) + tail == q.out.replacement + (r.gap + (r.out.replacement + tail))
  {
    MaskedTextCons([q, r]);
    assert [q, r][1..] == [r];
    OneMasked(r);
  }

  lemma TwoFiled(q: Piece, r: Piece)
    requires q.out.key.Some? && r.out.key.Some? && q.out.replacement != "" && r.out.replacement != ""
    ensures TableOf(EntriesOf([q, r])) == map[q.out.key.value := q.original][r.out.key.value := r.original]
    ensures Forms(EntriesOf([q, r])) == [Form(q.out.replacement, q.original), Form(r.out.replacement, r.original)]
  {
    assert [q, r][1..] == [r] && [q, r] == [q] + [r];
    FormsCons([q, r]);
    OneForm(r);
    OneTable(q);
    EntriesAppend([q], r);
    var e := EntryOf(r)[0];
    assert EntryOf(r) == [e];
    TableAppend(EntriesOf([q]), e);
  }

  /** If values and gaps make up an issued placeholder, the second pass finds it: the text
      "x [FIO_1]", with x and the digit masked, comes back as "x x". */
  lemma BracketInTextBreaksRoundTrip(k: Classes, u: Setup, p: Policy, t: PdType, t': PdType, x: string)
    requires Scannable(u, p) && !p.components && t in p.types && t' in p.types && t != t' && '[' !in x
    requires p.KindOf(t) == Placeholder == p.KindOf(t') && u.maskers.LabelOf(t) != u.maskers.LabelOf(t')
    ensures var tag := u.maskers.LabelOf(t);
      var text, es := BracketText(tag, x), [BracketName(t, x), BracketDigit(tag, t', x)];
      && AllInText(Selected(p, es), text)
      && var m := MappingOf(text, MaskedLine(u, p, text, es));
      Demasked(k, m.masked, m).text == x + " " + x
  {
    BracketLine(u, p, t, t', x);
    var tag, tag' := u.maskers.LabelOf(t), u.maskers.LabelOf(t');
    assert IsLabel(tag) && IsLabel(tag');
    hide Demasked, IsLabel, TableOf, Forms, EntriesOf, MaskedLine, Selected, Scannable, BracketText, Bracketed;
    var text, es := BracketText(tag, x), [BracketName(t, x), BracketDigit(tag, t', x)];
    BracketDemasked(k, tag, tag', x, MappingOf(text, MaskedLine(u, p, text, es)));
  }

  lemma BracketFirstPass(k: Classes, tag: string, tag': string, x: string, tb: Table)
    requires IsLabel(tag) && IsLabel(tag') && tag != tag' && tb == map[tag + "_1" := x, tag' + "_1" := "1"]
    ensures Pass1(k, Bracketed(tag, "1") + (" [" + tag + "_" + (Bracketed(tag', "1") + "]")), 0, tb).text ==
      x + (" [" + tag + "_" + ("1" + "]"))
  {
    var gap := " [" + tag + "_";
    assert All(k.digit, "1", 0, 1);
    GapHasNoDigit(k, tag);
    SameTag(tag, tag');
    KeyOne(tag);
    KeyOne(tag');
    hide Pass1, Bracketed, IsLabel, All;
    BracketRest(k, gap, tag', tb);
    Leading(k, tag, gap + (Bracketed(tag', "1") + "]"), tb);
  }

  /** A placeholder at the front. */
  lemma Leading(k: Classes, tag: string, b: string, tb: Table)
    requires IsLabel(tag) && All(k.digit, "1", 0, 1) && tag + "_" + "1" in tb
    ensures Pass1(k, Bracketed(tag, "1") + b, 0, tb).text == tb[tag + "_" + "1"] + Pass1(k, b, 0, tb).text
  {
    hide Pass1, Bracketed, IsLabel, All;
    Pass1Around(k, "", tag, "1", b, tb);
    NothingCopied(k, tb);
    assert "" + (Bracketed(tag, "1") + b) == Bracketed(tag, "1") + b;
    var y, z := tb[tag + "_" + "1"], Pass1(k, b, 0, tb).text;
    assert "" + (y + z) == y + z;
  }

  lemma BracketRest(k: Classes, gap: string, tag: string, tb: Table)
    requires IsLabel(tag) && All(k.digit, "1", 0, 1) && tag + "_" + "1" in tb && tb[tag + "_" + "1"] == "1"
    requires forall i | 0 <= i < |gap| :: !k.digit(gap[i])
    ensures Pass1(k, gap + (Bracketed(tag, "1") + "]"), 0, tb).text == gap + ("1" + "]")
  {
    hide Pass1, Bracketed, IsLabel, All;
    Pass1Around(k, gap, tag, "1", "]", tb);
    NoDigitsNoMatch(k, gap, 0, tb);
    Pass1Verbatim(k, gap, 0, tb);
    NoLettersNoMatch(k, "]", 0, tb);
    Pass1Verbatim(k, "]", 0, tb);
    assert gap[0..] == gap && "]"[0..] == "]";
  }

  lemma GapHasNoDigit(k: Classes, tag: string)
    requires IsLabel(tag)
    ensures var gap := " [" + tag + "_"; forall i | 0 <= i < |gap| :: !k.digit(gap[i])
  {}

  lemma BracketDemasked(k: Classes, tag: string, tag': string, x: string, m: Mapping)
    requires IsLabel(tag) && IsLabel(tag') && tag != tag' && '[' !in x
    requires m.masked == Bracketed(tag, "1") + (" [" + tag + "_" + (Bracketed(tag', "1") + "]"))
    requires TableOf(m.entries) == map[tag + "_1" := x, tag' + "_1" := "1"]
    requires Forms(m.entries) == [Form(Bracketed(tag, "1"), x), Form(Bracketed(tag', "1"), "1")]
    ensures Demasked(k, m.masked, m).text == x + " " + x
  {
    hide Pass1, Pass2, Pass2Step, TableOf, Forms, IsLabel, Find, OccursAt;
    BracketFirstPass(k, tag, tag', x, TableOf(m.entries));
    var ph, ph' := Bracketed(tag, "1"), Bracketed(tag', "1");
    var first := x + (" [" + tag + "_" + ("1" + "]"));
    assert first == x + " " + ph + "";
    BracketStarts(tag, "1");
    BracketStarts(tag', "1");
    hide Bracketed;
    FoundAfter(x + " ", ph);
    RestoreFound(Edited(first, 0, 0), x + " ", Form(ph, x), "");
    var next := Edited(x + " " + x + "", |x + " "| + |x|, 1);
    NoBracketAbsent(next.text, ph');
    SkipAbsent(next, Form(ph', "1"));
    TwoSteps(Edited(first, 0, 0), Form(ph, x), Form(ph', "1"));
  }

  lemma FoundAfter(a: string, m: string)
    requires '[' !in a && m != "" && m[0] == '['
    ensures Find(a + m + "", m, 0) == Some(|a|)
  {
    var s := a + m + "";
    assert OccursAt(s, m, |a|);
    assert forall i | 0 <= i < |a| :: s[i] == a[i];
    forall j: nat | j < |a| ensures !OccursAt(s, m, j) {
      if OccursAt(s, m, j) { FirstChar(s, m, j); }
    }
  }

  lemma TwoSteps(st: Edited, f: Form, g: Form)
    requires st.from <= |st.text|
    ensures Pass2(st, [f, g]) == Pass2Step(Pass2Step(st, f), g)
  {
    hide Pass2Step;
    assert [f, g][1..] == [g];
    OneStep(Pass2Step(st, f), g);
  }
}
