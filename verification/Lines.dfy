/** Lines as `mask_line` makes them: what is recorded about each piece, the session numbers
    behind the keys, and the key table of a mapping. */
module Lines {
  import opened Text
  import opened Scanner
  import opened Entities
  import opened Masking
  import opened Pipeline
  import opened Demask
  import opened RoundTrip

  // ----- the splice conserves the text -----

  lemma {:induction false} SpliceConserves(u: Setup, p: Policy, text: string, es: seq<Entity>, cursor: nat, st: Numbers)
    requires cursor <= |text| && AllInText(es, text)
    ensures var s := SpliceFrom(u, p, text, es, cursor, st);
      OriginalText(s.pieces) + s.tail == text[cursor..]
    decreases |es|
  {
    hide MaskValue, OriginalText;
    if es == [] {
      OriginalTextNil();
    } else if es[0].span.start < cursor {
      SpliceConserves(u, p, text, es[1..], cursor, st);
    } else {
      var e := es[0];
      var original := text[e.span.start..e.span.end];
      var (out, st') := MaskValue(u.maskers, p.KindOf(e.pdType), (e.pdType, e.canonical), original, st);
      var rest := SpliceFrom(u, p, text, es[1..], e.span.end, st');
      var piece := Piece(text[cursor..e.span.start], e, original, out);
      SpliceConserves(u, p, text, es[1..], e.span.end, st');
      OriginalTextCons(piece, rest.pieces);
      assert text[cursor..] == text[cursor..e.span.start] + original + text[e.span.end..];
    }
  }

  lemma OriginalTextNil()
    ensures OriginalText([]) == ""
  {}

  lemma OriginalTextCons(p: Piece, ps: seq<Piece>)
    ensures OriginalText([p] + ps) == p.gap + p.original + OriginalText(ps)
  {
    assert ([p] + ps)[1..] == ps;
    assert Forward([p] + ps)[1..] == Forward(ps);
  }

  lemma {:induction false} AllRecordedShown(ps: seq<Piece>)
    requires forall i | 0 <= i < |ps| :: ps[i].out.key.Some?
    ensures ShownText(ps) == OriginalText(ps)
    decreases |ps|
  {
    hide OriginalText;
    if ps == [] {
      OriginalTextNil();
    } else {
      AllRecordedShown(ps[1..]);
      assert ps == [ps[0]] + ps[1..];
      OriginalTextCons(ps[0], ps[1..]);
    }
  }

  lemma ShownTextCons(ps: seq<Piece>)
    requires ps != []
    ensures ShownText(ps) == ps[0].gap + Shown(ps[0]) + ShownText(ps[1..])
  {}

  // ----- policies -----

  /** Placeholders are in the default format, with labels the scanner can read. */
  ghost predicate Scannable(u: Setup, p: Policy) {
    && u.maskers.format == DEFAULT_FORMAT
    && forall t <- p.types :: p.KindOf(t) == Placeholder ==> IsLabel(u.maskers.LabelOf(t))
  }

  /** No tokens and no synthetic values: what is recorded but no placeholder is a partial mask. */
  ghost predicate StarKinds(p: Policy) { forall t <- p.types :: p.KindOf(t) !in {Token, Synthetic} }

  /** Every value is recorded. */
  ghost predicate FullyRecorded(p: Policy) { forall t <- p.types :: p.KindOf(t) !in {Redact, Hash} }

  /** Some type is masked partially. */
  ghost predicate HasPartial(p: Policy) { exists t <- p.types :: p.KindOf(t) == Partial }

  /** The labels of the types that get placeholders tell them apart. */
  ghost predicate DistinctLabels(u: Setup, p: Policy) {
    forall t <- p.types, t' <- p.types ::
      p.KindOf(t) == Placeholder == p.KindOf(t') && u.maskers.LabelOf(t) == u.maskers.LabelOf(t') ==> t == t'
  }

  ghost predicate TypesIn(es: seq<Entity>, p: Policy) { forall i | 0 <= i < |es| :: es[i].pdType in p.types }

  lemma RetainTypes(es: seq<Entity>, p: Policy)
    ensures TypesIn(Retain(es, p.types), p)
  {}

  lemma PreparedTypes(u: Setup, p: Policy, text: string, es: seq<Entity>)
    requires AllInText(Selected(p, es), text)
    ensures TypesIn(Prepared(u, p, text, es), p)
  {
    var chosen := Selected(p, es);
    RetainTypes(if p.components then Expand(es) else es, p);
    var named := seq(|chosen|, i requires 0 <= i < |chosen| => SetCanonical(u, text, chosen[i]));
    StableSortCorrect(named, EntityByStart());
    var r := StableSort(named, EntityByStart());
    forall i | 0 <= i < |r| ensures r[i].pdType in p.types { assert r[i] in r && r[i] in named; }
  }

  lemma LabelHasNoBrace(tag: string)
    requires IsLabel(tag)
    ensures '{' !in tag
  {}

  // ----- keys that no placeholder has -----

  ghost predicate NoPlaceholderKey(key: string) {
    forall tag, n :: IsLabel(tag) ==> key != tag + "_" + Decimal(n)
  }

  lemma NumberedKeyDiffers(tag: string, n: nat, t: string, c: char, m: nat)
    requires !AsciiDigit(c) && c != '_'
    ensures tag + "_" + Decimal(n) != t + ['_', c] + Decimal(m)
  {
    var d, e := Decimal(n), Decimal(m);
    var x, y := tag + "_" + d, t + ['_', c] + e;
    assert x[|tag|] == '_' && forall i | |tag| < i < |x| :: x[i] == d[i - |tag| - 1];
    assert y[|t|] == '_' && y[|t| + 1] == c && forall i | |t| + 1 < i < |y| :: y[i] == e[i - |t| - 2];
  }

  lemma NumberedNoPlaceholder(t: string, m: nat)
    ensures NoPlaceholderKey(t + "_p" + Decimal(m)) && NoPlaceholderKey(t + "_s" + Decimal(m))
  {
    hide Decimal, IsLabel;
    forall tag, n
      ensures tag + "_" + Decimal(n) != t + "_p" + Decimal(m)
      ensures tag + "_" + Decimal(n) != t + "_s" + Decimal(m)
    {
      NumberedKeyDiffers(tag, n, t, 'p', m);
      NumberedKeyDiffers(tag, n, t, 's', m);
    }
  }

  lemma TokenNoPlaceholder(rest: string)
    ensures NoPlaceholderKey("tok_" + rest)
  {
    forall tag, n | IsLabel(tag) ensures "tok_" + rest != tag + "_" + Decimal(n) {
      assert IsLetter(tag[0]) && (tag + "_" + Decimal(n))[0] == tag[0];
      assert ("tok_" + rest)[0] == 't';
    }
  }

  lemma PlaceholderHasKey(q: Piece)
    requires IsPlaceholder(q)
    ensures q.out.key.Some? && !NoPlaceholderKey(q.out.key.value)
  {
    hide IsLabel, Bracketed, Decimal;
    var tag, n :| IsPlaceholderOf(q, tag, n);
    assert q.out.key.value == tag + "_" + Decimal(n);
  }

  lemma NoPlaceholderFiled(q: Piece)
    requires q.out.key.Some? && NoPlaceholderKey(q.out.key.value)
    ensures Filed(q)
  {
    hide IsPlaceholder, NoPlaceholderKey;
    if IsPlaceholder(q) { PlaceholderHasKey(q); }
  }

  // ----- what is recorded about a piece -----

  function ValueOf(q: Piece): Masking.Value { (q.entity.pdType, q.entity.canonical) }

  /** Some characters of `t` replaced by stars. */
  ghost predicate Starred(s: string, t: string) {
    |s| == |t| && forall i | 0 <= i < |s| :: s[i] == t[i] || s[i] == '*'
  }

  /** The piece is as its type's masker makes it, and a placeholder has its value's number in `st`. */
  ghost predicate Keyed(u: Setup, p: Policy, st: Numbers, q: Piece) {
    && q.entity.pdType in p.types
    && var kind := p.KindOf(q.entity.pdType);
    && (IsPlaceholder(q) <==> kind == Placeholder)
    && (q.out.key.None? <==> kind in {Redact, Hash})
    && (kind == Placeholder ==> NumberedIn(u, st, q))
    && (Filed(q) ==> NoPlaceholderKey(q.out.key.value))
    && (kind in {Partial, Redact} ==> Starred(q.out.replacement, q.original))
  }

  ghost predicate NumberedIn(u: Setup, st: Numbers, q: Piece) {
    && ValueOf(q) in st.given
    && q.out.key == Some(PlaceholderKey(u.maskers, q.entity.pdType, st.given[ValueOf(q)]))
  }

  ghost predicate AllKeyed(u: Setup, p: Policy, st: Numbers, ps: seq<Piece>) {
    forall i | 0 <= i < |ps| :: Keyed(u, p, st, ps[i])
  }

  ghost predicate Extends(st: Numbers, later: Numbers) {
    forall v <- st.given :: v in later.given && later.given[v] == st.given[v]
  }

  lemma NextGives(st: Numbers, v: Masking.Value)
    ensures var (st', n) := Next(st, v);
      v in st'.given && st'.given[v] == n && Extends(st, st')
  {}

  lemma KeyedLater(u: Setup, p: Policy, st: Numbers, later: Numbers, q: Piece)
    requires Keyed(u, p, st, q) && Extends(st, later)
    ensures Keyed(u, p, later, q)
  {
    hide IsPlaceholder, PlaceholderKey, NoPlaceholderKey;
  }

  /** The masker's output is recorded according to its kind. */
  lemma MaskKeyed(u: Setup, p: Policy, gap: string, e: Entity, original: string, st: Numbers)
    requires Scannable(u, p) && e.pdType in p.types && Numbered(st)
    ensures var (out, st') := MaskValue(u.maskers, p.KindOf(e.pdType), (e.pdType, e.canonical), original, st);
      Keyed(u, p, st', Piece(gap, e, original, out)) && Numbered(st') && Extends(st, st')
  {
    hide Decimal, PlaceholderText, Bracketed, Next, IsLabel, Numbered, NoPlaceholderKey;
    var v := (e.pdType, e.canonical);
    var (out, st') := MaskValue(u.maskers, p.KindOf(e.pdType), v, original, st);
    var n := Next(st, v).1;
    var q := Piece(gap, e, original, out);
    NextNumbered(st, v);
    NextGives(st, v);
    NumberedNoPlaceholder(e.pdType, n);
    match p.KindOf(e.pdType) {
      case Placeholder =>
        var tag := u.maskers.LabelOf(e.pdType);
        LabelHasNoBrace(tag);
        DefaultPlaceholder(u.maskers, e.pdType, n);
        assert IsPlaceholderOf(q, tag, n);
      case Token =>
        TokenKey(u, e.pdType, e.canonical, out.key.value);
        NoPlaceholderFiled(q);
      case Partial =>
        NoPlaceholderFiled(q);
      case Synthetic =>
        NoPlaceholderFiled(q);
      case _ =>
    }
  }

  lemma TokenKey(u: Setup, t: PdType, canonical: string, key: string)
    requires key == "tok_" + t + "_" + u.maskers.token(t + "|" + canonical)
    ensures NoPlaceholderKey(key)
  {
    hide NoPlaceholderKey;
    var rest := t + "_" + u.maskers.token(t + "|" + canonical);
    assert key == "tok_" + rest;
    TokenNoPlaceholder(rest);
  }

  /** A masked text: every piece is recorded as its kind says, with final numbers. */
  ghost predicate WellMasked(u: Setup, p: Policy, s: Spliced) { Numbered(s.state) && AllKeyed(u, p, s.state, s.pieces) }

  lemma WellMaskedCons(u: Setup, p: Policy, q: Piece, rest: Spliced)
    requires Keyed(u, p, rest.state, q) && WellMasked(u, p, rest)
    ensures WellMasked(u, p, Put(q, rest))
  {
    hide Keyed, Numbered;
  }

  lemma {:induction false} SpliceWellMasked(
    u: Setup, p: Policy, text: string, es: seq<Entity>, cursor: nat, st: Numbers)
    requires cursor <= |text| && AllInText(es, text) && TypesIn(es, p)
    requires Scannable(u, p) && Numbered(st)
    ensures var s := SpliceFrom(u, p, text, es, cursor, st);
      WellMasked(u, p, s) && Extends(st, s.state)
    decreases |es|
  {
    hide MaskValue, Scannable, Numbered, WellMasked, Keyed;
    if es == [] {
      NothingMasked(u, p, text[cursor..], st);
    } else if es[0].span.start < cursor {
      SpliceWellMasked(u, p, text, es[1..], cursor, st);
    } else {
      var e := es[0];
      var original := text[e.span.start..e.span.end];
      MaskKeyed(u, p, text[cursor..e.span.start], e, original, st);
      var (out, st') := MaskValue(u.maskers, p.KindOf(e.pdType), (e.pdType, e.canonical), original, st);
      SpliceWellMasked(u, p, text, es[1..], e.span.end, st');
      var rest := SpliceFrom(u, p, text, es[1..], e.span.end, st');
      var q := Piece(text[cursor..e.span.start], e, original, out);
      KeyedLater(u, p, st', rest.state, q);
      WellMaskedCons(u, p, q, rest);
    }
  }

  lemma NothingMasked(u: Setup, p: Policy, tail: string, st: Numbers)
    requires Numbered(st)
    ensures WellMasked(u, p, Spliced([], tail, st)) && Extends(st, st)
  {}

  /** Without tokens and synthetic values everything filed is a partial mask. */
  lemma StarKindsPartial(u: Setup, p: Policy, s: Spliced)
    requires WellMasked(u, p, s) && StarKinds(p)
    ensures PartialsOnly(s.pieces) && (!HasPartial(p) ==> NoneFiled(s.pieces))
  {
    hide IsPlaceholder, Numbered, NoPlaceholderKey;
    forall i | 0 <= i < |s.pieces| && Filed(s.pieces[i])
      ensures IsPartial(s.pieces[i]) && HasPartial(p)
    {
      assert Keyed(u, p, s.state, s.pieces[i]);
    }
  }

  // ----- the key table -----

  ghost predicate SameSpelling(es: seq<Entry>) {
    forall i, j | 0 <= i < |es| && 0 <= j < |es| :: es[i].key == es[j].key ==> es[i].original == es[j].original
  }

  lemma {:induction false} TableHas(es: seq<Entry>)
    ensures forall e <- es :: e.key in TableOf(es)
    ensures forall key <- TableOf(es) ::
      exists i :: 0 <= i < |es| && es[i].key == key && es[i].original == TableOf(es)[key]
    decreases |es|
  {
    if es != [] {
      var n := |es| - 1;
      TableHas(es[..n]);
      var tb := TableOf(es[..n]);
      assert es == es[..n] + [es[n]];
      forall key | key in TableOf(es)
        ensures exists i :: 0 <= i < |es| && es[i].key == key && es[i].original == TableOf(es)[key]
      {
        if key == es[n].key {
          assert es[n].original == TableOf(es)[key];
        } else {
          var i :| 0 <= i < n && es[..n][i].key == key && es[..n][i].original == tb[key];
          assert es[i] == es[..n][i];
        }
      }
    }
  }

  lemma {:induction false} EntriesAppend(ps: seq<Piece>, q: Piece)
    ensures EntriesOf(ps + [q]) == EntriesOf(ps) + EntryOf(q)
  {
    if ps == [] {
      assert ps + [q] == [q];
    } else {
      assert (ps + [q])[1..] == ps[1..] + [q];
      EntriesAppend(ps[1..], q);
    }
  }

  lemma {:induction false} EntryOfPiece(ps: seq<Piece>, i: nat)
    requires i < |ps| && ps[i].out.key.Some?
    ensures exists e :: e in EntriesOf(ps) && e.key == ps[i].out.key.value && e.original == ps[i].original
    decreases |ps|
  {
    if i == 0 {
      assert EntryOf(ps[0])[0] in EntriesOf(ps);
    } else {
      EntryOfPiece(ps[1..], i - 1);
      var e :| e in EntriesOf(ps[1..]) && e.key == ps[i].out.key.value && e.original == ps[i].original;
      assert e in EntriesOf(ps);
    }
  }

  lemma KeysAreIn(ps: seq<Piece>)
    ensures KeysIn(ps, TableOf(EntriesOf(ps)))
  {
    hide EntriesOf, TableOf;
    var es := EntriesOf(ps);
    TableHas(es);
    forall i | 0 <= i < |ps| && ps[i].out.key.Some? ensures ps[i].out.key.value in TableOf(es) {
      EntryOfPiece(ps, i);
      var e :| e in es && e.key == ps[i].out.key.value;
    }
  }

  // ----- whole lines -----

  function MaskedLine(u: Setup, p: Policy, text: string, es: seq<Entity>): Spliced
    requires AllInText(Selected(p, es), text)
  {
    SpliceFrom(u, p, text, Prepared(u, p, text, es), 0, NoNumbers)
  }

  /** What of a line can come back: its text, with what was not recorded shown as its mask. */
  function ShownLine(s: Spliced): string { ShownText(s.pieces) + s.tail }

  function MappingOf(text: string, s: Spliced): Mapping {
    Mapping(EntriesOf(s.pieces), text, MaskedText(s.pieces) + s.tail)
  }

  lemma LineConserves(u: Setup, p: Policy, text: string, es: seq<Entity>)
    requires AllInText(Selected(p, es), text)
    ensures var s := MaskedLine(u, p, text, es);
      OriginalText(s.pieces) + s.tail == text
  {
    hide OriginalText, SpliceFrom, Prepared, AllInText;
    SpliceConserves(u, p, text, Prepared(u, p, text, es), 0, NoNumbers);
    assert text[0..] == text;
  }

  lemma LineWellMasked(u: Setup, p: Policy, text: string, es: seq<Entity>)
    requires AllInText(Selected(p, es), text) && Scannable(u, p)
    ensures var s := MaskedLine(u, p, text, es);
      WellMasked(u, p, s) && (FullyRecorded(p) ==> ShownLine(s) == text)
  {
    hide WellMasked, OriginalText, SpliceFrom, Prepared, AllInText, Numbered, Scannable, FullyRecorded, ShownText;
    EmptyNumbered();
    PreparedTypes(u, p, text, es);
    SpliceWellMasked(u, p, text, Prepared(u, p, text, es), 0, NoNumbers);
    LineConserves(u, p, text, es);
    if FullyRecorded(p) { RecordedShown(u, p, MaskedLine(u, p, text, es)); }
  }

  lemma RecordedShown(u: Setup, p: Policy, s: Spliced)
    requires WellMasked(u, p, s) && FullyRecorded(p)
    ensures ShownText(s.pieces) == OriginalText(s.pieces)
  {
    hide IsPlaceholder, Numbered, ShownText, OriginalText, NoPlaceholderKey;
    forall i | 0 <= i < |s.pieces| ensures s.pieces[i].out.key.Some? { assert Keyed(u, p, s.state, s.pieces[i]); }
    AllRecordedShown(s.pieces);
  }

  // ----- lines with one entity -----

  lemma OneTable(q: Piece)
    requires q.out.key.Some?
    ensures TableOf(EntriesOf([q])) == map[q.out.key.value := q.original]
  {
    assert [q][1..] == [] && EntriesOf([q]) == EntryOf(q) && EntryOf(q)[..0] == [];
  }

  lemma OneSelected(p: Policy, e: Entity)
    requires !p.components && e.pdType in p.types
    ensures Selected(p, [e]) == [e]
  {
    assert [e][1..] == [] && Retain([e][1..], p.types) == [];
    assert Retain([e], p.types) == [e] + [];
  }

  lemma OnePrepared(u: Setup, p: Policy, text: string, e: Entity)
    requires !p.components && e.pdType in p.types && InText(e, text)
    ensures AllInText(Selected(p, [e]), text) && Prepared(u, p, text, [e]) == [SetCanonical(u, text, e)]
  {
    OneSelected(p, e);
    hide Selected, CanonicalOf;
    var c := SetCanonical(u, text, e);
    var named := seq(1, i requires 0 <= i < 1 => SetCanonical(u, text, [e][i]));
    assert named == [c] && [c][1..] == [];
    assert StableSort([c], EntityByStart()) == [c];
  }

  /** A line in which one entity was detected. */
  lemma OneEntityLine(u: Setup, p: Policy, text: string, e: Entity)
    requires !p.components && e.pdType in p.types && InText(e, text)
    ensures AllInText(Selected(p, [e]), text)
    ensures var c, original := SetCanonical(u, text, e), text[e.span.start..e.span.end];
      var (out, st) := MaskValue(u.maskers, p.KindOf(e.pdType), (e.pdType, c.canonical), original, NoNumbers);
      MaskedLine(u, p, text, [e]) == Spliced([Piece(text[..e.span.start], c, original, out)], text[e.span.end..], st)
  {
    OnePrepared(u, p, text, e);
    hide Prepared, Selected, CanonicalOf, MaskValue, Next;
    var c, original := SetCanonical(u, text, e), text[e.span.start..e.span.end];
    var (out, st) := MaskValue(u.maskers, p.KindOf(e.pdType), (e.pdType, c.canonical), original, NoNumbers);
    assert [c][1..] == [] && text[0..e.span.start] == text[..e.span.start];
    assert SpliceFrom(u, p, text, [c][1..], e.span.end, st) == Spliced([], text[e.span.end..], st);
    var q := Piece(text[..e.span.start], c, original, out);
    assert [q] + [] == [q];
  }

  /** Its placeholder has number 1. */
  lemma OnePlaceholderLine(u: Setup, p: Policy, text: string, e: Entity)
    requires !p.components && e.pdType in p.types && InText(e, text)
    requires Scannable(u, p) && p.KindOf(e.pdType) == Placeholder
    ensures AllInText(Selected(p, [e]), text)
    ensures var s, tag := MaskedLine(u, p, text, [e]), u.maskers.LabelOf(e.pdType);
      && |s.pieces| == 1 && s.pieces[0].gap == text[..e.span.start] && s.tail == text[e.span.end..]
      && s.pieces[0].original == text[e.span.start..e.span.end]
      && IsPlaceholderOf(s.pieces[0], tag, 1) && s.pieces[0].entity.pdType == e.pdType
  {
    OneEntityLine(u, p, text, e);
    var tag := u.maskers.LabelOf(e.pdType);
    LabelHasNoBrace(tag);
    hide Selected, MaskedLine, Decimal, PlaceholderText, Bracketed, IsLabel;
    DefaultPlaceholder(u.maskers, e.pdType, 1);
  }
}
