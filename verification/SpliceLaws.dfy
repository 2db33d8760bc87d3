/** What `mask_line` reports about its splice is enough to undo it, and the session
    mapping holds exactly the slices it replaced. */
module SpliceLaws {
  import opened Text
  import opened Entities
  import opened Masking
  import opened Splices
  import opened Pipeline
  import opened Demask
  import opened RoundTrip
  import Lines

  predicate InfoIn(i: MaskedInfo, text: string) { i.span.start <= i.span.end <= |text| }

  ghost predicate AllIn(infos: seq<MaskedInfo>, text: string) { forall i | 0 <= i < |infos| :: InfoIn(infos[i], text) }

  /** Put each replacement at its entity's place in the original. */
  function ForwardEdits(infos: seq<MaskedInfo>): seq<Edit> {
    if infos == [] then []
    else [Edit(infos[0].span.start, infos[0].span.end, infos[0].replacement)] + ForwardEdits(infos[1..])
  }

  /** Put each original slice back at its place in the masked text. */
  ghost function BackwardEdits(infos: seq<MaskedInfo>, text: string): seq<Edit>
    requires AllIn(infos, text)
  {
    if infos == [] then []
    else
      var i := infos[0];
      [Edit(i.maskedSpan.start, i.maskedSpan.end, text[i.span.start..i.span.end])] + BackwardEdits(infos[1..], text)
  }

  /** Replacement lengths minus span lengths, summed. */
  function Growth(infos: seq<MaskedInfo>): int {
    if infos == [] then 0
    else |infos[0].replacement| - infos[0].span.Len() + Growth(infos[1..])
  }

  /** The pieces stand in the text one after another from `cursor` on. */
  ghost predicate Laid(ps: seq<Piece>, text: string, cursor: nat) {
    if ps == [] then cursor <= |text|
    else
      var e := ps[0].entity.span;
      && cursor <= e.start <= e.end <= |text|
      && ps[0].gap == text[cursor..e.start] && ps[0].original == text[e.start..e.end]
      && Laid(ps[1..], text, e.end)
  }

  lemma LaidCons(p: Piece, ps: seq<Piece>, text: string, cursor: nat)
    requires var e := p.entity.span;
      && cursor <= e.start <= e.end <= |text|
      && p.gap == text[cursor..e.start] && p.original == text[e.start..e.end]
      && Laid(ps, text, e.end)
    ensures Laid([p] + ps, text, cursor)
  {
    assert ([p] + ps)[1..] == ps;
  }

  lemma {:induction false} SpliceLaid(u: Setup, p: Policy, text: string, es: seq<Entity>, cursor: nat, st: Numbers)
    requires cursor <= |text| && AllInText(es, text)
    ensures Laid(SpliceFrom(u, p, text, es, cursor, st).pieces, text, cursor)
    decreases |es|
  {
    hide MaskValue, Laid;
    if es == [] {
      NothingLaid(text, cursor);
    } else if es[0].span.start < cursor {
      SpliceLaid(u, p, text, es[1..], cursor, st);
    } else {
      var e := es[0];
      var original := text[e.span.start..e.span.end];
      var (out, st') := MaskValue(u.maskers, p.KindOf(e.pdType), (e.pdType, e.canonical), original, st);
      SpliceLaid(u, p, text, es[1..], e.span.end, st');
      LaidCons(Piece(text[cursor..e.span.start], e, original, out),
               SpliceFrom(u, p, text, es[1..], e.span.end, st').pieces, text, cursor);
    }
  }

  lemma NothingLaid(text: string, cursor: nat)
    requires cursor <= |text|
    ensures Laid([], text, cursor)
  {}

  lemma {:induction false} InfosIn(ps: seq<Piece>, text: string, cursor: nat, at: nat)
    requires Laid(ps, text, cursor)
    ensures AllIn(Infos(ps, at), text)
    decreases |ps|
  {
    if ps != [] { InfosIn(ps[1..], text, ps[0].entity.span.end, MaskedSpan(ps[0], at).end); }
  }

  lemma {:induction false} ForwardAreEdits(ps: seq<Piece>, text: string, cursor: nat, at: nat)
    requires Laid(ps, text, cursor)
    ensures ForwardEdits(Infos(ps, at)) == Edits(Forward(ps), cursor)
    decreases |ps|
  {
    if ps != [] {
      var next := MaskedSpan(ps[0], at).end;
      ForwardAreEdits(ps[1..], text, ps[0].entity.span.end, next);
      assert Infos(ps, at)[1..] == Infos(ps[1..], next) && Forward(ps)[1..] == Forward(ps[1..]);
      hide Edits;
      EditsCons(Forward(ps), cursor);
    }
  }

  lemma {:induction false} BackwardAreEdits(ps: seq<Piece>, text: string, cursor: nat, at: nat)
    requires Laid(ps, text, cursor)
    requires AllIn(Infos(ps, at), text)
    ensures BackwardEdits(Infos(ps, at), text) == Edits(Swapped(Forward(ps)), at)
    decreases |ps|
  {
    if ps != [] {
      var next := MaskedSpan(ps[0], at).end;
      InfosIn(ps[1..], text, ps[0].entity.span.end, next);
      BackwardAreEdits(ps[1..], text, ps[0].entity.span.end, next);
      var infos, cs := Infos(ps, at), Swapped(Forward(ps));
      assert infos[1..] == Infos(ps[1..], next);
      assert Forward(ps)[1..] == Forward(ps[1..]) && cs[1..] == Swapped(Forward(ps[1..]));
      hide Edits;
      EditsCons(cs, at);
    }
  }

  lemma GrowthCons(i: MaskedInfo, rest: seq<MaskedInfo>)
    ensures Growth([i] + rest) == |i.replacement| - i.span.Len() + Growth(rest)
  {
    assert ([i] + rest)[1..] == rest;
  }

  lemma {:induction false} GrowthBalances(ps: seq<Piece>, text: string, cursor: nat, at: nat)
    requires Laid(ps, text, cursor)
    ensures |MaskedText(ps)| == |OriginalText(ps)| + Growth(Infos(ps, at))
    decreases |ps|
  {
    hide MaskedText, OriginalText;
    if ps == [] {
      MaskedTextNil();
      Lines.OriginalTextNil();
    } else {
      var p := ps[0];
      var next := MaskedSpan(p, at).end;
      assert |p.original| == p.entity.span.Len();
      GrowthBalances(ps[1..], text, p.entity.span.end, next);
      hide Laid, Infos, Growth;
      MaskedTextCons(ps);
      ReportsCons(ps, at);
      GrowthCons(InfoOf(p, at), Infos(ps[1..], next));
      assert ps == [p] + ps[1..];
      Lines.OriginalTextCons(p, ps[1..]);
    }
  }

  /** The reports name each masked entity: its type, its own span, and its mask, which stands in
      the masked text where the report says. */
  lemma {:induction false} ReportsName(ps: seq<Piece>, at: nat, masked: string, tail: string, i: nat)
    requires at <= |masked| && masked[at..] == MaskedText(ps) + tail && i < |ps|
    ensures |Infos(ps, at)| == |ps|
    ensures var r, p := Infos(ps, at)[i], ps[i];
      && r.pdType == p.entity.pdType && r.span == p.entity.span && r.replacement == p.out.replacement
      && r.maskedSpan.start <= r.maskedSpan.end <= |masked|
      && masked[r.maskedSpan.start..r.maskedSpan.end] == p.out.replacement
    decreases |ps|
  {
    hide MaskedText;
    var p := ps[0];
    var m := MaskedSpan(p, at);
    var rest := MaskedText(ps[1..]) + tail;
    MaskedTextCons(ps);
    assert masked[at..] == p.gap + (p.out.replacement + rest);
    assert masked[m.start..m.end] == masked[at..][|p.gap|..|p.gap| + |p.out.replacement|] == p.out.replacement;
    assert masked[m.end..] == masked[at..][|p.gap| + |p.out.replacement|..] == rest;
    if i > 0 {
      ReportsName(ps[1..], m.end, masked, tail, i - 1);
    } else {
      InfosLength(ps, at);
    }
  }

  lemma {:induction false} InfosLength(ps: seq<Piece>, at: nat)
    ensures |Infos(ps, at)| == |ps|
    decreases |ps|
  {
    if ps != [] { InfosLength(ps[1..], MaskedSpan(ps[0], at).end); }
  }

  /** Splice inverse, for any entities, overlapping or not: the reported entities turn
      the input into the output and, with the original slices, the output back into
      the input; both coordinate lists are increasing and disjoint; and the length
      grows by what the replacements add. */
  lemma SpliceInverse(u: Setup, p: Policy, text: string, es: seq<Entity>, st: Numbers)
    requires AllInText(es, text)
    ensures var r := ResultOf(SpliceFrom(u, p, text, es, 0, st));
      && AllIn(r.entities, text)
      && var forth, back := ForwardEdits(r.entities), BackwardEdits(r.entities, text);
      && InOrder(forth, 0, |text|) && Apply(text, forth, 0) == r.text
      && InOrder(back, 0, |r.text|) && Apply(r.text, back, 0) == text
      && |r.text| == |text| + Growth(r.entities)
  {
    hide SpliceFrom, Infos, InOrder, Apply, Laid, ForwardEdits, BackwardEdits, Growth, Edits, Records, AllInText, AllIn;
    var s := SpliceFrom(u, p, text, es, 0, st);
    SpliceLaid(u, p, text, es, 0, st);
    InfosIn(s.pieces, text, 0, 0);
    ForwardAreEdits(s.pieces, text, 0, 0);
    BackwardAreEdits(s.pieces, text, 0, 0);
    GrowthBalances(s.pieces, text, 0, 0);
    Lines.SpliceConserves(u, p, text, es, 0, st);
    assert text[0..] == text;
    EditsInvert(Forward(s.pieces), s.tail);
  }

  // ----- the mapping of a session -----

  predicate RecordIn(r: MaskRecord, text: string, masked: string) {
    r.originalSpan.start <= r.originalSpan.end <= |text| && r.maskedSpan.start <= r.maskedSpan.end <= |masked|
  }

  function EntryOfRecord(r: MaskRecord, text: string, masked: string): Entry
    requires RecordIn(r, text, masked)
  {
    var form := if r.maskedSpan.start < r.maskedSpan.end
                then Some(masked[r.maskedSpan.start..r.maskedSpan.end]) else None;
    Entry(r.key, r.pdType, text[r.originalSpan.start..r.originalSpan.end], form)
  }

  /** The loop of `GuardService::mask` that fills the mapping. */
  method BuildEntries(text: string, masked: string, records: seq<MaskRecord>) returns (entries: seq<Entry>)
    requires forall i | 0 <= i < |records| :: RecordIn(records[i], text, masked)
    ensures |entries| == |records|
    ensures forall i | 0 <= i < |records| :: entries[i] == EntryOfRecord(records[i], text, masked)
  {
    entries := [];
    for i := 0 to |records|
      invariant |entries| == i
      invariant forall j | 0 <= j < i :: entries[j] == EntryOfRecord(records[j], text, masked)
    {
      var r := records[i];
      var orig := text[r.originalSpan.start..r.originalSpan.end];
      var form := None;
      if r.maskedSpan.start < r.maskedSpan.end {
        form := Some(masked[r.maskedSpan.start..r.maskedSpan.end]);
      }
      entries := entries + [Entry(r.key, r.pdType, orig, form)];
    }
  }

  /** The records' slices are the pieces' originals and replacements. */
  lemma {:induction false} RecordsToEntries(ps: seq<Piece>, text: string, cursor: nat, masked: string, at: nat,
      tail: string)
    requires Laid(ps, text, cursor)
    requires at <= |masked| && masked[at..] == MaskedText(ps) + tail
    ensures var rs := Records(ps, at);
      && |rs| == |EntriesOf(ps)|
      && forall i | 0 <= i < |rs| ::
           RecordIn(rs[i], text, masked) && EntryOfRecord(rs[i], text, masked) == EntriesOf(ps)[i]
    decreases |ps|
  {
    hide MaskedText;
    if ps != [] {
      var p := ps[0];
      var m := MaskedSpan(p, at);
      var rest := MaskedText(ps[1..]) + tail;
      MaskedTextCons(ps);
      assert masked[at..] == p.gap + (p.out.replacement + rest);
      assert masked[m.start..m.end] == masked[at..][|p.gap|..|p.gap| + |p.out.replacement|] == p.out.replacement;
      assert masked[m.end..] == masked[at..][|p.gap| + |p.out.replacement|..] == rest;
      RecordsToEntries(ps[1..], text, p.entity.span.end, masked, m.end, tail);
    }
  }

  /** The mapping built from a masked line holds, per reversible mask and in order, its
      key, the exact original slice and the exact masked form. */
  lemma MappingHoldsSlices(u: Setup, p: Policy, text: string, es: seq<Entity>, st: Numbers)
    requires AllInText(es, text)
    ensures var s := SpliceFrom(u, p, text, es, 0, st);
      var r := ResultOf(s);
      && |r.records| == |EntriesOf(s.pieces)|
      && forall i | 0 <= i < |r.records| ::
           RecordIn(r.records[i], text, r.text) && EntryOfRecord(r.records[i], text, r.text) == EntriesOf(s.pieces)[i]
  {
    hide SpliceFrom, Infos, Laid, Records, MaskedText, EntriesOf, AllInText;
    var s := SpliceFrom(u, p, text, es, 0, st);
    var r := ResultOf(s);
    SpliceLaid(u, p, text, es, 0, st);
    assert r.text[0..] == r.text;
    RecordsToEntries(s.pieces, text, 0, r.text, 0, s.tail);
  }

  // ----- the overlap skip -----

  ghost predicate Apart(es: seq<Entity>) {
    forall i, j | 0 <= i < j < |es| :: es[i].span.end <= es[j].span.start
  }

  function EntitiesOf(ps: seq<Piece>): (es: seq<Entity>)
    ensures |es| == |ps|
  {
    if ps == [] then [] else [ps[0].entity] + EntitiesOf(ps[1..])
  }

  /** Entities that lie apart are all masked: the skip never fires. */
  lemma {:induction false} ApartAllMasked(u: Setup, p: Policy, text: string, es: seq<Entity>, cursor: nat, st: Numbers)
    requires cursor <= |text| && AllInText(es, text) && Apart(es)
    requires forall i | 0 <= i < |es| :: cursor <= es[i].span.start
    ensures EntitiesOf(SpliceFrom(u, p, text, es, cursor, st).pieces) == es
    decreases |es|
  {
    hide MaskValue;
    if es != [] {
      var e := es[0];
      var original := text[e.span.start..e.span.end];
      var (out, st') := MaskValue(u.maskers, p.KindOf(e.pdType), (e.pdType, e.canonical), original, st);
      ApartAllMasked(u, p, text, es[1..], e.span.end, st');
      var rest := SpliceFrom(u, p, text, es[1..], e.span.end, st').pieces;
      assert es == [e] + es[1..];
      assert ([Piece(text[cursor..e.span.start], e, original, out)] + rest)[1..] == rest;
    }
  }

  lemma {:induction false} RetainApart(es: seq<Entity>, text: string, types: set<PdType>)
    requires Apart(es) && AllInText(es, text)
    ensures Apart(Retain(es, types)) && AllInText(Retain(es, types), text)
    ensures forall e <- Retain(es, types) :: e in es
  {
    if es != [] {
      RetainApart(es[1..], text, types);
      var kept := Retain(es[1..], types);
      forall j | 0 <= j < |kept| ensures es[0].span.end <= kept[j].span.start {
        assert kept[j] in kept && kept[j] in es[1..];
      }
    }
  }

  /** In whole-address mode entities that lie apart are all masked, if the policy keeps
      them, in order and each at its own place. */
  lemma ApartLineMasksAll(u: Setup, p: Policy, text: string, es: seq<Entity>, st: Numbers)
    requires !p.components && Apart(es) && AllInText(es, text)
    ensures AllInText(Selected(p, es), text)
    ensures var kept := Retain(es, p.types);
      var masked := EntitiesOf(SpliceFrom(u, p, text, Prepared(u, p, text, es), 0, st).pieces);
      && |masked| == |kept|
      && forall i | 0 <= i < |kept| :: InText(kept[i], text) && masked[i] == SetCanonical(u, text, kept[i])
  {
    hide SpliceFrom, CanonicalOf;
    RetainApart(es, text, p.types);
    var kept := Retain(es, p.types);
    var named := seq(|kept|, i requires 0 <= i < |kept| => SetCanonical(u, text, kept[i]));
    NamedApart(u, text, kept, named);
    SortOfSorted(named, EntityByStart());
    ApartAllMasked(u, p, text, named, 0, st);
  }

  lemma NamedApart(u: Setup, text: string, kept: seq<Entity>, named: seq<Entity>)
    requires Apart(kept) && AllInText(kept, text) && |named| == |kept|
    requires forall i | 0 <= i < |kept| :: named[i] == SetCanonical(u, text, kept[i])
    ensures Apart(named) && AllInText(named, text) && SortedBy(named, EntityByStart())
  {
    hide CanonicalOf;
  }
}
