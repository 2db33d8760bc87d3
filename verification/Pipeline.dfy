/** `mask_line` after detection and conflict resolution: address expansion, policy
    filter, canonical forms, and the one-pass splice with its records. Positions
    count characters. */
module Pipeline {
  import opened Text
  import opened Entities
  import opened Masking
  import opened Splices

  datatype Policy = Policy(types: set<PdType>, kinds: map<PdType, MaskKind>, components: bool) {
    function KindOf(t: PdType): MaskKind { if t in kinds then kinds[t] else Placeholder }
  }

  /** Unicode facts the code takes from its libraries, and the configured maskers. */
  datatype Setup = Setup(lower: string -> string, space: char -> bool, maskers: Maskers)

  // ----- canonical forms -----

  const DIGIT_TYPES: set<PdType> := {"CARD_NUMBER", "INN", "ORG_INN", "SNILS", "PHONE"}
  const NAME_TYPES: set<PdType> := {"FIO", "CARD_HOLDER"}

  /** The words of `s`, split at white space, joined by single spaces. */
  function Squeeze(space: char -> bool, s: string): string
    decreases |s|
  {
    if s == "" then ""
    else if space(s[0]) then Squeeze(space, s[1..])
    else
      var n := RunEnd(c => !space(c), s, 0);
      var rest := Squeeze(space, s[n..]);
      if rest == "" then s[..n] else s[..n] + " " + rest
  }

  function CanonicalOf(u: Setup, original: string, t: PdType): string {
    if t in DIGIT_TYPES then DigitsOf(original)
    else if t in NAME_TYPES then Squeeze(u.space, u.lower(original))
    else u.lower(original)
  }

  // ----- stages between the resolver and the splice -----

  predicate Splits(e: Entity) { e.pdType == ADDRESS && e.components != [] }

  function Expand(es: seq<Entity>): seq<Entity> {
    if es == [] then [] else (if Splits(es[0]) then es[0].components else [es[0]]) + Expand(es[1..])
  }

  function Retain(es: seq<Entity>, types: set<PdType>): seq<Entity> {
    if es == [] then [] else (if es[0].pdType in types then [es[0]] else []) + Retain(es[1..], types)
  }

  predicate InText(e: Entity, text: string) { e.span.start <= e.span.end <= |text| }

  ghost predicate AllInText(es: seq<Entity>, text: string) { forall i | 0 <= i < |es| :: InText(es[i], text) }

  function Selected(p: Policy, es: seq<Entity>): seq<Entity> {
    Retain(if p.components then Expand(es) else es, p.types)
  }

  function SetCanonical(u: Setup, text: string, e: Entity): Entity
    requires InText(e, text)
  {
    e.(canonical := CanonicalOf(u, text[e.span.start..e.span.end], e.pdType))
  }

  /** The entities in the order in which the splice visits them. */
  function Prepared(u: Setup, p: Policy, text: string, es: seq<Entity>): (r: seq<Entity>)
    requires AllInText(Selected(p, es), text)
    ensures AllInText(r, text) && SortedBy(r, EntityByStart())
  {
    var chosen := Selected(p, es);
    var named := seq(|chosen|, i requires 0 <= i < |chosen| => SetCanonical(u, text, chosen[i]));
    var r := StableSort(named, EntityByStart());
    StableSortCorrect(named, EntityByStart());
    assert AllInText(r, text) by {
      forall i | 0 <= i < |r| ensures InText(r[i], text) { assert r[i] in r && r[i] in named; }
    }
    r
  }

  lemma {:induction false} ExpandAppend(xs: seq<Entity>, e: Entity)
    ensures Expand(xs + [e]) == Expand(xs) + if Splits(e) then e.components else [e]
  {
    if xs == [] {
      assert xs + [e] == [e] && [e][1..] == [];
    } else {
      assert (xs + [e])[1..] == xs[1..] + [e];
      ExpandAppend(xs[1..], e);
    }
  }

  lemma {:induction false} RetainAppend(xs: seq<Entity>, e: Entity, types: set<PdType>)
    ensures Retain(xs + [e], types) == Retain(xs, types) + if e.pdType in types then [e] else []
  {
    if xs == [] {
      assert xs + [e] == [e] && [e][1..] == [];
    } else {
      var first := if xs[0].pdType in types then [xs[0]] else [];
      var last := if e.pdType in types then [e] else [];
      RetainAppend(xs[1..], e, types);
      RetainCons(xs, types);
      assert (xs + [e])[1..] == xs[1..] + [e] && (xs + [e])[0] == xs[0];
      RetainCons(xs + [e], types);
      hide Retain;
      assert first + (Retain(xs[1..], types) + last) == first + Retain(xs[1..], types) + last;
    }
  }

  lemma RetainCons(xs: seq<Entity>, types: set<PdType>)
    requires xs != []
    ensures Retain(xs, types) == (if xs[0].pdType in types then [xs[0]] else []) + Retain(xs[1..], types)
  {}

  lemma ExpandOne(es: seq<Entity>)
    requires es != []
    ensures Expand(es) == (if Splits(es[0]) then es[0].components else [es[0]]) + Expand(es[1..])
  {}

  /** Expansion keeps what does not split and replaces an address by all of its components. */
  lemma {:induction false} ExpandExact(es: seq<Entity>, x: Entity)
    ensures x in Expand(es) <==> exists e :: e in es && if Splits(e) then x in e.components else x == e
  {
    hide Splits;
    if es != [] {
      ExpandOne(es);
      ExpandExact(es[1..], x);
      hide Expand;
      assert forall e :: e in es <==> e == es[0] || e in es[1..];
    }
  }

  lemma {:induction false} RetainExact(es: seq<Entity>, types: set<PdType>)
    ensures forall e :: e in Retain(es, types) <==> e in es && e.pdType in types
  {
    if es != [] {
      RetainExact(es[1..], types);
      assert forall e :: e in es <==> e == es[0] || e in es[1..];
    }
  }

  /** The loop that replaces addresses by their components. */
  method ExpandAll(es: seq<Entity>) returns (expanded: seq<Entity>)
    ensures expanded == Expand(es)
  {
    expanded := [];
    for i := 0 to |es|
      invariant expanded == Expand(es[..i])
    {
      var e := es[i];
      ExpandAppend(es[..i], e);
      assert es[..i + 1] == es[..i] + [e];
      if e.pdType == ADDRESS && e.components != [] {
        expanded := expanded + e.components;
      } else {
        expanded := expanded + [e];
      }
    }
    assert es[..|es|] == es;
  }

  method RetainTypes(es: seq<Entity>, types: set<PdType>) returns (kept: seq<Entity>)
    ensures kept == Retain(es, types)
  {
    kept := [];
    for i := 0 to |es|
      invariant kept == Retain(es[..i], types)
    {
      RetainAppend(es[..i], es[i], types);
      assert es[..i + 1] == es[..i] + [es[i]];
      if es[i].pdType in types { kept := kept + [es[i]]; }
    }
    assert es[..|es|] == es;
  }

  /** The stages of `mask_line` between the combination rules and the splice. */
  method Prepare(u: Setup, p: Policy, text: string, es: seq<Entity>) returns (entities: seq<Entity>)
    requires AllInText(Selected(p, es), text)
    ensures entities == Prepared(u, p, text, es)
  {
    hide CanonicalOf, StableSort, Expand, Retain;
    entities := es;
    if p.components { entities := ExpandAll(entities); }
    entities := RetainTypes(entities, p.types);
    ghost var chosen := Selected(p, es);
    assert entities == chosen;
    for i := 0 to |entities|
      invariant |entities| == |chosen|
      invariant forall j | 0 <= j < i :: entities[j] == SetCanonical(u, text, chosen[j])
      invariant forall j | i <= j < |entities| :: entities[j] == chosen[j]
    {
      var e := entities[i];
      var canon := CanonicalOf(u, text[e.span.start..e.span.end], e.pdType);
      entities := entities[i := e.(canonical := canon)];
    }
    assert entities == seq(|chosen|, i requires 0 <= i < |chosen| => SetCanonical(u, text, chosen[i]));
    entities := StableSort(entities, EntityByStart());
  }

  // ----- the splice -----

  /** One masked entity: the gap before it, its original text and the masker's output. */
  datatype Piece = Piece(gap: string, entity: Entity, original: string, out: Output) {
    function Forward(): Chunk { Chunk(gap, original, out.replacement) }
  }

  datatype Spliced = Spliced(pieces: seq<Piece>, tail: string, state: Numbers)

  function Put(p: Piece, s: Spliced): Spliced { s.(pieces := [p] + s.pieces) }

  /** Mask `es` in order from `cursor` on, skipping what starts before the cursor. */
  function SpliceFrom(u: Setup, p: Policy, text: string, es: seq<Entity>, cursor: nat, st: Numbers): Spliced
    requires cursor <= |text| && AllInText(es, text)
  {
    if es == [] then Spliced([], text[cursor..], st)
    else
      var e := es[0];
      if e.span.start < cursor then SpliceFrom(u, p, text, es[1..], cursor, st)
      else
        var original := text[e.span.start..e.span.end];
        var (out, st') := MaskValue(u.maskers, p.KindOf(e.pdType), (e.pdType, e.canonical), original, st);
        Put(Piece(text[cursor..e.span.start], e, original, out), SpliceFrom(u, p, text, es[1..], e.span.end, st'))
  }

  function Forward(ps: seq<Piece>): seq<Chunk> {
    if ps == [] then [] else [ps[0].Forward()] + Forward(ps[1..])
  }

  function OriginalText(ps: seq<Piece>): string { Here(Forward(ps)) }

  function MaskedText(ps: seq<Piece>): string { Here(Swapped(Forward(ps))) }

  // ----- what `mask_line` reports -----

  datatype MaskRecord = MaskRecord(maskedSpan: Span, originalSpan: Span, pdType: PdType, key: string)

  datatype MaskedInfo = MaskedInfo(pdType: PdType, span: Span, maskedSpan: Span, replacement: string)

  datatype MaskLineResult = MaskLineResult(text: string, entities: seq<MaskedInfo>, records: seq<MaskRecord>)

  function MaskedSpan(p: Piece, at: nat): Span {
    Span(at + |p.gap|, at + |p.gap| + |p.out.replacement|)
  }

  function InfoOf(p: Piece, at: nat): MaskedInfo {
    MaskedInfo(p.entity.pdType, p.entity.span, MaskedSpan(p, at), p.out.replacement)
  }

  function Infos(ps: seq<Piece>, at: nat): seq<MaskedInfo> {
    if ps == [] then [] else [InfoOf(ps[0], at)] + Infos(ps[1..], MaskedSpan(ps[0], at).end)
  }

  function RecordOf(p: Piece, at: nat): seq<MaskRecord> {
    if p.out.key.None? then []
    else [MaskRecord(MaskedSpan(p, at), p.entity.span, p.entity.pdType, p.out.key.value)]
  }

  function Records(ps: seq<Piece>, at: nat): seq<MaskRecord> {
    if ps == [] then [] else RecordOf(ps[0], at) + Records(ps[1..], MaskedSpan(ps[0], at).end)
  }

  function ResultOf(s: Spliced): MaskLineResult {
    MaskLineResult(MaskedText(s.pieces) + s.tail, Infos(s.pieces, 0), Records(s.pieces, 0))
  }

  lemma {:induction false} MaskedTextAppend(ps: seq<Piece>, p: Piece)
    ensures MaskedText(ps + [p]) == MaskedText(ps) + p.gap + p.out.replacement
  {
    hide MaskedText;
    if ps == [] {
      EmptyResults();
      MaskedTextCons([p]);
      assert ps + [p] == [p] && [p][1..] == [];
    } else {
      MaskedTextAppend(ps[1..], p);
      MaskedTextCons(ps + [p]);
      MaskedTextCons(ps);
      assert (ps + [p])[0] == ps[0] && (ps + [p])[1..] == ps[1..] + [p];
    }
  }

  lemma MaskedTextCons(ps: seq<Piece>)
    requires ps != []
    ensures MaskedText(ps) == ps[0].gap + ps[0].out.replacement + MaskedText(ps[1..])
  {
    assert Forward(ps)[1..] == Forward(ps[1..]);
    assert Swapped(Forward(ps))[1..] == Swapped(Forward(ps[1..]));
  }

  lemma ReportsCons(ps: seq<Piece>, at: nat)
    requires ps != []
    ensures var next := MaskedSpan(ps[0], at).end;
      && next == at + |ps[0].gap + ps[0].out.replacement|
      && Infos(ps, at) == [InfoOf(ps[0], at)] + Infos(ps[1..], next)
      && Records(ps, at) == RecordOf(ps[0], at) + Records(ps[1..], next)
  {}

  lemma ReportsOne(p: Piece, at: nat)
    ensures Infos([p], at) == [InfoOf(p, at)] && Records([p], at) == RecordOf(p, at)
    ensures Infos([], at) == [] && Records([], at) == []
  {
    assert [p][1..] == [];
  }

  lemma {:induction false} InfosAppend(ps: seq<Piece>, p: Piece, at: nat)
    ensures Infos(ps + [p], at) == Infos(ps, at) + [InfoOf(p, at + |MaskedText(ps)|)]
    ensures Records(ps + [p], at) == Records(ps, at) + RecordOf(p, at + |MaskedText(ps)|)
    decreases |ps|
  {
    hide Infos, Records, MaskedText, InfoOf, RecordOf, MaskedSpan;
    if ps == [] {
      EmptyResults();
      ReportsOne(p, at);
      assert ps + [p] == [p];
    } else {
      var next := MaskedSpan(ps[0], at).end;
      MaskedTextCons(ps);
      ReportsCons(ps, at);
      ReportsCons(ps + [p], at);
      assert (ps + [p])[0] == ps[0] && (ps + [p])[1..] == ps[1..] + [p];
      InfosAppend(ps[1..], p, next);
    }
  }

  // ----- the loop of `mask_line` -----

  /** What the loop has done so far, followed by what `s` will do. */
  function Then(done: seq<Piece>, s: Spliced): Spliced { s.(pieces := done + s.pieces) }

  lemma ThenPut(done: seq<Piece>, p: Piece, s: Spliced)
    ensures Then(done, Put(p, s)) == Then(done + [p], s)
  {
    assert done + ([p] + s.pieces) == (done + [p]) + s.pieces;
  }

  /** The splice of the entities from index `i` on. */
  function Rest(u: Setup, p: Policy, text: string, es: seq<Entity>, i: nat, cursor: nat, st: Numbers): Spliced
    requires i <= |es| && cursor <= |text| && AllInText(es, text)
  {
    SpliceFrom(u, p, text, es[i..], cursor, st)
  }

  lemma RestStep(u: Setup, p: Policy, text: string, es: seq<Entity>, i: nat, cursor: nat, st: Numbers)
    requires i < |es| && cursor <= |text| && AllInText(es, text)
    ensures InText(es[i], text)
    ensures es[i].span.start < cursor ==>
      Rest(u, p, text, es, i, cursor, st) == Rest(u, p, text, es, i + 1, cursor, st)
    ensures es[i].span.start >= cursor ==>
      var e := es[i];
      var original := text[e.span.start..e.span.end];
      var (out, st') := MaskValue(u.maskers, p.KindOf(e.pdType), (e.pdType, e.canonical), original, st);
      Rest(u, p, text, es, i, cursor, st) ==
        Put(Piece(text[cursor..e.span.start], e, original, out), Rest(u, p, text, es, i + 1, e.span.end, st'))
  {
    hide MaskValue;
    assert es[i..][0] == es[i] && es[i..][1..] == es[i + 1..];
  }

  lemma RestEnds(u: Setup, p: Policy, text: string, es: seq<Entity>, cursor: nat, st: Numbers, done: seq<Piece>)
    requires cursor <= |text| && AllInText(es, text)
    ensures Rest(u, p, text, es, 0, cursor, st) == SpliceFrom(u, p, text, es, cursor, st)
    ensures Then(done, Rest(u, p, text, es, |es|, cursor, st)) == Spliced(done, text[cursor..], st)
  {
    assert es[0..] == es;
  }

  method MaskLine(u: Setup, p: Policy, original: string, es: seq<Entity>, state: MaskState) returns (r: MaskLineResult)
    requires AllInText(Selected(p, es), original)
    modifies state
    ensures var s := SpliceFrom(u, p, original, Prepared(u, p, original, es), 0, old(state.View()));
      r == ResultOf(s) && state.View() == s.state
  {
    hide Infos, Records, MaskedText, SpliceFrom, Rest, Prepared, Selected, MaskValue, AllInText, CanonicalOf;
    var entities := Prepare(u, p, original, es);
    ghost var whole := SpliceFrom(u, p, original, entities, 0, state.View());
    ghost var done: seq<Piece> := [];
    var text, cursor: nat := "", 0;
    var records, masked := [], [];
    EmptyResults();
    RestEnds(u, p, original, entities, 0, state.View(), []);
    for i := 0 to |entities|
      invariant cursor <= |original|
      invariant whole == Then(done, Rest(u, p, original, entities, i, cursor, state.View()))
      invariant text == MaskedText(done) && masked == Infos(done, 0) && records == Records(done, 0)
    {
      var e := entities[i];
      RestStep(u, p, original, entities, i, cursor, state.View());
      if e.span.start < cursor { continue; }
      var orig := original[e.span.start..e.span.end];
      var out := ApplyMasker(u.maskers, p.KindOf(e.pdType), e.pdType, e.canonical, orig, state);
      ghost var piece := Piece(original[cursor..e.span.start], e, orig, out);
      MaskedTextAppend(done, piece);
      InfosAppend(done, piece, 0);
      ThenPut(done, piece, Rest(u, p, original, entities, i + 1, e.span.end, state.View()));
      text := text + original[cursor..e.span.start];
      var maskedStart := |text|;
      text := text + out.replacement;
      var maskedEnd := |text|;
      cursor := e.span.end;
      if out.key.Some? {
        records := records + [MaskRecord(Span(maskedStart, maskedEnd), e.span, e.pdType, out.key.value)];
      }
      masked := masked + [MaskedInfo(e.pdType, e.span, Span(maskedStart, maskedEnd), out.replacement)];
      done := done + [piece];
    }
    RestEnds(u, p, original, entities, cursor, state.View(), done);
    text := text + original[cursor..];
    r := MaskLineResult(text, masked, records);
  }

  lemma EmptyResults()
    ensures MaskedText([]) == "" && Infos([], 0) == [] && Records([], 0) == []
  {}
}
