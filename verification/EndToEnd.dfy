/** The whole pipeline: candidates are resolved, filtered by the combination rules, spliced
    and recorded; demasking gives the text back. */
module EndToEnd {
  import opened Entities
  import opened Masking
  import opened Pipeline
  import opened Demask
  import opened RoundTrip
  import opened SpliceLaws
  import Combination
  import Inversion
  import Lines
  import Resolve
  import Scanner

  function EntitiesFrom(cs: seq<Candidate>): seq<Entity> {
    seq(|cs|, i requires 0 <= i < |cs| => Resolve.ToEntity(cs[i]))
  }

  /** What `resolve` and then `apply` make of the candidates. */
  function Detected(cands: seq<Candidate>, rk: Resolve.Ranking, rs: Combination.Rules): seq<Entity> {
    Combination.Applied(rs, EntitiesFrom(Resolve.Resolved(cands, rk)))
  }

  /** The candidates lie in the text. They may be empty: a detector's range inside what one
      character was folded to, but short of its end, translates to an empty span. */
  ghost predicate Located(cands: seq<Candidate>, text: string) {
    forall i | 0 <= i < |cands| :: cands[i].span.start <= cands[i].span.end <= |text|
  }

  /** None of those above their thresholds is empty and follows one with the same start that
      is not. */
  ghost predicate Harmless(cands: seq<Candidate>, rk: Resolve.Ranking) {
    Resolve.Harmless(Resolve.AboveThreshold(cands, rk))
  }

  lemma {:induction false} KeptApart(rs: Combination.Rules, all: seq<Entity>, es: seq<Entity>)
    requires Apart(es)
    ensures Apart(Combination.Kept(rs, all, es))
    ensures forall e <- Combination.Kept(rs, all, es) :: e in es
  {
    hide Combination.Keeps;
    if es != [] {
      KeptApart(rs, all, es[1..]);
      var kept := Combination.Kept(rs, all, es[1..]);
      forall j | 0 <= j < |kept| ensures es[0].span.end <= kept[j].span.start {
        assert kept[j] in kept && kept[j] in es[1..];
      }
    }
  }

  lemma AboveProper(cands: seq<Candidate>, rk: Resolve.Ranking, text: string)
    requires Located(cands, text)
    ensures Resolve.Proper(Resolve.AboveThreshold(cands, rk))
  {
    hide Resolve.AboveThreshold;
    var above := Resolve.AboveThreshold(cands, rk);
    Resolve.AboveThresholdExact(cands, rk);
    forall i | 0 <= i < |above| ensures above[i].span.start <= above[i].span.end { assert above[i] in cands; }
  }

  /** What is detected lies apart and inside the text. */
  lemma DetectedApart(cands: seq<Candidate>, rk: Resolve.Ranking, rs: Combination.Rules, text: string)
    requires Located(cands, text) && Harmless(cands, rk)
    ensures Apart(Detected(cands, rk, rs)) && AllInText(Detected(cands, rk, rs), text)
    ensures forall e <- Detected(cands, rk, rs) :: exists c <- cands :: c.span == e.span
  {
    hide Resolve.Resolved, Combination.Kept, Resolve.AboveThreshold, Resolve.Harmless;
    var sel := Resolve.Resolved(cands, rk);
    var es := EntitiesFrom(sel);
    AboveProper(cands, rk, text);
    Resolve.ResolveSafe(cands, rk);
    assert forall i | 0 <= i < |es| :: es[i].span == sel[i].span;
    KeptApart(rs, es, es);
    var kept := Detected(cands, rk, rs);
    forall e <- kept ensures exists c <- cands :: c.span == e.span {
      assert e in es;
      var j :| 0 <= j < |es| && es[j] == e;
      assert sel[j] in sel && sel[j] in cands && sel[j].span == e.span;
    }
    forall i | 0 <= i < |kept| ensures InText(kept[i], text) { assert kept[i] in kept; }
  }

  /** In whole-address mode no detected entity of the policy's types is left unmasked: the
      overlap skip of `mask_line` never fires. */
  lemma WholeModeMasksAll(u: Setup, p: Policy, text: string, cands: seq<Candidate>, rk: Resolve.Ranking,
                          rs: Combination.Rules, st: Numbers)
    requires !p.components && Located(cands, text) && Harmless(cands, rk)
    ensures var es := Detected(cands, rk, rs);
      && AllInText(Selected(p, es), text)
      && var kept := Retain(es, p.types);
      var masked := EntitiesOf(SpliceFrom(u, p, text, Prepared(u, p, text, es), 0, st).pieces);
      && |masked| == |kept|
      && forall i | 0 <= i < |kept| :: InText(kept[i], text) && masked[i] == SetCanonical(u, text, kept[i])
  {
    hide Detected, SpliceFrom, Retain, Selected, SetCanonical, Harmless;
    DetectedApart(cands, rk, rs, text);
    ApartLineMasksAll(u, p, text, Detected(cands, rk, rs), st);
  }

  // ----- what reaches the splice -----

  /** Candidate `i` of the selection survives the combination rules. */
  predicate Survives(sel: seq<Candidate>, rs: Combination.Rules, i: nat)
    requires i < |sel|
  {
    Combination.Keeps(rs, EntitiesFrom(sel), EntitiesFrom(sel)[i])
  }

  function OfTypes(cs: seq<Candidate>, types: set<PdType>): seq<Candidate> {
    if cs == [] then [] else (if cs[0].pdType in types then [cs[0]] else []) + OfTypes(cs[1..], types)
  }

  /** What one candidate hands on: in component mode an ADDRESS hands on its components, if it
      has any, and is not itself there; of all this only the policy's types. */
  function HandsOn(p: Policy, c: Candidate): seq<Candidate> {
    OfTypes(if p.components && c.pdType == "ADDRESS" && c.components != [] then c.components else [c], p.types)
  }

  /** What the surviving candidates from `i` on hand on, in their order. */
  function HandedOn(p: Policy, sel: seq<Candidate>, rs: Combination.Rules, i: nat): seq<Candidate>
    requires i <= |sel|
    decreases |sel| - i
  {
    if i == |sel| then []
    else (if Survives(sel, rs, i) then HandsOn(p, sel[i]) else []) + HandedOn(p, sel, rs, i + 1)
  }

  ghost predicate AllCarry(es: seq<Entity>, cs: seq<Candidate>) {
    |es| == |cs| && forall i | 0 <= i < |es| :: Resolve.Carries(es[i], cs[i])
  }

  lemma AllCarryAppend(es: seq<Entity>, cs: seq<Candidate>, fs: seq<Entity>, ds: seq<Candidate>)
    requires AllCarry(es, cs) && AllCarry(fs, ds)
    ensures AllCarry(es + fs, cs + ds)
  {
    hide Resolve.Carries;
  }

  lemma {:induction false} RetainCarries(es: seq<Entity>, cs: seq<Candidate>, types: set<PdType>)
    requires AllCarry(es, cs)
    ensures AllCarry(Retain(es, types), OfTypes(cs, types))
    decreases |es|
  {
    if es != [] {
      assert Resolve.Carries(es[0], cs[0]);
      RetainCarries(es[1..], cs[1..], types);
    }
  }

  lemma {:induction false} RetainSum(a: seq<Entity>, b: seq<Entity>, types: set<PdType>)
    ensures Retain(a + b, types) == Retain(a, types) + Retain(b, types)
  {
    if a == [] {
      assert a + b == b;
    } else {
      assert (a + b)[1..] == a[1..] + b;
      RetainSum(a[1..], b, types);
      var first := if a[0].pdType in types then [a[0]] else [];
      assert first + (Retain(a[1..], types) + Retain(b, types)) == first + Retain(a[1..], types) + Retain(b, types);
    }
  }

  /** One entity of a candidate, after expansion and filter. */
  lemma OneHandsOn(p: Policy, e: Entity, c: Candidate)
    requires Resolve.Carries(e, c)
    ensures AllCarry(Retain(if p.components && Splits(e) then e.components else [e], p.types), HandsOn(p, c))
  {
    hide Retain, OfTypes;
    var split := p.components && c.pdType == "ADDRESS" && c.components != [];
    RetainCarries(if split then e.components else [e], if split then c.components else [c], p.types);
  }

  lemma SelectedCons(p: Policy, e: Entity, rest: seq<Entity>)
    ensures Selected(p, [e] + rest) ==
      Retain(if p.components && Splits(e) then e.components else [e], p.types) + Selected(p, rest)
  {
    hide Retain;
    assert ([e] + rest)[1..] == rest;
    RetainSum(if p.components && Splits(e) then e.components else [e],
              if p.components then Expand(rest) else rest, p.types);
  }

  lemma {:induction false} KeptHandsOn(p: Policy, sel: seq<Candidate>, rs: Combination.Rules, i: nat)
    requires i <= |sel|
    ensures AllCarry(Selected(p, Combination.Kept(rs, EntitiesFrom(sel), EntitiesFrom(sel)[i..])),
              HandedOn(p, sel, rs, i))
    decreases |sel| - i
  {
    hide Selected, HandsOn, Combination.Keeps, AllCarry, Resolve.Carries;
    var all := EntitiesFrom(sel);
    if i == |sel| {
      NothingHandedOn(p);
    } else {
      assert all[i..][0] == all[i] && all[i..][1..] == all[i + 1..];
      KeptHandsOn(p, sel, rs, i + 1);
      var rest := Combination.Kept(rs, all, all[i + 1..]);
      if Survives(sel, rs, i) {
        Resolve.EntityCarries(sel[i]);
        OneHandsOn(p, all[i], sel[i]);
        SelectedCons(p, all[i], rest);
        AllCarryAppend(
          Retain(if p.components && Splits(all[i]) then all[i].components else [all[i]], p.types), HandsOn(p, sel[i]),
          Selected(p, rest), HandedOn(p, sel, rs, i + 1));
      } else {
        assert Combination.Kept(rs, all, all[i..]) == [] + rest == rest;
        assert HandedOn(p, sel, rs, i) == [] + HandedOn(p, sel, rs, i + 1) == HandedOn(p, sel, rs, i + 1);
      }
    }
  }

  lemma NothingHandedOn(p: Policy)
    ensures Selected(p, []) == [] && AllCarry([], [])
  {}

  /** What reaches the splice, one for one: the surviving candidates with their types, spans and
      components, each ADDRESS with components replaced by these in component mode, and only
      the policy's types. */
  lemma SelectedFromCandidates(p: Policy, cands: seq<Candidate>, rk: Resolve.Ranking, rs: Combination.Rules)
    ensures AllCarry(Selected(p, Detected(cands, rk, rs)), HandedOn(p, Resolve.Resolved(cands, rk), rs, 0))
  {
    hide Selected, HandedOn, Combination.Kept, AllCarry, Resolve.Resolved;
    var all := EntitiesFrom(Resolve.Resolved(cands, rk));
    KeptHandsOn(p, Resolve.Resolved(cands, rk), rs, 0);
    assert all[0..] == all;
  }

  lemma {:induction false} OfTypesExact(cs: seq<Candidate>, types: set<PdType>)
    ensures forall c :: c in OfTypes(cs, types) <==> c in cs && c.pdType in types
  {
    if cs != [] {
      OfTypesExact(cs[1..], types);
      assert forall c :: c in cs <==> c == cs[0] || c in cs[1..];
    }
  }

  /** In component mode a surviving ADDRESS with components hands on exactly those of its
      components whose types the policy has; a surviving candidate that is no such ADDRESS
      hands on itself, if the policy has its type. */
  lemma HandsOnExact(p: Policy, c: Candidate)
    ensures p.components && c.pdType == "ADDRESS" && c.components != [] ==>
      forall x :: x in HandsOn(p, c) <==> x in c.components && x.pdType in p.types
    ensures !(p.components && c.pdType == "ADDRESS" && c.components != []) ==>
      HandsOn(p, c) == if c.pdType in p.types then [c] else []
  {
    OfTypesExact(c.components, p.types);
    assert [c][1..] == [] && OfTypes([c][1..], p.types) == [];
    assert OfTypes([c], p.types) == if c.pdType in p.types then [c] else [];
  }

  /** The splice visits each of them at its own span, and nothing else. */
  lemma SpliceVisits(u: Setup, p: Policy, text: string, cands: seq<Candidate>, rk: Resolve.Ranking,
                     rs: Combination.Rules, t: PdType, span: Span, score: real)
    requires AllInText(Selected(p, Detected(cands, rk, rs)), text)
    ensures var visited := Prepared(u, p, text, Detected(cands, rk, rs));
      var handed := HandedOn(p, Resolve.Resolved(cands, rk), rs, 0);
      && |visited| == |handed|
      && ((exists e <- visited :: e.pdType == t && e.span == span && e.score == score) <==>
            exists c <- handed :: c.pdType == t && c.span == span && c.score == score)
  {
    SelectedFromCandidates(p, cands, rk, rs);
    hide Selected, HandedOn, Detected, CanonicalOf, StableSort, SortedBy, WithKey;
    var chosen := Selected(p, Detected(cands, rk, rs));
    var handed := HandedOn(p, Resolve.Resolved(cands, rk), rs, 0);
    var named := seq(|chosen|, i requires 0 <= i < |chosen| => SetCanonical(u, text, chosen[i]));
    var visited := Prepared(u, p, text, Detected(cands, rk, rs));
    StableSortCorrect(named, EntityByStart());
    if exists e <- visited :: e.pdType == t && e.span == span && e.score == score {
      var e :| e in visited && e.pdType == t && e.span == span && e.score == score;
      var i :| 0 <= i < |named| && named[i] == e;
      assert Resolve.Carries(chosen[i], handed[i]);
    }
    if exists c <- handed :: c.pdType == t && c.span == span && c.score == score {
      var c :| c in handed && c.pdType == t && c.span == span && c.score == score;
      var i :| 0 <= i < |handed| && handed[i] == c;
      assert Resolve.Carries(chosen[i], handed[i]);
      assert named[i] in named && named[i] in visited;
    }
  }

  lemma {:induction false} LaidNonEmpty(ps: seq<Piece>, text: string, cursor: nat)
    requires Laid(ps, text, cursor) && forall i | 0 <= i < |ps| :: !EntitiesOf(ps)[i].span.IsEmpty()
    ensures Inversion.NonEmptyRecords(ps)
    decreases |ps|
  {
    hide RoundTrip.IsPlaceholder;
    if ps != [] {
      var es := EntitiesOf(ps);
      assert es[1..] == EntitiesOf(ps[1..]);
      forall i | 0 <= i < |ps[1..]| ensures !EntitiesOf(ps[1..])[i].span.IsEmpty() { assert es[1..][i] == es[i + 1]; }
      assert !es[0].span.IsEmpty();
      LaidNonEmpty(ps[1..], text, ps[0].entity.span.end);
    }
  }

  lemma {:induction false} RetainSome(es: seq<Entity>, types: set<PdType>)
    ensures forall e <- Retain(es, types) :: e in es
  {
    if es != [] { RetainSome(es[1..], types); }
  }

  lemma NonEmptyHarmless(cands: seq<Candidate>, rk: Resolve.Ranking)
    requires forall c <- cands :: !c.span.IsEmpty()
    ensures Harmless(cands, rk)
  {
    hide Resolve.Harmless, Resolve.AboveThreshold;
    forall i | 0 <= i < |cands| ensures !cands[i].span.IsEmpty() { assert cands[i] in cands; }
    Resolve.NonEmptyHarmless(cands, rk);
  }

  /** Of non-empty candidates only non-empty values are recorded. */
  lemma NonEmptyLine(u: Setup, p: Policy, text: string, cands: seq<Candidate>, rk: Resolve.Ranking,
      rs: Combination.Rules)
    requires !p.components && Located(cands, text) && forall c <- cands :: !c.span.IsEmpty()
    ensures var es := Detected(cands, rk, rs);
      && AllInText(Selected(p, es), text)
      && Inversion.NonEmptyRecords(Lines.MaskedLine(u, p, text, es).pieces)
  {
    hide Detected, SpliceFrom, Prepared, Selected, CanonicalOf, Laid, EntitiesOf, Retain, AllInText, Harmless;
    var es := Detected(cands, rk, rs);
    NonEmptyHarmless(cands, rk);
    WholeModeMasksAll(u, p, text, cands, rk, rs, NoNumbers);
    DetectedApart(cands, rk, rs, text);
    RetainSome(es, p.types);
    var kept, ps := Retain(es, p.types), Lines.MaskedLine(u, p, text, es).pieces;
    SpliceLaid(u, p, text, Prepared(u, p, text, es), 0, NoNumbers);
    forall i | 0 <= i < |ps| ensures !EntitiesOf(ps)[i].span.IsEmpty() {
      assert kept[i] in kept && kept[i] in es;
      var c :| c in cands && c.span == kept[i].span;
    }
    LaidNonEmpty(ps, text, 0);
  }

  /** From detectors to demasking: whatever the detectors found, demasking gives the text
      back, with values that have no record shown as their masks. In whole-address mode every
      detected value of the policy's types is masked, and if no recorded value is empty, each
      record is restored once. */
  lemma PipelineRoundTrip(k: Scanner.Classes, u: Setup, p: Policy, text: string, cands: seq<Candidate>,
                          rk: Resolve.Ranking, rs: Combination.Rules)
    requires Lines.Scannable(u, p) && Lines.StarKinds(p)
    requires var es := Detected(cands, rk, rs);
      && AllInText(Selected(p, es), text)
      && var s := Lines.MaskedLine(u, p, text, es);
      && Inversion.NoAccidentalKey(k, s) && Lines.SameSpelling(EntriesOf(s.pieces))
      && Inversion.NoPlaceholderIn(Lines.ShownLine(s), s.pieces)
      && (Inversion.NoStars(s) || Inversion.MasksAtHome(s))
    ensures var es := Detected(cands, rk, rs);
      var s := Lines.MaskedLine(u, p, text, es);
      var m := Lines.MappingOf(text, s);
      var r := Demasked(k, m.masked, m);
      && r.text == Lines.ShownLine(s) && (Lines.FullyRecorded(p) ==> r.text == text)
      && (!p.components && Located(cands, text) && Harmless(cands, rk) ==> |s.pieces| == |Retain(es, p.types)|)
      && (!p.components && Located(cands, text) && (forall c <- cands :: !c.span.IsEmpty()) ==>
            Inversion.NonEmptyRecords(s.pieces))
      && (Inversion.NonEmptyRecords(s.pieces) ==> r.restored == |m.entries|)
      && (Lines.FullyRecorded(p) ==> |m.entries| == |s.pieces|)
  {
    hide *;
    var es := Detected(cands, rk, rs);
    Inversion.MixedRoundTrip(k, u, p, text, es);
    if !p.components && Located(cands, text) {
      if Harmless(cands, rk) { WholeModeMasksAll(u, p, text, cands, rk, rs, NoNumbers); }
      if forall c <- cands :: !c.span.IsEmpty() { NonEmptyLine(u, p, text, cands, rk, rs); }
    }
    LineCounts(u, p, text, es);
    SplicedPieces(u, p, text, es);
  }

  lemma SplicedPieces(u: Setup, p: Policy, text: string, es: seq<Entity>)
    requires AllInText(Selected(p, es), text)
    ensures Lines.MaskedLine(u, p, text, es) == SpliceFrom(u, p, text, Prepared(u, p, text, es), 0, NoNumbers)
    ensures forall s: Spliced :: Lines.MappingOf(text, s).entries == EntriesOf(s.pieces)
  {}

  lemma {:induction false} EntryPerPiece(ps: seq<Piece>)
    requires forall i | 0 <= i < |ps| :: ps[i].out.key.Some?
    ensures |EntriesOf(ps)| == |ps|
    decreases |ps|
  {
    if ps != [] { EntryPerPiece(ps[1..]); }
  }

  lemma LineCounts(u: Setup, p: Policy, text: string, es: seq<Entity>)
    requires AllInText(Selected(p, es), text) && Lines.Scannable(u, p) && Lines.StarKinds(p)
    ensures var ps := Lines.MaskedLine(u, p, text, es).pieces;
      && (Inversion.NonEmptyRecords(ps) ==> Placeholders(ps) + FiledForms(ps) == |EntriesOf(ps)|)
      && (Lines.FullyRecorded(p) ==> |EntriesOf(ps)| == |ps|)
  {
    hide EntriesOf, Lines.MaskedLine, Lines.Scannable, Lines.StarKinds, Lines.ShownLine, PartialsOnly, NoneFiled,
      IsPlaceholder, Numbered, Lines.HasPartial, Placeholders, FiledForms, Inversion.NonEmptyRecords,
      Lines.NoPlaceholderKey;
    var s := Lines.MaskedLine(u, p, text, es);
    Lines.LineWellMasked(u, p, text, es);
    Lines.StarKindsPartial(u, p, s);
    if Inversion.NonEmptyRecords(s.pieces) { Inversion.CountRestored(s.pieces); }
    if Lines.FullyRecorded(p) {
      forall i | 0 <= i < |s.pieces| ensures s.pieces[i].out.key.Some? {
        assert Lines.Keyed(u, p, s.state, s.pieces[i]);
      }
      EntryPerPiece(s.pieces);
    }
  }
}
