/** `DefaultResolver::resolve`: thresholds, stable sort by start, and the sweep that
    compares each candidate with the last selected one only. */
module Resolve {
  import opened Entities

  datatype Ranking = Ranking(thresholds: map<PdType, real>, priorities: map<PdType, int>) {
    function Threshold(t: PdType): real { if t in thresholds then thresholds[t] else 0.6 }
    function Priority(t: PdType): int { if t in priorities then priorities[t] else 50 }
  }

  /** `f32::EPSILON`, 2 to the power -23. */
  const EPSILON: real := 1.0 / 8388608.0

  function Abs(x: real): real { if x < 0.0 then -x else x }

  /** True iff `a` is preferred to `b`. */
  predicate AWins(a: Candidate, b: Candidate, rk: Ranking) {
    if a.checksumOk != b.checksumOk then a.checksumOk
    else if rk.Priority(a.pdType) != rk.Priority(b.pdType) then rk.Priority(a.pdType) > rk.Priority(b.pdType)
    else if Abs(a.score - b.score) > EPSILON then a.score > b.score
    else a.span.Len() > b.span.Len()
  }

  function AboveThreshold(cs: seq<Candidate>, rk: Ranking): seq<Candidate> {
    if cs == [] then []
    else (if cs[0].score >= rk.Threshold(cs[0].pdType) then [cs[0]] else []) + AboveThreshold(cs[1..], rk)
  }

  function Ordered(cs: seq<Candidate>, rk: Ranking): seq<Candidate> {
    StableSort(AboveThreshold(cs, rk), CandidateByStart())
  }

  /** A selected ADDRESS absorbs a candidate one of whose components it overlaps. */
  predicate Absorbs(last: Candidate, c: Candidate) {
    && last.pdType == ADDRESS
    && exists i | 0 <= i < |c.components| :: c.components[i].span.Overlaps(last.span)
  }

  function Step(sel: seq<Candidate>, c: Candidate, rk: Ranking): seq<Candidate> {
    if sel == [] || !sel[|sel| - 1].span.Overlaps(c.span) then sel + [c]
    else
      var last := sel[|sel| - 1];
      if !Absorbs(last, c) && AWins(c, last, rk) then sel[..|sel| - 1] + [c] else sel
  }

  /** The selection after the first `n` candidates. */
  function Sweep(cs: seq<Candidate>, n: nat, rk: Ranking): seq<Candidate>
    requires n <= |cs|
  {
    if n == 0 then [] else Step(Sweep(cs, n - 1, rk), cs[n - 1], rk)
  }

  function ToEntity(c: Candidate): Entity
    decreases c
  {
    var parts := seq(|c.components|, i requires 0 <= i < |c.components| => ToEntity(c.components[i]));
    Entity(c.pdType, c.span, c.score, parts, "")
  }

  /** The entity has its candidate's type, span and score, and carries each of its components. */
  ghost predicate Carries(e: Entity, c: Candidate)
    decreases c
  {
    && e.pdType == c.pdType && e.span == c.span && e.score == c.score && e.canonical == ""
    && |e.components| == |c.components|
    && forall i | 0 <= i < |c.components| :: Carries(e.components[i], c.components[i])
  }

  lemma {:induction false} EntityCarries(c: Candidate)
    ensures Carries(ToEntity(c), c)
    decreases c
  {
    forall i | 0 <= i < |c.components| ensures Carries(ToEntity(c.components[i]), c.components[i]) {
      EntityCarries(c.components[i]);
    }
  }

  function Resolved(cs: seq<Candidate>, rk: Ranking): seq<Candidate> {
    var ordered := Ordered(cs, rk);
    Sweep(ordered, |ordered|, rk)
  }

  method ResolveAll(cands: seq<Candidate>, rk: Ranking) returns (entities: seq<Entity>)
    ensures |entities| == |Resolved(cands, rk)|
    ensures forall i | 0 <= i < |entities| :: entities[i] == ToEntity(Resolved(cands, rk)[i])
    ensures forall i | 0 <= i < |entities| :: Carries(entities[i], Resolved(cands, rk)[i])
  {
    var cs := Ordered(cands, rk);
    var selected: seq<Candidate> := [];
    for i := 0 to |cs|
      invariant selected == Sweep(cs, i, rk)
    {
      var cand := cs[i];
      if selected != [] {
        var last := selected[|selected| - 1];
        if last.span.Overlaps(cand.span) {
          if Absorbs(last, cand) { continue; }
          if AWins(cand, last, rk) {
            selected := selected[..|selected| - 1] + [cand];
          }
          continue;
        }
      }
      selected := selected + [cand];
    }
    entities := seq(|selected|, i requires 0 <= i < |selected| => ToEntity(selected[i]));
    forall i | 0 <= i < |entities| ensures Carries(entities[i], Resolved(cands, rk)[i]) { EntityCarries(selected[i]); }
  }

  // ----- safety -----

  /** Spans as the byte map gives them: the end is not before the start, but may be there. */
  ghost predicate Proper(cs: seq<Candidate>) { forall i | 0 <= i < |cs| :: cs[i].span.start <= cs[i].span.end }

  /** No empty candidate comes after a non-empty one that starts at the same place. */
  ghost predicate Harmless(cs: seq<Candidate>) {
    forall i, j | 0 <= i < j < |cs| ::
      !cs[i].span.IsEmpty() && cs[j].span.IsEmpty() ==> cs[i].span.start != cs[j].span.start
  }

  /** Sorted by start and pairwise disjoint. */
  ghost predicate Disjoint(cs: seq<Candidate>) {
    forall i, j | 0 <= i < j < |cs| :: cs[i].span.end <= cs[j].span.start
  }

  lemma AboveThresholdExact(cs: seq<Candidate>, rk: Ranking)
    ensures forall c :: c in AboveThreshold(cs, rk) <==> c in cs && c.score >= rk.Threshold(c.pdType)
  {
    if cs != [] {
      AboveThresholdExact(cs[1..], rk);
      assert forall c :: c in cs <==> c == cs[0] || c in cs[1..];
    }
  }

  /** The argument of the sweep: a candidate that starts no earlier than the last selected one,
      and is not an empty one at its very start, overlaps no other selected one. */
  lemma StepSafe(sel: seq<Candidate>, c: Candidate, rk: Ranking)
    requires Disjoint(sel) && Proper(sel) && c.span.start <= c.span.end
    requires sel != [] ==>
      var last := sel[|sel| - 1].span;
      last.start <= c.span.start && !(!last.IsEmpty() && c.span.IsEmpty() && last.start == c.span.start)
    ensures forall i | 0 <= i < |sel| - 1 :: !sel[i].span.Overlaps(c.span)
    ensures Disjoint(Step(sel, c, rk)) && Proper(Step(sel, c, rk))
  {
    hide AWins, Absorbs;
    if sel != [] {
      var last := sel[|sel| - 1];
      assert forall i | 0 <= i < |sel| - 1 :: sel[i].span.end <= last.span.start;
    }
  }

  ghost predicate Subset(sel: seq<Candidate>, cs: seq<Candidate>) { forall i | 0 <= i < |sel| :: sel[i] in cs }

  lemma StepSubset(sel: seq<Candidate>, cs: seq<Candidate>, c: Candidate, rk: Ranking)
    requires Subset(sel, cs)
    ensures Subset(Step(sel, c, rk), cs + [c])
  {
    hide AWins, Absorbs;
  }

  lemma StartsBefore(sel: seq<Candidate>, cs: seq<Candidate>, n: nat)
    requires n < |cs| && SortedBy(cs, CandidateByStart()) && Subset(sel, cs[..n]) && sel != [] && Harmless(cs)
    ensures var last, next := sel[|sel| - 1].span, cs[n].span;
      last.start <= next.start && !(!last.IsEmpty() && next.IsEmpty() && last.start == next.start)
  {
    assert sel[|sel| - 1] in cs[..n];
    var j :| 0 <= j < n && cs[..n][j] == sel[|sel| - 1];
    assert CandidateByStart()(cs[j]) <= CandidateByStart()(cs[n]);
  }

  lemma {:induction false} SweepSafe(cs: seq<Candidate>, n: nat, rk: Ranking)
    requires n <= |cs| && Proper(cs) && Harmless(cs) && SortedBy(cs, CandidateByStart())
    ensures var sel := Sweep(cs, n, rk);
      Disjoint(sel) && Proper(sel) && Subset(sel, cs[..n])
  {
    hide Step, Disjoint, Subset, SortedBy, Harmless;
    if n == 0 {
      EmptyDisjoint();
    } else {
      var sel := Sweep(cs, n - 1, rk);
      SweepSafe(cs, n - 1, rk);
      if sel != [] { StartsBefore(sel, cs, n - 1); }
      StepSafe(sel, cs[n - 1], rk);
      StepSubset(sel, cs[..n - 1], cs[n - 1], rk);
      assert cs[..n] == cs[..n - 1] + [cs[n - 1]];
    }
  }

  lemma EmptyDisjoint()
    ensures Disjoint([]) && Proper([]) && forall cs :: Subset([], cs)
  {}

  lemma {:induction false} WithKeySome(cs: seq<Candidate>, n: int)
    ensures forall c :: c in WithKey(cs, CandidateByStart(), n) <==> c in cs && c.span.start == n
  {
    if cs != [] {
      WithKeySome(cs[1..], n);
      assert forall c :: c in cs <==> c == cs[0] || c in cs[1..];
    }
  }

  /** Whether an empty span does harm is decided start by start, */
  lemma {:induction false} HarmlessWithKey(cs: seq<Candidate>, n: int)
    requires Harmless(cs)
    ensures Harmless(WithKey(cs, CandidateByStart(), n))
  {
    if cs != [] {
      var rest := WithKey(cs[1..], CandidateByStart(), n);
      HarmlessWithKey(cs[1..], n);
      WithKeySome(cs[1..], n);
      forall j | 0 <= j < |rest| && !cs[0].span.IsEmpty() && rest[j].span.IsEmpty()
        ensures cs[0].span.start != rest[j].span.start
      {
        assert rest[j] in rest && rest[j] in cs[1..];
      }
    }
  }

  /** in both directions, */
  lemma {:induction false} HarmlessByKeys(cs: seq<Candidate>)
    requires forall n :: Harmless(WithKey(cs, CandidateByStart(), n))
    ensures Harmless(cs)
  {
    if cs != [] {
      forall n ensures Harmless(WithKey(cs[1..], CandidateByStart(), n)) { SuffixHarmless(cs, n); }
      HarmlessByKeys(cs[1..]);
      forall j | 1 <= j < |cs| && !cs[0].span.IsEmpty() && cs[j].span.IsEmpty()
        ensures cs[0].span.start != cs[j].span.start
      {
        if cs[0].span.start == cs[j].span.start { FirstHarmless(cs, j); }
      }
      assert forall i, j | 1 <= i < j < |cs| :: cs[i] == cs[1..][i - 1] && cs[j] == cs[1..][j - 1];
    }
  }

  lemma SuffixHarmless(cs: seq<Candidate>, n: int)
    requires cs != [] && Harmless(WithKey(cs, CandidateByStart(), n))
    ensures Harmless(WithKey(cs[1..], CandidateByStart(), n))
  {
    var all, rest := WithKey(cs, CandidateByStart(), n), WithKey(cs[1..], CandidateByStart(), n);
    var k := |all| - |rest|;
    assert forall i | 0 <= i < |rest| :: rest[i] == all[i + k];
  }

  lemma FirstHarmless(cs: seq<Candidate>, j: nat)
    requires 1 <= j < |cs| && !cs[0].span.IsEmpty() && cs[j].span.IsEmpty() && cs[0].span.start == cs[j].span.start
    ensures !Harmless(WithKey(cs, CandidateByStart(), cs[0].span.start))
  {
    var n := cs[0].span.start;
    var all, rest := WithKey(cs, CandidateByStart(), n), WithKey(cs[1..], CandidateByStart(), n);
    assert all == [cs[0]] + rest && cs[j] == cs[1..][j - 1];
    WithKeySome(cs[1..], n);
    var i :| 0 <= i < |rest| && rest[i] == cs[j];
    assert all[i + 1] == cs[j];
  }

  /** so the stable sort does not change it. */
  lemma SortHarmless(cs: seq<Candidate>)
    requires Harmless(cs)
    ensures Harmless(StableSort(cs, CandidateByStart()))
  {
    hide StableSort, Harmless;
    StableSortCorrect(cs, CandidateByStart());
    forall n ensures Harmless(WithKey(StableSort(cs, CandidateByStart()), CandidateByStart(), n)) {
      HarmlessWithKey(cs, n);
    }
    HarmlessByKeys(StableSort(cs, CandidateByStart()));
  }

  lemma OrderedProper(cs: seq<Candidate>, rk: Ranking)
    requires Proper(AboveThreshold(cs, rk))
    ensures Proper(Ordered(cs, rk)) && SortedBy(Ordered(cs, rk), CandidateByStart())
    ensures forall c <- Ordered(cs, rk) :: c in cs && c.score >= rk.Threshold(c.pdType)
  {
    hide StableSort, AboveThreshold, SortedBy;
    var above, ordered := AboveThreshold(cs, rk), Ordered(cs, rk);
    AboveThresholdExact(cs, rk);
    StableSortCorrect(above, CandidateByStart());
    forall c <- ordered ensures c in above {}
    forall i | 0 <= i < |ordered| ensures ordered[i].span.start <= ordered[i].span.end {
      assert ordered[i] in above;
    }
  }

  /** Sweep safety: unless an empty candidate follows a non-empty one with the same start,
      `resolve` selects candidates above their thresholds, sorted by start and pairwise
      disjoint. */
  lemma ResolveSafe(cs: seq<Candidate>, rk: Ranking)
    requires Proper(AboveThreshold(cs, rk)) && Harmless(AboveThreshold(cs, rk))
    ensures var sel := Resolved(cs, rk);
      && Disjoint(sel)
      && forall c <- sel :: c in cs && c.score >= rk.Threshold(c.pdType)
  {
    hide AWins, Absorbs, Disjoint, Sweep, StableSort, AboveThreshold, Harmless, SortedBy;
    var ordered := Ordered(cs, rk);
    OrderedProper(cs, rk);
    SortHarmless(AboveThreshold(cs, rk));
    SweepSafe(ordered, |ordered|, rk);
    assert ordered[..|ordered|] == ordered;
    forall c <- Resolved(cs, rk) ensures c in ordered {
      var i :| 0 <= i < |Resolved(cs, rk)| && Resolved(cs, rk)[i] == c;
    }
  }

  /** In particular if no candidate is empty. */
  lemma NonEmptyHarmless(cs: seq<Candidate>, rk: Ranking)
    requires forall i | 0 <= i < |cs| :: !cs[i].span.IsEmpty()
    ensures Proper(AboveThreshold(cs, rk)) && Harmless(AboveThreshold(cs, rk))
  {
    hide AboveThreshold;
    var above := AboveThreshold(cs, rk);
    AboveThresholdExact(cs, rk);
    forall i | 0 <= i < |above| ensures !above[i].span.IsEmpty() { assert above[i] in above && above[i] in cs; }
  }

  /** An empty span at the start of a selected candidate hides it from the sweep: whatever
      starts inside that candidate is then selected as well. */
  lemma EmptySpanBreaksSweep(a: Candidate, e: Candidate, c: Candidate, rk: Ranking)
    requires !a.span.IsEmpty() && !c.span.IsEmpty() && e.span == Span(a.span.start, a.span.start)
    requires a.span.start <= c.span.start < a.span.end
    requires forall x <- [a, e, c] :: x.score >= rk.Threshold(x.pdType)
    ensures Resolved([a, e, c], rk) == [a, e, c] && a.span.Overlaps(c.span)
  {
    var cs := [a, e, c];
    assert a in cs && e in cs && c in cs;
    ThreeAbove(a, e, c, rk);
    SortOfSorted(cs, CandidateByStart());
    hide AboveThreshold, StableSort, Sweep, SortedBy;
    AllSelected(a, e, c, rk);
  }

  lemma AllSelected(a: Candidate, b: Candidate, c: Candidate, rk: Ranking)
    requires !a.span.Overlaps(b.span) && !b.span.Overlaps(c.span)
    ensures Sweep([a, b, c], 3, rk) == [a, b, c]
  {
    hide AWins, Absorbs;
    SweptThree(a, b, c, rk);
    assert Step([a], b, rk) == [a, b];
  }

  // ----- dominance -----

  /** Distinct scores differ by more than the epsilon. */
  ghost predicate Separated(cs: seq<Candidate>) {
    forall a <- cs, b <- cs :: a.score != b.score ==> Abs(a.score - b.score) > EPSILON
  }

  /** What the preference looks at, most important first. */
  function Merits(c: Candidate, rk: Ranking): seq<real> {
    [if c.checksumOk then 1.0 else 0.0, rk.Priority(c.pdType) as real, c.score, c.span.Len() as real]
  }

  predicate LexGreater(a: seq<real>, b: seq<real>)
    requires |a| == |b|
  {
    a != [] && (a[0] > b[0] || (a[0] == b[0] && LexGreater(a[1..], b[1..])))
  }

  lemma LexFour(a: seq<real>, b: seq<real>)
    requires |a| == |b| == 4
    ensures LexGreater(a, b) <==>
      a[0] > b[0] || (a[0] == b[0] && (a[1] > b[1] || (a[1] == b[1] && (a[2] > b[2] || (a[2] == b[2] && a[3] > b[3])))))
  {
    var a3, b3 := a[1..][1..][1..], b[1..][1..][1..];
    assert LexGreater(a3, b3) <==> a[3] > b[3];
    assert LexGreater(a[1..][1..], b[1..][1..]) <==> a[2] > b[2] || (a[2] == b[2] && LexGreater(a3, b3));
    assert LexGreater(a[1..], b[1..]) <==> a[1] > b[1] || (a[1] == b[1] && LexGreater(a[1..][1..], b[1..][1..]));
  }

  /** On separated scores `AWins` compares check sum, priority, score and length, in this order. */
  lemma AWinsIsLexicographic(cs: seq<Candidate>, a: Candidate, b: Candidate, rk: Ranking)
    requires Separated(cs) && a in cs && b in cs
    ensures AWins(a, b, rk) <==> LexGreater(Merits(a, rk), Merits(b, rk))
  {
    hide LexGreater;
    LexFour(Merits(a, rk), Merits(b, rk));
  }

  /** Of three candidates alike in check sum and priority, the middle score is within the
      epsilon of both others, these are further apart, and the lengths do not grow with the
      scores. */
  predicate Inverted(a: Candidate, b: Candidate, c: Candidate, rk: Ranking) {
    && a.checksumOk == b.checksumOk == c.checksumOk
    && rk.Priority(a.pdType) == rk.Priority(b.pdType) == rk.Priority(c.pdType)
    && a.score < b.score < c.score
    && b.score - a.score <= EPSILON && c.score - b.score <= EPSILON && c.score - a.score > EPSILON
    && a.span.Len() >= b.span.Len() >= c.span.Len()
  }

  ghost predicate Orderly(cs: seq<Candidate>, rk: Ranking) {
    forall a <- cs, b <- cs, c <- cs :: !Inverted(a, b, c, rk)
  }

  /** Irreflexive, asymmetric, transitive, and "no winner" is transitive as well. */
  ghost predicate WeaklyOrdered(a: Candidate, b: Candidate, c: Candidate, rk: Ranking) {
    && !AWins(a, a, rk)
    && (AWins(a, b, rk) ==> !AWins(b, a, rk))
    && (AWins(a, b, rk) && AWins(b, c, rk) ==> AWins(a, c, rk))
    && (!AWins(a, b, rk) && !AWins(b, c, rk) ==> !AWins(a, c, rk))
  }

  ghost predicate StrictWeakOrder(cs: seq<Candidate>, rk: Ranking) {
    forall a <- cs, b <- cs, c <- cs :: WeaklyOrdered(a, b, c, rk)
  }

  lemma ThreeWeaklyOrdered(a: Candidate, b: Candidate, c: Candidate, rk: Ranking)
    requires !Inverted(a, b, c, rk) && !Inverted(a, c, b, rk) && !Inverted(b, a, c, rk)
    requires !Inverted(b, c, a, rk) && !Inverted(c, a, b, rk) && !Inverted(c, b, a, rk)
    ensures WeaklyOrdered(a, b, c, rk)
  {}

  /** `AWins` is a strict weak order on the candidates iff no three of them are inverted. */
  lemma AWinsStrictWeakOrder(cs: seq<Candidate>, rk: Ranking)
    ensures StrictWeakOrder(cs, rk) <==> Orderly(cs, rk)
  {
    hide AWins, Inverted, WeaklyOrdered;
    if Orderly(cs, rk) {
      forall a <- cs, b <- cs, c <- cs ensures WeaklyOrdered(a, b, c, rk) { ThreeWeaklyOrdered(a, b, c, rk); }
    }
    if StrictWeakOrder(cs, rk) {
      forall a <- cs, b <- cs, c <- cs ensures !Inverted(a, b, c, rk) {
        if Inverted(a, b, c, rk) { InvertedBreaks(a, b, c, rk); }
      }
    }
  }

  /** An inverted triple has no winner between neighbours, but between its ends. */
  lemma InvertedBreaks(a: Candidate, b: Candidate, c: Candidate, rk: Ranking)
    requires Inverted(a, b, c, rk)
    ensures !WeaklyOrdered(c, b, a, rk)
  {}

  /** Scores that are equal or further apart than the epsilon give no such three. */
  lemma SeparatedOrderly(cs: seq<Candidate>, rk: Ranking)
    requires Separated(cs)
    ensures Orderly(cs, rk)
  {}

  /** On arbitrary scores it is not even acyclic, and `resolve` then discards a candidate
      that beats the survivor. The scores are exact in single precision, and above the
      default threshold. */
  lemma AWinsCanCycle(rk: Ranking)
    requires rk.Threshold("T") <= 0.75
    ensures var a := Candidate("T", Span(0, 3), 0.75, false, []);
      var b := Candidate("T", Span(0, 2), 0.75 + 1.0 / 8388608.0, false, []);
      var c := Candidate("T", Span(0, 1), 0.75 + 2.0 / 8388608.0, false, []);
      && AWins(a, b, rk) && AWins(b, c, rk) && AWins(c, a, rk)
      && Resolved([b, a, c], rk) == [c]
  {
    var a := Candidate("T", Span(0, 3), 0.75, false, []);
    var b := Candidate("T", Span(0, 2), 0.75 + 1.0 / 8388608.0, false, []);
    var c := Candidate("T", Span(0, 1), 0.75 + 2.0 / 8388608.0, false, []);
    var cs := [b, a, c];
    ThreeAbove(b, a, c, rk);
    SortOfSorted(cs, CandidateByStart());
    ThreeSwept(b, a, c, rk);
    hide AboveThreshold, StableSort, Sweep;
  }

  lemma ThreeSwept(a: Candidate, b: Candidate, c: Candidate, rk: Ranking)
    requires a.span.Overlaps(b.span) && b.span.Overlaps(c.span) && ADDRESS !in {a.pdType, b.pdType}
    requires AWins(b, a, rk) && AWins(c, b, rk)
    ensures Sweep([a, b, c], 3, rk) == [c]
  {
    StepReplaces(a, b, rk);
    StepReplaces(b, c, rk);
    hide AWins, Absorbs, Step;
    SweptThree(a, b, c, rk);
  }

  lemma StepReplaces(last: Candidate, c: Candidate, rk: Ranking)
    requires last.span.Overlaps(c.span) && last.pdType != ADDRESS && AWins(c, last, rk)
    ensures Step([last], c, rk) == [c]
  {
    hide AWins;
  }

  lemma SweptThree(a: Candidate, b: Candidate, c: Candidate, rk: Ranking)
    ensures Sweep([a, b, c], 3, rk) == Step(Step([a], b, rk), c, rk)
  {
    hide AWins, Absorbs;
    var cs := [a, b, c];
    assert Sweep(cs, 1, rk) == [a];
    hide Step;
    assert Sweep(cs, 2, rk) == Step(Sweep(cs, 1, rk), b, rk);
  }

  lemma ThreeAbove(a: Candidate, b: Candidate, c: Candidate, rk: Ranking)
    requires a.score >= rk.Threshold(a.pdType) && b.score >= rk.Threshold(b.pdType) && c.score >= rk.Threshold(c.pdType)
    ensures AboveThreshold([a, b, c], rk) == [a, b, c]
  {
    assert [a, b, c][1..] == [b, c] && [b, c][1..] == [c] && [c][1..] == [];
    assert AboveThreshold([c], rk) == [c] && AboveThreshold([b, c], rk) == [b, c];
  }

  // ----- two candidates -----

  lemma OneAbove(c: Candidate, rk: Ranking)
    ensures AboveThreshold([c], rk) == if c.score >= rk.Threshold(c.pdType) then [c] else []
  {
    assert [c][1..] == [];
  }

  /** A candidate alone is selected iff its score reaches its type's threshold, 0.6 if none is
      configured. */
  lemma OneResolved(c: Candidate, rk: Ranking)
    ensures var threshold := if c.pdType in rk.thresholds then rk.thresholds[c.pdType] else 0.6;
      Resolved([c], rk) == if c.score >= threshold then [c] else []
  {
    OneAbove(c, rk);
    hide AWins, Absorbs, AboveThreshold;
    assert [c][1..] == [] && StableSort([c], CandidateByStart()) == [c];
    assert Sweep([c], 0, rk) == [] && Sweep([c], 1, rk) == [c];
  }

  lemma TwoOrdered(a: Candidate, c: Candidate, rk: Ranking)
    requires a.score >= rk.Threshold(a.pdType) && c.score >= rk.Threshold(c.pdType) && a.span.start <= c.span.start
    ensures Ordered([a, c], rk) == [a, c]
  {
    OneAbove(c, rk);
    assert [a, c][1..] == [c];
    assert AboveThreshold([a, c], rk) == [a, c];
    SortOfSorted([a, c], CandidateByStart());
  }

  /** Of two overlapping candidates the first is kept if it is an ADDRESS that overlaps a
      component of the second, and otherwise one is preferred: by its check sum, then by its
      type's priority, 50 if none is configured, then by scores more than 2 to the power -23
      apart, then by its length; the first, if all are equal. */
  lemma TwoResolved(a: Candidate, c: Candidate, rk: Ranking)
    requires a.score >= rk.Threshold(a.pdType) && c.score >= rk.Threshold(c.pdType)
    requires a.span.start <= c.span.start < a.span.end && a.span.start < c.span.end
    ensures var pa := if a.pdType in rk.priorities then rk.priorities[a.pdType] else 50;
      var pc := if c.pdType in rk.priorities then rk.priorities[c.pdType] else 50;
      var inside := a.pdType == "ADDRESS" && exists x <- c.components ::
        x.span.start < a.span.end && a.span.start < x.span.end;
      var r := Resolved([a, c], rk);
      && (inside ==> r == [a])
      && (!inside && c.checksumOk != a.checksumOk ==> r == if c.checksumOk then [c] else [a])
      && (!inside && c.checksumOk == a.checksumOk && pc != pa ==> r == if pc > pa then [c] else [a])
      && (!inside && c.checksumOk == a.checksumOk && pc == pa ==>
            && (c.score > a.score + 1.0 / 8388608.0 ==> r == [c])
            && (a.score > c.score + 1.0 / 8388608.0 ==> r == [a])
            && (a.score - 1.0 / 8388608.0 <= c.score <= a.score + 1.0 / 8388608.0 ==>
                  r == if c.span.end - c.span.start > a.span.end - a.span.start then [c] else [a]))
  {
    TwoOrdered(a, c, rk);
    hide Ordered;
    var cs := [a, c];
    assert Sweep(cs, 0, rk) == [] && Sweep(cs, 1, rk) == [a];
    assert Sweep(cs, 2, rk) == Step([a], c, rk);
    hide Sweep;
    StepOfOne(a, c, rk);
    hide Step;
    AbsorbsIff(a, c);
    hide Absorbs;
  }

  lemma StepOfOne(a: Candidate, c: Candidate, rk: Ranking)
    requires a.span.Overlaps(c.span)
    ensures Step([a], c, rk) == if !Absorbs(a, c) && AWins(c, a, rk) then [c] else [a]
  {
    hide Absorbs, AWins;
  }

  lemma AbsorbsIff(a: Candidate, c: Candidate)
    ensures Absorbs(a, c) <==> a.pdType == "ADDRESS" && exists x <- c.components ::
      x.span.start < a.span.end && a.span.start < x.span.end
  {
    if a.pdType == "ADDRESS" && exists x <- c.components :: x.span.start < a.span.end && a.span.start < x.span.end {
      var x :| x in c.components && x.span.start < a.span.end && a.span.start < x.span.end;
      var i :| 0 <= i < |c.components| && c.components[i] == x;
      assert c.components[i].span.Overlaps(a.span);
    }
  }

  /** The place in the selection for which candidate `i` competed. */
  function Cluster(cs: seq<Candidate>, i: nat, rk: Ranking): int
    requires i < |cs|
  {
    |Sweep(cs, i + 1, rk)| - 1
  }

  ghost predicate Absorbed(cs: seq<Candidate>, i: nat, rk: Ranking)
    requires i < |cs|
  {
    var sel := Sweep(cs, i, rk);
    sel != [] && sel[|sel| - 1].span.Overlaps(cs[i].span) && Absorbs(sel[|sel| - 1], cs[i])
  }

  /** Candidates of cluster `k`, each overlapping the next, from `i` to one equal to `goal`. */
  ghost predicate Chain(cs: seq<Candidate>, path: seq<nat>, n: nat, i: nat, k: int, goal: Candidate, rk: Ranking)
    requires n <= |cs|
  {
    && path != [] && path[0] == i
    && (forall j | 0 <= j < |path| :: path[j] < n && Cluster(cs, path[j], rk) == k)
    && (forall j | 0 < j < |path| :: cs[path[j - 1]].span.Overlaps(cs[path[j]].span))
    && cs[path[|path| - 1]] == goal
  }

  ghost predicate Linked(cs: seq<Candidate>, n: nat, i: nat, k: int, goal: Candidate, rk: Ranking)
    requires n <= |cs|
  {
    exists path :: Chain(cs, path, n, i, k, goal, rk)
  }

  /** After `n` candidates: candidate `i` is linked to the survivor of its cluster, which
      it does not beat unless an ADDRESS absorbed it. */
  ghost predicate Dominated(cs: seq<Candidate>, n: nat, i: nat, rk: Ranking)
    requires i < n <= |cs|
  {
    var sel := Sweep(cs, n, rk);
    var k := Cluster(cs, i, rk);
    && 0 <= k < |sel|
    && (Absorbed(cs, i, rk) || !AWins(cs[i], sel[k], rk))
    && Linked(cs, n, i, k, sel[k], rk)
  }

  /** Every place in the selection is held by a candidate of that cluster. */
  ghost predicate Held(cs: seq<Candidate>, n: nat, k: int, rk: Ranking)
    requires n <= |cs|
  {
    exists m :: 0 <= m < n && Cluster(cs, m, rk) == k < |Sweep(cs, n, rk)| && 0 <= k && cs[m] == Sweep(cs, n, rk)[k]
  }

  ghost predicate AllHeld(cs: seq<Candidate>, n: nat, rk: Ranking)
    requires n <= |cs|
  {
    var places: nat := |Sweep(cs, n, rk)|;
    forall k | 0 <= k < places :: Held(cs, n, k, rk)
  }

  lemma ChainExtends(cs: seq<Candidate>, n: nat, i: nat, k: int, goal: Candidate, m: nat, rk: Ranking)
    requires n <= |cs| && m < |cs| && n <= m + 1
    requires Linked(cs, n, i, k, goal, rk) && Cluster(cs, m, rk) == k && goal.span.Overlaps(cs[m].span)
    ensures Linked(cs, m + 1, i, k, cs[m], rk)
  {
    hide Cluster;
    var path :| Chain(cs, path, n, i, k, goal, rk);
    var longer := path + [m];
    assert longer[|longer| - 1] == m;
    assert Chain(cs, longer, m + 1, i, k, cs[m], rk);
  }

  lemma ChainLater(cs: seq<Candidate>, n: nat, i: nat, k: int, goal: Candidate, rk: Ranking)
    requires n < |cs| && Linked(cs, n, i, k, goal, rk)
    ensures Linked(cs, n + 1, i, k, goal, rk)
  {
    hide Cluster;
    var path :| Chain(cs, path, n, i, k, goal, rk);
    assert Chain(cs, path, n + 1, i, k, goal, rk);
  }

  lemma ChainSelf(cs: seq<Candidate>, i: nat, rk: Ranking)
    requires i < |cs|
    ensures Linked(cs, i + 1, i, Cluster(cs, i, rk), cs[i], rk)
  {
    hide Cluster;
    assert Chain(cs, [i], i + 1, i, Cluster(cs, i, rk), cs[i], rk);
  }

  /** The next candidate joins the last cluster, or opens one of its own. */
  lemma NextCluster(cs: seq<Candidate>, n: nat, rk: Ranking)
    requires n < |cs|
    ensures var sel, next := Sweep(cs, n, rk), Sweep(cs, n + 1, rk);
      var k := Cluster(cs, n, rk);
      && k == |next| - 1 && |sel| <= |next| <= |sel| + 1
      && (forall j | 0 <= j < |sel| && j != k :: next[j] == sel[j])
      && (k == |sel| ==> next[k] == cs[n])
      && (k < |sel| ==> 0 <= k && sel[k].span.Overlaps(cs[n].span))
      && (k < |sel| && next[k] != sel[k] ==> next[k] == cs[n] && AWins(cs[n], sel[k], rk))
      && (k < |sel| && next[k] == sel[k] ==> Absorbed(cs, n, rk) || !AWins(cs[n], sel[k], rk) || sel[k] == cs[n])
  {
    hide AWins, Absorbs;
  }

  lemma HeldNext(cs: seq<Candidate>, n: nat, rk: Ranking)
    requires n < |cs| && AllHeld(cs, n, rk)
    ensures AllHeld(cs, n + 1, rk)
  {
    NextCluster(cs, n, rk);
    hide Sweep, Cluster;
    var sel, next := Sweep(cs, n, rk), Sweep(cs, n + 1, rk);
    var after, places: nat := n + 1, |next|;
    forall k | 0 <= k < places ensures Held(cs, after, k, rk) {
      if k < |sel| && next[k] == sel[k] {
        assert Held(cs, n, k, rk);
        var m :| 0 <= m < n && Cluster(cs, m, rk) == k && cs[m] == sel[k];
        assert Cluster(cs, m, rk) == k < |next| && cs[m] == next[k];
      } else {
        assert Cluster(cs, n, rk) == k < |next| && cs[n] == next[k];
      }
    }
  }

  lemma DominatedOld(cs: seq<Candidate>, n: nat, i: nat, rk: Ranking)
    requires n < |cs| && StrictWeakOrder(cs, rk) && i < n && Dominated(cs, n, i, rk)
    requires AllHeld(cs, n, rk)
    ensures Dominated(cs, n + 1, i, rk)
  {
    NextCluster(cs, n, rk);
    hide Sweep, Cluster, AWins, Absorbs, Chain;
    var sel, next := Sweep(cs, n, rk), Sweep(cs, n + 1, rk);
    var k := Cluster(cs, i, rk);
    ChainLater(cs, n, i, k, sel[k], rk);
    if next[k] != sel[k] {
      ChainExtends(cs, n, i, k, sel[k], n, rk);
      assert Held(cs, n, k, rk);
      assert sel[k] in cs && cs[n] in cs && cs[i] in cs;
      assert WeaklyOrdered(cs[i], cs[n], sel[k], rk);
    }
  }

  lemma DominatedNew(cs: seq<Candidate>, n: nat, rk: Ranking)
    requires n < |cs| && StrictWeakOrder(cs, rk)
    requires AllHeld(cs, n, rk)
    ensures Dominated(cs, n + 1, n, rk)
  {
    NextCluster(cs, n, rk);
    hide Sweep, Cluster, AWins, Absorbs, Chain, Absorbed;
    var sel, next := Sweep(cs, n, rk), Sweep(cs, n + 1, rk);
    var k := Cluster(cs, n, rk);
    ChainSelf(cs, n, rk);
    assert cs[n] in cs;
    assert WeaklyOrdered(cs[n], cs[n], cs[n], rk);
    if next[k] != cs[n] {
      assert Held(cs, n, k, rk);
      var m :| 0 <= m < n && Cluster(cs, m, rk) == k && cs[m] == sel[k];
      TwoChain(cs, n, m, k, rk);
    }
  }

  lemma TwoChain(cs: seq<Candidate>, n: nat, m: nat, k: int, rk: Ranking)
    requires m < n < |cs| && Cluster(cs, n, rk) == k == Cluster(cs, m, rk) && cs[m].span.Overlaps(cs[n].span)
    ensures Linked(cs, n + 1, n, k, cs[m], rk)
  {
    hide Cluster;
    assert Chain(cs, [n, m], n + 1, n, k, cs[m], rk);
  }

  lemma NoneHeld(cs: seq<Candidate>, rk: Ranking)
    ensures AllHeld(cs, 0, rk)
  {}

  lemma {:induction false} SweepDominates(cs: seq<Candidate>, n: nat, rk: Ranking)
    requires n <= |cs| && StrictWeakOrder(cs, rk)
    ensures AllHeld(cs, n, rk)
    ensures forall i | 0 <= i < n :: Dominated(cs, n, i, rk)
  {
    hide Dominated, Held, StrictWeakOrder, AllHeld;
    if n == 0 {
      NoneHeld(cs, rk);
    } else {
      SweepDominates(cs, n - 1, rk);
      HeldNext(cs, n - 1, rk);
      DominatedNew(cs, n - 1, rk);
      forall i | 0 <= i < n ensures Dominated(cs, n, i, rk) {
        if i < n - 1 { DominatedOld(cs, n - 1, i, rk); }
      }
    }
  }

  lemma OrderlySome(cs: seq<Candidate>, some: seq<Candidate>, rk: Ranking)
    requires Orderly(cs, rk) && forall c <- some :: c in cs
    ensures Orderly(some, rk)
  {
    hide Inverted;
  }

  /** Sweep dominance: if no three candidates above their thresholds are inverted, none of
      them beats the survivor of its overlap cluster, to which a chain of overlaps links it,
      unless a selected ADDRESS absorbed it. */
  lemma ResolveDominates(cs: seq<Candidate>, rk: Ranking)
    requires Orderly(AboveThreshold(cs, rk), rk)
    ensures var ordered := Ordered(cs, rk);
      forall i | 0 <= i < |ordered| :: Dominated(ordered, |ordered|, i, rk)
  {
    hide Dominated, Held, AboveThreshold, StableSort, AWins, Orderly, StrictWeakOrder;
    var above := AboveThreshold(cs, rk);
    var ordered := Ordered(cs, rk);
    StableSortCorrect(above, CandidateByStart());
    OrderlySome(above, ordered, rk);
    AWinsStrictWeakOrder(ordered, rk);
    SweepDominates(ordered, |ordered|, rk);
  }
}
