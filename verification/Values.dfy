/** Which values of a masked line get one mask. */
module Values {
  import opened Text
  import opened Entities
  import opened Masking
  import opened Pipeline
  import opened RoundTrip
  import opened Lines
  import Canonical
  import Scanner

  /** Entities bear the canonical forms of their slices. */
  ghost predicate FormsSet(u: Setup, text: string, es: seq<Entity>)
    requires AllInText(es, text)
  {
    forall i | 0 <= i < |es| ::
      es[i].canonical == CanonicalOf(u, text[es[i].span.start..es[i].span.end], es[i].pdType)
  }

  /** Pieces bear the canonical forms of their originals. */
  ghost predicate PiecesFormed(u: Setup, ps: seq<Piece>) {
    forall i | 0 <= i < |ps| :: ps[i].entity.canonical == CanonicalOf(u, ps[i].original, ps[i].entity.pdType)
  }

  lemma PreparedForms(u: Setup, p: Policy, text: string, es: seq<Entity>)
    requires AllInText(Selected(p, es), text)
    ensures FormsSet(u, text, Prepared(u, p, text, es))
  {
    hide Selected, CanonicalOf;
    var chosen := Selected(p, es);
    var named := seq(|chosen|, i requires 0 <= i < |chosen| => SetCanonical(u, text, chosen[i]));
    StableSortCorrect(named, EntityByStart());
    var r := Prepared(u, p, text, es);
    assert r == StableSort(named, EntityByStart());
    forall i | 0 <= i < |r|
      ensures r[i].canonical == CanonicalOf(u, text[r[i].span.start..r[i].span.end], r[i].pdType)
    {
      assert r[i] in r && r[i] in named;
      var j :| 0 <= j < |named| && named[j] == r[i];
      assert named[j] == SetCanonical(u, text, chosen[j]);
    }
  }

  lemma {:induction false} SpliceForms(u: Setup, p: Policy, text: string, es: seq<Entity>, cursor: nat, st: Numbers)
    requires cursor <= |text| && AllInText(es, text) && FormsSet(u, text, es)
    ensures PiecesFormed(u, SpliceFrom(u, p, text, es, cursor, st).pieces)
    decreases |es|
  {
    hide MaskValue, CanonicalOf;
    if es == [] {
    } else if es[0].span.start < cursor {
      SpliceForms(u, p, text, es[1..], cursor, st);
    } else {
      var e := es[0];
      var original := text[e.span.start..e.span.end];
      var (out, st') := MaskValue(u.maskers, p.KindOf(e.pdType), (e.pdType, e.canonical), original, st);
      SpliceForms(u, p, text, es[1..], e.span.end, st');
    }
  }

  lemma LineForms(u: Setup, p: Policy, text: string, es: seq<Entity>)
    requires AllInText(Selected(p, es), text)
    ensures PiecesFormed(u, MaskedLine(u, p, text, es).pieces)
  {
    hide Prepared, SpliceFrom, FormsSet, PiecesFormed, AllInText;
    PreparedForms(u, p, text, es);
    SpliceForms(u, p, text, Prepared(u, p, text, es), 0, NoNumbers);
  }

  /** A type has placeholders: they are configured for it, or nothing is. */
  predicate HasPlaceholders(p: Policy, t: PdType) { t !in p.kinds || p.kinds[t] == Placeholder }

  /** A placeholder's text is its type's label, or its name if it has none, with a number. */
  lemma PieceNumbered(u: Setup, p: Policy, s: Spliced, q: Piece) returns (n: nat)
    requires WellMasked(u, p, s) && q in s.pieces && HasPlaceholders(p, q.entity.pdType)
    ensures ValueOf(q) in s.state.given && n == s.state.given[ValueOf(q)] >= 1
    ensures var tag := if q.entity.pdType in u.maskers.labels then u.maskers.labels[q.entity.pdType]
                       else q.entity.pdType;
      q.out.replacement == "[" + tag + "_" + Decimal(n) + "]"
  {
    hide Scanner.IsLabel, Decimal, NoPlaceholderKey;
    var i :| 0 <= i < |s.pieces| && s.pieces[i] == q;
    assert Keyed(u, p, s.state, q);
    var tag, m :| IsPlaceholderOf(q, tag, m);
    n := s.state.given[ValueOf(q)];
    KeySplits(tag, m, u.maskers.LabelOf(q.entity.pdType), n);
  }

  lemma BracketedTells(tag: string, m: nat, n: nat)
    ensures "[" + tag + "_" + Decimal(m) + "]" == "[" + tag + "_" + Decimal(n) + "]" ==> m == n
  {
    hide Decimal;
    var x, y := "[" + tag + "_" + Decimal(m) + "]", "[" + tag + "_" + Decimal(n) + "]";
    assert x[|tag| + 2..|x| - 1] == Decimal(m) && y[|tag| + 2..|y| - 1] == Decimal(n);
    DecimalRoundTrip(m);
    DecimalRoundTrip(n);
  }

  /** Two values of one type that is masked by placeholders get the same placeholder iff they
      are alike. */
  lemma OneMaskIffAlike(u: Setup, p: Policy, text: string, es: seq<Entity>, i: nat, j: nat)
    requires AllInText(Selected(p, es), text) && Scannable(u, p) && u.space(' ')
    requires var ps := MaskedLine(u, p, text, es).pieces;
      && i < |ps| && j < |ps| && ps[i].entity.pdType == ps[j].entity.pdType
      && HasPlaceholders(p, ps[i].entity.pdType)
    ensures var ps := MaskedLine(u, p, text, es).pieces;
      ps[i].out.replacement == ps[j].out.replacement <==>
        Canonical.Alike(u, ps[i].entity.pdType, ps[i].original, ps[j].original)
  {
    hide MaskedLine, CanonicalOf, Canonical.Alike, Scannable, Decimal, Selected, AllInText, ShownLine, FullyRecorded,
      Onto, Counted;
    var s := MaskedLine(u, p, text, es);
    LineWellMasked(u, p, text, es);
    LineForms(u, p, text, es);
    var a, b := s.pieces[i], s.pieces[j];
    var m := PieceNumbered(u, p, s, a);
    var n := PieceNumbered(u, p, s, b);
    BracketedTells(if a.entity.pdType in u.maskers.labels then u.maskers.labels[a.entity.pdType] else a.entity.pdType,
      m, n);
    Canonical.AlikeIffOneForm(u, a.entity.pdType, a.original, b.original);
    assert Injective(s.state);
  }
}
