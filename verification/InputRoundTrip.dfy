/** The round trip under conditions that can be read off the text before it is masked. */
module InputRoundTrip {
  import opened Text
  import opened Scanner
  import opened Entities
  import opened Masking
  import opened Pipeline
  import opened Demask
  import opened RoundTrip
  import opened Lines
  import opened Inversion

  /** A capital letter stands right before a digit, or one separator before it. */
  predicate LabelledAt(k: Classes, s: string, x: nat) {
    x < |s| && IsLetter(s[x]) &&
    var d := if x + 1 < |s| && IsSeparator(s[x + 1]) then x + 2 else x + 1;
    d < |s| && k.digit(s[d])
  }

  /** Nothing in the text looks like a label with its number. */
  ghost predicate Unlabelled(k: Classes, s: string) { forall x: nat :: !LabelledAt(k, s, x) }

  lemma LabelEndsInLetter(s: string, i: nat, j: nat)
    requires IsLabelAt(s, i, j)
    ensures IsLetter(s[j - 1])
  {}

  lemma MatchIsLabelled(k: Classes, s: string, i: nat)
    requires i <= |s| && MatchAt(k, s, i).Some?
    ensures exists x: nat :: LabelledAt(k, s, x)
  {
    hide CutsAt, IsLabelAt;
    MatchSound(k, s, i);
    var c := MatchAt(k, s, i).value;
    LabelEndsInLetter(s, c.tag, c.sep);
    assert k.digit(s[c.num]);
    assert LabelledAt(k, s, c.sep - 1);
  }

  lemma {:induction false} UnlabelledNoHits(k: Classes, s: string, i: nat)
    requires i <= |s| && Unlabelled(k, s)
    ensures Hits(k, s, i) == []
    decreases |s| - i
  {
    hide MatchAt, Unlabelled;
    if i < |s| {
      if MatchAt(k, s, i).Some? {
        MatchIsLabelled(k, s, i);
        NotBoth(k, s);
      }
      UnlabelledNoHits(k, s, i + 1);
      assert NextPos(k, s, i) == i + 1;
    }
  }

  lemma NotBoth(k: Classes, s: string)
    ensures !(Unlabelled(k, s) && exists x: nat :: LabelledAt(k, s, x))
  {
    hide LabelledAt;
  }

  lemma StarredUnlabelled(k: Classes, s: string, t: string)
    requires Starred(s, t) && Unlabelled(k, t)
    ensures Unlabelled(k, s)
  {
    forall x: nat ensures !LabelledAt(k, s, x) {
      if LabelledAt(k, s, x) {
        assert s[x] == t[x];
        if x + 1 < |s| && IsSeparator(s[x + 1]) {
          assert s[x + 1] == t[x + 1] && s[x + 2] == t[x + 2];
        } else {
          assert s[x + 1] == t[x + 1];
        }
        assert LabelledAt(k, t, x);
      }
    }
  }

  lemma UnlabelledInside(k: Classes, a: string, s: string, b: string)
    requires Unlabelled(k, a + s + b)
    ensures Unlabelled(k, s)
  {
    var t := a + s + b;
    forall x: nat ensures !LabelledAt(k, s, x) {
      if LabelledAt(k, s, x) {
        var n := |a| + x;
        assert t[n] == s[x] && (x + 1 < |s| ==> t[n + 1] == s[x + 1]) && (x + 2 < |s| ==> t[n + 2] == s[x + 2]);
        assert LabelledAt(k, t, n);
      }
    }
  }

  // ----- the stretches of a masked line are starred parts of the text -----

  ghost predicate AllUnlabelled(k: Classes, ss: seq<string>) { forall i | 0 <= i < |ss| :: Unlabelled(k, ss[i]) }

  lemma AllUnlabelledCons(k: Classes, s: string, ss: seq<string>)
    requires Unlabelled(k, s) && AllUnlabelled(k, ss)
    ensures AllUnlabelled(k, [s] + ss)
  {
    hide Unlabelled;
  }

  /** Everything but placeholders is masked by stars. */
  ghost predicate AllStarred(ps: seq<Piece>) {
    forall i | 0 <= i < |ps| :: !IsPlaceholder(ps[i]) ==> Starred(ps[i].out.replacement, ps[i].original)
  }

  /** `before` has stood for `sub`, and `sub` with the rest of the text is unlabelled. */
  lemma {:induction false} StretchesUnlabelled(k: Classes, before: string, sub: string, ps: seq<Piece>, tail: string)
    requires AllStarred(ps) && Starred(before, sub) && Unlabelled(k, sub + OriginalText(ps) + tail)
    ensures AllUnlabelled(k, Stretches(before, ps, tail))
    decreases |ps|
  {
    hide Unlabelled, Starred, OriginalText, IsPlaceholder;
    if ps == [] {
      OriginalTextNil();
      assert sub + "" + tail == sub + tail;
      StarredSelf(tail);
      StarredAppend(before, sub, tail, tail);
      StarredUnlabelled(k, before + tail, sub + tail);
    } else {
      var p := ps[0];
      var rest := OriginalText(ps[1..]) + tail;
      assert ps == [p] + ps[1..];
      OriginalTextCons(p, ps[1..]);
      SplitText(sub, p.gap, p.original, OriginalText(ps[1..]), tail);
      StarredSelf(p.gap);
      StarredAppend(before, sub, p.gap, p.gap);
      if IsPlaceholder(p) {
        UnlabelledInside(k, "", sub + p.gap, p.original + rest);
        StarredUnlabelled(k, before + p.gap, sub + p.gap);
        UnlabelledInside(k, sub + p.gap + p.original, rest, "");
        StarredSelf("");
        StretchesUnlabelled(k, "", "", ps[1..], tail);
        AllUnlabelledCons(k, before + p.gap, Stretches("", ps[1..], tail));
      } else {
        StarredAppend(before + p.gap, sub + p.gap, p.out.replacement, p.original);
        StretchesUnlabelled(k, before + p.gap + p.out.replacement, sub + p.gap + p.original, ps[1..], tail);
      }
    }
  }

  lemma SplitText(sub: string, gap: string, original: string, more: string, tail: string)
    ensures var whole := sub + (gap + original + more) + tail;
      var rest := more + tail;
      && whole == "" + (sub + gap) + (original + rest)
      && whole == sub + gap + original + rest + ""
      && whole == sub + gap + original + more + tail
      && rest == "" + more + tail
  {}

  /** Placeholders, partial masks and redactions only. */
  ghost predicate NoDigests(p: Policy) { forall t <- p.types :: p.KindOf(t) in {Placeholder, Partial, Redact} }

  lemma NoDigestsStarred(u: Setup, p: Policy, s: Spliced)
    requires WellMasked(u, p, s) && NoDigests(p)
    ensures AllStarred(s.pieces) && StarKinds(p)
  {
    hide Numbered, Starred, IsPlaceholder, NoPlaceholderKey;
    forall i | 0 <= i < |s.pieces| && !IsPlaceholder(s.pieces[i])
      ensures Starred(s.pieces[i].out.replacement, s.pieces[i].original)
    {
      assert Keyed(u, p, s.state, s.pieces[i]);
    }
  }

  /** In a text without labels no masked line has an accidental key. */
  lemma UnlabelledNoAccident(k: Classes, u: Setup, p: Policy, s: Spliced)
    requires WellMasked(u, p, s) && NoDigests(p) && Unlabelled(k, OriginalText(s.pieces) + s.tail)
    ensures NoAccidentalKey(k, s)
  {
    hide NoAccidentalKey, WellMasked, Unlabelled, OriginalText, Hits, Known, Stretches, AllStarred, TableOf, EntriesOf,
      NoDigests;
    NoDigestsStarred(u, p, s);
    StarredSelf("");
    assert "" + OriginalText(s.pieces) + s.tail == OriginalText(s.pieces) + s.tail;
    StretchesUnlabelled(k, "", "", s.pieces, s.tail);
    AccidentalKeysStandOutside(k, s);
    var ss, tb := Stretches("", s.pieces, s.tail), TableOf(EntriesOf(s.pieces));
    forall i | 0 <= i < |ss| ensures Known(ss[i], Hits(k, ss[i], 0), tb) == 0 {
      UnlabelledNoHits(k, ss[i], 0);
      NoneOfNone(ss[i], tb);
    }
  }

  lemma NoneOfNone(s: string, tb: Table)
    ensures Known(s, [], tb) == 0
  {}

  // ----- the round trip -----

  /** What can come back of a line is its text with some characters starred. */
  lemma {:induction false} ShownStarred(ps: seq<Piece>)
    requires AllStarred(ps)
    ensures Starred(ShownText(ps), OriginalText(ps))
    decreases |ps|
  {
    hide Starred, IsPlaceholder, OriginalText;
    if ps == [] {
      OriginalTextNil();
      StarredSelf("");
    } else {
      var p := ps[0];
      assert ps == [p] + ps[1..];
      OriginalTextCons(p, ps[1..]);
      ShownStarred(ps[1..]);
      StarredSelf(p.gap);
      StarredSelf(p.original);
      if IsPlaceholder(p) { PlaceholderKeyed(p); }
      StarredAppend(p.gap, p.gap, Shown(p), p.original);
      StarredAppend(p.gap + Shown(p), p.gap + p.original, ShownText(ps[1..]), OriginalText(ps[1..]));
    }
  }

  lemma LineStarred(u: Setup, p: Policy, s: Spliced)
    requires WellMasked(u, p, s) && NoDigests(p)
    ensures Starred(ShownLine(s), OriginalText(s.pieces) + s.tail)
  {
    hide WellMasked, NoDigests, AllStarred, Starred, OriginalText, ShownText;
    NoDigestsStarred(u, p, s);
    ShownStarred(s.pieces);
    StarredSelf(s.tail);
    StarredAppend(ShownText(s.pieces), OriginalText(s.pieces), s.tail, s.tail);
  }

  lemma StarredFree(s: string, t: string, c: char)
    requires Starred(s, t) && c !in t && c != '*'
    ensures c !in s
  {}

  /** Placeholders of one value stand for equal spellings. */
  ghost predicate SpelledAlike(ps: seq<Piece>) {
    forall i, j | 0 <= i < |ps| && 0 <= j < |ps| && IsPlaceholder(ps[i]) && IsPlaceholder(ps[j]) ::
      ValueOf(ps[i]) == ValueOf(ps[j]) ==> ps[i].original == ps[j].original
  }

  lemma {:induction false} LastIsSome(ps: seq<Piece>, i: nat)
    requires i < |ps| && IsPlaceholder(ps[i])
    ensures exists j ::
      && 0 <= j < |ps| && IsPlaceholder(ps[j]) && ValueOf(ps[j]) == ValueOf(ps[i])
      && LastSpelling(ps, ValueOf(ps[i])) == ps[j].original
    decreases |ps|
  {
    hide IsPlaceholder;
    var n := |ps| - 1;
    if IsPlaceholder(ps[n]) && ValueOf(ps[n]) == ValueOf(ps[i]) {
      assert LastSpelling(ps, ValueOf(ps[i])) == ps[n].original;
    } else {
      LastIsSome(ps[..n], i);
      var v := ValueOf(ps[i]);
      var j :| 0 <= j < n && IsPlaceholder(ps[..n][j]) && ValueOf(ps[..n][j]) == v
        && LastSpelling(ps[..n], v) == ps[..n][j].original;
      assert ps[..n][j] == ps[j];
    }
  }

  lemma AlikeIsLast(ps: seq<Piece>)
    requires SpelledAlike(ps)
    ensures SpelledAsLast(ps, ps)
  {
    hide LastSpelling, IsPlaceholder;
    forall i | 0 <= i < |ps| ensures LastValue(ps[i], ps) == Shown(ps[i]) {
      if IsPlaceholder(ps[i]) {
        PlaceholderKeyed(ps[i]);
        LastIsSome(ps, i);
      }
    }
  }

  lemma PlaceholderLabelled(k: Classes, s: string, p: Piece, j: nat)
    requires IsPlaceholder(p) && OccursAt(s, p.out.replacement, j)
    ensures !Unlabelled(k, s)
  {
    hide IsLabel;
    var tag, n :| IsPlaceholderOf(p, tag, n);
    var m := p.out.replacement;
    LabelLastLetter(tag);
    Occurrence(s, m, j);
    assert m[|tag|] == tag[|tag| - 1] && m[|tag| + 1] == '_' && m[|tag| + 2] == Decimal(n)[0];
    assert s[j + |tag|] == m[|tag|] && s[j + (|tag| + 1)] == '_' && s[j + (|tag| + 2)] == m[|tag| + 2];
    assert LabelledAt(k, s, j + |tag|);
  }

  lemma LabelLastLetter(tag: string)
    requires IsLabel(tag)
    ensures tag != "" && IsLetter(tag[|tag| - 1])
  {}

  /** In a text without labels no placeholder occurs, brackets or not. */
  lemma UnlabelledHoldsNone(k: Classes, text: string, ps: seq<Piece>)
    requires Unlabelled(k, text)
    ensures NoPlaceholderIn(text, ps)
  {
    hide Unlabelled, IsPlaceholder;
    forall i | 0 <= i < |ps| && IsPlaceholder(ps[i]) ensures Absent(text, ps[i].out.replacement) {
      forall j: nat ensures !OccursAt(text, ps[i].out.replacement, j) {
        if OccursAt(text, ps[i].out.replacement, j) { PlaceholderLabelled(k, text, ps[i], j); }
      }
    }
  }

  lemma AlikeIsExact(u: Setup, p: Policy, s: Spliced)
    requires WellMasked(u, p, s) && Scannable(u, p) && DistinctLabels(u, p) && SpelledAlike(s.pieces)
    ensures ExactValues(s.pieces, TableOf(EntriesOf(s.pieces)))
  {
    AlikeIsLast(s.pieces);
    hide WellMasked, DistinctLabels, SpelledAlike, TableOf, EntriesOf, LastValue, Shown, RoundTrip.Value, Scannable;
    var tb := TableOf(EntriesOf(s.pieces));
    forall i | 0 <= i < |s.pieces| ensures RoundTrip.Value(s.pieces[i], tb) == Shown(s.pieces[i]) {
      assert s.pieces[i] in s.pieces;
      ValueIsLastSpelling(u, p, s, s.pieces[i]);
    }
  }

  lemma {:induction false} OriginalsFree(c: char, ps: seq<Piece>, tail: string)
    requires c !in OriginalText(ps) + tail
    ensures forall i | 0 <= i < |ps| :: c !in ps[i].gap && c !in ps[i].original
    decreases |ps|
  {
    hide OriginalText;
    if ps != [] {
      assert ps == [ps[0]] + ps[1..];
      OriginalTextCons(ps[0], ps[1..]);
      OriginalsFree(c, ps[1..], tail);
    }
  }

  /** No redacted value stands before a partially masked one. */
  ghost predicate RedactedLate(ps: seq<Piece>) {
    forall i, j | 0 <= j < i < |ps| && Filed(ps[i]) :: ps[j].out.key.Some?
  }

  /** Nothing is masked partially, or the only other stars are those of redacted values behind
      all partially masked ones. */
  ghost predicate StarFree(text: string, ps: seq<Piece>) { NoneFiled(ps) || ('*' !in text && RedactedLate(ps)) }

  lemma StarFreeLine(s: Spliced)
    requires StarFree(OriginalText(s.pieces) + s.tail, s.pieces)
    ensures NoStars(s)
  {
    hide OriginalText, TableOf, EntriesOf, IsPlaceholder;
    var ps, es := s.pieces, EntriesOf(s.pieces);
    if NoneFiled(ps) {
      StarlessLine(s);
    } else {
      OriginalsFree('*', ps, s.tail);
      EntriesFree('*', ps);
      forall i, j | 0 <= j < i < |ps| && Filed(ps[i]) ensures '*' !in RoundTrip.Value(ps[j], TableOf(es)) {
        assert ps[j].out.key.Some?;
        if ps[j].out.key.value in TableOf(es) { TableFree('*', es, ps[j].out.key.value); }
      }
    }
  }

  /** The round trip, from what can be read off the text and the detected entities: nothing
      that looks like a label with its number, and no foreign stars before partial masks. If
      equal values are spelled equally, the text comes back, with redacted values as their
      stars; without an opening square bracket whatever was detected comes back as it was last
      spelled. (Where there are foreign stars, it suffices that each partial mask of the line
      is found first at its own place.) */
  lemma RoundTripFromInput(k: Classes, u: Setup, p: Policy, text: string, es: seq<Entity>)
    requires AllInText(Selected(p, es), text) && Scannable(u, p) && NoDigests(p) && DistinctLabels(u, p)
    requires var s := MaskedLine(u, p, text, es);
      StarFree(text, s.pieces) || MasksAtHome(s)
    requires Unlabelled(k, text)
    ensures var s := MaskedLine(u, p, text, es);
      var m := MappingOf(text, s);
      && ('[' !in text ==> Demasked(k, m.masked, m).text == LastSpellings(s.pieces, s.pieces) + s.tail)
      && (SpelledAlike(s.pieces) ==> Demasked(k, m.masked, m).text == ShownLine(s))
      && (FullyRecorded(p) ==> ShownLine(s) == text)
  {
    hide *;
    var s := MaskedLine(u, p, text, es);
    LineWellMasked(u, p, text, es);
    LineConserves(u, p, text, es);
    UnlabelledNoAccident(k, u, p, s);
    NoDigestsStarred(u, p, s);
    StarKindsPartial(u, p, s);
    LineStarred(u, p, s);
    if StarFree(text, s.pieces) { StarFreeLine(s); }
    if '[' !in text {
      StarredFree(ShownLine(s), text, '[');
      RoundTripToLastSpelling(k, u, p, text, es);
    }
    if SpelledAlike(s.pieces) {
      StarredUnlabelled(k, ShownLine(s), text);
      UnlabelledHoldsNone(k, ShownLine(s), s.pieces);
      AlikeIsExact(u, p, s);
      ExactRoundTrip(k, text, s);
    }
  }
}
