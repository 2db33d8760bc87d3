/** `demask` inverts `mask_line`: exactly when equal keys mean equal spellings, and up
    to the last spelling of each canonical form otherwise. */
module Inversion {
  import opened Text
  import opened Scanner
  import opened Entities
  import opened Masking
  import opened Pipeline
  import opened Demask
  import opened RoundTrip
  import opened Lines
  import opened Interlacing

  /** The scanner's matches in the masked text that hit an issued key are as many as its
      placeholders: nothing outside them looks like one. */
  ghost predicate NoAccidentalKey(k: Classes, s: Spliced) {
    var masked := MaskedText(s.pieces) + s.tail;
    Known(masked, Hits(k, masked, 0), TableOf(EntriesOf(s.pieces))) == Placeholders(s.pieces)
  }

  /** The first pass restores one value per match with a known key. */
  lemma {:induction false} Pass1Counts(k: Classes, s: string, i: nat, tb: Table)
    requires i <= |s|
    ensures Pass1(k, s, i, tb).restored == Known(s, Hits(k, s, i), tb)
    decreases |s| - i
  {
    hide MatchAt, Cuts.Key;
    if i < |s| {
      var j := NextPos(k, s, i);
      Pass1Counts(k, s, j, tb);
      KnownPrepend(s, MatchAt(k, s, i), Hits(k, s, j), tb);
    }
  }

  lemma KnownPrepend(s: string, m: Option<Cuts>, rest: seq<Cuts>, tb: Table)
    ensures Known(s, Prepend(m, rest), tb) ==
      (if m.Some? && m.value.In(s) && m.value.Key(s) in tb then 1 else 0) + Known(s, rest, tb)
  {
    hide Cuts.Key;
    if m.Some? { assert Prepend(m, rest)[1..] == rest; }
  }

  /** The second pass finds none of the line's own placeholders. */
  ghost predicate FindsNone(s: Spliced) { Silent("", s.pieces, s.tail, TableOf(EntriesOf(s.pieces))) }

  /** In the second pass, each altered mask of the line is found first at its own place. */
  ghost predicate MasksAtHome(s: Spliced) { AtHome(0, "", s.pieces, s.tail, TableOf(EntriesOf(s.pieces))) }

  /** Both passes: gaps and unrecorded masks verbatim, placeholders to what is stored last
      under their key, all other masks to their own originals. */
  lemma DemaskPieces(k: Classes, text: string, s: Spliced)
    requires NoAccidentalKey(k, s) && FindsNone(s) && MasksAtHome(s)
    ensures var m := MappingOf(text, s);
      var r := Demasked(k, m.masked, m);
      && r.text == Restored(s.pieces, TableOf(m.entries)) + s.tail
      && r.restored == Placeholders(s.pieces) + FiledForms(s.pieces)
  {
    hide Hits, Known, Pass1, Pass2, TableOf, EntriesOf, Forms, Half, Restored, MaskedText, Placeholders, FiledForms,
      Silent, AtHome;
    var ps := s.pieces;
    var tb := TableOf(EntriesOf(ps));
    HalfWay(k, s);
    var st := Edited(Half(ps, tb) + s.tail, 0, 0);
    assert "" + Half(ps, tb) + s.tail == st.text;
    SecondPass(st, "", ps, s.tail, tb);
    assert "" + Restored(ps, tb) + s.tail == Restored(ps, tb) + s.tail;
  }

  /** The first pass restores the placeholders and nothing else. */
  lemma HalfWay(k: Classes, s: Spliced)
    requires NoAccidentalKey(k, s)
    ensures var tb := TableOf(EntriesOf(s.pieces));
      var r := Pass1(k, MaskedText(s.pieces) + s.tail, 0, tb);
      r.text == Half(s.pieces, tb) + s.tail && r.restored == Placeholders(s.pieces)
  {
    hide Hits, Known, Pass1, TableOf, EntriesOf, Half, MaskedText, KeysIn, Placeholders;
    var ps := s.pieces;
    var tb := TableOf(EntriesOf(ps));
    KeysAreIn(ps);
    Pass1Counts(k, MaskedText(ps) + s.tail, 0, tb);
    FirstPass(k, "", ps, s.tail, tb);
    assert "" + MaskedText(ps) == MaskedText(ps) && "" + Half(ps, tb) == Half(ps, tb);
  }

  // ----- texts in which no issued placeholder stands -----

  lemma StarredAppend(s: string, t: string, a: string, b: string)
    requires Starred(s, t) && Starred(a, b)
    ensures Starred(s + a, t + b)
  {}

  lemma StarredSelf(s: string)
    ensures Starred(s, s)
  {}

  /** The text holds no placeholder that masking it issues. */
  ghost predicate NoPlaceholderIn(text: string, ps: seq<Piece>) {
    forall i | 0 <= i < |ps| :: IsPlaceholder(ps[i]) ==> Absent(text, ps[i].out.replacement)
  }

  lemma PlaceholderStarless(p: Piece)
    requires IsPlaceholder(p)
    ensures '*' !in p.out.replacement
  {}

  lemma StarredAbsent(s: string, t: string, m: string)
    requires Starred(s, t) && '*' !in m && Absent(t, m)
    ensures Absent(s, m)
  {
    forall j: nat ensures !OccursAt(s, m, j) {
      if OccursAt(s, m, j) {
        Occurrence(s, m, j);
        assert t[j..j + |m|] == m;
        assert OccursAt(t, m, j);
      }
    }
  }

  ghost predicate ExactValues(ps: seq<Piece>, tb: Table) {
    forall i | 0 <= i < |ps| :: RoundTrip.Value(ps[i], tb) == Shown(ps[i])
  }

  lemma MaskStarred(p: Piece)
    requires Filed(p) ==> IsPartial(p)
    requires !IsPlaceholder(p)
    ensures Starred(p.out.replacement, Shown(p))
  {
    hide IsPlaceholder;
  }

  /** What is half restored is the line with some characters starred. */
  lemma {:induction false} HalfStarred(ps: seq<Piece>, tb: Table)
    requires PartialsOnly(ps) && ExactValues(ps, tb)
    ensures Starred(Half(ps, tb), ShownText(ps))
    decreases |ps|
  {
    hide Starred, IsPlaceholder, IsPartial, RoundTrip.Value, Shown;
    if ps == [] {
      StarredSelf("");
    } else {
      var p := ps[0];
      var x := if IsPlaceholder(p) then Shown(p) else p.out.replacement;
      HalfStarred(ps[1..], tb);
      StarredSelf(p.gap);
      StarredSelf(Shown(p));
      if !IsPlaceholder(p) { MaskStarred(p); }
      StarredAppend(p.gap, p.gap, x, Shown(p));
      StarredAppend(p.gap + x, p.gap + Shown(p), Half(ps[1..], tb), ShownText(ps[1..]));
    }
  }

  /** If every value comes back exactly and the line holds no issued placeholder, the second
      pass never finds one. */
  lemma {:induction false} ExactSilent(done: string, ps: seq<Piece>, tail: string, tb: Table, text: string)
    requires PartialsOnly(ps) && ExactValues(ps, tb) && NoPlaceholderIn(text, ps)
    requires text == done + ShownText(ps) + tail
    ensures Silent(done, ps, tail, tb)
    decreases |ps|
  {
    hide Starred, IsPlaceholder, IsPartial, RoundTrip.Value, Shown, ShownText, Absent, Half;
    if ps != [] {
      var p := ps[0];
      var next := done + p.gap + Shown(p);
      ShownTextCons(ps);
      FourParts(done, p.gap, Shown(p), ShownText(ps[1..]));
      ExactSilent(next, ps[1..], tail, tb, text);
      if IsPlaceholder(p) {
        HalfStarred(ps[1..], tb);
        StarredSelf(next);
        StarredSelf(tail);
        StarredAppend(Half(ps[1..], tb), ShownText(ps[1..]), tail, tail);
        StarredAppend(next, next, Half(ps[1..], tb) + tail, ShownText(ps[1..]) + tail);
        assert text == next + (ShownText(ps[1..]) + tail);
        PlaceholderStarless(p);
        StarredAbsent(next + (Half(ps[1..], tb) + tail), text, p.out.replacement);
      }
    }
  }

  lemma {:induction false} PartsFree(c: char, ps: seq<Piece>, tail: string)
    requires c !in ShownText(ps) + tail
    ensures c !in tail && forall i | 0 <= i < |ps| :: c !in ps[i].gap && c !in Shown(ps[i])
    decreases |ps|
  {
    hide ShownText, Shown;
    if ps != [] {
      ShownTextCons(ps);
      PartsFree(c, ps[1..], tail);
    }
  }

  lemma {:induction false} EntriesFree(c: char, ps: seq<Piece>)
    requires forall i | 0 <= i < |ps| :: ps[i].out.key.Some? ==> c !in ps[i].original
    ensures forall e <- EntriesOf(ps) :: c !in e.original
    decreases |ps|
  {
    if ps != [] { EntriesFree(c, ps[1..]); }
  }

  /** What is stored last under any key is the original of some piece. */
  lemma TableFree(c: char, es: seq<Entry>, key: string)
    requires key in TableOf(es) && forall e <- es :: c !in e.original
    ensures c !in TableOf(es)[key]
  {
    hide TableOf;
    TableHas(es);
    var i :| 0 <= i < |es| && es[i].key == key && es[i].original == TableOf(es)[key];
    assert es[i] in es;
  }

  /** A character that is not in the line is in no gap and in no value that comes back. */
  lemma ValuesFree(c: char, ps: seq<Piece>, tail: string)
    requires c !in ShownText(ps) + tail
    ensures var tb := TableOf(EntriesOf(ps));
      c !in tail && forall i | 0 <= i < |ps| ::
        c !in ps[i].gap && c !in Shown(ps[i]) && c !in RoundTrip.Value(ps[i], tb)
  {
    hide ShownText, TableOf, EntriesOf, IsPlaceholder;
    var es := EntriesOf(ps);
    PartsFree(c, ps, tail);
    forall i | 0 <= i < |ps| && ps[i].out.key.Some? ensures c !in ps[i].original { assert c !in Shown(ps[i]); }
    EntriesFree(c, ps);
    forall i | 0 <= i < |ps| ensures c !in RoundTrip.Value(ps[i], TableOf(es)) {
      if ps[i].out.key.Some? && ps[i].out.key.value in TableOf(es) { TableFree(c, es, ps[i].out.key.value); }
    }
  }

  lemma MaskBracketFree(p: Piece)
    requires (Filed(p) ==> IsPartial(p)) && !IsPlaceholder(p) && '[' !in Shown(p)
    ensures '[' !in p.out.replacement
  {
    hide IsPlaceholder;
  }

  /** A line without an opening square bracket gives the second pass no placeholder to find. */
  lemma BracketFreeFindsNone(s: Spliced)
    requires PartialsOnly(s.pieces) && '[' !in ShownLine(s)
    ensures FindsNone(s)
  {
    hide ShownText, TableOf, EntriesOf, Silent, IsPlaceholder, IsPartial, RoundTrip.Value, Shown;
    var ps, tb := s.pieces, TableOf(EntriesOf(s.pieces));
    ValuesFree('[', ps, s.tail);
    forall i | 0 <= i < |ps| && !IsPlaceholder(ps[i]) ensures '[' !in ps[i].out.replacement {
      MaskBracketFree(ps[i]);
    }
    BracketFreeSilent("", ps, s.tail, tb);
  }

  /** No star before a mask that the second pass has to find. */
  ghost predicate NoStars(s: Spliced) { StarsLate(s.pieces, TableOf(EntriesOf(s.pieces))) }

  /** Then every mask is found at its own place. */
  lemma NoStarsAtHome(s: Spliced)
    requires PartialsOnly(s.pieces) && NoStars(s) && FindsNone(s)
    ensures MasksAtHome(s)
  {
    hide TableOf, EntriesOf, Silent, AtHome, NoneFiled, PartialsOnly, StarsLate;
    StarsLateAtHome(0, "", s.pieces, s.tail, TableOf(EntriesOf(s.pieces)));
  }

  /** So it is on lines without a star, and on those with nothing to find. */
  lemma StarlessLine(s: Spliced)
    requires NoneFiled(s.pieces) || '*' !in ShownLine(s)
    ensures NoStars(s)
  {
    hide ShownText, TableOf, EntriesOf, RoundTrip.Value, IsPlaceholder;
    if '*' !in ShownLine(s) { ValuesFree('*', s.pieces, s.tail); }
  }

  // ----- where accidental keys can stand -----

  /** The stretches of a masked text before, between and after its placeholders. */
  ghost function Stretches(before: string, ps: seq<Piece>, tail: string): seq<string>
    decreases |ps|
  {
    if ps == [] then [before + tail]
    else if IsPlaceholder(ps[0]) then [before + ps[0].gap] + Stretches("", ps[1..], tail)
    else Stretches(before + ps[0].gap + ps[0].out.replacement, ps[1..], tail)
  }

  /** Known keys in all of them. */
  function KnownIn(k: Classes, ss: seq<string>, tb: Table): nat {
    if ss == [] then 0 else Known(ss[0], Hits(k, ss[0], 0), tb) + KnownIn(k, ss[1..], tb)
  }

  lemma {:induction false} CountStretches(k: Classes, a: string, ps: seq<Piece>, tail: string, tb: Table)
    requires KeysIn(ps, tb)
    ensures Pass1(k, a + MaskedText(ps) + tail, 0, tb).restored ==
      Placeholders(ps) + KnownIn(k, Stretches(a, ps, tail), tb)
    decreases |ps|
  {
    hide Pass1, Hits, Known, KeysIn, RoundTrip.Value, IsPlaceholder, MaskedText;
    if ps == [] {
      MaskedTextNil();
      assert a + "" + tail == a + tail && [a + tail][1..] == [];
      Pass1Counts(k, a + tail, 0, tb);
    } else {
      var p := ps[0];
      MaskedCons(ps, a, tail);
      KeysInParts(ps, tb);
      var rest := MaskedText(ps[1..]) + tail;
      if IsPlaceholder(p) {
        CountStretches(k, "", ps[1..], tail, tb);
        assert "" + MaskedText(ps[1..]) == MaskedText(ps[1..]);
        FirstPassPlaceholder(k, a, p, rest, tb);
        Pass1Counts(k, a + p.gap, 0, tb);
        assert ([a + p.gap] + Stretches("", ps[1..], tail))[1..] == Stretches("", ps[1..], tail);
      } else {
        var b := a + p.gap + p.out.replacement;
        CountStretches(k, b, ps[1..], tail, tb);
        assert b + MaskedText(ps[1..]) + tail == b + rest;
      }
    }
  }

  lemma {:induction false} NoneKnown(k: Classes, ss: seq<string>, tb: Table)
    ensures KnownIn(k, ss, tb) == 0 <==> forall i | 0 <= i < |ss| :: Known(ss[i], Hits(k, ss[i], 0), tb) == 0
  {
    hide Hits, Known;
    if ss != [] {
      NoneKnown(k, ss[1..], tb);
      if KnownIn(k, ss[1..], tb) == 0 {
        forall i | 0 < i < |ss| ensures Known(ss[i], Hits(k, ss[i], 0), tb) == 0 { assert ss[i] == ss[1..][i - 1]; }
      }
      if forall i | 0 <= i < |ss| :: Known(ss[i], Hits(k, ss[i], 0), tb) == 0 {
        forall i | 0 <= i < |ss[1..]| ensures Known(ss[1..][i], Hits(k, ss[1..][i], 0), tb) == 0 {
          assert ss[1..][i] == ss[i + 1];
        }
      }
    }
  }

  /** A masked line has no accidental key iff no stretch outside its placeholders, scanned
      by itself, has a match with an issued key: placeholders add none. */
  lemma AccidentalKeysStandOutside(k: Classes, s: Spliced)
    ensures var tb, ss := TableOf(EntriesOf(s.pieces)), Stretches("", s.pieces, s.tail);
      NoAccidentalKey(k, s) <==> forall i | 0 <= i < |ss| :: Known(ss[i], Hits(k, ss[i], 0), tb) == 0
  {
    hide Hits, Known, Pass1, TableOf, EntriesOf, MaskedText, KeysIn, Placeholders, Stretches, KnownIn;
    var ps := s.pieces;
    var tb := TableOf(EntriesOf(ps));
    KeysAreIn(ps);
    Pass1Counts(k, MaskedText(ps) + s.tail, 0, tb);
    CountStretches(k, "", ps, s.tail, tb);
    assert "" + MaskedText(ps) == MaskedText(ps);
    NoneKnown(k, Stretches("", ps, s.tail), tb);
  }

  // ----- exact inversion -----

  lemma {:induction false} RestoredExactly(ps: seq<Piece>, tb: Table)
    requires ExactValues(ps, tb)
    ensures Restored(ps, tb) == ShownText(ps)
    decreases |ps|
  {
    hide RoundTrip.Value, Shown;
    if ps != [] { RestoredExactly(ps[1..], tb); }
  }

  lemma SpellingsMatch(ps: seq<Piece>, i: nat)
    requires i < |ps| && SameSpelling(EntriesOf(ps))
    ensures RoundTrip.Value(ps[i], TableOf(EntriesOf(ps))) == Shown(ps[i])
  {
    hide EntriesOf, TableOf, IsPlaceholder;
    var es := EntriesOf(ps);
    TableHas(es);
    if ps[i].out.key.Some? {
      EntryOfPiece(ps, i);
      var e :| e in es && e.key == ps[i].out.key.value && e.original == ps[i].original;
      var a :| 0 <= a < |es| && es[a] == e;
      var b :| 0 <= b < |es| && es[b].key == e.key && es[b].original == TableOf(es)[e.key];
    }
  }

  lemma SpellingsMatchAll(ps: seq<Piece>)
    requires SameSpelling(EntriesOf(ps))
    ensures ExactValues(ps, TableOf(EntriesOf(ps)))
  {
    hide SameSpelling, EntriesOf, TableOf, RoundTrip.Value, Shown;
    forall i | 0 <= i < |ps| ensures RoundTrip.Value(ps[i], TableOf(EntriesOf(ps))) == Shown(ps[i]) {
      SpellingsMatch(ps, i);
    }
  }

  /** All six kinds of masks, whatever digests and synthetic values are: if neither pass is
      misled, every recorded value comes back and every other one is shown as its mask. */
  lemma LineRoundTrip(k: Classes, text: string, s: Spliced)
    requires NoAccidentalKey(k, s) && FindsNone(s) && MasksAtHome(s)
    requires ExactValues(s.pieces, TableOf(EntriesOf(s.pieces)))
    ensures var m := MappingOf(text, s);
      var r := Demasked(k, m.masked, m);
      r.text == ShownLine(s) && r.restored == Placeholders(s.pieces) + FiledForms(s.pieces)
  {
    hide ShownText, Restored, Demasked, EntriesOf, TableOf, NoAccidentalKey, FindsNone, MasksAtHome, ExactValues,
      Placeholders, FiledForms;
    DemaskPieces(k, text, s);
    RestoredExactly(s.pieces, TableOf(EntriesOf(s.pieces)));
  }

  /** If the table restores every value exactly and the line holds no issued placeholder, it
      demasks to what of it can come back iff each altered mask is found first at its own
      place. (A value that holds a star itself leaves its mask's stars ambiguous.) */
  lemma ExactRoundTrip(k: Classes, text: string, s: Spliced)
    requires PartialsOnly(s.pieces) && NoAccidentalKey(k, s) && NoPlaceholderIn(ShownLine(s), s.pieces)
    requires ExactValues(s.pieces, TableOf(EntriesOf(s.pieces)))
    ensures var m := MappingOf(text, s);
      var r := Demasked(k, m.masked, m);
      && (MasksAtHome(s) || NoStars(s) ==>
            r.text == ShownLine(s) && r.restored == Placeholders(s.pieces) + FiledForms(s.pieces))
      && (StarlessPartials(s.pieces) && r.text == ShownLine(s) ==> MasksAtHome(s))
  {
    hide EntriesOf, TableOf, NoAccidentalKey, NoPlaceholderIn, Restored, ShownText, Silent, ExactValues, Demasked,
      MaskedText, AtHome, StarlessPartials, MasksAtHome, NoStars, PartialsOnly, Placeholders, FiledForms;
    var tb := TableOf(EntriesOf(s.pieces));
    FromNothing(ShownText(s.pieces), s.tail);
    ExactSilent("", s.pieces, s.tail, tb, ShownLine(s));
    RestoredExactly(s.pieces, tb);
    if NoStars(s) { NoStarsAtHome(s); }
    if MasksAtHome(s) {
      DemaskPieces(k, text, s);
    } else if StarlessPartials(s.pieces) {
      AwayFromHome(k, text, s);
    }
  }

  lemma FromNothing(a: string, b: string)
    ensures "" + a + b == a + b
  {}

  lemma AwayFromHome(k: Classes, text: string, s: Spliced)
    requires NoAccidentalKey(k, s) && FindsNone(s) && !MasksAtHome(s) && StarlessPartials(s.pieces)
    ensures var m := MappingOf(text, s);
      Demasked(k, m.masked, m).text != Restored(s.pieces, TableOf(m.entries)) + s.tail
  {
    hide Pass1, Pass2, TableOf, EntriesOf, Forms, Half, Restored, MaskedText, Silent, AtHome, NoAccidentalKey,
      StarlessPartials;
    var ps := s.pieces;
    var tb := TableOf(EntriesOf(ps));
    HalfWay(k, s);
    var st := Edited(Half(ps, tb) + s.tail, 0, 0);
    assert "" + Half(ps, tb) + s.tail == st.text;
    NotAtHome(st, "", ps, s.tail, tb);
    assert "" + Restored(ps, tb) + s.tail == Restored(ps, tb) + s.tail;
  }

  /** Mixed round trip: whatever entities were detected, the masked line demasks to the text
      it came from, with the values that have no record shown as their masks, provided equal
      keys were recorded with equal spellings, nothing outside the placeholders reads like an
      issued key, the line holds none of the placeholders it is given, and either no star
      stands before a partial mask or each of these is found first at its own place. */
  lemma MixedRoundTrip(k: Classes, u: Setup, p: Policy, text: string, es: seq<Entity>)
    requires AllInText(Selected(p, es), text) && Scannable(u, p) && StarKinds(p)
    requires var s := MaskedLine(u, p, text, es);
      && NoAccidentalKey(k, s) && SameSpelling(EntriesOf(s.pieces)) && NoPlaceholderIn(ShownLine(s), s.pieces)
      && (NoStars(s) || MasksAtHome(s))
    ensures var s := MaskedLine(u, p, text, es);
      var m := MappingOf(text, s);
      var r := Demasked(k, m.masked, m);
      && r.text == ShownLine(s) && (FullyRecorded(p) ==> r.text == text)
      && r.restored == Placeholders(s.pieces) + FiledForms(s.pieces)
  {
    hide *;
    var s := MaskedLine(u, p, text, es);
    LineWellMasked(u, p, text, es);
    StarKindsPartial(u, p, s);
    SpellingsMatchAll(s.pieces);
    ExactRoundTrip(k, text, s);
  }

  /** With stars in the line: it comes back iff the first occurrence of each altered mask,
      from where the last substitution ended, is the mask's own place. */
  lemma MixedRoundTripIffAtHome(k: Classes, u: Setup, p: Policy, text: string, es: seq<Entity>)
    requires AllInText(Selected(p, es), text) && Scannable(u, p) && StarKinds(p)
    requires var s := MaskedLine(u, p, text, es);
      && NoAccidentalKey(k, s) && SameSpelling(EntriesOf(s.pieces)) && NoPlaceholderIn(ShownLine(s), s.pieces)
      && StarlessPartials(s.pieces)
    ensures var s := MaskedLine(u, p, text, es);
      var m := MappingOf(text, s);
      Demasked(k, m.masked, m).text == ShownLine(s) <==> MasksAtHome(s)
  {
    hide *;
    var s := MaskedLine(u, p, text, es);
    LineWellMasked(u, p, text, es);
    StarKindsPartial(u, p, s);
    SpellingsMatchAll(s.pieces);
    ExactRoundTrip(k, text, s);
  }

  // ----- inversion up to the canonical form -----

  /** The original of the last placeholder for `v`. */
  ghost function LastSpelling(ps: seq<Piece>, v: Masking.Value): string
    decreases |ps|
  {
    if ps == [] then ""
    else
      var q := ps[|ps| - 1];
      if IsPlaceholder(q) && ValueOf(q) == v then q.original else LastSpelling(ps[..|ps| - 1], v)
  }

  /** Two records share a placeholder's key iff they stand for one value. */
  lemma KeyMatches(u: Setup, p: Policy, st: Numbers, v: Masking.Value, q: Piece)
    requires Numbered(st) && Scannable(u, p) && DistinctLabels(u, p) && Keyed(u, p, st, q)
    requires v in st.given && v.0 in p.types && p.KindOf(v.0) == Placeholder
    ensures q.out.key == Some(PlaceholderKey(u.maskers, v.0, st.given[v])) <==> IsPlaceholder(q) && ValueOf(q) == v
  {
    hide Decimal, Numbered, IsPlaceholder, IsLabel;
    var w := ValueOf(q);
    if p.KindOf(w.0) == Placeholder {
      if PlaceholderKey(u.maskers, v.0, st.given[v]) == PlaceholderKey(u.maskers, w.0, st.given[w]) {
        KeysInjective(u.maskers, st, v, w);
      }
    } else if q.out.key.Some? {
      assert NoPlaceholderKey(q.out.key.value);
      assert IsLabel(u.maskers.LabelOf(v.0));
    }
  }

  /** The key table holds, under a placeholder's key, the spelling recorded last. */
  lemma {:induction false} TableIsLastSpelling(u: Setup, p: Policy, st: Numbers, ps: seq<Piece>, v: Masking.Value)
    requires Numbered(st) && Scannable(u, p) && DistinctLabels(u, p) && AllKeyed(u, p, st, ps)
    requires v in st.given && v.0 in p.types && p.KindOf(v.0) == Placeholder
    ensures var key := PlaceholderKey(u.maskers, v.0, st.given[v]);
      key in TableOf(EntriesOf(ps)) ==> TableOf(EntriesOf(ps))[key] == LastSpelling(ps, v)
    decreases |ps|
  {
    hide Decimal, Numbered, IsPlaceholder, DistinctLabels, Keyed, EntriesOf, PlaceholderKey, Scannable, EntryOf;
    if ps == [] {
      NoEntries();
    } else {
      var n := |ps| - 1;
      var q := ps[n];
      assert ps == ps[..n] + [q] && Keyed(u, p, st, q);
      EntriesAppend(ps[..n], q);
      KeyMatches(u, p, st, v, q);
      TableIsLastSpelling(u, p, st, ps[..n], v);
      if q.out.key.None? {
        NoEntry(q);
        assert EntriesOf(ps[..n]) + [] == EntriesOf(ps[..n]);
      } else {
        OneEntry(q);
        TableAppend(EntriesOf(ps[..n]), EntryOf(q)[0]);
      }
    }
  }

  lemma NoEntries()
    ensures TableOf(EntriesOf([])) == map[]
  {}

  lemma NoEntry(q: Piece)
    requires q.out.key.None?
    ensures EntryOf(q) == []
  {}

  lemma OneEntry(q: Piece)
    requires q.out.key.Some?
    ensures EntryOf(q) == [EntryOf(q)[0]]
    ensures q.out.key == Some(EntryOf(q)[0].key) && EntryOf(q)[0].original == q.original
  {}

  lemma TableAppend(es: seq<Entry>, e: Entry)
    ensures TableOf(es + [e]) == TableOf(es)[e.key := e.original]
  {
    assert (es + [e])[..|es|] == es;
  }

  /** What a piece comes back as: a placeholder as the last spelling recorded for its type and
      canonical form, anything else as what of it can come back. */
  ghost function LastValue(q: Piece, all: seq<Piece>): string {
    if IsPlaceholder(q) then LastSpelling(all, ValueOf(q)) else Shown(q)
  }

  ghost function LastSpellings(ps: seq<Piece>, all: seq<Piece>): string {
    if ps == [] then "" else ps[0].gap + LastValue(ps[0], all) + LastSpellings(ps[1..], all)
  }

  lemma ValueIsLastSpelling(u: Setup, p: Policy, s: Spliced, q: Piece)
    requires WellMasked(u, p, s) && Scannable(u, p) && DistinctLabels(u, p) && q in s.pieces
    ensures RoundTrip.Value(q, TableOf(EntriesOf(s.pieces))) == LastValue(q, s.pieces)
  {
    hide Decimal, Numbered, DistinctLabels, EntriesOf, TableOf, PlaceholderKey, LastSpelling, IsPlaceholder, Scannable;
    if IsPlaceholder(q) {
      var i :| 0 <= i < |s.pieces| && s.pieces[i] == q;
      assert Keyed(u, p, s.state, q);
      KeysAreIn(s.pieces);
      TableIsLastSpelling(u, p, s.state, s.pieces, ValueOf(q));
    }
  }

  lemma {:induction false} RestoredToLast(ps: seq<Piece>, all: seq<Piece>, tb: Table)
    requires forall q <- ps :: RoundTrip.Value(q, tb) == LastValue(q, all)
    ensures Restored(ps, tb) == LastSpellings(ps, all)
    decreases |ps|
  {
    hide RoundTrip.Value, LastValue;
    if ps != [] { RestoredToLast(ps[1..], all, tb); }
  }

  /** Nothing empty is recorded but as a placeholder. */
  ghost predicate NonEmptyRecords(ps: seq<Piece>) { forall i | 0 <= i < |ps| && Filed(ps[i]) :: ps[i].original != "" }

  /** Then every record is restored once. */
  lemma {:induction false} CountRestored(ps: seq<Piece>)
    requires PartialsOnly(ps) && NonEmptyRecords(ps)
    ensures Placeholders(ps) + FiledForms(ps) == |EntriesOf(ps)|
    decreases |ps|
  {
    hide IsPlaceholder;
    if ps != [] {
      if IsPlaceholder(ps[0]) { PlaceholderKeyed(ps[0]); }
      assert Filed(ps[0]) ==> IsPartial(ps[0]) && ps[0].original != "";
      CountRestored(ps[1..]);
    }
  }

  /** Round trip up to canonical form, for any entities and with no assumption on
      spellings: every record is restored, once. */
  lemma RoundTripToLastSpelling(k: Classes, u: Setup, p: Policy, text: string, es: seq<Entity>)
    requires AllInText(Selected(p, es), text) && Scannable(u, p) && StarKinds(p) && DistinctLabels(u, p)
    requires var s := MaskedLine(u, p, text, es);
      NoAccidentalKey(k, s) && '[' !in ShownLine(s) && (NoStars(s) || MasksAtHome(s))
    ensures var s := MaskedLine(u, p, text, es);
      var m := MappingOf(text, s);
      var r := Demasked(k, m.masked, m);
      && r.text == LastSpellings(s.pieces, s.pieces) + s.tail
      && (NonEmptyRecords(s.pieces) ==> r.restored == |m.entries|)
  {
    var s := MaskedLine(u, p, text, es);
    var tb := TableOf(EntriesOf(s.pieces));
    hide *;
    LineWellMasked(u, p, text, es);
    StarKindsPartial(u, p, s);
    BracketFreeFindsNone(s);
    if NoStars(s) { NoStarsAtHome(s); }
    DemaskPieces(k, text, s);
    forall q <- s.pieces ensures RoundTrip.Value(q, tb) == LastValue(q, s.pieces) {
      ValueIsLastSpelling(u, p, s, q);
    }
    RestoredToLast(s.pieces, s.pieces, tb);
    if NonEmptyRecords(s.pieces) { CountRestored(s.pieces); }
  }

  /** Every placeholder stands for the spelling recorded last. */
  ghost predicate SpelledAsLast(ps: seq<Piece>, all: seq<Piece>) {
    forall i | 0 <= i < |ps| :: LastValue(ps[i], all) == Shown(ps[i])
  }

  function Gaps(ps: seq<Piece>): (r: seq<string>)
    ensures |r| == |ps|
  { seq(|ps|, i requires 0 <= i < |ps| => ps[i].gap) }

  /** What of each value can come back. */
  function ShownValues(ps: seq<Piece>): (r: seq<string>)
    ensures |r| == |ps|
  { seq(|ps|, i requires 0 <= i < |ps| => Shown(ps[i])) }

  /** What each value comes back as. */
  ghost function LastValues(ps: seq<Piece>, all: seq<Piece>): (r: seq<string>)
    ensures |r| == |ps|
  { seq(|ps|, i requires 0 <= i < |ps| => LastValue(ps[i], all)) }

  lemma {:induction false} ShownInterlaced(ps: seq<Piece>)
    ensures ShownText(ps) == Interlaced(Gaps(ps), ShownValues(ps))
    decreases |ps|
  {
    hide Shown;
    if ps != [] {
      ShownInterlaced(ps[1..]);
      assert Gaps(ps)[1..] == Gaps(ps[1..]) && ShownValues(ps)[1..] == ShownValues(ps[1..]);
    }
  }

  lemma {:induction false} LastInterlaced(ps: seq<Piece>, all: seq<Piece>)
    ensures LastSpellings(ps, all) == Interlaced(Gaps(ps), LastValues(ps, all))
    decreases |ps|
  {
    hide LastValue;
    if ps != [] {
      LastInterlaced(ps[1..], all);
      assert Gaps(ps)[1..] == Gaps(ps[1..]) && LastValues(ps, all)[1..] == LastValues(ps[1..], all);
    }
  }

  /** The line comes back iff equal values were spelled equally, wherever one can see the
      ends of the values: spellings of one length, as under case folding of fixed width,
      or values followed by a character they do not hold. */
  lemma RoundTripIffLastSpelling(k: Classes, u: Setup, p: Policy, text: string, es: seq<Entity>)
    requires AllInText(Selected(p, es), text) && Scannable(u, p) && StarKinds(p) && DistinctLabels(u, p)
    requires var s := MaskedLine(u, p, text, es);
      && NoAccidentalKey(k, s) && '[' !in ShownLine(s) && (NoStars(s) || MasksAtHome(s))
      && EndsSeen(Gaps(s.pieces), LastValues(s.pieces, s.pieces), ShownValues(s.pieces), s.tail)
    ensures var s := MaskedLine(u, p, text, es);
      var m := MappingOf(text, s);
      Demasked(k, m.masked, m).text == ShownLine(s) <==> SpelledAsLast(s.pieces, s.pieces)
  {
    var s := MaskedLine(u, p, text, es);
    hide *;
    RoundTripToLastSpelling(k, u, p, text, es);
    IffLast(s);
  }

  lemma IffLast(s: Spliced)
    requires EndsSeen(Gaps(s.pieces), LastValues(s.pieces, s.pieces), ShownValues(s.pieces), s.tail)
    ensures LastSpellings(s.pieces, s.pieces) + s.tail == ShownLine(s) <==> SpelledAsLast(s.pieces, s.pieces)
  {
    var ps := s.pieces;
    hide LastSpellings, ShownText, EndsSeen, LastValue, Shown;
    ShownInterlaced(ps);
    LastInterlaced(ps, ps);
    if LastSpellings(ps, ps) + s.tail == ShownLine(s) {
      InterlacedTells(Gaps(ps), LastValues(ps, ps), ShownValues(ps), s.tail);
      forall i | 0 <= i < |ps| ensures LastValue(ps[i], ps) == Shown(ps[i]) {
        assert LastValues(ps, ps)[i] == ShownValues(ps)[i];
      }
    }
    if SpelledAsLast(ps, ps) { assert LastValues(ps, ps) == ShownValues(ps); }
  }
}
