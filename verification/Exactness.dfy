/** When a line that records placeholders only comes back, exactly: where its text holds an
    issued placeholder, and where it reads like issued keys. */
module Exactness {
  import opened Text
  import opened Scanner
  import opened Pipeline
  import opened Splices
  import opened Demask
  import opened RoundTrip
  import opened Lines
  import opened Interlacing
  import opened Inversion
  import opened SharedMapping

  // ----- an issued placeholder in the text -----

  function Brackets(s: string): nat { if s == "" then 0 else (if s[0] == '[' then 1 else 0) + Brackets(s[1..]) }

  lemma {:induction false} BracketsAppend(s: string, t: string)
    ensures Brackets(s + t) == Brackets(s) + Brackets(t)
  {
    if s == "" {
      assert s + t == t;
    } else {
      assert (s + t)[0] == s[0] && (s + t)[1..] == s[1..] + t;
      BracketsAppend(s[1..], t);
    }
  }

  lemma {:induction false} NoBrackets(s: string)
    requires '[' !in s
    ensures Brackets(s) == 0
  {
    if s != "" { NoBrackets(s[1..]); }
  }

  /** A form with an opening bracket in front, for a value without one. */
  predicate Bracketing(f: Form) { f.masked != "" && f.masked[0] == '[' && '[' !in f.original }

  /** A substitution that takes place lowers the number of opening brackets. */
  lemma StepLowers(st: Edited, f: Form)
    requires st.from <= |st.text| && Bracketing(f)
    ensures var r := Pass2Step(st, f);
      r == st || Brackets(r.text) < Brackets(st.text)
  {
    var pos := Find(st.text, f.masked, st.from);
    if pos.Some? {
      var a, b, at := st.text[..pos.value], st.text[pos.value + |f.masked|..], pos.value;
      assert st.text == a + st.text[at..at + |f.masked|] + b;
      assert st.text == a + f.masked + b;
      hide Find;
      NoBrackets(f.original);
      BracketsAppend(a + f.masked, b);
      BracketsAppend(a, f.masked);
      BracketsAppend(a + f.original, b);
      BracketsAppend(a, f.original);
      assert Brackets(f.masked) >= 1;
    }
  }

  /** If one of the forms occurs, the second pass changes the text for good. */
  lemma {:induction false} PassLowers(st: Edited, fs: seq<Form>)
    requires st.from <= |st.text| && forall i | 0 <= i < |fs| :: Bracketing(fs[i])
    ensures Brackets(Pass2(st, fs).text) <= Brackets(st.text)
    ensures st.from == 0 && (exists i :: 0 <= i < |fs| && !Absent(st.text, fs[i].masked)) ==>
      Brackets(Pass2(st, fs).text) < Brackets(st.text)
    decreases |fs|
  {
    hide Pass2Step, Absent, Bracketing, Brackets;
    if fs != [] {
      var next := Pass2Step(st, fs[0]);
      StepLowers(st, fs[0]);
      PassLowers(next, fs[1..]);
      if st.from == 0 && exists i :: 0 <= i < |fs| && !Absent(st.text, fs[i].masked) {
        var i :| 0 <= i < |fs| && !Absent(st.text, fs[i].masked);
        if i == 0 {
          StepMoves(st, fs[0]);
        } else if next == st {
          assert fs[1..][i - 1] == fs[i];
        }
      }
    }
  }

  lemma StepMoves(st: Edited, f: Form)
    requires st.from == 0 && Bracketing(f) && !Absent(st.text, f.masked)
    ensures Pass2Step(st, f) != st
  {
    hide OccursAt;
    var j: nat :| OccursAt(st.text, f.masked, j);
    assert Find(st.text, f.masked, 0).Some?;
  }

  lemma {:induction false} FormsBracketing(ps: seq<Piece>, i: nat)
    requires NoneFiled(ps) && i < |Forms(EntriesOf(ps))|
    requires forall j | 0 <= j < |ps| && IsPlaceholder(ps[j]) :: '[' !in ps[j].original
    ensures var f := Forms(EntriesOf(ps))[i];
      Bracketing(f) && exists j :: 0 <= j < |ps| && IsPlaceholder(ps[j]) && f.masked == ps[j].out.replacement
    decreases |ps|
  {
    if ps != [] {
      hide IsPlaceholder, Forms, EntriesOf;
      FormsCons(ps);
      var q, f, rest := ps[0], Forms(EntriesOf(ps))[i], ps[1..];
      if q.out.key.Some? && q.out.replacement != "" && i == 0 {
        assert !Filed(q) && IsPlaceholder(q);
        PlaceholderStarts(q);
      } else {
        FormsBracketing(rest, if q.out.key.Some? && q.out.replacement != "" then i - 1 else i);
        var j :| 0 <= j < |rest| && IsPlaceholder(rest[j]) && f.masked == rest[j].out.replacement;
        assert ps[j + 1] == rest[j];
      }
    }
  }

  lemma {:induction false} PlaceholderHasForm(ps: seq<Piece>, j: nat)
    requires j < |ps| && IsPlaceholder(ps[j])
    ensures exists i :: 0 <= i < |Forms(EntriesOf(ps))| && Forms(EntriesOf(ps))[i].masked == ps[j].out.replacement
    decreases |ps|
  {
    hide IsPlaceholder;
    FormsCons(ps);
    if j == 0 {
      PlaceholderKeyed(ps[0]);
      PlaceholderStarts(ps[0]);
      assert Forms(EntriesOf(ps))[0].masked == ps[0].out.replacement;
    } else {
      PlaceholderHasForm(ps[1..], j - 1);
      var rest := Forms(EntriesOf(ps[1..]));
      var i :| 0 <= i < |rest| && rest[i].masked == ps[1..][j - 1].out.replacement;
      var n := |Forms(EntriesOf(ps))| - |rest|;
      assert Forms(EntriesOf(ps))[i + n] == rest[i];
    }
  }

  /** The first pass gives the line itself if nothing outside the placeholders has a key. */
  lemma {:induction false} HalfIsShown(ps: seq<Piece>, tb: Table)
    requires NoneFiled(ps) && ExactValues(ps, tb)
    ensures Half(ps, tb) == ShownText(ps)
    decreases |ps|
  {
    hide IsPlaceholder, RoundTrip.Value;
    if ps != [] {
      assert !Filed(ps[0]) && RoundTrip.Value(ps[0], tb) == Shown(ps[0]);
      HalfIsShown(ps[1..], tb);
    }
  }

  /** A line that records placeholders only, for values without an opening square bracket:
      where nothing outside the placeholders reads like an issued key, it comes back iff it
      holds none of the placeholders it is given. */
  lemma BackIffNoPlaceholder(k: Classes, text: string, s: Spliced)
    requires NoneFiled(s.pieces) && NoAccidentalKey(k, s) && SameSpelling(EntriesOf(s.pieces))
    requires forall i | 0 <= i < |s.pieces| && IsPlaceholder(s.pieces[i]) :: '[' !in s.pieces[i].original
    ensures var m := MappingOf(text, s);
      Demasked(k, m.masked, m).text == ShownLine(s) <==> NoPlaceholderIn(ShownLine(s), s.pieces)
  {
    hide Pass1, Pass2, TableOf, EntriesOf, Forms, Half, MaskedText, ShownText, NoAccidentalKey, Absent, IsPlaceholder,
      Bracketing, Brackets, SameSpelling, ExactValues;
    var ps, fs := s.pieces, Forms(EntriesOf(s.pieces));
    HalfWay(k, s);
    SpellingsMatchAll(ps);
    HalfIsShown(ps, TableOf(EntriesOf(ps)));
    var st := Edited(ShownLine(s), 0, 0);
    forall i | 0 <= i < |fs| ensures Bracketing(fs[i]) { FormsBracketing(ps, i); }
    PassLowers(st, fs);
    if NoPlaceholderIn(ShownLine(s), ps) {
      forall i | 0 <= i < |fs| ensures Absent(st.text, fs[i].masked) {
        FormsBracketing(ps, i);
      }
      Pass2Nothing(st, fs);
    } else {
      var j :| 0 <= j < |ps| && IsPlaceholder(ps[j]) && !Absent(st.text, ps[j].out.replacement);
      PlaceholderHasForm(ps, j);
    }
  }

  // ----- issued keys in the text -----

  /** A text cut at the matches with known keys: each as it reads and as it is resolved, with
      the gap before it, and what follows the last one. */
  datatype Cut = Cut(chunks: seq<Chunk>, rest: string) {
    function After(c: Chunk): Cut { Cut([c] + chunks, rest) }

    /** As the text reads, and as the first pass leaves it. */
    function Read(): string { Here(chunks) + rest }
    function Left(): string { Here(Swapped(chunks)) + rest }
  }

  /** `acc` has been copied since the last match with a known key. */
  function CutFrom(k: Classes, s: string, i: nat, acc: string, tb: Table): Cut
    requires i <= |s|
    decreases |s| - i
  {
    if i == |s| then Cut([], acc)
    else
      match MatchAt(k, s, i)
      case None => CutFrom(k, s, i + 1, acc + [s[i]], tb)
      case Some(c) =>
        if c.Key(s) in tb then
          CutFrom(k, s, c.end, "", tb).After(Chunk(acc, s[c.start..c.end], tb[c.Key(s)]))
        else CutFrom(k, s, c.end, acc + s[c.start..c.end], tb)
  }

  lemma AfterReads(c: Chunk, d: Cut)
    ensures d.After(c).Read() == c.gap + c.here + d.Read()
    ensures d.After(c).Left() == c.gap + c.there + d.Left()
  {
    SwappedCons([c] + d.chunks);
    assert ([c] + d.chunks)[1..] == d.chunks;
    assert ([c.Swap()] + Swapped(d.chunks))[1..] == Swapped(d.chunks);
  }

  lemma StepText(k: Classes, s: string, i: nat, tb: Table)
    requires i < |s|
    ensures var j := NextPos(k, s, i);
      Pass1(k, s, i, tb).text == StepResult(k, s, i, tb).text + Pass1(k, s, j, tb).text && s[i..] == s[i..j] + s[j..]
  {
    hide StepResult, NextPos;
  }

  lemma CopyTells(acc: string, x: string, y: string)
    ensures acc + x + y == acc + (x + y)
  {}

  lemma {:induction false} CutsTell(k: Classes, s: string, i: nat, acc: string, tb: Table)
    requires i <= |s|
    ensures var d := CutFrom(k, s, i, acc, tb);
      d.Read() == acc + s[i..] && d.Left() == acc + Pass1(k, s, i, tb).text
    decreases |s| - i
  {
    hide MatchAt, Cuts.Key, Cut.Read, Cut.Left;
    if i == |s| {
      NothingCut(acc);
      assert Pass1(k, s, i, tb).text == "" && acc + "" == acc;
    } else {
      var j := NextPos(k, s, i);
      var rest := Pass1(k, s, j, tb).text;
      StepText(k, s, i, tb);
      hide Pass1;
      CopyTells(acc, s[i..j], s[j..]);
      match MatchAt(k, s, i)
      case None =>
        CutsTell(k, s, j, acc + [s[i]], tb);
        assert s[i..j] == [s[i]];
        CopyTells(acc, [s[i]], rest);
      case Some(c) =>
        if c.Key(s) in tb {
          CutsTell(k, s, j, "", tb);
          AfterReads(Chunk(acc, s[i..j], tb[c.Key(s)]), CutFrom(k, s, j, "", tb));
          CopyTells(acc, tb[c.Key(s)], rest);
          assert "" + s[j..] == s[j..] && "" + rest == rest;
        } else {
          CutsTell(k, s, j, acc + s[i..j], tb);
          CopyTells(acc, s[i..j], rest);
        }
    }
  }

  lemma NothingCut(acc: string)
    ensures Cut([], acc).Read() == acc && Cut([], acc).Left() == acc
  {}

  predicate Same(c: Chunk) { c.here == c.there }

  predicate AllSame(cs: seq<Chunk>) { forall i | 0 <= i < |cs| :: Same(cs[i]) }

  /** Each match with an issued key has its own text as that key's value. */
  predicate KeyIsText(s: string, c: Cuts, tb: Table) {
    c.In(s) && c.Key(s) in tb ==> tb[c.Key(s)] == s[c.start..c.end]
  }

  predicate KeysAreText(s: string, hs: seq<Cuts>, tb: Table) { forall i | 0 <= i < |hs| :: KeyIsText(s, hs[i], tb) }

  lemma SameCons(c: Chunk, cs: seq<Chunk>)
    ensures AllSame([c] + cs) <==> Same(c) && AllSame(cs)
  {
    assert forall i | 0 <= i < |cs| :: ([c] + cs)[i + 1] == cs[i];
    assert ([c] + cs)[0] == c;
  }

  lemma TextCons(s: string, c: Cuts, hs: seq<Cuts>, tb: Table)
    ensures KeysAreText(s, [c] + hs, tb) <==> KeyIsText(s, c, tb) && KeysAreText(s, hs, tb)
  {
    hide KeyIsText;
    assert forall i | 0 <= i < |hs| :: ([c] + hs)[i + 1] == hs[i];
    assert ([c] + hs)[0] == c;
  }

  /** The cuts are the matches with known keys. */
  lemma {:induction false} CutsAreHits(k: Classes, s: string, i: nat, acc: string, tb: Table)
    requires i <= |s|
    ensures AllSame(CutFrom(k, s, i, acc, tb).chunks) <==> KeysAreText(s, Hits(k, s, i), tb)
    decreases |s| - i
  {
    hide MatchAt, Cuts.Key, AllSame, KeysAreText;
    if i < |s| {
      match MatchAt(k, s, i)
      case None =>
        CutsAreHits(k, s, i + 1, acc + [s[i]], tb);
      case Some(c) =>
        TextCons(s, c, Hits(k, s, c.end), tb);
        if c.Key(s) in tb {
          CutsAreHits(k, s, c.end, "", tb);
          SameCons(Chunk(acc, s[c.start..c.end], tb[c.Key(s)]), CutFrom(k, s, c.end, "", tb).chunks);
        } else {
          CutsAreHits(k, s, c.end, acc + s[c.start..c.end], tb);
        }
    } else {
      NoneSame(s, tb);
    }
  }

  lemma NoneSame(s: string, tb: Table)
    ensures AllSame([]) && KeysAreText(s, [], tb)
  {}

  // ----- the cuts of a whole line -----

  function Joined(a: Cut, x: string, b: Cut): Cut { Cut(a.chunks + [Chunk(a.rest, x, x)] + b.chunks, b.rest) }

  lemma {:induction false} JoinedReads(a: Cut, x: string, b: Cut)
    ensures Joined(a, x, b).Read() == a.Read() + x + b.Read()
    ensures Joined(a, x, b).Left() == a.Left() + x + b.Left()
    ensures AllSame(Joined(a, x, b).chunks) <==> AllSame(a.chunks) && AllSame(b.chunks)
    decreases |a.chunks|
  {
    hide Cut.Read, Cut.Left, AllSame;
    if a.chunks == [] {
      AfterReads(Chunk(a.rest, x, x), b);
      SameCons(Chunk(a.rest, x, x), b.chunks);
      NothingCut(a.rest);
      assert Joined(a, x, b) == b.After(Chunk(a.rest, x, x));
      assert a == Cut([], a.rest) && AllSame([]) by { NoneSame("", map[]); }
    } else {
      var c, d := a.chunks[0], Cut(a.chunks[1..], a.rest);
      JoinedReads(d, x, b);
      assert a == d.After(c);
      assert Joined(a, x, b) == Joined(d, x, b).After(c);
      AfterReads(c, d);
      AfterReads(c, Joined(d, x, b));
      SameCons(c, d.chunks);
      SameCons(c, Joined(d, x, b).chunks);
      Shuffled(c.gap, c.here, d.Read(), x, b.Read());
      Shuffled(c.gap, c.there, d.Left(), x, b.Left());
    }
  }

  lemma Shuffled(a: string, b: string, c: string, d: string, e: string)
    ensures a + b + (c + d + e) == a + b + c + d + e
  {}

  /** The cuts of a masked line: its placeholders, which are restored to what they stand for,
      and the matches with issued keys in the stretches between them. */
  ghost function LineCut(k: Classes, before: string, ps: seq<Piece>, tail: string, tb: Table): Cut
    decreases |ps|
  {
    if ps == [] then CutFrom(k, before + tail, 0, "", tb)
    else if IsPlaceholder(ps[0]) then
      Joined(CutFrom(k, before + ps[0].gap, 0, "", tb), Shown(ps[0]), LineCut(k, "", ps[1..], tail, tb))
    else LineCut(k, before + ps[0].gap + ps[0].out.replacement, ps[1..], tail, tb)
  }

  /** In every stretch outside the placeholders. */
  ghost predicate OutsideIsText(k: Classes, ss: seq<string>, tb: Table) {
    forall i | 0 <= i < |ss| :: KeysAreText(ss[i], Hits(k, ss[i], 0), tb)
  }

  lemma OutsideCons(k: Classes, s: string, ss: seq<string>, tb: Table)
    ensures OutsideIsText(k, [s] + ss, tb) <==> KeysAreText(s, Hits(k, s, 0), tb) && OutsideIsText(k, ss, tb)
  {
    hide KeysAreText, Hits;
    assert forall i | 0 <= i < |ss| :: ([s] + ss)[i + 1] == ss[i];
    assert ([s] + ss)[0] == s;
  }

  lemma {:induction false} LineCutTells(k: Classes, before: string, ps: seq<Piece>, tail: string, tb: Table)
    requires NoneFiled(ps) && KeysIn(ps, tb) && ExactValues(ps, tb)
    ensures var d := LineCut(k, before, ps, tail, tb);
      && d.Read() == before + ShownText(ps) + tail
      && d.Left() == Pass1(k, before + MaskedText(ps) + tail, 0, tb).text
      && (AllSame(d.chunks) <==> OutsideIsText(k, Stretches(before, ps, tail), tb))
    decreases |ps|
  {
    hide Pass1, MaskedText, ShownText, IsPlaceholder, RoundTrip.Value, Cut.Read, Cut.Left, AllSame, CutFrom, Joined,
      KeysAreText, OutsideIsText, Hits, KeysIn, Shown;
    if ps == [] {
      EndTells(k, before + tail, tb);
      assert before + "" + tail == before + tail && ShownText([]) == "" by { ShownTextNil(); }
      MaskedTextNil();
      OutsideCons(k, before + tail, [], tb);
      assert [before + tail] + [] == [before + tail];
      NothingOutsideText(k, tb);
    } else {
      var p, rest := ps[0], MaskedText(ps[1..]) + tail;
      MaskedCons(ps, before, tail);
      KeysInParts(ps, tb);
      ShownTextCons(ps);
      assert RoundTrip.Value(p, tb) == Shown(p) && !Filed(p);
      if IsPlaceholder(p) {
        var a, b := CutFrom(k, before + p.gap, 0, "", tb), LineCut(k, "", ps[1..], tail, tb);
        LineCutTells(k, "", ps[1..], tail, tb);
        EndTells(k, before + p.gap, tb);
        JoinedReads(a, Shown(p), b);
        FirstPassPlaceholder(k, before, p, rest, tb);
        OutsideCons(k, before + p.gap, Stretches("", ps[1..], tail), tb);
        assert "" + MaskedText(ps[1..]) + tail == rest;
        ReadParts(before, p.gap, Shown(p), ShownText(ps[1..]), tail);
        ReadParts(Pass1(k, before + p.gap, 0, tb).text, Shown(p), Pass1(k, rest, 0, tb).text, "", "");
      } else {
        var b := before + p.gap + p.out.replacement;
        KeylessShown(p);
        LineCutTells(k, b, ps[1..], tail, tb);
        assert b + MaskedText(ps[1..]) + tail == b + rest;
        ReadParts(before, p.gap, Shown(p), ShownText(ps[1..]), tail);
      }
    }
  }

  lemma ShownTextNil()
    ensures ShownText([]) == ""
  {}

  lemma KeylessShown(p: Piece)
    requires !IsPlaceholder(p) && !Filed(p)
    ensures Shown(p) == p.out.replacement
  {}

  lemma NothingOutsideText(k: Classes, tb: Table)
    ensures OutsideIsText(k, [], tb)
  {}

  lemma ReadParts(a: string, gap: string, x: string, more: string, tail: string)
    ensures a + (gap + x + more) + tail == a + gap + x + ("" + more + tail)
    ensures a + (gap + x + more) + tail == a + gap + x + more + tail
    ensures a + (gap + x) == a + gap + x
  {}

  lemma EndTells(k: Classes, s: string, tb: Table)
    ensures var d := CutFrom(k, s, 0, "", tb);
      && d.Read() == s && d.Left() == Pass1(k, s, 0, tb).text
      && (AllSame(d.chunks) <==> KeysAreText(s, Hits(k, s, 0), tb))
  {
    hide Pass1, CutFrom, AllSame, KeysAreText, Hits, Cut.Read, Cut.Left;
    CutsTell(k, s, 0, "", tb);
    CutsAreHits(k, s, 0, "", tb);
    assert s[0..] == s && "" + s == s;
    assert "" + Pass1(k, s, 0, tb).text == Pass1(k, s, 0, tb).text;
  }

  // ----- the condition -----

  function ChunkGaps(cs: seq<Chunk>): (r: seq<string>)
    ensures |r| == |cs|
  { seq(|cs|, i requires 0 <= i < |cs| => cs[i].gap) }

  function Heres(cs: seq<Chunk>): (r: seq<string>)
    ensures |r| == |cs|
  { seq(|cs|, i requires 0 <= i < |cs| => cs[i].here) }

  function Theres(cs: seq<Chunk>): (r: seq<string>)
    ensures |r| == |cs|
  { seq(|cs|, i requires 0 <= i < |cs| => cs[i].there) }

  lemma {:induction false} ChunksInterlaced(cs: seq<Chunk>)
    ensures Here(cs) == Interlaced(ChunkGaps(cs), Heres(cs))
    ensures Here(Swapped(cs)) == Interlaced(ChunkGaps(cs), Theres(cs))
    decreases |cs|
  {
    if cs != [] {
      ChunksInterlaced(cs[1..]);
      assert ChunkGaps(cs)[1..] == ChunkGaps(cs[1..]);
      assert Heres(cs)[1..] == Heres(cs[1..]) && Theres(cs)[1..] == Theres(cs[1..]);
      SwappedCons(cs);
      assert Swapped(cs)[1..] == Swapped(cs[1..]);
    }
  }

  lemma CutsDiffer(d: Cut)
    ensures AllSame(d.chunks) ==> d.Read() == d.Left()
    ensures EndsSeen(ChunkGaps(d.chunks), Theres(d.chunks), Heres(d.chunks), d.rest) && d.Read() == d.Left() ==>
      AllSame(d.chunks)
  {
    var cs := d.chunks;
    hide Here, Swapped, EndsSeen, Interlaced;
    ChunksInterlaced(cs);
    if AllSame(cs) { assert Heres(cs) == Theres(cs); }
    if EndsSeen(ChunkGaps(cs), Theres(cs), Heres(cs), d.rest) && d.Read() == d.Left() {
      InterlacedTells(ChunkGaps(cs), Theres(cs), Heres(cs), d.rest);
      forall i | 0 <= i < |cs| ensures cs[i].here == cs[i].there { assert Heres(cs)[i] == Theres(cs)[i]; }
    }
  }

  /** One can see where each match with an issued key ends, replaced or not. */
  ghost predicate KeysEndSeen(k: Classes, s: Spliced) {
    var d := LineCut(k, "", s.pieces, s.tail, TableOf(EntriesOf(s.pieces)));
    EndsSeen(ChunkGaps(d.chunks), Theres(d.chunks), Heres(d.chunks), d.rest)
  }

  /** A line that records placeholders only, without an opening square bracket: it comes back
      if each match with an issued key that the stretches outside its placeholders hold is
      itself the value of that key, and, wherever one can see the ends of these matches, only
      then. */
  lemma BackIffKeysAreText(k: Classes, text: string, s: Spliced)
    requires NoneFiled(s.pieces) && '[' !in ShownLine(s) && SameSpelling(EntriesOf(s.pieces))
    ensures var m := MappingOf(text, s);
      var back := Demasked(k, m.masked, m).text;
      var harmless := OutsideIsText(k, Stretches("", s.pieces, s.tail), TableOf(m.entries));
      && (harmless ==> back == ShownLine(s))
      && (KeysEndSeen(k, s) ==> (back == ShownLine(s) <==> harmless))
  {
    hide Pass1, Demasked, EntriesOf, TableOf, MaskedText, ShownText, SameSpelling, ExactValues, NoneFiled, LineCut,
      EndsSeen, OutsideIsText, Stretches, Cut.Read, Cut.Left, AllSame, ChunkGaps, Theres, Heres;
    var ps, tb := s.pieces, TableOf(EntriesOf(s.pieces));
    FirstPassOnly(k, text, s);
    SpellingsMatchAll(ps);
    KeysAreIn(ps);
    LineCutTells(k, "", ps, s.tail, tb);
    assert "" + MaskedText(ps) == MaskedText(ps) && "" + ShownText(ps) == ShownText(ps);
    CutsDiffer(LineCut(k, "", ps, s.tail, tb));
  }
}
