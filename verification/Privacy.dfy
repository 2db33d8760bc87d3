/** What a masked line tells about the values it hides: nothing but which of them are
    equal, and the partial masks' own visible characters. */
module Privacy {
  import opened Text
  import opened Entities
  import opened Masking
  import opened Pipeline
  import Lines

  // ----- numbers tell exactly the pattern of equality -----

  /** The numbers that successive requests get. */
  function NumbersGiven(st: Numbers, vs: seq<Masking.Value>): (ns: seq<nat>)
    ensures |ns| == |vs|
    decreases |vs|
  {
    if vs == [] then []
    else var (st', n) := Next(st, vs[0]); [n] + NumbersGiven(st', vs[1..])
  }

  ghost predicate SameTypes(vs: seq<Masking.Value>, ws: seq<Masking.Value>) {
    |vs| == |ws| && forall i | 0 <= i < |vs| :: vs[i].0 == ws[i].0
  }

  /** Values are equal in one list iff they are equal in the other. */
  ghost predicate SamePattern(vs: seq<Masking.Value>, ws: seq<Masking.Value>) {
    |vs| == |ws| && forall i, j | 0 <= i < |vs| && 0 <= j < |vs| :: vs[i] == vs[j] <==> ws[i] == ws[j]
  }

  lemma {:induction false} NumberAllAppend(st: Numbers, vs: seq<Masking.Value>, v: Masking.Value)
    ensures NumberAll(st, vs + [v]) == Next(NumberAll(st, vs), v).0
    ensures NumbersGiven(st, vs + [v]) == NumbersGiven(st, vs) + [Next(NumberAll(st, vs), v).1]
    decreases |vs|
  {
    hide Next;
    if vs == [] {
      assert vs + [v] == [v] && [v][1..] == [];
    } else {
      var st' := Next(st, vs[0]).0;
      assert (vs + [v])[1..] == vs[1..] + [v];
      NumberAllAppend(st', vs[1..], v);
    }
  }

  /** The values numbered so far are the first `n` of the list. */
  ghost predicate Seen(st: Numbers, vs: seq<Masking.Value>, n: nat)
    requires n <= |vs|
  {
    forall v :: v in st.given <==> v in vs[..n]
  }

  ghost predicate SameCounters(a: Numbers, b: Numbers) { forall t :: a.Counter(t) == b.Counter(t) }

  predicate SameNumberIn(a: Numbers, v: Masking.Value, b: Numbers, w: Masking.Value) {
    v in a.given && w in b.given && a.given[v] == b.given[w]
  }

  /** The first `n` values of either list have the same numbers. */
  ghost predicate Matched(a: Numbers, b: Numbers, vs: seq<Masking.Value>, ws: seq<Masking.Value>, n: nat)
    requires n <= |vs| == |ws|
  {
    forall i | 0 <= i < n :: SameNumberIn(a, vs[i], b, ws[i])
  }

  /** Two sessions that have seen the first `n` values of either list. */
  ghost predicate Alike(a: Numbers, b: Numbers, vs: seq<Masking.Value>, ws: seq<Masking.Value>, n: nat)
    requires n <= |vs| == |ws|
  {
    SameCounters(a, b) && Seen(a, vs, n) && Seen(b, ws, n) && Matched(a, b, vs, ws, n)
  }

  lemma SeenNext(st: Numbers, vs: seq<Masking.Value>, n: nat)
    requires n < |vs| && Seen(st, vs, n)
    ensures Seen(Next(st, vs[n]).0, vs, n + 1)
  {
    assert vs[..n + 1] == vs[..n] + [vs[n]];
  }

  lemma CountersNext(a: Numbers, b: Numbers, v: Masking.Value, w: Masking.Value)
    requires SameCounters(a, b) && v.0 == w.0 && (v in a.given <==> w in b.given)
    ensures SameCounters(Next(a, v).0, Next(b, w).0)
    ensures v !in a.given ==> Next(a, v).1 == Next(b, w).1
  {
    assert a.Counter(v.0) == b.Counter(v.0);
    forall t ensures Next(a, v).0.Counter(t) == Next(b, w).0.Counter(t) {
      assert a.Counter(t) == b.Counter(t);
    }
  }

  /** A value of the list is new in one session iff its counterpart is in the other. */
  lemma NewTogether(vs: seq<Masking.Value>, ws: seq<Masking.Value>, n: nat)
    requires n < |vs| && SamePattern(vs, ws) && vs[n] in vs[..n]
    ensures ws[n] in ws[..n] && exists i | 0 <= i < n :: vs[i] == vs[n] && ws[i] == ws[n]
  {
    var i :| 0 <= i < n && vs[..n][i] == vs[n];
    assert vs[i] == vs[n] && ws[..n][i] == ws[i];
  }

  lemma KeptNext(st: Numbers, v: Masking.Value, w: Masking.Value)
    requires w in st.given
    ensures w in Next(st, v).0.given && Next(st, v).0.given[w] == st.given[w]
  {}

  lemma GivenNext(st: Numbers, v: Masking.Value)
    ensures v in Next(st, v).0.given && Next(st, v).0.given[v] == Next(st, v).1
    ensures v in st.given ==> Next(st, v) == (st, st.given[v])
  {}

  /** A value seen before has the number its counterpart has. */
  lemma OldNumber(a: Numbers, b: Numbers, vs: seq<Masking.Value>, ws: seq<Masking.Value>, n: nat)
    requires n < |vs| && SamePattern(vs, ws) && vs[n] in vs[..n] && Matched(a, b, vs, ws, n)
    ensures SameNumberIn(a, vs[n], b, ws[n])
  {
    NewTogether(vs, ws, n);
    var i :| 0 <= i < n && vs[i] == vs[n] && ws[i] == ws[n];
    hide SamePattern, SameNumberIn;
    assert SameNumberIn(a, vs[i], b, ws[i]);
  }

  /** A value is new in one list iff its counterpart is in the other. */
  lemma NewIffNew(vs: seq<Masking.Value>, ws: seq<Masking.Value>, n: nat)
    requires n < |vs| && SamePattern(vs, ws)
    ensures n < |ws| && (vs[n] in vs[..n] <==> ws[n] in ws[..n])
  {
    PatternBack(vs, ws);
    if vs[n] in vs[..n] { NewTogether(vs, ws, n); }
    if ws[n] in ws[..n] { NewTogether(ws, vs, n); }
  }

  lemma SameNumber(a: Numbers, b: Numbers, vs: seq<Masking.Value>, ws: seq<Masking.Value>, n: nat)
    requires n < |vs| && SameTypes(vs, ws) && SamePattern(vs, ws) && Alike(a, b, vs, ws, n)
    ensures Next(a, vs[n]).1 == Next(b, ws[n]).1
    ensures SameCounters(Next(a, vs[n]).0, Next(b, ws[n]).0)
  {
    NewIffNew(vs, ws, n);
    hide Next, SameCounters, SamePattern, Matched;
    CountersNext(a, b, vs[n], ws[n]);
    if vs[n] in vs[..n] {
      OldNumber(a, b, vs, ws, n);
      GivenNext(a, vs[n]);
      GivenNext(b, ws[n]);
    }
  }

  lemma PatternBack(vs: seq<Masking.Value>, ws: seq<Masking.Value>)
    requires SamePattern(vs, ws)
    ensures SamePattern(ws, vs)
  {}

  lemma MatchedNext(a: Numbers, b: Numbers, vs: seq<Masking.Value>, ws: seq<Masking.Value>, n: nat)
    requires n < |vs| == |ws| && Matched(a, b, vs, ws, n) && Next(a, vs[n]).1 == Next(b, ws[n]).1
    ensures Matched(Next(a, vs[n]).0, Next(b, ws[n]).0, vs, ws, n + 1)
  {
    hide Next;
    var a', b' := Next(a, vs[n]).0, Next(b, ws[n]).0;
    forall i | 0 <= i < n + 1 ensures SameNumberIn(a', vs[i], b', ws[i]) {
      if i == n {
        GivenNext(a, vs[n]);
        GivenNext(b, ws[n]);
      } else {
        assert SameNumberIn(a, vs[i], b, ws[i]);
        KeptNext(a, vs[n], vs[i]);
        KeptNext(b, ws[n], ws[i]);
      }
    }
  }

  lemma AlikeNext(a: Numbers, b: Numbers, vs: seq<Masking.Value>, ws: seq<Masking.Value>, n: nat)
    requires n < |vs| && SameTypes(vs, ws) && SamePattern(vs, ws) && Alike(a, b, vs, ws, n)
    ensures Next(a, vs[n]).1 == Next(b, ws[n]).1
    ensures Alike(Next(a, vs[n]).0, Next(b, ws[n]).0, vs, ws, n + 1)
  {
    SameNumber(a, b, vs, ws, n);
    hide Next, Seen, Matched, SameCounters, SamePattern, SameTypes;
    SeenNext(a, vs, n);
    assert |vs| == |ws| by { PatternLength(vs, ws); }
    SeenNext(b, ws, n);
    MatchedNext(a, b, vs, ws, n);
  }

  lemma PatternLength(vs: seq<Masking.Value>, ws: seq<Masking.Value>)
    requires SamePattern(vs, ws)
    ensures |vs| == |ws|
  {}

  lemma {:induction false} PatternToNumbers(vs: seq<Masking.Value>, ws: seq<Masking.Value>, n: nat)
    requires n <= |vs| && SameTypes(vs, ws) && SamePattern(vs, ws)
    ensures Alike(NumberAll(NoNumbers, vs[..n]), NumberAll(NoNumbers, ws[..n]), vs, ws, n)
    ensures NumbersGiven(NoNumbers, vs[..n]) == NumbersGiven(NoNumbers, ws[..n])
  {
    hide Next, Alike;
    if n == 0 {
      NothingSeen(vs, ws);
    } else {
      PatternToNumbers(vs, ws, n - 1);
      assert vs[..n] == vs[..n - 1] + [vs[n - 1]] && ws[..n] == ws[..n - 1] + [ws[n - 1]];
      NumberAllAppend(NoNumbers, vs[..n - 1], vs[n - 1]);
      NumberAllAppend(NoNumbers, ws[..n - 1], ws[n - 1]);
      AlikeNext(NumberAll(NoNumbers, vs[..n - 1]), NumberAll(NoNumbers, ws[..n - 1]), vs, ws, n - 1);
    }
  }

  lemma NothingSeen(vs: seq<Masking.Value>, ws: seq<Masking.Value>)
    requires |vs| == |ws|
    ensures Alike(NumberAll(NoNumbers, vs[..0]), NumberAll(NoNumbers, ws[..0]), vs, ws, 0)
  {}

  /** Each number given is the one its value has at the end. */
  lemma {:induction false} GivenIsFinal(st: Numbers, vs: seq<Masking.Value>, i: nat)
    requires Numbered(st) && i < |vs|
    ensures var fin := NumberAll(st, vs);
      vs[i] in fin.given && NumbersGiven(st, vs)[i] == fin.given[vs[i]]
    decreases |vs|
  {
    hide Next, Numbered;
    var (st', n) := Next(st, vs[0]);
    NextNumbered(st, vs[0]);
    Lines.NextGives(st, vs[0]);
    NumberAllExact(st', vs[1..]);
    if i > 0 { GivenIsFinal(st', vs[1..], i - 1); }
  }

  lemma NumbersToPattern(vs: seq<Masking.Value>, ws: seq<Masking.Value>, i: nat, j: nat)
    requires SameTypes(vs, ws) && i < |vs| && j < |vs| && vs[i] == vs[j]
    requires NumbersGiven(NoNumbers, vs) == NumbersGiven(NoNumbers, ws)
    ensures ws[i] == ws[j]
  {
    hide NumberAll, NumbersGiven;
    EmptyNumbered();
    GivenIsFinal(NoNumbers, vs, i);
    GivenIsFinal(NoNumbers, vs, j);
    GivenIsFinal(NoNumbers, ws, i);
    GivenIsFinal(NoNumbers, ws, j);
    NumberAllExact(NoNumbers, ws);
  }

  /** The numbers of a session tell exactly which values of a type are equal: two lists
      of values of the same types are numbered alike iff they have one pattern. */
  lemma NumbersTellPattern(vs: seq<Masking.Value>, ws: seq<Masking.Value>)
    requires SameTypes(vs, ws)
    ensures NumbersGiven(NoNumbers, vs) == NumbersGiven(NoNumbers, ws) <==> SamePattern(vs, ws)
  {
    hide NumbersGiven, NumberAll, SamePattern;
    assert vs[..|vs|] == vs && ws[..|ws|] == ws;
    if SamePattern(vs, ws) { PatternToNumbers(vs, ws, |vs|); }
    if NumbersGiven(NoNumbers, vs) == NumbersGiven(NoNumbers, ws) { NumbersToPatterns(vs, ws); }
  }

  lemma NumbersToPatterns(vs: seq<Masking.Value>, ws: seq<Masking.Value>)
    requires SameTypes(vs, ws) && NumbersGiven(NoNumbers, vs) == NumbersGiven(NoNumbers, ws)
    ensures SamePattern(vs, ws)
  {
    hide NumbersGiven, SameTypes;
    SameTypesBack(vs, ws);
    forall i, j | 0 <= i < |vs| && 0 <= j < |vs| ensures vs[i] == vs[j] <==> ws[i] == ws[j] {
      if vs[i] == vs[j] { NumbersToPattern(vs, ws, i, j); }
      if ws[i] == ws[j] { NumbersToPattern(ws, vs, i, j); }
    }
  }

  lemma SameTypesBack(vs: seq<Masking.Value>, ws: seq<Masking.Value>)
    requires SameTypes(vs, ws)
    ensures |vs| == |ws| && SameTypes(ws, vs)
  {}

  // ----- masked lines -----

  function Values(ps: seq<Piece>): (vs: seq<Masking.Value>)
    ensures |vs| == |ps|
  {
    seq(|ps|, i requires 0 <= i < |ps| => Lines.ValueOf(ps[i]))
  }

  /** Every value is masked by a placeholder. */
  ghost predicate PlaceholdersOnly(p: Policy) { forall t <- p.types :: p.KindOf(t) == Placeholder }

  /** The text with `ns` as the placeholder numbers. */
  function WithNumbers(u: Setup, ps: seq<Piece>, ns: seq<nat>): string
    requires |ns| == |ps|
  {
    if ps == [] then ""
    else ps[0].gap + PlaceholderText(u.maskers, ps[0].entity.pdType, ns[0]) + WithNumbers(u, ps[1..], ns[1..])
  }

  /** The outputs of the pieces are the maskers' outputs one after another. */
  ghost predicate Chained(u: Setup, p: Policy, ps: seq<Piece>, st: Numbers)
    decreases |ps|
  {
    ps == [] ||
    var q := ps[0];
    var (out, st') := MaskValue(u.maskers, p.KindOf(q.entity.pdType), Lines.ValueOf(q), q.original, st);
    q.out == out && q.entity.pdType in p.types && Chained(u, p, ps[1..], st')
  }

  lemma {:induction false} SpliceChained(u: Setup, p: Policy, text: string, es: seq<Entity>, cursor: nat, st: Numbers)
    requires cursor <= |text| && AllInText(es, text) && Lines.TypesIn(es, p)
    ensures Chained(u, p, SpliceFrom(u, p, text, es, cursor, st).pieces, st)
    decreases |es|
  {
    hide MaskValue;
    if es == [] {
    } else if es[0].span.start < cursor {
      SpliceChained(u, p, text, es[1..], cursor, st);
    } else {
      var e := es[0];
      var original := text[e.span.start..e.span.end];
      var (out, st') := MaskValue(u.maskers, p.KindOf(e.pdType), (e.pdType, e.canonical), original, st);
      SpliceChained(u, p, text, es[1..], e.span.end, st');
      var rest := SpliceFrom(u, p, text, es[1..], e.span.end, st').pieces;
      assert ([Piece(text[cursor..e.span.start], e, original, out)] + rest)[1..] == rest;
    }
  }

  lemma {:induction false} MaskedWithNumbers(u: Setup, p: Policy, ps: seq<Piece>, st: Numbers)
    requires PlaceholdersOnly(p) && Chained(u, p, ps, st)
    ensures MaskedText(ps) == WithNumbers(u, ps, NumbersGiven(st, Values(ps)))
    decreases |ps|
  {
    hide MaskedText, PlaceholderText, PlaceholderKey, Next;
    if ps == [] {
      EmptyResults();
    } else {
      var (st', n) := Next(st, Lines.ValueOf(ps[0]));
      assert Values(ps)[1..] == Values(ps[1..]);
      MaskedWithNumbers(u, p, ps[1..], st');
      MaskedTextCons(ps);
      var ns := NumbersGiven(st, Values(ps));
      assert ns[1..] == NumbersGiven(st', Values(ps[1..]));
    }
  }

  /** The same gaps and types. */
  ghost predicate SameFrame(ps: seq<Piece>, qs: seq<Piece>) {
    |ps| == |qs| && forall i | 0 <= i < |ps| :: ps[i].gap == qs[i].gap && ps[i].entity.pdType == qs[i].entity.pdType
  }

  lemma {:induction false} SameFrameSameText(u: Setup, ps: seq<Piece>, qs: seq<Piece>, ns: seq<nat>)
    requires SameFrame(ps, qs) && |ns| == |ps|
    ensures WithNumbers(u, ps, ns) == WithNumbers(u, qs, ns)
    decreases |ps|
  {
    hide PlaceholderText;
    if ps != [] { SameFrameSameText(u, ps[1..], qs[1..], ns[1..]); }
  }

  /** Under placeholders a masked line tells nothing about the values but their types and
      which are equal: texts that agree in their gaps, in their entities' types and in
      the pattern of equal canonical forms are masked to the same text, however long
      and whatever their values are. */
  lemma MaskedLineTellsOnlyPattern(u: Setup, p: Policy, text1: string, es1: seq<Entity>, text2: string,
      es2: seq<Entity>)
    requires PlaceholdersOnly(p) && AllInText(Selected(p, es1), text1) && AllInText(Selected(p, es2), text2)
    requires var s1, s2 := Lines.MaskedLine(u, p, text1, es1), Lines.MaskedLine(u, p, text2, es2);
      && SameFrame(s1.pieces, s2.pieces) && s1.tail == s2.tail
      && SamePattern(Values(s1.pieces), Values(s2.pieces))
    ensures ResultOf(Lines.MaskedLine(u, p, text1, es1)).text ==
      ResultOf(Lines.MaskedLine(u, p, text2, es2)).text
  {
    hide Prepared, SpliceFrom, Chained, MaskedText, NumbersGiven, WithNumbers, SamePattern, PlaceholdersOnly, AllInText;
    var ps, qs := Lines.MaskedLine(u, p, text1, es1).pieces, Lines.MaskedLine(u, p, text2, es2).pieces;
    Lines.PreparedTypes(u, p, text1, es1);
    Lines.PreparedTypes(u, p, text2, es2);
    SpliceChained(u, p, text1, Prepared(u, p, text1, es1), 0, NoNumbers);
    SpliceChained(u, p, text2, Prepared(u, p, text2, es2), 0, NoNumbers);
    MaskedWithNumbers(u, p, ps, NoNumbers);
    MaskedWithNumbers(u, p, qs, NoNumbers);
    assert SameTypes(Values(ps), Values(qs));
    NumbersTellPattern(Values(ps), Values(qs));
    SameFrameSameText(u, ps, qs, NumbersGiven(NoNumbers, Values(ps)));
  }

  // ----- partial and redacting masks -----

  predicate DigitOrStar(c: char) { AsciiDigit(c) || c == '*' }

  /** A partial mask tells the length of its original, the last characters, and everything
      that is neither a digit nor a star, and nothing else: originals that agree there
      have one mask, and only those. */
  lemma PartialMaskTells(s: string, t: string, keep: nat)
    ensures PartialText(s, keep) == PartialText(t, keep) <==>
      && |s| == |t|
      && forall i | 0 <= i < |s| :: s[i] == t[i] || (i < |s| - keep && DigitOrStar(s[i]) && DigitOrStar(t[i]))
  {
    var x, y := PartialText(s, keep), PartialText(t, keep);
    if x == y {
      assert |s| == |x| == |y| == |t|;
      forall i | 0 <= i < |s|
        ensures s[i] == t[i] || (i < |s| - keep && DigitOrStar(s[i]) && DigitOrStar(t[i]))
      {
        assert x[i] == y[i];
      }
    }
  }
}
