/** `demask`: the tolerant placeholder pass, then first-occurrence substitution of
    the stored masked forms, in record order, on the text already edited. */
module Demask {
  import opened Text
  import opened Scanner
  import opened Entities

  datatype Entry = Entry(key: string, pdType: PdType, original: string, masked: Option<string>)

  datatype Mapping = Mapping(entries: seq<Entry>, original: string, masked: string)

  type Table = map<string, string>

  datatype DemaskResult = DemaskResult(text: string, restored: nat, unresolved: nat) {
    function Then(r: DemaskResult): DemaskResult {
      DemaskResult(text + r.text, restored + r.restored, unresolved + r.unresolved)
    }
  }

  /** Keys to originals; of equal keys the last one stays. */
  function TableOf(es: seq<Entry>): Table
    decreases |es|
  {
    if es == [] then map[]
    else var e := es[|es| - 1]; TableOf(es[..|es| - 1])[e.key := e.original]
  }

  // ----- first pass -----

  /** What a match contributes: the original of a known key, else its own text. */
  function Resolve(s: string, c: Cuts, tb: Table): DemaskResult
    requires c.In(s)
  {
    var key := c.Key(s);
    if key in tb then DemaskResult(tb[key], 1, 0) else DemaskResult(s[c.start..c.end], 0, 1)
  }

  function StepResult(k: Classes, s: string, i: nat, tb: Table): DemaskResult
    requires i < |s|
  {
    match MatchAt(k, s, i)
    case None => DemaskResult([s[i]], 0, 0)
    case Some(c) => Resolve(s, c, tb)
  }

  /** The first pass from position `i` on. */
  function Pass1(k: Classes, s: string, i: nat, tb: Table): DemaskResult
    requires i <= |s|
    decreases |s| - i
  {
    if i == |s| then DemaskResult("", 0, 0)
    else StepResult(k, s, i, tb).Then(Pass1(k, s, NextPos(k, s, i), tb))
  }

  /** Matches whose key is known. */
  function Known(s: string, hs: seq<Cuts>, tb: Table): nat {
    if hs == [] then 0
    else (if hs[0].In(s) && hs[0].Key(s) in tb then 1 else 0) + Known(s, hs[1..], tb)
  }

  // ----- second pass -----

  /** A stored masked form and what it stands for. */
  datatype Form = Form(masked: string, original: string)

  function FormOf(e: Entry): seq<Form> {
    if e.masked.Some? then [Form(e.masked.value, e.original)] else []
  }

  function Forms(es: seq<Entry>): seq<Form> {
    if es == [] then [] else FormOf(es[0]) + Forms(es[1..])
  }

  /** The edited text, the position where the next search starts, and how many were found. */
  datatype Edited = Edited(text: string, from: nat, found: nat)

  function Pass2Step(st: Edited, f: Form): (r: Edited)
    requires st.from <= |st.text|
    ensures r.from <= |r.text|
  {
    if f.masked == "" then st
    else
      match Find(st.text, f.masked, st.from)
      case None => st
      case Some(at) =>
        Edited(st.text[..at] + f.original + st.text[at + |f.masked|..], at + |f.original|, st.found + 1)
  }

  function Pass2(st: Edited, fs: seq<Form>): (r: Edited)
    requires st.from <= |st.text|
    ensures r.from <= |r.text|
    decreases |fs|
  {
    if fs == [] then st else Pass2(Pass2Step(st, fs[0]), fs[1..])
  }

  function Demasked(k: Classes, text: string, m: Mapping): DemaskResult {
    var first := Pass1(k, text, 0, TableOf(m.entries));
    var second := Pass2(Edited(first.text, 0, 0), Forms(m.entries));
    DemaskResult(second.text, first.restored + second.found, first.unresolved)
  }

  // ----- the loops of `demask` -----

  lemma ThenAssoc(a: DemaskResult, b: DemaskResult, c: DemaskResult)
    ensures a.Then(b).Then(c) == a.Then(b.Then(c))
  {}

  /** The first pass copies the text up to the next match and resumes after it. */
  lemma {:induction false} Pass1NextHit(k: Classes, s: string, i: nat, tb: Table)
    requires i <= |s|
    ensures var hs := Hits(k, s, i);
      && (hs == [] ==> Pass1(k, s, i, tb) == DemaskResult(s[i..], 0, 0))
      && (hs != [] ==>
            var c := hs[0];
            && c.In(s) && i <= c.start && Hits(k, s, c.end) == hs[1..]
            && Pass1(k, s, i, tb) ==
                 DemaskResult(s[i..c.start], 0, 0).Then(Resolve(s, c, tb)).Then(Pass1(k, s, c.end, tb)))
    decreases |s| - i
  {
    hide MatchAt, Resolve;
    if i < |s| {
      match MatchAt(k, s, i) {
        case Some(c) =>
          assert s[i..c.start] == "";
          ThenLeft(Resolve(s, c, tb));
        case None =>
          Pass1NextHit(k, s, i + 1, tb);
          var hs := Hits(k, s, i);
          if hs == [] {
            assert s[i..] == [s[i]] + s[i + 1..];
          } else {
            var c := hs[0];
            assert s[i..c.start] == [s[i]] + s[i + 1..c.start];
            ThenGap(s[i], s[i + 1..c.start], Resolve(s, c, tb), Pass1(k, s, c.end, tb));
          }
      }
    }
  }

  lemma ThenLeft(r: DemaskResult)
    ensures DemaskResult("", 0, 0).Then(r) == r
  {}

  lemma ThenGap(c: char, gap: string, b: DemaskResult, r: DemaskResult)
    ensures DemaskResult([c], 0, 0).Then(DemaskResult(gap, 0, 0).Then(b).Then(r)) ==
      DemaskResult([c] + gap, 0, 0).Then(b).Then(r)
  {
    assert [c] + (gap + b.text + r.text) == [c] + gap + b.text + r.text;
  }

  method DemaskText(k: Classes, text: string, m: Mapping) returns (r: DemaskResult)
    ensures r == Demasked(k, text, m)
  {
    hide Hits, Pass1, Pass2, Find, TableOf, Forms, Resolve;
    var byKey: Table := map[];
    var byMasked: seq<Form> := [];
    TablesStart(m.entries);
    for i := 0 to |m.entries|
      invariant byKey == TableOf(m.entries[..i]) && byMasked == Forms(m.entries[..i])
    {
      var e := m.entries[i];
      TablesStep(m.entries, i);
      byKey := byKey[e.key := e.original];
      if e.masked.Some? {
        byMasked := byMasked + [Form(e.masked.value, e.original)];
      }
    }
    assert m.entries[..|m.entries|] == m.entries;

    var restored, unresolved := 0, 0;
    var out, last: nat := "", 0;
    var hits := Hits(k, text, 0);
    ghost var whole := Pass1(k, text, 0, byKey);
    for i := 0 to |hits|
      invariant last <= |text| && Hits(k, text, last) == hits[i..]
      invariant whole == DemaskResult(out, restored, unresolved).Then(Pass1(k, text, last, byKey))
    {
      var c := hits[i];
      Pass1NextHit(k, text, last, byKey);
      assert hits[i..][0] == c && hits[i..][1..] == hits[i + 1..];
      ResolveStep(DemaskResult(out, restored, unresolved), text, last, c, byKey, Pass1(k, text, c.end, byKey));
      if c.Key(text) in byKey {
        out := out + text[last..c.start] + byKey[c.Key(text)];
        restored := restored + 1;
      } else {
        out := out + text[last..c.end];
        unresolved := unresolved + 1;
      }
      last := c.end;
    }
    Pass1NextHit(k, text, last, byKey);
    assert hits[|hits|..] == [];
    out := out + text[last..];
    assert out == whole.text && restored == whole.restored && unresolved == whole.unresolved;

    var searchFrom: nat := 0;
    ghost var found: nat := 0;
    assert byMasked[0..] == byMasked;
    ghost var goal := Pass2(Edited(out, 0, 0), byMasked);
    for i := 0 to |byMasked|
      invariant searchFrom <= |out|
      invariant goal == Pass2(Edited(out, searchFrom, found), byMasked[i..])
      invariant restored == whole.restored + found
    {
      var f := byMasked[i];
      Pass2Unfold(Edited(out, searchFrom, found), byMasked, i);
      if f.masked == "" { continue; }
      var pos := Find(out, f.masked, searchFrom);
      if pos.Some? {
        var abs := pos.value;
        out := out[..abs] + f.original + out[abs + |f.masked|..];
        restored := restored + 1;
        found := found + 1;
        searchFrom := abs + |f.original|;
      }
    }
    assert byMasked[|byMasked|..] == [];
    Pass2Ends(Edited(out, searchFrom, found));
    r := DemaskResult(out, restored, unresolved);
  }

  lemma TablesStart(es: seq<Entry>)
    ensures TableOf(es[..0]) == map[] && Forms(es[..0]) == []
  {}

  lemma {:induction false} FormsAppend(es: seq<Entry>, e: Entry)
    ensures Forms(es + [e]) == Forms(es) + FormOf(e)
  {
    if es == [] {
      assert es + [e] == [e];
    } else {
      assert (es + [e])[1..] == es[1..] + [e];
      FormsAppend(es[1..], e);
    }
  }

  lemma TablesStep(es: seq<Entry>, i: nat)
    requires i < |es|
    ensures TableOf(es[..i + 1]) == TableOf(es[..i])[es[i].key := es[i].original]
    ensures Forms(es[..i + 1]) == Forms(es[..i]) + FormOf(es[i])
  {
    assert es[..i + 1][..i] == es[..i] && es[..i + 1] == es[..i] + [es[i]];
    FormsAppend(es[..i], es[i]);
  }

  lemma ResolveStep(acc: DemaskResult, s: string, last: nat, c: Cuts, tb: Table, rest: DemaskResult)
    requires c.In(s) && last <= c.start
    ensures acc.Then(DemaskResult(s[last..c.start], 0, 0).Then(Resolve(s, c, tb)).Then(rest)) ==
      (if c.Key(s) in tb
       then DemaskResult(acc.text + s[last..c.start] + tb[c.Key(s)], acc.restored + 1, acc.unresolved)
       else DemaskResult(acc.text + s[last..c.end], acc.restored, acc.unresolved + 1)).Then(rest)
  {
    hide Cuts.Key;
    assert s[last..c.end] == s[last..c.start] + s[c.start..c.end];
    var mid := Resolve(s, c, tb);
    ThenAssoc(acc, DemaskResult(s[last..c.start], 0, 0).Then(mid), rest);
    ThenAssoc(acc, DemaskResult(s[last..c.start], 0, 0), mid);
    assert acc.text + (s[last..c.start] + mid.text) == acc.text + s[last..c.start] + mid.text;
  }

  lemma Pass2Unfold(st: Edited, fs: seq<Form>, i: nat)
    requires i < |fs| && st.from <= |st.text|
    ensures Pass2(st, fs[i..]) == Pass2(Pass2Step(st, fs[i]), fs[i + 1..])
  {
    assert fs[i..][0] == fs[i] && fs[i..][1..] == fs[i + 1..];
  }

  lemma Pass2Ends(st: Edited)
    requires st.from <= |st.text|
    ensures Pass2(st, []) == st
  {}
}
