/** Session numbering (`MaskState`) and the six maskers. */
module Masking {
  import opened Text
  import opened Scanner

  import Entities
  type PdType = Entities.PdType

  /** A masked value as numbering sees it: its type and canonical form. */
  type Value = (PdType, string)

  datatype MaskKind = Placeholder | Redact | Partial | Token | Synthetic | Hash

  // ----- numbering -----

  datatype Numbers = Numbers(counters: map<PdType, nat>, given: map<Value, nat>) {
    function Counter(t: PdType): nat { if t in counters then counters[t] else 0 }
  }

  const NoNumbers := Numbers(map[], map[])

  /** The state after asking for the number of `v`, and that number. */
  function Next(st: Numbers, v: Value): (Numbers, nat) {
    if v in st.given then (st, st.given[v])
    else
      var n := st.Counter(v.0) + 1;
      (Numbers(st.counters[v.0 := n], st.given[v := n]), n)
  }

  class MaskState {
    var counters: map<PdType, nat>
    var given: map<Value, nat>

    function View(): Numbers
      reads this
    { Numbers(counters, given) }

    constructor ()
      ensures View() == NoNumbers
    {
      counters, given := map[], map[];
    }

    method NextNumber(pdType: PdType, canonical: string) returns (n: nat)
      modifies this
      ensures (View(), n) == Next(old(View()), (pdType, canonical))
    {
      var key := (pdType, canonical);
      if key in given { return given[key]; }
      n := (if pdType in counters then counters[pdType] else 0) + 1;
      counters := counters[pdType := n];
      given := given[key := n];
    }
  }

  /** The state after a sequence of requests. */
  function NumberAll(st: Numbers, calls: seq<Value>): Numbers
    decreases |calls|
  {
    if calls == [] then st else NumberAll(Next(st, calls[0]).0, calls[1..])
  }

  /** Canonical forms of type `t` that have a number. */
  ghost function Canonicals(st: Numbers, t: PdType): set<Value> {
    set v | v in st.given && v.0 == t
  }

  ghost predicate HasNumber(st: Numbers, t: PdType, n: nat) {
    exists v :: v in st.given && v.0 == t && st.given[v] == n
  }

  ghost predicate InRange(st: Numbers) { forall v <- st.given :: 1 <= st.given[v] <= st.Counter(v.0) }

  ghost predicate Injective(st: Numbers) {
    forall v <- st.given, w <- st.given :: v.0 == w.0 && st.given[v] == st.given[w] ==> v == w
  }

  ghost predicate Onto(st: Numbers) { forall t, n: nat :: 1 <= n <= st.Counter(t) ==> HasNumber(st, t, n) }

  ghost predicate Counted(st: Numbers) { forall t :: |Canonicals(st, t)| == st.Counter(t) }

  /** Per type, the numbers are a bijection between the canonical forms and 1..count. */
  ghost predicate Numbered(st: Numbers) { InRange(st) && Injective(st) && Onto(st) && Counted(st) }

  lemma NextOnto(st: Numbers, v: Value)
    requires Onto(st) && v !in st.given
    ensures Onto(Next(st, v).0)
  {
    var st' := Next(st, v).0;
    forall t, n: nat | 1 <= n <= st'.Counter(t) ensures HasNumber(st', t, n) {
      if t == v.0 && n == st'.Counter(t) {
        assert st'.given[v] == n;
      } else {
        assert HasNumber(st, t, n);
        var w :| w in st.given && w.0 == t && st.given[w] == n;
        assert st'.given[w] == n;
      }
    }
  }

  lemma CanonicalsNext(st: Numbers, v: Value, t: PdType)
    requires v !in st.given
    ensures Canonicals(Next(st, v).0, t) == if t == v.0 then Canonicals(st, t) + {v} else Canonicals(st, t)
  {}

  lemma NextCounted(st: Numbers, v: Value)
    requires Counted(st) && v !in st.given
    ensures Counted(Next(st, v).0)
  {
    var st' := Next(st, v).0;
    forall t ensures |Canonicals(st', t)| == st'.Counter(t) {
      CanonicalsNext(st, v, t);
      assert |Canonicals(st, t)| == st.Counter(t);
      assert v !in Canonicals(st, t);
      hide Canonicals;
    }
  }

  lemma NextNumbered(st: Numbers, v: Value)
    requires Numbered(st)
    ensures Numbered(Next(st, v).0)
  {
    hide Onto, Counted;
    if v !in st.given {
      NextOnto(st, v);
      NextCounted(st, v);
    }
  }

  lemma EmptyNumbered()
    ensures Numbered(NoNumbers)
  {
    assert forall t :: Canonicals(NoNumbers, t) == {};
  }

  /** A number, once assigned, never changes; exactly the requested values get one. */
  lemma {:induction false} NumberAllExact(st: Numbers, calls: seq<Value>)
    requires Numbered(st)
    ensures var st' := NumberAll(st, calls);
      && Numbered(st')
      && (forall v <- st.given :: v in st'.given && st'.given[v] == st.given[v])
      && (forall v :: v in st'.given <==> v in st.given || v in calls)
    decreases |calls|
  {
    hide Numbered;
    if calls != [] {
      NextNumbered(st, calls[0]);
      NumberAllExact(Next(st, calls[0]).0, calls[1..]);
    }
  }

  /** After any requests on a fresh session the numbers of a type are exactly 1..n,
      for n the count of distinct canonical forms requested, one number each. */
  lemma NumberingOfSession(calls: seq<Value>, t: PdType)
    ensures var st := NumberAll(NoNumbers, calls);
      var distinct := set v | v in calls && v.0 == t;
      && (forall v <- distinct :: v in st.given && 1 <= st.given[v] <= |distinct|)
      && (forall v <- distinct, w <- distinct :: st.given[v] == st.given[w] ==> v == w)
      && (forall n: nat :: 1 <= n <= |distinct| ==> HasNumber(st, t, n))
      && (forall v :: v in st.given ==> v in calls)
  {
    EmptyNumbered();
    NumberAllExact(NoNumbers, calls);
    var st := NumberAll(NoNumbers, calls);
    assert Canonicals(st, t) == set v | v in calls && v.0 == t;
  }

  // ----- maskers -----

  /** The configured maskers; digests and synthetic values are arbitrary functions. */
  datatype Maskers = Maskers(
    format: string,
    labels: map<PdType, string>,
    keepLast: nat,
    token: string -> string,
    hash: string -> string,
    synthetic: (PdType, string) -> string)
  {
    function LabelOf(t: PdType): string { if t in labels then labels[t] else t }
  }

  datatype Output = Output(replacement: string, key: Option<string>)

  function PlaceholderKey(m: Maskers, t: PdType, n: nat): string { m.LabelOf(t) + "_" + Decimal(n) }

  function PlaceholderText(m: Maskers, t: PdType, n: nat): string {
    ReplaceAll(ReplaceAll(m.format, "{label}", m.LabelOf(t)), "{n}", Decimal(n))
  }

  /** ASCII digits starred, except among the last `keep` characters. */
  function PartialText(s: string, keep: nat): (r: string)
    ensures |r| == |s|
  {
    seq(|s|, i requires 0 <= i < |s| => if i < |s| - keep && AsciiDigit(s[i]) then '*' else s[i])
  }

  function MaskValue(m: Maskers, kind: MaskKind, v: Value, original: string, st: Numbers): (Output, Numbers) {
    match kind
    case Placeholder =>
      var (st', n) := Next(st, v);
      (Output(PlaceholderText(m, v.0, n), Some(PlaceholderKey(m, v.0, n))), st')
    case Redact => (Output(seq(|original|, _ => '*'), None), st)
    case Partial =>
      var (st', n) := Next(st, v);
      (Output(PartialText(original, m.keepLast), Some(v.0 + "_p" + Decimal(n))), st')
    case Token =>
      var token := "tok_" + v.0 + "_" + m.token(v.0 + "|" + v.1);
      (Output(token, Some(token)), st)
    case Synthetic =>
      var (st', n) := Next(st, v);
      (Output(m.synthetic(v.0, v.1), Some(v.0 + "_s" + Decimal(n))), st')
    case Hash => (Output("sha256:" + m.hash(v.1), None), st)
  }

  /** The loop of the partial masker. */
  method MaskPartially(original: string, keepLast: nat) returns (out: string)
    ensures out == PartialText(original, keepLast)
  {
    var keep := if keepLast < |original| then keepLast else |original|;
    out := "";
    for i := 0 to |original|
      invariant out == PartialText(original, keepLast)[..i]
    {
      if i >= |original| - keep {
        out := out + [original[i]];
      } else if AsciiDigit(original[i]) {
        out := out + ['*'];
      } else {
        out := out + [original[i]];
      }
    }
  }

  method ApplyMasker(m: Maskers, kind: MaskKind, pdType: PdType, canonical: string, original: string, state: MaskState)
    returns (out: Output)
    modifies state
    ensures (out, state.View()) == MaskValue(m, kind, (pdType, canonical), original, old(state.View()))
  {
    match kind {
      case Placeholder =>
        var n := state.NextNumber(pdType, canonical);
        out := Output(PlaceholderText(m, pdType, n), Some(PlaceholderKey(m, pdType, n)));
      case Redact =>
        out := Output(seq(|original|, _ => '*'), None);
      case Partial =>
        var text := MaskPartially(original, m.keepLast);
        var n := state.NextNumber(pdType, canonical);
        out := Output(text, Some(pdType + "_p" + Decimal(n)));
      case Token =>
        var token := "tok_" + pdType + "_" + m.token(pdType + "|" + canonical);
        out := Output(token, Some(token));
      case Synthetic =>
        var text := m.synthetic(pdType, canonical);
        var n := state.NextNumber(pdType, canonical);
        out := Output(text, Some(pdType + "_s" + Decimal(n)));
      case Hash =>
        out := Output("sha256:" + m.hash(canonical), None);
    }
  }

  const DEFAULT_FORMAT := "[{label}_{n}]"

  /** With the default format a placeholder is the bracketed label and number. */
  lemma DefaultPlaceholder(m: Maskers, t: PdType, n: nat)
    requires m.format == DEFAULT_FORMAT && '{' !in m.LabelOf(t)
    ensures PlaceholderText(m, t, n) == Bracketed(m.LabelOf(t), Decimal(n))
  {
    hide Decimal, ReplaceAll;
    var tag, num := m.LabelOf(t), Decimal(n);
    assert DEFAULT_FORMAT == "[" + ("{label}" + "_{n}]");
    ReplaceSkips("[", "{label}" + "_{n}]", "{label}", tag);
    ReplaceHit("_{n}]", "{label}", tag);
    NoLabelLeft(tag);
    var once := "[" + (tag + "_{n}]");
    assert once == ("[" + tag + "_") + ("{n}" + "]");
    ReplaceSkips("[" + tag + "_", "{n}" + "]", "{n}", num);
    ReplaceHit("]", "{n}", num);
    ShortUnchanged("]", "{n}", num);
    assert Bracketed(tag, num) == ("[" + tag + "_") + (num + "]");
  }

  lemma ShortUnchanged(s: string, pat: string, with: string)
    requires |s| < |pat|
    ensures ReplaceAll(s, pat, with) == s
  {}

  lemma NoLabelLeft(tag: string)
    ensures ReplaceAll("_{n}]", "{label}", tag) == "_{n}]"
  {
    ShortUnchanged("_{n}]", "{label}", tag);
  }

  /** Placeholder keys determine the type and the canonical form. */
  lemma KeysInjective(m: Maskers, st: Numbers, v: Value, w: Value)
    requires Numbered(st) && v in st.given && w in st.given
    requires m.LabelOf(v.0) == m.LabelOf(w.0) ==> v.0 == w.0
    requires PlaceholderKey(m, v.0, st.given[v]) == PlaceholderKey(m, w.0, st.given[w])
    ensures v == w
  {
    KeySplits(m.LabelOf(v.0), st.given[v], m.LabelOf(w.0), st.given[w]);
  }
}
