/** Extraction and replacement of strings along a JSON path. The replacing closure may
    carry state; replacement visits strings in the order of extraction. */
module JsonPaths {
  datatype Json =
    | Null
    | Bool(b: bool)
    | Number(n: real)
    | Str(s: string)
    | Arr(items: seq<Json>)
    | Obj(fields: map<string, Json>)

  datatype Segment = Key(key: string) | Index(n: nat) | All

  type Path = seq<Segment>

  /** A replacing closure: the next state and the new string. */
  type Rewriter<!S> = (S, string) -> (S, string)

  /** Does the segment select array element `i`? */
  predicate Selects(seg: Segment, i: nat) { seg.All? || (seg.Index? && seg.n == i) }

  function Extract(v: Json, p: Path): seq<string>
    decreases |p|, 0
  {
    if p == [] then (if v.Str? then [v.s] else [])
    else if v.Obj? && p[0].Key? && p[0].key in v.fields then Extract(v.fields[p[0].key], p[1..])
    else if v.Arr? then ExtractItems(v.items, 0, p)
    else []
  }

  /** From the elements `items`, of which the first has index `at`. */
  function ExtractItems(items: seq<Json>, at: nat, p: Path): seq<string>
    requires p != []
    decreases |p| - 1, |items| + 1
  {
    if items == [] then []
    else (if Selects(p[0], at) then Extract(items[0], p[1..]) else []) + ExtractItems(items[1..], at + 1, p)
  }

  function Replace<S>(v: Json, p: Path, f: Rewriter<S>, st: S): (Json, S)
    decreases |p|, 0
  {
    if p == [] then
      if v.Str? then var (st', s) := f(st, v.s); (Str(s), st') else (v, st)
    else if v.Obj? && p[0].Key? && p[0].key in v.fields then
      var (x, st') := Replace(v.fields[p[0].key], p[1..], f, st);
      (Obj(v.fields[p[0].key := x]), st')
    else if v.Arr? then
      var (items, st') := ReplaceItems(v.items, 0, p, f, st);
      (Arr(items), st')
    else (v, st)
  }

  function ReplaceItems<S>(items: seq<Json>, at: nat, p: Path, f: Rewriter<S>, st: S): (r: (seq<Json>, S))
    requires p != []
    ensures |r.0| == |items|
    decreases |p| - 1, |items| + 1
  {
    if items == [] then ([], st)
    else
      var (x, st1) := if Selects(p[0], at) then Replace(items[0], p[1..], f, st) else (items[0], st);
      var (xs, st2) := ReplaceItems(items[1..], at + 1, p, f, st1);
      ([x] + xs, st2)
  }

  // ----- the recursions of the source -----

  lemma {:induction false} SelectNone<S>(items: seq<Json>, at: nat, p: Path, f: Rewriter<S>, st: S)
    requires p != [] && forall i | at <= i < at + |items| :: !Selects(p[0], i)
    ensures ExtractItems(items, at, p) == [] && ReplaceItems(items, at, p, f, st) == (items, st)
    decreases |items|
  {
    if items != [] {
      SelectNone(items[1..], at + 1, p, f, st);
      assert items == [items[0]] + items[1..];
    }
  }

  lemma {:induction false} SelectOne<S>(items: seq<Json>, at: nat, p: Path, f: Rewriter<S>, st: S)
    requires p != [] && p[0].Index? && at <= p[0].n < at + |items|
    ensures var k := p[0].n - at;
      && ExtractItems(items, at, p) == Extract(items[k], p[1..])
      && var (x, st') := Replace(items[k], p[1..], f, st);
      ReplaceItems(items, at, p, f, st) == (items[k := x], st')
    decreases |items|
  {
    hide Replace, Extract;
    if p[0].n == at {
      var (x, st') := Replace(items[0], p[1..], f, st);
      SelectNone(items[1..], at + 1, p, f, st');
      assert [x] + items[1..] == items[0 := x];
    } else {
      SelectOne(items[1..], at + 1, p, f, st);
      var k := p[0].n - at;
      var x := Replace(items[k], p[1..], f, st).0;
      assert [items[0]] + items[1..][k - 1 := x] == items[k := x];
    }
  }

  lemma {:induction false} ItemsSplit<S>(xs: seq<Json>, x: Json, at: nat, p: Path, f: Rewriter<S>, st: S)
    requires p != [] && p[0].All?
    ensures ExtractItems(xs + [x], at, p) == ExtractItems(xs, at, p) + Extract(x, p[1..])
    ensures var (ys, st1) := ReplaceItems(xs, at, p, f, st);
      var (y, st2) := Replace(x, p[1..], f, st1);
      ReplaceItems(xs + [x], at, p, f, st) == (ys + [y], st2)
    decreases |xs|
  {
    hide Replace, Extract;
    if xs == [] {
      assert xs + [x] == [x] && [x][1..] == [];
      var y := Replace(x, p[1..], f, st).0;
      assert [y] + [] == [] + [y];
    } else {
      assert (xs + [x])[1..] == xs[1..] + [x];
      var (y0, st0) := Replace(xs[0], p[1..], f, st);
      ItemsSplit(xs[1..], x, at + 1, p, f, st0);
      var (ys, st1) := ReplaceItems(xs[1..], at + 1, p, f, st0);
      var y := Replace(x, p[1..], f, st1).0;
      assert [y0] + (ys + [y]) == ([y0] + ys) + [y];
    }
  }

  method ExtractRec(value: Json, path: Path, idx: nat, out: seq<string>) returns (r: seq<string>)
    requires idx <= |path|
    ensures r == out + Extract(value, path[idx..])
    decreases |path| - idx
  {
    hide ExtractItems;
    r := out;
    if idx == |path| {
      if value.Str? { r := r + [value.s]; }
      return;
    }
    ghost var p := path[idx..];
    assert p[0] == path[idx] && p[1..] == path[idx + 1..];
    match path[idx] {
      case Key(k) =>
        if value.Obj? && k in value.fields {
          r := ExtractRec(value.fields[k], path, idx + 1, r);
        } else if value.Arr? {
          SelectNone(value.items, 0, p, Identity, ());
        }
      case Index(n) =>
        if value.Arr? {
          if n < |value.items| {
            SelectOne(value.items, 0, p, Identity, ());
            r := ExtractRec(value.items[n], path, idx + 1, r);
          } else {
            SelectNone(value.items, 0, p, Identity, ());
          }
        }
      case All =>
        if value.Arr? {
          NoItems(p);
          for i := 0 to |value.items|
            invariant r == out + ExtractItems(value.items[..i], 0, p)
          {
            ItemsSplit(value.items[..i], value.items[i], 0, p, Identity, ());
            assert value.items[..i + 1] == value.items[..i] + [value.items[i]];
            r := ExtractRec(value.items[i], path, idx + 1, r);
          }
          assert value.items[..|value.items|] == value.items;
        }
    }
  }

  const Identity: Rewriter<()> := (u: (), s: string) => (u, s)

  lemma NoItems(p: Path)
    requires p != []
    ensures ExtractItems([], 0, p) == []
  {}

  method ReplaceRec<S>(value: Json, path: Path, idx: nat, f: Rewriter<S>, state: S) returns (v: Json, st: S)
    requires idx <= |path|
    ensures (v, st) == Replace(value, path[idx..], f, state)
    decreases |path| - idx
  {
    hide ReplaceItems;
    v, st := value, state;
    if idx == |path| {
      if value.Str? {
        var (st', s) := f(state, value.s);
        v, st := Str(s), st';
      }
      return;
    }
    ghost var p := path[idx..];
    assert p[0] == path[idx] && p[1..] == path[idx + 1..];
    match path[idx] {
      case Key(k) =>
        if value.Obj? && k in value.fields {
          var x;
          x, st := ReplaceRec(value.fields[k], path, idx + 1, f, state);
          v := Obj(value.fields[k := x]);
        } else if value.Arr? {
          SelectNone(value.items, 0, p, f, state);
        }
      case Index(n) =>
        if value.Arr? {
          if n < |value.items| {
            SelectOne(value.items, 0, p, f, state);
            var x;
            x, st := ReplaceRec(value.items[n], path, idx + 1, f, state);
            v := Arr(value.items[n := x]);
          } else {
            SelectNone(value.items, 0, p, f, state);
          }
        }
      case All =>
        if value.Arr? {
          var items := value.items;
          SelectNone([], 0, p, f, state);
          for i := 0 to |items|
            invariant |items| == |value.items| && items[i..] == value.items[i..]
            invariant ReplaceItems(value.items[..i], 0, p, f, state) == (items[..i], st)
          {
            ItemsSplit(value.items[..i], value.items[i], 0, p, f, state);
            assert value.items[..i + 1] == value.items[..i] + [value.items[i]];
            assert items[i] == items[i..][0] == value.items[i];
            var x;
            x, st := ReplaceRec(items[i], path, idx + 1, f, st);
            items := items[i := x];
            assert items[..i + 1] == items[..i] + [x];
          }
          assert value.items[..|items|] == value.items && items[..|items|] == items;
          v := Arr(items);
        }
    }
  }

  // ----- replacement seen through extraction -----

  function RewriteAll<S>(f: Rewriter<S>, st: S, ss: seq<string>): (seq<string>, S)
    decreases |ss|
  {
    if ss == [] then ([], st)
    else
      var (st1, s) := f(st, ss[0]);
      var (rest, st2) := RewriteAll(f, st1, ss[1..]);
      ([s] + rest, st2)
  }

  lemma {:induction false} RewriteAppend<S>(f: Rewriter<S>, st: S, a: seq<string>, b: seq<string>)
    ensures var (x, st1) := RewriteAll(f, st, a);
      var (y, st2) := RewriteAll(f, st1, b);
      RewriteAll(f, st, a + b) == (x + y, st2)
    decreases |a|
  {
    if a == [] {
      assert a + b == b && [] + RewriteAll(f, st, b).0 == RewriteAll(f, st, b).0;
    } else {
      assert (a + b)[1..] == a[1..] + b;
      var (st0, s) := f(st, a[0]);
      RewriteAppend(f, st0, a[1..], b);
      var (x, st1) := RewriteAll(f, st0, a[1..]);
      var y := RewriteAll(f, st1, b).0;
      assert [s] + (x + y) == ([s] + x) + y;
    }
  }

  lemma RewriteOne<S>(f: Rewriter<S>, st: S, s: string)
    ensures RewriteAll(f, st, [s]) == ([f(st, s).1], f(st, s).0)
  {
    var (st1, r) := f(st, s);
    assert [s][1..] == [] && RewriteAll(f, st1, [s][1..]) == ([], st1);
    assert [r] + [] == [r];
  }

  /** Replacing along a path rewrites exactly the strings extracted along it, in the
      order of extraction and threading the closure's state through them. */
  lemma {:induction false} ReplaceExtracts<S>(v: Json, p: Path, f: Rewriter<S>, st: S)
    ensures var (v', st') := Replace(v, p, f, st);
      (Extract(v', p), st') == RewriteAll(f, st, Extract(v, p))
    decreases |p|, 0
  {
    hide ReplaceItems, ExtractItems, Selects;
    if p == [] {
      if v.Str? { RewriteOne(f, st, v.s); }
    } else if v.Obj? && p[0].Key? && p[0].key in v.fields {
      ReplaceExtracts(v.fields[p[0].key], p[1..], f, st);
    } else if v.Arr? {
      ReplaceItemsExtracts(v.items, 0, p, f, st);
    }
  }

  lemma {:induction false} ReplaceItemsExtracts<S>(items: seq<Json>, at: nat, p: Path, f: Rewriter<S>, st: S)
    requires p != []
    ensures var (items', st') := ReplaceItems(items, at, p, f, st);
      (ExtractItems(items', at, p), st') == RewriteAll(f, st, ExtractItems(items, at, p))
    decreases |p| - 1, |items| + 1
  {
    hide Replace, Extract, Selects;
    if items != [] {
      var (x, st1) := if Selects(p[0], at) then Replace(items[0], p[1..], f, st) else (items[0], st);
      ReplaceExtracts(items[0], p[1..], f, st);
      ReplaceItemsExtracts(items[1..], at + 1, p, f, st1);
      var (xs, st2) := ReplaceItems(items[1..], at + 1, p, f, st1);
      assert ([x] + xs)[1..] == xs;
      var first := if Selects(p[0], at) then Extract(items[0], p[1..]) else [];
      RewriteAppend(f, st, first, ExtractItems(items[1..], at + 1, p));
    }
  }

  // ----- what replacement leaves alone -----

  datatype Step = At(key: string) | Nth(i: nat)

  /** The node at a location, if there is one. */
  function Get(v: Json, loc: seq<Step>): (r: seq<Json>)
    ensures |r| <= 1
    decreases |loc|
  {
    if loc == [] then [v]
    else match loc[0]
      case At(k) => if v.Obj? && k in v.fields then Get(v.fields[k], loc[1..]) else []
      case Nth(i) => if v.Arr? && i < |v.items| then Get(v.items[i], loc[1..]) else []
  }

  predicate Fits(seg: Segment, step: Step) {
    match step
    case At(k) => seg == Key(k)
    case Nth(i) => seg == All || seg == Index(i)
  }

  ghost predicate OnPath(p: Path, loc: seq<Step>) {
    |p| == |loc| && forall i | 0 <= i < |p| :: Fits(p[i], loc[i])
  }

  /** The same node, not looking at its children. */
  predicate SameNode(a: Json, b: Json) {
    match (a, b)
    case (Arr(x), Arr(y)) => |x| == |y|
    case (Obj(x), Obj(y)) => x.Keys == y.Keys
    case (_, _) => a == b
  }

  /** What replacing may do at one location: a string on the path may become another
      string; anywhere else the node stays. */
  ghost predicate NodeKept(before: seq<Json>, after: seq<Json>, onPath: bool) {
    |before| == |after| && (|before| == 1 ==>
      if onPath && before[0].Str? then after[0].Str? else SameNode(before[0], after[0]))
  }

  lemma {:induction false} ItemsPointwise<S>(items: seq<Json>, at: nat, p: Path, f: Rewriter<S>, st: S,
      i: nat) returns (si: S)
    requires p != [] && i < |items|
    ensures ReplaceItems(items, at, p, f, st).0[i] ==
      if Selects(p[0], at + i) then Replace(items[i], p[1..], f, si).0 else items[i]
    decreases |items|
  {
    hide Replace, Selects;
    var st1 := if Selects(p[0], at) then Replace(items[0], p[1..], f, st).1 else st;
    if i == 0 {
      si := st;
    } else {
      si := ItemsPointwise(items[1..], at + 1, p, f, st1, i - 1);
    }
  }

  /** Shape and every value off the path are unchanged, at every location. */
  lemma {:induction false} ReplaceKeepsRest<S>(v: Json, p: Path, f: Rewriter<S>, st: S, loc: seq<Step>)
    ensures NodeKept(Get(v, loc), Get(Replace(v, p, f, st).0, loc), OnPath(p, loc))
    decreases |loc|
  {
    var v' := Replace(v, p, f, st).0;
    if loc == [] || p == [] {
      NodeKeptSelf(v, loc, OnPath(p, loc));
    } else {
      assert OnPath(p, loc) <==> Fits(p[0], loc[0]) && OnPath(p[1..], loc[1..]) by { OnPathCons(p, loc); }
      hide OnPath;
      match loc[0] {
        case At(k) =>
          if v.Obj? && k in v.fields {
            if p[0] == Key(k) {
              ReplaceKeepsRest(v.fields[k], p[1..], f, st, loc[1..]);
            } else {
              NodeKeptSelf(v.fields[k], loc[1..], false);
            }
          }
        case Nth(i) =>
          if v.Arr? && i < |v.items| {
            hide Replace, ReplaceItems;
            ArrReplaced(v, p, f, st);
            var si := ItemsPointwise(v.items, 0, p, f, st, i);
            if Selects(p[0], i) {
              ReplaceKeepsRest(v.items[i], p[1..], f, si, loc[1..]);
            } else {
              NodeKeptSelf(v.items[i], loc[1..], false);
            }
          }
      }
    }
  }

  lemma ArrReplaced<S>(v: Json, p: Path, f: Rewriter<S>, st: S)
    requires v.Arr? && p != []
    ensures Replace(v, p, f, st).0 == Arr(ReplaceItems(v.items, 0, p, f, st).0)
  {
    hide ReplaceItems;
  }

  lemma OnPathCons(p: Path, loc: seq<Step>)
    requires p != [] && loc != []
    ensures OnPath(p, loc) <==> Fits(p[0], loc[0]) && OnPath(p[1..], loc[1..])
  {
    hide Fits;
    if Fits(p[0], loc[0]) && OnPath(p[1..], loc[1..]) {
      forall i | 0 <= i < |p| ensures Fits(p[i], loc[i]) {
        if i > 0 { assert Fits(p[1..][i - 1], loc[1..][i - 1]); }
      }
    }
    if OnPath(p, loc) {
      forall i | 0 <= i < |p[1..]| ensures Fits(p[1..][i], loc[1..][i]) { assert Fits(p[i + 1], loc[i + 1]); }
    }
  }

  lemma NodeKeptSelf(v: Json, loc: seq<Step>, onPath: bool)
    ensures NodeKept(Get(v, loc), Get(v, loc), onPath)
  {}

  // ----- what extraction finds -----

  lemma {:induction false} ItemsHold(items: seq<Json>, at: nat, p: Path, s: string)
    requires p != []
    ensures s in ExtractItems(items, at, p) <==>
      exists i :: 0 <= i < |items| && Selects(p[0], at + i) && s in Extract(items[i], p[1..])
    decreases |items|
  {
    hide Extract, Selects;
    if items != [] {
      ItemsHold(items[1..], at + 1, p, s);
      if s in ExtractItems(items[1..], at + 1, p) {
        var i :| 0 <= i < |items[1..]| && Selects(p[0], at + 1 + i) && s in Extract(items[1..][i], p[1..]);
        assert items[1..][i] == items[i + 1] && Selects(p[0], at + (i + 1));
      }
      forall i | 0 < i < |items| && Selects(p[0], at + i) && s in Extract(items[i], p[1..])
        ensures s in ExtractItems(items[1..], at + 1, p)
      {
        assert items[1..][i - 1] == items[i] && Selects(p[0], at + 1 + (i - 1));
      }
    }
  }

  lemma LocCons(step: Step, loc: seq<Step>)
    ensures ([step] + loc)[0] == step && ([step] + loc)[1..] == loc
  {}

  /** Extraction finds a string iff it stands at a location on the path. */
  lemma {:induction false} ExtractFinds(v: Json, p: Path, s: string)
    ensures s in Extract(v, p) <==> exists loc :: OnPath(p, loc) && Get(v, loc) == [Str(s)]
    decreases |p|
  {
    if p == [] {
      if v == Str(s) { assert OnPath(p, []) && Get(v, []) == [Str(s)]; }
    } else {
      if s in Extract(v, p) { var loc := FoundAt(v, p, s); }
      forall loc | OnPath(p, loc) && Get(v, loc) == [Str(s)] ensures s in Extract(v, p) { FoundOn(v, p, s, loc); }
    }
  }

  lemma FoundAt(v: Json, p: Path, s: string) returns (loc: seq<Step>)
    requires p != [] && s in Extract(v, p)
    ensures OnPath(p, loc) && Get(v, loc) == [Str(s)]
    decreases |p|, 0
  {
    if v.Obj? && p[0].Key? && p[0].key in v.fields {
      var k := p[0].key;
      ExtractFinds(v.fields[k], p[1..], s);
      hide OnPath;
      var rest :| OnPath(p[1..], rest) && Get(v.fields[k], rest) == [Str(s)];
      loc := [At(k)] + rest;
      LocCons(At(k), rest);
      OnPathCons(p, loc);
    } else {
      ItemsHold(v.items, 0, p, s);
      var i: nat :| i < |v.items| && Selects(p[0], 0 + i) && s in Extract(v.items[i], p[1..]);
      ExtractFinds(v.items[i], p[1..], s);
      hide OnPath, Extract;
      var rest :| OnPath(p[1..], rest) && Get(v.items[i], rest) == [Str(s)];
      loc := [Nth(i)] + rest;
      LocCons(Nth(i), rest);
      OnPathCons(p, loc);
    }
  }

  lemma FoundOn(v: Json, p: Path, s: string, loc: seq<Step>)
    requires p != [] && OnPath(p, loc) && Get(v, loc) == [Str(s)]
    ensures s in Extract(v, p)
    decreases |p|, 0
  {
    OnPathCons(p, loc);
    hide OnPath;
    match loc[0]
    case At(k) =>
      ExtractFinds(v.fields[k], p[1..], s);
    case Nth(i) =>
      ExtractFinds(v.items[i], p[1..], s);
      ItemsHold(v.items, 0, p, s);
      assert Selects(p[0], 0 + i);
  }

  // ----- paths of different length -----

  /** Two paths of different length never reach the same string, so replacing along
      them commutes, closures with state included: each sees the same strings in the
      same order either way. */
  lemma {:induction false} ReplacesCommute<S, T>(v: Json, p: Path, q: Path, f: Rewriter<S>, g: Rewriter<T>, s: S, t: T)
    requires |p| != |q|
    ensures var (vp, s1) := Replace(v, p, f, s);
      var (vq, t1) := Replace(v, q, g, t);
      var (vpq, t2) := Replace(vp, q, g, t);
      var (vqp, s2) := Replace(vq, p, f, s);
      vpq == vqp && s1 == s2 && t1 == t2
    decreases |p|, 0
  {
    hide ReplaceItems;
    if p == [] || q == [] {
    } else if v.Obj? {
      ObjCommute(v, p, q, f, g, s, t);
    } else if v.Arr? {
      ItemsCommute(v.items, 0, p, q, f, g, s, t);
    }
  }

  lemma {:induction false} ObjCommute<S, T>(v: Json, p: Path, q: Path, f: Rewriter<S>, g: Rewriter<T>, s: S, t: T)
    requires |p| != |q| && p != [] && q != [] && v.Obj?
    ensures var (vp, s1) := Replace(v, p, f, s);
      var (vq, t1) := Replace(v, q, g, t);
      var (vpq, t2) := Replace(vp, q, g, t);
      var (vqp, s2) := Replace(vq, p, f, s);
      vpq == vqp && s1 == s2 && t1 == t2
    decreases |p| - 1, |v.fields| + 1
  {
    hide ReplaceItems;
    var hitP, hitQ := p[0].Key? && p[0].key in v.fields, q[0].Key? && q[0].key in v.fields;
    if hitP && hitQ {
      var k, l := p[0].key, q[0].key;
      var (x, s1) := Replace(v.fields[k], p[1..], f, s);
      var (y, t1) := Replace(v.fields[l], q[1..], g, t);
      if k == l {
        ReplacesCommute(v.fields[k], p[1..], q[1..], f, g, s, t);
        var z := Replace(x, q[1..], g, t).0;
        assert v.fields[k := x][k := z] == v.fields[k := y][k := z];
      } else {
        assert v.fields[k := x][l := y] == v.fields[l := y][k := x];
      }
    }
  }

  lemma {:induction false} ItemsCommute<S, T>(
    items: seq<Json>, at: nat, p: Path, q: Path, f: Rewriter<S>, g: Rewriter<T>, s: S, t: T)
    requires |p| != |q| && p != [] && q != []
    ensures var (vp, s1) := ReplaceItems(items, at, p, f, s);
      var (vq, t1) := ReplaceItems(items, at, q, g, t);
      var (vpq, t2) := ReplaceItems(vp, at, q, g, t);
      var (vqp, s2) := ReplaceItems(vq, at, p, f, s);
      vpq == vqp && s1 == s2 && t1 == t2
    decreases |p| - 1, |items| + 1
  {
    hide Replace, Selects;
    if items != [] {
      var v := items[0];
      var selP, selQ := Selects(p[0], at), Selects(q[0], at);
      var (x, s1) := if selP then Replace(v, p[1..], f, s) else (v, s);
      var (y, t1) := if selQ then Replace(v, q[1..], g, t) else (v, t);
      ReplacesCommute(v, p[1..], q[1..], f, g, s, t);
      ItemsCommute(items[1..], at + 1, p, q, f, g, s1, t1);
      ConsCommutes(items, at, p, f, s);
      ConsCommutes(items, at, q, g, t);
      ConsCommutes([x] + ReplaceItems(items[1..], at + 1, p, f, s1).0, at, q, g, t);
      ConsCommutes([y] + ReplaceItems(items[1..], at + 1, q, g, t1).0, at, p, f, s);
    }
  }

  lemma ConsCommutes<S>(items: seq<Json>, at: nat, p: Path, f: Rewriter<S>, st: S)
    requires p != [] && items != []
    ensures var (x, st1) := if Selects(p[0], at) then Replace(items[0], p[1..], f, st) else (items[0], st);
      var (xs, st2) := ReplaceItems(items[1..], at + 1, p, f, st1);
      ReplaceItems(items, at, p, f, st) == ([x] + xs, st2)
  {}

  /** A closure that changes nothing and remembers what it was given. */
  const Recorder: Rewriter<seq<string>> := (seen: seq<string>, s: string) => (seen + [s], s)

  lemma {:induction false} RecorderRecords(seen: seq<string>, ss: seq<string>)
    ensures RewriteAll(Recorder, seen, ss) == (ss, seen + ss)
    decreases |ss|
  {
    if ss == [] {
      assert seen + ss == seen;
    } else {
      RecorderRecords(seen + [ss[0]], ss[1..]);
      assert seen + [ss[0]] + ss[1..] == seen + ss && ss == [ss[0]] + ss[1..];
    }
  }

  /** Nothing is masked twice: a path of another length still extracts the very strings
      that stood there before, whatever was written along the first path. */
  lemma NothingRewrittenTwice<S>(v: Json, p: Path, q: Path, f: Rewriter<S>, st: S)
    requires |p| != |q|
    ensures Extract(Replace(v, p, f, st).0, q) == Extract(v, q)
  {
    hide Replace, Extract, RewriteAll;
    var vp := Replace(v, p, f, st).0;
    ReplacesCommute(v, p, q, f, Recorder, st, []);
    ReplaceExtracts(v, q, Recorder, []);
    ReplaceExtracts(vp, q, Recorder, []);
    RecorderRecords([], Extract(v, q));
    RecorderRecords([], Extract(vp, q));
    assert [] + Extract(v, q) == Extract(v, q) && [] + Extract(vp, q) == Extract(vp, q);
  }
}
