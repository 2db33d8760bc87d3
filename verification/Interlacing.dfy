/** Texts made of gaps and values in turn, and when such a text tells its values. */
module Interlacing {
  /** Gaps and values in turn. */
  function Interlaced(gaps: seq<string>, xs: seq<string>): string
    requires |gaps| == |xs|
  {
    if xs == [] then "" else gaps[0] + xs[0] + Interlaced(gaps[1..], xs[1..])
  }

  /** One can see where `x` and `y` end: they have one length, or the text after them begins
      with a character that neither holds, or nothing follows. */
  predicate EndSeen(x: string, y: string, next: string, last: bool) {
    |x| == |y| || (next != "" && next[0] !in x && next[0] !in y) || (last && next == "")
  }

  function NextGap(gaps: seq<string>, i: nat, tail: string): string {
    if i + 1 < |gaps| then gaps[i + 1] else tail
  }

  ghost predicate EndsSeen(gaps: seq<string>, xs: seq<string>, ys: seq<string>, tail: string) {
    && |gaps| == |xs| == |ys|
    && forall i | 0 <= i < |xs| :: EndSeen(xs[i], ys[i], NextGap(gaps, i, tail), i + 1 == |xs|)
  }

  lemma CharAt(x: string, rest: string, i: nat)
    ensures i < |x| ==> (x + rest)[i] == x[i]
    ensures rest != "" ==> (x + rest)[|x|] == rest[0]
  {}

  lemma NotShorter(x: string, y: string, next: string, xs: string, ys: string)
    requires next != "" && next[0] !in y && next <= xs && x + xs == y + ys
    ensures |y| <= |x|
  {
    CharAt(x, xs, |x|);
    CharAt(y, ys, |x|);
  }

  lemma ValueEnds(x: string, y: string, next: string, xs: string, ys: string)
    requires EndSeen(x, y, next, xs == next == ys) && next <= xs && next <= ys && x + xs == y + ys
    ensures x == y && xs == ys
  {
    var s, t := x + xs, y + ys;
    if |x| != |y| && next != "" {
      NotShorter(x, y, next, xs, ys);
      NotShorter(y, x, next, ys, xs);
    }
    assert s[..|x|] == x && t[..|y|] == y && s[|x|..] == xs && t[|y|..] == ys;
  }

  lemma EndsSeenTail(gaps: seq<string>, xs: seq<string>, ys: seq<string>, tail: string)
    requires xs != [] && EndsSeen(gaps, xs, ys, tail)
    ensures EndsSeen(gaps[1..], xs[1..], ys[1..], tail)
  {
    hide EndSeen;
    forall i | 0 <= i < |xs[1..]|
      ensures EndSeen(xs[1..][i], ys[1..][i], NextGap(gaps[1..], i, tail), i + 1 == |xs[1..]|)
    {
      assert EndSeen(xs[i + 1], ys[i + 1], NextGap(gaps, i + 1, tail), i + 2 == |xs|);
    }
  }

  /** Where the ends of the values can be seen, the text tells the values. */
  lemma {:induction false} InterlacedTells(gaps: seq<string>, xs: seq<string>, ys: seq<string>, tail: string)
    requires EndsSeen(gaps, xs, ys, tail) && Interlaced(gaps, xs) + tail == Interlaced(gaps, ys) + tail
    ensures xs == ys
    decreases |xs|
  {
    hide EndSeen;
    if xs != [] {
      var a, b := Interlaced(gaps[1..], xs[1..]) + tail, Interlaced(gaps[1..], ys[1..]) + tail;
      var next := NextGap(gaps, 0, tail);
      assert EndSeen(xs[0], ys[0], next, 1 == |xs|);
      InterlacedCons(gaps, xs, tail);
      InterlacedCons(gaps, ys, tail);
      SameHead(gaps[0], xs[0] + a, ys[0] + b);
      InterlacedStarts(gaps[1..], xs[1..], tail);
      InterlacedStarts(gaps[1..], ys[1..], tail);
      LastMeans(xs[0], ys[0], next, 1 == |xs|, a == next == b);
      ValueEnds(xs[0], ys[0], next, a, b);
      EndsSeenTail(gaps, xs, ys, tail);
      InterlacedTells(gaps[1..], xs[1..], ys[1..], tail);
      assert xs == [xs[0]] + xs[1..] && ys == [ys[0]] + ys[1..];
    }
  }

  lemma LastMeans(x: string, y: string, next: string, last: bool, alone: bool)
    requires EndSeen(x, y, next, last) && (last ==> alone)
    ensures EndSeen(x, y, next, alone)
  {}

  lemma InterlacedCons(gaps: seq<string>, xs: seq<string>, tail: string)
    requires |gaps| == |xs| > 0
    ensures Interlaced(gaps, xs) + tail == gaps[0] + (xs[0] + (Interlaced(gaps[1..], xs[1..]) + tail))
  {}

  lemma SameHead(g: string, a: string, b: string)
    requires g + a == g + b
    ensures a == b
  {
    assert (g + a)[|g|..] == a && (g + b)[|g|..] == b;
  }

  lemma InterlacedStarts(gaps: seq<string>, xs: seq<string>, tail: string)
    requires |gaps| == |xs|
    ensures var s := Interlaced(gaps, xs) + tail;
      if xs == [] then s == tail else gaps[0] <= s
  {}
}
