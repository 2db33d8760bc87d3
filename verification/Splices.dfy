/** A text cut into gaps and replaced chunks, and the edits that turn one side into the other. */
module Splices {
  datatype Chunk = Chunk(gap: string, here: string, there: string) {
    function Swap(): Chunk { Chunk(gap, there, here) }
  }

  function Here(cs: seq<Chunk>): string {
    if cs == [] then "" else cs[0].gap + cs[0].here + Here(cs[1..])
  }

  function Swapped(cs: seq<Chunk>): seq<Chunk> {
    if cs == [] then [] else [cs[0].Swap()] + Swapped(cs[1..])
  }

  /** Put `text` in place of the characters from `start` to `end`. */
  datatype Edit = Edit(start: nat, end: nat, text: string)

  /** Increasing, disjoint edits inside `cursor..limit`. */
  predicate InOrder(es: seq<Edit>, cursor: nat, limit: nat) {
    if es == [] then cursor <= limit
    else cursor <= es[0].start <= es[0].end <= limit && InOrder(es[1..], es[0].end, limit)
  }

  /** Apply increasing, disjoint edits in one pass, copying from `cursor` on. */
  function Apply(s: string, es: seq<Edit>, cursor: nat): string
    requires InOrder(es, cursor, |s|)
  {
    if es == [] then s[cursor..]
    else s[cursor..es[0].start] + es[0].text + Apply(s, es[1..], es[0].end)
  }

  /** The edits that turn the `here` side, which begins at `at`, into the `there` side. */
  function Edits(cs: seq<Chunk>, at: nat): seq<Edit> {
    if cs == [] then []
    else
      var from := at + |cs[0].gap|;
      [Edit(from, from + |cs[0].here|, cs[0].there)] + Edits(cs[1..], from + |cs[0].here|)
  }

  lemma {:induction false} SwapSwap(cs: seq<Chunk>)
    ensures Swapped(Swapped(cs)) == cs
  {
    if cs != [] {
      SwapSwap(cs[1..]);
      assert Swapped(cs)[1..] == Swapped(cs[1..]);
      assert cs == [cs[0]] + cs[1..];
    }
  }

  lemma {:induction false} EditsInOrder(cs: seq<Chunk>, at: nat, limit: nat)
    requires at + |Here(cs)| <= limit
    ensures InOrder(Edits(cs, at), at, limit)
  {
    if cs != [] {
      var next := at + |cs[0].gap| + |cs[0].here|;
      EditsInOrder(cs[1..], next, limit);
      assert Edits(cs, at)[1..] == Edits(cs[1..], next);
    }
  }

  lemma EditsCons(cs: seq<Chunk>, at: nat)
    requires cs != []
    ensures var from := at + |cs[0].gap|;
      Edits(cs, at) == [Edit(from, from + |cs[0].here|, cs[0].there)] + Edits(cs[1..], from + |cs[0].here|)
  {}

  lemma SwappedCons(cs: seq<Chunk>)
    requires cs != []
    ensures Swapped(cs) == [cs[0].Swap()] + Swapped(cs[1..])
  {}

  lemma CutChunk(s: string, at: nat, c: Chunk, rest: string)
    requires at <= |s| && s[at..] == c.gap + c.here + rest
    ensures var from := at + |c.gap|;
      var next := from + |c.here|;
      next <= |s| && s[at..from] == c.gap && s[next..] == rest
  {
    assert s[at..][..|c.gap|] == c.gap;
    assert s[at..][|c.gap| + |c.here|..] == rest;
  }

  lemma {:induction false} ApplyEdits(s: string, cs: seq<Chunk>, tail: string, at: nat)
    requires at <= |s| && s[at..] == Here(cs) + tail
    ensures InOrder(Edits(cs, at), at, |s|)
    ensures Apply(s, Edits(cs, at), at) == Here(Swapped(cs)) + tail
    decreases |cs|
  {
    EditsInOrder(cs, at, |s|);
    if cs == [] {
      assert s[at..] == tail;
    } else {
      hide Apply, InOrder, Edits, Swapped;
      var c := cs[0];
      var next := at + |c.gap| + |c.here|;
      var rest := Here(cs[1..]) + tail;
      assert s[at..] == c.gap + c.here + rest;
      CutChunk(s, at, c, rest);
      ApplyEdits(s, cs[1..], tail, next);
      EditsCons(cs, at);
      SwappedCons(cs);
      ApplyCons(s, Edits(cs, at), at);
      hide Here;
      HereCons(Swapped(cs), tail);
    }
  }

  lemma HereCons(cs: seq<Chunk>, tail: string)
    requires cs != []
    ensures Here(cs) + tail == cs[0].gap + cs[0].here + (Here(cs[1..]) + tail)
  {}

  lemma ApplyCons(s: string, es: seq<Edit>, cursor: nat)
    requires es != [] && InOrder(es, cursor, |s|)
    ensures Apply(s, es, cursor) == s[cursor..es[0].start] + es[0].text + Apply(s, es[1..], es[0].end)
  {}

  /** The edits and the swapped edits are inverse to each other. */
  lemma EditsInvert(cs: seq<Chunk>, tail: string)
    ensures var here, there := Here(cs) + tail, Here(Swapped(cs)) + tail;
      && InOrder(Edits(cs, 0), 0, |here|) && Apply(here, Edits(cs, 0), 0) == there
      && InOrder(Edits(Swapped(cs), 0), 0, |there|) && Apply(there, Edits(Swapped(cs), 0), 0) == here
  {
    ApplyEdits(Here(cs) + tail, cs, tail, 0);
    ApplyEdits(Here(Swapped(cs)) + tail, Swapped(cs), tail, 0);
    SwapSwap(cs);
  }
}
