/** Spans, candidates and entities, and the library's stable sort by start. */
module Entities {
  type PdType = string

  datatype Span = Span(start: nat, end: nat) {
    function Len(): nat { if start <= end then end - start else 0 }
    predicate IsEmpty() { start >= end }
    predicate Overlaps(o: Span) { start < o.end && o.start < end }
  }

  datatype Candidate = Candidate(
    pdType: PdType, span: Span, score: real, checksumOk: bool, components: seq<Candidate>)

  datatype Entity = Entity(
    pdType: PdType, span: Span, score: real, components: seq<Entity>, canonical: string)

  function CandidateByStart(): Candidate -> int { (c: Candidate) => c.span.start }

  function EntityByStart(): Entity -> int { (e: Entity) => e.span.start }

  const ADDRESS: PdType := "ADDRESS"

  // ----- stable sort by an integer key -----

  function Insert<T>(x: T, s: seq<T>, key: T -> int): (r: seq<T>)
    ensures |r| == |s| + 1
  {
    if s == [] || key(x) <= key(s[0]) then [x] + s else [s[0]] + Insert(x, s[1..], key)
  }

  function StableSort<T>(s: seq<T>, key: T -> int): (r: seq<T>)
    ensures |r| == |s|
  {
    if s == [] then [] else Insert(s[0], StableSort(s[1..], key), key)
  }

  lemma InsertFirst<T>(x: T, s: seq<T>, key: T -> int)
    requires s == [] || key(x) <= key(s[0])
    ensures Insert(x, s, key) == [x] + s
  {}

  ghost predicate SortedBy<T>(s: seq<T>, key: T -> int) {
    forall i, j | 0 <= i < j < |s| :: key(s[i]) <= key(s[j])
  }

  function WithKey<T>(s: seq<T>, key: T -> int, n: int): seq<T> {
    if s == [] then []
    else (if key(s[0]) == n then [s[0]] else []) + WithKey(s[1..], key, n)
  }

  ghost predicate SameElements<T>(r: seq<T>, s: seq<T>) {
    (forall y <- r :: y in s) && (forall y <- s :: y in r)
  }

  lemma {:induction false} InsertSorted<T>(x: T, s: seq<T>, key: T -> int)
    requires SortedBy(s, key)
    ensures SortedBy(Insert(x, s, key), key)
    ensures SameElements(Insert(x, s, key), [x] + s)
  {
    if s != [] && key(x) > key(s[0]) {
      InsertSorted(x, s[1..], key);
      assert s == [s[0]] + s[1..];
      var r := Insert(x, s[1..], key);
      forall j | 0 <= j < |r| ensures key(s[0]) <= key(r[j]) {
        assert r[j] in r && r[j] in [x] + s[1..];
      }
    }
  }

  lemma {:induction false} InsertKeepsOrder<T>(x: T, s: seq<T>, key: T -> int, n: int)
    requires SortedBy(s, key)
    ensures WithKey(Insert(x, s, key), key, n) == WithKey([x] + s, key, n)
  {
    assert ([x] + s)[1..] == s;
    if s != [] && key(x) > key(s[0]) {
      InsertKeepsOrder(x, s[1..], key, n);
      assert ([x] + s[1..])[1..] == s[1..];
      assert Insert(x, s, key)[1..] == Insert(x, s[1..], key);
    }
  }

  /** Sorted, and for each key the elements in their original order: a stable permutation. */
  lemma {:induction false} StableSortCorrect<T>(s: seq<T>, key: T -> int)
    ensures SortedBy(StableSort(s, key), key)
    ensures SameElements(StableSort(s, key), s)
    ensures forall n :: WithKey(StableSort(s, key), key, n) == WithKey(s, key, n)
  {
    if s != [] {
      var t := StableSort(s[1..], key);
      StableSortCorrect(s[1..], key);
      InsertSorted(s[0], t, key);
      assert s == [s[0]] + s[1..];
      forall n ensures WithKey(StableSort(s, key), key, n) == WithKey(s, key, n) {
        InsertKeepsOrder(s[0], t, key, n);
        assert ([s[0]] + t)[1..] == t;
      }
    }
  }

  lemma {:induction false} SortOfSorted<T>(s: seq<T>, key: T -> int)
    requires SortedBy(s, key)
    ensures StableSort(s, key) == s
  {
    if s != [] {
      SortOfSorted(s[1..], key);
      InsertFirst(s[0], s[1..], key);
      assert s == [s[0]] + s[1..];
    }
  }
}
