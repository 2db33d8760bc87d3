/** The normalised document: per-character folding, the byte map from the folded text
    back to the original, and the ASCII fast path. Byte offsets follow the UTF-8
    widths of section 3 of RFC 3629. */
module Document {
  import opened Entities

  // ----- UTF-8 offsets -----

  function Width(c: char): (w: nat)
    ensures 1 <= w <= 4
  {
    if c < '\U{80}' then 1 else if c < '\U{800}' then 2 else if c < '\U{10000}' then 3 else 4
  }

  function ByteLen(s: string): nat {
    if s == "" then 0 else Width(s[0]) + ByteLen(s[1..])
  }

  /** Byte offset of character `i`. */
  function Offset(s: string, i: nat): nat
    requires i <= |s|
  { ByteLen(s[..i]) }

  /** The character boundary at byte `b`, searched from character `i` on. */
  function CharIndex(s: string, b: nat): (r: nat)
    ensures r <= |s| + 1
    ensures r <= |s| <==> IsBoundary(s, b)
  {
    if b == 0 then 0
    else if s == "" || b < Width(s[0]) then |s| + 1
    else 1 + CharIndex(s[1..], b - Width(s[0]))
  }

  /** `is_char_boundary`. */
  predicate IsBoundary(s: string, b: nat) {
    b == 0 || (s != "" && b >= Width(s[0]) && IsBoundary(s[1..], b - Width(s[0])))
  }

  /** The substring between two byte boundaries. */
  function Slice(s: string, span: Span): string
    requires span.start <= span.end && IsBoundary(s, span.start) && IsBoundary(s, span.end)
  {
    BoundaryOrder(s, span.start, span.end);
    s[CharIndex(s, span.start)..CharIndex(s, span.end)]
  }

  lemma BoundaryOrder(s: string, a: nat, b: nat)
    requires a <= b && IsBoundary(s, a) && IsBoundary(s, b)
    ensures CharIndex(s, a) <= CharIndex(s, b) <= |s|
  {}

  lemma {:induction false} ByteLenAppend(a: string, b: string)
    ensures ByteLen(a + b) == ByteLen(a) + ByteLen(b)
  {
    if a == "" {
      assert a + b == b;
    } else {
      assert (a + b)[1..] == a[1..] + b;
      ByteLenAppend(a[1..], b);
    }
  }

  /** Character offsets are exactly the boundaries, and `CharIndex` inverts `Offset`. */
  lemma {:induction false} OffsetIsBoundary(s: string, i: nat)
    requires i <= |s|
    ensures IsBoundary(s, Offset(s, i)) && CharIndex(s, Offset(s, i)) == i && Offset(s, i) <= ByteLen(s)
  {
    if i > 0 {
      OffsetIsBoundary(s[1..], i - 1);
      assert s[..i][1..] == s[1..][..i - 1];
    }
  }

  lemma OffsetStep(s: string, i: nat)
    requires i < |s|
    ensures Offset(s, i + 1) == Offset(s, i) + Width(s[i])
  {
    assert s[..i + 1] == s[..i] + [s[i]];
    ByteLenAppend(s[..i], [s[i]]);
    assert [s[i]][1..] == "";
  }

  // ----- folding -----

  /** Library case folding; each table gives at least one character, and keeps the
      characters that need no folding. */
  datatype FoldTables = FoldTables(nfkc: char -> string, lower: char -> string) {
    ghost predicate Valid() {
      forall c :: nfkc(c) != "" && lower(c) != "" && (IsFast(c) ==> nfkc(c) == [c] && lower(c) == [c])
    }
  }

  type Tables = t: FoldTables | t.Valid() witness FoldTables(c => [c], c => [c])

  /** Lower-case ASCII letters, digits, punctuation and the space. */
  predicate IsFast(c: char) {
    'a' <= c <= 'z' || '0' <= c <= '9' || c == ' '
    || '!' <= c <= '/' || ':' <= c <= '@' || '[' <= c <= '`' || '{' <= c <= '~'
  }

  predicate IsFastText(s: string) { forall i | 0 <= i < |s| :: IsFast(s[i]) }

  const DASHES: set<char> := {'\U{2010}', '\U{2011}', '\U{2012}', '\U{2013}', '\U{2014}', '\U{2015}', '\U{2212}'}
  const SPACES: set<char> := {
    '\U{00A0}', '\U{2009}', '\t', '\U{2000}', '\U{2001}', '\U{2002}', '\U{2003}', '\U{2004}', '\U{2005}',
    '\U{2006}', '\U{2007}', '\U{2008}', '\U{200A}', '\U{202F}', '\U{205F}', '\U{3000}'}
  const QUOTES: set<char> := {'\U{00AB}', '\U{00BB}', '\U{201E}', '\U{201C}', '\U{201D}'}

  function NormalizeChar(c: char): char {
    if c == '\U{0451}' then '\U{0435}'
    else if c in DASHES then '-'
    else if c in SPACES then ' '
    else if c in QUOTES then '"'
    else c
  }

  function MapChars(s: string): string {
    if s == "" then "" else [NormalizeChar(s[0])] + MapChars(s[1..])
  }

  function LowerAll(t: Tables, s: string): string {
    if s == "" then "" else MapChars(t.lower(s[0])) + LowerAll(t, s[1..])
  }

  function Fold(t: Tables, c: char): (r: string)
    ensures r != ""
  {
    assert t.nfkc(c) != "" && t.lower(t.nfkc(c)[0]) != "";
    LowerAll(t, t.nfkc(c))
  }

  function Norm(t: Tables, s: string): string {
    if s == "" then "" else Fold(t, s[0]) + Norm(t, s[1..])
  }

  /** Truncation to 32 bits, as the map stores its entries. */
  function U32(n: nat): nat { n % 0x1_0000_0000 }

  function Repeat(n: nat, times: nat): (r: seq<nat>)
    ensures |r| == times
  { seq(times, _ => n) }

  function MapBody(t: Tables, s: string, at: nat): seq<nat> {
    if s == "" then []
    else Repeat(U32(at), ByteLen(Fold(t, s[0]))) + MapBody(t, s[1..], at + Width(s[0]))
  }

  datatype Doc = Doc(original: string, norm: string, normToOrig: seq<nat>)

  /** What the general loop builds. */
  function SlowDoc(t: Tables, s: string): Doc {
    Doc(s, Norm(t, s), MapBody(t, s, 0) + [U32(ByteLen(s))])
  }

  function NewDoc(t: Tables, s: string): Doc {
    if IsFastText(s) then Doc(s, s, []) else SlowDoc(t, s)
  }

  // ----- `Document::new` -----

  lemma {:induction false} NormAppend(t: Tables, a: string, b: string)
    ensures Norm(t, a + b) == Norm(t, a) + Norm(t, b)
  {
    if a == "" {
      assert a + b == b;
    } else {
      assert (a + b)[1..] == a[1..] + b;
      NormAppend(t, a[1..], b);
    }
  }

  lemma {:induction false} MapBodyAppend(t: Tables, a: string, b: string, at: nat)
    ensures MapBody(t, a + b, at) == MapBody(t, a, at) + MapBody(t, b, at + ByteLen(a))
    decreases |a|
  {
    hide Fold, U32, Repeat;
    if a == "" {
      assert a + b == b;
    } else {
      assert (a + b)[1..] == a[1..] + b;
      MapBodyAppend(t, a[1..], b, at + Width(a[0]));
    }
  }

  lemma DocStep(t: Tables, s: string, i: nat)
    requires i < |s|
    ensures Norm(t, s[..i + 1]) == Norm(t, s[..i]) + Fold(t, s[i])
    ensures MapBody(t, s[..i + 1], 0) == MapBody(t, s[..i], 0) + Repeat(U32(Offset(s, i)), ByteLen(Fold(t, s[i])))
  {
    hide Fold;
    assert s[..i + 1] == s[..i] + [s[i]];
    NormAppend(t, s[..i], [s[i]]);
    MapBodyAppend(t, s[..i], [s[i]], 0);
    assert [s[i]][1..] == "";
  }

  lemma RepeatStep(entries: seq<nat>, n: nat, folded: string, j: nat)
    requires j < |folded|
    ensures entries + Repeat(n, ByteLen(folded[..j])) + Repeat(n, Width(folded[j])) ==
      entries + Repeat(n, ByteLen(folded[..j + 1]))
  {
    OffsetStep(folded, j);
  }

  /** The inner loops: the characters of one fold, and an entry for each of their bytes. */
  method PushFolded(norm: string, normToOrig: seq<nat>, folded: string, origByte: nat)
    returns (norm': string, normToOrig': seq<nat>)
    ensures norm' == norm + folded && normToOrig' == normToOrig + Repeat(origByte, ByteLen(folded))
  {
    hide Width, ByteLen;
    norm', normToOrig' := norm, normToOrig;
    FoldStart(folded);
    for j := 0 to |folded|
      invariant norm' == norm + folded[..j]
      invariant normToOrig' == normToOrig + Repeat(origByte, ByteLen(folded[..j]))
    {
      RepeatStep(normToOrig, origByte, folded, j);
      normToOrig' := normToOrig' + Repeat(origByte, Width(folded[j]));
      norm' := norm' + [folded[j]];
    }
    assert folded[..|folded|] == folded;
  }

  method New(t: Tables, original: string) returns (d: Doc)
    ensures d == NewDoc(t, original)
  {
    if IsFastText(original) { return Doc(original, original, []); }
    hide Norm, MapBody, Fold, ByteLen, IsFastText, U32, Repeat, Width;
    var norm, origByte: nat := "", 0;
    var normToOrig: seq<nat> := [];
    DocStart(t, original);
    for i := 0 to |original|
      invariant norm == Norm(t, original[..i]) && normToOrig == MapBody(t, original[..i], 0)
      invariant origByte == Offset(original, i)
    {
      DocStep(t, original, i);
      OffsetStep(original, i);
      norm, normToOrig := PushFolded(norm, normToOrig, Fold(t, original[i]), U32(origByte));
      origByte := origByte + Width(original[i]);
    }
    assert original[..|original|] == original;
    normToOrig := normToOrig + [U32(origByte)];
    d := Doc(original, norm, normToOrig);
  }

  lemma DocStart(t: Tables, s: string)
    ensures Norm(t, s[..0]) == "" && MapBody(t, s[..0], 0) == [] && Offset(s, 0) == 0
  {}

  lemma FoldStart(folded: string)
    ensures ByteLen(folded[..0]) == 0
  {}

  // ----- translating ranges back -----

  function AlignForward(s: string, b: nat): (r: nat)
    ensures r >= b && (b <= ByteLen(s) ==> r <= ByteLen(s))
    decreases ByteLen(s) - b
  {
    if b < ByteLen(s) && !IsBoundary(s, b) then AlignForward(s, b + 1) else b
  }

  method AlignForwardLoop(s: string, start: nat) returns (b: nat)
    ensures b == AlignForward(s, start)
  {
    b := start;
    while b < ByteLen(s) && !IsBoundary(s, b)
      invariant AlignForward(s, b) == AlignForward(s, start)
      decreases ByteLen(s) - b
    {
      b := b + 1;
    }
  }

  function Min(a: nat, b: nat): nat { if a <= b then a else b }

  /** The map covers the folded text and ends with a sentinel, unless it is not there. */
  predicate Mapped(d: Doc) { d.normToOrig == [] || |d.normToOrig| == ByteLen(d.norm) + 1 }

  function ToOriginal(d: Doc, normStart: nat, normEnd: nat): Span
    requires Mapped(d)
  {
    if d.normToOrig == [] then Span(normStart, normEnd)
    else
      Span(AlignForward(d.original, d.normToOrig[Min(normStart, ByteLen(d.norm))]),
           AlignForward(d.original, d.normToOrig[Min(normEnd, ByteLen(d.norm))]))
  }

  /** Byte offset in the folded text of the image of character `i`. */
  function Image(t: Tables, s: string, i: nat): nat
    requires i <= |s|
  { ByteLen(Norm(t, s[..i])) }

  lemma FoldNotEmpty(t: Tables, c: char)
    ensures ByteLen(Fold(t, c)) > 0
  {
    hide LowerAll;
  }

  lemma ImageStep(t: Tables, s: string, i: nat)
    requires i < |s|
    ensures Image(t, s, i + 1) == Image(t, s, i) + ByteLen(Fold(t, s[i])) > Image(t, s, i)
  {
    hide Fold, Norm, MapBody;
    DocStep(t, s, i);
    ByteLenAppend(Norm(t, s[..i]), Fold(t, s[i]));
    FoldNotEmpty(t, s[i]);
  }

  lemma {:induction false} BodyLen(t: Tables, s: string, at: nat)
    ensures |MapBody(t, s, at)| == ByteLen(Norm(t, s))
    decreases |s|
  {
    hide Fold;
    if s != "" {
      BodyLen(t, s[1..], at + Width(s[0]));
      ByteLenAppend(Fold(t, s[0]), Norm(t, s[1..]));
    }
  }

  /** Every byte of a character's image maps to that character. */
  lemma BodyAt(t: Tables, s: string, i: nat, b: nat)
    requires i < |s| && Image(t, s, i) <= b < Image(t, s, i + 1)
    ensures b < |MapBody(t, s, 0)| && MapBody(t, s, 0)[b] == U32(Offset(s, i))
  {
    hide MapBody, Norm, Fold, U32;
    assert s == s[..i + 1] + s[i + 1..];
    MapBodyAppend(t, s[..i + 1], s[i + 1..], 0);
    DocStep(t, s, i);
    BodyLen(t, s[..i], 0);
    ImageStep(t, s, i);
  }

  /** The character whose image holds byte `b`. */
  lemma {:induction false} Owner(t: Tables, s: string, n: nat, b: nat) returns (i: nat)
    requires n <= |s| && b < Image(t, s, n)
    ensures i < n && Image(t, s, i) <= b < Image(t, s, i + 1)
    decreases n
  {
    hide Norm;
    if n == 0 {
      NoImage(t, s);
    } else if Image(t, s, n - 1) <= b {
      i := n - 1;
    } else {
      i := Owner(t, s, n - 1, b);
    }
  }

  lemma NoImage(t: Tables, s: string)
    ensures Image(t, s, 0) == 0
  {}

  /** What the map holds at byte `b`, if offsets fit into 32 bits. */
  ghost predicate MapsTo(t: Tables, s: string, b: nat, i: nat) {
    && i <= |s| && |SlowDoc(t, s).normToOrig| == ByteLen(Norm(t, s)) + 1
    && b <= ByteLen(Norm(t, s)) && SlowDoc(t, s).normToOrig[b] == Offset(s, i)
  }

  lemma MapAt(t: Tables, s: string, b: nat, i: nat)
    requires ByteLen(s) < 0x1_0000_0000
    requires (i < |s| && Image(t, s, i) <= b < Image(t, s, i + 1)) || (i == |s| && b == Image(t, s, i))
    ensures MapsTo(t, s, b, i)
  {
    hide MapBody, Norm, ByteLen, Fold;
    BodyLen(t, s, 0);
    assert s[..|s|] == s;
    if i < |s| {
      MapInside(t, s, b, i);
    }
  }

  lemma MapInside(t: Tables, s: string, b: nat, i: nat)
    requires ByteLen(s) < 0x1_0000_0000
    requires i < |s| && Image(t, s, i) <= b < Image(t, s, i + 1)
    ensures b < |MapBody(t, s, 0)| && MapBody(t, s, 0)[b] == Offset(s, i)
  {
    hide MapBody, Norm, ByteLen, Image;
    OffsetIsBoundary(s, i);
    BodyAt(t, s, i, b);
  }

  lemma {:induction false} ImageMonotone(t: Tables, s: string, i: nat, j: nat)
    requires i <= j <= |s|
    ensures Image(t, s, i) <= Image(t, s, j) && Offset(s, i) <= Offset(s, j)
    decreases j - i
  {
    hide Norm, ByteLen;
    if i < j {
      ImageMonotone(t, s, i, j - 1);
      ImageStep(t, s, j - 1);
      OffsetStep(s, j - 1);
    }
  }

  /** The image start of character `i` is mapped to it. */
  lemma MapAtImage(t: Tables, s: string, i: nat)
    requires ByteLen(s) < 0x1_0000_0000 && i <= |s|
    ensures MapsTo(t, s, Image(t, s, i), i)
  {
    hide Norm, MapsTo;
    if i < |s| { ImageStep(t, s, i); }
    MapAt(t, s, Image(t, s, i), i);
  }

  /** Every byte of the folded text, and the end, maps to some character. */
  lemma MapAtSome(t: Tables, s: string, b: nat) returns (i: nat)
    requires ByteLen(s) < 0x1_0000_0000 && b <= ByteLen(Norm(t, s))
    ensures MapsTo(t, s, b, i) && Image(t, s, i) <= b && (i < |s| ==> b < Image(t, s, i + 1))
  {
    hide Norm, MapsTo;
    assert s[..|s|] == s;
    if b == Image(t, s, |s|) {
      i := |s|;
    } else {
      i := Owner(t, s, |s|, b);
    }
    MapAt(t, s, b, i);
  }

  /** The offset map: one entry per byte of the folded text and a sentinel, increasing,
      and only character boundaries of the original, so alignment never moves. */
  lemma OffsetMapRight(t: Tables, s: string)
    requires ByteLen(s) < 0x1_0000_0000
    ensures var m := SlowDoc(t, s).normToOrig;
      && |m| == ByteLen(Norm(t, s)) + 1
      && (forall b | 0 <= b < |m| :: IsBoundary(s, m[b]) && AlignForward(s, m[b]) == m[b])
      && (forall a, b | 0 <= a <= b < |m| :: m[a] <= m[b])
  {
    hide Norm, MapBody, IsBoundary, ByteLen, U32;
    var m := SlowDoc(t, s).normToOrig;
    MapAtImage(t, s, 0);
    forall b | 0 <= b < |m| ensures IsBoundary(s, m[b]) && AlignForward(s, m[b]) == m[b] {
      var i := MapAtSome(t, s, b);
      OffsetIsBoundary(s, i);
    }
    forall a, b | 0 <= a <= b < |m| ensures m[a] <= m[b] {
      var i := MapAtSome(t, s, a);
      var j := MapAtSome(t, s, b);
      if j < i { ImageMonotone(t, s, j + 1, i); }
      ImageMonotone(t, s, if i <= j then i else j, j);
    }
  }

  /** A range between images of characters goes back to exactly those characters. */
  lemma ToOriginalOfImages(t: Tables, s: string, i: nat, j: nat)
    requires ByteLen(s) < 0x1_0000_0000 && i <= j <= |s|
    ensures Mapped(SlowDoc(t, s))
    ensures ToOriginal(SlowDoc(t, s), Image(t, s, i), Image(t, s, j)) == Span(Offset(s, i), Offset(s, j))
  {
    hide Norm, MapBody, IsBoundary, ByteLen, U32, Image;
    MapAtImage(t, s, i);
    MapAtImage(t, s, j);
    OffsetMapRight(t, s);
  }

  /** Folding commutes with slicing: the original slice of a range of images folds to
      the folded text of that range. */
  lemma SliceFoldsBack(t: Tables, s: string, i: nat, j: nat)
    requires ByteLen(s) < 0x1_0000_0000 && i <= j <= |s|
    ensures Mapped(SlowDoc(t, s))
    ensures var a, b := Image(t, s, i), Image(t, s, j);
      var span := ToOriginal(SlowDoc(t, s), a, b);
      && span.start <= span.end && IsBoundary(s, span.start) && IsBoundary(s, span.end)
      && a <= b && IsBoundary(Norm(t, s), a) && IsBoundary(Norm(t, s), b)
      && Norm(t, Slice(s, span)) == Slice(Norm(t, s), Span(a, b))
  {
    hide Norm, MapBody, IsBoundary, CharIndex, ByteLen, Image, ToOriginal;
    ToOriginalOfImages(t, s, i, j);
    ImageMonotone(t, s, i, j);
    OffsetIsBoundary(s, i);
    OffsetIsBoundary(s, j);
    ImageIndex(t, s, i);
    ImageIndex(t, s, j);
    var x, y := Norm(t, s[..i]), Norm(t, s[i..j]);
    assert s[..j] == s[..i] + s[i..j];
    NormAppend(t, s[..i], s[i..j]);
    assert s == s[..j] + s[j..];
    NormAppend(t, s[..j], s[j..]);
    assert (x + y + Norm(t, s[j..]))[|x|..|x + y|] == y;
  }

  lemma ImageIndex(t: Tables, s: string, i: nat)
    requires i <= |s|
    ensures IsBoundary(Norm(t, s), Image(t, s, i)) && CharIndex(Norm(t, s), Image(t, s, i)) == |Norm(t, s[..i])|
  {
    hide Norm, IsBoundary, CharIndex, ByteLen;
    assert s == s[..i] + s[i..];
    NormAppend(t, s[..i], s[i..]);
    var n := |Norm(t, s[..i])|;
    assert Norm(t, s)[..n] == Norm(t, s[..i]);
    OffsetIsBoundary(Norm(t, s), n);
  }

  /** Any range, aligned or not: a character whose image lies inside is covered, and a
      character whose image lies outside is not touched. */
  lemma RangeCoversImages(t: Tables, s: string, a: nat, b: nat, i: nat)
    requires ByteLen(s) < 0x1_0000_0000 && a <= b <= ByteLen(Norm(t, s)) && i < |s|
    ensures Mapped(SlowDoc(t, s))
    ensures var span := ToOriginal(SlowDoc(t, s), a, b);
      && (a <= Image(t, s, i) && Image(t, s, i + 1) <= b ==> span.start <= Offset(s, i) && Offset(s, i + 1) <= span.end)
      && (Image(t, s, i + 1) <= a ==> Offset(s, i + 1) <= span.start)
      && (b <= Image(t, s, i) ==> span.end <= Offset(s, i))
  {
    hide Norm, MapBody, IsBoundary, ByteLen, U32, Image;
    OffsetMapRight(t, s);
    MapAtImage(t, s, i);
    MapAtImage(t, s, i + 1);
    var x := MapAtSome(t, s, a);
    var y := MapAtSome(t, s, b);
  }

  // ----- fast path -----

  lemma FastFold(t: Tables, c: char)
    requires IsFast(c)
    ensures Fold(t, c) == [c] && Width(c) == 1
  {
    assert t.nfkc(c) == [c] && t.lower(c) == [c];
    assert [c][1..] == "";
    FastKept(c);
    assert MapChars([c]) == [c];
    assert LowerAll(t, [c]) == [c];
  }

  lemma FastKept(c: char)
    requires IsFast(c)
    ensures NormalizeChar(c) == c && Width(c) == 1
  {}

  lemma {:induction false} FastNorm(t: Tables, s: string)
    requires IsFastText(s)
    ensures Norm(t, s) == s && ByteLen(s) == |s|
  {
    hide Fold, IsFast, Width;
    if s != "" {
      FastFold(t, s[0]);
      FastNorm(t, s[1..]);
      assert s == [s[0]] + s[1..];
    }
  }

  /** `n` entries counting up from `at`. */
  function Counting(at: nat, n: nat): (r: seq<nat>)
    ensures |r| == n && forall i | 0 <= i < n :: r[i] == at + i
  { seq(n, i requires 0 <= i < n => at + i) }

  lemma {:induction false} FastBody(t: Tables, s: string, at: nat)
    requires IsFastText(s) && at + |s| < 0x1_0000_0000
    ensures MapBody(t, s, at) == Counting(at, |s|)
    decreases |s|
  {
    hide Fold, IsFast, Width, ByteLen;
    if s != "" {
      FastFold(t, s[0]);
      FastBody(t, s[1..], at + 1);
      OneByte(s[0]);
      assert Repeat(U32(at), ByteLen(Fold(t, s[0]))) == [at];
      hide MapBody, Counting;
      assert [at] + Counting(at + 1, |s| - 1) == Counting(at, |s|);
    }
  }

  lemma OneByte(c: char)
    ensures ByteLen([c]) == Width(c)
  {
    assert [c][1..] == "";
  }

  /** The fast path refines the general one: same folded text and, on every range inside
      it and on no other, the same translation. */
  lemma FastRefinesSlow(t: Tables, s: string, a: nat, b: nat)
    requires IsFastText(s) && |s| < 0x1_0000_0000
    ensures NewDoc(t, s).norm == SlowDoc(t, s).norm
    ensures Mapped(NewDoc(t, s)) && Mapped(SlowDoc(t, s))
    ensures ToOriginal(NewDoc(t, s), a, b) == ToOriginal(SlowDoc(t, s), a, b) <==> a <= |s| && b <= |s|
  {
    hide Norm, MapBody, ByteLen, IsFast, IsBoundary, AlignForward;
    FastNorm(t, s);
    FastBody(t, s, 0);
    OffsetMapRight(t, s);
    assert SlowDoc(t, s).normToOrig == Counting(0, |s|) + [|s|];
  }

  /** An empty map is the mark of the fast path. */
  lemma EmptyMapIffFast(t: Tables, s: string)
    ensures NewDoc(t, s).normToOrig == [] <==> IsFastText(s)
  {
    hide MapBody;
  }

  /** The end of a general document translates to the end of the original iff the
      original is shorter than 4 GiB: beyond that the stored offsets are truncated. */
  lemma SentinelRightIffShort(t: Tables, s: string)
    ensures SlowDoc(t, s).normToOrig[|MapBody(t, s, 0)|] == ByteLen(s) <==> ByteLen(s) < 0x1_0000_0000
  {
    hide MapBody, ByteLen;
  }

  // ----- ranges that come back empty -----

  /** The range lies inside what one character was folded to, and ends before that does. */
  ghost predicate InsideOneImage(t: Tables, s: string, a: nat, b: nat) {
    exists i: nat :: i < |s| && Image(t, s, i) <= a && b < Image(t, s, i + 1)
  }

  lemma {:induction false} OffsetsIncrease(s: string, i: nat, j: nat)
    requires i < j <= |s|
    ensures Offset(s, i) < Offset(s, j)
    decreases j - i
  {
    hide Offset;
    OffsetStep(s, j - 1);
    if i < j - 1 { OffsetsIncrease(s, i, j - 1); }
  }

  /** In the general document a range that is not empty translates to an empty span exactly if
      it lies inside what one character was folded to and ends before that does. */
  lemma SlowEmptyIff(t: Tables, s: string, a: nat, b: nat)
    requires ByteLen(s) < 0x1_0000_0000 && a < b <= ByteLen(Norm(t, s))
    ensures Mapped(SlowDoc(t, s))
    ensures var span := ToOriginal(SlowDoc(t, s), a, b);
      span.start <= span.end && (span.start == span.end <==> InsideOneImage(t, s, a, b))
  {
    hide Norm, MapBody, IsBoundary, ByteLen, U32, Image, Offset;
    OffsetMapRight(t, s);
    var x := MapAtSome(t, s, a);
    var y := MapAtSome(t, s, b);
    assert s[..|s|] == s && Image(t, s, |s|) == ByteLen(Norm(t, s)) by { WholeImage(t, s); }
    if y < x { ImageMonotone(t, s, y + 1, x); }
    if x < y {
      OffsetsIncrease(s, x, y);
      forall i: nat | i < |s| && Image(t, s, i) <= a && b < Image(t, s, i + 1) ensures false {
        if i < y { ImageMonotone(t, s, i + 1, y); } else { ImageMonotone(t, s, x + 1, i); }
      }
    }
  }

  lemma WholeImage(t: Tables, s: string)
    ensures Image(t, s, |s|) == ByteLen(Norm(t, s))
  {
    assert s[..|s|] == s;
  }

  /** So a detector's range that is not empty gives an empty span exactly there; never on the
      fast path, whose characters are folded to one byte each. */
  lemma EmptySpanIff(t: Tables, s: string, a: nat, b: nat)
    requires ByteLen(s) < 0x1_0000_0000 && a < b <= ByteLen(Norm(t, s))
    ensures Mapped(NewDoc(t, s))
    ensures var span := ToOriginal(NewDoc(t, s), a, b);
      span.start <= span.end && (span.start == span.end <==> InsideOneImage(t, s, a, b))
  {
    hide Norm, MapBody, IsBoundary, ByteLen, Image, SlowDoc, InsideOneImage, ToOriginal, Mapped;
    SlowEmptyIff(t, s, a, b);
    if IsFastText(s) {
      FastNorm(t, s);
      FastRefinesSlow(t, s, a, b);
    }
  }

  // ----- widths, folding and clamping, by code points -----

  /** The lengths of section 3 of RFC 3629. */
  lemma WidthByCodePoint(c: char)
    ensures Width(c) ==
      var n := c as int;
      if n <= 0x7F then 1 else if n <= 0x7FF then 2 else if n <= 0xFFFF then 3 else 4
  {}

  /** After the library's folding: the letter Io loses its dots, dashes become hyphens, spaces
      and the tabulator become blanks, quotation marks become double quotes, and every other
      character stays. */
  lemma FoldByCodePoint(c: char)
    ensures var n := c as int;
      NormalizeChar(c) ==
        if n == 0x451 then '\U{0435}'
        else if 0x2010 <= n <= 0x2015 || n == 0x2212 then '-'
        else if n in {0x09, 0xA0, 0x202F, 0x205F, 0x3000} || 0x2000 <= n <= 0x200A then ' '
        else if n in {0xAB, 0xBB, 0x201C, 0x201D, 0x201E} then '"'
        else c
  {}

  /** The map is left out exactly for printable ASCII without capitals. */
  lemma FastByCodePoint(t: Tables, s: string)
    ensures NewDoc(t, s).normToOrig == [] <==>
      forall i | 0 <= i < |s| :: 0x20 <= s[i] as int <= 0x7E && !(0x41 <= s[i] as int <= 0x5A)
  {
    EmptyMapIffFast(t, s);
    hide SlowDoc;
    forall i | 0 <= i < |s| ensures IsFast(s[i]) <==> 0x20 <= s[i] as int <= 0x7E && !(0x41 <= s[i] as int <= 0x5A) {}
  }

  /** Alignment moves to the next character boundary, or to the end. */
  lemma {:induction false} AlignsToNext(s: string, b: nat)
    requires b <= ByteLen(s)
    ensures var r := AlignForward(s, b);
      && b <= r <= ByteLen(s) && IsBoundary(s, r)
      && forall x | b <= x < r :: !IsBoundary(s, x)
    decreases ByteLen(s) - b
  {
    if b == ByteLen(s) {
      OffsetIsBoundary(s, |s|);
      assert s[..|s|] == s;
    } else if !IsBoundary(s, b) {
      AlignsToNext(s, b + 1);
    }
  }

  /** A range that reaches beyond the folded text is cut off at its end. */
  lemma RangeCutOff(t: Tables, s: string, a: nat, b: nat)
    requires ByteLen(s) < 0x1_0000_0000 && a <= b && ByteLen(Norm(t, s)) <= b
    ensures Mapped(SlowDoc(t, s))
    ensures ToOriginal(SlowDoc(t, s), a, b).end == ByteLen(s)
    ensures ByteLen(Norm(t, s)) <= a ==> ToOriginal(SlowDoc(t, s), a, b).start == ByteLen(s)
  {
    hide Norm, MapBody, IsBoundary, ByteLen, U32;
    OffsetMapRight(t, s);
    SentinelRightIffShort(t, s);
    BodyLen(t, s, 0);
  }

  /** The images of the characters of a text, one after another. */
  function Images(f: char -> string, s: string): string { if s == "" then "" else f(s[0]) + Images(f, s[1..]) }

  lemma {:induction false} ImagesAppend(f: char -> string, a: string, b: string)
    ensures Images(f, a + b) == Images(f, a) + Images(f, b)
  {
    if a == "" {
      assert a + b == b;
    } else {
      assert (a + b)[1..] == a[1..] + b;
      ImagesAppend(f, a[1..], b);
      assert f(a[0]) + (Images(f, a[1..]) + Images(f, b)) == f(a[0]) + Images(f, a[1..]) + Images(f, b);
    }
  }

  /** Folding in one pass is folding the whole text in three: compatibility forms, lower case,
      and the replacement of single characters. */
  lemma {:induction false} FoldInThreePasses(t: Tables, s: string)
    ensures var lowered := Images(t.lower, Images(t.nfkc, s));
      Norm(t, s) == seq(|lowered|, i requires 0 <= i < |lowered| => NormalizeChar(lowered[i]))
  {
    hide NormalizeChar;
    if s != "" {
      var a, b := Images(t.lower, t.nfkc(s[0])), Images(t.lower, Images(t.nfkc, s[1..]));
      FoldInThreePasses(t, s[1..]);
      ImagesAppend(t.lower, t.nfkc(s[0]), Images(t.nfkc, s[1..]));
      LoweredMapped(t, t.nfkc(s[0]));
      MappedPointwise(a);
      assert Images(t.lower, Images(t.nfkc, s)) == a + b;
    }
  }

  lemma {:induction false} LoweredMapped(t: Tables, x: string)
    ensures LowerAll(t, x) == MapChars(Images(t.lower, x))
  {
    if x != "" {
      LoweredMapped(t, x[1..]);
      MapCharsAppend(t.lower(x[0]), Images(t.lower, x[1..]));
    }
  }

  lemma {:induction false} MapCharsAppend(a: string, b: string)
    ensures MapChars(a + b) == MapChars(a) + MapChars(b)
  {
    if a == "" {
      assert a + b == b;
    } else {
      assert (a + b)[1..] == a[1..] + b;
      MapCharsAppend(a[1..], b);
    }
  }

  lemma {:induction false} MappedPointwise(x: string)
    ensures MapChars(x) == seq(|x|, i requires 0 <= i < |x| => NormalizeChar(x[i]))
  {
    hide NormalizeChar;
    if x != "" { MappedPointwise(x[1..]); }
  }
}
