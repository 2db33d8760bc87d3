/** The parser of JSON paths: `$`, `.key`, `["key"]`, `[*]`, `[n]`. It works on bytes
    but looks only at ASCII delimiters, so characters do as well. */
module PathParser {
  import opened Text
  import opened JsonPaths

  const USIZE_MAX: nat := 0xFFFF_FFFF_FFFF_FFFF

  function Trim(space: char -> bool, s: string): (r: string)
    ensures |r| <= |s|
  {
    if s == "" then ""
    else if space(s[0]) then Trim(space, s[1..])
    else if space(s[|s| - 1]) then Trim(space, s[..|s| - 1])
    else s
  }

  predicate EndsDotted(c: char) { c == '.' || c == '[' }

  /** Past a closing bracket, if there is one. */
  function SkipBracket(s: string, i: nat): (j: nat)
    requires i <= |s|
    ensures i <= j <= |s|
  { if i < |s| && s[i] == ']' then i + 1 else i }

  /** A token of the path at `i`: nothing more to read, an error, or the segments read
      (at most one) and where to go on. */
  datatype Token = Bad | Read(segs: seq<Segment>, next: nat)

  function ReadDotted(s: string, i: nat): (r: Token)
    requires i <= |s|
    ensures r.Read? && i <= r.next <= |s|
  {
    var j := RunEnd(c => !EndsDotted(c), s, i);
    Read(if j > i then [Key(s[i..j])] else [], j)
  }

  function ReadQuoted(s: string, i: nat): (r: Token)
    requires i <= |s|
    ensures r.Read? ==> i < r.next <= |s|
  {
    var j := RunEnd(c => c != '"', s, i);
    if j == |s| then Bad else Read([Key(s[i..j])], SkipBracket(s, j + 1))
  }

  function ReadIndex(s: string, i: nat): (r: Token)
    requires i <= |s|
    ensures r.Read? ==> i <= r.next <= |s|
  {
    var j := RunEnd(c => AsciiDigit(c), s, i);
    if j == i then Read([], SkipBracket(s, j))
    else if DecimalValue(s[i..j]) > USIZE_MAX then Bad
    else Read([Index(DecimalValue(s[i..j]))], SkipBracket(s, j))
  }

  function ReadToken(s: string, i: nat): (r: Token)
    requires i < |s|
    ensures r.Read? ==> i < r.next <= |s|
  {
    if s[i] == '.' then ReadDotted(s, i + 1)
    else if s[i] != '[' then Read([], i + 1)
    else if i + 1 < |s| && s[i + 1] == '"' then ReadQuoted(s, i + 2)
    else if i + 1 < |s| && s[i + 1] == '*' then Read([All], SkipBracket(s, i + 2))
    else ReadIndex(s, i + 1)
  }

  function ParseFrom(s: string, i: nat): Option<Path>
    requires i <= |s|
    decreases |s| - i
  {
    if i == |s| then Some([])
    else match ReadToken(s, i)
      case Bad => None
      case Read(segs, next) => Join(segs, ParseFrom(s, next))
  }

  function Join(segs: seq<Segment>, rest: Option<Path>): Option<Path> {
    if rest.None? then None else Some(segs + rest.value)
  }

  function Parsed(space: char -> bool, text: string): Option<Path> {
    var s := Trim(space, text);
    if s == "" || s[0] != '$' then None else ParseFrom(s[1..], 0)
  }

  lemma JoinJoin(a: seq<Segment>, b: seq<Segment>, rest: Option<Path>)
    ensures Join(a, Join(b, rest)) == Join(a + b, rest)
  {
    if rest.Some? { assert a + (b + rest.value) == a + b + rest.value; }
  }

  lemma JoinNothing(rest: Option<Path>)
    ensures Join([], rest) == rest
  {
    if rest.Some? { assert [] + rest.value == rest.value; }
  }

  lemma ParseStep(s: string, i: nat, path: Path)
    requires i < |s|
    ensures Join(path, ParseFrom(s, i)) ==
      match ReadToken(s, i)
      case Bad => None
      case Read(segs, next) => Join(path + segs, ParseFrom(s, next))
  {
    hide ReadToken;
    match ReadToken(s, i)
    case Bad =>
    case Read(segs, next) => JoinJoin(path, segs, ParseFrom(s, next));
  }

  lemma ParseEnd(s: string, path: Path)
    ensures Join(path, ParseFrom(s, |s|)) == Some(path)
  {
    assert path + [] == path;
  }

  /** The index loop of `parse_path`; it always ends. */
  method ParsePath(space: char -> bool, text: string) returns (r: Option<Path>)
    ensures r == Parsed(space, text)
  {
    var s := Trim(space, text);
    if s == "" || s[0] != '$' { return None; }
    hide ParseFrom, ReadToken, Join;
    var rest := s[1..];
    var path: Path := [];
    var i: nat := 0;
    JoinNothing(ParseFrom(rest, 0));
    while i < |rest|
      invariant i <= |rest|
      invariant ParseFrom(rest, 0) == Join(path, ParseFrom(rest, i))
    {
      ParseStep(rest, i, path);
      var token := NextToken(rest, i);
      if token.Bad? { return None; }
      path := path + token.segs;
      i := token.next;
    }
    ParseEnd(rest, path);
    r := Some(path);
  }

  /** One turn of the loop: the match on the current byte. */
  method NextToken(rest: string, at: nat) returns (t: Token)
    requires at < |rest|
    ensures t == ReadToken(rest, at)
  {
    hide RunEnd, DecimalValue;
    var i := at + 1;
    var segs := [];
    if rest[at] == '.' {
      i := RunTo(c => !EndsDotted(c), rest, i);
      if i > at + 1 { segs := [Key(rest[at + 1..i])]; }
    } else if rest[at] == '[' {
      if i < |rest| && rest[i] == '"' {
        i := RunTo(c => c != '"', rest, i + 1);
        if i >= |rest| { return Bad; }
        segs := [Key(rest[at + 2..i])];
        i := i + 1;
      } else if i < |rest| && rest[i] == '*' {
        segs := [All];
        i := i + 1;
      } else {
        i := RunTo(c => AsciiDigit(c), rest, i);
        if i > at + 1 {
          var n := DecimalValue(rest[at + 1..i]);
          if n > USIZE_MAX { return Bad; }
          segs := [Index(n)];
        }
      }
      if i < |rest| && rest[i] == ']' { i := i + 1; }
    }
    t := Read(segs, i);
  }

  /** The inner scanning loops. */
  method RunTo(p: char -> bool, s: string, start: nat) returns (i: nat)
    requires start <= |s|
    ensures i == RunEnd(p, s, start)
  {
    i := start;
    while i < |s| && p(s[i])
      invariant start <= i <= |s| && RunEnd(p, s, start) == RunEnd(p, s, i)
    {
      i := i + 1;
    }
  }

  // ----- printing -----

  /** A segment and whether its key is written with a dot. */
  datatype Written = Written(seg: Segment, dotted: bool)

  function PrintOne(w: Written): string {
    match w.seg
    case Key(k) => if w.dotted then "." + k else "[\"" + k + "\"]"
    case Index(n) => "[" + Decimal(n) + "]"
    case All => "[*]"
  }

  function Print(ws: seq<Written>): string {
    if ws == [] then "" else PrintOne(ws[0]) + Print(ws[1..])
  }

  function SegmentsOf(ws: seq<Written>): Path {
    if ws == [] then [] else [ws[0].seg] + SegmentsOf(ws[1..])
  }

  ghost predicate Free(s: string, p: char -> bool) { forall i | 0 <= i < |s| :: !p(s[i]) }

  /** What can be written: a dotted key is not empty and has no dot or opening bracket, a
      bracketed key has no double quote, an index fits into 64 bits. */
  ghost predicate Writable(w: Written) {
    match w.seg
    case Key(k) => if w.dotted then k != "" && Free(k, c => EndsDotted(c)) else Free(k, c => c == '"')
    case Index(n) => n <= 0xFFFF_FFFF_FFFF_FFFF
    case All => true
  }

  /** Written segments begin with a delimiter, so the text after one ends it. */
  ghost predicate Delimited(rest: string) { rest == "" || EndsDotted(rest[0]) }

  lemma PrintDelimited(ws: seq<Written>)
    ensures Delimited(Print(ws))
  {}

  lemma RunTill(p: char -> bool, s: string, i: nat, body: string, rest: string)
    requires i <= |s| && s[i..] == body + rest
    requires (forall x | 0 <= x < |body| :: p(body[x])) && (rest == "" || !p(rest[0]))
    ensures RunEnd(p, s, i) == i + |body| && s[i..i + |body|] == body
    ensures s[i + |body|..] == rest
  {
    assert s[i..i + |body|] == s[i..][..|body|] == body;
    assert s[i + |body|..] == s[i..][|body|..] == rest;
    assert forall x | i <= x < i + |body| :: s[x] == body[x - i];
    assert i + |body| < |s| ==> s[i + |body|] == rest[0];
  }

  lemma ReadWrittenDotted(s: string, i: nat, k: string, rest: string)
    requires i <= |s| && k != "" && Free(k, c => EndsDotted(c)) && Delimited(rest)
    requires s[i..] == "." + k + rest
    ensures i < |s| && ReadToken(s, i) == Read([Key(k)], i + |"." + k|)
  {
    hide RunEnd;
    assert s[i] == s[i..][0] == '.';
    assert s[i + 1..] == s[i..][1..] == k + rest;
    RunTill(c => !EndsDotted(c), s, i + 1, k, rest);
  }

  lemma ReadWrittenQuoted(s: string, i: nat, k: string, rest: string)
    requires i <= |s| && Free(k, c => c == '"')
    requires s[i..] == "[\"" + k + "\"]" + rest
    ensures i < |s| && ReadToken(s, i) == Read([Key(k)], i + |"[\"" + k + "\"]"|)
  {
    hide RunEnd;
    assert s[i..] == "[\"" + (k + ("\"]" + rest));
    assert s[i] == s[i..][0] == '[' && s[i + 1] == s[i..][1] == '"';
    assert s[i + 2..] == s[i..][2..] == k + ("\"]" + rest);
    RunTill(c => c != '"', s, i + 2, k, "\"]" + rest);
    assert s[i + 2 + |k| + 1] == s[i + 2 + |k|..][1] == ']';
  }

  lemma ReadWrittenIndex(s: string, i: nat, n: nat, rest: string)
    requires i <= |s| && n <= USIZE_MAX && s[i..] == "[" + Decimal(n) + "]" + rest
    ensures i < |s| && ReadToken(s, i) == Read([Index(n)], i + |"[" + Decimal(n) + "]"|)
  {
    hide RunEnd, Decimal, DecimalValue, ReadIndex;
    var d := Decimal(n);
    assert s[i..] == "[" + (d + ("]" + rest));
    assert s[i] == s[i..][0] == '[';
    assert s[i + 1..] == s[i..][1..] == d + ("]" + rest);
    assert AsciiDigit(d[0]) && s[i + 1] == s[i + 1..][0] == d[0];
    ReadDigits(s, i + 1, n, rest);
  }

  lemma ReadDigits(s: string, i: nat, n: nat, rest: string)
    requires i <= |s| && n <= USIZE_MAX && s[i..] == Decimal(n) + ("]" + rest)
    ensures ReadIndex(s, i) == Read([Index(n)], i + |Decimal(n)| + 1)
  {
    hide RunEnd, Decimal, DecimalValue;
    var d := Decimal(n);
    RunTill(c => AsciiDigit(c), s, i, d, "]" + rest);
    DecimalRoundTrip(n);
    assert s[i + |d|] == s[i + |d|..][0] == ']';
  }

  lemma ReadWrittenAll(s: string, i: nat, rest: string)
    requires i <= |s| && s[i..] == "[*]" + rest
    ensures i < |s| && ReadToken(s, i) == Read([All], i + 3)
  {
    assert s[i] == s[i..][0] && s[i + 1] == s[i..][1] && s[i + 2] == s[i..][2];
  }

  lemma ReadWritten(s: string, i: nat, w: Written, rest: string)
    requires i <= |s| && Writable(w) && Delimited(rest) && s[i..] == PrintOne(w) + rest
    ensures i < |s| && ReadToken(s, i) == Read([w.seg], i + |PrintOne(w)|)
  {
    hide ReadToken, Decimal;
    match w.seg
    case Key(k) => if w.dotted { ReadWrittenDotted(s, i, k, rest); } else { ReadWrittenQuoted(s, i, k, rest); }
    case Index(n) => ReadWrittenIndex(s, i, n, rest);
    case All => ReadWrittenAll(s, i, rest);
  }

  lemma {:induction false} ParsePrinted(s: string, i: nat, ws: seq<Written>)
    requires i <= |s| && s[i..] == Print(ws) && forall x | 0 <= x < |ws| :: Writable(ws[x])
    ensures ParseFrom(s, i) == Some(SegmentsOf(ws))
    decreases |ws|
  {
    hide ReadToken, PrintOne, Writable, Delimited;
    if ws != [] {
      var w := ws[0];
      var n := i + |PrintOne(w)|;
      PrintDelimited(ws[1..]);
      ReadWritten(s, i, w, Print(ws[1..]));
      assert s[n..] == s[i..][|PrintOne(w)|..] == Print(ws[1..]);
      ParsePrinted(s, n, ws[1..]);
    }
  }

  /** Parsing inverts printing, for dotted, bracketed and mixed paths; only trailing
      white space of a final dotted key would be lost. */
  lemma ParseInvertsPrint(space: char -> bool, ws: seq<Written>)
    requires forall x | 0 <= x < |ws| :: Writable(ws[x])
    requires !space('$') && var s := "$" + Print(ws); !space(s[|s| - 1])
    ensures Parsed(space, "$" + Print(ws)) == Some(SegmentsOf(ws))
  {
    hide Print, Writable;
    var s := "$" + Print(ws);
    assert s[1..] == Print(ws) && s[1..][0..] == s[1..];
    ParsePrinted(s[1..], 0, ws);
  }

  // ----- what is not a token -----

  /** Characters outside tokens are passed over. */
  lemma {:induction false} JunkIgnored(junk: string, s: string, i: nat, ws: seq<Written>)
    requires Free(junk, c => EndsDotted(c)) && i <= |junk| && s == junk + Print(ws)
    requires forall x | 0 <= x < |ws| :: Writable(ws[x])
    ensures ParseFrom(s, i) == Some(SegmentsOf(ws))
    decreases |junk| - i
  {
    hide Print, Writable, ReadToken, ParseFrom;
    if i == |junk| {
      assert s[i..] == Print(ws);
      ParsePrinted(s, i, ws);
    } else {
      assert s[i] == junk[i];
      JunkRead(s, i);
      JunkIgnored(junk, s, i + 1, ws);
    }
  }

  lemma JunkRead(s: string, i: nat)
    requires i < |s| && !EndsDotted(s[i])
    ensures ParseFrom(s, i) == ParseFrom(s, i + 1)
  {
    JoinNothing(ParseFrom(s, i + 1));
  }

  /** Blanks around a path do not matter. */
  lemma {:induction false} TrimFront(space: char -> bool, a: string, s: string)
    requires forall i | 0 <= i < |a| :: space(a[i])
    ensures Trim(space, a + s) == Trim(space, s)
    decreases |a|
  {
    if a == "" {
      assert a + s == s;
    } else {
      assert (a + s)[0] == a[0] && (a + s)[1..] == a[1..] + s;
      TrimFront(space, a[1..], s);
    }
  }

  lemma {:induction false} TrimBack(space: char -> bool, s: string, b: string)
    requires (forall i | 0 <= i < |b| :: space(b[i])) && s != "" && !space(s[0])
    ensures Trim(space, s + b) == Trim(space, s)
    decreases |b|
  {
    if b == "" {
      assert s + b == s;
    } else {
      var n := |s + b| - 1;
      assert (s + b)[n] == b[|b| - 1] && (s + b)[..n] == s + b[..|b| - 1];
      TrimBack(space, s, b[..|b| - 1]);
    }
  }

  lemma BlanksIgnored(space: char -> bool, a: string, s: string, b: string)
    requires (forall i | 0 <= i < |a| :: space(a[i])) && (forall i | 0 <= i < |b| :: space(b[i]))
    requires s != "" && !space(s[0])
    ensures Parsed(space, a + (s + b)) == Parsed(space, s)
  {
    hide Trim, ParseFrom;
    TrimFront(space, a, s + b);
    TrimBack(space, s, b);
  }

  /** A path that does not begin with the dollar sign is none. */
  lemma NoDollar(space: char -> bool, s: string)
    requires s != "" && !space(s[0]) && s[0] != '$'
    ensures Parsed(space, s) == None
  {
    TrimKeepsFirst(space, s);
    hide Trim, ParseFrom;
  }

  lemma {:induction false} TrimKeepsFirst(space: char -> bool, s: string)
    requires s != "" && !space(s[0])
    ensures Trim(space, s) != "" && Trim(space, s)[0] == s[0]
    decreases |s|
  {
    if space(s[|s| - 1]) { TrimKeepsFirst(space, s[..|s| - 1]); }
  }

  /** A bracket with a quote that is not closed, or with an index beyond 64 bits. */
  ghost predicate Broken(s: string) {
    || (exists k :: s == "[\"" + k && '"' !in k)
    || (exists n :: s == "[" + Decimal(n) + "]" && n > 0xFFFF_FFFF_FFFF_FFFF)
  }

  lemma BrokenStarts(bad: string)
    requires Broken(bad)
    ensures bad != "" && bad[0] == '['
  {
    hide Decimal;
  }

  /** It makes the whole path invalid. */
  lemma {:induction false} BadTail(s: string, i: nat, ws: seq<Written>, bad: string)
    requires i <= |s| && s[i..] == Print(ws) + bad && (forall x | 0 <= x < |ws| :: Writable(ws[x]))
    requires Broken(bad)
    ensures ParseFrom(s, i) == None
    decreases |ws|
  {
    hide ReadToken, PrintOne, Writable, Delimited, Broken;
    BrokenStarts(bad);
    if ws == [] {
      assert s[i..] == bad;
      BadRead(s, i, bad);
    } else {
      var w := ws[0];
      var n := i + |PrintOne(w)|;
      var rest := Print(ws[1..]) + bad;
      assert s[i..] == PrintOne(w) + rest;
      TailDelimited(ws[1..], bad);
      ReadWritten(s, i, w, rest);
      assert s[n..] == s[i..][|PrintOne(w)|..] == rest;
      hide Print;
      BadTail(s, n, ws[1..], bad);
    }
  }

  lemma TailDelimited(ws: seq<Written>, bad: string)
    requires bad != "" && bad[0] == '['
    ensures Delimited(Print(ws) + bad)
  {
    PrintDelimited(ws);
    hide PrintOne;
    if Print(ws) == "" { assert Print(ws) + bad == bad; }
  }

  lemma BadRead(s: string, i: nat, bad: string)
    requires i <= |s| && s[i..] == bad
    requires Broken(bad)
    ensures i < |s| && ReadToken(s, i) == Bad
  {
    hide Decimal, DecimalValue, RunEnd;
    if exists k :: bad == "[\"" + k && '"' !in k {
      var k :| bad == "[\"" + k && '"' !in k;
      assert s[i] == s[i..][0] == '[' && s[i + 1] == s[i..][1] == '"' && s[i + 2..] == s[i..][2..] == k;
      assert k + "" == k;
      RunTill(c => c != '"', s, i + 2, k, "");
    } else {
      var n :| bad == "[" + Decimal(n) + "]" && n > 0xFFFF_FFFF_FFFF_FFFF;
      var d := Decimal(n);
      assert s[i] == s[i..][0] == '[' && s[i + 1..] == s[i..][1..] == d + "]";
      assert AsciiDigit(d[0]) && s[i + 1] == s[i + 1..][0] == d[0];
      RunTill(c => AsciiDigit(c), s, i + 1, d, "]");
      DecimalRoundTrip(n);
    }
  }

  /** Closing brackets may be missing, and empty keys and indices give no segment: what is read,
      and that reading goes on with `rest`. */
  lemma LooseTokens(s: string, i: nat, w: Written, rest: string)
    requires i <= |s| && Writable(w) && (rest == "" || !(rest[0] == ']' || AsciiDigit(rest[0])))
    requires s[i..] == LoosePrint(w) + rest && (w.dotted ==> Delimited(rest))
    ensures ParseFrom(s, i) == Join(if w.dotted then [] else [w.seg], ParseFrom(s, i + |LoosePrint(w)|))
  {
    hide Decimal, DecimalValue, RunEnd, ParseFrom;
    LooseRead(s, i, w, rest);
    hide ReadToken, Writable;
    ParseStep(s, i, []);
    JoinNothing(ParseFrom(s, i));
    assert [] + [w.seg] == [w.seg];
  }

  /** A segment without its closing bracket; the dot or empty brackets for a dotted one. */
  function LoosePrint(w: Written): string {
    if w.dotted then (if w.seg.Key? then "." else "[]")
    else match w.seg
      case Key(k) => "[\"" + k + "\""
      case Index(n) => "[" + Decimal(n)
      case All => "[*"
  }

  lemma LooseEmpty(s: string, i: nat, rest: string)
    requires i <= |s|
    ensures s[i..] == "." + rest && Delimited(rest) ==> i < |s| && ReadToken(s, i) == Read([], i + 1)
    ensures s[i..] == "[]" + rest ==> i < |s| && ReadToken(s, i) == Read([], i + 2)
  {
    hide DecimalValue, RunEnd;
    if s[i..] == "." + rest && Delimited(rest) {
      assert s[i] == s[i..][0] && s[i + 1..] == s[i..][1..] == "" + rest;
      RunTill(c => !EndsDotted(c), s, i + 1, "", rest);
    }
    if s[i..] == "[]" + rest {
      assert s[i] == s[i..][0] && s[i + 1] == s[i..][1] == ']';
      assert s[i + 1..] == s[i..][1..] == "" + ("]" + rest);
      RunTill(c => AsciiDigit(c), s, i + 1, "", "]" + rest);
    }
  }

  lemma LooseQuoted(s: string, i: nat, k: string, rest: string)
    requires i <= |s| && Free(k, c => c == '"') && (rest == "" || rest[0] != ']')
    requires s[i..] == "[\"" + k + "\"" + rest
    ensures i < |s| && ReadToken(s, i) == Read([Key(k)], i + |"[\"" + k + "\""|)
  {
    hide RunEnd;
    assert s[i..] == "[\"" + (k + ("\"" + rest));
    assert s[i] == s[i..][0] == '[' && s[i + 1] == s[i..][1] == '"';
    assert s[i + 2..] == s[i..][2..] == k + ("\"" + rest);
    RunTill(c => c != '"', s, i + 2, k, "\"" + rest);
    assert s[i + 2 + |k| + 1..] == s[i + 2 + |k|..][1..] == rest;
  }

  lemma LooseIndex(s: string, i: nat, n: nat, rest: string)
    requires i <= |s| && n <= 0xFFFF_FFFF_FFFF_FFFF && s[i..] == "[" + Decimal(n) + rest
    requires rest == "" || !(rest[0] == ']' || AsciiDigit(rest[0]))
    ensures i < |s| && ReadToken(s, i) == Read([Index(n)], i + |"[" + Decimal(n)|)
  {
    hide RunEnd, Decimal, DecimalValue;
    var d := Decimal(n);
    assert s[i..] == "[" + (d + rest);
    assert s[i] == s[i..][0] == '[';
    assert s[i + 1..] == s[i..][1..] == d + rest;
    assert AsciiDigit(d[0]) && s[i + 1] == s[i + 1..][0] == d[0];
    RunTill(c => AsciiDigit(c), s, i + 1, d, rest);
    DecimalRoundTrip(n);
    assert s[i + 1 + |d|..] == rest;
  }

  lemma LooseRead(s: string, i: nat, w: Written, rest: string)
    requires i <= |s| && Writable(w) && (rest == "" || !(rest[0] == ']' || AsciiDigit(rest[0])))
    requires s[i..] == LoosePrint(w) + rest && (w.dotted ==> Delimited(rest))
    ensures i < |s| && ReadToken(s, i) == Read(if w.dotted then [] else [w.seg], i + |LoosePrint(w)|)
  {
    hide Decimal, ReadToken;
    LooseEmpty(s, i, rest);
    if !w.dotted {
      match w.seg
      case Key(k) => LooseQuoted(s, i, k, rest);
      case Index(n) => LooseIndex(s, i, n, rest);
      case All => LooseAll(s, i, rest);
    }
  }

  lemma LooseAll(s: string, i: nat, rest: string)
    requires i <= |s| && s[i..] == "[*" + rest && (rest == "" || rest[0] != ']')
    ensures i < |s| && ReadToken(s, i) == Read([All], i + 2)
  {
    assert s[i] == s[i..][0] && s[i + 1] == s[i..][1] && s[i + 2..] == s[i..][2..] == rest;
  }
}
