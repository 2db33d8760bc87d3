/** The Luhn check (ISO/IEC 7812-1, Annex B), the 12-digit INN check, and the generators of
    synthetic values that must pass them. */
module Checksums {
  import opened Text
  import opened Canonical

  type Digit = d: nat | d < 10

  function ToDigit(c: char): Digit
    requires AsciiDigit(c)
  { DigitValue(c) }

  function ValuesOf(s: string): seq<Digit>
    requires forall i | 0 <= i < |s| :: AsciiDigit(s[i])
  { seq(|s|, i requires 0 <= i < |s| => ToDigit(s[i])) }

  function TextOf(ds: seq<Digit>): (s: string)
    ensures |s| == |ds| && forall i | 0 <= i < |s| :: AsciiDigit(s[i])
  { seq(|ds|, i requires 0 <= i < |ds| => DigitChar(ds[i])) }

  lemma TextValues(ds: seq<Digit>)
    ensures ValuesOf(TextOf(ds)) == ds
  {
    assert forall i | 0 <= i < |ds| :: ValuesOf(TextOf(ds))[i] == ds[i];
  }

  // ----- Luhn -----

  function Contribution(d: Digit, double: bool): Digit {
    if !double then d else if 2 * d > 9 then 2 * d - 9 else 2 * d
  }

  /** Sum from the right, the last digit doubled or not. */
  function LuhnSum(ds: seq<Digit>, double: bool): nat
    decreases |ds|
  {
    if ds == [] then 0
    else Contribution(ds[|ds| - 1], double) + LuhnSum(ds[..|ds| - 1], !double)
  }

  predicate LuhnOk(ds: seq<Digit>) { LuhnSum(ds, false) % 10 == 0 }

  predicate AllDigits(s: string) { forall i | 0 <= i < |s| :: AsciiDigit(s[i]) }

  predicate LuhnValid(s: string) { AllDigits(s) && LuhnOk(ValuesOf(s)) }

  lemma SumSuffix(s: string, i: nat, double: bool)
    requires i < |s| && AllDigits(s[i..])
    ensures AllDigits(s[i + 1..])
    ensures ValuesOf(s[i..]) == [ToDigit(s[i])] + ValuesOf(s[i + 1..])
  {
    assert s[i..][0] == s[i] && s[i..][1..] == s[i + 1..];
  }

  /** The loop from the right with its sum and its doubling flag. */
  method CheckLuhn(s: string) returns (ok: bool)
    ensures ok == LuhnValid(s)
  {
    var sum: nat, double := 0, false;
    var i := |s|;
    while i > 0
      invariant 0 <= i <= |s| && AllDigits(s[i..])
      invariant double == ((|s| - i) % 2 == 1)
      invariant sum == LuhnSum(ValuesOf(s[i..]), false)
    {
      i := i - 1;
      if !AsciiDigit(s[i]) { return false; }
      AllDigitsCons(s, i);
      SumSuffix(s, i, double);
      var d: nat := ToDigit(s[i]);
      LuhnSplit([d], ValuesOf(s[i + 1..]), false);
      if double {
        d := d * 2;
        if d > 9 { d := d - 9; }
      }
      assert LuhnSum([ToDigit(s[i])], double) == d;
      sum := sum + d;
      double := !double;
    }
    assert s[0..] == s;
    ok := sum % 10 == 0;
  }

  lemma AllDigitsCons(s: string, i: nat)
    requires i < |s| && AsciiDigit(s[i]) && AllDigits(s[i + 1..])
    ensures AllDigits(s[i..])
  {
    forall j | 0 <= j < |s[i..]| ensures AsciiDigit(s[i..][j]) {
      if j > 0 { assert s[i..][j] == s[i + 1..][j - 1]; }
    }
  }

  /** The sum of a concatenation: the doubling of the left part depends on how many digits follow. */
  lemma {:induction false} LuhnSplit(a: seq<Digit>, b: seq<Digit>, double: bool)
    ensures LuhnSum(a + b, double) == LuhnSum(a, double != (|b| % 2 == 1)) + LuhnSum(b, double)
    decreases |b|
  {
    hide Contribution;
    if b == [] {
      assert a + b == a;
    } else {
      assert (a + b)[..|a + b| - 1] == a + b[..|b| - 1];
      LuhnSplit(a, b[..|b| - 1], !double);
    }
  }

  /** The check digit the synthetic card generator appends. */
  function CheckDigit(ds: seq<Digit>): Digit { (10 - LuhnSum(ds, true) % 10) % 10 }

  /** Appending a digit makes a number valid iff it is the check digit, at any length. */
  lemma CheckDigitUnique(ds: seq<Digit>, c: Digit)
    ensures LuhnOk(ds + [c]) <==> c == CheckDigit(ds)
  {
    hide LuhnSum;
    LuhnSplit(ds, [c], false);
    SumOfOne(c, false);
    Complement(LuhnSum(ds, true), c);
  }

  lemma Complement(n: nat, c: Digit)
    ensures (n + c) % 10 == 0 <==> c == (10 - n % 10) % 10
  {
    var m := n % 10;
    assert (n + c) % 10 == (m + c) % 10 by { assert n + c == 10 * (n / 10) + (m + c); }
    SmallComplement(m, c);
  }

  lemma SmallComplement(m: Digit, c: Digit)
    ensures (m + c) % 10 == 0 <==> c == (10 - m) % 10
  {}

  lemma ContributionInjective(a: Digit, b: Digit, double: bool)
    ensures Contribution(a, double) == Contribution(b, double) ==> a == b
  {}

  lemma SmallDifference(rest: nat, x: Digit, y: Digit)
    requires (rest + x) % 10 == 0 && (rest + y) % 10 == 0
    ensures x == y
  {}

  /** Every single-digit error is caught. */
  lemma SingleErrorCaught(a: seq<Digit>, x: Digit, y: Digit, b: seq<Digit>)
    requires LuhnOk(a + [x] + b) && x != y
    ensures !LuhnOk(a + [y] + b)
  {
    hide Contribution;
    var odd := |b| % 2 == 1;
    LuhnSplit(a + [x], b, false);
    LuhnSplit(a + [y], b, false);
    LuhnSplit(a, [x], odd);
    LuhnSplit(a, [y], odd);
    SumOfOne(x, odd);
    SumOfOne(y, odd);
    ContributionInjective(x, y, odd);
    if LuhnOk(a + [y] + b) {
      SmallDifference(LuhnSum(a, !odd) + LuhnSum(b, false), Contribution(x, odd), Contribution(y, odd));
    }
  }

  lemma SumOfOne(x: Digit, double: bool)
    ensures LuhnSum([x], double) == Contribution(x, double)
  {
    assert [x][..0] == [];
  }

  lemma SumOfTwo(x: Digit, y: Digit, double: bool)
    ensures LuhnSum([x, y], double) == Contribution(x, !double) + Contribution(y, double)
  {
    assert [x, y] == [x] + [y];
    LuhnSplit([x], [y], double);
    SumOfOne(x, !double);
    SumOfOne(y, double);
  }

  lemma PairSwap(x: Digit, y: Digit, double: bool, rest: nat)
    requires (rest + (Contribution(x, !double) + Contribution(y, double))) % 10 == 0
    ensures (rest + (Contribution(y, !double) + Contribution(x, double))) % 10 == 0 <==> x == y || {x, y} == {0, 9}
  {
    var p, q := Contribution(x, !double) + Contribution(y, double), Contribution(y, !double) + Contribution(x, double);
    PairDifference(x, y, double);
    hide Contribution;
    SameRemainder(rest, p, q);
    assert {x, y} == {0, 9} ==> 0 in {x, y} && 9 in {x, y};
  }

  lemma PairDifference(x: Digit, y: Digit, double: bool)
    ensures var p := Contribution(x, !double) + Contribution(y, double);
      var q := Contribution(y, !double) + Contribution(x, double);
      (p - q) % 10 == 0 <==> x == y || (x == 0 && y == 9) || (x == 9 && y == 0)
  {}

  lemma SameRemainder(rest: nat, p: nat, q: nat)
    requires (rest + p) % 10 == 0
    ensures (rest + q) % 10 == 0 <==> (p - q) % 10 == 0
  {}

  /** Every swap of two adjacent different digits is caught, except 0 and 9. */
  lemma AdjacentSwapCaught(a: seq<Digit>, x: Digit, y: Digit, b: seq<Digit>)
    requires LuhnOk(a + [x, y] + b)
    ensures LuhnOk(a + [y, x] + b) <==> x == y || {x, y} == {0, 9}
  {
    hide Contribution;
    var odd := |b| % 2 == 1;
    LuhnSplit(a + [x, y], b, false);
    LuhnSplit(a + [y, x], b, false);
    LuhnSplit(a, [x, y], odd);
    LuhnSplit(a, [y, x], odd);
    SumOfTwo(x, y, odd);
    SumOfTwo(y, x, odd);
    PairSwap(x, y, odd, LuhnSum(a, odd) + LuhnSum(b, false));
  }

  // ----- synthetic cards -----

  /** Groups of four, separated by spaces. */
  function Grouped(s: string): string
    decreases |s|
  {
    if |s| <= 4 then s else s[..4] + " " + Grouped(s[4..])
  }

  lemma {:induction false} DigitsOfDigits(s: string)
    requires AllDigits(s)
    ensures DigitsOf(s) == s
  {
    if s != "" { DigitsOfDigits(s[1..]); }
  }

  lemma {:induction false} DigitsOfGrouped(s: string)
    requires AllDigits(s)
    ensures DigitsOf(Grouped(s)) == s
    decreases |s|
  {
    if |s| <= 4 {
      DigitsOfDigits(s);
    } else {
      DigitsOfGrouped(s[4..]);
      DigitsOfDigits(s[..4]);
      DigitsAppend(s[..4] + " ", Grouped(s[4..]));
      DigitsAppend(s[..4], " ");
      assert " "[1..] == "" && DigitsOf(" ") == "";
      assert s == s[..4] + s[4..];
    }
  }

  /** The synthetic card for a seed: fifteen digits and the check digit, in groups. */
  function SyntheticCard(ds: seq<Digit>): string { Grouped(TextOf(ds + [CheckDigit(ds)])) }

  /** The digits of a generated card pass the Luhn check, grouped as they are. */
  lemma SyntheticCardValid(ds: seq<Digit>)
    ensures LuhnValid(DigitsOf(SyntheticCard(ds)))
  {
    hide LuhnOk, TextOf;
    var full := ds + [CheckDigit(ds)];
    CheckDigitUnique(ds, CheckDigit(ds));
    DigitsOfGrouped(TextOf(full));
    TextValues(full);
  }

  /** The `n` lowest decimal digits of a seed, lowest first. */
  function SeedDigits(seed: nat, n: nat): (ds: seq<Digit>)
    ensures |ds| == n
  {
    if n == 0 then [] else [seed % 10] + SeedDigits(seed / 10, n - 1)
  }

  function PowerOfTen(n: nat): nat { if n == 0 then 1 else 10 * PowerOfTen(n - 1) }

  /** The number that digits make, the lowest first. */
  function NumberOf(ds: seq<Digit>): nat { if ds == [] then 0 else ds[0] + 10 * NumberOf(ds[1..]) }

  /** They are the seed's lowest digits: what remains of it is a multiple of their power of ten. */
  lemma {:induction false} SeedDigitsOfSeed(seed: nat, n: nat) returns (q: nat)
    ensures NumberOf(SeedDigits(seed, n)) < PowerOfTen(n)
    ensures seed == NumberOf(SeedDigits(seed, n)) + q * PowerOfTen(n)
  {
    if n == 0 {
      q := seed;
    } else {
      q := SeedDigitsOfSeed(seed / 10, n - 1);
      var low := SeedDigits(seed / 10, n - 1);
      assert SeedDigits(seed, n) == [seed % 10] + low;
      assert ([seed % 10] + low)[1..] == low;
      hide SeedDigits;
      TenTimes(q, PowerOfTen(n - 1));
    }
  }

  lemma TenTimes(q: nat, p: nat)
    ensures q * (10 * p) == 10 * (q * p)
  {}

  /** The loop that turns a seed into digits. */
  method DigitsFromSeed(seed: nat, n: nat) returns (ds: seq<Digit>)
    ensures ds == SeedDigits(seed, n)
  {
    ds := [];
    var s := seed;
    for i := 0 to n
      invariant SeedDigits(seed, n) == ds + SeedDigits(s, n - i)
    {
      assert ds + ([s % 10] + SeedDigits(s / 10, n - i - 1)) == ds + [s % 10] + SeedDigits(s / 10, n - i - 1);
      ds := ds + [s % 10];
      s := s / 10;
    }
  }

  /** The generator's own sum, which begins by doubling. */
  method CheckDigitOf(ds: seq<Digit>) returns (check: Digit)
    ensures check == CheckDigit(ds)
  {
    var sum: nat, double := 0, true;
    var i := |ds|;
    assert ds[..i] == ds;
    while i > 0
      invariant 0 <= i <= |ds|
      invariant LuhnSum(ds, true) == LuhnSum(ds[..i], double) + sum
    {
      i := i - 1;
      assert ds[..i + 1][..i] == ds[..i];
      var d: nat := ds[i];
      if double {
        d := d * 2;
        if d > 9 { d := d - 9; }
      }
      assert d == Contribution(ds[i], double);
      sum := sum + d;
      double := !double;
    }
    check := (10 - sum % 10) % 10;
  }

  lemma GroupStep(s: string, i: nat)
    requires i < |s|
    ensures i + 4 >= |s| ==> Grouped(s[i..]) == s[i..]
    ensures i + 4 < |s| ==> Grouped(s[i..]) == s[i..i + 4] + " " + Grouped(s[i + 4..])
  {
    if i + 4 < |s| { assert s[i..][..4] == s[i..i + 4] && s[i..][4..] == s[i + 4..]; }
  }

  lemma FourTexts(a: string, b: string, c: string, d: string)
    ensures a + (b + c + d) == a + b + c + d
  {}

  /** `chunks(4)` joined by spaces. */
  method JoinGroups(s: string) returns (out: string)
    requires s != ""
    ensures out == Grouped(s)
  {
    hide Grouped;
    out := "";
    var i: nat := 0;
    assert s[0..] == s && "" + Grouped(s) == Grouped(s);
    while i + 4 < |s|
      invariant i < |s| && Grouped(s) == out + Grouped(s[i..])
    {
      GroupStep(s, i);
      FourTexts(out, s[i..i + 4], " ", Grouped(s[i + 4..]));
      out := out + s[i..i + 4] + " ";
      i := i + 4;
    }
    GroupStep(s, i);
    out := out + s[i..];
  }

  /** A synthetic card number: sixteen digits in four groups that pass the Luhn check. */
  method GenerateCard(seed: nat) returns (card: string)
    ensures card == SyntheticCard(SeedDigits(seed, 15))
    ensures LuhnValid(DigitsOf(card)) && |DigitsOf(card)| == 16 && |card| == 19
  {
    hide LuhnValid, Grouped, DigitsOf, CheckDigit;
    var ds := DigitsFromSeed(seed, 15);
    var check := CheckDigitOf(ds);
    card := JoinGroups(TextOf(ds + [check]));
    SyntheticCardValid(ds);
    DigitsOfGrouped(TextOf(ds + [check]));
    FourGroups(TextOf(ds + [check]));
  }

  lemma FourGroups(s: string)
    requires |s| == 16
    ensures |Grouped(s)| == 19
  {
    assert |s[4..][4..][4..]| == 4;
    assert Grouped(s[4..][4..]) == s[4..][4..][..4] + " " + Grouped(s[4..][4..][4..]);
    assert Grouped(s[4..]) == s[4..][..4] + " " + Grouped(s[4..][4..]);
  }

  // ----- INN -----

  const WEIGHTS_1: seq<nat> := [7, 2, 4, 10, 3, 5, 9, 4, 6, 8]
  const WEIGHTS_2: seq<nat> := [3, 7, 2, 4, 10, 3, 5, 9, 4, 6, 8]

  /** Products of weights and digits, as far as both go. */
  function Weighted(ks: seq<nat>, ds: seq<Digit>): nat
    decreases |ks|
  {
    if ks == [] || ds == [] then 0 else ks[0] * ds[0] + Weighted(ks[1..], ds[1..])
  }

  function Control(ks: seq<nat>, ds: seq<Digit>): Digit { Weighted(ks, ds) % 11 % 10 }

  predicate Inn12Valid(ds: seq<Digit>) {
    |ds| == 12 && ds[10] == Control(WEIGHTS_1, ds) && ds[11] == Control(WEIGHTS_2, ds)
  }

  function SyntheticInn(ds: seq<Digit>): seq<Digit> {
    var c1 := Control(WEIGHTS_1, ds);
    ds + [c1, Control(WEIGHTS_2, ds + [c1])]
  }

  /** Digits beyond the weights do not enter the sum. */
  lemma {:induction false} WeightedPrefix(ks: seq<nat>, a: seq<Digit>, b: seq<Digit>)
    requires |ks| <= |a|
    ensures Weighted(ks, a + b) == Weighted(ks, a)
    decreases |ks|
  {
    if ks != [] {
      assert (a + b)[1..] == a[1..] + b;
      WeightedPrefix(ks[1..], a[1..], b);
    }
  }

  /** A 12-digit INN is valid iff it is the synthetic one of its first ten digits. */
  lemma Inn12ValidIffSynthetic(ds: seq<Digit>)
    requires |ds| == 12
    ensures Inn12Valid(ds) <==> ds == SyntheticInn(ds[..10])
  {
    hide Weighted;
    var a := ds[..10];
    var c1 := Control(WEIGHTS_1, a);
    assert ds == a + ds[10..];
    WeightedPrefix(WEIGHTS_1, a, ds[10..]);
    assert ds == ds[..11] + ds[11..] && ds[..11] == a + [ds[10]];
    WeightedPrefix(WEIGHTS_2, ds[..11], ds[11..]);
    var t := SyntheticInn(a);
    assert t[..10] == a && t[10] == c1 && t[11] == Control(WEIGHTS_2, a + [c1]);
    assert ds[10] == t[10] && ds[11] == t[11] ==> ds == t;
  }

  lemma WeightedStep(ks: seq<nat>, ds: seq<Digit>, i: nat)
    requires i < |ks| && i < |ds|
    ensures Weighted(ks[i..], ds[i..]) == ks[i] * ds[i] + Weighted(ks[i + 1..], ds[i + 1..])
  {
    assert ks[i..][1..] == ks[i + 1..] && ds[i..][1..] == ds[i + 1..];
  }

  lemma WeightedEnd(ks: seq<nat>, ds: seq<Digit>)
    ensures Weighted(ks[|ks|..], ds) == 0 && ks[0..] == ks && ds[0..] == ds
  {}

  /** The two sums, weight by weight. */
  function FirstSum(x: seq<nat>): nat
    requires |x| >= 10
  {
    7 * x[0] + 2 * x[1] + 4 * x[2] + 10 * x[3] + 3 * x[4] + 5 * x[5] + 9 * x[6] + 4 * x[7] + 6 * x[8] + 8 * x[9]
  }

  function SecondSum(x: seq<nat>): nat
    requires |x| >= 11
  {
    3 * x[0] + 7 * x[1] + 2 * x[2] + 4 * x[3] + 10 * x[4] + 3 * x[5] + 5 * x[6] + 9 * x[7] + 4 * x[8] + 6 * x[9]
      + 8 * x[10]
  }

  /** A 12-digit INN is valid iff its last two digits are the control digits of these sums. */
  lemma ControlsAre(ds: seq<Digit>)
    requires |ds| == 12
    ensures Inn12Valid(ds) <==> ds[10] == FirstSum(ds) % 11 % 10 && ds[11] == SecondSum(ds) % 11 % 10
  {
    FirstControl(ds);
    SecondControl(ds);
    hide Weighted, FirstSum, SecondSum;
  }

  lemma FirstControl(ds: seq<Digit>)
    requires |ds| == 12
    ensures Weighted(WEIGHTS_1, ds) == FirstSum(ds)
  {
    hide Weighted;
    WeightedEnd(WEIGHTS_1, ds);
    WeightedEnd(WEIGHTS_1, ds[10..]);
    WeightedStep(WEIGHTS_1, ds, 0);
    WeightedStep(WEIGHTS_1, ds, 1);
    WeightedStep(WEIGHTS_1, ds, 2);
    WeightedStep(WEIGHTS_1, ds, 3);
    WeightedStep(WEIGHTS_1, ds, 4);
    WeightedStep(WEIGHTS_1, ds, 5);
    WeightedStep(WEIGHTS_1, ds, 6);
    WeightedStep(WEIGHTS_1, ds, 7);
    WeightedStep(WEIGHTS_1, ds, 8);
    WeightedStep(WEIGHTS_1, ds, 9);
  }

  lemma SecondControl(ds: seq<Digit>)
    requires |ds| == 12
    ensures Weighted(WEIGHTS_2, ds) == SecondSum(ds)
  {
    hide Weighted;
    WeightedEnd(WEIGHTS_2, ds);
    WeightedEnd(WEIGHTS_2, ds[11..]);
    WeightedStep(WEIGHTS_2, ds, 0);
    WeightedStep(WEIGHTS_2, ds, 1);
    WeightedStep(WEIGHTS_2, ds, 2);
    WeightedStep(WEIGHTS_2, ds, 3);
    WeightedStep(WEIGHTS_2, ds, 4);
    WeightedStep(WEIGHTS_2, ds, 5);
    WeightedStep(WEIGHTS_2, ds, 6);
    WeightedStep(WEIGHTS_2, ds, 7);
    WeightedStep(WEIGHTS_2, ds, 8);
    WeightedStep(WEIGHTS_2, ds, 9);
    WeightedStep(WEIGHTS_2, ds, 10);
  }

  /** The weighted sum of a zip of weights and digits. */
  method WeightedSum(ks: seq<nat>, ds: seq<Digit>) returns (sum: nat)
    ensures sum == Weighted(ks, ds)
  {
    sum := 0;
    var i: nat := 0;
    assert ks[0..] == ks && ds[0..] == ds;
    while i < |ks| && i < |ds|
      invariant i <= |ks| && i <= |ds| && Weighted(ks, ds) == sum + Weighted(ks[i..], ds[i..])
    {
      assert ks[i..][1..] == ks[i + 1..] && ds[i..][1..] == ds[i + 1..];
      sum := sum + ks[i] * ds[i];
      i := i + 1;
    }
  }

  /** A synthetic INN: twelve digits that pass the check, the first ten from the seed. */
  method GenerateInn(seed: nat) returns (inn: seq<Digit>)
    ensures |inn| == 12 && inn[..10] == SeedDigits(seed, 10) && Inn12Valid(inn)
  {
    hide Weighted, Inn12Valid;
    var ds := DigitsFromSeed(seed, 10);
    var sum1 := WeightedSum(WEIGHTS_1, ds);
    var c1: Digit := sum1 % 11 % 10;
    var sum2 := WeightedSum(WEIGHTS_2, ds + [c1]);
    var c2: Digit := sum2 % 11 % 10;
    inn := ds + [c1, c2];
    assert inn[..10] == ds;
    Inn12ValidIffSynthetic(inn);
  }
}
