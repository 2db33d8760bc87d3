/** Token buckets per system. Times and tokens are real numbers; the clock is an input. */
module RateLimit {
  import opened Text

  datatype Bucket = Bucket(capacity: real, tokens: real, refill: real, last: real)

  function FullBucket(rps: nat, now: real): Bucket { Bucket(rps as real, rps as real, rps as real, now) }

  function Min(a: real, b: real): real { if a <= b then a else b }

  /** `duration_since` saturates at zero. */
  function Elapsed(b: Bucket, now: real): real { if now >= b.last then now - b.last else 0.0 }

  function Refilled(b: Bucket, now: real): real { Min(b.tokens + Elapsed(b, now) * b.refill, b.capacity) }

  /** The bucket after a request at `now`, and the wait if it is refused. */
  function TryTake(b: Bucket, now: real): (Bucket, Option<real>)
    requires b.refill > 0.0
  {
    var t := Refilled(b, now);
    if t >= 1.0 then (b.(tokens := t - 1.0, last := now), None)
    else (b.(tokens := t, last := now), Some((1.0 - t) / b.refill))
  }

  type Buckets = map<string, Bucket>

  /** Buckets that can be asked. */
  ghost predicate Usable(bs: Buckets) { forall s <- bs :: bs[s].refill > 0.0 }

  function BucketFor(bs: Buckets, system: string, rps: nat, now: real): Bucket {
    if system in bs then bs[system] else FullBucket(rps, now)
  }

  function CheckStep(bs: Buckets, system: string, rps: nat, now: real): (Buckets, Option<real>)
    requires Usable(bs)
  {
    if rps == 0 then (bs, None)
    else
      var (b, wait) := TryTake(BucketFor(bs, system, rps, now), now);
      (bs[system := b], wait)
  }

  /** One system's bucket. */
  class TokenBucket {
    var capacity: real
    var tokens: real
    var refill: real
    var last: real

    function View(): Bucket
      reads this
    { Bucket(capacity, tokens, refill, last) }

    constructor (rps: nat, now: real)
      ensures View() == FullBucket(rps, now)
    {
      capacity, tokens, refill, last := rps as real, rps as real, rps as real, now;
    }

    method Take(now: real) returns (wait: Option<real>)
      requires refill > 0.0
      modifies this
      ensures (View(), wait) == TryTake(old(View()), now)
    {
      tokens := Min(tokens + Elapsed(View(), now) * refill, capacity);
      assert tokens == Refilled(old(View()), now);
      last := now;
      if tokens >= 1.0 {
        tokens := tokens - 1.0;
        wait := None;
      } else {
        wait := Some((1.0 - tokens) / refill);
      }
    }
  }

  class RateLimiter {
    var buckets: map<string, TokenBucket>

    /** Systems do not share buckets, and every bucket refills. */
    ghost predicate Valid()
      reads this, buckets.Values
    {
      && (forall s <- buckets :: buckets[s].refill > 0.0)
      && (forall s <- buckets, t <- buckets :: s != t ==> buckets[s] != buckets[t])
    }

    ghost function View(): Buckets
      reads this, buckets.Values
    { map s | s in buckets :: buckets[s].View() }

    constructor ()
      ensures Valid() && View() == map[]
    {
      buckets := map[];
    }

    /** None admits; Some is the time to wait. */
    method Check(system: string, rps: nat, now: real) returns (wait: Option<real>)
      requires Valid()
      modifies this, buckets.Values
      ensures Valid() && fresh(buckets.Values - old(buckets.Values))
      ensures Usable(old(View())) && (View(), wait) == CheckStep(old(View()), system, rps, now)
    {
      if rps == 0 { return None; }
      hide TryTake;
      if system !in buckets {
        var b := new TokenBucket(rps, now);
        buckets := buckets[system := b];
      }
      var bucket := buckets[system];
      assert bucket.View() == BucketFor(old(View()), system, rps, now);
      wait := bucket.Take(now);
      assert View() == old(View())[system := bucket.View()] by {
        forall t | t in View() ensures View()[t] == old(View())[system := bucket.View()][t] {
          assert t != system ==> buckets[t] != bucket && buckets[t] == old(buckets)[t];
        }
      }
    }
  }

  // ----- runs with a fixed rate per system and a clock that never goes back -----

  datatype Call = Call(system: string, now: real)

  ghost predicate InOrder(cs: seq<Call>, from: real) {
    forall i | 0 <= i < |cs| :: from <= cs[i].now && (i > 0 ==> cs[i - 1].now <= cs[i].now)
  }

  ghost predicate BucketOk(b: Bucket, rps: nat, now: real) {
    && rps >= 1 && b.capacity == rps as real == b.refill
    && 0.0 <= b.tokens <= b.capacity && b.last <= now
  }

  /** Every bucket fits its system's rate, is within its capacity, and was last used by `now`. */
  ghost predicate Consistent(bs: Buckets, rate: string -> nat, now: real) {
    forall s <- bs :: BucketOk(bs[s], rate(s), now)
  }

  lemma ProductNonNegative(a: real, b: real)
    requires a >= 0.0 && b >= 0.0
    ensures a * b >= 0.0
  {}

  lemma TakeOk(b: Bucket, rps: nat, now: real)
    requires BucketOk(b, rps, now)
    ensures BucketOk(TryTake(b, now).0, rps, now)
  {
    ProductNonNegative(Elapsed(b, now), b.refill);
  }

  /** Tokens stay within the capacity, whatever the calls. */
  lemma StepConsistent(bs: Buckets, rate: string -> nat, c: Call)
    requires Consistent(bs, rate, c.now)
    ensures Usable(bs) && Consistent(CheckStep(bs, c.system, rate(c.system), c.now).0, rate, c.now)
  {
    hide TryTake;
    if rate(c.system) > 0 {
      var b := BucketFor(bs, c.system, rate(c.system), c.now);
      assert BucketOk(b, rate(c.system), c.now);
      TakeOk(b, rate(c.system), c.now);
    }
  }

  lemma Later(bs: Buckets, rate: string -> nat, now: real, later: real)
    requires Consistent(bs, rate, now) && now <= later
    ensures Consistent(bs, rate, later)
  {}

  ghost predicate Startable(bs: Buckets, rate: string -> nat, cs: seq<Call>, from: real) {
    Consistent(bs, rate, from) && InOrder(cs, from)
  }

  lemma StartTail(bs: Buckets, rate: string -> nat, cs: seq<Call>, from: real)
    requires Startable(bs, rate, cs, from) && cs != []
    ensures Usable(bs)
    ensures Startable(CheckStep(bs, cs[0].system, rate(cs[0].system), cs[0].now).0, rate, cs[1..], cs[0].now)
  {
    Later(bs, rate, from, cs[0].now);
    StepConsistent(bs, rate, cs[0]);
    hide Consistent, CheckStep;
    forall i | 0 <= i < |cs[1..]|
      ensures cs[0].now <= cs[1..][i].now && (i > 0 ==> cs[1..][i - 1].now <= cs[1..][i].now)
    {
      Ordered(cs, from, i + 1);
    }
  }

  lemma {:induction false} Ordered(cs: seq<Call>, from: real, i: nat)
    requires InOrder(cs, from) && i < |cs|
    ensures cs[0].now <= cs[i].now && (i > 0 ==> cs[i - 1].now <= cs[i].now)
  {
    if i > 0 { Ordered(cs, from, i - 1); }
  }

  /** Buckets after a run. */
  ghost function Run(bs: Buckets, rate: string -> nat, cs: seq<Call>, from: real): Buckets
    requires Startable(bs, rate, cs, from)
    decreases |cs|
  {
    if cs == [] then bs
    else
      StartTail(bs, rate, cs, from);
      Run(CheckStep(bs, cs[0].system, rate(cs[0].system), cs[0].now).0, rate, cs[1..], cs[0].now)
  }

  /** How many calls of `system` a run admits. */
  ghost function Admitted(bs: Buckets, rate: string -> nat, cs: seq<Call>, from: real, system: string): nat
    requires Startable(bs, rate, cs, from)
    decreases |cs|
  {
    if cs == [] then 0
    else
      StartTail(bs, rate, cs, from);
      var (bs', wait) := CheckStep(bs, cs[0].system, rate(cs[0].system), cs[0].now);
      (if cs[0].system == system && wait.None? then 1 else 0)
        + Admitted(bs', rate, cs[1..], cs[0].now, system)
  }

  /** Tokens `system` would have at `now`. */
  function Level(bs: Buckets, rate: string -> nat, system: string, now: real): real {
    Refilled(BucketFor(bs, system, rate(system), now), now)
  }

  lemma Distribute(r: real, a: real, b: real)
    ensures r * (a + b) == r * a + r * b
  {}

  lemma RefillLater(b: Bucket, rps: nat, now: real, later: real)
    requires BucketOk(b, rps, now) && now <= later
    ensures Refilled(b, later) <= Refilled(b, now) + rps as real * (later - now)
  {
    ProductNonNegative(rps as real, later - now);
    Distribute(rps as real, now - b.last, later - now);
  }

  lemma TakeLater(b: Bucket, rps: nat, now: real, later: real)
    requires BucketOk(b, rps, now) && now <= later
    ensures var (b', wait) := TryTake(b, now);
      Refilled(b', later) <= Refilled(b, now) - (if wait.None? then 1.0 else 0.0) + Refill(rps, later - now)
  {
    TakeOk(b, rps, now);
    var b' := TryTake(b, now).0;
    RefillLater(b', rps, now, later);
    assert Elapsed(b', now) * b'.refill == 0.0;
  }

  /** What `time` seconds refill. */
  function Refill(rps: nat, time: real): real { rps as real * time }

  /** The bucket that a later call at `later` would refill. */
  lemma BucketLater(bs: Buckets, system: string, rps: nat, now: real, later: real)
    requires now <= later && (system in bs ==> BucketOk(bs[system], rps, now))
    ensures Refilled(BucketFor(bs, system, rps, later), later)
      <= Refilled(BucketFor(bs, system, rps, now), now) + Refill(rps, later - now)
  {
    if system in bs {
      hide Refilled;
      RefillLater(bs[system], rps, now, later);
    } else {
      FullLevel(rps, now);
      FullLevel(rps, later);
      ProductNonNegative(rps as real, later - now);
    }
  }

  /** One call changes the level by what time refills and what it takes. */
  lemma LevelStep(bs: Buckets, rate: string -> nat, c: Call, later: real, system: string)
    requires Consistent(bs, rate, c.now) && c.now <= later && rate(system) >= 1
    ensures Usable(bs)
    ensures var (bs', wait) := CheckStep(bs, c.system, rate(c.system), c.now);
      var taken := if c.system == system && wait.None? then 1.0 else 0.0;
      Level(bs', rate, system, later) <= Level(bs, rate, system, c.now) - taken + Refill(rate(system), later - c.now)
  {
    StepConsistent(bs, rate, c);
    var b := BucketFor(bs, system, rate(system), c.now);
    assert BucketOk(b, rate(system), c.now);
    hide Refilled, Refill, TryTake, BucketOk, Consistent;
    if c.system == system {
      TakeLater(b, rate(system), c.now, later);
    } else {
      OtherSeen(bs, rate, c, system);
      assert system in bs ==> b == bs[system];
      BucketLater(bs, system, rate(system), c.now, later);
    }
  }

  lemma OtherSeen(bs: Buckets, rate: string -> nat, c: Call, system: string)
    requires Usable(bs) && c.system != system
    ensures var bs' := CheckStep(bs, c.system, rate(c.system), c.now).0;
      forall rps, t :: BucketFor(bs', system, rps, t) == BucketFor(bs, system, rps, t)
  {}

  lemma FullLevel(rps: nat, now: real)
    ensures Refilled(FullBucket(rps, now), now) == rps as real
  {}

  lemma LevelBound(bs: Buckets, rate: string -> nat, system: string, now: real)
    requires Consistent(bs, rate, now) && rate(system) >= 1
    ensures Level(bs, rate, system, now) <= rate(system) as real
  {
    assert BucketOk(BucketFor(bs, system, rate(system), now), rate(system), now);
  }

  lemma LevelNonNegative(bs: Buckets, rate: string -> nat, system: string, now: real)
    requires Consistent(bs, rate, now) && rate(system) >= 1
    ensures Level(bs, rate, system, now) >= 0.0
  {
    var b := BucketFor(bs, system, rate(system), now);
    assert BucketOk(b, rate(system), now);
    ProductNonNegative(Elapsed(b, now), b.refill);
  }

  lemma {:induction false} AdmittedWithinLevel(bs: Buckets, rate: string -> nat, cs: seq<Call>, from: real,
      system: string)
    requires Startable(bs, rate, cs, from) && cs != [] && rate(system) >= 1
    ensures Admitted(bs, rate, cs, from, system) as real
      <= Level(bs, rate, system, cs[0].now) + Refill(rate(system), cs[|cs| - 1].now - cs[0].now)
    decreases |cs|
  {
    StartTail(bs, rate, cs, from);
    ConsistentAfter(bs, rate, cs, from);
    hide Level, CheckStep, InOrder, Consistent, Usable, Refill;
    var c := cs[0];
    var bs' := CheckStep(bs, c.system, rate(c.system), c.now).0;
    if |cs| == 1 {
      ConsistentAfter(bs', rate, cs[1..], c.now);
      LevelStep(bs, rate, c, c.now, system);
      LevelNonNegative(bs', rate, system, c.now);
      RefillSum(rate(system), 0.0, 0.0);
      assert Admitted(bs', rate, cs[1..], c.now, system) == 0;
    } else {
      var next, end := cs[1].now, cs[|cs| - 1].now;
      FirstAfter(cs, from);
      LevelStep(bs, rate, c, next, system);
      AdmittedWithinLevel(bs', rate, cs[1..], c.now, system);
      LastOfTail(cs);
      RefillSum(rate(system), next - c.now, end - next);
    }
  }

  lemma RefillSum(rps: nat, a: real, b: real)
    ensures Refill(rps, a) + Refill(rps, b) == Refill(rps, a + b)
  {}

  lemma LastOfTail(cs: seq<Call>)
    requires |cs| > 1
    ensures cs[1..][|cs[1..]| - 1] == cs[|cs| - 1] && cs[1..][0] == cs[1]
  {}

  lemma ConsistentAfter(bs: Buckets, rate: string -> nat, cs: seq<Call>, from: real)
    requires Startable(bs, rate, cs, from)
    ensures Consistent(bs, rate, from) && (cs != [] ==> Consistent(bs, rate, cs[0].now))
  {}

  lemma FirstAfter(cs: seq<Call>, from: real)
    requires InOrder(cs, from) && |cs| > 1
    ensures cs[0].now <= cs[1].now
  {}

  /** Between any two calls, `T` seconds apart, at most `rps * (1 + T)` requests of a system
      are admitted, whatever the systems did before and whoever calls in between. */
  lemma AdmissionBound(bs: Buckets, rate: string -> nat, cs: seq<Call>, from: real, system: string)
    requires Startable(bs, rate, cs, from) && cs != [] && rate(system) >= 1
    ensures Admitted(bs, rate, cs, from, system) as real
      <= rate(system) as real * (1.0 + (cs[|cs| - 1].now - cs[0].now))
  {
    hide Level, Admitted, Consistent;
    AdmittedWithinLevel(bs, rate, cs, from, system);
    ConsistentAfter(bs, rate, cs, from);
    LevelBound(bs, rate, system, cs[0].now);
    Distribute(rate(system) as real, 1.0, cs[|cs| - 1].now - cs[0].now);
  }

  /** Reachability: what any run leaves can start any later run. */
  lemma {:induction false} RunConsistent(bs: Buckets, rate: string -> nat, cs: seq<Call>, from: real)
    requires Startable(bs, rate, cs, from)
    ensures Consistent(Run(bs, rate, cs, from), rate, if cs == [] then from else cs[|cs| - 1].now)
    decreases |cs|
  {
    if cs != [] {
      StartTail(bs, rate, cs, from);
      hide Consistent, CheckStep;
      RunConsistent(CheckStep(bs, cs[0].system, rate(cs[0].system), cs[0].now).0, rate, cs[1..], cs[0].now);
    }
  }

  // ----- independence -----

  function CallsOf(cs: seq<Call>, system: string): seq<Call> {
    if cs == [] then [] else (if cs[0].system == system then [cs[0]] else []) + CallsOf(cs[1..], system)
  }

  /** The bucket a system sees, if it has one. */
  function Seen(bs: Buckets, system: string): Option<Bucket> { if system in bs then Some(bs[system]) else None }

  /** The run of one system alone. */
  function Alone(b: Option<Bucket>, rps: nat, cs: seq<Call>): Option<Bucket>
    requires rps >= 1 && (b.Some? ==> b.value.refill > 0.0)
    decreases |cs|
  {
    if cs == [] then b
    else
      var start := if b.Some? then b.value else FullBucket(rps, cs[0].now);
      Alone(Some(TryTake(start, cs[0].now).0), rps, cs[1..])
  }

  /** Systems do not affect each other: a system's bucket after any run is the one it
      would have had with the other systems' calls left out. */
  lemma {:induction false} SystemsIndependent(bs: Buckets, rate: string -> nat, cs: seq<Call>, from: real,
      system: string)
    requires Startable(bs, rate, cs, from) && rate(system) >= 1
    ensures Usable(bs)
    ensures Seen(Run(bs, rate, cs, from), system) == Alone(Seen(bs, system), rate(system), CallsOf(cs, system))
    decreases |cs|
  {
    ConsistentAfter(bs, rate, cs, from);
    if cs != [] {
      StartTail(bs, rate, cs, from);
      hide Consistent, InOrder, Startable, CheckStep, Alone;
      var c := cs[0];
      var bs' := CheckStep(bs, c.system, rate(c.system), c.now).0;
      SystemsIndependent(bs', rate, cs[1..], c.now, system);
      SeenStep(bs, c.system, rate(c.system), c.now, system);
      if c.system == system {
        AloneStep(Seen(bs, system), rate(system), c, CallsOf(cs[1..], system));
      } else {
        assert CallsOf(cs, system) == CallsOf(cs[1..], system);
      }
    }
  }

  lemma SeenStep(bs: Buckets, s: string, rps: nat, now: real, system: string)
    requires Usable(bs)
    ensures s != system ==> Seen(CheckStep(bs, s, rps, now).0, system) == Seen(bs, system)
    ensures s == system && rps >= 1 ==>
      Seen(CheckStep(bs, s, rps, now).0, system) == Some(TryTake(BucketFor(bs, s, rps, now), now).0)
  {
    hide TryTake;
  }

  lemma AloneStep(b: Option<Bucket>, rps: nat, c: Call, rest: seq<Call>)
    requires rps >= 1 && (b.Some? ==> b.value.refill > 0.0)
    ensures Alone(b, rps, [c] + rest) ==
      Alone(Some(TryTake(if b.Some? then b.value else FullBucket(rps, c.now), c.now).0), rps, rest)
  {
    hide TryTake;
    assert ([c] + rest)[1..] == rest;
  }

  // ----- what is admitted at least -----

  /** The system's bucket, or the full one it would get, holds `k` tokens. */
  predicate Holds(bs: Buckets, rate: string -> nat, system: string, k: nat) {
    if system in bs then bs[system].tokens >= k as real else k <= rate(system)
  }

  lemma TakeHolds(b: Bucket, rps: nat, now: real, k: nat)
    requires BucketOk(b, rps, now) && b.tokens >= k as real
    ensures k > 0 ==> TryTake(b, now).1 == None && TryTake(b, now).0.tokens >= (k - 1) as real
  {
    ProductNonNegative(Elapsed(b, now), b.refill);
  }

  lemma StepHolds(bs: Buckets, rate: string -> nat, c: Call, system: string, k: nat)
    requires Consistent(bs, rate, c.now) && rate(system) >= 1 && Holds(bs, rate, system, k)
    ensures Usable(bs)
    ensures var (bs', wait) := CheckStep(bs, c.system, rate(c.system), c.now);
      if c.system == system && k > 0 then wait == None && Holds(bs', rate, system, k - 1)
      else c.system != system ==> Holds(bs', rate, system, k)
  {
    StepConsistent(bs, rate, c);
    hide TryTake;
    if c.system == system {
      var b := BucketFor(bs, system, rate(system), c.now);
      assert BucketOk(b, rate(system), c.now) && b.tokens >= k as real;
      TakeHolds(b, rate(system), c.now, k);
    }
  }

  lemma {:induction false} HeldAdmitted(bs: Buckets, rate: string -> nat, cs: seq<Call>, from: real, system: string,
      k: nat)
    requires Startable(bs, rate, cs, from) && rate(system) >= 1 && Holds(bs, rate, system, k)
    ensures Admitted(bs, rate, cs, from, system) >= if |CallsOf(cs, system)| <= k then |CallsOf(cs, system)| else k
    decreases |cs|
  {
    if cs != [] && k > 0 {
      StartTail(bs, rate, cs, from);
      ConsistentAfter(bs, rate, cs, from);
      hide Consistent, InOrder, Startable, CheckStep, Holds;
      var c := cs[0];
      StepHolds(bs, rate, c, system, k);
      HeldAdmitted(CheckStep(bs, c.system, rate(c.system), c.now).0, rate, cs[1..], c.now, system,
        if c.system == system then k - 1 else k);
    }
  }

  lemma NoTimePasses(admitted: nat, rps: nat, time: real)
    requires admitted as real <= rps as real * (1.0 + time) && time == 0.0
    ensures admitted <= rps
  {}

  lemma AtOneInstant(bs: Buckets, rate: string -> nat, cs: seq<Call>, from: real, system: string)
    requires Startable(bs, rate, cs, from) && rate(system) >= 1 && cs != [] && cs[|cs| - 1].now == cs[0].now
    ensures Admitted(bs, rate, cs, from, system) <= rate(system)
  {
    hide *;
    AdmissionBound(bs, rate, cs, from, system);
    NoTimePasses(Admitted(bs, rate, cs, from, system), rate(system), cs[|cs| - 1].now - cs[0].now);
  }

  /** A system that has not called before gets its first `rps` calls admitted, whenever it makes
      them and whoever else calls; at one instant it gets exactly these. */
  lemma FirstCallsAdmitted(bs: Buckets, rate: string -> nat, cs: seq<Call>, from: real, system: string)
    requires Startable(bs, rate, cs, from) && rate(system) >= 1 && system !in bs
    ensures var calls, rps := |CallsOf(cs, system)|, rate(system);
      var admitted := Admitted(bs, rate, cs, from, system);
      && admitted >= (if calls <= rps then calls else rps)
      && (cs != [] && cs[|cs| - 1].now == cs[0].now ==> admitted <= rps)
  {
    assert Holds(bs, rate, system, rate(system));
    hide *;
    HeldAdmitted(bs, rate, cs, from, system, rate(system));
    if cs != [] && cs[|cs| - 1].now == cs[0].now { AtOneInstant(bs, rate, cs, from, system); }
  }

  /** A rate of zero is no limit: every call is admitted. */
  lemma {:induction false} UnlimitedAdmitted(bs: Buckets, rate: string -> nat, cs: seq<Call>, from: real,
      system: string)
    requires Startable(bs, rate, cs, from) && rate(system) == 0
    ensures Admitted(bs, rate, cs, from, system) == |CallsOf(cs, system)|
    decreases |cs|
  {
    if cs != [] {
      StartTail(bs, rate, cs, from);
      hide TryTake;
      var c := cs[0];
      UnlimitedAdmitted(CheckStep(bs, c.system, rate(c.system), c.now).0, rate, cs[1..], c.now, system);
    }
  }

  // ----- the announced wait -----

  /** Whole seconds of a duration, at least one: the `Retry-After` header. */
  function RetryAfter(wait: real): int {
    var secs := wait.Floor;
    if secs >= 1 then secs else 1
  }

  /** A clock that went back refills nothing, and the bucket goes on from the earlier time. */
  lemma ClockWentBack(b: Bucket, rps: nat, now: real)
    requires BucketOk(b, rps, b.last) && now <= b.last
    ensures var (b', wait) := TryTake(b, now);
      && b'.last == now && b'.capacity == b.capacity && b'.refill == b.refill
      && b'.tokens == (if b.tokens >= 1.0 then b.tokens - 1.0 else b.tokens) && (wait.None? <==> b.tokens >= 1.0)
  {
    assert Elapsed(b, now) * b.refill == 0.0;
  }

  /** A refused caller that comes back after the returned wait, with no call of its own in
      between, is admitted; so is one that waits for the header's seconds. */
  lemma WaitSuffices(b: Bucket, rps: nat, now: real, later: real)
    requires BucketOk(b, rps, now)
    requires TryTake(b, now).1.Some?
    requires now + TryTake(b, now).1.value <= later
    ensures TryTake(TryTake(b, now).0, later).1 == None
  {
    TakeOk(b, rps, now);
    var (b1, wait) := TryTake(b, now);
    var w := wait.value;
    assert w * b.refill == 1.0 - b1.tokens;
    ProductNonNegative(later - now - w, b.refill);
    assert (later - now) * b.refill == w * b.refill + (later - now - w) * b.refill;
  }

  lemma RetryAfterSuffices(b: Bucket, rps: nat, now: real)
    requires BucketOk(b, rps, now) && TryTake(b, now).1.Some?
    ensures var wait := TryTake(b, now).1.value;
      0.0 < wait <= RetryAfter(wait) as real && RetryAfter(wait) == 1
      && TryTake(TryTake(b, now).0, now + RetryAfter(wait) as real).1 == None
  {
    TakeOk(b, rps, now);
    var (b1, wait) := TryTake(b, now);
    var w := wait.value;
    assert w * b.refill == 1.0 - b1.tokens;
    ProductNonNegative(w, b.refill - 1.0);
    assert w * (b.refill - 1.0) == w * b.refill - w;
    assert w <= 1.0 && w.Floor as real <= w < w.Floor as real + 1.0;
    WaitSuffices(b, rps, now, now + RetryAfter(w) as real);
  }
}
