/** The circuit breaker: one caller at a time, and as atomic steps of many threads.
    Times are milliseconds; ratios are real numbers. */
module Breaker {
  datatype CircuitState = Closed | Open | HalfOpen

  /** `window` is the configured window after its cast to 32 bits. */
  datatype Config = Config(failureRatio: real, window: nat, openSeconds: nat)

  datatype Core = Core(state: CircuitState, failures: nat, total: nat, openedAt: nat)

  const Fresh := Core(Closed, 0, 0, 0)

  predicate Expired(c: Config, openedAt: nat, now: nat) {
    (if now >= openedAt then now - openedAt else 0) >= c.openSeconds * 1000
  }

  function AllowStep(c: Config, b: Core, now: nat): (Core, bool) {
    match b.state
    case Open => if Expired(c, b.openedAt, now) then (b.(state := HalfOpen), true) else (b, false)
    case _ => (b, true)
  }

  predicate Trips(c: Config, failures: nat, total: nat) {
    total > 0 && failures as real / total as real >= c.failureRatio
  }

  /** The breaker after one result, and whether the record opened it. */
  function RecordStep(c: Config, b: Core, success: bool, now: nat): (Core, bool) {
    var total := b.total + 1;
    var failures := b.failures + (if success then 0 else 1);
    if total < c.window then (b.(failures := failures, total := total), false)
    else if Trips(c, failures, total) then (Core(Open, 0, 0, now), true)
    else (b.(failures := 0, total := 0), false)
  }

  class CircuitBreaker {
    const config: Config
    var state: CircuitState
    var failures: nat
    var total: nat
    var openedAt: nat

    function View(): Core
      reads this
    { Core(state, failures, total, openedAt) }

    constructor (c: Config)
      ensures config == c && View() == Fresh
    {
      config := c;
      state, failures, total, openedAt := Closed, 0, 0, 0;
    }

    method Allow(now: nat) returns (ok: bool)
      modifies this
      ensures (View(), ok) == AllowStep(config, old(View()), now)
    {
      match state {
        case Closed => ok := true;
        case HalfOpen => ok := true;
        case Open =>
          ok := Expired(config, openedAt, now);
          if ok { state := HalfOpen; }
      }
    }

    method Record(success: bool, now: nat) returns (ghost tripped: bool)
      modifies this
      ensures (View(), tripped) == RecordStep(config, old(View()), success, now)
    {
      total := total + 1;
      var t := total;
      tripped := false;
      if !success { failures := failures + 1; }
      if t >= config.window {
        var f := failures;
        failures := 0;
        total := 0;
        if f as real / t as real >= config.failureRatio {
          openedAt := now;
          state := Open;
          tripped := true;
        }
      }
    }
  }

  // ----- sequential runs -----

  datatype Call = Allow(now: nat) | Record(success: bool, now: nat)

  function Do(c: Config, b: Core, e: Call): Core {
    match e
    case Allow(now) => AllowStep(c, b, now).0
    case Record(success, now) => RecordStep(c, b, success, now).0
  }

  /** The breaker after the first `n` calls. */
  function After(c: Config, es: seq<Call>, n: nat): Core
    requires n <= |es|
  {
    if n == 0 then Fresh else Do(c, After(c, es, n - 1), es[n - 1])
  }

  predicate Opens(c: Config, es: seq<Call>, i: nat)
    requires i < |es|
  {
    es[i].Record? && RecordStep(c, After(c, es, i), es[i].success, es[i].now).1
  }

  /** Records among the calls from `i` to `j`. */
  function Records(es: seq<Call>, i: nat, j: nat): nat
    requires i <= j <= |es|
    decreases j - i
  {
    if i == j then 0 else Records(es, i, j - 1) + (if es[j - 1].Record? then 1 else 0)
  }

  lemma {:induction false} RecordsSplit(es: seq<Call>, i: nat, j: nat, k: nat)
    requires i <= j <= k <= |es|
    ensures Records(es, i, k) == Records(es, i, j) + Records(es, j, k)
    decreases k - j
  {
    if j < k { RecordsSplit(es, i, j, k - 1); }
  }

  /** Calls since the `w`-th last record: the counter never reaches the window between
      calls and counts the records since it was last reset, and failures are among them. */
  lemma {:induction false} CounterBelowWindow(c: Config, es: seq<Call>, n: nat)
    requires c.window >= 1 && n <= |es|
    ensures var b := After(c, es, n);
      && b.failures <= b.total < c.window
      && exists q: nat :: Records(es, 0, n) == q * c.window + b.total
    decreases n
  {
    if n == 0 {
      assert Records(es, 0, 0) == 0 * c.window + 0;
    } else {
      CounterBelowWindow(c, es, n - 1);
      var q: nat :| Records(es, 0, n - 1) == q * c.window + After(c, es, n - 1).total;
      if es[n - 1].Record? {
        assert (q + 1) * c.window == q * c.window + c.window;
        if After(c, es, n).total == 0 {
          assert Records(es, 0, n) == (q + 1) * c.window + 0;
        } else {
          assert Records(es, 0, n) == q * c.window + After(c, es, n).total;
        }
      }
    }
  }

  lemma ProductOrder(a: nat, b: nat, w: nat)
    ensures a >= b ==> a * w >= b * w
  {
    if a >= b { assert a * w == b * w + (a - b) * w; }
  }

  lemma MultiplesApart(a: nat, b: nat, w: nat)
    requires a * w < b * w
    ensures a * w + w <= b * w
  {
    ProductOrder(a, b, w);
    ProductOrder(b, a + 1, w);
    assert (a + 1) * w == a * w + w;
  }

  lemma OpensAtMultiple(c: Config, es: seq<Call>, i: nat) returns (q: nat)
    requires c.window >= 1 && i < |es| && Opens(c, es, i)
    ensures Records(es, 0, i + 1) == q * c.window
  {
    CounterBelowWindow(c, es, i + 1);
    q :| Records(es, 0, i + 1) == q * c.window + After(c, es, i + 1).total;
  }

  /** Between two openings lie at least `window` records. */
  lemma OpeningsApart(c: Config, es: seq<Call>, i: nat, j: nat)
    requires c.window >= 1 && i < j < |es| && Opens(c, es, i) && Opens(c, es, j)
    ensures Records(es, i + 1, j + 1) >= c.window
  {
    var p := OpensAtMultiple(c, es, i);
    var q := OpensAtMultiple(c, es, j);
    RecordsSplit(es, 0, i + 1, j + 1);
    RecordsSplit(es, i + 1, j, j + 1);
    MultiplesApart(p, q, c.window);
  }

  /** The last opening among the first `n` calls. */
  ghost predicate LastOpening(c: Config, es: seq<Call>, n: nat, i: nat)
    requires n <= |es|
  {
    i < n && Opens(c, es, i) && forall j | i < j < n :: !Opens(c, es, j)
  }

  ghost predicate OpenedBefore(c: Config, es: seq<Call>, n: nat)
    requires n <= |es|
  {
    exists i :: 0 <= i < n && Opens(c, es, i)
  }

  /** Closed exactly until the first opening; afterwards `openedAt` is the time of the last one. */
  lemma {:induction false} StateHistory(c: Config, es: seq<Call>, n: nat)
    requires n <= |es|
    ensures After(c, es, n).state == Closed <==> !OpenedBefore(c, es, n)
    ensures OpenedBefore(c, es, n) ==>
      exists i: nat :: LastOpening(c, es, n, i) && After(c, es, n).openedAt == es[i].now
    decreases n
  {
    hide Trips, Expired;
    if n > 0 {
      StateHistory(c, es, n - 1);
      if Opens(c, es, n - 1) {
        assert LastOpening(c, es, n, n - 1);
      } else if OpenedBefore(c, es, n - 1) {
        var i: nat :| LastOpening(c, es, n - 1, i) && After(c, es, n - 1).openedAt == es[i].now;
        assert LastOpening(c, es, n, i);
      }
    }
  }

  /** A caller is refused only within `openSeconds` after the last opening, and once opened
      the breaker is never closed again. */
  lemma RefusalsAndReopening(c: Config, es: seq<Call>, n: nat, now: nat)
    requires n <= |es|
    ensures !AllowStep(c, After(c, es, n), now).1 ==>
      exists i: nat :: LastOpening(c, es, n, i) && now < es[i].now + c.openSeconds * 1000
    ensures forall m | n <= m <= |es| :: After(c, es, n).state != Closed ==> After(c, es, m).state != Closed
  {
    StateHistory(c, es, n);
    if !AllowStep(c, After(c, es, n), now).1 {
      var i: nat :| LastOpening(c, es, n, i) && After(c, es, n).openedAt == es[i].now;
      assert now < es[i].now + c.openSeconds * 1000;
    }
    forall m | n <= m <= |es| && After(c, es, n).state != Closed ensures After(c, es, m).state != Closed {
      StateHistory(c, es, m);
      var i :| 0 <= i < n && Opens(c, es, i);
    }
  }

  // ----- when exactly it refuses, and when it opens -----

  /** At `now` the open time after an opening at `stamp` is not over. */
  predicate Barred(c: Config, stamp: nat, now: nat) { c.openSeconds > 0 && now < stamp + c.openSeconds * 1000 }

  /** No caller has asked since opening `i` but while the open time lasted. */
  predicate Undisturbed(c: Config, es: seq<Call>, i: nat, n: nat)
    requires i < n <= |es|
  {
    forall j | i < j < n && es[j].Allow? :: Barred(c, es[i].now, es[j].now)
  }

  lemma {:induction false} OpenSince(c: Config, es: seq<Call>, n: nat, i: nat)
    requires n <= |es| && LastOpening(c, es, n, i)
    ensures After(c, es, n).openedAt == es[i].now
    ensures After(c, es, n).state == Open <==> Undisturbed(c, es, i, n)
    decreases n
  {
    hide Trips;
    assert After(c, es, n) == Do(c, After(c, es, n - 1), es[n - 1]);
    if i == n - 1 {
      assert RecordStep(c, After(c, es, i), es[i].success, es[i].now).1;
    } else {
      assert LastOpening(c, es, n - 1, i) && !Opens(c, es, n - 1);
      OpenSince(c, es, n - 1, i);
      StateHistory(c, es, n - 1);
    }
  }

  /** A caller is refused exactly within the open time of the last opening, unless another
      caller came after that time and was let through. */
  lemma RefusedIff(c: Config, es: seq<Call>, n: nat, now: nat)
    requires n <= |es|
    ensures !AllowStep(c, After(c, es, n), now).1 <==>
      exists i: nat :: LastOpening(c, es, n, i) && Undisturbed(c, es, i, n) && Barred(c, es[i].now, now)
  {
    StateHistory(c, es, n);
    hide After, Undisturbed;
    forall i: nat | LastOpening(c, es, n, i) { OpenSince(c, es, n, i); }
    if OpenedBefore(c, es, n) {
      var i: nat :| LastOpening(c, es, n, i) && After(c, es, n).openedAt == es[i].now;
      OpenSince(c, es, n, i);
    }
  }

  /** Failed records among the calls from `i` to `j`. */
  function Failures(es: seq<Call>, i: nat, j: nat): nat
    requires i <= j <= |es|
    decreases j - i
  {
    if i == j then 0 else Failures(es, i, j - 1) + (if es[j - 1].Record? && !es[j - 1].success then 1 else 0)
  }

  /** The calls from `s` to `e` hold one window of records, counted from the start. */
  predicate IsWindow(c: Config, es: seq<Call>, s: nat, e: nat)
    requires c.window >= 1 && s <= e <= |es|
  {
    Records(es, 0, s) % c.window == 0 && Records(es, s, e) == c.window
  }

  lemma ResetAt(c: Config, es: seq<Call>, s: nat)
    requires c.window >= 1 && s <= |es| && Records(es, 0, s) % c.window == 0
    ensures After(c, es, s).total == 0 && After(c, es, s).failures == 0
  {
    CounterBelowWindow(c, es, s);
    var t := After(c, es, s).total;
    var q: nat :| Records(es, 0, s) == q * c.window + t;
    Remainder(q, c.window, t);
  }

  lemma Remainder(q: nat, w: nat, t: nat)
    requires t < w
    ensures (q * w + t) % w == t
  {
    var n := q * w + t;
    var p, r := n / w, n % w;
    assert n == p * w + r && (p + 1) * w == p * w + w && (q + 1) * w == q * w + w;
    ProductOrder(q, p + 1, w);
    ProductOrder(p, q + 1, w);
  }

  /** Within a window the counters hold its records and its failures. */
  lemma {:induction false} WindowCounts(c: Config, es: seq<Call>, s: nat, n: nat)
    requires c.window >= 1 && s <= n <= |es| && Records(es, 0, s) % c.window == 0 && Records(es, s, n) < c.window
    ensures After(c, es, n).total == Records(es, s, n) && After(c, es, n).failures == Failures(es, s, n)
    decreases n
  {
    if s == n { ResetAt(c, es, s); } else { WindowCounts(c, es, s, n - 1); }
  }

  /** The record that ends a window opens the breaker iff the window's failures reach the ratio. */
  lemma WindowDecides(c: Config, es: seq<Call>, s: nat, i: nat)
    requires c.window >= 1 && s <= i < |es| && IsWindow(c, es, s, i + 1) && es[i].Record?
    ensures Opens(c, es, i) <==> Failures(es, s, i + 1) as real >= c.failureRatio * c.window as real
  {
    WindowCounts(c, es, s, i);
    RatioReached(c, Failures(es, s, i + 1));
    hide Trips;
  }

  lemma RatioReached(c: Config, f: nat)
    requires c.window >= 1
    ensures Trips(c, f, c.window) <==> f as real >= c.failureRatio * c.window as real
  {
    var q := f as real / c.window as real;
    assert f as real == q * c.window as real;
    if q < c.failureRatio { ScaledLess(q, c.failureRatio, c.window as real); }
    else { Scaled(c.failureRatio, q, c.window as real); }
  }

  lemma ScaledLess(x: real, y: real, z: real)
    requires x < y && z > 0.0
    ensures x * z < y * z
  {}

  /** Where the last `k` records up to `n` begin. */
  lemma {:induction false} WindowStart(es: seq<Call>, n: nat, k: nat) returns (s: nat)
    requires n <= |es| && k <= Records(es, 0, n)
    ensures s <= n && Records(es, s, n) == k
    decreases n
  {
    if k == 0 {
      s := n;
    } else {
      s := WindowStart(es, n - 1, if es[n - 1].Record? then k - 1 else k);
    }
  }

  /** A window of records begins at `s` and ends with call `i`, and its failures reach the ratio. */
  predicate BadWindow(c: Config, es: seq<Call>, s: nat, i: nat)
    requires c.window >= 1 && s <= i < |es|
  {
    IsWindow(c, es, s, i + 1) && Failures(es, s, i + 1) as real >= c.failureRatio * c.window as real
  }

  /** The breaker opens exactly at the end of such a window, whatever state it is in. */
  lemma OpensIff(c: Config, es: seq<Call>, i: nat)
    requires c.window >= 1 && i < |es|
    ensures Opens(c, es, i) <==> es[i].Record? && exists s: nat :: s <= i && BadWindow(c, es, s, i)
  {
    hide RecordStep, After, Failures, IsWindow;
    if Opens(c, es, i) {
      var s := WindowOf(c, es, i);
      WindowDecides(c, es, s, i);
      assert BadWindow(c, es, s, i);
    }
    forall s: nat | es[i].Record? && s <= i && BadWindow(c, es, s, i) { WindowDecides(c, es, s, i); }
  }

  /** The window that an opening ends. */
  lemma WindowOf(c: Config, es: seq<Call>, i: nat) returns (s: nat)
    requires c.window >= 1 && i < |es| && Opens(c, es, i)
    ensures s <= i && IsWindow(c, es, s, i + 1)
  {
    hide RecordStep, After;
    var q := OpensAtMultiple(c, es, i);
    RecordsSplit(es, 0, i, i + 1);
    assert Records(es, i, i + 1) == 1;
    assert 0 * c.window == 0;
    ProductOrder(q, 1, c.window);
    s := WindowStart(es, i + 1, c.window);
    RecordsSplit(es, 0, s, i + 1);
    assert Records(es, 0, s) == (q - 1) * c.window + 0;
    Remainder(q - 1, c.window, 0);
  }

  // ----- interleaved atomic steps -----

  /** Where a thread is inside `record` or `allow`. */
  datatype Pc =
    | Idle
    | Counting(success: bool)
    | Noting(success: bool, t: nat)
    | Swapping(t: nat)
    | Resetting(t: nat, f: nat)
    | Judging(t: nat, f: nat)
    | Stamping
    | Opening
    | Checking
    | Reading
    | Waiting(since: nat)

  /** The shared atomics, the threads, and counters of the history: failures recorded, the
      sum of the failure counts swapped out to compute ratios, and openings. */
  datatype World = World(core: Core, threads: map<nat, Pc>, recorded: nat, swapped: nat, openings: nat)

  const Start := World(Fresh, map[], 0, 0, 0)

  datatype Move = Begin(tid: nat, pc: Pc) | Go(tid: nat, now: nat)

  function PcOf(w: World, tid: nat): Pc { if tid in w.threads then w.threads[tid] else Idle }

  function To(w: World, tid: nat, pc: Pc, core: Core): World { w.(core := core, threads := w.threads[tid := pc]) }

  /** One atomic step of one thread. */
  function Advance(c: Config, w: World, m: Move): World {
    var b := w.core;
    match m
    case Begin(tid, pc) =>
      if PcOf(w, tid) == Idle && (pc.Counting? || pc.Checking?) then To(w, tid, pc, b) else w
    case Go(tid, now) =>
      match PcOf(w, tid)
      case Idle => w
      case Counting(success) => To(w, tid, Noting(success, b.total + 1), b.(total := b.total + 1))
      case Noting(success, t) =>
        if success then To(w, tid, Swapping(t), b)
        else To(w, tid, Swapping(t), b.(failures := b.failures + 1)).(recorded := w.recorded + 1)
      case Swapping(t) =>
        if t < c.window then To(w, tid, Idle, b)
        else To(w, tid, Resetting(t, b.failures), b.(failures := 0)).(swapped := w.swapped + b.failures)
      case Resetting(t, f) => To(w, tid, Judging(t, f), b.(total := 0))
      case Judging(t, f) => To(w, tid, if Trips(c, f, t) then Stamping else Idle, b)
      case Stamping => To(w, tid, Opening, b.(openedAt := now))
      case Opening => To(w, tid, Idle, b.(state := Open)).(openings := w.openings + 1)
      case Checking => To(w, tid, if b.state == Open then Reading else Idle, b)
      case Reading => To(w, tid, Waiting(b.openedAt), b)
      case Waiting(since) => To(w, tid, Idle, if Expired(c, since, now) then b.(state := HalfOpen) else b)
  }

  function Interleave(c: Config, w: World, ms: seq<Move>): World
    decreases |ms|
  {
    if ms == [] then w else Interleave(c, Advance(c, w, ms[0]), ms[1..])
  }

  /** Under every interleaving each recorded failure is either still counted or was swapped
      out exactly once, so it enters at most one ratio, and a breaker that has left Closed
      does not return to it. */
  lemma {:induction false} FailuresConserved(c: Config, w: World, ms: seq<Move>)
    requires w.recorded == w.swapped + w.core.failures
    ensures var w' := Interleave(c, w, ms);
      && w'.recorded == w'.swapped + w'.core.failures
      && (w.core.state != Closed ==> w'.core.state != Closed)
    decreases |ms|
  {
    if ms != [] {
      hide Trips, Expired;
      FailuresConserved(c, Advance(c, w, ms[0]), ms[1..]);
    }
  }

  // ----- how often the breaker can open, under every interleaving -----

  /** The failures that one opening takes at least. */
  function Share(c: Config): real { c.failureRatio * c.window as real }

  /** What a thread still holds of the failures it swapped out: all until it has judged them,
      then one share if they tripped. */
  function Held(c: Config, pc: Pc): real {
    match pc
    case Resetting(_, f) => f as real
    case Judging(_, f) => f as real
    case Stamping => Share(c)
    case Opening => Share(c)
    case _ => 0.0
  }

  /** All that threads below `n` hold. */
  function HeldBelow(c: Config, w: World, n: nat): real {
    if n == 0 then 0.0 else HeldBelow(c, w, n - 1) + Held(c, PcOf(w, n - 1))
  }

  lemma {:induction false} HeldAfter(c: Config, w: World, w': World, tid: nat, n: nat)
    requires forall o: nat | o != tid :: PcOf(w', o) == PcOf(w, o)
    ensures HeldBelow(c, w', n) ==
      HeldBelow(c, w, n) + if tid < n then Held(c, PcOf(w', tid)) - Held(c, PcOf(w, tid)) else 0.0
    decreases n
  {
    hide Held, PcOf;
    if n > 0 { HeldAfter(c, w, w', tid, n - 1); }
  }

  /** A thread that swaps the failures out has counted a full window. */
  predicate Filled(c: Config, pc: Pc) {
    match pc
    case Resetting(t, _) => t >= c.window
    case Judging(t, _) => t >= c.window
    case _ => true
  }

  ghost predicate Budgeted(c: Config, w: World, n: nat) {
    && (forall o: nat | o < n :: Filled(c, PcOf(w, o)))
    && w.openings as real * Share(c) + HeldBelow(c, w, n) <= w.swapped as real
  }

  lemma TrippedShare(c: Config, f: nat, t: nat)
    requires c.failureRatio >= 0.0 && t >= c.window && Trips(c, f, t)
    ensures f as real >= Share(c)
  {
    var q := f as real / t as real;
    assert f as real == q * t as real;
    Scaled(c.failureRatio, q, t as real);
    Scaled(c.window as real, t as real, c.failureRatio);
  }

  lemma Scaled(x: real, y: real, z: real)
    requires x <= y && z >= 0.0
    ensures x * z <= y * z
  {}

  lemma OneMore(n: nat, x: real)
    ensures (n + 1) as real * x == n as real * x + x
  {}

  /** A step keeps what it gives up within what it had. */
  lemma PcAdvances(c: Config, w: World, tid: nat, now: nat)
    requires c.failureRatio >= 0.0 && Filled(c, PcOf(w, tid))
    ensures var w' := Advance(c, w, Go(tid, now));
      && Filled(c, PcOf(w', tid))
      && w'.openings as real * Share(c) + Held(c, PcOf(w', tid)) - w'.swapped as real
           <= w.openings as real * Share(c) + Held(c, PcOf(w, tid)) - w.swapped as real
  {
    hide Trips, Expired, Share;
    OneMore(w.openings, Share(c));
    match PcOf(w, tid)
    case Judging(t, f) => if Trips(c, f, t) { TrippedShare(c, f, t); }
    case _ =>
  }

  lemma BeginHolds(c: Config, w: World, tid: nat, pc: Pc)
    ensures var w' := Advance(c, w, Begin(tid, pc));
      && w'.openings == w.openings && w'.swapped == w.swapped && (Filled(c, PcOf(w, tid)) ==> Filled(c, PcOf(w', tid)))
      && Held(c, PcOf(w', tid)) == Held(c, PcOf(w, tid))
  {}

  lemma OthersStay(c: Config, w: World, m: Move)
    ensures forall o: nat | o != m.tid :: PcOf(Advance(c, w, m), o) == PcOf(w, o)
  {
    hide Trips, Expired;
  }

  lemma StepBudgeted(c: Config, w: World, m: Move, n: nat)
    requires c.failureRatio >= 0.0 && m.tid < n && Budgeted(c, w, n)
    ensures Budgeted(c, Advance(c, w, m), n)
  {
    hide Advance, Held, Filled, Share, PcOf, HeldBelow;
    OthersStay(c, w, m);
    HeldAfter(c, w, Advance(c, w, m), m.tid, n);
    assert Filled(c, PcOf(w, m.tid));
    match m
    case Begin(tid, pc) => BeginHolds(c, w, tid, pc);
    case Go(tid, now) => PcAdvances(c, w, tid, now);
  }

  lemma {:induction false} RunBudgeted(c: Config, w: World, ms: seq<Move>, n: nat)
    requires c.failureRatio >= 0.0 && Budgeted(c, w, n) && forall m <- ms :: m.tid < n
    ensures Budgeted(c, Interleave(c, w, ms), n)
    decreases |ms|
  {
    hide Advance, Budgeted;
    if ms != [] {
      assert ms[0] in ms;
      StepBudgeted(c, w, ms[0], n);
      RunBudgeted(c, Advance(c, w, ms[0]), ms[1..], n);
    }
  }

  function TidBound(ms: seq<Move>): (n: nat)
    ensures forall m <- ms :: m.tid < n
  {
    if ms == [] then 0
    else var n := TidBound(ms[1..]); if n > ms[0].tid then n else ms[0].tid + 1
  }

  lemma {:induction false} NothingHeld(c: Config, n: nat)
    ensures HeldBelow(c, Start, n) == 0.0
    decreases n
  {
    if n > 0 { NothingHeld(c, n - 1); }
  }

  lemma {:induction false} HeldNotNegative(c: Config, w: World, n: nat)
    requires c.failureRatio >= 0.0
    ensures HeldBelow(c, w, n) >= 0.0
    decreases n
  {
    Scaled(0.0, c.failureRatio, c.window as real);
    hide Share;
    if n > 0 { HeldNotNegative(c, w, n - 1); }
  }

  /** In every interleaving of any threads the openings are paid for: each takes its share of a
      window of recorded failures, and no failure pays for two. */
  lemma OpeningsPaid(c: Config, ms: seq<Move>)
    requires c.failureRatio >= 0.0
    ensures var w := Interleave(c, Start, ms);
      w.openings as real * (c.failureRatio * c.window as real) <= w.recorded as real
  {
    hide Interleave, Advance, Filled;
    var n := TidBound(ms);
    NothingHeld(c, n);
    assert forall o: nat | o < n :: Filled(c, PcOf(Start, o)) by { IdleFilled(c); }
    RunBudgeted(c, Start, ms, n);
    FailuresConserved(c, Start, ms);
    HeldNotNegative(c, Interleave(c, Start, ms), n);
  }

  lemma IdleFilled(c: Config)
    ensures forall o: nat :: Filled(c, PcOf(Start, o))
  {}

  /** `n` steps of one thread with no other thread in between. */
  function Solo(c: Config, w: World, tid: nat, now: nat, n: nat): World
    decreases n
  {
    if n == 0 then w else Solo(c, Advance(c, w, Go(tid, now)), tid, now, n - 1)
  }

  lemma {:induction false} SoloIdle(c: Config, w: World, tid: nat, now: nat, n: nat)
    requires PcOf(w, tid) == Idle
    ensures Solo(c, w, tid, now, n) == w
    decreases n
  {
    if n > 0 { SoloIdle(c, w, tid, now, n - 1); }
  }

  lemma SoloStep(c: Config, w: World, tid: nat, now: nat, n: nat)
    requires n > 0
    ensures Solo(c, w, tid, now, n) == Solo(c, Advance(c, w, Go(tid, now)), tid, now, n - 1)
  {}

  /** A record that no other thread interrupts does what the sequential method does. */
  lemma SoloRecord(c: Config, w: World, tid: nat, success: bool, now: nat)
    requires PcOf(w, tid) == Idle
    ensures var w' := Solo(c, Advance(c, w, Begin(tid, Counting(success))), tid, now, 7);
      w'.core == RecordStep(c, w.core, success, now).0 && PcOf(w', tid) == Idle
  {
    hide Solo, Trips;
    var go := Go(tid, now);
    var w0 := Advance(c, w, Begin(tid, Counting(success)));
    var w1 := Advance(c, w0, go);
    var w2 := Advance(c, w1, go);
    var w3 := Advance(c, w2, go);
    SoloStep(c, w0, tid, now, 7);
    SoloStep(c, w1, tid, now, 6);
    SoloStep(c, w2, tid, now, 5);
    if PcOf(w3, tid) == Idle {
      SoloIdle(c, w3, tid, now, 4);
    } else {
      SoloTrip(c, w3, tid, now, w.core.total + 1, w.core.failures + (if success then 0 else 1));
    }
  }

  /** So does an admission. */
  lemma SoloAllow(c: Config, w: World, tid: nat, now: nat)
    requires PcOf(w, tid) == Idle
    ensures var w' := Solo(c, Advance(c, w, Begin(tid, Checking)), tid, now, 3);
      w'.core == AllowStep(c, w.core, now).0 && PcOf(w', tid) == Idle
  {
    hide Expired;
    var w0 := Advance(c, w, Begin(tid, Checking));
    SoloFew(c, w0, tid, now);
  }

  lemma SoloTrip(c: Config, w: World, tid: nat, now: nat, t: nat, f: nat)
    requires PcOf(w, tid) == Resetting(t, f)
    ensures var w' := Solo(c, w, tid, now, 4);
      && PcOf(w', tid) == Idle && (forall o | o != tid :: PcOf(w', o) == PcOf(w, o))
      && w'.core == w.core.(total := 0, openedAt := if Trips(c, f, t) then now else w.core.openedAt,
                            state := if Trips(c, f, t) then Open else w.core.state)
      && w'.openings == w.openings + if Trips(c, f, t) then 1 else 0
  {
    hide Solo, Trips;
    var go := Go(tid, now);
    var w1 := Advance(c, w, go);
    var w2 := Advance(c, w1, go);
    SoloStep(c, w, tid, now, 4);
    SoloStep(c, w1, tid, now, 3);
    if Trips(c, f, t) {
      var w3 := Advance(c, w2, go);
      SoloStep(c, w2, tid, now, 2);
      SoloStep(c, w3, tid, now, 1);
      SoloIdle(c, Advance(c, w3, go), tid, now, 0);
    } else {
      SoloIdle(c, w2, tid, now, 2);
    }
  }

  // ----- two threads at once -----

  /** `n` steps of one thread. */
  function Gos(tid: nat, now: nat, n: nat): seq<Move> {
    if n == 0 then [] else [Go(tid, now)] + Gos(tid, now, n - 1)
  }

  lemma {:induction false} InterleaveGos(c: Config, w: World, tid: nat, now: nat, n: nat, ms: seq<Move>)
    ensures Interleave(c, w, Gos(tid, now, n) + ms) == Interleave(c, Solo(c, w, tid, now, n), ms)
    decreases n
  {
    hide Advance;
    if n == 0 {
      assert Gos(tid, now, n) + ms == ms;
    } else {
      var go := Go(tid, now);
      assert Gos(tid, now, n) + ms == [go] + (Gos(tid, now, n - 1) + ms);
      InterleaveFirst(c, w, go, Gos(tid, now, n - 1) + ms);
      InterleaveGos(c, Advance(c, w, go), tid, now, n - 1, ms);
    }
  }

  lemma InterleaveFirst(c: Config, w: World, m: Move, ms: seq<Move>)
    ensures Interleave(c, w, [m] + ms) == Interleave(c, Advance(c, w, m), ms)
  {
    hide Advance;
    assert ([m] + ms)[1..] == ms;
  }

  lemma SoloFew(c: Config, w: World, tid: nat, now: nat)
    ensures var go := Go(tid, now);
      var w1 := Advance(c, w, go);
      var w2 := Advance(c, w1, go);
      && Solo(c, w, tid, now, 1) == w1 && Solo(c, w, tid, now, 2) == w2
      && Solo(c, w, tid, now, 3) == Advance(c, w2, go)
  {
    hide Advance;
    var go := Go(tid, now);
    var w1 := Advance(c, w, go);
    var w2 := Advance(c, w1, go);
    assert Solo(c, w2, tid, now, 1) == Advance(c, w2, go);
    assert Solo(c, w1, tid, now, 2) == Solo(c, w2, tid, now, 1);
  }

  /** The service's ratio, and a window of 2. */
  const Shared := Config(0.5, 2, 10)

  const Fail := Counting(false)

  /** One failed record, then two more at once: thread 2 overtakes thread 1 after both have
      counted, and both see the window full before either resets the counter. */
  function Overtaking(): seq<Move> {
    [Begin(0, Fail)] + (Gos(0, 5, 3) + ([Begin(1, Fail)] + ([Begin(2, Fail)] +
      (Gos(1, 5, 1) + (Gos(2, 5, 3) + (Gos(1, 5, 2) + (Gos(1, 5, 4) + (Gos(2, 5, 4) + []))))))))
  }

  /** After the first record and with the two others begun. */
  function Begun(): World {
    World(Core(Closed, 1, 1, 0), map[0 := Idle, 1 := Fail, 2 := Fail], 1, 0, 0)
  }

  lemma OneRecorded()
    ensures Solo(Shared, Advance(Shared, Start, Begin(0, Fail)), 0, 5, 3) ==
      World(Core(Closed, 1, 1, 0), map[0 := Idle], 1, 0, 0)
  {
    var w := Advance(Shared, Start, Begin(0, Fail));
    SoloFew(Shared, w, 0, 5);
    hide Solo;
    assert w == World(Core(Closed, 0, 0, 0), map[0 := Fail], 0, 0, 0);
    var w1 := Advance(Shared, w, Go(0, 5));
    assert w1 == World(Core(Closed, 0, 1, 0), map[0 := Noting(false, 1)], 0, 0, 0);
    var w2 := Advance(Shared, w1, Go(0, 5));
    assert w2 == World(Core(Closed, 1, 1, 0), map[0 := Swapping(1)], 1, 0, 0);
  }

  lemma BothBegin()
    ensures Advance(Shared, Advance(Shared, World(Core(Closed, 1, 1, 0), map[0 := Idle], 1, 0, 0), Begin(1, Fail)),
              Begin(2, Fail)) == Begun()
  {
    var w := Advance(Shared, World(Core(Closed, 1, 1, 0), map[0 := Idle], 1, 0, 0), Begin(1, Fail));
    assert w == World(Core(Closed, 1, 1, 0), map[0 := Idle, 1 := Fail], 1, 0, 0);
  }

  /** Both have swapped out a failure count that trips, and neither has reset the counter. */
  lemma BothSwapped()
    ensures var w := Solo(Shared, Solo(Shared, Solo(Shared, Begun(), 1, 5, 1), 2, 5, 3), 1, 5, 2);
      w.openings == 0 && PcOf(w, 1) == Resetting(2, 1) && PcOf(w, 2) == Resetting(3, 2)
  {
    SoloFew(Shared, Begun(), 1, 5);
    hide Solo;
    var w1 := Solo(Shared, Begun(), 1, 5, 1);
    assert w1 == World(Core(Closed, 1, 2, 0), map[0 := Idle, 1 := Noting(false, 2), 2 := Fail], 1, 0, 0);
    SoloFew(Shared, w1, 2, 5);
    var a := Advance(Shared, w1, Go(2, 5));
    assert a == World(Core(Closed, 1, 3, 0), map[0 := Idle, 1 := Noting(false, 2), 2 := Noting(false, 3)], 1, 0, 0);
    var b := Advance(Shared, a, Go(2, 5));
    assert b == World(Core(Closed, 2, 3, 0), map[0 := Idle, 1 := Noting(false, 2), 2 := Swapping(3)], 2, 0, 0);
    var w2 := Solo(Shared, w1, 2, 5, 3);
    assert w2 == World(Core(Closed, 0, 3, 0), map[0 := Idle, 1 := Noting(false, 2), 2 := Resetting(3, 2)], 2, 2, 0);
    SoloFew(Shared, w2, 1, 5);
    var d := Advance(Shared, w2, Go(1, 5));
    assert d == World(Core(Closed, 1, 3, 0), map[0 := Idle, 1 := Swapping(2), 2 := Resetting(3, 2)], 3, 2, 0);
  }

  lemma NoMoves(c: Config, w: World)
    ensures Interleave(c, w, []) == w
  {}

  /** Interleaved records do not keep openings a window apart: with a window of 2 and a
      ratio of one half, three failed records on a fresh breaker open it twice. */
  lemma ConcurrentOpeningsCollide()
    ensures Interleave(Shared, Start, Overtaking()).openings == 2
  {
    OneRecorded();
    BothBegin();
    BothSwapped();
    assert Trips(Shared, 1, 2) && Trips(Shared, 2, 3);
    hide Interleave, Advance, Solo, Gos, Trips;
    var w1 := Advance(Shared, Start, Begin(0, Fail));
    var w2 := Solo(Shared, w1, 0, 5, 3);
    var w3 := Advance(Shared, w2, Begin(1, Fail));
    var w5 := Solo(Shared, Begun(), 1, 5, 1);
    var w6 := Solo(Shared, w5, 2, 5, 3);
    var w7 := Solo(Shared, w6, 1, 5, 2);
    var w8 := Solo(Shared, w7, 1, 5, 4);
    SoloTrip(Shared, w7, 1, 5, 2, 1);
    SoloTrip(Shared, w8, 2, 5, 3, 2);
    var r9: seq<Move> := Gos(2, 5, 4) + [];
    var r8 := Gos(1, 5, 4) + r9;
    var r7 := Gos(1, 5, 2) + r8;
    var r6 := Gos(2, 5, 3) + r7;
    var r5 := Gos(1, 5, 1) + r6;
    InterleaveFirst(Shared, Start, Begin(0, Fail), Gos(0, 5, 3) + ([Begin(1, Fail)] + ([Begin(2, Fail)] + r5)));
    InterleaveGos(Shared, w1, 0, 5, 3, [Begin(1, Fail)] + ([Begin(2, Fail)] + r5));
    InterleaveFirst(Shared, w2, Begin(1, Fail), [Begin(2, Fail)] + r5);
    InterleaveFirst(Shared, w3, Begin(2, Fail), r5);
    InterleaveGos(Shared, Begun(), 1, 5, 1, r6);
    InterleaveGos(Shared, w5, 2, 5, 3, r7);
    InterleaveGos(Shared, w6, 1, 5, 2, r8);
    InterleaveGos(Shared, w7, 1, 5, 4, r9);
    InterleaveGos(Shared, w8, 2, 5, 4, []);
    NoMoves(Shared, Solo(Shared, w8, 2, 5, 4));
  }
}
