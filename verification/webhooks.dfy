/** Retries with backoff, and the paginated address listing that runs under them. */
module Webhooks {
  import opened Wrappers
  import Orders
  import opened Rounding

  /** Delays are 64-bit counts of nanoseconds. `outOfRange` is what the platform makes of a float64 that no
      64-bit integer can hold, which the language leaves open. */
  datatype RetryConfig = RetryConfig(
    maxAttempts: int, initialDelay: int, maxDelay: int, multiplier: real, outOfRange: real -> int)

  datatype RetryOutcome = Succeeded | Cancelled | Exhausted

  function ToInt64(x: real, outOfRange: real -> int): int {
    if -0x8000_0000_0000_0000 <= Trunc(x) < 0x8000_0000_0000_0000 then Trunc(x) else outOfRange(x)
  }

  /** The product of two float64 values, as a 64-bit integer. */
  function Grown(delay: real, multiplier: real, outOfRange: real -> int): int {
    ToInt64(Round(53, delay * multiplier), outOfRange)
  }

  /** The delay is converted to a float64, multiplied as one, truncated and capped. */
  function NextDelay(cfg: RetryConfig, delay: int): int {
    var grown := Grown(Round(53, delay as real), cfg.multiplier, cfg.outOfRange);
    if grown > cfg.maxDelay then cfg.maxDelay else grown
  }

  /** The wait after the k-th failure, counted from 0. */
  function DelayAt(cfg: RetryConfig, k: nat): int {
    if k == 0 then cfg.initialDelay else NextDelay(cfg, DelayAt(cfg, k - 1))
  }

  /** Everything a retried operation does: `fn(i)` tells whether its i-th run succeeds, `cancelled(i)`
      whether the context ends during the i-th wait. */
  ghost predicate Retried(
    cfg: RetryConfig, fn: nat -> bool, cancelled: nat -> bool, outcome: RetryOutcome, runs: nat, waits: seq<int>)
  {
    var failures := if outcome == Succeeded then runs - 1 else runs;
    && runs <= (if cfg.maxAttempts < 0 then 0 else cfg.maxAttempts)
    && (forall i: nat | i < failures :: !fn(i))
    && (forall k | 0 <= k < |waits| :: waits[k] == DelayAt(cfg, k))
    && (match outcome
        case Succeeded => runs > 0 && fn(runs - 1) && |waits| == runs - 1
        case Cancelled => 0 < runs < cfg.maxAttempts && cancelled(runs - 1) && |waits| == runs
        case Exhausted => runs == (if cfg.maxAttempts < 0 then 0 else cfg.maxAttempts)
                          && |waits| == (if runs == 0 then 0 else runs - 1))
    && (forall i: nat | i < |waits| && !(outcome == Cancelled && i == runs - 1) :: !cancelled(i))
  }

  /** The state of the retry loop before run `attempt`: every run so far has failed, and every wait so far
      was that of the schedule and not interrupted. */
  ghost predicate Trying(
    cfg: RetryConfig, fn: nat -> bool, cancelled: nat -> bool, attempt: nat, delay: int, waits: seq<int>)
  {
    && attempt <= (if cfg.maxAttempts < 0 then 0 else cfg.maxAttempts)
    && (forall i: nat | i < attempt :: !fn(i))
    && |waits| == (if attempt > 0 && attempt == cfg.maxAttempts then attempt - 1 else attempt)
    && (attempt < cfg.maxAttempts ==> delay == DelayAt(cfg, attempt))
    && (forall k | 0 <= k < |waits| :: waits[k] == DelayAt(cfg, k))
    && (forall i: nat | i < |waits| :: !cancelled(i))
  }

  lemma TryingStarts(cfg: RetryConfig, fn: nat -> bool, cancelled: nat -> bool)
    ensures Trying(cfg, fn, cancelled, 0, cfg.initialDelay, [])
  {
  }

  /** One round of the loop, however it ends. */
  lemma TryingStep(cfg: RetryConfig, fn: nat -> bool, cancelled: nat -> bool, attempt: nat, delay: int, waits: seq<int>)
    requires Trying(cfg, fn, cancelled, attempt, delay, waits) && attempt < cfg.maxAttempts
    ensures fn(attempt) ==> Retried(cfg, fn, cancelled, Succeeded, attempt + 1, waits)
    ensures !fn(attempt) && attempt < cfg.maxAttempts - 1 ==>
              if cancelled(attempt) then Retried(cfg, fn, cancelled, Cancelled, attempt + 1, waits + [delay])
              else Trying(cfg, fn, cancelled, attempt + 1, NextDelay(cfg, delay), waits + [delay])
    ensures !fn(attempt) && attempt == cfg.maxAttempts - 1 ==>
              Trying(cfg, fn, cancelled, attempt + 1, delay, waits)
  {
    hide NextDelay;
  }

  lemma TryingEnds(cfg: RetryConfig, fn: nat -> bool, cancelled: nat -> bool, attempt: nat, delay: int, waits: seq<int>)
    requires Trying(cfg, fn, cancelled, attempt, delay, waits) && attempt >= cfg.maxAttempts
    ensures Retried(cfg, fn, cancelled, Exhausted, attempt, waits)
  {
  }

  lemma RetriedMeans(
    cfg: RetryConfig, fn: nat -> bool, cancelled: nat -> bool, outcome: RetryOutcome, runs: nat, waits: seq<int>)
    requires Retried(cfg, fn, cancelled, outcome, runs, waits)
    ensures runs <= (if cfg.maxAttempts < 0 then 0 else cfg.maxAttempts)
    ensures forall i: nat | i < runs - 1 :: !fn(i)
    ensures outcome == Succeeded <==> runs > 0 && fn(runs - 1)
    ensures outcome == Cancelled ==> 0 < runs < cfg.maxAttempts && |waits| == runs && cancelled(runs - 1)
    ensures outcome == Exhausted ==> runs == (if cfg.maxAttempts < 0 then 0 else cfg.maxAttempts)
    ensures outcome != Cancelled ==> |waits| == (if runs == 0 then 0 else runs - 1)
    ensures forall i: nat | i < runs - 1 :: !cancelled(i)
    ensures forall k | 0 <= k < |waits| :: waits[k] == DelayAt(cfg, k)
  {
    hide NextDelay;
  }

  method ExecuteWithRetry(cfg: RetryConfig, fn: nat -> bool, cancelled: nat -> bool)
    returns (outcome: RetryOutcome, runs: nat, waits: seq<int>)
    ensures Retried(cfg, fn, cancelled, outcome, runs, waits)
    ensures runs <= (if cfg.maxAttempts < 0 then 0 else cfg.maxAttempts)
    ensures forall i: nat | i < runs - 1 :: !fn(i)
    ensures outcome == Succeeded <==> runs > 0 && fn(runs - 1)
    ensures outcome == Cancelled ==> 0 < runs < cfg.maxAttempts && |waits| == runs && cancelled(runs - 1)
    ensures outcome == Exhausted ==> runs == (if cfg.maxAttempts < 0 then 0 else cfg.maxAttempts)
    ensures outcome != Cancelled ==> |waits| == (if runs == 0 then 0 else runs - 1)
    ensures forall i: nat | i < runs - 1 :: !cancelled(i)
    ensures forall k | 0 <= k < |waits| :: waits[k] == DelayAt(cfg, k)
  {
    hide NextDelay, Retried, Trying;
    runs, waits := 0, [];
    var delay := cfg.initialDelay;
    var attempt: nat := 0;
    TryingStarts(cfg, fn, cancelled);
    while attempt < cfg.maxAttempts
      invariant runs == attempt && Trying(cfg, fn, cancelled, attempt, delay, waits)
    {
      TryingStep(cfg, fn, cancelled, attempt, delay, waits);
      var ok := fn(attempt);
      runs := runs + 1;
      if ok {
        RetriedMeans(cfg, fn, cancelled, Succeeded, runs, waits);
        return Succeeded, runs, waits;
      }
      if attempt < cfg.maxAttempts - 1 {
        waits := waits + [delay];
        if cancelled(attempt) {
          RetriedMeans(cfg, fn, cancelled, Cancelled, runs, waits);
          return Cancelled, runs, waits;
        }
        delay := NextDelay(cfg, delay);
      }
      attempt := attempt + 1;
    }
    TryingEnds(cfg, fn, cancelled, attempt, delay, waits);
    RetriedMeans(cfg, fn, cancelled, Exhausted, runs, waits);
    return Exhausted, runs, waits;
  }

  // ----- The schedule -----

  function Power(m: nat, k: nat): nat {
    if k == 0 then 1 else m * Power(m, k - 1)
  }

  function Min(a: int, b: int): int { if a < b then a else b }

  /** Up to here, in nanoseconds 104 days, every integer is a float64. */
  const EXACT: int := 0x20_0000_0000_0000

  /** The largest float64 below 2^63. */
  const LARGEST: int := 0x7fff_ffff_ffff_fc00

  lemma ExactIsFloat(n: int)
    requires 0 <= n <= EXACT
    ensures IsFloat(53, n as real) && Round(53, n as real) == n as real
  {
    hide IntPow2, Round;
    IntPow2Values();
    IntIsFloat(53, n);
    RoundOfFloat(53, n as real);
  }

  lemma LargestIsFloat()
    ensures IsFloat(53, LARGEST as real)
  {
    IntPow2Values();
    assert IntPow2(10) == 1024 by { IntPow2Sum(4, 4); IntPow2Sum(8, 2); assert IntPow2(2) == 4; assert IntPow2(4) == 16; }
    Pow2Add(0, 10);
    hide IntPow2, Pow2;
    assert Scaled(0x1f_ffff_ffff_ffff, 10) == LARGEST as real;
  }

  lemma ProductAsReal(d: int, m: nat)
    requires d >= 0
    ensures d as real * m as real == (d * m) as real && d * m >= 0
  {
  }

  /** The rounded product of two whole numbers is exact or far above the cap. */
  lemma GrownIs(d: int, m: nat, outOfRange: real -> int)
    requires d >= 0 && d * m <= LARGEST
    ensures var grown := Grown(d as real, m as real, outOfRange);
            if d * m <= EXACT then grown == d * m else grown >= EXACT
  {
    hide Grown, Round, ToInt64;
    ProductAsReal(d, m);
    GrownOf(d as real, m as real, d * m, outOfRange);
    ConvertedIs(d * m, outOfRange);
  }

  lemma GrownOf(x: real, y: real, n: int, outOfRange: real -> int)
    requires x * y == n as real
    ensures Grown(x, y, outOfRange) == ToInt64(Round(53, n as real), outOfRange)
  {
    hide Round, ToInt64;
  }

  lemma ConvertedIs(n: int, outOfRange: real -> int)
    requires 0 <= n <= LARGEST
    ensures var converted := ToInt64(Round(53, n as real), outOfRange);
            if n <= EXACT then converted == n else converted >= EXACT
  {
    hide Round, IsFloat;
    ExactIsFloat(EXACT);
    LargestIsFloat();
    RoundStays(53, n as real, LARGEST as real);
    if n <= EXACT { ExactIsFloat(n); } else { RoundStays(53, n as real, EXACT as real); }
  }

  lemma NextDelayIs(cfg: RetryConfig, d: int, m: nat)
    requires 0 <= d <= EXACT && 0 <= cfg.maxDelay <= EXACT && d * m <= LARGEST && cfg.multiplier == m as real
    ensures NextDelay(cfg, d) == Min(cfg.maxDelay, d * m)
  {
    ExactIsFloat(d);
    GrownIs(d, m, cfg.outOfRange);
    hide Round, Grown, IsFloat;
  }

  lemma CapThenGrow(x: int, cap: int, m: nat)
    requires x >= 0 && cap >= 0 && m >= 1
    ensures Min(cap, Min(cap, x) * m) == Min(cap, x * m)
  {
    if x > cap { assert x * m >= cap * m >= cap; }
  }

  lemma PowerPush(d: int, m: nat, k: nat)
    ensures d * Power(m, k) * m == d * Power(m, k + 1)
  {
    assert Power(m, k + 1) == m * Power(m, k);
    assert d * Power(m, k) * m == d * (Power(m, k) * m);
  }

  lemma NonNegativeProduct(d: int, p: nat)
    requires d >= 0
    ensures d * p >= 0
  {
  }

  lemma SmallerProduct(a: int, b: int, m: nat)
    requires a <= b
    ensures a * m <= b * m
  {
  }

  /** For a whole multiplier the waits are the initial delay, which is not capped, and from then on the
      smaller of the maximum and the initial delay times the power of the multiplier. Both delays may be
      up to 104 days, and neither may overflow when multiplied. */
  lemma {:induction false} Schedule(cfg: RetryConfig, m: nat, k: nat)
    requires cfg.multiplier == m as real && m >= 1 && k >= 1
    requires 0 <= cfg.initialDelay <= EXACT && cfg.initialDelay * m <= LARGEST
    requires 0 <= cfg.maxDelay <= EXACT && cfg.maxDelay * m <= LARGEST
    ensures DelayAt(cfg, k) == Min(cfg.maxDelay, cfg.initialDelay * Power(m, k))
  {
    hide Power, NextDelay;
    if k == 1 {
      FirstPower(m);
      NextDelayIs(cfg, cfg.initialDelay, m);
      assert DelayAt(cfg, 0) == cfg.initialDelay;
    } else {
      Schedule(cfg, m, k - 1);
      var x := cfg.initialDelay * Power(m, k - 1);
      NonNegativeProduct(cfg.initialDelay, Power(m, k - 1));
      SmallerProduct(Min(cfg.maxDelay, x), cfg.maxDelay, m);
      NextDelayIs(cfg, Min(cfg.maxDelay, x), m);
      CapThenGrow(x, cfg.maxDelay, m);
      PowerPush(cfg.initialDelay, m, k - 1);
    }
  }

  /** The first wait is not capped, so that no wait exceeds the maximum exactly if the initial delay does not. */
  lemma {:induction false} WaitsAreCapped(cfg: RetryConfig)
    ensures (forall k: nat :: DelayAt(cfg, k) <= cfg.maxDelay) <==> cfg.initialDelay <= cfg.maxDelay
  {
    hide NextDelay;
    assert DelayAt(cfg, 0) == cfg.initialDelay;
    if cfg.initialDelay <= cfg.maxDelay {
      forall k: nat ensures DelayAt(cfg, k) <= cfg.maxDelay { if k > 0 { LaterWaitIsCapped(cfg, k); } }
    } else {
      assert exists k: nat :: DelayAt(cfg, k) > cfg.maxDelay;
    }
  }

  lemma LaterWaitIsCapped(cfg: RetryConfig, k: nat)
    requires k >= 1
    ensures DelayAt(cfg, k) <= cfg.maxDelay
  {
    hide Grown;
  }

  /** The product is rounded as a float64 before it is truncated: a second at the multiplier 1.4, whose
      double lies below it, grows to 1.4 seconds and not to one nanosecond less. */
  lemma FractionalMultiplier(cfg: RetryConfig)
    requires cfg.multiplier == 6_305_039_478_318_694.0 / 4_503_599_627_370_496.0 && cfg.maxDelay >= 1_400_000_000
    ensures NextDelay(cfg, 1_000_000_000) == 1_400_000_000
    ensures Trunc(1_000_000_000.0 * cfg.multiplier) == 1_399_999_999
  {
    hide IntPow2, Round, Pow2, ToInt64, IsFloat;
    IntPow2Values();
    ExactIsFloat(1_000_000_000);
    var x := 1_000_000_000.0 * cfg.multiplier;
    assert IntPow2(22) == 4_194_304 by { IntPow2At22(); }
    RoundIs(53, x, 22, x * IntPow2(22) as real, 5_872_025_600_000_000);
    assert Pow2(-22) * IntPow2(22) as real == 1.0 by { Pow2Neg(22); }
    assert Round(53, x) == 1_400_000_000.0;
    assert ToInt64(1_400_000_000.0, cfg.outOfRange) == 1_400_000_000 by { SmallToInt64(cfg.outOfRange); }
  }

  lemma SmallToInt64(outOfRange: real -> int)
    ensures ToInt64(1_400_000_000.0, outOfRange) == 1_400_000_000
  {
  }

  lemma IntPow2At22()
    ensures IntPow2(22) == 4_194_304
  {
    FirstPowers();
    hide IntPow2;
    IntPow2Product(4, 16, 4, 16);
    IntPow2Product(8, 256, 8, 256);
    IntPow2Product(16, 65536, 4, 16);
    IntPow2Product(1, 2, 1, 2);
    IntPow2Product(20, 1_048_576, 2, 4);
  }

  lemma FirstPower(m: nat)
    ensures Power(m, 1) == m
  {
    assert Power(m, 1) == m * Power(m, 0);
  }

  function Total(waits: seq<int>, n: nat): int
    requires n <= |waits|
  {
    if n == 0 then 0 else Total(waits, n - 1) + waits[n - 1]
  }

  lemma {:induction false} TotalBound(cfg: RetryConfig, waits: seq<int>, n: nat)
    requires 1 <= n <= |waits| && forall k | 0 <= k < |waits| :: waits[k] == DelayAt(cfg, k)
    ensures Total(waits, n) <= cfg.initialDelay + (n - 1) * cfg.maxDelay
  {
    hide Grown;
    if n > 1 {
      TotalBound(cfg, waits, n - 1);
      assert (n - 1) * cfg.maxDelay == (n - 2) * cfg.maxDelay + cfg.maxDelay;
    } else {
      assert Total(waits, 1) == Total(waits, 0) + waits[0];
    }
  }

  /** Whatever the multiplier, a retried operation waits at most the initial delay plus the maximum delay
      for each attempt after the second. */
  lemma TotalWait(
    cfg: RetryConfig, fn: nat -> bool, cancelled: nat -> bool, outcome: RetryOutcome, runs: nat, waits: seq<int>)
    requires Retried(cfg, fn, cancelled, outcome, runs, waits)
    requires cfg.maxAttempts >= 2 && cfg.initialDelay >= 0 && cfg.maxDelay >= 0
    ensures Total(waits, |waits|) <= cfg.initialDelay + (cfg.maxAttempts - 2) * cfg.maxDelay
  {
    hide NextDelay;
    if |waits| > 0 {
      TotalBound(cfg, waits, |waits|);
      FewerWaits(|waits| - 1, cfg.maxAttempts - 2, cfg.maxDelay);
    } else {
      FewerWaits(0, cfg.maxAttempts - 2, cfg.maxDelay);
    }
  }

  lemma FewerWaits(a: nat, b: nat, d: int)
    requires a <= b && d >= 0
    ensures a * d <= b * d && 0 <= b * d
  {
  }

  // ----- Pages -----

  datatype Page = Page(data: seq<string>, after: string)

  /** What one attempt sees: a page for each cursor, or a failed request. */
  type Server = string -> Option<Page>

  predicate IsLast(page: Page) {
    page.after == "" || page.data == []
  }

  /** The cursor of the i-th request, if there is one; the first request has none, written "". */
  function CursorAt(server: Server, i: nat): Option<string> {
    if i == 0 then Some("")
    else
      var before := CursorAt(server, i - 1);
      if before == None then None
      else match server(before.value)
           case Some(page) => if IsLast(page) then None else Some(page.after)
           case None => None
  }

  /** The i-th request is the last one: it fails, or its page is the last. */
  predicate EndsAt(server: Server, i: nat) {
    var cursor := CursorAt(server, i);
    cursor.Some? && (server(cursor.value).Some? ==> IsLast(server(cursor.value).value))
  }

  ghost predicate Terminates(server: Server) {
    exists i: nat :: EndsAt(server, i)
  }

  /** The pages of the first `n` requests, concatenated. */
  function Pages(server: Server, n: nat): seq<string> {
    if n == 0 then []
    else
      var cursor := CursorAt(server, n - 1);
      Pages(server, n - 1)
      + if cursor.Some? && server(cursor.value).Some? then server(cursor.value).value.data else []
  }

  /** No two requests of the chain use the same cursor. */
  ghost predicate NeverRepeats(server: Server) {
    forall i: nat, j: nat | i < j && CursorAt(server, j).Some? :: CursorAt(server, i) != CursorAt(server, j)
  }

  lemma {:induction false} NothingAfterEnd(server: Server, e: nat, i: nat)
    requires EndsAt(server, e) && e < i
    ensures CursorAt(server, i) == None
  {
    if i > e + 1 { NothingAfterEnd(server, e, i - 1); }
  }

  lemma {:induction false} SameCursorSameFuture(server: Server, i: nat, j: nat, d: nat)
    requires CursorAt(server, i) == CursorAt(server, j)
    ensures CursorAt(server, i + d) == CursorAt(server, j + d)
  {
    if d > 0 { SameCursorSameFuture(server, i, j, d - 1); }
  }

  function Cursors(server: Server, n: nat): set<string> {
    set i | 0 <= i < n && CursorAt(server, i).Some? :: CursorAt(server, i).value
  }

  ghost predicate Unended(server: Server, n: nat) {
    forall i: nat | i < n :: CursorAt(server, i).Some? && !EndsAt(server, i)
  }

  lemma NextCursorIsNew(server: Server, n: nat)
    requires NeverRepeats(server) && Unended(server, n + 1)
    ensures CursorAt(server, n).Some? && CursorAt(server, n).value !in Cursors(server, n)
  {
    hide CursorAt;
  }

  /** A chain that has not ended has used as many cursors as it made requests. */
  lemma {:induction false} DistinctCursors(server: Server, n: nat)
    requires NeverRepeats(server) && Unended(server, n)
    ensures |Cursors(server, n)| == n
  {
    hide CursorAt, NeverRepeats, EndsAt;
    if n > 0 {
      DistinctCursors(server, n - 1);
      NextCursorIsNew(server, n - 1);
      assert Cursors(server, n) == Cursors(server, n - 1) + {CursorAt(server, n - 1).value};
    }
  }

  lemma {:induction false} UnendedChainGoesOn(server: Server, n: nat)
    requires forall i: nat :: !EndsAt(server, i)
    ensures CursorAt(server, n).Some?
  {
    if n > 0 {
      UnendedChainGoesOn(server, n - 1);
      assert !EndsAt(server, n - 1);
    }
  }

  /** All cursors of the chain are among `cursors`, of which there are finitely many. */
  ghost predicate Within(server: Server, cursors: set<string>) {
    forall i: nat | CursorAt(server, i).Some? :: CursorAt(server, i).value in cursors
  }

  lemma EndedNeverRepeats(server: Server, e: nat)
    requires EndsAt(server, e)
    ensures NeverRepeats(server) && Within(server, Cursors(server, e + 1))
  {
    forall i: nat, j: nat | i < j && CursorAt(server, j).Some? ensures CursorAt(server, i) != CursorAt(server, j) {
      if e < j { NothingAfterEnd(server, e, j); }
      if CursorAt(server, i) == CursorAt(server, j) {
        SameCursorSameFuture(server, i, j, e - j);
        NothingAfterEnd(server, i + (e - j), e);
      }
    }
    forall i: nat | CursorAt(server, i).Some? ensures CursorAt(server, i).value in Cursors(server, e + 1) {
      if e < i { NothingAfterEnd(server, e, i); }
    }
  }

  /** The listing loop ends if and only if its chain of cursors never repeats and is finite. */
  lemma TerminatesIffNoRepeat(server: Server)
    ensures Terminates(server) <==> NeverRepeats(server) && exists cursors: set<string> :: Within(server, cursors)
  {
    if Terminates(server) {
      var e: nat :| EndsAt(server, e);
      EndedNeverRepeats(server, e);
    }
    if cursors: set<string> :| NeverRepeats(server) && !Terminates(server) && Within(server, cursors) {
      var n := |cursors| + 1;
      forall i: nat | i < n ensures CursorAt(server, i).Some? { UnendedChainGoesOn(server, i); }
      DistinctCursors(server, n);
      Orders.SubsetSize(Cursors(server, n), cursors);
    }
  }

  /** A server that answers every cursor with a longer one never repeats itself and never ends. */
  function Endless(data: seq<string>): Server {
    (cursor: string) => Some(Page(data, cursor + "x"))
  }

  lemma {:induction false} EndlessCursor(data: seq<string>, i: nat)
    requires data != []
    ensures CursorAt(Endless(data), i).Some? && |CursorAt(Endless(data), i).value| == i
  {
    if i > 0 { EndlessCursor(data, i - 1); }
  }

  lemma FreshCursorsNeverEnd(data: seq<string>)
    requires data != []
    ensures NeverRepeats(Endless(data)) && !Terminates(Endless(data))
  {
    forall i: nat ensures CursorAt(Endless(data), i).Some? && |CursorAt(Endless(data), i).value| == i {
      EndlessCursor(data, i);
    }
    forall i: nat ensures !EndsAt(Endless(data), i) { EndlessCursor(data, i + 1); }
  }

  /** An attempt lists everything: its chain ends with a page, at request `e`. */
  ghost predicate Lists(server: Server, e: nat) {
    EndsAt(server, e) && server(CursorAt(server, e).value).Some?
  }

  ghost predicate ListsAll(server: Server) {
    exists e: nat :: Lists(server, e)
  }

  /** `addresses` is everything one attempt lists. */
  ghost predicate IsListing(server: Server, addresses: seq<string>) {
    exists e: nat :: Lists(server, e) && addresses == Pages(server, e + 1)
  }

  /** `addresses` is what one attempt has collected when it ends, with a page or with a failed request. */
  ghost predicate Collected(server: Server, addresses: seq<string>) {
    exists e: nat :: EndsAt(server, e) && addresses == Pages(server, e + 1)
  }

  /** How many addresses the first `n` pages hold. */
  function Offset(pages: seq<Page>, n: nat): nat
    requires n <= |pages|
  {
    if n == 0 then 0 else Offset(pages, n - 1) + |pages[n - 1].data|
  }

  function Flat(pages: seq<Page>): seq<string> {
    if pages == [] then [] else Flat(pages[..|pages| - 1]) + pages[|pages| - 1].data
  }

  lemma {:induction false} SameOffset(pages: seq<Page>, n: nat, i: nat)
    requires i <= n <= |pages|
    ensures Offset(pages[..n], i) == Offset(pages, i)
  {
    if i > 0 { SameOffset(pages, n, i - 1); }
  }

  lemma {:induction false} FlatSize(pages: seq<Page>)
    ensures |Flat(pages)| == Offset(pages, |pages|)
  {
    if pages != [] {
      FlatSize(pages[..|pages| - 1]);
      SameOffset(pages, |pages| - 1, |pages| - 1);
    }
  }

  /** The pages one after the other: as many addresses as they hold together, and every address of every
      page at its place. */
  lemma {:induction false} FlatAt(pages: seq<Page>, i: nat, j: nat)
    requires i < |pages| && j < |pages[i].data|
    ensures |Flat(pages)| == Offset(pages, |pages|)
    ensures Offset(pages, i) + j < |Flat(pages)| && Flat(pages)[Offset(pages, i) + j] == pages[i].data[j]
  {
    FlatSize(pages);
    var n := |pages| - 1;
    FlatSize(pages[..n]);
    SameOffset(pages, n, n);
    if i < n {
      SameOffset(pages, n, i);
      FlatAt(pages[..n], i, j);
    }
  }

  /** The pages of a chain of cursors that begins without one: every page but the last has addresses and
      names the cursor of the next. */
  predicate Linked(server: Server, pages: seq<Page>) {
    && (pages != [] ==> server("") == Some(pages[0]))
    && (forall i | 0 < i < |pages| :: server(pages[i - 1].after) == Some(pages[i]))
    && (forall i | 0 <= i < |pages| - 1 :: pages[i].after != "" && pages[i].data != [])
  }

  lemma LayOut(pages: seq<Page>, page: Page)
    ensures Flat(pages + [page]) == Flat(pages) + page.data
  {
    assert (pages + [page])[..|pages|] == pages;
  }

  lemma NothingYet(server: Server)
    ensures Linked(server, []) && Flat([]) == []
  {
  }

  lemma LinkOne(server: Server, pages: seq<Page>, page: Page)
    requires Linked(server, pages) && server(if pages == [] then "" else pages[|pages| - 1].after) == Some(page)
    requires pages != [] ==> pages[|pages| - 1].after != "" && pages[|pages| - 1].data != []
    ensures Linked(server, pages + [page])
  {
    var pages' := pages + [page];
    assert pages != [] ==> pages'[0] == pages[0];
    forall i | 0 < i < |pages'| ensures server(pages'[i - 1].after) == Some(pages'[i]) {
      assert pages'[i - 1] == pages[i - 1];
    }
  }

  /** What that says of an attempt: its first page is the answer to no cursor, every other page the answer to
      the cursor before it, and only the last one can be a last page. */
  lemma ListedMeans(server: Server, pages: seq<Page>)
    requires Linked(server, pages)
    ensures pages != [] ==> server("") == Some(pages[0])
    ensures forall i | 0 < i < |pages| :: server(pages[i - 1].after) == Some(pages[i])
    ensures forall i | 0 <= i < |pages| - 1 :: pages[i].after != "" && pages[i].data != []
  {
  }

  /** There is only one such chain that ends with a last page. */
  lemma ListingIsUnique(server: Server, a: seq<Page>, b: seq<Page>)
    requires Linked(server, a) && a != [] && IsLast(a[|a| - 1])
    requires Linked(server, b) && b != [] && IsLast(b[|b| - 1])
    ensures a == b
  {
    var n := if |a| < |b| then |a| else |b|;
    SamePages(server, a, b, n);
    assert a[n - 1] == b[n - 1];
  }

  lemma {:induction false} SamePages(server: Server, a: seq<Page>, b: seq<Page>, n: nat)
    requires Linked(server, a) && Linked(server, b) && n <= |a| && n <= |b|
    ensures a[..n] == b[..n]
  {
    if n > 0 {
      SamePages(server, a, b, n - 1);
      if n > 1 { assert a[n - 2] == a[..n - 1][n - 2] == b[..n - 1][n - 2] == b[n - 2]; }
      assert a[n - 1] == b[n - 1];
      assert a[..n] == a[..n - 1] + [a[n - 1]] && b[..n] == b[..n - 1] + [b[n - 1]];
    }
  }

  /** One attempt. It starts from an empty list whatever earlier attempts left behind, and a failed request
      leaves the pages before it in the list. */
  method FetchPages(server: Server) returns (ok: bool, addresses: seq<string>, ghost pages: seq<Page>)
    requires Terminates(server)
    ensures ok <==> ListsAll(server)
    ensures ok ==> IsListing(server, addresses)
    ensures Collected(server, addresses)
    ensures Linked(server, pages) && addresses == Flat(pages)
    ensures ok ==> pages != [] && (pages[|pages| - 1].after == "" || pages[|pages| - 1].data == [])
    ensures !ok ==> server(if pages == [] then "" else pages[|pages| - 1].after) == None
                    && (pages != [] ==> pages[|pages| - 1].after != "" && pages[|pages| - 1].data != [])
  {
    hide Terminates, ListsAll, IsListing, Collected, Linked, Flat, CursorAt, Pages, EndsAt;
    NothingYet(server);
    ghost var end := TheEnd(server);
    var pageKey := "";
    addresses, pages := [], [];
    ghost var i: nat := 0;
    ChainStarts(server, end);
    while true
      invariant i <= end && CursorAt(server, i) == Some(pageKey)
      invariant addresses == Pages(server, i)
      invariant Linked(server, pages) && addresses == Flat(pages)
      invariant pageKey == if pages == [] then "" else pages[|pages| - 1].after
      invariant pages != [] ==> pages[|pages| - 1].after != "" && pages[|pages| - 1].data != []
      decreases end - i
    {
      var response := server(pageKey);
      ChainStep(server, i, end);
      if response == None {
        return false, addresses, pages;
      }
      var page := response.value;
      LayOut(pages, page);
      LinkOne(server, pages, page);
      pages := pages + [page];
      addresses := addresses + page.data;
      if page.after == "" || |page.data| == 0 {
        return true, addresses, pages;
      }
      pageKey := page.after;
      i := i + 1;
    }
  }

  lemma ChainStarts(server: Server, end: nat)
    requires EndsAt(server, end)
    ensures CursorAt(server, 0) == Some("") && Pages(server, 0) == []
  {
  }

  /** Request `i` fails, or brings the last page, or is followed by another. */
  lemma ChainStep(server: Server, i: nat, end: nat)
    requires EndsAt(server, end) && i <= end && CursorAt(server, i).Some?
    ensures match server(CursorAt(server, i).value)
            case None => !ListsAll(server) && Collected(server, Pages(server, i))
            case Some(page) =>
              && Pages(server, i + 1) == Pages(server, i) + page.data
              && if IsLast(page) then
                   ListsAll(server) && IsListing(server, Pages(server, i + 1)) && Collected(server, Pages(server, i + 1))
                 else i < end && CursorAt(server, i + 1) == Some(page.after)
  {
    match server(CursorAt(server, i).value)
    case None => EndedBadly(server, i);
    case Some(page) => if IsLast(page) { EndedWell(server, i); }
  }

  ghost function TheEnd(server: Server): (end: nat)
    requires Terminates(server)
    ensures EndsAt(server, end)
  {
    var e: nat :| EndsAt(server, e); e
  }

  lemma EndedWell(server: Server, i: nat)
    requires EndsAt(server, i) && server(CursorAt(server, i).value).Some?
    ensures ListsAll(server) && IsListing(server, Pages(server, i + 1)) && Collected(server, Pages(server, i + 1))
  {
    assert Lists(server, i);
  }

  lemma EndedBadly(server: Server, i: nat)
    requires EndsAt(server, i) && server(CursorAt(server, i).value) == None
    ensures !ListsAll(server) && Pages(server, i + 1) == Pages(server, i) && Collected(server, Pages(server, i))
  {
    OneEnd(server, i);
    assert Pages(server, i + 1) == Pages(server, i);
  }

  lemma OneEnd(server: Server, i: nat)
    requires EndsAt(server, i)
    ensures forall e: nat | EndsAt(server, e) :: e == i
  {
    forall e: nat | EndsAt(server, e) ensures e == i {
      if e < i { NothingAfterEnd(server, e, i); }
      if i < e { NothingAfterEnd(server, i, e); }
    }
  }

  /** Whether an attempt succeeds: the circuit breaker lets it run, and its chain ends with a page. */
  ghost function AttemptOk(servers: nat -> Server, admitted: nat -> bool): nat -> bool {
    (i: nat) => admitted(i) && ListsAll(servers(i))
  }

  /** The latest of the first `n` attempts that the circuit breaker let run, or -1. */
  function LastAdmitted(admitted: nat -> bool, n: nat): (i: int)
    ensures -1 <= i < n && (i >= 0 ==> admitted(i))
  {
    if n == 0 then -1 else if admitted(n - 1) then n - 1 else LastAdmitted(admitted, n - 1)
  }

  /** The listing under retries: `servers(i)` is what attempt `i` sees, `admitted(i)` whether the circuit
      breaker lets it run. On success the addresses are the pages of the one attempt that succeeded. Beside
      an error the program returns what the latest attempt that ran had collected, and never a mix. */
  method GetWebhookAddresses(
    cfg: RetryConfig, servers: nat -> Server, admitted: nat -> bool, cancelled: nat -> bool)
    returns (outcome: RetryOutcome, runs: nat, addresses: seq<string>, ghost waits: seq<int>, ghost pages: seq<Page>)
    requires forall i: nat | i < cfg.maxAttempts && admitted(i) :: Terminates(servers(i))
    ensures Retried(cfg, AttemptOk(servers, admitted), cancelled, outcome, runs, waits)
    ensures outcome == Succeeded ==> IsListing(servers(runs - 1), addresses)
    ensures var last := LastAdmitted(admitted, runs);
            if last < 0 then addresses == [] else Collected(servers(last), addresses)
    ensures addresses == Flat(pages)
    ensures var last := LastAdmitted(admitted, runs); if last < 0 then pages == [] else Linked(servers(last), pages)
    ensures outcome == Succeeded ==>
              && LastAdmitted(admitted, runs) == runs - 1 && pages != []
              && (pages[|pages| - 1].after == "" || pages[|pages| - 1].data == [])
  {
    hide NextDelay, Terminates, ListsAll, IsListing, Collected, Retried, Trying, Linked, Flat;
    ghost var fn := AttemptOk(servers, admitted);
    addresses, pages := [], [];
    runs, waits := 0, [];
    var delay := cfg.initialDelay;
    var attempt: nat := 0;
    TryingStarts(cfg, fn, cancelled);
    NothingYet(servers(0));
    while attempt < cfg.maxAttempts
      invariant runs == attempt && Trying(cfg, fn, cancelled, attempt, delay, waits)
      invariant var last := LastAdmitted(admitted, attempt);
                if last < 0 then addresses == [] && pages == []
                else Collected(servers(last), addresses) && Linked(servers(last), pages)
      invariant addresses == Flat(pages)
    {
      TryingStep(cfg, fn, cancelled, attempt, delay, waits);
      var ok := false;
      if admitted(attempt) {
        ok, addresses, pages := FetchPages(servers(attempt));
      }
      assert ok == fn(attempt);
      runs := runs + 1;
      if ok {
        return Succeeded, runs, addresses, waits, pages;
      }
      if attempt < cfg.maxAttempts - 1 {
        waits := waits + [delay];
        if cancelled(attempt) {
          return Cancelled, runs, addresses, waits, pages;
        }
        delay := NextDelay(cfg, delay);
      }
      attempt := attempt + 1;
    }
    TryingEnds(cfg, fn, cancelled, attempt, delay, waits);
    return Exhausted, runs, addresses, waits, pages;
  }
}
