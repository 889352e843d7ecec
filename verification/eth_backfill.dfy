/** The transfer loop of the Ethereum backfill, which looks every transfer up in the cache before it
    hands it to the processor, which looks it up again. */
module EthBackfill {
  import opened Wrappers
  import opened Numerals
  import opened CacheModel
  import opened EthActivity
  import opened EthProcessor
  import opened Rounding
  import opened WeiBound
  import opened MemoryCaches

  datatype Transfer = Transfer(
    blockNum: string, hash: string, from: string, value: Option<real>, asset: string, category: string,
    rawValue: string, rawAddress: string, rawDecimal: string)

  function DecimalsOf(text: string): DecimalsField {
    if text == "" then NoDecimals
    else match ParseInt64(text, 10)
         case Some(n) => IntDecimals(n)
         case None => match ParseInt64(TrimPrefix(text, "0x"), 16) case Some(n) => IntDecimals(n) case None => NoDecimals
  }

  /** The activity processHistoricalTransfer builds; it never has a trace address. */
  function ActivityOf(t: Transfer, toAddress: string): Activity {
    var to := ToLower(toAddress);
    Activity(
      t.blockNum, t.hash, CanonicalHash(t.from), if HasPrefix(to, "0x") then to else "0x" + to, t.value, None, t.asset,
      t.category, if t.rawAddress != "" then Some(RawContract(t.rawValue, t.rawAddress, DecimalsOf(t.rawDecimal))) else None,
      None)
  }

  function Activities(ts: seq<Transfer>, toAddress: string): (acts: seq<Activity>)
    ensures |acts| == |ts| && forall i | 0 <= i < |ts| :: acts[i] == ActivityOf(ts[i], toAddress)
  {
    seq(|ts|, i requires 0 <= i < |ts| => ActivityOf(ts[i], toAddress))
  }

  /** The key of the pre-check is the key the processor will use. */
  lemma PrecheckKeyIsUniqueID(t: Transfer, toAddress: string)
    ensures UniqueID(ActivityOf(t, toAddress)) == CanonicalHash(t.hash)
  {
  }

  // ----- What a transfer is handed over as -----

  /** `n` hex digits in either case after one of the five prefixes a hash may have. */
  ghost predicate SpelledAs(s: string, n: nat) {
    exists prefix | IsHashPrefix(prefix) :: |s| == |prefix| + n && prefix <= s && AllDigits(s[|prefix|..], 16)
  }

  /** The last `n` characters of a string. */
  function Last(s: string, n: nat): string {
    if |s| <= n then s else s[|s| - n..]
  }

  /** A transfer the processor has no reason to refuse. */
  ghost predicate WellFormed(t: Transfer, addr: string) {
    && SpelledAs(t.from, 40) && SpelledHex(addr, 40) && SpelledAs(t.hash, 64)
    && |t.blockNum| >= 1
    && (SpelledHex(t.blockNum, |t.blockNum|) || (|t.blockNum| >= 3 && SpelledHex(t.blockNum, |t.blockNum| - 2)))
    && !HasPrefix(t.blockNum, "0X") && Value(BlockDigits(t.blockNum), 16) < 0x1_0000_0000_0000_0000
  }

  /** The key of a transfer. */
  function KeyOf(t: Transfer): string {
    "0x" + ToLower(Last(t.hash, 64))
  }

  /** `hex` is "0x" and the digits `spelled` ends with, in lower case. */
  predicate SameHex(hex: string, spelled: string, n: nat) {
    |spelled| >= n && hex == "0x" + ToLower(spelled[|spelled| - n..])
  }

  /** The activity handed over names the sender, the recipient, the transaction and the block of the transfer. */
  predicate Names(p: ProcessedActivity, t: Transfer, addr: string) {
    && SameHex(p.fromAddress, t.from, 40) && SameHex(p.txHash, t.hash, 64)
    && ToLower(p.toAddress) == p.toAddress && Last(p.toAddress, 40) == ToLower(Last(addr, 40))
    && p.blockNumber == Value(BlockDigits(t.blockNum), 16)
    && p.category == ToLower(t.category)
  }

  lemma SpelledCanonical(s: string, n: nat)
    requires SpelledAs(s, n)
    ensures |s| >= n && AllDigits(s[|s| - n..], 16) && CanonicalHash(s) == "0x" + ToLower(s[|s| - n..])
  {
    var prefix :| IsHashPrefix(prefix) && |s| == |prefix| + n && prefix <= s && AllDigits(s[|prefix|..], 16);
    var digits := s[|prefix|..];
    assert s == prefix + digits;
    CanonicalOfAccepted(prefix, digits);
  }

  lemma LowerHexSpelled(digits: string)
    requires AllDigits(digits, 16)
    ensures SpelledHex("0x" + ToLower(digits), |digits|)
  {
    LowerKeepsValue(digits);
    LowerIdempotent(digits);
    LowerKeepsValue(ToLower(digits));
    assert ("0x" + ToLower(digits))[2..] == ToLower(digits) && ("0x" + ToLower(digits))[..2] == "0x";
  }

  /** The recipient as the program spells it. */
  lemma LowerRecipient(addr: string, to: string)
    requires SpelledHex(addr, 40)
    requires to == (if HasPrefix(ToLower(addr), "0x") then ToLower(addr) else "0x" + ToLower(addr))
    ensures SpelledHex(to, 40) && ToLower(to) == to && Last(to, 40) == ToLower(Last(addr, 40))
  {
    var digits := Last(addr, 40);
    LowerPrefixes();
    LowerIdempotent(digits);
    LowerConcat("0x", ToLower(digits));
    LowerKeepsValue(digits);
    HexHasNoPrefix(ToLower(digits));
    if |addr| == 42 {
      assert addr == addr[..2] + digits;
      LowerConcat(addr[..2], digits);
      assert ToLower(addr) == "0x" + ToLower(digits);
    } else {
      assert addr == digits;
    }
    assert to == "0x" + ToLower(digits);
    LowerHexSpelled(digits);
  }

  lemma BuiltFields(t: Transfer, addr: string)
    ensures var a := ActivityOf(t, addr);
            && a.blockNum == t.blockNum && a.hash == t.hash && a.category == t.category && a.value == t.value
            && a.fromAddress == CanonicalHash(t.from) && TraceOf(a) == "" && UniqueID(a) == CanonicalHash(t.hash)
            && a.asset == t.asset
            && a.toAddress == (if HasPrefix(ToLower(addr), "0x") then ToLower(addr) else "0x" + ToLower(addr))
            && (t.rawAddress != "" ==> a.rawContract.Some?
                                       && a.rawContract.value.rawValue == t.rawValue
                                       && a.rawContract.value.address == t.rawAddress
                                       && a.rawContract.value.decimals == DecimalsOf(t.rawDecimal))
  {
  }

  /** The decimals of a transfer are read back however they are written, in decimal or in hex after "0x". */
  lemma DecimalsRoundTrip(n: nat)
    requires n <= MAX_INT64
    ensures DecimalsOf(Digits(n, 10)) == DecimalsOf("0x" + Digits(n, 16)) == IntDecimals(n)
    ensures DecimalsOf("") == NoDecimals
  {
    DigitsDenote(n, 10);
    DigitsAreDigits(n, 10);
    DigitsParse(Digits(n, 10), 10);
    DigitsDenote(n, 16);
    DigitsAreDigits(n, 16);
    DigitsParse(Digits(n, 16), 16);
    var hex := "0x" + Digits(n, 16);
    assert hex[2..] == Digits(n, 16) && hex[1] == 'x' && DigitValue(hex[1]) == 16 && hex[0] == '0';
    assert ParseSigned(hex, 10) == None;
  }

  lemma TransferIsValid(t: Transfer, addr: string)
    requires WellFormed(t, addr)
    ensures var a := ActivityOf(t, addr);
            && ValidAddress(a.toAddress) && ValidAddress(a.fromAddress) && ValidHash(CanonicalHash(a.hash))
            && SameHex(a.fromAddress, t.from, 40) && SameHex(CanonicalHash(t.hash), t.hash, 64)
            && ToLower(a.toAddress) == a.toAddress && Last(a.toAddress, 40) == ToLower(Last(addr, 40))
  {
    BuiltFields(t, addr);
    hide ValidAddress, ValidHash, CanonicalHash, SpelledHex, ActivityOf, SpelledAs, ToLower, Last, AllDigits, AllLowerHex,
      BlockDigits, Value, UniqueID, TraceOf, HasPrefix;
    var a := ActivityOf(t, addr);
    SpelledCanonical(t.from, 40);
    SpelledCanonical(t.hash, 64);
    LowerHexSpelled(t.from[|t.from| - 40..]);
    LowerRecipient(addr, a.toAddress);
    AcceptedAddresses(a.toAddress);
    AcceptedAddresses(a.fromAddress);
    LowerKeepsValue(t.hash[|t.hash| - 64..]);
    CanonicalIsValid(ToLower(t.hash[|t.hash| - 64..]));
  }

  lemma BlockIsValid(cfg: ProcessorConfig, t: Transfer, addr: string)
    requires WellFormed(t, addr)
    ensures ValidBlockNumber(t.blockNum) && ParseBlockNumber(t.blockNum).Some?
    ensures var verdict := Judge(cfg, ActivityOf(t, addr));
            !verdict.Rejected? && (verdict.Offered? ==> verdict.activity.blockNumber == Value(BlockDigits(t.blockNum), 16))
  {
    BuiltFields(t, addr);
    hide Judge, ValidBlockNumber, ParseBlockNumber, SpelledHex, ActivityOf, SpelledAs, BlockDigits;
    AcceptedBlockNumbers(t.blockNum);
    BlockNumbersParse(t.blockNum);
    BlockNumberVerdicts(cfg, ActivityOf(t, addr));
  }

  /** The activity of a well-formed transfer passes every check, under the key of the transfer. */
  lemma TransferIsAccepted(cfg: ProcessorConfig, t: Transfer, addr: string)
    requires WellFormed(t, addr)
    ensures var a := ActivityOf(t, addr);
            && CheckKey(a) == Ok(KeyOf(t)) && UniqueID(a) == KeyOf(t)
            && (Judge(cfg, a).Offered? ==> Names(Judge(cfg, a).activity, t, addr))
  {
    TransferIsValid(t, addr);
    BlockIsValid(cfg, t, addr);
    BuiltFields(t, addr);
    hide Judge, ValidAddress, ValidHash, CanonicalHash, ActivityOf, WellFormed, BlockDigits, ToLower, UniqueID;
    if Judge(cfg, ActivityOf(t, addr)).Offered? { OfferedFields(cfg, ActivityOf(t, addr)); }
  }

  /** A transfer of `w` wei whose float value is the nearest to it. */
  ghost predicate MovesEther(t: Transfer, w: nat) {
    ToLower(t.category) in {"external", "internal"} && t.value.Some? && Nearest(53, w as real / WEI, t.value.value)
  }

  /** A transfer of a token, with its amount in hex. */
  predicate MovesToken(t: Transfer, n: nat) {
    && ToLower(t.category) !in {"external", "internal"} && t.rawAddress != ""
    && var digits := TrimPrefix(t.rawValue, "0x"); digits != "" && AllDigits(digits, 16) && Value(digits, 16) == n
  }

  lemma EtherTransferIsOffered(cfg: ProcessorConfig, t: Transfer, addr: string, w: nat)
    requires WellFormed(t, addr) && MovesEther(t, w)
    ensures var verdict := Judge(cfg, ActivityOf(t, addr));
            (verdict.Offered? <==> w >= 1) && (verdict.Offered? ==> DenotesAbout(verdict.activity.value, w))
  {
    var a := ActivityOf(t, addr);
    BuiltFields(t, addr);
    hide Judge, Nearest, ValidBlockNumber, ParseBlockNumber, WellFormed, DenotesAbout, ActivityOf, KindOf, ToLower;
    BlockIsValid(cfg, t, addr);
    Kinds(a);
    RealTransfersAreOffered(cfg, a, w);
    EtherValueIsKept(cfg, a, w);
  }

  lemma TokenTransferIsOffered(cfg: ProcessorConfig, t: Transfer, addr: string, n: nat)
    requires WellFormed(t, addr) && MovesToken(t, n)
    ensures var verdict := Judge(cfg, ActivityOf(t, addr));
            (verdict.Offered? <==> n >= 1) && (verdict.Offered? ==>
              AllDigits(verdict.activity.value, 10) && Value(verdict.activity.value, 10) == n)
  {
    var a := ActivityOf(t, addr);
    BuiltFields(t, addr);
    hide Judge, ValidBlockNumber, ParseBlockNumber, WellFormed, Value, AllDigits, ActivityOf, KindOf, ToLower;
    BlockIsValid(cfg, t, addr);
    Kinds(a);
    RawValueIsKept(cfg, a);
  }

  // ----- The loop with its pre-check, over a cache that neither evicts nor expires -----

  predicate Precheck(marks: set<Key>, a: Activity) {
    CanonicalHash(a.hash) in marks
  }

  function BackfillMarks(cfg: ProcessorConfig, marks: set<Key>, acts: seq<Activity>, oks: seq<bool>, n: nat): set<Key>
    requires n <= |acts| == |oks|
  {
    if n == 0 then marks
    else
      var before, a := BackfillMarks(cfg, marks, acts, oks, n - 1), acts[n - 1];
      if !Precheck(before, a) && Decide(cfg, a, Seen(before, a), oks[n - 1]).Delivered? then before + {UniqueID(a)}
      else before
  }

  function BackfillCalls(cfg: ProcessorConfig, marks: set<Key>, acts: seq<Activity>, oks: seq<bool>, n: nat)
    : seq<ProcessedActivity>
    requires n <= |acts| == |oks|
  {
    if n == 0 then []
    else
      var before, a := BackfillMarks(cfg, marks, acts, oks, n - 1), acts[n - 1];
      var o := Decide(cfg, a, Seen(before, a), oks[n - 1]);
      BackfillCalls(cfg, marks, acts, oks, n - 1)
      + if !Precheck(before, a) && cfg.hasHandler && IsOffer(o) then [o.activity] else []
  }

  /** How many of the first `n` transfers the pre-check skips. */
  function SkipCount(cfg: ProcessorConfig, marks: set<Key>, acts: seq<Activity>, oks: seq<bool>, n: nat): nat
    requires n <= |acts| == |oks|
  {
    if n == 0 then 0
    else SkipCount(cfg, marks, acts, oks, n - 1)
         + if Precheck(MarksAfter(cfg, marks, acts, oks, n - 1), acts[n - 1]) then 1 else 0
  }

  /** How many are neither skipped nor end in an error. */
  function ProcessedCount(cfg: ProcessorConfig, marks: set<Key>, acts: seq<Activity>, oks: seq<bool>, n: nat): nat
    requires n <= |acts| == |oks|
  {
    if n == 0 then 0
    else
      var o := OutcomeAt(cfg, marks, acts, oks, n - 1);
      ProcessedCount(cfg, marks, acts, oks, n - 1)
      + if Precheck(MarksAfter(cfg, marks, acts, oks, n - 1), acts[n - 1]) || o.Refused? || o.Failed? then 0 else 1
  }

  /** The counters count: the transfers whose key was marked when the loop came to them, and those it
      neither skipped nor failed. */
  lemma {:induction false} CountsAreCounts(cfg: ProcessorConfig, marks: set<Key>, acts: seq<Activity>, oks: seq<bool>, n: nat)
    requires n <= |acts| == |oks|
    ensures SkipCount(cfg, marks, acts, oks, n) == |Skips(cfg, marks, acts, oks, n)|
    ensures ProcessedCount(cfg, marks, acts, oks, n) == |Successes(cfg, marks, acts, oks, n)|
    ensures Skips(cfg, marks, acts, oks, n) !! Successes(cfg, marks, acts, oks, n)
  {
    hide MarksAfter, OutcomeAt, CanonicalHash;
    if n > 0 {
      hide Skips, Successes;
      CountsAreCounts(cfg, marks, acts, oks, n - 1);
      CountOneMore(cfg, marks, acts, oks, n - 1);
    }
  }

  lemma CountOneMore(cfg: ProcessorConfig, marks: set<Key>, acts: seq<Activity>, oks: seq<bool>, n: nat)
    requires n < |acts| == |oks|
    ensures var skipped, o := Precheck(MarksAfter(cfg, marks, acts, oks, n), acts[n]), OutcomeAt(cfg, marks, acts, oks, n);
            && n !in Skips(cfg, marks, acts, oks, n) && n !in Successes(cfg, marks, acts, oks, n)
            && Skips(cfg, marks, acts, oks, n + 1) == Skips(cfg, marks, acts, oks, n) + (if skipped then {n} else {})
            && Successes(cfg, marks, acts, oks, n + 1) ==
               Successes(cfg, marks, acts, oks, n) + if skipped || o.Refused? || o.Failed? then {} else {n}
  {
    hide MarksAfter, OutcomeAt, CanonicalHash;
  }

  function Skips(cfg: ProcessorConfig, marks: set<Key>, acts: seq<Activity>, oks: seq<bool>, n: nat): set<nat>
    requires n <= |acts| == |oks|
  {
    set i: nat | i < n && CanonicalHash(acts[i].hash) in MarksAfter(cfg, marks, acts, oks, i)
  }

  function Successes(cfg: ProcessorConfig, marks: set<Key>, acts: seq<Activity>, oks: seq<bool>, n: nat): set<nat>
    requires n <= |acts| == |oks|
  {
    set i: nat | i < n && CanonicalHash(acts[i].hash) !in MarksAfter(cfg, marks, acts, oks, i)
                 && !OutcomeAt(cfg, marks, acts, oks, i).Refused? && !OutcomeAt(cfg, marks, acts, oks, i).Failed?
  }

  /** For activities without a trace address, a transfer the pre-check skips would not have reached the
      handler, nor been marked, without it. */
  lemma SkippedAnyway(cfg: ProcessorConfig, marks: set<Key>, a: Activity, ok: bool)
    requires TraceOf(a) == "" && Precheck(marks, a)
    ensures var o := Decide(cfg, a, Seen(marks, a), ok); o.Skipped? || o.Refused?
  {
  }

  /** The pre-check is redundant: for every list of transfers the loop makes the same handler calls, in
      the same order, and leaves the same marks as the processor alone. */
  lemma {:induction false} PrecheckIsRedundant(
    cfg: ProcessorConfig, marks: set<Key>, acts: seq<Activity>, oks: seq<bool>, n: nat)
    requires n <= |acts| == |oks| && forall i | 0 <= i < |acts| :: TraceOf(acts[i]) == ""
    ensures BackfillMarks(cfg, marks, acts, oks, n) == MarksAfter(cfg, marks, acts, oks, n)
    ensures BackfillCalls(cfg, marks, acts, oks, n) == HandlerCalls(cfg, marks, acts, oks, n)
  {
    hide Decide;
    if n > 0 {
      PrecheckIsRedundant(cfg, marks, acts, oks, n - 1);
      var before := MarksAfter(cfg, marks, acts, oks, n - 1);
      if Precheck(before, acts[n - 1]) { SkippedAnyway(cfg, before, acts[n - 1], oks[n - 1]); }
    }
  }

  /** What the loop has done after `n` transfers. */
  ghost predicate Progress(
    cfg: ProcessorConfig, marks: set<Key>, acts: seq<Activity>, oks: seq<bool>, n: nat, horizon: int,
    made: seq<ProcessedActivity>, s: CacheState, processedCount: nat, skippedCount: nat)
    requires n <= |acts| == |oks|
  {
    && made == HandlerCalls(cfg, marks, acts, oks, n)
    && Remembers(s, MarksAfter(cfg, marks, acts, oks, n), horizon)
    && skippedCount == SkipCount(cfg, marks, acts, oks, n)
    && processedCount == ProcessedCount(cfg, marks, acts, oks, n)
  }

  lemma ProgressStep(
    cfg: ProcessorConfig, marks: set<Key>, acts: seq<Activity>, oks: seq<bool>, n: nat, horizon: int,
    made: seq<ProcessedActivity>, s: CacheState, processedCount: nat, skippedCount: nat, s': CacheState)
    requires n < |acts| == |oks|
    requires Progress(cfg, marks, acts, oks, n, horizon, made, s, processedCount, skippedCount)
    requires var before, o := MarksAfter(cfg, marks, acts, oks, n), OutcomeAt(cfg, marks, acts, oks, n);
             Remembers(s', if o.Delivered? then before + {UniqueID(acts[n])} else before, horizon)
    ensures var before, o := MarksAfter(cfg, marks, acts, oks, n), OutcomeAt(cfg, marks, acts, oks, n);
            var skipped := Precheck(before, acts[n]);
            Progress(cfg, marks, acts, oks, n + 1, horizon,
                     made + (if cfg.hasHandler && IsOffer(o) then [o.activity] else []), s',
                     processedCount + (if skipped || o.Refused? || o.Failed? then 0 else 1),
                     skippedCount + (if skipped then 1 else 0))
  {
    hide Decide, Remembers, Precheck, UniqueID, MarksAfter, HandlerCalls, OutcomeAt, Seen;
    StepsOnce(cfg, marks, acts, oks, n);
  }

  lemma StepsOnce(cfg: ProcessorConfig, marks: set<Key>, acts: seq<Activity>, oks: seq<bool>, n: nat)
    requires n < |acts| == |oks|
    ensures var before, o := MarksAfter(cfg, marks, acts, oks, n), OutcomeAt(cfg, marks, acts, oks, n);
            && MarksAfter(cfg, marks, acts, oks, n + 1) == (if o.Delivered? then before + {UniqueID(acts[n])} else before)
            && HandlerCalls(cfg, marks, acts, oks, n + 1) ==
               HandlerCalls(cfg, marks, acts, oks, n) + if cfg.hasHandler && IsOffer(o) then [o.activity] else []
  {
    hide Decide, UniqueID;
  }

  class Backfill {
    const processor: Processor
    const cache: MemoryCache?

    constructor (processor: Processor, cache: MemoryCache?)
      ensures this.processor == processor && this.cache == cache
    {
      this.processor := processor;
      this.cache := cache;
    }

    ghost function Footprint(): set<object> {
      processor.Footprint() + if cache == null then {} else {cache}
    }

    /** The body of the loop: a pre-check, and the processor unless that hits. */
    method BackfillTransfer(
      transfer: Transfer, addr: string, precheckedAt: int, t: Clocks, ok: bool, ghost marks: set<Key>, ghost horizon: int)
      returns (skipped: bool, failed: bool)
      modifies Footprint()
      ensures cache != null && cache == processor.cache && Remembers(old(cache.State()), marks, horizon)
              && (CheckKey(ActivityOf(transfer, addr)).Ok? && !Seen(marks, ActivityOf(transfer, addr)) ==>
                    |marks| < cache.cfg.maxSize)
              && precheckedAt <= horizon
              && t.checkedAt <= horizon <= t.markedAt + TTL ==>
                var a := ActivityOf(transfer, addr);
                var o := Decide(processor.cfg, a, Seen(marks, a), ok);
                && skipped == Precheck(marks, a) && failed == (!skipped && (o.Refused? || o.Failed?))
                && processor.calls ==
                   old(processor.calls) + (if processor.cfg.hasHandler && IsOffer(o) then [o.activity] else [])
                && Remembers(cache.State(), if o.Delivered? then marks + {UniqueID(a)} else marks, horizon)
      // A well-formed transfer that moves anything and whose key is unmarked is handed over, once, as what it is.
      ensures cache != null && cache == processor.cache && Remembers(old(cache.State()), marks, horizon)
              && |marks| < cache.cfg.maxSize && precheckedAt <= horizon
              && t.checkedAt <= horizon <= t.markedAt + TTL
              && processor.cfg.hasHandler && WellFormed(transfer, addr) && KeyOf(transfer) !in marks ==>
                && (forall w: nat | MovesEther(transfer, w) && w >= 1 ::
                      && |processor.calls| == |old(processor.calls)| + 1 && old(processor.calls) <= processor.calls
                      && Names(processor.calls[|old(processor.calls)|], transfer, addr)
                      && DenotesAbout(processor.calls[|old(processor.calls)|].value, w))
                && (forall n: nat | MovesToken(transfer, n) && n >= 1 ::
                      && |processor.calls| == |old(processor.calls)| + 1 && old(processor.calls) <= processor.calls
                      && Names(processor.calls[|old(processor.calls)|], transfer, addr)
                      && AllDigits(processor.calls[|old(processor.calls)|].value, 10)
                      && Value(processor.calls[|old(processor.calls)|].value, 10) == n)
    {
      hide Names, DenotesAbout, MovesEther, MovesToken, WellFormed, Value, AllDigits;
      hide Decide, Judge, Queried, Marked, CheckKey, Lookup, CacheAfter, Remembers;
      ghost var a, cfg := ActivityOf(transfer, addr), processor.cfg;
      ghost var ideal := cache != null && cache == processor.cache && Remembers(cache.State(), marks, horizon)
                         && (CheckKey(a).Ok? && !Seen(marks, a) ==> |marks| < cache.cfg.maxSize)
                         && precheckedAt <= horizon
                         && t.checkedAt <= horizon <= t.markedAt + TTL;
      var txHash := CanonicalHash(transfer.hash);
      if cache != null {
        ghost var before := cache.State();
        var processed := cache.IsProcessed(txHash, precheckedAt);
        if ideal {
          RememberedAnswer(cache.cfg, before, marks, horizon, txHash, precheckedAt);
          assert processed <==> Precheck(marks, a);
          StillRemembers(before, cache.State(), marks, horizon);
        }
        if processed {
          if ideal { SkippedAnyway(cfg, marks, a, ok); }
          if WellFormed(transfer, addr) { TransferIsAccepted(cfg, transfer, addr); }
          return true, false;
        }
      }
      ghost var looked := if cache == null then EMPTY else cache.State();
      var outcome := processor.ProcessActivity(ActivityOf(transfer, addr), t, ok);
      if ideal {
        RememberingStep(cache.cfg, looked, marks, horizon, cfg, a, t, ok, outcome, cache.State());
        if WellFormed(transfer, addr) && KeyOf(transfer) !in marks {
          TransferIsAccepted(cfg, transfer, addr);
          DecideMeans(cfg, a, false, ok);
          forall w: nat | MovesEther(transfer, w) && w >= 1
            ensures Judge(cfg, a).Offered? && DenotesAbout(Judge(cfg, a).activity.value, w)
          {
            EtherTransferIsOffered(cfg, transfer, addr, w);
          }
          forall n: nat | MovesToken(transfer, n) && n >= 1
            ensures Judge(cfg, a).Offered? && AllDigits(Judge(cfg, a).activity.value, 10)
            ensures Value(Judge(cfg, a).activity.value, 10) == n
          {
            TokenTransferIsOffered(cfg, transfer, addr, n);
          }
        }
      }
      return false, outcome.Refused? || outcome.Failed?;
    }

    /** The loop over the transfers of one address. When it shares the processor's cache, and that cache
        has room for the key of every transfer and nothing expires before `horizon`, its effect is that of handing
        every transfer to the processor without a pre-check. */
    method BackfillTransfers(
      transfers: seq<Transfer>, addr: string, precheckedAt: seq<int>, clocks: seq<Clocks>, oks: seq<bool>, ghost horizon: int)
      returns (processedCount: nat, skippedCount: nat)
      requires |transfers| == |precheckedAt| == |clocks| == |oks|
      modifies Footprint()
      ensures cache != null && cache == processor.cache
              && old(Roomy(cache.cfg, cache.State(), Activities(transfers, addr), clocks, horizon))
              && (forall i | 0 <= i < |precheckedAt| :: precheckedAt[i] <= horizon) ==>
                var cfg, acts, marks := processor.cfg, Activities(transfers, addr), old(cache.State()).entries.Keys;
                && processor.calls == old(processor.calls) + HandlerCalls(cfg, marks, acts, oks, |acts|)
                && Remembers(cache.State(), MarksAfter(cfg, marks, acts, oks, |acts|), horizon)
                && skippedCount == SkipCount(cfg, marks, acts, oks, |acts|)
                && processedCount == ProcessedCount(cfg, marks, acts, oks, |acts|)
    {
      hide Decide, Remembers, Precheck, Progress, MarksAfter, HandlerCalls, SkipCount, ProcessedCount, Roomy, Seen, UniqueID,
        CheckKey, KeysOf, WellFormed, Names, DenotesAbout, MovesEther, MovesToken, KeyOf, Value, AllDigits;
      processedCount, skippedCount := 0, 0;
      ghost var cfg, acts := processor.cfg, Activities(transfers, addr);
      ghost var marks: set<Key> := if cache == null then {} else cache.entries.Keys;
      ghost var ideal := cache != null && cache == processor.cache
                         && Roomy(cache.cfg, cache.State(), acts, clocks, horizon)
                         && forall i | 0 <= i < |precheckedAt| :: precheckedAt[i] <= horizon;
      ghost var made: seq<ProcessedActivity> := [];
      if ideal { NoProgress(cfg, acts, oks, horizon, cache.cfg, cache.State(), clocks); }
      for i := 0 to |transfers|
        invariant ideal ==> processor.calls == old(processor.calls) + made
        invariant ideal ==> Progress(cfg, marks, acts, oks, i, horizon, made, cache.State(), processedCount, skippedCount)
      {
        ghost var before, o := MarksAfter(cfg, marks, acts, oks, i), OutcomeAt(cfg, marks, acts, oks, i);
        ghost var s := if cache == null then EMPTY else cache.State();
        if ideal {
          ProgressMeans(cfg, marks, acts, oks, i, horizon, made, s, processedCount, skippedCount);
          RoomForNext(cfg, marks, acts, oks, i, cache.cfg.maxSize);
        }
        var skipped, failed :=
          BackfillTransfer(transfers[i], addr, precheckedAt[i], clocks[i], oks[i], before, horizon);
        if ideal {
          ProgressStep(cfg, marks, acts, oks, i, horizon, made, s, processedCount, skippedCount, cache.State());
        }
        made := made + if cfg.hasHandler && IsOffer(o) then [o.activity] else [];
        if skipped {
          skippedCount := skippedCount + 1;
          continue;
        }
        if failed {
          continue;
        }
        processedCount := processedCount + 1;
      }
      if ideal { ProgressMeans(cfg, marks, acts, oks, |acts|, horizon, made, cache.State(), processedCount, skippedCount); }
    }
  }

  lemma NoProgress(
    cfg: ProcessorConfig, acts: seq<Activity>, oks: seq<bool>, horizon: int,
    cacheCfg: Config, s: CacheState, clocks: seq<Clocks>)
    requires |acts| == |oks|
    ensures Roomy(cacheCfg, s, acts, clocks, horizon) ==>
              && Progress(cfg, s.entries.Keys, acts, oks, 0, horizon, [], s, 0, 0)
              && |s.entries.Keys + KeysOf(acts)| <= cacheCfg.maxSize
              && forall i | 0 <= i < |clocks| :: clocks[i].checkedAt <= horizon <= clocks[i].markedAt + TTL
  {
  }

  lemma ProgressMeans(
    cfg: ProcessorConfig, marks: set<Key>, acts: seq<Activity>, oks: seq<bool>, n: nat, horizon: int,
    made: seq<ProcessedActivity>, s: CacheState, processedCount: nat, skippedCount: nat)
    requires n <= |acts| == |oks| && Progress(cfg, marks, acts, oks, n, horizon, made, s, processedCount, skippedCount)
    ensures made == HandlerCalls(cfg, marks, acts, oks, n)
    ensures Remembers(s, MarksAfter(cfg, marks, acts, oks, n), horizon)
    ensures skippedCount == SkipCount(cfg, marks, acts, oks, n)
    ensures processedCount == ProcessedCount(cfg, marks, acts, oks, n)
  {
  }

  lemma StillRemembers(s: CacheState, s': CacheState, marks: set<Key>, horizon: int)
    requires Remembers(s, marks, horizon) && s'.entries == s.entries
    ensures Remembers(s', marks, horizon)
  {
  }
}
