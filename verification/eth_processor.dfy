/** The Ethereum processor over the in-memory cache, the webhook loop that drives it, and what a whole
    payload, and the same payload delivered again, does. */
module EthProcessor {
  import opened Wrappers
  import opened Numerals
  import opened CacheModel
  import opened Orders
  import opened EthActivity
  import opened MemoryCaches

  /** The clock readings of one call: at the check, at the eviction scan, and at the mark. */
  datatype Clocks = Clocks(checkedAt: int, evictAt: int, markedAt: int)

  /** How a call ends. Refused and Failed are the errors; Delivered leads to a mark. */
  datatype Outcome =
    | Refused(error: Error)
    | Skipped
    | Dropped
    | Failed(activity: ProcessedActivity)
    | Delivered(activity: ProcessedActivity)

  predicate IsOffer(o: Outcome) {
    o.Failed? || o.Delivered?
  }

  function Decide(cfg: ProcessorConfig, a: Activity, hit: bool, handlerOk: bool): Outcome {
    match CheckKey(a)
    case Err(e) => Refused(e)
    case Ok(_) =>
      if hit then Skipped
      else match Judge(cfg, a)
           case Rejected(e) => Refused(e)
           case Ignored => Dropped
           case Offered(p) => if cfg.hasHandler && !handlerOk then Failed(p) else Delivered(p)
  }

  /** How a call ends: refused or skipped before the activity is judged, and marked only if there is no
      handler or it has succeeded. */
  lemma DecideMeans(cfg: ProcessorConfig, a: Activity, hit: bool, handlerOk: bool)
    ensures CheckKey(a).Err? ==> Decide(cfg, a, hit, handlerOk) == Refused(CheckKey(a).error)
    ensures CheckKey(a).Ok? ==> (Decide(cfg, a, hit, handlerOk) == Skipped <==> hit)
    ensures CheckKey(a).Ok? && !hit ==>
              match Judge(cfg, a)
              case Rejected(e) => Decide(cfg, a, hit, handlerOk) == Refused(e)
              case Ignored => Decide(cfg, a, hit, handlerOk) == Dropped
              case Offered(p) =>
                && (Decide(cfg, a, hit, handlerOk) == Delivered(p) <==> !cfg.hasHandler || handlerOk)
                && (Decide(cfg, a, hit, handlerOk) == Failed(p) <==> cfg.hasHandler && !handlerOk)
  {
    hide CheckKey, Judge;
  }

  lemma CheckKeySteps(a: Activity)
    ensures !ValidAddress(a.toAddress) ==> CheckKey(a) == Err(InvalidToAddress)
    ensures ValidAddress(a.toAddress) && !ValidAddress(a.fromAddress) ==> CheckKey(a) == Err(InvalidFromAddress)
    ensures var lowered := ToLower(TrimPrefix(a.hash, "0x"));
            CanonicalHash(a.hash) == if HasPrefix(lowered, "0x") then lowered else "0x" + lowered
    ensures ValidAddress(a.toAddress) && ValidAddress(a.fromAddress) ==>
              CheckKey(a) ==
              if !ValidHash(CanonicalHash(a.hash)) then Err(InvalidTransactionHash)
              else if a.typeTraceAddress.Some? && a.typeTraceAddress.value != ""
              then Ok(CanonicalHash(a.hash) + "_" + a.typeTraceAddress.value)
              else Ok(CanonicalHash(a.hash))
    ensures CheckKey(a).Ok? ==> CheckKey(a).value == UniqueID(a)
  {
    hide ValidAddress, ValidHash;
  }

  lemma JudgeSteps(cfg: ProcessorConfig, a: Activity)
    ensures ParseBlockNumber(a.blockNum) == ParseUint64(TrimPrefix(a.blockNum, "0x"), 16)
    ensures !ValidBlockNumber(a.blockNum) ==> Judge(cfg, a) == Rejected(InvalidBlockNumber)
    ensures ValidBlockNumber(a.blockNum) && ParseBlockNumber(a.blockNum) == None ==>
              Judge(cfg, a) == Rejected(UnparsableBlockNumber)
  {
    hide ValidBlockNumber;
  }

  /** The cache after one call: looked up if the key is valid, marked if the activity was delivered. */
  ghost predicate CacheAfter(cfg: Config, s: CacheState, a: Activity, t: Clocks, o: Outcome, s': CacheState) {
    match CheckKey(a)
    case Err(_) => s' == s
    case Ok(key) =>
      var looked := Queried(cfg, s, key, t.checkedAt);
      if o.Delivered? then Marked(cfg, looked, key, t.evictAt, t.markedAt + TTL, s') else s' == looked
  }

  /** The key of a delivered activity is marked for a time to live, and no other call marks anything. */
  lemma CacheAfterMeans(cfg: Config, s: CacheState, a: Activity, t: Clocks, o: Outcome, s': CacheState)
    requires CacheAfter(cfg, s, a, t, o, s') && (o.Delivered? ==> CheckKey(a).Ok?)
    ensures !o.Delivered? ==> s'.entries.Keys <= s.entries.Keys
    ensures o.Delivered? ==>
              && UniqueID(a) in s'.entries && s'.entries[UniqueID(a)] == t.markedAt + TTL
              && s'.entries.Keys <= s.entries.Keys + {UniqueID(a)}
    ensures forall k | k in s'.entries && !(o.Delivered? && k == UniqueID(a)) :: s'.entries[k] == s.entries[k]
  {
    hide UniqueID, ValidAddress, ValidHash, Marked;
    if o.Delivered? {
      var key, looked := UniqueID(a), Queried(cfg, s, UniqueID(a), t.checkedAt);
      MarkDropsAtMostOne(cfg, looked, key, t.evictAt, t.markedAt + TTL, s');
      MarkedEntry(cfg, looked, key, t.evictAt, t.markedAt + TTL, s');
    }
  }

  lemma MarkedEntry(cfg: Config, s: CacheState, key: Key, now: int, expiresAt: int, s': CacheState)
    requires Marked(cfg, s, key, now, expiresAt, s')
    ensures key in s'.entries && s'.entries[key] == expiresAt
    ensures forall k | k in s'.entries && k != key :: k in s.entries && s'.entries[k] == s.entries[k]
  {
    if cfg.enableLRU { LruMarkDropsOldest(cfg, s, key, now, expiresAt, s'); }
    else { PlainMarkDropsOne(cfg, s, key, now, expiresAt, s'); }
  }

  class Processor {
    const cfg: ProcessorConfig
    const cache: MemoryCache?
    /** What the handler has been called with, in order. */
    var calls: seq<ProcessedActivity>

    constructor (cfg: ProcessorConfig, cache: MemoryCache?)
      ensures this.cfg == cfg && this.cache == cache && calls == []
    {
      this.cfg := cfg;
      this.cache := cache;
      calls := [];
    }

    ghost function Footprint(): set<object> {
      if cache == null then {this} else {this, cache}
    }

    method ProcessActivity(activity: Activity, t: Clocks, handlerOk: bool) returns (outcome: Outcome)
      modifies Footprint()
      ensures var hit := cache != null && CheckKey(activity).Ok?
                         && Lookup(old(cache.State()), CheckKey(activity).value, t.checkedAt) == Hit;
              outcome == Decide(cfg, activity, hit, handlerOk)
      ensures calls == old(calls) + if cfg.hasHandler && IsOffer(outcome) then [outcome.activity] else []
      ensures cache != null ==> CacheAfter(cache.cfg, old(cache.State()), activity, t, outcome, cache.State())
      // A key is marked only once the handler, if there is one, has succeeded.
      ensures outcome.Delivered? ==> !cfg.hasHandler || handlerOk
      ensures outcome.Failed? ==> cfg.hasHandler && !handlerOk
      ensures cache != null && cfg.hasHandler && !handlerOk ==> cache.entries.Keys <= old(cache.entries.Keys)
    {
      hide ValidAddress, ValidHash, ValidBlockNumber, ToLower, Marked, Queried, InSync, Lookup, Decide, CheckKey, Judge,
        UniqueID, CanonicalHash, TrimPrefix, HasPrefix, ParseBlockNumber, ParseUint64;
      DecideMeans(cfg, activity, false, handlerOk);
      DecideMeans(cfg, activity, true, handlerOk);
      CheckKeySteps(activity);
      JudgeSteps(cfg, activity);
      if !ValidAddress(activity.toAddress) {
        return Refused(InvalidToAddress);
      }
      if !ValidAddress(activity.fromAddress) {
        return Refused(InvalidFromAddress);
      }
      var txHash := ToLower(TrimPrefix(activity.hash, "0x"));
      if !HasPrefix(txHash, "0x") {
        txHash := "0x" + txHash;
      }
      if !ValidHash(txHash) {
        return Refused(InvalidTransactionHash);
      }
      var uniqueID := txHash;
      if activity.typeTraceAddress.Some? && activity.typeTraceAddress.value != "" {
        uniqueID := txHash + "_" + activity.typeTraceAddress.value;
      }
      if cache != null {
        var processed := cache.IsProcessed(uniqueID, t.checkedAt);
        if processed {
          return Skipped;
        }
      }
      if !ValidBlockNumber(activity.blockNum) {
        return Refused(InvalidBlockNumber);
      }
      var blockNum := ParseUint64(TrimPrefix(activity.blockNum, "0x"), 16);
      if blockNum == None {
        return Refused(UnparsableBlockNumber);
      }
      var processedActivity := Convert(activity, txHash, blockNum.value);
      if processedActivity == None {
        return Dropped;
      }
      if cfg.hasHandler {
        calls := calls + [processedActivity.value];
        if !handlerOk {
          return Failed(processedActivity.value);
        }
      }
      if cache != null {
        cache.MarkProcessed(uniqueID, t.evictAt, t.markedAt, TTL);
      }
      return Delivered(processedActivity.value);
    }

    /** The category branches that settle amount, currency and network. */
    method Convert(activity: Activity, txHash: string, blockNum: nat) returns (result: Option<ProcessedActivity>)
      requires txHash == CanonicalHash(activity.hash)
      requires ValidBlockNumber(activity.blockNum) && ParseBlockNumber(activity.blockNum) == Some(blockNum)
      ensures Judge(cfg, activity) == match result case None => Ignored case Some(p) => Offered(p)
    {
      hide ValidBlockNumber, ParseUint64, ToLower, WeiAmount, TokenAmount, ParseSigned, DecimalString, GetDecimals;
      var amount, currency, network := 0, "", "";
      var category := ToLower(activity.category);
      var traced := activity.typeTraceAddress.Some? && activity.typeTraceAddress.value != "";
      var isInternalTx := category == "internal" || traced;
      var testnet := cfg.chainID == "eth-testnet";
      if category == "external" || category == "internal" {
        if activity.value == None {
          return None;
        }
        amount := WeiAmount(activity.value.value);
        currency := "ETH";
        network := if category == "internal" then "INTERNAL" else "MAINNET";
        if testnet {
          network := if category == "internal" then "INTERNAL-TESTNET" else "TESTNET";
        }
      } else if category == "token" || category == "erc20"
                || (activity.rawContract.Some? && activity.rawContract.value.address != "") {
        if activity.rawContract == None {
          return None;
        }
        var contract := activity.rawContract.value;
        if contract.rawValue == "" {
          if activity.value == None {
            return None;
          }
          amount := TokenAmount(activity.value.value, GetDecimals(contract));
        } else {
          var parsed := ParseSigned(TrimPrefix(contract.rawValue, "0x"), 16);
          if parsed.Some? {
            amount := parsed.value;
          }
        }
        currency := Symbol(activity, contract);
        network := Label("ERC-20", isInternalTx, testnet);
      } else if category == "erc721" {
        if activity.erc721TokenId == None || activity.rawContract == None {
          return None;
        }
        amount := 1;
        currency := Symbol(activity, activity.rawContract.value);
        network := Label("ERC-721", isInternalTx, testnet);
      } else if category == "erc1155" {
        if activity.rawContract == None {
          return None;
        }
        amount := 1;
        currency := Symbol(activity, activity.rawContract.value);
        network := Label("ERC-1155", isInternalTx, testnet);
      } else {
        return None;
      }
      if amount == 0 {
        return None;
      }
      return Some(ProcessedActivity(txHash, activity.fromAddress, activity.toAddress, DecimalString(amount),
                                    currency, category, blockNum, network, isInternalTx));
    }

    function Symbol(activity: Activity, contract: RawContract): string {
      var symbol := cfg.tokenSymbol(contract.address);
      if symbol != "" then symbol else if activity.asset != "" then activity.asset else "UNKNOWN"
    }

    function Label(standard: string, isInternalTx: bool, testnet: bool): string {
      standard + (if isInternalTx then "-INTERNAL" else "") + (if testnet then "-TESTNET" else "")
    }
  }

  // ----- Whole payloads over a cache that neither evicts nor expires -----

  predicate Seen(marks: set<Key>, a: Activity) {
    CheckKey(a).Ok? && CheckKey(a).value in marks
  }

  /** The marked keys after the first `n` activities; `oks[i]` is how the handler would answer the i-th. */
  function MarksAfter(cfg: ProcessorConfig, marks: set<Key>, acts: seq<Activity>, oks: seq<bool>, n: nat): set<Key>
    requires n <= |acts| == |oks|
  {
    if n == 0 then marks
    else
      var before := MarksAfter(cfg, marks, acts, oks, n - 1);
      if Decide(cfg, acts[n - 1], Seen(before, acts[n - 1]), oks[n - 1]).Delivered?
      then before + {UniqueID(acts[n - 1])} else before
  }

  function OutcomeAt(cfg: ProcessorConfig, marks: set<Key>, acts: seq<Activity>, oks: seq<bool>, i: nat): Outcome
    requires i < |acts| == |oks|
  {
    Decide(cfg, acts[i], Seen(MarksAfter(cfg, marks, acts, oks, i), acts[i]), oks[i])
  }

  /** What the handler is called with for the first `n` activities. */
  function HandlerCalls(cfg: ProcessorConfig, marks: set<Key>, acts: seq<Activity>, oks: seq<bool>, n: nat)
    : seq<ProcessedActivity>
    requires n <= |acts| == |oks|
  {
    if n == 0 then []
    else
      var o := OutcomeAt(cfg, marks, acts, oks, n - 1);
      HandlerCalls(cfg, marks, acts, oks, n - 1) + if cfg.hasHandler && IsOffer(o) then [o.activity] else []
  }

  /** The cache holds exactly `marks`, none of which expires before `horizon`. */
  ghost predicate Remembers(s: CacheState, marks: set<Key>, horizon: int) {
    s.entries.Keys == marks && forall k | k in s.entries :: s.entries[k] >= horizon
  }

  lemma RememberedAnswer(cacheCfg: Config, s: CacheState, marks: set<Key>, horizon: int, key: Key, now: int)
    requires Remembers(s, marks, horizon) && now <= horizon
    ensures Lookup(s, key, now) == if key in marks then Hit else Absent
    ensures Queried(cacheCfg, s, key, now).entries == s.entries
    ensures key !in marks ==> Queried(cacheCfg, s, key, now) == s
  {
  }

  lemma RememberedMark(
    cacheCfg: Config, s: CacheState, marks: set<Key>, horizon: int, key: Key, now: int, expiresAt: int, s': CacheState)
    requires Remembers(s, marks, horizon) && |marks| < cacheCfg.maxSize && expiresAt >= horizon
    requires Marked(cacheCfg, s, key, now, expiresAt, s')
    ensures Remembers(s', marks + {key}, horizon)
  {
    assert |s.entries.Keys| == |s.entries|;
    var room :| Evicted(cacheCfg, s, now, room) && s' == Stored(cacheCfg, room, key, expiresAt);
    assert s'.entries == s.entries[key := expiresAt];
  }

  /** One call on a remembering cache, with room for its key if that is unmarked, is one step of the
      payload semantics. */
  lemma RememberingStep(
    cacheCfg: Config, s: CacheState, marks: set<Key>, horizon: int, cfg: ProcessorConfig,
    a: Activity, t: Clocks, ok: bool, o: Outcome, s': CacheState)
    requires Remembers(s, marks, horizon)
    requires CheckKey(a).Ok? && !Seen(marks, a) ==> |marks| < cacheCfg.maxSize
    requires t.checkedAt <= horizon <= t.markedAt + TTL
    requires var hit := CheckKey(a).Ok? && Lookup(s, CheckKey(a).value, t.checkedAt) == Hit;
             o == Decide(cfg, a, hit, ok)
    requires CacheAfter(cacheCfg, s, a, t, o, s')
    ensures o == Decide(cfg, a, Seen(marks, a), ok)
    ensures Remembers(s', if o.Delivered? then marks + {UniqueID(a)} else marks, horizon)
  {
    hide Judge, Queried, Marked, UniqueID, Lookup, ValidAddress, ValidHash;
    if CheckKey(a).Ok? {
      var key := CheckKey(a).value;
      RememberedAnswer(cacheCfg, s, marks, horizon, key, t.checkedAt);
      if o.Delivered? {
        RememberedMark(cacheCfg, s, marks, horizon, key, t.evictAt, t.markedAt + TTL, s');
      }
    }
  }

  /** The keys the activities of a payload are looked up by. */
  function KeysOf(acts: seq<Activity>): set<Key> {
    set i | 0 <= i < |acts| && CheckKey(acts[i]).Ok? :: UniqueID(acts[i])
  }

  /** The cache has room for the keys of a payload beside those it holds, none of which expires before
      `horizon`. */
  ghost predicate Roomy(cacheCfg: Config, s: CacheState, acts: seq<Activity>, clocks: seq<Clocks>, horizon: int) {
    && |s.entries.Keys + KeysOf(acts)| <= cacheCfg.maxSize
    && (forall k | k in s.entries :: s.entries[k] >= horizon)
    && (forall i | 0 <= i < |clocks| :: clocks[i].checkedAt <= horizon <= clocks[i].markedAt + TTL)
  }

  lemma {:induction false} MarksAreKeys(cfg: ProcessorConfig, marks: set<Key>, acts: seq<Activity>, oks: seq<bool>, n: nat)
    requires n <= |acts| == |oks|
    ensures MarksAfter(cfg, marks, acts, oks, n) <= marks + KeysOf(acts)
  {
    hide UniqueID, Judge;
    if n > 0 { MarksAreKeys(cfg, marks, acts, oks, n - 1); }
  }

  /** There is room for the next key, if it is not marked yet. */
  lemma RoomForNext(
    cfg: ProcessorConfig, marks: set<Key>, acts: seq<Activity>, oks: seq<bool>, n: nat, maxSize: nat)
    requires n < |acts| == |oks| && |marks + KeysOf(acts)| <= maxSize
    ensures var before := MarksAfter(cfg, marks, acts, oks, n);
            CheckKey(acts[n]).Ok? && !Seen(before, acts[n]) ==> |before| < maxSize
  {
    hide MarksAfter;
    var before := MarksAfter(cfg, marks, acts, oks, n);
    MarksAreKeys(cfg, marks, acts, oks, n);
    if CheckKey(acts[n]).Ok? && !Seen(before, acts[n]) {
      assert UniqueID(acts[n]) in KeysOf(acts);
      SubsetSize(before + {UniqueID(acts[n])}, marks + KeysOf(acts));
    }
  }

  /** What the handler is called with when the calls for a payload end as `outcomes`. */
  function Offers(cfg: ProcessorConfig, outcomes: seq<Outcome>): seq<ProcessedActivity> {
    if outcomes == [] then []
    else
      var last := outcomes[|outcomes| - 1];
      Offers(cfg, outcomes[..|outcomes| - 1]) + if cfg.hasHandler && IsOffer(last) then [last.activity] else []
  }

  lemma OffersSnoc(cfg: ProcessorConfig, outcomes: seq<Outcome>, o: Outcome)
    ensures Offers(cfg, outcomes + [o]) == Offers(cfg, outcomes) + if cfg.hasHandler && IsOffer(o) then [o.activity] else []
  {
    assert (outcomes + [o])[..|outcomes|] == outcomes;
  }

  /** One activity of a payload over a roomy cache. */
  lemma PayloadStep(
    cacheCfg: Config, start: CacheState, clocks: seq<Clocks>, horizon: int, cfg: ProcessorConfig, acts: seq<Activity>,
    oks: seq<bool>, i: nat, s: CacheState, o: Outcome, s': CacheState)
    requires i < |acts| == |clocks| == |oks| && Roomy(cacheCfg, start, acts, clocks, horizon)
    requires Remembers(s, MarksAfter(cfg, start.entries.Keys, acts, oks, i), horizon)
    requires var hit := CheckKey(acts[i]).Ok? && Lookup(s, CheckKey(acts[i]).value, clocks[i].checkedAt) == Hit;
             o == Decide(cfg, acts[i], hit, oks[i])
    requires CacheAfter(cacheCfg, s, acts[i], clocks[i], o, s')
    ensures Remembers(s', MarksAfter(cfg, start.entries.Keys, acts, oks, i + 1), horizon)
    ensures HandlerCalls(cfg, start.entries.Keys, acts, oks, i + 1) ==
            HandlerCalls(cfg, start.entries.Keys, acts, oks, i)
            + if cfg.hasHandler && IsOffer(o) then [o.activity] else []
  {
    hide Decide, CacheAfter, Lookup, Remembers, CheckKey, UniqueID, KeysOf, Seen;
    var marks := start.entries.Keys;
    RoomForNext(cfg, marks, acts, oks, i, cacheCfg.maxSize);
    RememberingStep(cacheCfg, s, MarksAfter(cfg, marks, acts, oks, i), horizon, cfg, acts[i], clocks[i], oks[i], o, s');
  }

  lemma PayloadStart(
    cacheCfg: Config, start: CacheState, clocks: seq<Clocks>, horizon: int, cfg: ProcessorConfig, acts: seq<Activity>,
    oks: seq<bool>)
    requires |acts| == |oks| && Roomy(cacheCfg, start, acts, clocks, horizon)
    ensures Remembers(start, MarksAfter(cfg, start.entries.Keys, acts, oks, 0), horizon)
    ensures HandlerCalls(cfg, start.entries.Keys, acts, oks, 0) == []
  {
  }

  /** The webhook loop; a payload that does not parse is `None`. Whatever fails, every activity of the
      payload is processed, in order: each one is skipped by the cache or decided as unprocessed. Over a
      cache with room for every key of the payload and no expiry before `horizon`, the handler calls and the marks
      are those of the payload semantics. */
  method HandleEthereumWebhook(
    ethProcessor: Processor?, payload: Option<seq<Activity>>, clocks: seq<Clocks>, oks: seq<bool>, ghost horizon: int)
    returns (ok: bool, ghost outcomes: seq<Outcome>)
    requires payload.Some? ==> |payload.value| == |clocks| == |oks|
    modifies if ethProcessor == null then {} else ethProcessor.Footprint()
    ensures ok <==> ethProcessor != null && payload.Some?
    ensures ok ==> |outcomes| == |payload.value|
                   && ethProcessor.calls == old(ethProcessor.calls) + Offers(ethProcessor.cfg, outcomes)
    ensures ok ==> forall i | 0 <= i < |outcomes| ::
                     || outcomes[i] == Decide(ethProcessor.cfg, payload.value[i], false, oks[i])
                     || (ethProcessor.cache != null && outcomes[i] == Skipped)
    ensures ok && ethProcessor.cache != null
            && old(Roomy(ethProcessor.cache.cfg, ethProcessor.cache.State(), payload.value, clocks, horizon)) ==>
              var cfg, acts, marks := ethProcessor.cfg, payload.value, old(ethProcessor.cache.State()).entries.Keys;
              && ethProcessor.calls == old(ethProcessor.calls) + HandlerCalls(cfg, marks, acts, oks, |acts|)
              && Remembers(ethProcessor.cache.State(), MarksAfter(cfg, marks, acts, oks, |acts|), horizon)
  {
    hide Decide, Judge, Queried, Marked, CheckKey, Lookup, Offers, UniqueID, Evicted, KeysOf, Seen, Roomy, Remembers,
      MarksAfter, HandlerCalls, CacheAfter, OutcomeAt;
    outcomes := [];
    if ethProcessor == null || payload == None {
      return false, outcomes;
    }
    var acts, cfg := payload.value, ethProcessor.cfg;
    ghost var cache := ethProcessor.cache;
    ghost var start := if cache == null then EMPTY else cache.State();
    ghost var roomy := cache != null && Roomy(cache.cfg, start, acts, clocks, horizon);
    NoOffers(cfg);
    if roomy { PayloadStart(cache.cfg, start, clocks, horizon, cfg, acts, oks); }
    for i := 0 to |acts|
      invariant |outcomes| == i && ethProcessor.calls == old(ethProcessor.calls) + Offers(cfg, outcomes)
      invariant forall k | 0 <= k < i ::
                  outcomes[k] == Decide(cfg, acts[k], false, oks[k]) || (cache != null && outcomes[k] == Skipped)
      invariant roomy ==> Offers(cfg, outcomes) == HandlerCalls(cfg, start.entries.Keys, acts, oks, i)
      invariant roomy ==> Remembers(cache.State(), MarksAfter(cfg, start.entries.Keys, acts, oks, i), horizon)
    {
      ghost var before := if cache == null then EMPTY else cache.State();
      var outcome := ethProcessor.ProcessActivity(acts[i], clocks[i], oks[i]);
      if roomy {
        PayloadStep(cache.cfg, start, clocks, horizon, cfg, acts, oks, i, before, outcome, cache.State());
      }
      if CheckKey(acts[i]).Ok? { HitIsSkipped(cfg, acts[i], oks[i]); }
      OffersSnoc(cfg, outcomes, outcome);
      outcomes := outcomes + [outcome];
    }
    return true, outcomes;
  }

  lemma HitIsSkipped(cfg: ProcessorConfig, a: Activity, ok: bool)
    requires CheckKey(a).Ok?
    ensures Decide(cfg, a, true, ok) == Skipped
  {
  }

  lemma NoOffers(cfg: ProcessorConfig)
    ensures Offers(cfg, []) == []
  {
  }

  // ----- Redelivery -----

  /** An activity the handler would be offered if its key were unmarked. */
  predicate Offerable(cfg: ProcessorConfig, a: Activity) {
    CheckKey(a).Ok? && Judge(cfg, a).Offered?
  }

  predicate DeliveredBefore(cfg: ProcessorConfig, marks: set<Key>, acts: seq<Activity>, oks: seq<bool>, n: nat, key: Key)
    requires n <= |acts| == |oks|
  {
    exists j | 0 <= j < n :: OutcomeAt(cfg, marks, acts, oks, j).Delivered? && UniqueID(acts[j]) == key
  }

  /** The marks are those before the payload and the keys it delivered. */
  lemma {:induction false} MarksAreDeliveries(
    cfg: ProcessorConfig, marks: set<Key>, acts: seq<Activity>, oks: seq<bool>, n: nat, key: Key)
    requires n <= |acts| == |oks|
    ensures key in MarksAfter(cfg, marks, acts, oks, n) <==> key in marks || DeliveredBefore(cfg, marks, acts, oks, n, key)
  {
    hide Decide, UniqueID;
    if n > 0 {
      MarksAreDeliveries(cfg, marks, acts, oks, n - 1, key);
      var o := OutcomeAt(cfg, marks, acts, oks, n - 1);
      if o.Delivered? && UniqueID(acts[n - 1]) == key {
        assert DeliveredBefore(cfg, marks, acts, oks, n, key);
      } else {
        assert DeliveredBefore(cfg, marks, acts, oks, n, key) <==> DeliveredBefore(cfg, marks, acts, oks, n - 1, key);
      }
    }
  }

  /** With a handler, a key is marked only after a success for it. */
  lemma {:induction false} MarksNeedSuccess(
    cfg: ProcessorConfig, marks: set<Key>, acts: seq<Activity>, oks: seq<bool>, n: nat, key: Key)
    requires n <= |acts| == |oks| && cfg.hasHandler
    requires key in MarksAfter(cfg, marks, acts, oks, n) && key !in marks
    ensures exists j | 0 <= j < n :: oks[j] && UniqueID(acts[j]) == key
  {
    hide UniqueID, Judge, CheckKey;
    if key in MarksAfter(cfg, marks, acts, oks, n - 1) { MarksNeedSuccess(cfg, marks, acts, oks, n - 1, key); }
  }

  /** Exactly which activities of a payload the handler is offered. */
  lemma {:induction false} OffersCharacterised(
    cfg: ProcessorConfig, marks: set<Key>, acts: seq<Activity>, oks: seq<bool>, i: nat)
    requires i < |acts| == |oks|
    ensures IsOffer(OutcomeAt(cfg, marks, acts, oks, i)) <==>
            && Offerable(cfg, acts[i]) && UniqueID(acts[i]) !in marks
            && !DeliveredBefore(cfg, marks, acts, oks, i, UniqueID(acts[i]))
  {
    hide Decide, CheckKey, Judge, UniqueID, MarksAfter, DeliveredBefore, CanonicalHash, ToLower, TrimPrefix;
    MarksAreDeliveries(cfg, marks, acts, oks, i, UniqueID(acts[i]));
    CheckKeySteps(acts[i]);
    DecideMeans(cfg, acts[i], Seen(MarksAfter(cfg, marks, acts, oks, i), acts[i]), oks[i]);
  }

  /** Delivering a payload a second time, whatever the handler answered the first time and answers now:
      no key that succeeded is offered again, and every valid activity with a non-zero amount whose key
      is still unmarked is offered, unless the second delivery has already delivered its key. */
  lemma {:induction false} Redelivery(
    cfg: ProcessorConfig, marks: set<Key>, acts: seq<Activity>, first: seq<bool>, second: seq<bool>, i: nat)
    requires i < |acts| == |first| == |second|
    ensures var marks' := MarksAfter(cfg, marks, acts, first, |acts|);
            var key := UniqueID(acts[i]);
            && (IsOffer(OutcomeAt(cfg, marks', acts, second, i)) ==>
                  key !in marks && !DeliveredBefore(cfg, marks, acts, first, |acts|, key))
            && (Offerable(cfg, acts[i]) && key !in marks && !DeliveredBefore(cfg, marks, acts, first, |acts|, key)
                && !DeliveredBefore(cfg, marks', acts, second, i, key) ==>
                  IsOffer(OutcomeAt(cfg, marks', acts, second, i)))
  {
    var marks' := MarksAfter(cfg, marks, acts, first, |acts|);
    MarksAreDeliveries(cfg, marks, acts, first, |acts|, UniqueID(acts[i]));
    OffersCharacterised(cfg, marks', acts, second, i);
  }

  /** Once a delivery meets no handler error, every offerable activity of the payload is marked, and any
      further delivery makes no handler call at all. */
  lemma {:induction false} CleanDeliveryCompletes(
    cfg: ProcessorConfig, marks: set<Key>, acts: seq<Activity>, oks: seq<bool>, later: seq<bool>)
    requires |acts| == |oks| == |later| && forall i | 0 <= i < |oks| :: oks[i]
    ensures var marks' := MarksAfter(cfg, marks, acts, oks, |acts|);
            && (forall i | 0 <= i < |acts| :: Offerable(cfg, acts[i]) ==> UniqueID(acts[i]) in marks')
            && HandlerCalls(cfg, marks', acts, later, |acts|) == []
  {
    var marks' := MarksAfter(cfg, marks, acts, oks, |acts|);
    forall i | 0 <= i < |acts| && Offerable(cfg, acts[i]) ensures UniqueID(acts[i]) in marks' {
      var key := UniqueID(acts[i]);
      OffersCharacterised(cfg, marks, acts, oks, i);
      MarksAreDeliveries(cfg, marks, acts, oks, |acts|, key);
      if IsOffer(OutcomeAt(cfg, marks, acts, oks, i)) {
        assert OutcomeAt(cfg, marks, acts, oks, i).Delivered?;
      }
    }
    NoCallsWhenAllMarked(cfg, marks', acts, later, |acts|);
  }

  lemma {:induction false} NoCallsWhenAllMarked(
    cfg: ProcessorConfig, marks: set<Key>, acts: seq<Activity>, oks: seq<bool>, n: nat)
    requires n <= |acts| == |oks|
    requires forall i | 0 <= i < |acts| :: Offerable(cfg, acts[i]) ==> UniqueID(acts[i]) in marks
    ensures HandlerCalls(cfg, marks, acts, oks, n) == []
  {
    if n > 0 {
      NoCallsWhenAllMarked(cfg, marks, acts, oks, n - 1);
      OffersCharacterised(cfg, marks, acts, oks, n - 1);
    }
  }

  lemma StillRoomy(
    cacheCfg: Config, s: CacheState, s': CacheState, cfg: ProcessorConfig, acts: seq<Activity>, oks: seq<bool>,
    first: seq<Clocks>, second: seq<Clocks>, horizon: int)
    requires |acts| == |oks| && Roomy(cacheCfg, s, acts, first, horizon)
    requires Remembers(s', MarksAfter(cfg, s.entries.Keys, acts, oks, |acts|), horizon)
    requires forall i | 0 <= i < |second| :: second[i].checkedAt <= horizon <= second[i].markedAt + TTL
    ensures Roomy(cacheCfg, s', acts, second, horizon)
  {
    hide KeysOf, MarksAfter;
    MarksAreKeys(cfg, s.entries.Keys, acts, oks, |acts|);
    SubsetSize(s'.entries.Keys + KeysOf(acts), s.entries.Keys + KeysOf(acts));
  }

  /** The same payload delivered twice over one cache, which needs room for its keys only once: the second
      delivery makes the handler calls of the payload semantics over the marks the first one left, whatever
      the handler answered then. */
  method DeliverTwice(
    ethProcessor: Processor, acts: seq<Activity>, first: seq<Clocks>, firstOks: seq<bool>, second: seq<Clocks>,
    secondOks: seq<bool>, ghost horizon: int)
    requires |acts| == |first| == |firstOks| == |second| == |secondOks|
    requires ethProcessor.cache != null
             && Roomy(ethProcessor.cache.cfg, ethProcessor.cache.State(), acts, first, horizon)
    requires forall i | 0 <= i < |second| :: second[i].checkedAt <= horizon <= second[i].markedAt + TTL
    modifies ethProcessor.Footprint()
    ensures var cfg, marks := ethProcessor.cfg, old(ethProcessor.cache.State()).entries.Keys;
            var marks' := MarksAfter(cfg, marks, acts, firstOks, |acts|);
            && ethProcessor.calls == old(ethProcessor.calls)
                                     + HandlerCalls(cfg, marks, acts, firstOks, |acts|)
                                     + HandlerCalls(cfg, marks', acts, secondOks, |acts|)
            && Remembers(ethProcessor.cache.State(), MarksAfter(cfg, marks', acts, secondOks, |acts|), horizon)
  {
    hide MarksAfter, HandlerCalls, Roomy, Offers, Decide, KeysOf;
    ghost var before := ethProcessor.cache.State();
    var delivered, outcomes := HandleEthereumWebhook(ethProcessor, Some(acts), first, firstOks, horizon);
    ghost var between := ethProcessor.cache.State();
    StillRoomy(ethProcessor.cache.cfg, before, between, ethProcessor.cfg, acts, firstOks, first, second, horizon);
    var redelivered, outcomes' := HandleEthereumWebhook(ethProcessor, Some(acts), second, secondOks, horizon);
  }
}
