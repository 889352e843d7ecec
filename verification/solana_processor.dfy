/** The Solana processor: the same check, handler, mark protocol around the extraction of transfers. */
module SolanaProcessor {
  import opened Wrappers
  import opened CacheModel
  import opened MemoryCaches
  import opened NativeTransfers
  import opened TokenTransfers

  datatype Message = Message(instructions: seq<Instruction>, accountKeys: seq<string>)

  datatype Meta = Meta(
    fee: int, preBalances: seq<int>, postBalances: seq<int>, innerInstructions: seq<seq<Instruction>>,
    innerInstructionsNone: bool, logMessages: seq<string>)

  /** `details[i]` is the message array of the i-th transaction detail. */
  datatype Transaction = Transaction(signature: string, details: seq<seq<Message>>, metas: seq<Meta>)

  datatype ProcessedTransaction = ProcessedTransaction(
    signature: string, slot: nat, nativeTransfers: seq<NativeTransfer>, tokenTransfers: seq<TokenTransfer>,
    fee: int, timestamp: int)

  datatype Outcome =
    | Empty | Skipped | NoTransfers | Failed(tx: ProcessedTransaction) | Delivered(tx: ProcessedTransaction)

  /** The clock readings of one call. */
  datatype Clocks = Clocks(checkedAt: int, timestamp: int, evictAt: int, markedAt: int)

  predicate Complete(tx: Transaction) {
    |tx.details| != 0 && |tx.metas| != 0 && |tx.details[0]| != 0 && |tx.details[0][0].accountKeys| != 0
  }

  predicate WellTyped(tx: Transaction) {
    forall m | m in tx.metas ::
      (forall x | x in m.preBalances :: Int64(x)) && (forall x | x in m.postBalances :: Int64(x))
  }

  function NativeOf(tx: Transaction): seq<NativeTransfer>
    requires Complete(tx)
  {
    var keys, meta := tx.details[0][0].accountKeys, tx.metas[0];
    if |meta.preBalances| == |meta.postBalances| == |keys| then Transfers(keys, meta.preBalances, meta.postBalances, |keys|)
    else []
  }

  /** The instructions of a transaction that stand for token transfers. */
  ghost function TransferringOf(mints: map<string, string>, decode: string -> Option<seq<Byte>>, tx: Transaction)
    : seq<Instruction>
    requires Complete(tx)
  {
    var message, meta := tx.details[0][0], tx.metas[0];
    Transferring(Context(message.accountKeys, meta.logMessages, mints, decode),
                 AllInstructions(message.instructions, meta.innerInstructionsNone, meta.innerInstructions))
  }

  /** What the handler is given for a transaction. */
  ghost predicate Describes(
    mints: map<string, string>, decode: string -> Option<seq<Byte>>, tx: Transaction, slot: nat, t: Clocks, p: ProcessedTransaction)
    requires Complete(tx)
  {
    var ctx := Context(tx.details[0][0].accountKeys, tx.metas[0].logMessages, mints, decode);
    && p.signature == tx.signature && p.slot == slot && p.fee == tx.metas[0].fee && p.timestamp == t.timestamp
    && p.nativeTransfers == NativeOf(tx)
    && Matches(ctx, TransferringOf(mints, decode, tx), p.tokenTransfers)
  }

  lemma Extracted(
    mints: map<string, string>, decode: string -> Option<seq<Byte>>, tx: Transaction, slot: nat, t: Clocks,
    native: seq<NativeTransfer>, token: seq<TokenTransfer>)
    requires Complete(tx)
    requires var keys, meta := tx.details[0][0].accountKeys, tx.metas[0];
             native == if |meta.preBalances| == |meta.postBalances| == |keys|
                       then Transfers(keys, meta.preBalances, meta.postBalances, |keys|) else []
    requires var message, meta := tx.details[0][0], tx.metas[0];
             var ctx := Context(message.accountKeys, meta.logMessages, mints, decode);
             Matches(ctx, Transferring(ctx, AllInstructions(message.instructions, meta.innerInstructionsNone,
                                                            meta.innerInstructions)), token)
    ensures Describes(mints, decode, tx, slot, t,
                      ProcessedTransaction(tx.signature, slot, native, token, tx.metas[0].fee, t.timestamp))
    ensures NativeOf(tx) == native && (token == [] <==> TransferringOf(mints, decode, tx) == [])
  {
    hide Transferring, Transfers, AllInstructions, Yields, Explains;
  }

  /** What a handler is given, field by field. */
  lemma DescribedMeans(
    mints: map<string, string>, decode: string -> Option<seq<Byte>>, tx: Transaction, slot: nat, t: Clocks,
    p: ProcessedTransaction)
    requires Complete(tx) && Describes(mints, decode, tx, slot, t, p)
    ensures p.signature == tx.signature && p.slot == slot && p.fee == tx.metas[0].fee && p.timestamp == t.timestamp
    ensures var keys, pre, post := tx.details[0][0].accountKeys, tx.metas[0].preBalances, tx.metas[0].postBalances;
            if |pre| == |post| == |keys| then p.nativeTransfers == Transfers(keys, pre, post, |keys|)
            else p.nativeTransfers == []
    ensures var message, meta := tx.details[0][0], tx.metas[0];
            var ctx := Context(message.accountKeys, meta.logMessages, mints, decode);
            Matches(ctx, Transferring(ctx, AllInstructions(message.instructions, meta.innerInstructionsNone,
                                                           meta.innerInstructions)), p.tokenTransfers)
    ensures NativeOf(tx) == p.nativeTransfers
    ensures TransferringOf(mints, decode, tx) == [] <==> p.tokenTransfers == []
  {
    hide Transferring, Transfers, AllInstructions, Yields, Explains;
  }

  class Processor {
    const extractor: Extractor
    const hasHandler: bool
    const cache: MemoryCache?
    var calls: seq<ProcessedTransaction>

    constructor (extractor: Extractor, hasHandler: bool, cache: MemoryCache?)
      ensures this.extractor == extractor && this.hasHandler == hasHandler && this.cache == cache && calls == []
    {
      this.extractor := extractor;
      this.hasHandler := hasHandler;
      this.cache := cache;
      calls := [];
    }

    ghost function Footprint(): set<object> {
      if cache == null then {this} else {this, cache}
    }

    method ProcessTransaction(alchemyTx: Transaction, slot: nat, t: Clocks, handlerOk: bool) returns (outcome: Outcome)
      requires WellTyped(alchemyTx)
      modifies Footprint()
      ensures outcome.Empty? <==>
              || |alchemyTx.details| == 0 || |alchemyTx.metas| == 0 || |alchemyTx.details[0]| == 0
              || |alchemyTx.details[0][0].accountKeys| == 0
      ensures outcome.Empty? <==> !Complete(alchemyTx)
      ensures outcome.Skipped? <==>
              Complete(alchemyTx) && cache != null && Lookup(old(cache.State()), alchemyTx.signature, t.checkedAt) == Hit
      ensures Complete(alchemyTx) && !outcome.Skipped? ==>
                (outcome.NoTransfers? <==>
                 NativeOf(alchemyTx) == [] && TransferringOf(extractor.tokenMints, extractor.decode, alchemyTx) == [])
      ensures outcome.Failed? || outcome.Delivered? ==>
                Describes(extractor.tokenMints, extractor.decode, alchemyTx, slot, t, outcome.tx)
      ensures outcome.Failed? ==> hasHandler && !handlerOk
      ensures outcome.Delivered? ==> !hasHandler || handlerOk
      ensures cache != null ==>
                && (!outcome.Delivered? ==> cache.entries.Keys <= old(cache.entries.Keys))
                && (outcome.Delivered? ==>
                      && alchemyTx.signature in cache.entries
                      && cache.entries[alchemyTx.signature] == t.markedAt + TTL
                      && cache.entries.Keys <= old(cache.entries.Keys) + {alchemyTx.signature})
      ensures calls == old(calls) + if hasHandler && (outcome.Failed? || outcome.Delivered?) then [outcome.tx] else []
      ensures cache != null ==>
                var s, s' := old(cache.State()), cache.State();
                var looked := Queried(cache.cfg, s, alchemyTx.signature, t.checkedAt);
                if outcome.Empty? then s' == s
                else if outcome.Delivered? then
                  Marked(cache.cfg, looked, alchemyTx.signature, t.evictAt, t.markedAt + TTL, s')
                else s' == looked
    {
      hide Queried, Marked, Matches, Transferring, Transfers, Lookup, InSync, AllInstructions, Yields, Explains, NativeOf,
        TransferringOf, Describes;
      if |alchemyTx.details| == 0 || |alchemyTx.metas| == 0 {
        return Empty;
      }
      if |alchemyTx.details[0]| == 0 {
        return Empty;
      }
      var msg, meta := alchemyTx.details[0][0], alchemyTx.metas[0];
      var accountKeys := msg.accountKeys;
      if |accountKeys| == 0 {
        return Empty;
      }
      if cache != null {
        var processed := cache.IsProcessed(alchemyTx.signature, t.checkedAt);
        if processed {
          return Skipped;
        }
      }
      assert meta in alchemyTx.metas;
      var native := ExtractNativeTransfers(accountKeys, meta.preBalances, meta.postBalances);
      var token := extractor.ExtractTokenTransfers(
        accountKeys, meta.logMessages, msg.instructions, meta.innerInstructionsNone, meta.innerInstructions);
      Extracted(extractor.tokenMints, extractor.decode, alchemyTx, slot, t, native, token);
      var processedTx := ProcessedTransaction(alchemyTx.signature, slot, native, token, meta.fee, t.timestamp);
      if |native| > 0 || |token| > 0 {
        if hasHandler {
          calls := calls + [processedTx];
          if !handlerOk {
            return Failed(processedTx);
          }
        }
        if cache != null {
          cache.MarkProcessed(alchemyTx.signature, t.evictAt, t.markedAt, TTL);
        }
        return Delivered(processedTx);
      }
      return NoTransfers;
    }
  }
}
