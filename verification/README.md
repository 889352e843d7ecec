# Verification of the deduplicating webhook pipeline

A Dafny model of the part of the SDK that keeps a webhook transaction from being handled twice: the
in-memory cache, the processors that consult it, the code that turns payloads into handler calls, and
the retry and pagination loops of the webhook manager. `dafny verify dfyconfig.toml` checks everything.

| file | what it holds |
|---|---|
| `orders.dfy` | access orders: removal, filtering, subsequences |
| `cache_model.dfy` | what each critical section of the cache does to its two structures |
| `memory_cache.dfy` | the cache as a class with the program's loops, proved against that model |
| `cache_steps.dfy` | the same sections under arbitrary interleaving |
| `lru_runs.dfy` | whole runs of LRU operations: recency, survival |
| `served_runs.dfy` | whole runs of processor calls and cleanup ticks over LRU caches: inclusion between cache sizes, survival |
| `dedup_protocol.dfy` | concurrent check, handler, mark calls over one cache |
| `native_transfers.dfy`, `token_transfers.dfy`, `solana_processor.dfy` | Solana extraction and processor |
| `numerals.dfy`, `rounding.dfy`, `eth_activity.dfy`, `wei_bound.dfy` | keys, numerals, floating point, amounts |
| `eth_processor.dfy`, `eth_backfill.dfy` | Ethereum processor, webhook loop, backfill loop |
| `webhooks.dfy` | retries and paginated listing |

## What is modelled, and how

The clock is an integer passed to each operation; one call has several readings. A handler's answer, a
server's page, a cancellation and the circuit breaker's admission are parameters of the operation that
meets them. Go's map iteration order is an arbitrary choice in the methods, and the contracts hold for
every choice. A JSON number is the real number its float64 holds, and products of big.Float values are
rounded to nearest, ties to even, as section 4.3.1 of IEEE 754-2008 defines it.

`IsProcessed` gives up its read lock before it deletes or promotes the key (cache/memory.go:47-48 and
59-60). In the step system that second section is owed and lands at any later moment, between any
steps of other calls. The sequential class and the step system use the same definitions of the sections.

Results that say where the code does less than one might expect:

- The cache is a plain map with expiries for calls that do not overlap (`SequentialRunsAreTtlMaps`), but
  not for calls that do: a key marked again while an expired lookup still owes its delete loses the new
  mark (`LockGapLosesMark`). `AnswersAreExact` says exactly when this happens, and `AnswersWithEviction` when
  a full cache gives another answer too.
- The size limit can be exceeded by one entry for each promotion that lands after its key was evicted
  (`LateTouchOverfills`). It holds all along if and only if no mark of a new key meets a full cache whose
  oldest key has lost its entry (`SizeBoundExact`); the two structures agree all along if and only if no
  promotion is late (`InterleavingsStayBounded`). A cache of size 0 holds one entry.
- Storing a key that is already present evicts another one when the cache is full, so that a key is only
  safe from `maxSize - 2` other keys then (`RecentKeysSurvive`, `StoringAgainEvicts`). In any case it is lost
  before its expiry exactly by a store that finds the cache full and the key oldest (`SurvivesUnlessOldest`).
  Processor calls that do not overlap store only absent keys; with them a key is safe from `maxSize - 1`
  others until a tick after its expiry, and with nothing found expired in between it survives exactly those
  (`ServedKeysSurvive`).
- Overlapping calls for one key can all succeed (`OverlappingCallsBothSucceed`); the exact bound is the
  number of calls in flight at the first mark (`SuccessesBoundedByInFlight`). Calls that do not overlap
  succeed at most once per 24 hours, however long the history, while no mark finds the cache full
  (`SuccessesAreTtlApart`, `AtMostOneSuccess`).
- A larger LRU cache can call the handler where a smaller one does not (`InclusionNeedsTheTtl`), and a cleanup
  tick alone can bring that about (`TickBreaksInclusion`). Over runs of any length, inclusion of the access
  orders and of the handler calls holds if and only if no access and no tick finds a key expired in the larger
  cache and live in the smaller (`LargerCacheIncludesSmaller`). It is enough that no access and no tick tells
  the marks of one key apart (`InclusionWhenMarksExpireTogether`).
- The README of the SDK lists ERC-721 and ERC-1155 transfers, but those that name their contract are
  labelled ERC-20, because eth/processor.go:152 tries the token branch first (`NftsWithContractAreTokens`).
- Canonicalising a hash twice can differ from doing so once (`CanonicalNotIdempotent`). It does not for
  accepted hashes (`CanonicalForm`), nor for any string of which at most one prefix is left after the first
  trimming, and for no others (`CanonicalTwice`).
- Token decimals received as text are read as hex first, so that "18" means 24 (`EighteenIsTwentyFour`); which decimal
  texts are read back, `DecimalDecimalsRoundTrip` says exactly. The backfill reads them as decimal first
  (`EthBackfill.DecimalsRoundTrip`).
- A block number spelled with "0X" passes validation and then fails to parse (`BlockNumbersParse`).
- Every native SOL transfer names the first losing account, which has really paid all of it exactly when
  no other account lost anything (`PayerPaidIffAlone`).
- One smallest unit of a six-decimal token whose raw value is missing is dropped as zero
  (`OneUnitOfSixDecimals`); which amounts are, `TokenTransfersOffered` says exactly. One wei never is
  (`RealTransfersAreOffered`).
- The first wait of a retried operation is not capped (`WaitsAreCapped`), and a fractional multiplier acts on
  float64 values (`FractionalMultiplier`). The address listing does not return for a server whose cursors
  repeat, nor for one that always has a fresh one (`TerminatesIffNoRepeat`, `FreshCursorsNeverEnd`).

## Model

| member | source | states |
|---|---|---|
| MemoryCaches.MemoryCache.constructor | cache/memory.go:21-34 | a new cache is empty and its two structures agree |
| MemoryCaches.MemoryCache.IsProcessed | cache/memory.go:37-67 | true exactly for a key whose expiry is not before now; deletes an expired key, promotes a live one, and keeps the structures in agreement |
| MemoryCaches.MemoryCache.MarkProcessed | cache/memory.go:70-108 | evicts when full, stores the key with its expiry and makes it the most recent, in both modes |
| MemoryCaches.MemoryCache.EvictAny | cache/memory.go:82-96 | without LRU the victim is an expired entry if there is one, otherwise any entry, for every iteration order |
| MemoryCaches.MemoryCache.CleanupExpired | cache/memory.go:124-143 | one tick removes exactly the expired keys from both structures, for every iteration order |
| MemoryCaches.MemoryCache.RemoveFromAccessOrder | cache/memory.go:152-159 | removes the first occurrence and nothing else |
| MemoryCaches.MemoryCache.UpdateAccessOrder | cache/memory.go:146-149 | moves the key to the end |
| CacheModel.MarkedInSync | cache/memory.go:70-108 | a mark keeps map and access order over the same keys and within capacity, whichever entry is evicted |
| CacheModel.PlainMarkDropsOne | cache/memory.go:82-101 | with LRU off a mark stores its key and drops at most one other, which is live only if no entry is expired; every other entry keeps its expiry |
| CacheModel.LruMarkDropsOldest | cache/memory.go:74-105 | with LRU on it drops at most the least recently used key of a full cache |
| CacheModel.QueriedInSync | cache/memory.go:37-67 | a lookup keeps them so |
| CacheModel.QueriedExactly | cache/memory.go:37-67 | a lookup is a hit exactly for a key whose expiry is not before now, and otherwise drops that key and nothing else |
| CacheModel.CleanedInSync | cache/memory.go:124-143 | a tick keeps them so |
| CacheSteps.InterleavingsStayBounded | cache/memory.go:37-108 | in LRU mode every interleaving keeps the access order free of duplicates and covering the entries, with at most capacity plus late promotions entries; the key sets have been equal and the plain bound has held all along if and only if no promotion was late |
| CacheSteps.PlainModeStaysInSync | cache/memory.go:37-108 | with LRU off the plain bound holds in every interleaving |
| CacheSteps.LateTouchOverfills | cache/memory.go:58-64 | a run in which one late promotion makes a cache of size 1 hold two entries |
| CacheSteps.SizeBoundExact | cache/memory.go:74-105 | in LRU mode and every interleaving the cache has kept within its capacity all along if and only if no mark of a key without entry met a full cache whose oldest key had no entry |
| CacheSteps.EntriesComeFromMarks | cache/memory.go:100-101 | in every interleaving an entry is the latest mark of its key, undeleted since |
| CacheSteps.HitsHaveACause | cache/memory.go:41-66 | a positive answer at time t means the latest mark of that key has an expiry of at least t |
| CacheSteps.FewKeysNeverFull | cache/memory.go:74-105 | with fewer distinct marked keys than maxSize no mark finds the cache full, in either mode and any interleaving |
| CacheSteps.AnswersWithEviction | cache/memory.go:37-108 | with a monotone clock, for any size, mode and interleaving, the answer is that of a plain TTL map except exactly where since the latest mark a delayed delete landed or a mark of another key took the entry |
| CacheSteps.PlainEvictionsNeedLiveCache | cache/memory.go:82-96 | with LRU off a key that should still be a hit is taken only by a mark that finds the cache full and no entry expired |
| CacheSteps.AnswersAreExact | cache/memory.go:37-108 | while no mark finds the cache full, and with a monotone clock, the answer is that of a plain TTL map except exactly where a delayed delete landed since the latest mark, in both modes |
| CacheSteps.SequentialRunsAreTtlMaps | cache/memory.go:37-108 | without overlap it is that of the plain TTL map; deletes, promotions and ticks are unobservable |
| CacheSteps.LockGapLosesMark | cache/memory.go:46-56 | an interleaving that loses a fresh mark |
| LruRuns.OrderIsRecency | cache/memory.go:146-159 | after any sequential run the access order lists exactly the entry keys, by the time of their last mark or hit |
| LruRuns.RecentKeysSurvive | cache/memory.go:74-105 | a key stays present until its expiry while at most maxSize - 1 other keys have been marked or hit since, or maxSize - 2 if a key was marked that was present |
| LruRuns.StoringAgainEvicts | cache/memory.go:74-80 | for every size from two on, marking a key that is present evicts one that only maxSize - 1 others have been touched after |
| LruRuns.SurvivesUnlessOldest | cache/memory.go:74-80 | until a clock reading passes its expiry a key is lost exactly by a store that finds the cache full and the key least recently used |
| ServedRuns.LargerCacheIncludesSmaller | cache/memory.go:58-143 | for caches of sizes k <= m driven by the same accesses and cleanup ticks over any time, with marks in the order of the clock: the smaller access order is a subsequence of the larger all along and the larger makes no handler call the smaller avoids, if and only if no access and no tick finds a key expired in the larger and live in the smaller |
| ServedRuns.InclusionWhenMarksExpireTogether | cache/memory.go:58-143 | so it is whenever at each access and tick the marks of a key so far have all expired or all not |
| ServedRuns.InclusionNeedsTheTtl | cache/memory.go:46-56 | a trace in which the larger cache finds a key expired that the smaller, having evicted it once, has renewed |
| ServedRuns.TickBreaksInclusion | cache/memory.go:124-143 | a trace in which only a tick finds such a key, and the larger cache then calls the handler where the smaller hits |
| ServedRuns.ServedKeysSurvive | cache/memory.go:58-143 | after a call for a key, in calls that do not overlap, it keeps its entry and expiry while fewer other keys than the capacity are marked or hit and no tick comes after that expiry, and exactly while fewer are if no access and no tick finds a key expired |
| DedupProtocol.SkipsHaveASuccess | eth/processor.go:73-86 | a call that is skipped has an earlier call for its key whose handler succeeded and whose mark has not expired |
| DedupProtocol.SuccessesBoundedByInFlight | eth/processor.go:263-274 | over a cache that keeps its marks every successful handler run for a key belongs to a call in flight at the first mark, so there are no more of them than such calls |
| DedupProtocol.MarksAreKept | cache/memory.go:37-108 | over a history of any length in which no mark finds the cache full, every lookup of a marked key is a hit if and only if none comes after the expiry of its latest mark |
| DedupProtocol.AtMostOneSuccess | solana/processor.go:72-112 | with no such late lookup, calls that do not overlap succeed at most once for a key |
| DedupProtocol.SuccessesAreTtlApart | eth/processor.go:73-86 | without any condition on when the key is looked up, two successful calls for a key that do not overlap, and are not disturbed by a delete from outside, are separated by a mark and a check more than 24 hours after it |
| DedupProtocol.OverlappingCallsBothSucceed | eth/processor.go:73-86 | two overlapping calls that both succeed |
| NativeTransfers.ExtractNativeTransfers | solana/processor.go:118-156 | the nested loops are: for each gaining account in order, one transfer of its full gain from the first losing account, with 64-bit wrap-around |
| NativeTransfers.TransfersOfBalances | solana/processor.go:121-145 | read from the balances alone: one transfer for each gaining account in order, from the first losing account to it, of its gain; none without a loser |
| NativeTransfers.NativeConservation | solana/processor.go:121-145 | if balances are conserved up to the fee, each gainer appears exactly once with its true gain, and the amounts plus the fee are all that was lost |
| NativeTransfers.PayerPaidIffAlone | solana/processor.go:125-141 | every transfer names as its payer the first losing account, which lost exactly the reported total plus the fee if and only if no other account lost anything |
| TokenTransfers.Extractor.ExtractTokenTransfers | solana/processor.go:159-328 | the collect-then-decode loops give, one for one and in order, the transfers of a single pass over outer then inner instructions |
| TokenTransfers.Extractor.DecodeTransfer | solana/processor.go:199-313 | an instruction yields a transfer exactly when it is well formed with a configured mint, or a plain transfer whose mint can be inferred, and the transfer has that instruction's accounts, amount, mint and currency |
| TokenTransfers.CollectThenDecode | solana/processor.go:168-198 | collecting first selects the same instructions as one pass |
| TokenTransfers.CheckedTransfers | solana/processor.go:215-231 | every well-formed TransferChecked with a configured mint has exactly one transfer, in order, with its accounts, mint and amount and a currency of that mint; nothing else of type 12 has one |
| TokenTransfers.PlainTransfers | solana/processor.go:232-313 | every well-formed Transfer for which a mint can be inferred has exactly one, in order, with its accounts and amount, that mint and a currency of it, with 6 decimals for USDC and USDT and 9 otherwise; nothing else of type 3 has one |
| TokenTransfers.OtherInstructions | solana/processor.go:168-282 | no instruction of another program or type has one |
| TokenTransfers.InnerComeAfterOuter | solana/processor.go:168-198 | every inner instruction of every group is considered, after all outer ones and in order |
| TokenTransfers.NoOtherInstructions | solana/processor.go:168-198 | there are no others, and only the outer ones where the transaction has no inner ones |
| TokenTransfers.AmountRoundTrip | solana/processor.go:231 | bytes 1 to 9 are the inverse of encoding any 64-bit amount in little-endian order |
| TokenTransfers.WriteInvertsRead | solana/processor.go:245 | and encoding is the inverse of reading |
| TokenTransfers.Extractor.InferMint | solana/processor.go:247-278 | for every map order: a configured mint mentioned in the earliest log message that mentions one, otherwise the earliest account key that is one, otherwise none |
| TokenTransfers.Extractor.Contains | solana/processor.go:250-255 | the window scan finds a mint if and only if it is a substring |
| TokenTransfers.InferredMintIsConfigured | solana/processor.go:288-295 | an inferred mint is always configured, so the failed lookup cannot happen for type 3 |
| TokenTransfers.InferredMintIsEarliest | solana/processor.go:247-278 | exactly which mints may be inferred, by substrings of log messages and by account keys |
| TokenTransfers.Extractor.GetCurrencyFromMint | solana/processor.go:331-338 | finds a currency of the mint if and only if there is one |
| SolanaProcessor.Processor.ProcessTransaction | solana/processor.go:45-115 | which of the five ways a call ends, what the handler is given, and the cache state after each |
| SolanaProcessor.DescribedMeans | solana/processor.go:87-97 | the transaction handed over has the signature, slot, fee and time received and the transfers extracted from its own balances and instructions |
| EthActivity.AcceptedHashes | eth/processor.go:59-66 | a hash is accepted if and only if it is 64 hex digits after one of five prefixes |
| EthActivity.AcceptedAddresses | eth/processor.go:290-305 | an address is accepted if and only if it is 40 hex digits, alone or after 0x or 0X |
| EthActivity.AcceptedBlockNumbers | eth/processor.go:325-341 | a block number is valid if and only if it is one or more hex digits, alone or after 0x or 0X |
| EthActivity.CheckedKeys | eth/processor.go:51-71 | which activities are refused before the cache is asked, for which of three reasons, and under which key the others are looked up |
| EthActivity.BlockNumberVerdicts | eth/processor.go:88-96 | which block numbers are refused, for which of two reasons, and that the others are handed over as the number they denote |
| EthActivity.CanonicalForm | eth/processor.go:59-62 | accepted hashes become "0x" and 64 lower-case digits, and canonicalising again changes nothing |
| EthActivity.CanonicalTwice | eth/processor.go:59-62 | for every string, canonicalising again changes nothing if and only if what the first trimming leaves does not begin with two prefixes |
| EthActivity.CanonicalNotIdempotent | eth/processor.go:59-62 | a string that is changed again |
| EthActivity.KeyIdentity | eth/processor.go:59-71 | two accepted activities share a key if and only if their 64 digits denote the same number and their trace addresses agree |
| EthActivity.BlockNumbersParse | eth/processor.go:88-96 | a validated block number parses, exactly, if and only if it has no "0X" prefix and fits in 64 bits |
| EthActivity.BlockNumberRoundTrip | eth/backfill.go:196-197 | parsing inverts the 0x%x printing |
| EthActivity.RawValueIsKept | eth/processor.go:167-172 | the decimal Value string denotes the same number as the hex raw value, has no leading zero, and zero is never handed over |
| EthActivity.Kinds | eth/processor.go:130-238 | which branch an activity takes |
| EthActivity.IgnoredActivities | eth/processor.go:130-249 | what is ignored for lack of a field or an unsupported category, and that an NFT is handed over as amount 1 |
| EthActivity.OfferedFields | eth/processor.go:251-261 | hash, sender, recipient, category and the internal flag are those of the activity |
| EthActivity.OfferedCurrency | eth/processor.go:139-182 | the currency is ETH, or the configured symbol, or the asset, or UNKNOWN |
| EthActivity.OfferedNetwork | eth/processor.go:140-237 | the network label, for every category, chain and call kind |
| EthActivity.PlainDecimals | eth/processor.go:105-127 | numeric decimals are taken as they are, missing ones are 18 |
| EthActivity.HexDecimalsRoundTrip | eth/processor.go:117-121 | decimals written in hex after 0x are read back |
| EthActivity.DecimalDecimalsRoundTrip | eth/processor.go:117-124 | decimals written in decimal are read back if and only if they have one digit or do not fit when read as hex |
| EthActivity.EighteenIsTwentyFour | eth/processor.go:117-121 | the text 18 is read as 24 |
| EthActivity.NftsWithContractAreTokens | eth/processor.go:152-245 | an NFT transfer is labelled as a token exactly when its contract address is not empty |
| Numerals.DecimalRoundTrip | eth/processor.go:255 | printing an amount in decimal loses nothing |
| Rounding.RoundIsNearest | eth/processor.go:134 | what is rounded to is representable, and nearest among all representable values |
| Rounding.RoundTiesToEven | eth/processor.go:134 | where another representable value is as close, the one with an even last digit is taken |
| WeiBound.WeiAmountBound | eth/processor.go:133-138 | the amount differs from w wei by less than w(2^-52 + 2^-106) + 1, and up to 2^51 wei is w or w - 1 |
| WeiBound.TokenAmountBound | eth/processor.go:158-162 | the same bound for a token amount computed from its float value, for every number of decimals |
| WeiBound.RealTransfersAreOffered | eth/processor.go:247-249 | an ether transfer is handed over if and only if it moves at least one wei |
| WeiBound.EtherValueIsKept | eth/processor.go:133-138 | the Value string of an ether transfer denotes the amount transferred, within that error |
| WeiBound.TokenValueIsKept | eth/processor.go:158-162 | and so does that of a token transfer without raw value |
| WeiBound.TokenUnitIsHeld | eth/processor.go:161 | the unit is the power of ten, and the precision the least from 64 bits on that holds it |
| WeiBound.TokenTransfersOffered | eth/processor.go:158-162 | a token transfer without raw value is handed over if and only if it moves two smallest units, or one whose float value times the unit still rounds to one |
| WeiBound.OneUnitOfSixDecimals | eth/processor.go:158-162 | one smallest unit of a token with six decimals is dropped |
| EthProcessor.Processor.ProcessActivity | eth/processor.go:51-277 | how each call ends, what the handler is called with, and the cache state after it; nothing is delivered or marked after a handler error |
| EthProcessor.DecideMeans | eth/processor.go:73-277 | a call ends refused, skipped, dropped, failed or delivered exactly for the stated reasons, delivered only without a handler or after its success |
| EthProcessor.CacheAfterMeans | eth/processor.go:73-86 | after a delivered call its key is marked for 24 hours from the mark, and no other call marks anything |
| EthProcessor.Processor.Convert | eth/processor.go:98-261 | the category branches produce the judged activity or nothing |
| EthProcessor.HandleEthereumWebhook | handler.go:131-159 | every activity is processed in order whatever fails, and over a cache with room for the payload's keys calls and marks are those of the payload semantics |
| EthProcessor.MarksAreDeliveries | eth/processor.go:269-274 | the marked keys are those marked before and those delivered |
| EthProcessor.MarksNeedSuccess | eth/processor.go:263-271 | with a handler every newly marked key has an activity for which the handler succeeded |
| EthProcessor.OffersCharacterised | eth/processor.go:73-86 | which activities of a payload reach the handler |
| EthProcessor.Redelivery | handler.go:150-156 | a second delivery offers no key that succeeded, and offers every valid non-zero activity whose key is unmarked |
| EthProcessor.DeliverTwice | handler.go:150-156 | two deliveries of one payload over one cache with room for its keys make the handler calls of the payload semantics, the second over the marks of the first |
| EthProcessor.CleanDeliveryCompletes | handler.go:150-156 | after a delivery without handler errors every offerable key is marked and a further delivery makes no call |
| EthBackfill.PrecheckKeyIsUniqueID | eth/backfill.go:130-133 | the pre-check key is the processor's key for the activity built |
| EthBackfill.TransferIsAccepted | eth/backfill.go:262-300 | a well-formed transfer passes every check under its own key, and is handed over with its sender, recipient, hash, block and category |
| EthBackfill.EtherTransferIsOffered | eth/backfill.go:275-300 | a well-formed ether transfer is handed over if and only if it moves at least one wei, with a Value that denotes the amount |
| EthBackfill.TokenTransferIsOffered | eth/backfill.go:284-300 | a well-formed token transfer with a hex amount is handed over if and only if that is not zero, with exactly that Value |
| EthBackfill.DecimalsRoundTrip | eth/backfill.go:290-296 | the decimals of a transfer are read back, written in decimal or in hex |
| EthBackfill.CountsAreCounts | eth/backfill.go:123-152 | the counters are the numbers of transfers already marked and of those neither skipped nor failed |
| EthBackfill.PrecheckIsRedundant | eth/backfill.go:123-152 | with and without the pre-check the loop makes the same handler calls and marks |
| EthBackfill.Backfill.BackfillTransfers | eth/backfill.go:123-152 | the loop has the effect of handing every transfer to the processor, and counts what it skips and processes |
| EthBackfill.Backfill.BackfillTransfer | eth/backfill.go:130-151 | one iteration of the loop: an unmarked well-formed transfer that moves anything is handed over exactly once, as what it is |
| Webhooks.ExecuteWithRetry | webhook.go:302-335 | at most max(0, MaxAttempts) runs, none after a success, and the waits of the schedule between them, with the products rounded as float64 values |
| Webhooks.RetriedMeans | webhook.go:302-335 | what that says of runs, failures, cancellations and waits, one by one |
| Webhooks.Schedule | webhook.go:327-330 | for an integer multiplier m >= 1 the k-th wait, k >= 1, is min(MaxDelay, InitialDelay * m^k) |
| Webhooks.WaitsAreCapped | webhook.go:302-330 | no wait exceeds MaxDelay if and only if InitialDelay does not |
| Webhooks.FractionalMultiplier | webhook.go:327 | at the multiplier 1.4 a wait of one second is followed by one of exactly 1.4 seconds, though the double lies below 1.4 |
| Webhooks.TotalWait | webhook.go:302-335 | the waits sum to at most InitialDelay + (MaxAttempts - 2) * MaxDelay |
| Webhooks.FetchPages | webhook.go:205-254 | one attempt follows the chain of cursors to a last page or a failed request, and returns the addresses of all its pages, that last page included |
| Webhooks.ListedMeans | webhook.go:208-252 | the pages of an attempt answer no cursor and then each the cursor before it, and only the last may be a last page |
| Webhooks.FlatAt | webhook.go:247 | the list has as many addresses as the pages hold, and every address of every page at its place |
| Webhooks.ListingIsUnique | webhook.go:208-252 | there is only one such chain of pages |
| Webhooks.GetWebhookAddresses | webhook.go:200-260 | on success the result is the listing of the one attempt that succeeded, beside an error it is what the latest attempt that ran had collected, and the retries follow the schedule |
| Webhooks.TerminatesIffNoRepeat | webhook.go:208-252 | the listing loop ends if and only if its chain of cursors is finite and none repeats |
| Webhooks.FreshCursorsNeverEnd | webhook.go:208-252 | a server that always has a fresh cursor and a non-empty page is never left |

## Left out

- Locks and goroutines: a critical section is one step, and steps interleave; memory order is not modelled.
- Close, use after Close, and a negative size: the cache is used before it is closed.
- The Redis and no-op caches, and errors returned by a cache: the in-memory cache returns none.
- HTTP, JSON decoding, logging, signatures and configuration.
- Unicode case folding: only ASCII letters are folded, so a category spelled with the Kelvin sign is not recognised as the program would.
- The slice aliasing of the access order: it is a sequence, so sharing of backing arrays is not captured.
- The scan of configured token addresses: the symbol of a contract is a given function of its address.
- The float64 token amount of a Solana transfer: the raw amount and its decimals are kept instead.
- base58 decoding: a given function from strings to optional bytes.
- Non-finite float64 values and decimals outside the range of int.
- The exponent range of float64: rounding has an unbounded exponent, which agrees with it for every value of at least one wei.
- Schedule: does not cover delays above 2^53 nanoseconds (104 days), which a float64 may not hold, nor products of 2^63 or more, whose conversion the language leaves to the platform; elsewhere that conversion is a parameter.
- FetchPages: requires a cursor chain that ends, because the program does not return otherwise.
- GetWebhookAddresses: does not model the circuit breaker's own state, which decides only whether an attempt is admitted.
- The rest of the backfill: block range, address loop, cancellation, and the fetching of transfers.
- solana/backfill.go, whose transactions carry only a signature and end at the first check.
- The Solana webhook loop, which is the Ethereum one over ProcessTransaction.
- Creating, listing and updating webhooks.
