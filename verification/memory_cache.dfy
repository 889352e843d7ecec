/** The in-memory cache as the program runs it when calls do not overlap. */
module MemoryCaches {
  import opened Orders
  import opened CacheModel

  class MemoryCache {
    const cfg: Config
    var entries: map<Key, int>
    var accessOrder: seq<Key>

    constructor (maxSize: nat, enableLRU: bool)
      ensures cfg == Config(maxSize, enableLRU) && State() == EMPTY && InSync(cfg, State())
    {
      cfg := Config(maxSize, enableLRU);
      entries := map[];
      accessOrder := [];
    }

    function State(): CacheState
      reads this
    {
      CacheState(entries, accessOrder)
    }

    method RemoveFromAccessOrder(txHash: Key)
      modifies this`accessOrder
      ensures accessOrder == RemoveFirst(old(accessOrder), txHash)
    {
      for i := 0 to |accessOrder|
        invariant accessOrder == old(accessOrder) && txHash !in accessOrder[..i]
      {
        if accessOrder[i] == txHash {
          RemoveFirstAt(accessOrder, txHash, i);
          accessOrder := accessOrder[..i] + accessOrder[i + 1..];
          return;
        }
      }
    }

    method UpdateAccessOrder(txHash: Key)
      modifies this`accessOrder
      ensures accessOrder == RemoveFirst(old(accessOrder), txHash) + [txHash]
    {
      RemoveFromAccessOrder(txHash);
      accessOrder := accessOrder + [txHash];
    }

    /** The write-locked section that follows an expired read. */
    method DropExpired(txHash: Key)
      modifies this
      ensures State() == Deleted(cfg, old(State()), txHash)
    {
      entries := entries - {txHash};
      if cfg.enableLRU {
        RemoveFromAccessOrder(txHash);
      }
    }

    /** The write-locked section that follows a hit when LRU is on. */
    method Touch(txHash: Key)
      modifies this
      ensures State() == Touched(cfg, old(State()), txHash)
    {
      if cfg.enableLRU {
        UpdateAccessOrder(txHash);
      }
    }

    method IsProcessed(txHash: Key, now: int) returns (processed: bool)
      modifies this
      ensures processed <==> txHash in old(entries) && now <= old(entries)[txHash]
      ensures entries.Keys <= old(entries.Keys)
      ensures processed <==> Lookup(old(State()), txHash, now) == Hit
      ensures State() == Queried(cfg, old(State()), txHash, now)
      ensures old(InSync(cfg, State())) ==> InSync(cfg, State())
    {
      ghost var before := State();
      if txHash !in entries {
        return false;
      }
      if Expired(entries[txHash], now) {
        DropExpired(txHash);
        processed := false;
      } else {
        Touch(txHash);
        processed := true;
      }
      if InSync(cfg, before) { QueriedInSync(cfg, before, txHash, now); }
    }

    /** `now` is the clock the eviction scan reads, `at` the later one the expiry is counted from. */
    method MarkProcessed(txHash: Key, now: int, at: int, ttl: int)
      modifies this
      ensures txHash in entries && entries[txHash] == at + ttl
      ensures |entries| >= |old(entries)| - 1 && entries.Keys <= old(entries.Keys) + {txHash}
      ensures |old(entries)| < cfg.maxSize ==> old(entries.Keys) <= entries.Keys
      ensures Marked(cfg, old(State()), txHash, now, at + ttl, State())
      ensures old(InSync(cfg, State())) ==> InSync(cfg, State())
    {
      ghost var before := State();
      if |entries| >= cfg.maxSize {
        if cfg.enableLRU {
          if |accessOrder| > 0 {
            var oldest := accessOrder[0];
            entries := entries - {oldest};
            accessOrder := accessOrder[1..];
          }
        } else {
          EvictAny(now);
        }
      }
      ghost var room := State();
      assert Evicted(cfg, before, now, room);
      entries := entries[txHash := at + ttl];
      if cfg.enableLRU {
        UpdateAccessOrder(txHash);
      }
      assert State() == Stored(cfg, room, txHash, at + ttl);
      MarkDropsAtMostOne(cfg, before, txHash, now, at + ttl, State());
      if InSync(cfg, before) { MarkedInSync(cfg, before, txHash, now, at + ttl, State()); }
    }

    /** Eviction without LRU: the first expired entry the map iteration meets, else any entry. */
    method EvictAny(now: int)
      requires !cfg.enableLRU && |entries| >= cfg.maxSize
      modifies this`entries
      ensures old(entries) != map[] ==>
                exists victim | victim in old(entries) ::
                  && entries == old(entries) - {victim}
                  && (now <= old(entries)[victim] ==> forall k | k in old(entries) :: now <= old(entries)[k])
      ensures Evicted(cfg, old(State()), now, State())
    {
      var todo, evicted := entries.Keys, false;
      while todo != {} && !evicted
        invariant todo <= old(entries).Keys
        invariant !evicted ==> entries == old(entries)
        invariant !evicted ==> forall k | k in entries.Keys - todo :: !Expired(entries[k], now)
        invariant evicted ==> Evicted(cfg, old(State()), now, State())
        decreases |todo|
      {
        var key :| key in todo;
        if Expired(entries[key], now) {
          entries := entries - {key};
          evicted := true;
        }
        todo := todo - {key};
      }
      if !evicted && |entries| > 0 {
        var key :| key in entries.Keys;
        entries := entries - {key};
      }
    }

    /** One tick of the cleanup goroutine. */
    method CleanupExpired(now: int)
      requires cfg.enableLRU ==> NoDup(accessOrder)
      modifies this
      ensures forall k :: k in entries <==> k in old(entries) && now <= old(entries)[k]
      ensures forall k | k in entries :: entries[k] == old(entries)[k]
      ensures State() == Cleaned(cfg, old(State()), now)
      ensures old(InSync(cfg, State())) ==> InSync(cfg, State())
    {
      ghost var before := State();
      var todo := entries.Keys;
      ghost var dead: set<Key> := {};
      WithoutNone(accessOrder);
      while todo != {}
        invariant todo <= before.entries.Keys && dead !! todo
        invariant forall k :: k in dead <==> k in before.entries && k !in todo && Expired(before.entries[k], now)
        invariant State() == Swept(cfg, before, dead)
        decreases |todo|
      {
        var key :| key in todo;
        if Expired(entries[key], now) {
          SweptOneMore(cfg, before, dead, key);
          DropExpired(key);
          dead := dead + {key};
        }
        todo := todo - {key};
      }
      assert dead == ExpiredKeys(before, now);
      if InSync(cfg, before) { CleanedInSync(cfg, before, now); }
    }
  }
}
