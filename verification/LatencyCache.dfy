/**
 The three-tier response cache (sns-daemon/src/latency_engine.rs:61-213, 276-287),
 proved to behave as one map of latest responses with a time to live. Times are
 milliseconds on a clock that does not run backwards; JSON is held as its text.
 */
module LatencyCache {
  import opened Common

  const L1_HOT: seq<string> :=
    ["getSlot", "getBlockHeight", "getEpochInfo", "getVersion", "getHealth", "getIdentity", "getInflationRate"]
  const L2_WARM: seq<string> :=
    ["getBalance", "getAccountInfo", "getMultipleAccounts", "getTokenAccountBalance", "getTokenSupply",
     "getTokenLargestAccounts"]
  const L3_COLD: seq<string> :=
    ["getProgramAccounts", "getClusterNodes", "getVoteAccounts", "getInflationGovernor", "getEpochSchedule",
     "getFirstAvailableBlock", "getGenesisHash"]
  const NO_CACHE: seq<string> :=
    ["sendTransaction", "simulateTransaction", "getLatestBlockhash", "getRecentPrioritizationFees",
     "getSignatureStatuses"]

  function Ttl(rpcMethod: string): Option<nat> {
    if rpcMethod in NO_CACHE then None
    else if rpcMethod in L1_HOT then Some(500)
    else if rpcMethod in L2_WARM then Some(2_000)
    else if rpcMethod in L3_COLD then Some(10_000)
    else Some(1_000)
  }

  function Tier(rpcMethod: string): nat {
    if rpcMethod in L1_HOT then 1
    else if rpcMethod in L2_WARM then 2
    else if rpcMethod in L3_COLD then 3
    else 0
  }

  function Key(rpcMethod: string, params: string): string {
    rpcMethod + ":" + params
  }

  datatype CacheEntry = CacheEntry(value: string, cachedAt: nat, ttl: nat, hits: nat)

  type Cache = map<string, CacheEntry>

  /** The tiers, and the cache hits counted for each method. */
  datatype Engine = Engine(l1: Cache, l2: Cache, l3: Cache, cacheHits: map<string, nat>)

  datatype Command = Get(rpcMethod: string, params: string) | Set(rpcMethod: string, params: string, value: string) | Evict

  function CacheOf(e: Engine, tier: nat): Cache {
    if tier == 1 then e.l1 else if tier == 2 then e.l2 else if tier == 3 then e.l3 else map[]
  }

  function WithCache(e: Engine, tier: nat, c: Cache): Engine {
    if tier == 1 then e.(l1 := c) else if tier == 2 then e.(l2 := c) else if tier == 3 then e.(l3 := c) else e
  }

  predicate Fresh(entry: CacheEntry, now: nat) {
    now - entry.cachedAt < entry.ttl
  }

  function Unexpired(c: Cache, now: nat): Cache {
    map k | k in c && Fresh(c[k], now) :: c[k]
  }

  /** Exactly the entries younger than their time to live remain, unchanged. */
  ghost predicate OnlyUnexpired(before: Cache, after: Cache, now: nat) {
    && (forall k :: k in after <==> k in before && now < before[k].cachedAt + before[k].ttl)
    && forall k :: k in after ==> after[k] == before[k]
  }

  function Hits(e: Engine, rpcMethod: string): nat {
    if rpcMethod in e.cacheHits then e.cacheHits[rpcMethod] else 0
  }

  function Answer(e: Engine, c: Command, now: nat): Option<string> {
    if !c.Get? then None
    else
      var cache, key := CacheOf(e, Tier(c.rpcMethod)), Key(c.rpcMethod, c.params);
      if key in cache && Fresh(cache[key], now) then Some(cache[key].value) else None
  }

  function AfterGet(e: Engine, rpcMethod: string, params: string, now: nat): Engine {
    var tier, key := Tier(rpcMethod), Key(rpcMethod, params);
    var cache := CacheOf(e, tier);
    if key !in cache then e
    else if Fresh(cache[key], now) then
      WithCache(e, tier, cache[key := cache[key].(hits := cache[key].hits + 1)])
      .(cacheHits := e.cacheHits[rpcMethod := Hits(e, rpcMethod) + 1])
    else WithCache(e, tier, cache - {key})
  }

  function AfterSet(e: Engine, rpcMethod: string, params: string, value: string, now: nat): Engine {
    match Ttl(rpcMethod)
    case None => e
    case Some(ttl) =>
      var tier := Tier(rpcMethod);
      WithCache(e, tier, CacheOf(e, tier)[Key(rpcMethod, params) := CacheEntry(value, now, ttl, 0)])
  }

  function After(e: Engine, c: Command, now: nat): Engine {
    match c
    case Get(rpcMethod, params) => AfterGet(e, rpcMethod, params, now)
    case Set(rpcMethod, params, value) => AfterSet(e, rpcMethod, params, value, now)
    case Evict => e.(l1 := Unexpired(e.l1, now), l2 := Unexpired(e.l2, now), l3 := Unexpired(e.l3, now))
  }

  class LatencyEngine {
    var l1: Cache
    var l2: Cache
    var l3: Cache
    var cacheHits: map<string, nat>

    ghost function State(): Engine
      reads this
    {
      Engine(l1, l2, l3, cacheHits)
    }

    constructor ()
      ensures State() == Engine(map[], map[], map[], map[])
    {
      l1, l2, l3, cacheHits := map[], map[], map[], map[];
    }

    method Store(tier: nat, cache: Cache)
      modifies this
      ensures State() == WithCache(old(State()), tier, cache)
    {
      match tier {
        case 1 => l1 := cache;
        case 2 => l2 := cache;
        case 3 => l3 := cache;
        case _ =>
      }
    }

    method GetCached(rpcMethod: string, params: string, now: nat) returns (value: Option<string>)
      modifies this
      ensures State() == After(old(State()), Get(rpcMethod, params), now)
      ensures value == Answer(old(State()), Get(rpcMethod, params), now)
      ensures var tier, key := Tier(rpcMethod), Key(rpcMethod, params);
              var before, after := CacheOf(old(State()), tier), CacheOf(State(), tier);
              && (value.None? ==> after == before - {key})
              && (value.Some? ==> key in before && after == before[key := before[key].(hits := before[key].hits + 1)])
    {
      var key := Key(rpcMethod, params);
      var tier := Tier(rpcMethod);
      if tier == 0 {
        return None;
      }
      var cache := if tier == 1 then l1 else if tier == 2 then l2 else l3;
      if key in cache {
        var entry := cache[key];
        if now - entry.cachedAt < entry.ttl {
          Store(tier, cache[key := entry.(hits := entry.hits + 1)]);
          cacheHits := cacheHits[rpcMethod := (if rpcMethod in cacheHits then cacheHits[rpcMethod] else 0) + 1];
          return Some(entry.value);
        }
        Store(tier, cache - {key});
      }
      return None;
    }

    method SetCache(rpcMethod: string, params: string, value: string, now: nat)
      modifies this
      ensures State() == After(old(State()), Set(rpcMethod, params, value), now)
      ensures Tier(rpcMethod) != 0 ==>
                var cache, key := CacheOf(State(), Tier(rpcMethod)), Key(rpcMethod, params);
                key in cache && cache[key].value == value && cache[key].cachedAt == now && cache[key].hits == 0
    {
      var ttl := Ttl(rpcMethod);
      if ttl.None? {
        return;
      }
      var tier := Tier(rpcMethod);
      if tier == 0 {
        return;
      }
      var cache := if tier == 1 then l1 else if tier == 2 then l2 else l3;
      Store(tier, cache[Key(rpcMethod, params) := CacheEntry(value, now, ttl.value, 0)]);
    }

    method EvictExpired(now: nat)
      modifies this
      ensures State() == After(old(State()), Evict, now)
      ensures OnlyUnexpired(old(l1), l1, now) && OnlyUnexpired(old(l2), l2, now) && OnlyUnexpired(old(l3), l3, now)
    {
      l1 := map k | k in l1 && now - l1[k].cachedAt < l1[k].ttl :: l1[k];
      l2 := map k | k in l2 && now - l2[k].cachedAt < l2[k].ttl :: l2[k];
      l3 := map k | k in l3 && now - l3[k].cachedAt < l3[k].ttl :: l3[k];
    }
  }

  // ----- Keys -----------------------------------------------------------------

  ghost predicate NoColon(names: seq<string>) {
    forall i, j :: 0 <= i < |names| && 0 <= j < |names[i]| ==> names[i][j] != ':'
  }

  lemma HotNamesHaveNoColon()
    ensures NoColon(L1_HOT)
  {
  }

  lemma WarmNamesHaveNoColon()
    ensures NoColon(L2_WARM)
  {
  }

  lemma ColdNamesHaveNoColon()
    ensures NoColon(L3_COLD)
  {
  }

  /** A tiered method's name has no colon, so the joined key determines both parts. */
  lemma KeyInjective(m: string, p: string, n: string, q: string)
    requires Tier(m) != 0 && Tier(n) != 0 && Key(m, p) == Key(n, q)
    ensures m == n && p == q
  {
    HotNamesHaveNoColon();
    WarmNamesHaveNoColon();
    ColdNamesHaveNoColon();
    assert ':' !in m && ':' !in n;
    assert Key(m, p)[|m|] == ':' && Key(n, q)[|n|] == ':';
    assert forall i :: 0 <= i < |m| ==> Key(m, p)[i] == m[i];
    assert forall i :: 0 <= i < |n| ==> Key(n, q)[i] == n[i];
    assert |m| == |n|;
    assert m == Key(m, p)[..|m|] && n == Key(n, q)[..|n|];
    assert p == Key(m, p)[|m| + 1..] && q == Key(n, q)[|n| + 1..];
  }
}
