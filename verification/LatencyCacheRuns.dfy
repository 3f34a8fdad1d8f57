/** The cache over whole traces refines one map of latest responses. */
module LatencyCacheRuns {
  import opened Common
  import opened LatencyCache

  datatype Timed = Timed(now: nat, cmd: Command)

  ghost predicate Monotone(trace: seq<Timed>) {
    forall i, j :: 0 <= i <= j < |trace| ==> trace[i].now <= trace[j].now
  }

  ghost function Run(trace: seq<Timed>): Engine {
    if trace == [] then Engine(map[], map[], map[], map[]) else
      After(Run(trace[..|trace| - 1]), trace[|trace| - 1].cmd, trace[|trace| - 1].now)
  }

  /** The abstract cache: for each request the last response stored, and when. */
  type Latest = map<(string, string), (string, nat)>

  ghost function NextLatest(m: Latest, t: Timed): Latest {
    if t.cmd.Set? then m[(t.cmd.rpcMethod, t.cmd.params) := (t.cmd.value, t.now)] else m
  }

  ghost function LatestSets(trace: seq<Timed>): Latest {
    if trace == [] then map[] else NextLatest(LatestSets(trace[..|trace| - 1]), trace[|trace| - 1])
  }

  /** What a request gets: the latest response if its method is tiered and the
      response younger than the method's time to live. */
  ghost function Serve(m: Latest, rpcMethod: string, params: string, now: nat): Option<string> {
    var k := (rpcMethod, params);
    if Tier(rpcMethod) != 0 && k in m && now - m[k].1 < Lifetime(rpcMethod) then Some(m[k].0) else None
  }

  ghost function Lifetime(rpcMethod: string): nat {
    match Tier(rpcMethod)
    case 1 => 500
    case 2 => 2_000
    case _ => 10_000
  }

  lemma TieredMethodsAreCached(rpcMethod: string)
    requires Tier(rpcMethod) != 0
    ensures rpcMethod !in NO_CACHE && Ttl(rpcMethod) == Some(Lifetime(rpcMethod)) && Tier(rpcMethod) <= 3
  {
  }

  /** One request's entry in its tier: the latest response, or nothing fresh. */
  ghost predicate Agrees(e: Engine, m: Latest, rpcMethod: string, params: string, now: nat) {
    var cache, key, k := CacheOf(e, Tier(rpcMethod)), Key(rpcMethod, params), (rpcMethod, params);
    if key in cache then
      && k in m && cache[key].value == m[k].0 && cache[key].cachedAt == m[k].1 <= now
      && cache[key].ttl == Lifetime(rpcMethod)
    else k in m ==> now - m[k].1 >= Lifetime(rpcMethod)
  }

  lemma AgreesLater(e: Engine, m: Latest, rpcMethod: string, params: string, now: nat, later: nat)
    requires Agrees(e, m, rpcMethod, params, now) && now <= later
    ensures Agrees(e, m, rpcMethod, params, later)
  {
  }

  lemma GetKeepsAgreement(e: Engine, m: Latest, t: Timed, rpcMethod: string, params: string)
    requires t.cmd.Get? && Tier(rpcMethod) != 0 && Agrees(e, m, rpcMethod, params, t.now)
    ensures Agrees(After(e, t.cmd, t.now), m, rpcMethod, params, t.now)
  {
    hide Tier, Key;
    if Tier(t.cmd.rpcMethod) == Tier(rpcMethod) && Key(t.cmd.rpcMethod, t.cmd.params) == Key(rpcMethod, params) {
      KeyInjective(rpcMethod, params, t.cmd.rpcMethod, t.cmd.params);
    }
  }

  lemma SetKeepsAgreement(e: Engine, m: Latest, t: Timed, rpcMethod: string, params: string)
    requires t.cmd.Set? && Tier(rpcMethod) != 0 && Agrees(e, m, rpcMethod, params, t.now)
    ensures Agrees(After(e, t.cmd, t.now), NextLatest(m, t), rpcMethod, params, t.now)
  {
    hide Tier, Key, Ttl;
    TieredMethodsAreCached(rpcMethod);
    if Tier(t.cmd.rpcMethod) == Tier(rpcMethod) && Key(t.cmd.rpcMethod, t.cmd.params) == Key(rpcMethod, params) {
      KeyInjective(rpcMethod, params, t.cmd.rpcMethod, t.cmd.params);
    }
  }

  lemma EvictKeepsAgreement(e: Engine, m: Latest, t: Timed, rpcMethod: string, params: string)
    requires t.cmd.Evict? && Tier(rpcMethod) != 0 && Agrees(e, m, rpcMethod, params, t.now)
    ensures Agrees(After(e, t.cmd, t.now), m, rpcMethod, params, t.now)
  {
    hide Tier, Key;
  }

  lemma {:induction false} RunAgrees(trace: seq<Timed>, rpcMethod: string, params: string, now: nat)
    requires Monotone(trace) && Tier(rpcMethod) != 0 && (trace != [] ==> trace[|trace| - 1].now <= now)
    ensures Agrees(Run(trace), LatestSets(trace), rpcMethod, params, now)
    decreases |trace|
  {
    hide After, Tier, Key, Agrees;
    if trace == [] {
      EmptyAgrees(rpcMethod, params, now);
    } else {
      var last := |trace| - 1;
      var e, m, t := Run(trace[..last]), LatestSets(trace[..last]), trace[last];
      RunAgrees(trace[..last], rpcMethod, params, t.now);
      match t.cmd {
        case Get(_, _) => GetKeepsAgreement(e, m, t, rpcMethod, params);
        case Set(_, _, _) => SetKeepsAgreement(e, m, t, rpcMethod, params);
        case Evict => EvictKeepsAgreement(e, m, t, rpcMethod, params);
      }
      AgreesLater(Run(trace), LatestSets(trace), rpcMethod, params, t.now, now);
    }
  }

  lemma EmptyAgrees(rpcMethod: string, params: string, now: nat)
    ensures Agrees(Engine(map[], map[], map[], map[]), map[], rpcMethod, params, now)
  {
    hide Tier, Key;
  }

  /** Refinement: at any time, after any trace of reads, writes and evictions, a
      read is answered as the single map of latest responses answers it; methods
      outside the tiers, those marked never to be cached included, get nothing. */
  lemma CacheRefinesLatest(trace: seq<Timed>, rpcMethod: string, params: string, now: nat)
    requires Monotone(trace) && (trace != [] ==> trace[|trace| - 1].now <= now)
    ensures Answer(Run(trace), Get(rpcMethod, params), now) == Serve(LatestSets(trace), rpcMethod, params, now)
    ensures rpcMethod in NO_CACHE || Tier(rpcMethod) == 0 ==> Answer(Run(trace), Get(rpcMethod, params), now).None?
  {
    NeverCachedIsUntiered(rpcMethod);
    hide Tier, Key, Run, LatestSets;
    if Tier(rpcMethod) != 0 {
      RunAgrees(trace, rpcMethod, params, now);
    }
  }

  lemma NeverCachedIsUntiered(rpcMethod: string)
    ensures rpcMethod in NO_CACHE ==> Tier(rpcMethod) == 0
  {
  }

  ghost function WithoutEvictions(trace: seq<Timed>): seq<Timed> {
    if trace == [] then [] else
      WithoutEvictions(trace[..|trace| - 1]) + if trace[|trace| - 1].cmd.Evict? then [] else [trace[|trace| - 1]]
  }

  lemma {:induction false} SameLatest(trace: seq<Timed>)
    ensures LatestSets(WithoutEvictions(trace)) == LatestSets(trace)
    decreases |trace|
  {
    hide NextLatest;
    if trace != [] {
      var last := |trace| - 1;
      SameLatest(trace[..last]);
      var w, t := WithoutEvictions(trace[..last]), trace[last];
      if t.cmd.Evict? {
        EvictionSetsNothing(LatestSets(w), t);
        assert WithoutEvictions(trace) == w + [] == w;
      } else {
        LatestSnoc(w, t);
        assert WithoutEvictions(trace) == w + [t];
      }
    }
  }

  lemma EvictionSetsNothing(m: Latest, t: Timed)
    requires t.cmd.Evict?
    ensures NextLatest(m, t) == m
  {
  }

  lemma LatestSnoc(trace: seq<Timed>, t: Timed)
    ensures LatestSets(trace + [t]) == NextLatest(LatestSets(trace), t)
  {
    assert (trace + [t])[..|trace|] == trace;
  }

  /** Times of the shorter trace come from the longer one, in the same order. */
  lemma {:induction false} StillMonotone(trace: seq<Timed>)
    requires Monotone(trace)
    ensures Monotone(WithoutEvictions(trace))
    ensures forall i :: 0 <= i < |WithoutEvictions(trace)| ==> WithoutEvictions(trace)[i].now <= trace[|trace| - 1].now
    decreases |trace|
  {
    if trace != [] {
      StillMonotone(trace[..|trace| - 1]);
    }
  }

  /** Hence evictions change no answer: a trace and the same trace without them serve alike. */
  lemma EvictionIsUnobservable(trace: seq<Timed>, rpcMethod: string, params: string, now: nat)
    requires Monotone(trace) && (trace != [] ==> trace[|trace| - 1].now <= now)
    ensures Answer(Run(WithoutEvictions(trace)), Get(rpcMethod, params), now) == Answer(Run(trace), Get(rpcMethod, params), now)
  {
    StillMonotone(trace);
    SameLatest(trace);
    CacheRefinesLatest(trace, rpcMethod, params, now);
    CacheRefinesLatest(WithoutEvictions(trace), rpcMethod, params, now);
  }

  // ----- Hits -----------------------------------------------------------------

  ghost function Served(trace: seq<Timed>, rpcMethod: string): nat {
    if trace == [] then 0 else
      var last := |trace| - 1;
      Served(trace[..last], rpcMethod)
      + if trace[last].cmd.Get? && trace[last].cmd.rpcMethod == rpcMethod
           && Answer(Run(trace[..last]), trace[last].cmd, trace[last].now).Some? then 1 else 0
  }

  /** The hit counter of a method counts exactly its requests served from the cache. */
  lemma {:induction false} HitsCountServed(trace: seq<Timed>, rpcMethod: string)
    ensures Hits(Run(trace), rpcMethod) == Served(trace, rpcMethod)
    decreases |trace|
  {
    hide Tier, Key, Ttl;
    if trace != [] {
      HitsCountServed(trace[..|trace| - 1], rpcMethod);
    }
  }
}
