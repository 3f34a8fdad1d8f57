/**
 The upstream load balancer (sns-daemon/src/load_balancer.rs): the integer moving
 average of latencies and the selection strategies.
 */
module LoadBalancer {
  import opened Common

  datatype Node = Node(
    endpoint: string, weight: u32, currentConnections: nat, totalRequests: nat, errorCount: nat, avgLatencyMs: nat,
    alive: bool)

  // ----- The moving average ---------------------------------------------------

  /** One sample: nine parts old average, one part sample, rounded down. */
  function Average(current: nat, sample: nat): nat {
    (current * 9 + sample) / 10
  }

  function Averages(start: nat, samples: seq<nat>): nat {
    if samples == [] then start else Average(Averages(start, samples[..|samples| - 1]), samples[|samples| - 1])
  }

  function Repeat(sample: nat, n: nat): seq<nat> {
    seq(n, _ => sample)
  }

  /** Where the average comes to rest under a constant latency. */
  function Rest(start: nat, latency: nat): nat {
    if start > latency then latency
    else if start + 9 >= latency then start
    else latency - 9
  }

  /** Rounding down makes ten resting points, not one. */
  lemma RestingPoints(c: nat, latency: nat)
    ensures Average(c, latency) == c <==> c <= latency <= c + 9
  {
  }

  /** One step towards rest: strictly nearer from outside, never past it. */
  lemma StepTowardsRest(c: nat, latency: nat)
    ensures c > latency ==> latency <= Average(c, latency) < c
    ensures c + 9 < latency ==> c < Average(c, latency) <= latency - 9
  {
  }

  lemma {:induction false} DistanceShrinks(start: nat, latency: nat, n: nat)
    ensures var c, rest := Averages(start, Repeat(latency, n)), Rest(start, latency);
            && (start > latency ==> rest <= c <= start && (c == rest || c + n <= start))
            && (start <= latency ==> start <= c <= rest && (c == rest || c >= start + n))
  {
    if n > 0 {
      DistanceShrinks(start, latency, n - 1);
      assert Repeat(latency, n)[..n - 1] == Repeat(latency, n - 1);
      var c := Averages(start, Repeat(latency, n - 1));
      RestingPoints(c, latency);
      StepTowardsRest(c, latency);
    }
  }

  /** Under a constant latency the average settles, at the latency itself from
      above, but up to 9 ms short of it from below: from a fresh node's 0 at
      max(0, latency - 9). It takes no more steps than the distance. */
  lemma ConstantLatencySettles(start: nat, latency: nat, n: nat)
    requires n >= if start > latency then start - latency else latency - start
    ensures Averages(start, Repeat(latency, n)) == Rest(start, latency)
    ensures start == 0 ==> Rest(start, latency) == if latency > 9 then latency - 9 else 0
  {
    DistanceShrinks(start, latency, n);
  }

  /** And it moves one way only. */
  lemma ConstantLatencyMonotone(start: nat, latency: nat, n: nat)
    ensures var c, d := Averages(start, Repeat(latency, n)), Averages(start, Repeat(latency, n + 1));
            if start > latency then d <= c else c <= d
  {
    DistanceShrinks(start, latency, n);
    assert Repeat(latency, n + 1)[..n] == Repeat(latency, n);
    var c := Averages(start, Repeat(latency, n));
    RestingPoints(c, latency);
    StepTowardsRest(c, latency);
  }

  /** With any samples the average stays between the least, less 9, and the greatest. */
  lemma {:induction false} AverageStaysInRange(start: nat, samples: seq<nat>, lo: nat, hi: nat)
    requires lo <= start + 9 && start <= hi && forall i :: 0 <= i < |samples| ==> lo <= samples[i] <= hi
    ensures lo <= Averages(start, samples) + 9 && Averages(start, samples) <= hi
    decreases |samples|
  {
    if samples != [] {
      AverageStaysInRange(start, samples[..|samples| - 1], lo, hi);
    }
  }

  // ----- Strategies -----------------------------------------------------------

  datatype Strategy = RoundRobin | LeastConnections | WeightedRoundRobin | LatencyBased | Adaptive

  function Alive(nodes: seq<Node>): (alive: seq<Node>)
    ensures forall n :: n in alive <==> n in nodes && n.alive
  {
    if nodes == [] then [] else (if nodes[0].alive then [nodes[0]] else []) + Alive(nodes[1..])
  }

  /** Live nodes keep their order and their repetitions. */
  lemma {:induction false} AliveSnoc(nodes: seq<Node>, n: Node)
    ensures Alive(nodes + [n]) == Alive(nodes) + if n.alive then [n] else []
    decreases |nodes|
  {
    if nodes == [] {
      assert [n][1..] == [] && nodes + [n] == [n];
    } else {
      AliveSnoc(nodes[1..], n);
      assert (nodes + [n])[1..] == nodes[1..] + [n];
    }
  }

  /** Node `k` of the list is live, and `index` live ones come before it. */
  ghost predicate LiveAt(nodes: seq<Node>, k: nat, index: nat) {
    k < |nodes| && nodes[k].alive && |Alive(nodes[..k])| == index
  }

  lemma AliveCons(nodes: seq<Node>)
    requires nodes != []
    ensures Alive(nodes) == (if nodes[0].alive then [nodes[0]] else []) + Alive(nodes[1..])
    ensures Alive([]) == []
  {
  }

  /** The same for a prefix of one more node. */
  lemma AlivePrefix(nodes: seq<Node>, k: nat)
    requires 0 < k <= |nodes|
    ensures |Alive(nodes[..k])| == (if nodes[0].alive then 1 else 0) + |Alive(nodes[1..][..k - 1])|
  {
    AliveCons(nodes[..k]);
    assert nodes[..k][1..] == nodes[1..][..k - 1];
  }

  lemma {:induction false} LiveNode(nodes: seq<Node>, k: nat)
    requires k < |nodes| && nodes[k].alive
    ensures var index := |Alive(nodes[..k])|; index < |Alive(nodes)| && Alive(nodes)[index] == nodes[k]
    decreases k
  {
    hide Alive;
    AliveCons(nodes);
    if k == 0 {
      assert nodes[..0] == [];
    } else {
      LiveNode(nodes[1..], k - 1);
      AlivePrefix(nodes, k);
    }
  }

  /** Every position among the live nodes is one of the list's. */
  lemma {:induction false} PlaceOf(nodes: seq<Node>, index: nat) returns (k: nat)
    requires index < |Alive(nodes)|
    ensures LiveAt(nodes, k, index) && nodes[k] == Alive(nodes)[index]
    decreases |nodes|
  {
    hide Alive;
    if nodes == [] {
      NobodyAlive();
    }
    AliveCons(nodes);
    if nodes[0].alive && index == 0 {
      k := 0;
      assert nodes[..0] == [];
    } else {
      k := PlaceOf(nodes[1..], if nodes[0].alive then index - 1 else index);
      k := k + 1;
      AlivePrefix(nodes, k);
    }
  }

  lemma NobodyAlive()
    ensures Alive([]) == []
  {
  }

  lemma {:induction false} LiveBefore(nodes: seq<Node>, j: nat, k: nat)
    requires j < k <= |nodes| && nodes[j].alive
    ensures |Alive(nodes[..j])| < |Alive(nodes[..k])|
  {
    LiveNode(nodes[..k], j);
    assert nodes[..k][..j] == nodes[..j];
  }

  function SumOf(ws: seq<nat>): nat {
    if ws == [] then 0 else SumOf(ws[..|ws| - 1]) + ws[|ws| - 1]
  }

  /** `min_by_key`: the first position of the least key. */
  function FirstLeast(keys: seq<nat>): (i: nat)
    requires keys != []
    ensures i < |keys|
    ensures forall j :: 0 <= j < |keys| ==> keys[i] <= keys[j]
    ensures forall j :: 0 <= j < i ==> keys[i] < keys[j]
  {
    if |keys| == 1 then 0
    else
      var j := FirstLeast(keys[..|keys| - 1]);
      assert forall k :: 0 <= k < |keys| - 1 ==> keys[..|keys| - 1][k] == keys[k];
      if keys[|keys| - 1] < keys[j] then |keys| - 1 else j
  }

  // ----- Weighted round robin -------------------------------------------------

  const MAX_U32: nat := 0xFFFF_FFFF
  const MAX_I32: nat := 0x7FFF_FFFF

  type u32 = n: nat | n <= MAX_U32

  /** `as i32`: the upper half of the range turns negative. */
  function AsI32(x: u32): int {
    if x <= MAX_I32 then x else x - MAX_U32 - 1
  }

  /** Subtracts weights from the ticket until nothing is left; `None` is the
      abort of an overflowing subtraction. */
  function Walk(weights: seq<u32>, pick: int, i: nat): Option<nat>
    requires i <= |weights|
    decreases |weights| - i
  {
    if i == |weights| then Some(0)
    else
      var left := pick - AsI32(weights[i]);
      if left < -(MAX_I32 as int) - 1 || left > MAX_I32 then None
      else if left <= 0 then Some(i)
      else Walk(weights, left, i + 1)
  }

  function WeightedPick(weights: seq<u32>, random: u32): Option<nat> {
    var total := SumOf(weights);
    if total > MAX_U32 then None
    else if total == 0 then Some(0)
    else Walk(weights, AsI32(random % total), 0)
  }

  // ----- The balancer ---------------------------------------------------------

  datatype Selection = Selected(index: nat, endpoint: string) | NoNodes | Abort

  /** The counter wraps silently, as `fetch_add` does. */
  function NextCounter(counter: u64): u64 {
    (counter + 1) % (MAX_U64 + 1)
  }

  function RoundRobinPick(alive: seq<Node>, counter: u64): Selection
    requires alive != []
  {
    var index := counter % |alive|;
    Selected(index, alive[index].endpoint)
  }

  ghost predicate IsFirstLeast(keys: seq<nat>, i: nat) {
    && i < |keys|
    && (forall j :: 0 <= j < |keys| ==> keys[i] <= keys[j])
    && forall j :: 0 <= j < i ==> keys[i] < keys[j]
  }

  datatype Measure = ByConnections | ByLatency

  function KeyOf(n: Node, m: Measure): nat {
    match m
    case ByConnections => n.currentConnections
    case ByLatency => n.avgLatencyMs
  }

  function Keys(nodes: seq<Node>, m: Measure): (ks: seq<nat>)
    ensures |ks| == |nodes| && forall i :: 0 <= i < |nodes| ==> ks[i] == KeyOf(nodes[i], m)
  {
    seq(|nodes|, i requires 0 <= i < |nodes| => KeyOf(nodes[i], m))
  }

  function Weights(nodes: seq<Node>): (ks: seq<u32>)
    ensures |ks| == |nodes| && forall i :: 0 <= i < |nodes| ==> ks[i] == nodes[i].weight
  {
    seq(|nodes|, i requires 0 <= i < |nodes| => nodes[i].weight)
  }

  /** The first node with an endpoint, or the length when there is none. */
  function Find(nodes: seq<Node>, endpoint: string): (i: nat)
    ensures i <= |nodes| && (i < |nodes| ==> nodes[i].endpoint == endpoint)
    ensures forall j :: 0 <= j < i ==> nodes[j].endpoint != endpoint
  {
    if nodes == [] || nodes[0].endpoint == endpoint then 0 else 1 + Find(nodes[1..], endpoint)
  }

  lemma FindIs(nodes: seq<Node>, endpoint: string, i: nat)
    requires i <= |nodes| && (i < |nodes| ==> nodes[i].endpoint == endpoint)
    requires forall j :: 0 <= j < i ==> nodes[j].endpoint != endpoint
    ensures i == Find(nodes, endpoint)
  {
  }

  /** The node selected is node `k` of the list, a live one. */
  ghost predicate Selects(nodes: seq<Node>, k: nat, r: Selection) {
    && k < |nodes| && nodes[k].alive
    && r == Selected(|Alive(nodes[..k])|, nodes[k].endpoint)
  }

  /** Node `k` is the first of least key among all live nodes. */
  ghost predicate LeastLive(nodes: seq<Node>, k: nat, m: Measure) {
    && k < |nodes|
    && (forall j :: 0 <= j < |nodes| && nodes[j].alive ==> KeyOf(nodes[k], m) <= KeyOf(nodes[j], m))
    && forall j :: 0 <= j < k && nodes[j].alive ==> KeyOf(nodes[k], m) < KeyOf(nodes[j], m)
  }

  lemma LeastAmongLive(nodes: seq<Node>, k: nat, m: Measure)
    requires k < |nodes| && nodes[k].alive
    requires IsFirstLeast(Keys(Alive(nodes), m), |Alive(nodes[..k])|)
    ensures LeastLive(nodes, k, m)
  {
    LiveNode(nodes, k);
    forall j | 0 <= j < |nodes| && nodes[j].alive
      ensures KeyOf(nodes[k], m) <= KeyOf(nodes[j], m) && (j < k ==> KeyOf(nodes[k], m) < KeyOf(nodes[j], m))
    {
      LiveNode(nodes, j);
      if j < k {
        LiveBefore(nodes, j, k);
      }
    }
  }

  /** The live nodes' connections added up. */
  function LiveConnections(nodes: seq<Node>): nat {
    if nodes == [] then 0 else
      LiveConnections(nodes[..|nodes| - 1])
      + if nodes[|nodes| - 1].alive then nodes[|nodes| - 1].currentConnections else 0
  }

  lemma SumOfSnoc(front: seq<nat>, x: nat)
    ensures SumOf(front + [x]) == SumOf(front) + x
  {
    assert (front + [x])[..|front|] == front;
  }

  lemma KeysSnoc(nodes: seq<Node>, n: Node, m: Measure)
    ensures Keys(nodes + [n], m) == Keys(nodes, m) + [KeyOf(n, m)]
  {
  }

  lemma NothingConnected()
    ensures SumOf(Keys(Alive([]), ByConnections)) == LiveConnections([]) == 0
  {
    assert Keys([], ByConnections) == [];
  }

  lemma {:induction false} LiveConnectionsAddUp(nodes: seq<Node>)
    ensures SumOf(Keys(Alive(nodes), ByConnections)) == LiveConnections(nodes)
    decreases |nodes|
  {
    hide Alive, SumOf, Keys;
    if nodes == [] {
      NothingConnected();
    } else {
      var front, n := nodes[..|nodes| - 1], nodes[|nodes| - 1];
      var alive := Alive(front);
      LiveConnectionsAddUp(front);
      AliveSnoc(front, n);
      assert nodes == front + [n];
      assert Alive(nodes) == if n.alive then alive + [n] else alive;
      KeysSnoc(alive, n, ByConnections);
      SumOfSnoc(Keys(alive, ByConnections), n.currentConnections);
    }
  }

  /** The node that a strategy selects, whatever the draw or the counter. */
  ghost predicate Suits(strategy: Strategy, nodes: seq<Node>, k: nat) {
    && (strategy == LeastConnections ==> LeastLive(nodes, k, ByConnections))
    && (strategy == LatencyBased ==> LeastLive(nodes, k, ByLatency))
    && (strategy == Adaptive && Alive(nodes) != [] ==>
          LeastLive(nodes, k, if LiveConnections(nodes) / |Alive(nodes)| > 100 then ByConnections else ByLatency))
  }

  lemma SelectedIsLive(nodes: seq<Node>, index: nat, measure: Option<Measure>)
    requires index < |Alive(nodes)|
    requires measure.Some? ==> IsFirstLeast(Keys(Alive(nodes), measure.value), index)
    ensures exists k :: Selects(nodes, k, Selected(index, Alive(nodes)[index].endpoint))
                        && (measure.Some? ==> LeastLive(nodes, k, measure.value))
  {
    hide Alive;
    var k := PlaceOf(nodes, index);
    if measure.Some? {
      LeastAmongLive(nodes, k, measure.value);
    }
    assert Selects(nodes, k, Selected(index, Alive(nodes)[index].endpoint));
  }

  class LoadBalancer {
    var nodes: seq<Node>
    var roundRobinCounter: u64
    const strategy: Strategy

    constructor (strategy: Strategy)
      ensures nodes == [] && roundRobinCounter == 0 && this.strategy == strategy
    {
      nodes, roundRobinCounter := [], 0;
      this.strategy := strategy;
    }

    method AddNode(endpoint: string, weight: u32)
      modifies this`nodes
      ensures nodes == old(nodes) + [Node(endpoint, weight, 0, 0, 0, 0, true)]
    {
      nodes := nodes + [Node(endpoint, weight, 0, 0, 0, 0, true)];
    }

    /** Folds a latency into the average of the first node with that endpoint;
        `false` is the abort of an overflowing product. */
    method RecordSuccess(endpoint: string, latencyMs: u64) returns (ok: bool)
      modifies this`nodes
      ensures var before, i := old(nodes), Find(old(nodes), endpoint);
              if i == |before| then ok && nodes == before
              else if before[i].avgLatencyMs * 9 + latencyMs > MAX_U64 then !ok && nodes == before
              else ok && nodes == before[i := before[i].(totalRequests := before[i].totalRequests + 1,
                                                         avgLatencyMs := Average(before[i].avgLatencyMs, latencyMs))]
    {
      var i := 0;
      while i < |nodes| && nodes[i].endpoint != endpoint
        invariant 0 <= i <= |nodes|
        invariant forall j :: 0 <= j < i ==> nodes[j].endpoint != endpoint
      {
        i := i + 1;
      }
      FindIs(nodes, endpoint, i);
      if i == |nodes| {
        return true;
      }
      var node := nodes[i].(totalRequests := nodes[i].totalRequests + 1);
      var current := node.avgLatencyMs;
      if current * 9 + latencyMs > MAX_U64 {
        return false;
      }
      nodes := nodes[i := node.(avgLatencyMs := (current * 9 + latencyMs) / 10)];
      return true;
    }

    /** Only live nodes are chosen, as the strategy says, and somebody is chosen
        whenever anybody is alive (arithmetic aborts aside). */
    method SelectNode(random: u32) returns (r: Selection)
      modifies this`roundRobinCounter
      ensures r == NoNodes <==> forall n :: n in nodes ==> !n.alive
      ensures r.Selected? ==> exists k :: Selects(nodes, k, r) && Suits(strategy, nodes, k)
      ensures strategy == RoundRobin && r != NoNodes ==> r == RoundRobinPick(Alive(nodes), old(roundRobinCounter))
      ensures strategy == WeightedRoundRobin && r != NoNodes ==>
                var pick := WeightedPick(Weights(Alive(nodes)), random);
                if pick.None? then r == Abort else r.Selected? && r.index == pick.value
      ensures r == Abort ==> strategy == WeightedRoundRobin
      ensures roundRobinCounter == if strategy == RoundRobin && r != NoNodes
                                   then NextCounter(old(roundRobinCounter)) else old(roundRobinCounter)
    {
      hide WeightedPick, SumOf, LiveConnections, Alive;
      var alive := Alive(nodes);
      if alive == [] {
        return NoNodes;
      }
      assert alive[0] in alive;
      var index: nat;
      match strategy {
        case RoundRobin =>
          index := roundRobinCounter % |alive|;
          roundRobinCounter := NextCounter(roundRobinCounter);
        case LeastConnections =>
          index := FirstLeast(Keys(alive, ByConnections));
        case LatencyBased =>
          index := FirstLeast(Keys(alive, ByLatency));
        case WeightedRoundRobin =>
          var pick := WeightedTicket(Weights(alive), random);
          if pick.None? {
            return Abort;
          }
          index := pick.value;
        case Adaptive =>
          LiveConnectionsAddUp(nodes);
          if SumOf(Keys(alive, ByConnections)) / |alive| > 100 {
            index := FirstLeast(Keys(alive, ByConnections));
          } else {
            index := FirstLeast(Keys(alive, ByLatency));
          }
      }
      r := Selected(index, alive[index].endpoint);
      ghost var measure := match strategy {
        case LeastConnections => Some(ByConnections)
        case LatencyBased => Some(ByLatency)
        case Adaptive => Some(if LiveConnections(nodes) / |alive| > 100 then ByConnections else ByLatency)
        case _ => None
      };
      assert measure.Some? ==> IsFirstLeast(Keys(alive, measure.value), index);
      SelectedIsLive(nodes, index, measure);
      ghost var k :| Selects(nodes, k, r) && (measure.Some? ==> LeastLive(nodes, k, measure.value));
      assert Suits(strategy, nodes, k);
    }

    /** The subtracting loop of the weighted strategy. */
    method WeightedTicket(weights: seq<u32>, random: u32) returns (picked: Option<nat>)
      requires weights != []
      ensures picked == WeightedPick(weights, random)
      ensures picked.Some? ==> picked.value < |weights|
    {
      var total := SumOf(weights);
      if total > MAX_U32 {
        return None;
      }
      if total == 0 {
        return Some(0);
      }
      var pick := AsI32(random % total);
      var i := 0;
      while i < |weights|
        invariant 0 <= i <= |weights|
        invariant Walk(weights, pick, i) == WeightedPick(weights, random)
      {
        pick := pick - AsI32(weights[i]);
        if pick < -(MAX_I32 as int) - 1 || pick > MAX_I32 {
          return None;
        }
        if pick <= 0 {
          return Some(i);
        }
        i := i + 1;
      }
      return Some(0);
    }
  }
}
