/** Choosing a node by region, load and latency (sns-daemon/src/geo_router.rs). */
module GeoRouter {
  import opened Common

  datatype Region = AsiaSouth | AsiaEast | EuropeWest | USEast | USWest | SouthAmerica | Africa | MiddleEast

  datatype GeoNode = GeoNode(
    peerId: string, endpoint: string, region: Region, latencyMs: nat, loadPercent: nat, alive: bool)

  const SAME_REGION_LOAD: nat := 80
  const ADJACENT_LOAD: nat := 90

  function NearestRegions(r: Region): seq<Region> {
    match r
    case AsiaSouth => [AsiaEast, MiddleEast, EuropeWest]
    case AsiaEast => [AsiaSouth, USWest, EuropeWest]
    case EuropeWest => [USEast, MiddleEast, AsiaSouth]
    case USEast => [EuropeWest, USWest, SouthAmerica]
    case USWest => [AsiaEast, USEast, AsiaSouth]
    case SouthAmerica => [USEast, EuropeWest, Africa]
    case Africa => [EuropeWest, MiddleEast, SouthAmerica]
    case MiddleEast => [EuropeWest, AsiaSouth, Africa]
  }

  /** Lower is better: the client's own region, its neighbours in order, any other live node. */
  function Tier(n: GeoNode, client: Region): nat {
    var near := NearestRegions(client);
    if n.region == client && n.loadPercent < SAME_REGION_LOAD then 0
    else if n.region == near[0] && n.loadPercent < ADJACENT_LOAD then 1
    else if n.region == near[1] && n.loadPercent < ADJACENT_LOAD then 2
    else if n.region == near[2] && n.loadPercent < ADJACENT_LOAD then 3
    else 4
  }

  /** Tier first, then latency. */
  predicate NoWorse(a: GeoNode, b: GeoNode, client: Region) {
    Tier(a, client) < Tier(b, client) || (Tier(a, client) == Tier(b, client) && a.latencyMs <= b.latencyMs)
  }

  class GeoRouter {
    var nodes: map<string, GeoNode>

    ghost predicate Valid()
      reads this
    {
      forall k :: k in nodes ==> nodes[k].peerId == k
    }

    constructor ()
      ensures Valid() && nodes == map[]
    {
      nodes := map[];
    }

    method RegisterNode(node: GeoNode)
      requires Valid()
      modifies this
      ensures Valid() && nodes == old(nodes)[node.peerId := node]
    {
      nodes := nodes[node.peerId := node];
    }

    method UpdateNodeHealth(peerId: string, latencyMs: nat, loadPercent: nat, alive: bool)
      requires Valid()
      modifies this
      ensures Valid() && nodes.Keys == old(nodes).Keys
      ensures forall k :: k in nodes ==>
                nodes[k] == if k == peerId
                            then old(nodes)[k].(latencyMs := latencyMs, loadPercent := loadPercent, alive := alive)
                            else old(nodes)[k]
    {
      if peerId in nodes {
        var node := nodes[peerId];
        nodes := nodes[peerId := node.(latencyMs := latencyMs, loadPercent := loadPercent, alive := alive)];
      }
    }

    /** The fastest of the nodes that pass the filter; the map is read in any order. */
    method Fastest(keep: GeoNode -> bool) returns (best: Option<GeoNode>)
      ensures best.None? <==> forall k :: k in nodes ==> !keep(nodes[k])
      ensures best.Some? ==>
                && (exists k :: k in nodes && nodes[k] == best.value) && keep(best.value)
                && forall k :: k in nodes && keep(nodes[k]) ==> best.value.latencyMs <= nodes[k].latencyMs
    {
      best := None;
      var rest := nodes.Keys;
      while rest != {}
        invariant rest <= nodes.Keys
        invariant best.None? ==> forall k :: k in nodes && k !in rest ==> !keep(nodes[k])
        invariant best.Some? ==>
                    && (exists k :: k in nodes && nodes[k] == best.value) && keep(best.value)
                    && forall k :: k in nodes && k !in rest && keep(nodes[k]) ==> best.value.latencyMs <= nodes[k].latencyMs
        decreases rest
      {
        var k :| k in rest;
        if keep(nodes[k]) && (best.None? || nodes[k].latencyMs < best.value.latencyMs) {
          best := Some(nodes[k]);
        }
        rest := rest - {k};
      }
    }

    /** The staged search is one minimisation: there is an answer exactly when a
        node is alive, and no live node is better in (tier, latency), whatever
        order the map is read in. */
    method FindBestNode(client: Region) returns (best: Option<GeoNode>)
      ensures best.None? <==> forall k :: k in nodes ==> !nodes[k].alive
      ensures best.Some? ==>
                && (exists k :: k in nodes && nodes[k] == best.value) && best.value.alive
                && forall k :: k in nodes && nodes[k].alive ==> NoWorse(best.value, nodes[k], client)
    {
      hide Tier, NearestRegions;
      forall n: GeoNode {
        StageMeans(n, client);
      }
      var local := (n: GeoNode) => n.region == client && n.alive && n.loadPercent < SAME_REGION_LOAD;
      best := Fastest(local);
      if best.Some? {
        return;
      }
      forall k | k in nodes && nodes[k].alive ensures Tier(nodes[k], client) > 0 {
        assert !local(nodes[k]);
      }
      var near := NearestRegions(client);
      NeighboursDiffer(client);
      var i := 0;
      while i < |near|
        invariant 0 <= i <= |near| == 3
        invariant forall k :: k in nodes && nodes[k].alive ==> Tier(nodes[k], client) > i
      {
        var adjacent := near[i];
        best := Fastest((n: GeoNode) => n.region == adjacent && n.alive && n.loadPercent < ADJACENT_LOAD);
        if best.Some? {
          assert Tier(best.value, client) == i + 1;
          return;
        }
        i := i + 1;
      }
      best := Fastest((n: GeoNode) => n.alive);
    }
  }

  /** No region is its own neighbour, and its three neighbours are different ones. */
  lemma NeighboursDiffer(r: Region)
    ensures var near := NearestRegions(r);
            |near| == 3 && r !in near && near[0] != near[1] && near[1] != near[2] && near[0] != near[2]
  {
  }

  /** Each tier is one stage's filter: no node passes two of them. */
  lemma TierMeans(n: GeoNode, client: Region)
    ensures var near := NearestRegions(client);
            && |near| == 3
            && (Tier(n, client) == 0 <==> n.region == client && n.loadPercent < 80)
            && (Tier(n, client) == 1 <==> n.region == near[0] && n.loadPercent < 90)
            && (Tier(n, client) == 2 <==> n.region == near[1] && n.loadPercent < 90)
            && (Tier(n, client) == 3 <==> n.region == near[2] && n.loadPercent < 90)
            && Tier(n, client) <= 4
  {
    NeighboursDiffer(client);
  }

  lemma StageMeans(n: GeoNode, client: Region)
    ensures var near := NearestRegions(client);
            && |near| == 3 && Tier(n, client) <= 4
            && (Tier(n, client) == 0 <==> n.region == client && n.loadPercent < SAME_REGION_LOAD)
            && forall i :: 0 <= i < 3 ==>
                 (Tier(n, client) == i + 1 <==> n.region == near[i] && n.loadPercent < ADJACENT_LOAD)
  {
    TierMeans(n, client);
  }

  /** Clients of which regions try which region first, second and third. */
  lemma TriedBy(client: Region, region: Region)
    ensures var near := NearestRegions(client);
            && (near[0] == region <==>
                  match region
                  case AsiaSouth => client == AsiaEast
                  case AsiaEast => client in {AsiaSouth, USWest}
                  case EuropeWest => client in {USEast, Africa, MiddleEast}
                  case USEast => client in {EuropeWest, SouthAmerica}
                  case _ => false)
            && (near[1] == region <==>
                  match region
                  case MiddleEast => client in {AsiaSouth, EuropeWest, Africa}
                  case USWest => client in {AsiaEast, USEast}
                  case USEast => client == USWest
                  case EuropeWest => client == SouthAmerica
                  case AsiaSouth => client == MiddleEast
                  case _ => false)
            && (near[2] == region <==>
                  match region
                  case EuropeWest => client in {AsiaSouth, AsiaEast}
                  case AsiaSouth => client in {EuropeWest, USWest}
                  case SouthAmerica => client in {USEast, Africa}
                  case Africa => client in {SouthAmerica, MiddleEast}
                  case _ => false)
  {
  }
}
