/**
  The delivery window's state and its three operations: load a map, load
  packages, calculate the route cost. Input files arrive already split into
  tokens: the declared counts, the name tokens and edge triples that follow
  them, and the package records; a list shorter than declared is a file
  that ends early.
 */
module DeliveryEngine {
  import opened Wrappers
  import opened DeliveryTypes
  import opened Graph
  import opened Routing

  class Session {
    /** The map, node 0 being the depot. */
    var nodes: seq<MapNode>
    /** Every package loaded so far, in load order. */
    var packages: seq<Package>
    /** The car profile, fixed for the whole session. */
    const car: DeliveryCar := DefaultCar

    constructor ()
      ensures nodes == [] && packages == []
    {
      nodes := [];
      packages := [];
    }

    /**
      Reads a map: rejects non-positive counts before touching anything;
      otherwise resizes the node vector, writes the names in order, then
      inserts each edge whose endpoints are in range. A file that ends
      early stops the load where it is, with what was written kept.
     */
    method LoadMap(n: int, m: int, names: seq<string>, edges: seq<EdgeRecord>) returns (outcome: MapLoad)
      modifies this
      ensures (nodes, outcome) == MapAfterLoad(old(nodes), n, m, names, edges)
      ensures packages == old(packages)
    {
      if n <= 0 || m <= 0 {
        return BadCounts;
      }
      nodes := Resized(nodes, n);
      var complete := ReadNames(names);
      if !complete {
        return MissingNames(|names|);
      }
      outcome := ReadEdges(m, edges);
    }

    /**
      The name loop of a map load: node `i` takes the `i`-th name token,
      until every node is named or the tokens run out.
     */
    method ReadNames(names: seq<string>) returns (complete: bool)
      modifies this
      ensures complete <==> |names| >= |old(nodes)|
      ensures nodes == Renamed(old(nodes), names, if complete then |old(nodes)| else |names|)
      ensures packages == old(packages)
    {
      var i := 0;
      while i < |nodes|
        invariant 0 <= i <= |old(nodes)| && i <= |names|
        invariant nodes == Renamed(old(nodes), names, i)
        invariant packages == old(packages)
      {
        if i >= |names| {
          return false;
        }
        nodes := nodes[i := nodes[i].(name := names[i])];
        i := i + 1;
      }
      return true;
    }

    /**
      The edge loop of a map load: each of the first `m` edge lines whose
      endpoints are in range is written into both endpoints; the load stops
      when the lines run out.
     */
    method ReadEdges(m: int, edges: seq<EdgeRecord>) returns (outcome: MapLoad)
      requires m > 0
      modifies this
      ensures outcome == if |edges| < m then MissingEdges(|edges|) else Loaded
      ensures nodes == InsertEdges(old(nodes), if |edges| < m then edges else edges[..m])
      ensures packages == old(packages)
    {
      var j := 0;
      while j < m
        invariant 0 <= j <= m && j <= |edges|
        invariant nodes == InsertEdges(old(nodes), edges[..j])
        invariant packages == old(packages)
      {
        if j >= |edges| {
          assert edges[..j] == edges;
          return MissingEdges(j);
        }
        InsertEdgesPrefix(old(nodes), edges, j);
        nodes := WriteEdge(nodes, edges[j]);
        j := j + 1;
      }
      return Loaded;
    }

    /** Appends the package records in the order read; nothing already loaded moves. */
    method LoadPackages(records: seq<Package>)
      modifies this
      ensures packages == old(packages) + records
      ensures nodes == old(nodes)
    {
      var i := 0;
      while i < |records|
        invariant 0 <= i <= |records|
        invariant packages == old(packages) + records[..i]
        invariant nodes == old(nodes)
      {
        packages := packages + [records[i]];
        i := i + 1;
      }
    }

    /**
      Groups the packages by destination, then for each destination with
      a direct edge from the depot adds the group's cost and counts its
      late packages. No map or no packages gives no result.
     */
    method Calculate() returns (r: Option<Evaluation>)
      ensures r.None? <==> nodes == [] || packages == []
      ensures r.Some? ==> (nodes != [] &&
        r.value == Evaluation(TotalCost(nodes[0], car, packages), LateCount(nodes[0], car, packages)))
    {
      if nodes == [] || packages == [] {
        return None;
      }
      var totalCost := 0.0;
      var latePackages := 0;
      var groups := GroupByDestination(packages);
      var depot := nodes[0];
      var remaining := groups.Keys;
      while remaining != {}
        invariant remaining <= groups.Keys
        invariant totalCost == CostOver(depot, car, packages, groups.Keys - remaining)
        invariant latePackages == LateOver(depot, car, packages, groups.Keys - remaining)
        decreases remaining
      {
        var dest :| dest in remaining;
        var cost, late := GroupTotals(depot, car, dest, groups[dest]);
        ghost var done := groups.Keys - remaining;
        assert groups.Keys - (remaining - {dest}) == done + {dest};
        TallyStep(depot, car, packages, done, dest);
        totalCost := totalCost + cost;
        latePackages := latePackages + late;
        remaining := remaining - {dest};
      }
      assert groups.Keys - remaining == Destinations(packages);
      LateOverAll(depot, car, packages);
      return Some(Evaluation(totalCost, latePackages));
    }
  }

  /**
    One edge line of a map load: when both 1-based endpoints name a node,
    each endpoint records the distance under the other's name, the first
    endpoint first; otherwise the line is skipped.
   */
  method WriteEdge(nodes: seq<MapNode>, e: EdgeRecord) returns (written: seq<MapNode>)
    ensures written == InsertEdge(nodes, e)
  {
    written := nodes;
    var n := |written|;
    var u, v := e.u - 1, e.v - 1;
    if u < 0 || u >= n || v < 0 || v >= n {
      return;
    }
    written := written[u := written[u].(edges := written[u].edges[written[v].name := e.w])];
    written := written[v := written[v].(edges := written[v].edges[written[u].name := e.w])];
  }

  /** Adding one more destination to the done set adds its cost and its late packages. */
  lemma TallyStep(depot: MapNode, car: DeliveryCar, ps: seq<Package>, done: set<string>, d: string)
    requires car.speed > 0.0
    requires d !in done
    ensures CostOver(depot, car, ps, done + {d}) == CostOver(depot, car, ps, done) + DestCost(depot, car, ps, d)
    ensures LateOver(depot, car, ps, done + {d}) == LateOver(depot, car, ps, done) + LateCount(depot, car, Filter(ps, d))
  {
    CostOverSplit(depot, car, ps, done + {d}, d);
    LateOverSplit(depot, car, ps, done + {d}, d);
    assert done + {d} - {d} == done;
  }

  /** Collects each destination's packages, in load order, under its exact name. */
  method GroupByDestination(packages: seq<Package>) returns (groups: map<string, seq<Package>>)
    ensures groups.Keys == Destinations(packages)
    ensures forall d :: d in groups ==> groups[d] == Filter(packages, d)
  {
    groups := map[];
    for i := 0 to |packages|
      invariant Grouped(groups, packages[..i])
    {
      var pkg := packages[i];
      assert packages[..i + 1] == packages[..i] + [pkg];
      ghost var before := groups;
      var group := if pkg.destination in groups then groups[pkg.destination] else [];
      groups := groups[pkg.destination := group + [pkg]];
      GroupStep(before, packages[..i], pkg);
    }
    assert packages[..|packages|] == packages;
  }

  /** `groups` holds exactly the destinations of `ps`, each with its packages in order. */
  ghost predicate Grouped(groups: map<string, seq<Package>>, ps: seq<Package>)
  {
    && groups.Keys == Destinations(ps)
    && forall d :: d in groups ==> groups[d] == Filter(ps, d)
  }

  /** Appending one package to its destination's group keeps the grouping exact. */
  lemma GroupStep(groups: map<string, seq<Package>>, ps: seq<Package>, p: Package)
    requires Grouped(groups, ps)
    ensures Grouped(groups[p.destination :=
      (if p.destination in groups then groups[p.destination] else []) + [p]], ps + [p])
  {
    var pd := p.destination;
    var after := groups[pd := (if pd in groups then groups[pd] else []) + [p]];
    assert after.Keys == Destinations(ps + [p]) by {
      FilterSnoc(ps, p, pd);
    }
    forall d | d in after
      ensures after[d] == Filter(ps + [p], d)
    {
      GroupEntryStep(groups, ps, p, d);
    }
  }

  /** One entry of the grouping step: the package joins its own group only. */
  lemma GroupEntryStep(groups: map<string, seq<Package>>, ps: seq<Package>, p: Package, d: string)
    requires Grouped(groups, ps)
    requires d in groups || d == p.destination
    ensures groups[p.destination := (if p.destination in groups then groups[p.destination] else []) + [p]][d]
      == Filter(ps + [p], d)
  {
    FilterSnoc(ps, p, d);
    if d == p.destination && d !in groups {
      FilterOutside(ps, d);
    }
  }

  /**
    One destination's share: the group's cost and late packages when the
    depot has a direct edge of positive length to it, nothing otherwise.
   */
  method GroupTotals(depot: MapNode, car: DeliveryCar, dest: string, pkgs: seq<Package>)
    returns (cost: real, late: nat)
    requires car.speed > 0.0
    requires forall p :: p in pkgs ==> p.destination == dest
    ensures cost == GroupCost(depot, car, dest, pkgs)
    ensures late == LateCount(depot, car, pkgs)
  {
    var totalWeight := GroupWeight(pkgs);
    var distance := if dest in depot.edges then depot.edges[dest] else 0.0;
    if distance > 0.0 {
      cost := distance * (car.weight + totalWeight);
      late := CountLate(depot, car, dest, pkgs);
    } else {
      cost, late := 0.0, 0;
      LateZero(depot, car, pkgs);
    }
  }

  /** The weight loop: the group's total weight. */
  method GroupWeight(pkgs: seq<Package>) returns (totalWeight: real)
    ensures totalWeight == WeightSum(pkgs)
  {
    totalWeight := 0.0;
    for j := 0 to |pkgs|
      invariant totalWeight == WeightSum(pkgs[..j])
    {
      assert pkgs[..j + 1][..j] == pkgs[..j];
      totalWeight := totalWeight + pkgs[j].weight;
    }
    assert pkgs[..|pkgs|] == pkgs;
  }

  /**
    The deadline loop for a group bound for a destination the depot reaches
    directly: a package is late when the trip outlasts its deadline.
   */
  method CountLate(depot: MapNode, car: DeliveryCar, dest: string, pkgs: seq<Package>) returns (late: nat)
    requires car.speed > 0.0
    requires Distance(depot, dest) > 0.0
    requires forall p :: p in pkgs ==> p.destination == dest
    ensures late == LateCount(depot, car, pkgs)
  {
    var travelTime := Distance(depot, dest) / car.speed;
    late := 0;
    for j := 0 to |pkgs|
      invariant late == LateCount(depot, car, pkgs[..j])
    {
      assert pkgs[j] in pkgs;
      assert pkgs[..j + 1][..j] == pkgs[..j];
      if travelTime > pkgs[j].deadline as real {
        late := late + 1;
      }
    }
    assert pkgs[..|pkgs|] == pkgs;
  }

  /**
    A whole session: map `A B` with one edge of length 10 between them, then
    one five-unit package for "B"; the trip costs 1050 and the package is
    late exactly when its deadline is under 10 (3 is late, 20 is not).
   */
  method Scenario(deadline: int) returns (r: Option<Evaluation>)
    ensures r == Some(Evaluation(1050.0, if deadline < 10 then 1 else 0))
  {
    var session := new Session();
    var outcome := session.LoadMap(2, 1, ["A", "B"], [EdgeRecord(1, 2, 10.0)]);
    session.LoadPackages([Package("P", 5.0, "B", 0, deadline)]);
    TwoNodeScenario();
    assert session.nodes[0] == MapNode("A", map["B" := 10.0]);
    assert session.packages == [Package("P", 5.0, "B", 0, deadline)];
    SingleDestinationScenario("P", 0, deadline);
    r := session.Calculate();
  }
}
