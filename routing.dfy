/**
  The route evaluation: packages are grouped by their exact destination
  string; a group whose destination has a direct edge of positive length
  from the depot (node 0) costs `distance * (car weight + group weight)`,
  and each of its packages is late when `distance / speed` exceeds its
  deadline. A destination with no direct edge costs nothing and makes no
  package late; no path through other nodes is ever searched.

  Sums over destinations are taken over the set of destinations in an
  arbitrary order, so each result is stated independently of the order in
  which the destinations are visited.
 */
module Routing {
  import opened DeliveryTypes

  /** The two numbers the calculation reports. */
  datatype Evaluation = Evaluation(totalCost: real, lateCount: nat)

  /** The depot's direct distance to `dest`, or 0 when there is no such edge. */
  function Distance(depot: MapNode, dest: string): real {
    if dest in depot.edges then depot.edges[dest] else 0.0
  }

  /** The distinct destination strings of the packages. */
  function Destinations(ps: seq<Package>): set<string> {
    set p | p in ps :: p.destination
  }

  /** The group of packages bound for `d`, in the order they were loaded. */
  function Filter(ps: seq<Package>, d: string): (r: seq<Package>)
    ensures |r| <= |ps|
    ensures forall p :: p in r <==> p in ps && p.destination == d
    decreases |ps|
  {
    if ps == [] then []
    else
      var init, last := ps[..|ps| - 1], ps[|ps| - 1];
      assert ps == init + [last];
      Filter(init, d) + (if last.destination == d then [last] else [])
  }

  /** The total weight of the packages. */
  function WeightSum(ps: seq<Package>): real
    decreases |ps|
  {
    if ps == [] then 0.0 else WeightSum(ps[..|ps| - 1]) + ps[|ps| - 1].weight
  }

  /** A package is late when its destination has a direct edge and the trip outlasts its deadline. */
  predicate IsLate(depot: MapNode, car: DeliveryCar, p: Package)
    requires car.speed > 0.0
  {
    var distance := Distance(depot, p.destination);
    distance > 0.0 && distance / car.speed > p.deadline as real
  }

  /** The number of late packages. */
  function LateCount(depot: MapNode, car: DeliveryCar, ps: seq<Package>): (r: nat)
    requires car.speed > 0.0
    ensures r <= |ps|
    decreases |ps|
  {
    if ps == [] then 0
    else LateCount(depot, car, ps[..|ps| - 1]) + (if IsLate(depot, car, ps[|ps| - 1]) then 1 else 0)
  }

  /** What a group of packages bound for `d` adds to the total cost. */
  function GroupCost(depot: MapNode, car: DeliveryCar, d: string, group: seq<Package>): real {
    var distance := Distance(depot, d);
    if distance > 0.0 then distance * (car.weight + WeightSum(group)) else 0.0
  }

  /** What the group bound for `d` adds to the total cost. */
  function DestCost(depot: MapNode, car: DeliveryCar, ps: seq<Package>, d: string): real {
    GroupCost(depot, car, d, Filter(ps, d))
  }

  /** Some element of a non-empty set of destinations; the sums below peel it off. */
  ghost function PickDest(s: set<string>): (d: string)
    requires s != {}
    ensures d in s
  {
    var d :| d in s; d
  }

  /** The cost of the groups bound for the destinations in `s`. */
  ghost function CostOver(depot: MapNode, car: DeliveryCar, ps: seq<Package>, s: set<string>): real
    decreases s
  {
    if s == {} then 0.0
    else
      var d := PickDest(s);
      DestCost(depot, car, ps, d) + CostOver(depot, car, ps, s - {d})
  }

  /** The number of late packages in the groups bound for the destinations in `s`. */
  ghost function LateOver(depot: MapNode, car: DeliveryCar, ps: seq<Package>, s: set<string>): nat
    requires car.speed > 0.0
    decreases s
  {
    if s == {} then 0
    else
      var d := PickDest(s);
      LateCount(depot, car, Filter(ps, d)) + LateOver(depot, car, ps, s - {d})
  }

  /** The total transport cost: the sum of the group costs over all destinations. */
  ghost function TotalCost(depot: MapNode, car: DeliveryCar, ps: seq<Package>): real {
    CostOver(depot, car, ps, Destinations(ps))
  }

  /** Any destination can be taken out of the cost sum first. */
  lemma {:induction false} CostOverSplit(depot: MapNode, car: DeliveryCar, ps: seq<Package>, s: set<string>, x: string)
    requires x in s
    ensures CostOver(depot, car, ps, s) == DestCost(depot, car, ps, x) + CostOver(depot, car, ps, s - {x})
    decreases |s|
  {
    var y := PickDest(s);
    if y != x {
      CostOverSplit(depot, car, ps, s - {y}, x);
      CostOverSplit(depot, car, ps, s - {x}, y);
      assert s - {y} - {x} == s - {x} - {y};
    }
  }

  /** Any destination can be taken out of the lateness sum first. */
  lemma {:induction false} LateOverSplit(depot: MapNode, car: DeliveryCar, ps: seq<Package>, s: set<string>, x: string)
    requires car.speed > 0.0
    requires x in s
    ensures LateOver(depot, car, ps, s) == LateCount(depot, car, Filter(ps, x)) + LateOver(depot, car, ps, s - {x})
    decreases |s|
  {
    var y := PickDest(s);
    if y != x {
      LateOverSplit(depot, car, ps, s - {y}, x);
      LateOverSplit(depot, car, ps, s - {x}, y);
      assert s - {y} - {x} == s - {x} - {y};
    }
  }

  /** Cost sums over two package lists agree when every group they sum costs the same. */
  lemma {:induction false} CostOverCongruent(depot: MapNode, car: DeliveryCar, a: seq<Package>, b: seq<Package>, s: set<string>)
    requires forall d :: d in s ==> DestCost(depot, car, a, d) == DestCost(depot, car, b, d)
    ensures CostOver(depot, car, a, s) == CostOver(depot, car, b, s)
    decreases s
  {
    if s != {} {
      CostOverCongruent(depot, car, a, b, s - {PickDest(s)});
    }
  }

  /** Lateness sums over two package lists agree when every group they sum has the same late count. */
  lemma {:induction false} LateOverCongruent(depot: MapNode, car: DeliveryCar, a: seq<Package>, b: seq<Package>, s: set<string>)
    requires car.speed > 0.0
    requires forall d :: d in s ==> LateCount(depot, car, Filter(a, d)) == LateCount(depot, car, Filter(b, d))
    ensures LateOver(depot, car, a, s) == LateOver(depot, car, b, s)
    decreases s
  {
    if s != {} {
      LateOverCongruent(depot, car, a, b, s - {PickDest(s)});
    }
  }

  /** One more package joins exactly its own destination's group, at the end. */
  lemma FilterSnoc(ps: seq<Package>, p: Package, d: string)
    ensures Filter(ps + [p], d) == Filter(ps, d) + (if p.destination == d then [p] else [])
    ensures Destinations(ps + [p]) == Destinations(ps) + {p.destination}
  {
    assert (ps + [p])[..|ps + [p]| - 1] == ps;
    forall x ensures x in Destinations(ps + [p]) <==> x in Destinations(ps) + {p.destination} {
      if x in Destinations(ps + [p]) {
        var q :| q in ps + [p] && q.destination == x;
        if q != p { assert q in ps; }
      }
    }
  }

  /** A destination no package is bound for has an empty group. */
  lemma FilterOutside(ps: seq<Package>, d: string)
    requires d !in Destinations(ps)
    ensures Filter(ps, d) == []
  {
  }

  /** Appending a package leaves every other destination's group, and so its late count, as it was. */
  lemma OtherGroupsUnchanged(depot: MapNode, car: DeliveryCar, init: seq<Package>, p: Package, s: set<string>)
    requires car.speed > 0.0
    requires p.destination !in s
    ensures LateOver(depot, car, init + [p], s) == LateOver(depot, car, init, s)
  {
    forall d | d in s
      ensures LateCount(depot, car, Filter(init + [p], d)) == LateCount(depot, car, Filter(init, d))
    {
      FilterSnoc(init, p, d);
      assert Filter(init + [p], d) == Filter(init, d) + [];
      assert Filter(init, d) + [] == Filter(init, d);
    }
    LateOverCongruent(depot, car, init + [p], init, s);
  }

  /** Appending a package adds its own lateness to its own group. */
  lemma OwnGroupGrows(depot: MapNode, car: DeliveryCar, init: seq<Package>, p: Package)
    requires car.speed > 0.0
    ensures LateCount(depot, car, Filter(init + [p], p.destination))
         == LateCount(depot, car, Filter(init, p.destination)) + (if IsLate(depot, car, p) then 1 else 0)
  {
    FilterSnoc(init, p, p.destination);
    var group := Filter(init, p.destination);
    assert (group + [p])[..|group + [p]| - 1] == group;
  }

  /** Appending a package adds its own lateness, and only to its own group. */
  lemma LateOverSnoc(depot: MapNode, car: DeliveryCar, init: seq<Package>, p: Package)
    requires car.speed > 0.0
    ensures LateOver(depot, car, init + [p], Destinations(init + [p]))
         == LateOver(depot, car, init, Destinations(init)) + (if IsLate(depot, car, p) then 1 else 0)
  {
    var ps, pd := init + [p], p.destination;
    var dests, prior := Destinations(ps), Destinations(init);
    FilterSnoc(init, p, pd);
    assert dests == prior + {pd};
    LateOverSplit(depot, car, ps, dests, pd);
    OtherGroupsUnchanged(depot, car, init, p, dests - {pd});
    OwnGroupGrows(depot, car, init, p);
    if pd in prior {
      LateOverSplit(depot, car, init, prior, pd);
      assert dests - {pd} == prior - {pd};
    } else {
      FilterOutside(init, pd);
      assert dests - {pd} == prior;
    }
  }

  /**
    Every package falls in exactly one group: counting the late packages
    group by group, over all destinations, counts each late package once.
   */
  lemma {:induction false} LateOverAll(depot: MapNode, car: DeliveryCar, ps: seq<Package>)
    requires car.speed > 0.0
    ensures LateOver(depot, car, ps, Destinations(ps)) == LateCount(depot, car, ps)
    decreases |ps|
  {
    if ps == [] {
      assert Destinations(ps) == {};
    } else {
      var init, p := ps[..|ps| - 1], ps[|ps| - 1];
      assert ps == init + [p];
      LateOverAll(depot, car, init);
      LateOverSnoc(depot, car, init, p);
    }
  }

  /** How often a package occurs in its group is how often it occurs in the whole list. */
  lemma {:induction false} FilterMultiset(ps: seq<Package>, d: string, p: Package)
    ensures multiset(Filter(ps, d))[p] == if p.destination == d then multiset(ps)[p] else 0
    decreases |ps|
  {
    if ps != [] {
      var init, last := ps[..|ps| - 1], ps[|ps| - 1];
      assert ps == init + [last];
      FilterMultiset(init, d, p);
    }
  }

  lemma {:induction false} WeightSumConcat(s: seq<Package>, t: seq<Package>)
    ensures WeightSum(s + t) == WeightSum(s) + WeightSum(t)
    decreases |t|
  {
    if t == [] {
      assert s + t == s;
    } else {
      WeightSumConcat(s, t[..|t| - 1]);
      assert (s + t)[..|s + t| - 1] == s + t[..|t| - 1];
    }
  }

  lemma {:induction false} LateCountConcat(depot: MapNode, car: DeliveryCar, s: seq<Package>, t: seq<Package>)
    requires car.speed > 0.0
    ensures LateCount(depot, car, s + t) == LateCount(depot, car, s) + LateCount(depot, car, t)
    decreases |t|
  {
    if t == [] {
      assert s + t == s;
    } else {
      LateCountConcat(depot, car, s, t[..|t| - 1]);
      assert (s + t)[..|s + t| - 1] == s + t[..|t| - 1];
    }
  }

  /** Taking the last package from one list and any equal package from a permutation of it leaves permutations. */
  lemma MultisetRemove(a: seq<Package>, b: seq<Package>, k: int)
    requires multiset(a) == multiset(b)
    requires a != [] && 0 <= k < |b| && b[k] == a[|a| - 1]
    ensures multiset(a[..|a| - 1]) == multiset(b[..k] + b[k + 1..])
  {
    var x := a[|a| - 1];
    var restA, restB := a[..|a| - 1], b[..k] + b[k + 1..];
    assert a == restA + [x];
    assert b == b[..k] + [x] + b[k + 1..];
    var ma, mb := multiset(restA), multiset(restB);
    assert multiset(a) == ma + multiset{x};
    assert multiset(b) == mb + multiset{x};
    assert ma == multiset(a) - multiset{x};
    assert mb == multiset(b) - multiset{x};
  }

  /** Taking one package out of a list takes its weight out of the total. */
  lemma WeightSumRemove(b: seq<Package>, k: int)
    requires 0 <= k < |b|
    ensures WeightSum(b) == WeightSum(b[..k] + b[k + 1..]) + b[k].weight
  {
    assert WeightSum(b) == WeightSum(b[..k + 1]) + WeightSum(b[k + 1..]) by {
      assert b[..k + 1] + b[k + 1..] == b;
      WeightSumConcat(b[..k + 1], b[k + 1..]);
    }
    assert WeightSum(b[..k + 1]) == WeightSum(b[..k]) + b[k].weight by {
      assert b[..k + 1][..k] == b[..k];
    }
    assert WeightSum(b[..k] + b[k + 1..]) == WeightSum(b[..k]) + WeightSum(b[k + 1..]) by {
      WeightSumConcat(b[..k], b[k + 1..]);
    }
  }

  /** Taking one package out of a list takes its lateness out of the count. */
  lemma LateCountRemove(depot: MapNode, car: DeliveryCar, b: seq<Package>, k: int)
    requires car.speed > 0.0
    requires 0 <= k < |b|
    ensures LateCount(depot, car, b)
         == LateCount(depot, car, b[..k] + b[k + 1..]) + (if IsLate(depot, car, b[k]) then 1 else 0)
  {
    assert b[..k + 1] + b[k + 1..] == b;
    LateCountConcat(depot, car, b[..k + 1], b[k + 1..]);
    assert b[..k + 1][..k] == b[..k];
    LateCountConcat(depot, car, b[..k], b[k + 1..]);
  }

  /** Reordering packages does not change their total weight. */
  lemma {:induction false} WeightSumPermutation(a: seq<Package>, b: seq<Package>)
    requires multiset(a) == multiset(b)
    ensures WeightSum(a) == WeightSum(b)
    decreases |a|
  {
    if a == [] {
      assert |multiset(b)| == 0;
    } else {
      var x := a[|a| - 1];
      assert x in multiset(b) by {
        assert x in multiset(a);
      }
      var k :| 0 <= k < |b| && b[k] == x;
      MultisetRemove(a, b, k);
      WeightSumPermutation(a[..|a| - 1], b[..k] + b[k + 1..]);
      WeightSumRemove(b, k);
    }
  }

  /** Reordering packages does not change how many are late. */
  lemma {:induction false} LateCountPermutation(depot: MapNode, car: DeliveryCar, a: seq<Package>, b: seq<Package>)
    requires car.speed > 0.0
    requires multiset(a) == multiset(b)
    ensures LateCount(depot, car, a) == LateCount(depot, car, b)
    decreases |a|
  {
    if a == [] {
      assert |multiset(b)| == 0;
    } else {
      var x := a[|a| - 1];
      assert x in multiset(b) by {
        assert x in multiset(a);
      }
      var k :| 0 <= k < |b| && b[k] == x;
      MultisetRemove(a, b, k);
      LateCountPermutation(depot, car, a[..|a| - 1], b[..k] + b[k + 1..]);
      LateCountRemove(depot, car, b, k);
    }
  }

  /**
    Over exact reals, the evaluation does not depend on the order in which
    the packages were loaded: any permutation gives the same cost and the
    same number of late packages.
   */
  lemma OrderIndependent(depot: MapNode, car: DeliveryCar, a: seq<Package>, b: seq<Package>)
    requires car.speed > 0.0
    requires multiset(a) == multiset(b)
    ensures TotalCost(depot, car, a) == TotalCost(depot, car, b)
    ensures LateCount(depot, car, a) == LateCount(depot, car, b)
  {
    DestinationsPermutation(a, b);
    forall d | d in Destinations(a)
      ensures DestCost(depot, car, a, d) == DestCost(depot, car, b, d)
    {
      DestCostPermutation(depot, car, a, b, d);
    }
    CostOverCongruent(depot, car, a, b, Destinations(a));
    LateCountPermutation(depot, car, a, b);
  }

  /** Reordering packages does not change what any destination's group costs. */
  lemma DestCostPermutation(depot: MapNode, car: DeliveryCar, a: seq<Package>, b: seq<Package>, d: string)
    requires multiset(a) == multiset(b)
    ensures DestCost(depot, car, a, d) == DestCost(depot, car, b, d)
  {
    var ga, gb := Filter(a, d), Filter(b, d);
    assert WeightSum(ga) == WeightSum(gb) by {
      GroupPermutation(a, b, d);
    }
  }

  lemma DestinationsPermutation(a: seq<Package>, b: seq<Package>)
    requires multiset(a) == multiset(b)
    ensures Destinations(a) == Destinations(b)
  {
    forall p ensures p in a <==> p in b {
      assert p in a <==> p in multiset(a);
      assert p in b <==> p in multiset(b);
    }
  }

  /** Reordering packages reorders each group and keeps its weight. */
  lemma GroupPermutation(a: seq<Package>, b: seq<Package>, d: string)
    requires multiset(a) == multiset(b)
    ensures multiset(Filter(a, d)) == multiset(Filter(b, d))
    ensures WeightSum(Filter(a, d)) == WeightSum(Filter(b, d))
  {
    forall p ensures multiset(Filter(a, d))[p] == multiset(Filter(b, d))[p] {
      FilterMultiset(a, d, p);
      FilterMultiset(b, d, p);
    }
    assert multiset(Filter(a, d)) == multiset(Filter(b, d));
    WeightSumPermutation(Filter(a, d), Filter(b, d));
  }

  /** Packages whose destinations have no direct edge from the depot add neither cost nor lateness. */
  lemma {:induction false} NoDirectEdgeNoCost(depot: MapNode, car: DeliveryCar, ps: seq<Package>)
    requires car.speed > 0.0
    requires forall p :: p in ps ==> Distance(depot, p.destination) <= 0.0
    ensures TotalCost(depot, car, ps) == 0.0
    ensures LateCount(depot, car, ps) == 0
  {
    CostZero(depot, car, ps, Destinations(ps));
    LateZero(depot, car, ps);
  }

  /**
    Packages bound for destinations without a positive direct edge, added to
    any package list, change neither its total cost nor its late count: their
    groups contribute nothing, and a group they join costs nothing already.
   */
  lemma NoDirectEdgeAddsNothing(depot: MapNode, car: DeliveryCar, ps: seq<Package>, qs: seq<Package>)
    requires car.speed > 0.0
    requires forall q :: q in qs ==> Distance(depot, q.destination) <= 0.0
    ensures TotalCost(depot, car, ps + qs) == TotalCost(depot, car, ps)
    ensures LateCount(depot, car, ps + qs) == LateCount(depot, car, ps)
  {
    var old_, added := Destinations(ps), Destinations(qs) - Destinations(ps);
    assert Destinations(ps + qs) == old_ + added by {
      DestinationsConcat(ps, qs);
    }
    forall d | d in added
      ensures DestCost(depot, car, ps + qs, d) == 0.0
    {
      var q :| q in qs && q.destination == d;
    }
    CostOverDropZeros(depot, car, ps + qs, old_, added);
    forall d | d in old_
      ensures DestCost(depot, car, ps + qs, d) == DestCost(depot, car, ps, d)
    {
      UnreachableJoinsNothing(depot, car, ps, qs, d);
    }
    CostOverCongruent(depot, car, ps + qs, ps, old_);
    LateCountConcat(depot, car, ps, qs);
    LateZero(depot, car, qs);
  }

  /** Packages bound elsewhere leave a destination's group as it was. */
  lemma {:induction false} FilterSkips(ps: seq<Package>, qs: seq<Package>, d: string)
    requires forall q :: q in qs ==> q.destination != d
    ensures Filter(ps + qs, d) == Filter(ps, d)
    decreases |qs|
  {
    if qs == [] {
      assert ps + qs == ps;
    } else {
      var init, last := qs[..|qs| - 1], qs[|qs| - 1];
      assert last in qs;
      assert forall q :: q in init ==> q in qs;
      FilterSkips(ps, init, d);
      assert Filter(ps + qs, d) == Filter(ps + init, d) + [] by {
        assert (ps + qs)[..|ps + qs| - 1] == ps + init;
        assert (ps + qs)[|ps + qs| - 1] == last;
      }
      assert Filter(ps + init, d) + [] == Filter(ps + init, d);
    }
  }

  lemma DestinationsConcat(ps: seq<Package>, qs: seq<Package>)
    ensures Destinations(ps + qs) == Destinations(ps) + Destinations(qs)
  {
    forall x | x in Destinations(ps + qs) ensures x in Destinations(ps) + Destinations(qs) {
      var p :| p in ps + qs && p.destination == x;
    }
  }

  /** One destination's cost is the same with or without the unreachable packages. */
  lemma UnreachableJoinsNothing(depot: MapNode, car: DeliveryCar, ps: seq<Package>, qs: seq<Package>, d: string)
    requires forall q :: q in qs ==> Distance(depot, q.destination) <= 0.0
    ensures DestCost(depot, car, ps + qs, d) == DestCost(depot, car, ps, d)
  {
    if d in Destinations(qs) {
      var q :| q in qs && q.destination == d;
    } else {
      FilterSkips(ps, qs, d);
    }
  }

  /** Destinations whose groups cost nothing can be left out of a cost sum. */
  lemma {:induction false} CostOverDropZeros(depot: MapNode, car: DeliveryCar, ps: seq<Package>, s: set<string>, z: set<string>)
    requires s !! z
    requires forall d :: d in z ==> DestCost(depot, car, ps, d) == 0.0
    ensures CostOver(depot, car, ps, s + z) == CostOver(depot, car, ps, s)
    decreases z
  {
    if z != {} {
      var x := PickDest(z);
      CostOverSplit(depot, car, ps, s + z, x);
      assert (s + z) - {x} == s + (z - {x});
      CostOverDropZeros(depot, car, ps, s, z - {x});
    } else {
      assert s + z == s;
    }
  }

  lemma {:induction false} CostZero(depot: MapNode, car: DeliveryCar, ps: seq<Package>, s: set<string>)
    requires s <= Destinations(ps)
    requires forall p :: p in ps ==> Distance(depot, p.destination) <= 0.0
    ensures CostOver(depot, car, ps, s) == 0.0
    decreases s
  {
    if s != {} {
      var d := PickDest(s);
      var p :| p in ps && p.destination == d;
      CostZero(depot, car, ps, s - {d});
    }
  }

  lemma {:induction false} LateZero(depot: MapNode, car: DeliveryCar, ps: seq<Package>)
    requires car.speed > 0.0
    requires forall p :: p in ps ==> Distance(depot, p.destination) <= 0.0
    ensures LateCount(depot, car, ps) == 0
    decreases |ps|
  {
    if ps != [] {
      assert ps[|ps| - 1] in ps;
      LateZero(depot, car, ps[..|ps| - 1]);
    }
  }

  /**
    Depot "A" ten units from "B" and one five-unit package for "B": the
    cost is 10 * (100 + 5) and the package is late exactly when its
    deadline is under the ten-unit trip.
   */
  lemma SingleDestinationScenario(id: string, arrival: int, deadline: int)
    ensures var depot, p := MapNode("A", map["B" := 10.0]), Package(id, 5.0, "B", arrival, deadline);
      && TotalCost(depot, DefaultCar, [p]) == 1050.0
      && LateCount(depot, DefaultCar, [p]) == if deadline < 10 then 1 else 0
  {
    var depot, p := MapNode("A", map["B" := 10.0]), Package(id, 5.0, "B", arrival, deadline);
    assert Distance(depot, "B") == 10.0;
    assert TotalCost(depot, DefaultCar, [p]) == 1050.0 by {
      SingleGroup(depot, DefaultCar, p);
    }
    assert LateCount(depot, DefaultCar, [p]) == if IsLate(depot, DefaultCar, p) then 1 else 0 by {
      assert [p][..0] == [];
    }
    assert IsLate(depot, DefaultCar, p) <==> deadline < 10;
  }

  /** The cost of a single package is its own group's cost. */
  lemma SingleGroup(depot: MapNode, car: DeliveryCar, p: Package)
    ensures Distance(depot, p.destination) > 0.0 ==>
      TotalCost(depot, car, [p]) == Distance(depot, p.destination) * (car.weight + p.weight)
  {
    assert Destinations([p]) == {p.destination};
    assert [p][..0] == [];
    assert Filter([p], p.destination) == [p];
    assert WeightSum([p]) == p.weight;
    CostOverSplit(depot, car, [p], {p.destination}, p.destination);
  }
}
