/**
  Loading the delivery map: the node vector is resized to the declared node
  count, the names are written in order, then every edge line whose 1-based
  endpoints are in range is written into both endpoints' adjacency maps,
  keyed by the other endpoint's name.

  The functions here say what a load leaves behind; the `Session.LoadMap`
  method is proved to leave exactly that.
 */
module Graph {
  import opened DeliveryTypes

  /** How a map load ended; the counts are those of the warnings the window shows. */
  datatype MapLoad =
    | Loaded
    | BadCounts
    | MissingNames(namesRead: nat)
    | MissingEdges(edgesRead: nat)

  /** Both 1-based endpoints name one of the first `n` nodes. */
  predicate InRange(e: EdgeRecord, n: int) {
    1 <= e.u <= n && 1 <= e.v <= n
  }

  /** The entry `(i, k)` is one that inserting `e` writes. */
  predicate Touches(nodes: seq<MapNode>, e: EdgeRecord, i: int, k: string) {
    InRange(e, |nodes|) &&
    ((i == e.u - 1 && k == nodes[e.v - 1].name) || (i == e.v - 1 && k == nodes[e.u - 1].name))
  }

  /** `QVector::resize`: surviving nodes are kept whole, new ones are blank. */
  function Resized(nodes: seq<MapNode>, n: nat): (r: seq<MapNode>)
    ensures |r| == n
    ensures forall i :: 0 <= i < n ==> r[i] == if i < |nodes| then nodes[i] else BlankNode
  {
    if n <= |nodes| then nodes[..n] else nodes + seq(n - |nodes|, _ => BlankNode)
  }

  /** The nodes after the first `k` names have been written. */
  function Renamed(nodes: seq<MapNode>, names: seq<string>, k: nat): (r: seq<MapNode>)
    requires k <= |nodes| && k <= |names|
    ensures |r| == |nodes|
    ensures forall i :: 0 <= i < |r| ==> r[i].edges == nodes[i].edges
    ensures forall i :: 0 <= i < |r| ==> r[i].name == if i < k then names[i] else nodes[i].name
  {
    seq(|nodes|, i requires 0 <= i < |nodes| =>
      if i < k then nodes[i].(name := names[i]) else nodes[i])
  }

  /** One edge line: an out-of-range edge changes nothing, and no name ever changes. */
  function InsertEdge(nodes: seq<MapNode>, e: EdgeRecord): (r: seq<MapNode>)
    ensures |r| == |nodes|
    ensures forall i :: 0 <= i < |r| ==> r[i].name == nodes[i].name
    ensures !InRange(e, |nodes|) ==> r == nodes
  {
    if InRange(e, |nodes|) then
      var u, v := e.u - 1, e.v - 1;
      var afterU := nodes[u := nodes[u].(edges := nodes[u].edges[nodes[v].name := e.w])];
      afterU[v := afterU[v].(edges := afterU[v].edges[afterU[u].name := e.w])]
    else
      nodes
  }

  /** Node `i`'s adjacency after an in-range edge, one node at a time. */
  function EdgesAfter(nodes: seq<MapNode>, e: EdgeRecord, i: int): map<string, real>
    requires InRange(e, |nodes|) && 0 <= i < |nodes|
  {
    Touch(nodes[i].edges, i == e.u - 1, i == e.v - 1, nodes[e.u - 1].name, nodes[e.v - 1].name, e.w)
  }

  /** One adjacency after an edge `u`–`v` of length `w`: set at `u` keyed by `nv`, then at `v` keyed by `nu`. */
  function Touch(m: map<string, real>, atU: bool, atV: bool, nu: string, nv: string, w: real): map<string, real>
  {
    var first := if atU then m[nv := w] else m;
    if atV then first[nu := w] else first
  }

  lemma TouchTwice(m: map<string, real>, atU: bool, atV: bool, nu: string, nv: string, w1: real, w2: real)
    ensures Touch(Touch(m, atU, atV, nu, nv, w1), atU, atV, nu, nv, w2) == Touch(m, atU, atV, nu, nv, w2)
  {
  }

  lemma TouchSwapped(m: map<string, real>, atU: bool, atV: bool, nu: string, nv: string, w: real)
    ensures Touch(m, atV, atU, nv, nu, w) == Touch(m, atU, atV, nu, nv, w)
  {
  }

  lemma InsertEdgeAt(nodes: seq<MapNode>, e: EdgeRecord, i: int)
    requires InRange(e, |nodes|) && 0 <= i < |nodes|
    ensures InsertEdge(nodes, e)[i] == MapNode(nodes[i].name, EdgesAfter(nodes, e, i))
  {
  }

  /**
    An in-range edge sets the distance in both endpoints, keyed by the other
    endpoint's name; every other entry of every node is left as it was, and
    no entry is removed.
   */
  lemma InsertEdgeEffect(nodes: seq<MapNode>, e: EdgeRecord)
    ensures var r := InsertEdge(nodes, e);
      InRange(e, |nodes|) ==>
        && nodes[e.v - 1].name in r[e.u - 1].edges
        && r[e.u - 1].edges[nodes[e.v - 1].name] == e.w
        && nodes[e.u - 1].name in r[e.v - 1].edges
        && r[e.v - 1].edges[nodes[e.u - 1].name] == e.w
    ensures var r := InsertEdge(nodes, e);
      forall i, k :: 0 <= i < |r| && !Touches(nodes, e, i, k) ==>
        (k in r[i].edges <==> k in nodes[i].edges) &&
        (k in r[i].edges ==> r[i].edges[k] == nodes[i].edges[k])
    ensures var r := InsertEdge(nodes, e);
      forall i, k :: 0 <= i < |r| && k in nodes[i].edges ==> k in r[i].edges
  {
    if InRange(e, |nodes|) {
      forall i | 0 <= i < |nodes| {
        InsertEdgeAt(nodes, e, i);
      }
    }
  }

  /** The edge lines `es`, inserted in order. */
  function InsertEdges(nodes: seq<MapNode>, es: seq<EdgeRecord>): (r: seq<MapNode>)
    ensures |r| == |nodes|
    ensures forall i :: 0 <= i < |r| ==> r[i].name == nodes[i].name
    ensures forall i, k :: 0 <= i < |r| && k in nodes[i].edges ==> k in r[i].edges
    decreases |es|
  {
    if es == [] then nodes
    else
      var prior := InsertEdges(nodes, es[..|es| - 1]);
      InsertEdgeEffect(prior, es[|es| - 1]);
      InsertEdge(prior, es[|es| - 1])
  }

  /** Inserting one more edge line extends the prefix inserted so far. */
  lemma InsertEdgesPrefix(nodes: seq<MapNode>, es: seq<EdgeRecord>, j: int)
    requires 0 <= j < |es|
    ensures InsertEdges(nodes, es[..j + 1]) == InsertEdge(InsertEdges(nodes, es[..j]), es[j])
  {
    assert es[..j + 1][..j] == es[..j];
  }

  /**
    The node vector and outcome a map load leaves, given the declared counts
    and the name and edge tokens the file holds. A load cut short returns
    what it has written so far: nothing is rolled back.
   */
  function MapAfterLoad(nodes: seq<MapNode>, n: int, m: int, names: seq<string>, edges: seq<EdgeRecord>)
    : (r: (seq<MapNode>, MapLoad))
    ensures r.1 == BadCounts <==> n <= 0 || m <= 0
    ensures r.1 == BadCounts ==> r.0 == nodes
    ensures n > 0 && m > 0 ==> |r.0| == n
    ensures r.1 == Loaded <==> n > 0 && m > 0 && |names| >= n && |edges| >= m
    ensures r.1.MissingNames? <==> n > 0 && m > 0 && |names| < n
    ensures r.1.MissingNames? ==> r.1.namesRead == |names|
    ensures r.1.MissingEdges? <==> n > 0 && m > 0 && |names| >= n && |edges| < m
    ensures r.1.MissingEdges? ==> r.1.edgesRead == |edges|
  {
    if n <= 0 || m <= 0 then (nodes, BadCounts)
    else
      var resized := Resized(nodes, n);
      if |names| < n then (Renamed(resized, names, |names|), MissingNames(|names|))
      else
        var named := Renamed(resized, names, n);
        if |edges| < m then (InsertEdges(named, edges), MissingEdges(|edges|))
        else (InsertEdges(named, edges[..m]), Loaded)
  }

  /** Every adjacency entry names another node by its name and the reverse entry holds the same distance. */
  ghost predicate Symmetric(nodes: seq<MapNode>) {
    forall i, j :: 0 <= i < |nodes| && 0 <= j < |nodes| && nodes[j].name in nodes[i].edges ==>
      nodes[i].name in nodes[j].edges && nodes[j].edges[nodes[i].name] == nodes[i].edges[nodes[j].name]
  }

  ghost predicate DistinctNames(nodes: seq<MapNode>) {
    forall i, j :: 0 <= i < j < |nodes| ==> nodes[i].name != nodes[j].name
  }

  /**
    With valid counts, node `i` carries the `i`-th name token, and a node the
    file gave no name keeps the name it had after the resize.
   */
  lemma LoadWritesNames(nodes: seq<MapNode>, n: int, m: int, names: seq<string>, edges: seq<EdgeRecord>)
    requires n > 0 && m > 0
    ensures var r := MapAfterLoad(nodes, n, m, names, edges).0;
      forall i :: 0 <= i < n ==>
        r[i].name == if i < |names| then names[i] else if i < |nodes| then nodes[i].name else ""
  {
  }

  /**
    A load with valid counts never removes an adjacency entry of a node that
    survives the resize, even one keyed by a name no node has any more.
   */
  lemma LoadKeepsSurvivingEdges(nodes: seq<MapNode>, n: int, m: int, names: seq<string>, edges: seq<EdgeRecord>)
    requires n > 0 && m > 0
    ensures var r := MapAfterLoad(nodes, n, m, names, edges).0;
      forall i, k :: 0 <= i < n && i < |nodes| && k in nodes[i].edges ==> k in r[i].edges
  {
  }

  /** Inserting two runs of edge lines is inserting the first run, then the second. */
  lemma {:induction false} InsertEdgesAppend(nodes: seq<MapNode>, xs: seq<EdgeRecord>, ys: seq<EdgeRecord>)
    ensures InsertEdges(nodes, xs + ys) == InsertEdges(InsertEdges(nodes, xs), ys)
    decreases |ys|
  {
    if ys == [] {
      assert xs + ys == xs;
    } else {
      var init := ys[..|ys| - 1];
      InsertEdgesAppend(nodes, xs, init);
      assert (xs + ys)[..|xs + ys| - 1] == xs + init;
      assert (xs + ys)[|xs + ys| - 1] == ys[|ys| - 1];
    }
  }

  /** An out-of-range edge line is skipped and the lines after it still take effect. */
  lemma SkipOutOfRangeEdge(nodes: seq<MapNode>, before: seq<EdgeRecord>, e: EdgeRecord, after: seq<EdgeRecord>)
    requires !InRange(e, |nodes|)
    ensures InsertEdges(nodes, before + [e] + after) == InsertEdges(nodes, before + after)
  {
    InsertEdgesAppend(nodes, before + [e], after);
    InsertEdgesAppend(nodes, before, after);
    assert (before + [e])[..|before + [e]| - 1] == before;
  }

  /** A second line for the same pair of endpoints overwrites the first line's distance. */
  lemma LaterEdgeOverwrites(nodes: seq<MapNode>, e1: EdgeRecord, e2: EdgeRecord)
    requires (e1.u == e2.u && e1.v == e2.v) || (e1.u == e2.v && e1.v == e2.u)
    ensures InsertEdge(InsertEdge(nodes, e1), e2) == InsertEdge(nodes, e2)
  {
    var a, b := InsertEdge(InsertEdge(nodes, e1), e2), InsertEdge(nodes, e2);
    forall i | 0 <= i < |nodes|
      ensures a[i] == b[i]
    {
      NodeOverwritten(nodes, e1, e2, i);
    }
  }

  lemma NodeOverwritten(nodes: seq<MapNode>, e1: EdgeRecord, e2: EdgeRecord, i: int)
    requires (e1.u == e2.u && e1.v == e2.v) || (e1.u == e2.v && e1.v == e2.u)
    requires 0 <= i < |nodes|
    ensures InsertEdge(InsertEdge(nodes, e1), e2)[i] == InsertEdge(nodes, e2)[i]
  {
    if InRange(e2, |nodes|) {
      var once := InsertEdge(nodes, e1);
      InsertEdgeAt(nodes, e1, i);
      InsertEdgeAt(once, e2, i);
      InsertEdgeAt(nodes, e2, i);
      var atU, atV := i == e2.u - 1, i == e2.v - 1;
      var nu, nv := nodes[e2.u - 1].name, nodes[e2.v - 1].name;
      assert once[e2.u - 1].name == nu && once[e2.v - 1].name == nv;
      if e1.u != e2.u || e1.v != e2.v {
        TouchSwapped(nodes[i].edges, atU, atV, nu, nv, e1.w);
      }
      TouchTwice(nodes[i].edges, atU, atV, nu, nv, e1.w, e2.w);
    }
  }

  /** With distinct names, inserting one edge keeps the graph symmetric. */
  lemma InsertEdgeKeepsSymmetric(nodes: seq<MapNode>, e: EdgeRecord)
    requires DistinctNames(nodes) && Symmetric(nodes)
    ensures Symmetric(InsertEdge(nodes, e))
  {
    var r := InsertEdge(nodes, e);
    InsertEdgeEffect(nodes, e);
    forall i, j | 0 <= i < |r| && 0 <= j < |r| && r[j].name in r[i].edges
      ensures r[i].name in r[j].edges && r[j].edges[r[i].name] == r[i].edges[r[j].name]
    {
      if Touches(nodes, e, i, r[j].name) {
        assert Touches(nodes, e, j, r[i].name);
      } else {
        assert !Touches(nodes, e, j, r[i].name);
      }
    }
  }

  /** With distinct names, inserting any edge lines keeps the graph symmetric. */
  lemma {:induction false} InsertEdgesKeepsSymmetric(nodes: seq<MapNode>, es: seq<EdgeRecord>)
    requires DistinctNames(nodes) && Symmetric(nodes)
    ensures Symmetric(InsertEdges(nodes, es))
    decreases |es|
  {
    if es != [] {
      var prior := InsertEdges(nodes, es[..|es| - 1]);
      InsertEdgesKeepsSymmetric(nodes, es[..|es| - 1]);
      assert DistinctNames(prior);
      InsertEdgeKeepsSymmetric(prior, es[|es| - 1]);
    }
  }

  /**
    A load into nodes that hold no adjacency yet (the first load of a
    session), with distinct names, leaves a symmetric graph, whether or not
    the file runs out before the declared number of names or edges.
   */
  lemma FreshLoadSymmetric(nodes: seq<MapNode>, n: int, m: int, names: seq<string>, edges: seq<EdgeRecord>)
    requires forall i :: 0 <= i < |nodes| ==> nodes[i].edges == map[]
    requires forall i, j :: 0 <= i < j < |names| && j < n ==> names[i] != names[j]
    ensures Symmetric(MapAfterLoad(nodes, n, m, names, edges).0)
  {
    if n > 0 && m > 0 {
      var resized := Resized(nodes, n);
      if |names| >= n {
        var named := Renamed(resized, names, n);
        assert DistinctNames(named);
        assert Symmetric(named);
        if |edges| < m {
          InsertEdgesKeepsSymmetric(named, edges);
        } else {
          InsertEdgesKeepsSymmetric(named, edges[..m]);
        }
      }
    }
  }

  /**
    Reloading does not replace the graph: a node that survives the resize
    keeps its distance to "B" although no node is called "B" any more.
   */
  lemma ReloadKeepsStaleEdges()
    ensures MapAfterLoad([MapNode("A", map["B" := 10.0]), MapNode("B", map["A" := 10.0])],
                         1, 1, ["X"], [EdgeRecord(1, 1, 5.0)])
         == ([MapNode("X", map["B" := 10.0, "X" := 5.0])], Loaded)
  {
    var named := Renamed(Resized([MapNode("A", map["B" := 10.0]), MapNode("B", map["A" := 10.0])], 1), ["X"], 1);
    assert named == [MapNode("X", map["B" := 10.0])];
    assert [EdgeRecord(1, 1, 5.0)][..1] == [EdgeRecord(1, 1, 5.0)];
    var e := EdgeRecord(1, 1, 5.0);
    assert InsertEdges(named, [e]) == InsertEdge(InsertEdges(named, []), e);
    assert InsertEdges(named, []) == named;
    var written := map["B" := 10.0]["X" := 5.0];
    assert written["X" := 5.0] == map["B" := 10.0, "X" := 5.0];
    assert InsertEdge(named, e) == [MapNode("X", map["B" := 10.0, "X" := 5.0])];
  }

  /** Two nodes "A" and "B" and one edge of length 10 between them, loaded into an empty session. */
  lemma TwoNodeScenario()
    ensures MapAfterLoad([], 2, 1, ["A", "B"], [EdgeRecord(1, 2, 10.0)])
         == ([MapNode("A", map["B" := 10.0]), MapNode("B", map["A" := 10.0])], Loaded)
  {
    var named := Renamed(Resized([], 2), ["A", "B"], 2);
    assert named == [MapNode("A", map[]), MapNode("B", map[])];
    var e := EdgeRecord(1, 2, 10.0);
    assert [e][..1] == [e];
    assert InsertEdges(named, [e]) == InsertEdge(InsertEdges(named, []), e);
    assert InsertEdges(named, []) == named;
    assert InsertEdge(named, e) == [MapNode("A", map["B" := 10.0]), MapNode("B", map["A" := 10.0])];
  }

  /** A file that ends after one of three names leaves three nodes, only the first named. */
  lemma TruncatedLoadKeepsPartialNodes()
    ensures MapAfterLoad([], 3, 1, ["A"], []) == ([MapNode("A", map[]), BlankNode, BlankNode], MissingNames(1))
  {
    var resized := Resized([], 3);
    assert resized == [BlankNode, BlankNode, BlankNode];
    var r := Renamed(resized, ["A"], 1);
    assert r[0] == MapNode("A", map[]) && r[1] == BlankNode && r[2] == BlankNode;
    assert r == [MapNode("A", map[]), BlankNode, BlankNode];
  }
}
