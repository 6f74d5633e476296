/**
 * Concrete instances: the basic test of graphtest.cpp replayed on a `Graph`,
 * the listings it asserts, and the three-vertex chain on which `bfs` as
 * written stops one step short.
 */
module Scenarios {
  import opened Ordering
  import opened Format
  import opened Adjacency
  import opened Listing
  import opened Reach
  import opened Graphs

  /**
   * `testGraphBasic`: five vertices, a refused second `add`, three accepted and
   * two refused `connect`s, the size and degree queries, the sorted listing,
   * a refused and an accepted `disconnect`, and the listing once the middle
   * edge is gone.
   */
  method BasicScenario() returns (adds: seq<bool>, connects: seq<bool>, counts: seq<int>, known: seq<bool>,
                                  listed: string, disconnects: seq<bool>, countsAfter: seq<int>, listedAfter: string)
    ensures adds == [true, true, true, true, true, false]
    ensures connects == [true, false, false]
    ensures counts == [5, 3, 3, 0, -1]
    ensures known == [false, true]
    ensures listed == "b(10),c(20),d(40)"
    ensures disconnects == [false, true]
    ensures countsAfter == [3, 2, 2]
    ensures listedAfter == "b(10),d(40)"
  {
    var g;
    g, adds := AddFive();
    connects := ConnectThree(g);
    counts, known := Queries(g);
    listed := g.EdgesAsString("a");
    ListingBCD();
    disconnects, countsAfter := DisconnectTwo(g);
    listedAfter := g.EdgesAsString("a");
    ListingBD();
  }

  /** The five labels of the basic test, none connected yet. */
  function Five(): Vertices
  {
    map["a" := [], "b" := [], "c" := [], "d" := [], "e" := []]
  }

  method AddFive() returns (g: Graph, adds: seq<bool>)
    ensures fresh(g) && g.Valid() && g.isDirectional
    ensures g.vertices == Five() && g.edges == []
    ensures adds == [true, true, true, true, true, false]
  {
    g := new Graph();
    var a := AddFresh(g, "a");
    var b := AddFresh(g, "b");
    var c := AddFresh(g, "c");
    var d := AddFresh(g, "d");
    var e := AddFresh(g, "e");
    var again := g.Add("b");
    adds := [a, b, c, d, e, again];
  }

  /** `add` of a new label to a graph without edges. */
  method AddFresh(g: Graph, name: string) returns (ok: bool)
    requires g.Valid() && g.edges == [] && name !in g.vertices
    modifies g
    ensures ok && g.Valid() && g.edges == []
    ensures g.vertices == old(g.vertices)[name := []]
  {
    ok := g.Add(name);
  }

  method ConnectThree(g: Graph) returns (connects: seq<bool>)
    requires g.Valid() && g.isDirectional
    requires g.vertices == Five() && g.edges == []
    modifies g
    ensures g.Valid()
    ensures g.edges == [Edge("a", "b", 10), Edge("a", "d", 40), Edge("a", "c", 20)]
    ensures g.vertices == Five()["a" := [Neighbour("b", 10), Neighbour("d", 40), Neighbour("c", 20)]]
    ensures connects == [true, false, false]
  {
    var ab := ConnectAB(g);
    var again, self := RefuseTwo(g);
    connects := [ab, again, self];
    ConnectDC(g);
  }

  /** `connect("a", "b", 10)` on the five unconnected labels. */
  method ConnectAB(g: Graph) returns (ok: bool)
    requires g.Valid() && g.isDirectional
    requires g.vertices == Five() && g.edges == []
    modifies g
    ensures ok && g.Valid()
    ensures g.edges == [Edge("a", "b", 10)]
    ensures g.vertices == Five()["a" := [Neighbour("b", 10)]]
  {
    ok := ConnectNew(g, "a", "b", 10);
    assert [] + [Neighbour("b", 10)] == [Neighbour("b", 10)];
  }

  /** The duplicate `connect("a", "b", 50)` and the self-loop `connect("a", "a", 1)` are refused. */
  method RefuseTwo(g: Graph) returns (again: bool, self: bool)
    requires g.Valid() && g.isDirectional
    requires g.edges == [Edge("a", "b", 10)]
    modifies g
    ensures !again && !self && g.Valid()
    ensures g.edges == old(g.edges) && g.vertices == old(g.vertices)
  {
    assert HasEdge(g.edges, "a", "b") by {
      assert g.edges[0] == Edge("a", "b", 10);
    }
    again := ConnectRefused(g, "a", "b", 50);
    self := ConnectRefused(g, "a", "a", 1);
  }

  /** `connect("a", "d", 40)` and then `connect("a", "c", 20)`, both accepted. */
  method ConnectDC(g: Graph)
    requires g.Valid() && g.isDirectional
    requires g.edges == [Edge("a", "b", 10)]
    requires g.vertices == Five()["a" := [Neighbour("b", 10)]]
    modifies g
    ensures g.Valid()
    ensures g.edges == [Edge("a", "b", 10), Edge("a", "d", 40), Edge("a", "c", 20)]
    ensures g.vertices == Five()["a" := [Neighbour("b", 10), Neighbour("d", 40), Neighbour("c", 20)]]
  {
    ConnectAD(g);
    Relinked(Five(), "a", [Neighbour("b", 10)], [Neighbour("b", 10), Neighbour("d", 40)]);
    ConnectAC(g);
    Relinked(Five(), "a", [Neighbour("b", 10), Neighbour("d", 40)],
             [Neighbour("b", 10), Neighbour("d", 40), Neighbour("c", 20)]);
  }

  /** A second update of the same label replaces the first. */
  lemma Relinked(vs: Vertices, v: string, first: seq<Neighbour>, second: seq<Neighbour>)
    ensures vs[v := first][v := second] == vs[v := second]
  {
  }

  method ConnectAD(g: Graph)
    requires g.Valid() && g.isDirectional
    requires g.edges == [Edge("a", "b", 10)]
    requires g.vertices == Five()["a" := [Neighbour("b", 10)]]
    modifies g
    ensures g.Valid()
    ensures g.edges == [Edge("a", "b", 10), Edge("a", "d", 40)]
    ensures g.vertices == old(g.vertices)["a" := [Neighbour("b", 10), Neighbour("d", 40)]]
  {
    NoEdgeTo(g.edges, "a", "d");
    var ok := ConnectNew(g, "a", "d", 40);
    assert [Neighbour("b", 10)] + [Neighbour("d", 40)] == [Neighbour("b", 10), Neighbour("d", 40)];
  }

  method ConnectAC(g: Graph)
    requires g.Valid() && g.isDirectional
    requires g.edges == [Edge("a", "b", 10), Edge("a", "d", 40)]
    requires g.vertices == Five()["a" := [Neighbour("b", 10), Neighbour("d", 40)]]
    modifies g
    ensures g.Valid()
    ensures g.edges == [Edge("a", "b", 10), Edge("a", "d", 40), Edge("a", "c", 20)]
    ensures g.vertices == old(g.vertices)["a" := [Neighbour("b", 10), Neighbour("d", 40), Neighbour("c", 20)]]
  {
    NoEdgeTo(g.edges, "a", "c");
    var ok := ConnectNew(g, "a", "c", 20);
    assert [Neighbour("b", 10), Neighbour("d", 40)] + [Neighbour("c", 20)]
        == [Neighbour("b", 10), Neighbour("d", 40), Neighbour("c", 20)];
  }

  /** No record ends at `to`, so none runs from `from` to `to`. */
  lemma NoEdgeTo(es: seq<Edge>, from: string, to: string)
    requires forall i :: 0 <= i < |es| ==> es[i].to != to
    ensures !HasEdge(es, from, to)
  {
  }

  /** An accepted `connect` between two known labels of a directed graph. */
  method ConnectNew(g: Graph, from: string, to: string, w: int) returns (ok: bool)
    requires g.Valid() && g.isDirectional
    requires from in g.vertices && to in g.vertices
    requires from != to && !HasEdge(g.edges, from, to)
    modifies g
    ensures ok && g.Valid()
    ensures g.edges == old(g.edges) + [Edge(from, to, w)]
    ensures g.vertices == old(g.vertices)[from := old(g.vertices)[from] + [Neighbour(to, w)]]
  {
    LinkedKnown(g.vertices, from, to, w);
    ok := g.Connect(from, to, w);
  }

  /** A `connect` that the graph refuses leaves it as it was. */
  method ConnectRefused(g: Graph, from: string, to: string, w: int) returns (ok: bool)
    requires g.Valid() && g.isDirectional
    requires from == to || HasEdge(g.edges, from, to)
    modifies g
    ensures !ok && g.Valid()
    ensures g.edges == old(g.edges) && g.vertices == old(g.vertices)
  {
    ok := g.Connect(from, to, w);
  }

  /** The size and degree queries and the two `contains` checks after the three connects. */
  method Queries(g: Graph) returns (counts: seq<int>, known: seq<bool>)
    requires g.Valid() && g.isDirectional
    requires g.edges == [Edge("a", "b", 10), Edge("a", "d", 40), Edge("a", "c", 20)]
    requires g.vertices == Five()["a" := [Neighbour("b", 10), Neighbour("d", 40), Neighbour("c", 20)]]
    ensures counts == [5, 3, 3, 0, -1]
    ensures known == [false, true]
  {
    var n := CountFive(g);
    assert "xxx" !in g.vertices;
    counts := [n, g.EdgesSize(), g.VertexDegree("a"), g.VertexDegree("c"), g.VertexDegree("xxx")];
    known := [g.Contains("xxx"), g.Contains("a")];
  }

  /** `verticesSize` once `a` to `e` are known: five. */
  method CountFive(g: Graph) returns (n: int)
    requires g.vertices.Keys == Five().Keys
    ensures n == 5
  {
    n := g.VerticesSize();
    assert g.vertices.Keys == {"a", "b", "c", "d", "e"};
  }

  /** The refused `disconnect("a", "e")` and the accepted `disconnect("a", "c")`, with the counts around them. */
  method DisconnectTwo(g: Graph) returns (disconnects: seq<bool>, countsAfter: seq<int>)
    requires g.Valid() && g.isDirectional
    requires g.edges == [Edge("a", "b", 10), Edge("a", "d", 40), Edge("a", "c", 20)]
    requires g.vertices == Five()["a" := [Neighbour("b", 10), Neighbour("d", 40), Neighbour("c", 20)]]
    modifies g
    ensures g.Valid()
    ensures g.vertices == Five()["a" := [Neighbour("b", 10), Neighbour("d", 40)]]
    ensures disconnects == [false, true]
    ensures countsAfter == [3, 2, 2]
  {
    NoEdgeTo(g.edges, "a", "e");
    var ae := g.Disconnect("a", "e");
    var before := g.EdgesSize();
    var ac := DisconnectAC(g);
    Relinked(Five(), "a", [Neighbour("b", 10), Neighbour("d", 40), Neighbour("c", 20)],
             [Neighbour("b", 10), Neighbour("d", 40)]);
    disconnects := [ae, ac];
    countsAfter := [before, g.EdgesSize(), g.VertexDegree("a")];
  }

  /** `disconnect("a", "c")` takes the last record and the last entry of `a`. */
  method DisconnectAC(g: Graph) returns (ok: bool)
    requires g.Valid() && g.isDirectional
    requires g.edges == [Edge("a", "b", 10), Edge("a", "d", 40), Edge("a", "c", 20)]
    requires g.vertices == Five()["a" := [Neighbour("b", 10), Neighbour("d", 40), Neighbour("c", 20)]]
    modifies g
    ensures ok && g.Valid()
    ensures g.edges == [Edge("a", "b", 10), Edge("a", "d", 40)]
    ensures g.vertices == old(g.vertices)["a" := [Neighbour("b", 10), Neighbour("d", 40)]]
  {
    RemovingC();
    ok := DisconnectPresent(g, "a", "c");
  }

  /** The values `disconnect("a", "c")` works on: the record is there, and is the last one. */
  lemma RemovingC()
    ensures HasEdge([Edge("a", "b", 10), Edge("a", "d", 40), Edge("a", "c", 20)], "a", "c")
    ensures RemoveEdge([Edge("a", "b", 10), Edge("a", "d", 40), Edge("a", "c", 20)], "a", "c")
         == [Edge("a", "b", 10), Edge("a", "d", 40)]
    ensures RemoveNeighbour([Neighbour("b", 10), Neighbour("d", 40), Neighbour("c", 20)], "c")
         == [Neighbour("b", 10), Neighbour("d", 40)]
  {
    var es := [Edge("a", "b", 10), Edge("a", "d", 40), Edge("a", "c", 20)];
    var ns := [Neighbour("b", 10), Neighbour("d", 40), Neighbour("c", 20)];
    assert es[2] == Edge("a", "c", 20);
    RemoveEdgeAt(es, "a", "c", 2);
    RemoveNeighbourAt(ns, "c", 2);
    assert es[..2] + es[3..] == [Edge("a", "b", 10), Edge("a", "d", 40)];
    assert ns[..2] + ns[3..] == [Neighbour("b", 10), Neighbour("d", 40)];
  }

  /** An accepted `disconnect` on a directed graph. */
  method DisconnectPresent(g: Graph, from: string, to: string) returns (ok: bool)
    requires g.Valid() && g.isDirectional
    requires from != to && HasEdge(g.edges, from, to)
    modifies g
    ensures ok && g.Valid()
    ensures g.edges == RemoveEdge(old(g.edges), from, to)
    ensures g.vertices == old(g.vertices)[from := RemoveNeighbour(old(g.vertices)[from], to)]
  {
    EdgeInAdjacency(g.vertices, g.edges, from, to);
    ok := g.Disconnect(from, to);
  }

  /** Linking two known labels only appends to the source's adjacency. */
  lemma LinkedKnown(vs: Vertices, from: string, to: string, w: int)
    requires from in vs && to in vs
    ensures Linked(vs, from, to, w) == vs[from := vs[from] + [Neighbour(to, w)]]
  {
  }

  /**
   * graphtest.cpp:54: after `connect`s to `b`, `d` and `c`, in that order,
   * the listing of `a` is sorted by label.
   */
  lemma ListingBCD()
    ensures ListingOf([Neighbour("b", 10), Neighbour("d", 40), Neighbour("c", 20)]) == "b(10),c(20),d(40)"
  {
    var ns := [Neighbour("b", 10), Neighbour("d", 40), Neighbour("c", 20)];
    assert Targets(ns) == {"b", "c", "d"} by {
      assert ns[0].target == "b" && ns[1].target == "d" && ns[2].target == "c";
    }
    assert Increasing(["b", "c", "d"]) by {
      assert Less("b", "c") && Less("c", "d") && Less("b", "d");
    }
    ListingIs(ns, ["b", "c", "d"], map["b" := 10, "c" := 20, "d" := 40]);
    JoinedBCD();
  }

  lemma JoinedBCD()
    ensures JoinComma(Entries(["b", "c", "d"], map["b" := 10, "c" := 20, "d" := 40])) == "b(10),c(20),d(40)"
  {
    EntriesBCD();
    JoinThree("b(10)", "c(20)", "d(40)");
    SpelledBCD();
  }

  /** The three entries spelled out, commas between them. */
  lemma SpelledBCD()
    ensures "b(10)" + "," + "c(20)" + "," + "d(40)" == "b(10),c(20),d(40)"
  {
  }

  lemma EntriesBCD()
    ensures Entries(["b", "c", "d"], map["b" := 10, "c" := 20, "d" := 40]) == ["b(10)", "c(20)", "d(40)"]
  {
    var r := Entries(["b", "c", "d"], map["b" := 10, "c" := 20, "d" := 40]);
    EntryB10();
    EntryC20();
    EntryD40();
    assert r[0] == Entry("b", 10) && r[1] == Entry("c", 20) && r[2] == Entry("d", 40);
  }

  lemma EntryB10()
    ensures Entry("b", 10) == "b(10)"
  {
    assert Digits(1) == "1";
    assert Digits(10) == Digits(1) + [DigitChar(0)];
  }

  lemma EntryC20()
    ensures Entry("c", 20) == "c(20)"
  {
    assert Digits(2) == "2";
    assert Digits(20) == Digits(2) + [DigitChar(0)];
  }

  lemma EntryD40()
    ensures Entry("d", 40) == "d(40)"
  {
    assert Digits(4) == "4";
    assert Digits(40) == Digits(4) + [DigitChar(0)];
  }

  lemma JoinThree(x: string, y: string, z: string)
    ensures JoinComma([x, y, z]) == x + "," + y + "," + z
  {
    assert [x, y, z][1..] == [y, z];
    assert [y, z][1..] == [z];
    assert JoinComma([y, z]) == y + "," + z;
    assert JoinComma([x, y, z]) == x + "," + (y + "," + z);
  }

  /** graphtest.cpp:61: the listing once the middle edge, to `c`, is gone. */
  lemma ListingBD()
    ensures ListingOf([Neighbour("b", 10), Neighbour("d", 40)]) == "b(10),d(40)"
  {
    var ns := [Neighbour("b", 10), Neighbour("d", 40)];
    assert Targets(ns) == {"b", "d"} by {
      assert ns[0].target == "b" && ns[1].target == "d";
    }
    assert Increasing(["b", "d"]) by {
      assert Less("b", "d");
    }
    ListingIs(ns, ["b", "d"], map["b" := 10, "d" := 40]);
    JoinedBD();
  }

  lemma JoinedBD()
    ensures JoinComma(Entries(["b", "d"], map["b" := 10, "d" := 40])) == "b(10),d(40)"
  {
    EntriesBD();
    assert ["b(10)", "d(40)"][1..] == ["d(40)"];
    assert "b(10)" + "," + "d(40)" == "b(10),d(40)";
  }

  lemma EntriesBD()
    ensures Entries(["b", "d"], map["b" := 10, "d" := 40]) == ["b(10)", "d(40)"]
  {
    var r := Entries(["b", "d"], map["b" := 10, "d" := 40]);
    EntryB10();
    EntryD40();
    assert r[0] == Entry("b", 10) && r[1] == Entry("d", 40);
  }

  /** The chain `a -> b -> c`. */
  function Chain(): Vertices
  {
    map["a" := [Neighbour("b", 1)], "b" := [Neighbour("c", 1)], "c" := []]
  }

  /**
   * On the chain, from `a` with nothing marked, `c` is reachable but is
   * neither `a` nor a neighbour of `a`: `Graph.Bfs`, which marks exactly
   * those, misses it, while `Graph.BfsCorrected` marks it.
   */
  lemma BfsStopsShort()
    ensures ReachableAvoiding(Chain(), {}, "a", "c")
    ensures "c" !in {"a"} + Targets(Chain()["a"])
  {
    var vs: Vertices := Chain();
    assert vs["a"][0].target == "b" && vs["b"][0].target == "c";
    TwoSteps(vs, {}, "a", "b", "c");
    assert Targets(vs["a"]) == {"b"};
  }

  /** On the chain, exactly `a`, `b` and `c` are reachable from `a`. */
  lemma ChainReach()
    ensures forall v :: ReachableAvoiding(Chain(), {}, "a", v) <==> v in {"a", "b", "c"}
  {
    var vs: Vertices := Chain();
    assert vs["a"][0].target == "b" && vs["b"][0].target == "c";
    ReachSelf(vs, {}, "a");
    OneStep(vs, {}, "a", "b");
    TwoSteps(vs, {}, "a", "b", "c");
    forall v | ReachableAvoiding(vs, {}, "a", v) ensures v in {"a", "b", "c"} {
      var p :| Walk(vs, p) && p[0] == "a" && p[|p| - 1] == v && Avoids(p, {});
      WalkInChain(p, |p| - 1);
    }
  }

  lemma {:induction false} WalkInChain(p: seq<string>, k: nat)
    requires Walk(Chain(), p) && p[0] == "a" && k < |p|
    ensures p[k] in {"a", "b", "c"}
    decreases k
  {
    if k > 0 {
      WalkInChain(p, k - 1);
      assert p[k] in Targets(Chain()[p[k - 1]]);
    }
  }
}
