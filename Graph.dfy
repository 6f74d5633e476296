/**
 * `class Graph` (graph.h, graph.cpp): a vertex map keyed by label, a list of
 * edge records, a directed/undirected flag fixed by the constructor, and the
 * `visited` marks that `dfs` and `bfs` leave behind.
 */
module Graphs {
  import opened Ordering
  import opened Format
  import opened Adjacency
  import opened Listing
  import opened Reach

  /** The index of the first record from `from` to `to`, or -1: the search of graph.cpp:137-142. */
  method IndexOfEdge(es: seq<Edge>, from: string, to: string) returns (i: int)
    ensures -1 <= i < |es|
    ensures i == -1 <==> !HasEdge(es, from, to)
    ensures 0 <= i ==> es[i].from == from && es[i].to == to
    ensures 0 <= i ==> forall j :: 0 <= j < i ==> !(es[j].from == from && es[j].to == to)
  {
    i := 0;
    while i < |es|
      invariant 0 <= i <= |es|
      invariant forall j :: 0 <= j < i ==> !(es[j].from == from && es[j].to == to)
    {
      if es[i].from == from && es[i].to == to {
        return;
      }
      i := i + 1;
    }
    i := -1;
  }

  /** The index of the first adjacency entry naming `name`, or -1: the search of graph.cpp:143-150. */
  method IndexOfNeighbour(ns: seq<Neighbour>, name: string) returns (i: int)
    ensures -1 <= i < |ns|
    ensures i == -1 <==> forall k :: 0 <= k < |ns| ==> ns[k].target != name
    ensures 0 <= i ==> ns[i].target == name && forall j :: 0 <= j < i ==> ns[j].target != name
  {
    i := 0;
    while i < |ns|
      invariant 0 <= i <= |ns|
      invariant forall j :: 0 <= j < i ==> ns[j].target != name
    {
      if ns[i].target == name {
        return;
      }
      i := i + 1;
    }
    i := -1;
  }

  /**
   * The first loop of `getEdgesAsString` (graph.cpp:91-94): each adjacency
   * entry, in order, stores its rendered text under its label, so a later
   * entry for the same label replaces an earlier one.
   */
  method EntryTable(ns: seq<Neighbour>) returns (z: map<string, string>)
    ensures z == EntryTexts(Weights(ns))
  {
    z := map[];
    for i := 0 to |ns|
      invariant z == EntryTexts(Weights(ns[..i]))
    {
      EntryTextsStep(ns, i);
      z := z[ns[i].target := Entry(ns[i].target, ns[i].weight) + ","];
    }
    assert ns[..|ns|] == ns;
  }

  /**
   * The label-to-text table walked in key order holds, for each label, its
   * entry and a comma, and its entries joined by commas are the listing.
   */
  lemma TableInOrder(ns: seq<Neighbour>, z: map<string, string>, ks: seq<string>)
    requires z == EntryTexts(Weights(ns)) && ks == Ascending(z.Keys)
    ensures forall k :: 0 <= k < |ks| ==>
              ks[k] in Weights(ns) && ks[k] in z && z[ks[k]] == Entry(ks[k], Weights(ns)[ks[k]]) + ","
    ensures JoinComma(Entries(ks, Weights(ns))) == ListingOf(ns)
  {
    AscendingSpec(z.Keys);
  }

  /** One more adjacency entry sets that label's text in the table. */
  lemma EntryTextsStep(ns: seq<Neighbour>, i: nat)
    requires i < |ns|
    ensures EntryTexts(Weights(ns[..i + 1]))
         == EntryTexts(Weights(ns[..i]))[ns[i].target := Entry(ns[i].target, ns[i].weight) + ","]
  {
    assert ns[..i + 1][..i] == ns[..i];
    assert Weights(ns[..i + 1]) == Weights(ns[..i])[ns[i].target := ns[i].weight];
  }

  /** The key an in-order walk of a `std::map` visits next: the least one not yet visited. */
  method LeastOf(rest: set<string>) returns (m: string)
    requires rest != {}
    ensures IsLeast(m, rest)
  {
    LeastExists(rest);
    m :| m in rest && forall x :: x in rest && x != m ==> Less(m, x);
  }

  /** The keys of a `std::map` in the order its iteration visits them. */
  method SortedKeys(keys: set<string>) returns (ks: seq<string>)
    ensures ks == Ascending(keys)
  {
    ks := [];
    var rest := keys;
    while rest != {}
      invariant Ascending(keys) == ks + Ascending(rest)
      decreases |rest|
    {
      var m := LeastOf(rest);
      AscendingStep(keys, ks, rest, m);
      ks := ks + [m];
      rest := rest - {m};
    }
  }

  /**
   * The second loop of `getEdgesAsString` and its final trim
   * (graph.cpp:98-101): the table's texts for the keys `ks`, in that order,
   * concatenated, then the last character dropped.
   */
  method JoinTexts(z: map<string, string>, ks: seq<string>, ghost w: map<string, int>) returns (s: string)
    requires forall k :: 0 <= k < |ks| ==> ks[k] in w && ks[k] in z && z[ks[k]] == Entry(ks[k], w[ks[k]]) + ","
    ensures s == JoinComma(Entries(ks, w))
  {
    ghost var es := Entries(ks, w);
    var p := "";
    for i := 0 to |ks|
      invariant p == Terminated(es[..i])
    {
      TerminatedSnoc(es, i);
      p := p + z[ks[i]];
    }
    assert es[..|ks|] == es;
    s := DropLast(p);
    DropLastTerminated(es);
  }

  class Graph {
    /** `map<string, bool> visited`: labels marked by `dfs` and `bfs`. Only `true` is ever stored, and nothing clears it. */
    var visited: set<string>

    /** `map<string, Vertex*> vertices`. */
    var vertices: Vertices

    /** `vector<Edge*> edges`. */
    var edges: seq<Edge>

    /** Set by the constructor and by nothing else. */
    const isDirectional: bool

    /** The invariants the header promises: no self-loops, one edge per ordered pair, agreeing views, mirrored undirected edges. */
    ghost predicate Valid()
      reads this`vertices, this`edges
      ensures Valid() ==> forall i :: 0 <= i < |edges| ==>
                edges[i].from != edges[i].to && edges[i].from in vertices && edges[i].to in vertices
    {
      Wellformed(vertices, edges) && (isDirectional || Mirrored(edges))
    }

    /** How many of the two directions between `from` and `to` have no edge yet. */
    ghost function Missing(from: string, to: string): nat
      reads this`edges
    {
      (if HasEdge(edges, from, to) then 0 else 1) + (if HasEdge(edges, to, from) then 0 else 1)
    }

    /** How many of the two directions between `from` and `to` still have an edge. */
    ghost function Present(from: string, to: string): nat
      reads this`edges
    {
      2 - Missing(from, to)
    }

    /** An empty graph, directed unless `directionalEdges` is false. */
    constructor (directionalEdges: bool := true)
      ensures Valid()
      ensures isDirectional == directionalEdges
      ensures vertices == map[] && edges == [] && visited == {}
    {
      isDirectional := directionalEdges;
      vertices := map[];
      edges := [];
      visited := {};
    }

    /** `verticesSize`. */
    function VerticesSize(): (n: int)
      reads this`vertices
      ensures n >= 0
      ensures n == 0 <==> vertices == map[]
    {
      |vertices|
    }

    /** `edgesSize`: the number of edge records, which is also the sum of all out-degrees. */
    function EdgesSize(): (n: int)
      reads this`vertices, this`edges
      requires Valid()
      ensures n == |edges|
      ensures n == DegreeSum(vertices)
    {
      EdgeCountIsDegreeSum(vertices, edges);
      |edges|
    }

    /** `contains`: every label an edge record names is a vertex of a valid graph. */
    predicate Contains(name: string): (b: bool)
      reads this`vertices, this`edges
      ensures Wellformed(vertices, edges) ==>
                forall i :: 0 <= i < |edges| && (edges[i].from == name || edges[i].to == name) ==> b
    {
      name in vertices
    }

    /** `vertexDegree`: the out-degree of a known label, -1 for an unknown one. */
    function VertexDegree(name: string): (d: int)
      reads this`vertices, this`edges
      requires Valid()
      ensures d == -1 <==> !Contains(name)
      ensures d != -1 ==> d == |vertices[name]| && d == |OutOf(edges, name)|
    {
      if Contains(name) then |vertices[name]| else -1
    }

    /** `containsEdge`: whether a record from `from` to `to` exists; the weight is not compared. */
    method ContainsEdge(from: string, to: string, weight: int := 0) returns (found: bool)
      ensures found == HasEdge(edges, from, to)
    {
      var i := 0;
      while i < |edges|
        invariant 0 <= i <= |edges|
        invariant forall j :: 0 <= j < i ==> !(edges[j].from == from && edges[j].to == to)
      {
        if edges[i].from == from && edges[i].to == to {
          return true;
        }
        i := i + 1;
      }
      return false;
    }

    /** `add`: a new label with no edges; false, and no change, for a known label. */
    method Add(name: string) returns (ok: bool)
      requires Wellformed(vertices, edges)
      modifies this`vertices
      ensures Wellformed(vertices, edges)
      ensures ok == (name !in old(vertices))
      ensures vertices == AddVertex(old(vertices), name)
      ensures ok ==> vertices == old(vertices)[name := []] && |vertices| == |old(vertices)| + 1
      ensures Contains(name)
    {
      if Contains(name) {
        return false;
      }
      AddKeepsWellformed(vertices, edges, name);
      vertices := vertices[name := []];
      return true;
    }

    /** The mirrored call of an undirected `connect` adds the reverse edge (it is not there yet). */
    ghost predicate MirrorsOnConnect(from: string, to: string)
      reads this`edges
    {
      !isDirectional && !HasEdge(edges, to, from)
    }

    /**
     * One direction of `connect` once its checks have passed
     * (graph.cpp:112-124): create missing endpoints, append the edge record
     * and `from`'s adjacency entry.
     */
    method AppendEdge(from: string, to: string, weight: int)
      requires Wellformed(vertices, edges)
      requires from != to && !HasEdge(edges, from, to)
      modifies this`vertices, this`edges
      ensures Wellformed(vertices, edges)
      ensures edges == old(edges) + [Edge(from, to, weight)]
      ensures vertices == Linked(old(vertices), from, to, weight)
    {
      ghost var before := vertices;
      ConnectKeepsWellformed(vertices, edges, from, to, weight);
      if !Contains(from) {
        var added := Add(from);
      }
      assert vertices == AddVertex(before, from);
      if !Contains(to) {
        var added := Add(to);
      }
      ghost var withEnds := vertices;
      assert withEnds == AddVertex(AddVertex(before, from), to);
      edges := edges + [Edge(from, to, weight)];
      vertices := vertices[from := vertices[from] + [Neighbour(to, weight)]];
      assert vertices == Linked(before, from, to, weight);
    }

    /**
     * `connect`: refused (false, no change) for a self-loop or when an edge
     * from `from` to `to` already exists with any weight. Otherwise creates
     * missing endpoints, appends the edge record and `from`'s adjacency entry,
     * and in an undirected graph calls itself for the reverse direction; that
     * call's own mirrored call stops at the duplicate check.
     *
     * Half-way through an undirected connect the new edge has no mirror yet,
     * hence the weaker requirement than `Valid()`.
     */
    method Connect(from: string, to: string, weight: int := 0) returns (ok: bool)
      requires Wellformed(vertices, edges)
      requires isDirectional || MirroredBut(edges, Edge(to, from, weight))
      modifies this`vertices, this`edges
      decreases Missing(from, to)
      ensures Wellformed(vertices, edges)
      ensures ok == (from != to && !old(HasEdge(edges, from, to)))
      ensures !ok ==> vertices == old(vertices) && edges == old(edges)
      ensures ok ==> edges == old(edges) + [Edge(from, to, weight)]
                                + (if old(MirrorsOnConnect(from, to)) then [Edge(to, from, weight)] else [])
      ensures ok ==> vertices == if old(MirrorsOnConnect(from, to))
                                 then Linked(Linked(old(vertices), from, to, weight), to, from, weight)
                                 else Linked(old(vertices), from, to, weight)
      ensures ok && !isDirectional ==> Mirrored(edges)
      ensures old(Valid()) ==> Valid()
      ensures old(Valid()) && ok && !isDirectional ==> old(MirrorsOnConnect(from, to))
    {
      if !isDirectional && Mirrored(edges) && !HasEdge(edges, from, to) {
        MirrorAbsent(edges, from, to);
      }
      var present := ContainsEdge(from, to, weight);
      if present || from == to {
        return false;
      }
      ghost var es0 := edges;
      AppendEdge(from, to, weight);
      if !isDirectional {
        HasEdgeAppend(es0, Edge(from, to, weight), to, from);
        HasEdgeAppend(es0, Edge(from, to, weight), from, to);
        MirrorStep(es0, from, to, weight);
        var mirrored := Connect(to, from, weight);
        if !mirrored {
          MirrorClosed(edges, Edge(from, to, weight));
        }
      }
      return true;
    }

    /**
     * One direction of `disconnect` once its checks have passed
     * (graph.cpp:137-150): erase the first record from `from` to `to` and
     * `from`'s first adjacency entry naming `to`.
     */
    method EraseEdge(from: string, to: string)
      requires Wellformed(vertices, edges)
      requires HasEdge(edges, from, to)
      modifies this`vertices, this`edges
      ensures Wellformed(vertices, edges)
      ensures edges == RemoveEdge(old(edges), from, to)
      ensures vertices == Unlinked(old(vertices), from, to)
    {
      var i := IndexOfEdge(edges, from, to);
      NeighbourPresent(vertices, edges, from, to);
      var j := IndexOfNeighbour(vertices[from], to);
      EraseAt(vertices, edges, from, to, i, j);
      DisconnectKeepsWellformed(vertices, edges, from, to);
      edges := Drop(edges, i);
      vertices := vertices[from := Drop(vertices[from], j)];
    }

    /**
     * `disconnect`: refused (false, no change) when there is no edge from
     * `from` to `to`, or `from == to`. Otherwise erases that edge's record
     * and `from`'s adjacency entry for `to`, and in an undirected graph calls
     * itself for the reverse direction.
     */
    method Disconnect(from: string, to: string) returns (ok: bool)
      requires Wellformed(vertices, edges)
      requires isDirectional || MirroredExceptPair(edges, from, to)
      modifies this`vertices, this`edges
      decreases Present(from, to)
      ensures Wellformed(vertices, edges)
      ensures ok == (from != to && old(HasEdge(edges, from, to)))
      ensures !ok ==> vertices == old(vertices) && edges == old(edges)
      ensures ok && isDirectional ==>
                edges == RemoveEdge(old(edges), from, to) && vertices == Unlinked(old(vertices), from, to)
      ensures ok && !isDirectional ==>
                edges == RemoveEdge(RemoveEdge(old(edges), from, to), to, from) &&
                vertices == Unlinked(Unlinked(old(vertices), from, to), to, from)
      ensures ok && !isDirectional ==> Mirrored(edges)
      ensures ok && isDirectional ==> |edges| == |old(edges)| - 1 && !HasEdge(edges, from, to)
      ensures old(Valid()) && ok && !isDirectional ==>
                old(HasEdge(edges, to, from)) && |edges| == |old(edges)| - 2 &&
                !HasEdge(edges, from, to) && !HasEdge(edges, to, from)
      ensures old(Valid()) ==> Valid()
    {
      var present := ContainsEdge(from, to);
      if !present || from == to {
        return false;
      }
      ghost var es0 := edges;
      RemoveEdgeExactly(es0, from, to);
      if !isDirectional && Mirrored(es0) {
        MirrorPresent(es0, from, to);
        RemoveBoth(es0, from, to);
      }
      EraseEdge(from, to);
      if !isDirectional {
        UnmirrorStep(es0, from, to);
        ghost var vs1, es1 := vertices, edges;
        if HasEdge(es1, to, from) {
          // the mirrored call's own mirrored call finds nothing left to erase
          RemoveEdgeExactly(es1, to, from);
          DisconnectKeepsWellformed(vs1, es1, to, from);
          RemoveEdgeAbsent(RemoveEdge(es1, to, from), from, to);
          UnlinkedAbsent(Unlinked(vs1, to, from), RemoveEdge(es1, to, from), from, to);
        } else {
          RemoveEdgeAbsent(es1, to, from);
          UnlinkedAbsent(vs1, es1, to, from);
        }
        var mirrored := Disconnect(to, from);
      }
      return true;
    }

    /**
     * `getEdgesAsString`: "" for an unknown label; otherwise each neighbour as
     * `label(weight)` in ascending label order, comma-separated. The first
     * loop fills a label-to-text table, the second walks its keys in order.
     */
    method EdgesAsString(name: string) returns (s: string)
      ensures s == if name in vertices then ListingOf(vertices[name]) else ""
    {
      if !Contains(name) {
        return "";
      }
      var z := EntryTable(vertices[name]);
      var ks := SortedKeys(z.Keys);
      TableInOrder(vertices[name], z, ks);
      s := JoinTexts(z, ks, Weights(vertices[name]));
    }

    /** Every label of an adjacency list names a vertex. */
    lemma TargetsKnown(u: string)
      requires Valid() && u in vertices
      ensures Targets(vertices[u]) <= vertices.Keys
    {
      forall x | x in Targets(vertices[u]) ensures x in vertices {
        var k :| 0 <= k < |vertices[u]| && vertices[u][k].target == x;
        OutOfLabels(edges, u, vertices[u][k]);
      }
    }

    /**
     * `dfs`: marks `start`, then recurses into each neighbour, in adjacency
     * order, that is not marked yet. For a known `start`, exactly the
     * vertices reachable from it through vertices unmarked at the call are
     * added. For an unknown one `start` is marked and then the lookup of its
     * adjacency fails (`known` is false).
     */
    method Dfs(start: string) returns (known: bool)
      requires Valid()
      modifies this`visited
      decreases vertices.Keys - visited, if start in visited then 3 else 0
      ensures known == (start in vertices)
      ensures old(visited) + {start} <= visited
      ensures !known ==> visited == old(visited) + {start}
      ensures known ==> forall v :: v in visited && (v !in old(visited) || v == start) ==> ClosedIn(vertices, visited, v)
      ensures known ==> forall v :: v in visited <==> v in old(visited) || ReachableAvoiding(vertices, old(visited), start, v)
    {
      visited := visited + {start};
      if !Contains(start) {
        return false;
      }
      ReachSelf(vertices, old(visited), start);
      VisitNeighbours(start, old(visited));
      forall v | ReachableAvoiding(vertices, old(visited), start, v) ensures v in visited {
        ReachComplete(vertices, old(visited), visited, start, v);
      }
      return true;
    }

    /**
     * One pass of the loop of `dfs` (graph.cpp:162-164): a nested `dfs` from
     * the neighbour `n` of `start` when `n` is still unmarked.
     */
    method VisitNeighbour(start: string, ghost seen: set<string>, n: string)
      requires Valid() && start in vertices && start in visited && seen <= visited
      requires n in Targets(vertices[start])
      requires Explored(vertices, seen, start, visited)
      modifies this`visited
      decreases vertices.Keys - visited, 1
      ensures old(visited) <= visited && n in visited
      ensures Explored(vertices, seen, start, visited)
    {
      if n !in visited {
        TargetsKnown(start);
        ghost var prev := visited;
        var reached := Dfs(n);
        ExploredAfterVisit(vertices, seen, prev, visited, start, n);
      }
    }

    /**
     * The loop of `dfs` (graph.cpp:161-165): visits each neighbour of
     * `start` that is still unmarked. `seen` is what was marked when the
     * traversal from `start` began.
     */
    method VisitNeighbours(start: string, ghost seen: set<string>)
      requires Valid() && start in vertices && start in visited && seen <= visited
      requires Explored(vertices, seen, start, visited)
      modifies this`visited
      decreases vertices.Keys - visited, 2
      ensures old(visited) <= visited
      ensures Targets(vertices[start]) <= visited
      ensures Explored(vertices, seen, start, visited)
    {
      var ns := vertices[start];
      for i := 0 to |ns|
        invariant old(visited) <= visited
        invariant forall k :: 0 <= k < i ==> ns[k].target in visited
        invariant Explored(vertices, seen, start, visited)
      {
        assert ns[i].target in Targets(vertices[start]);
        ghost var prev := visited;
        VisitNeighbour(start, seen, ns[i].target);
        forall k | 0 <= k < i + 1 ensures ns[k].target in visited {
          if k < i { assert ns[k].target in prev; }
        }
      }
      assert Targets(ns) <= visited by {
        forall x | x in Targets(ns) ensures x in visited {
          var k :| 0 <= k < |ns| && ns[k].target == x;
        }
      }
    }

    /**
     * The inner loop of `bfs` (graph.cpp:176-181): marks every unmarked
     * neighbour of `u`, in adjacency order, and returns them in the order
     * they were marked, for the queue.
     */
    method Expand(u: string) returns (added: seq<string>)
      requires u in vertices
      modifies this`visited
      ensures visited == old(visited) + Targets(vertices[u])
      ensures forall x :: x in added <==> x in Targets(vertices[u]) && x !in old(visited)
    {
      added := [];
      var ns := vertices[u];
      for i := 0 to |ns|
        invariant visited == old(visited) + Targets(ns[..i])
        invariant forall x :: x in added <==> x in Targets(ns[..i]) && x !in old(visited)
      {
        assert Targets(ns[..i + 1]) == Targets(ns[..i]) + {ns[i].target} by {
          assert forall k :: 0 <= k < i ==> ns[..i + 1][k] == ns[..i][k];
        }
        if ns[i].target !in visited {
          visited := visited + {ns[i].target};
          added := added + [ns[i].target];
        }
      }
      assert ns[..|ns|] == ns;
    }

    /**
     * `bfs` as written: the queue is drained, but every dequeue scans the
     * adjacency of `start` (graph.cpp:176), not of the dequeued vertex. So it
     * marks `start` and `start`'s direct neighbours and nothing more. An
     * unknown `start` is marked and then its lookup fails.
     */
    method Bfs(start: string) returns (known: bool)
      requires Valid()
      modifies this`visited
      ensures known == (start in vertices)
      ensures known ==> visited == old(visited) + {start} + Targets(vertices[start])
      ensures !known ==> visited == old(visited) + {start}
    {
      var q := [start];
      visited := visited + {start};
      if !Contains(start) {
        return false;
      }
      TargetsKnown(start);
      ghost var scanned := false;
      while q != []
        invariant visited <= old(visited) + {start} + Targets(vertices[start])
        invariant scanned ==> visited == old(visited) + {start} + Targets(vertices[start])
        invariant !scanned ==> q == [start] && visited == old(visited) + {start}
        decreases vertices.Keys - visited, |q|
      {
        var u := q[0];
        q := q[1..];
        var added := Expand(start);
        if added != [] {
          assert added[0] in added;
        }
        q := q + added;
        scanned := true;
      }
      return true;
    }

    /**
     * Breadth-first search as evidently intended: each dequeue scans the
     * adjacency of the dequeued vertex. It marks exactly what `Dfs` marks.
     */
    method BfsCorrected(start: string) returns (known: bool)
      requires Valid()
      modifies this`visited
      ensures known == (start in vertices)
      ensures !known ==> visited == old(visited) + {start}
      ensures known ==> forall v :: v in visited <==> v in old(visited) || ReachableAvoiding(vertices, old(visited), start, v)
    {
      var q := [start];
      visited := visited + {start};
      if !Contains(start) {
        return false;
      }
      ReachSelf(vertices, old(visited), start);
      ghost var done: set<string> := {};
      while q != []
        invariant old(visited) + {start} <= visited
        invariant Frontier(vertices, old(visited), start, visited, done, q)
        decreases vertices.Keys - visited, |q|
      {
        var u := q[0];
        TargetsKnown(u);
        ghost var visited0, q0 := visited, q;
        var added := Expand(u);
        FrontierStep(vertices, old(visited), start, visited0, done, q0, visited, added);
        if added != [] {
          assert added[0] in added;
        }
        q := q[1..] + added;
        done := done + {u};
      }
      FrontierComplete(vertices, old(visited), start, visited, done);
      return true;
    }
  }
}
