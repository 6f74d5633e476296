/**
 * The graph store as values: the `Edge` record and the adjacency entries of
 * a `Vertex` (graph.h), the invariants the header comments promise, and the
 * edits that `add`, `connect` and `disconnect` make to the vertex map and the
 * edge list. A `Vertex*` in an adjacency entry is replaced by the neighbour's
 * label, which is unique, and a `Vertex` by its entry in the label map.
 */
module Adjacency {

  /** `struct Edge`: from-label, to-label, weight. */
  datatype Edge = Edge(from: string, to: string, weight: int)

  /** One element of `Vertex::connectedVerts`: the neighbour (by label) and the weight. */
  datatype Neighbour = Neighbour(target: string, weight: int)

  /** `map<string, Vertex*>`: each label with its outgoing adjacency, in insertion order. */
  type Vertices = map<string, seq<Neighbour>>

  /** The edge an undirected graph stores for the other direction. */
  function Mirror(e: Edge): Edge
  {
    Edge(e.to, e.from, e.weight)
  }

  /** Some edge record runs from `from` to `to`, whatever its weight. */
  predicate HasEdge(es: seq<Edge>, from: string, to: string)
  {
    exists i :: 0 <= i < |es| && es[i].from == from && es[i].to == to
  }

  ghost predicate NoSelfLoops(es: seq<Edge>)
  {
    forall i :: 0 <= i < |es| ==> es[i].from != es[i].to
  }

  /** At most one edge per ordered pair of labels. */
  ghost predicate UniquePairs(es: seq<Edge>)
  {
    forall i, j :: 0 <= i < j < |es| ==> es[i].from != es[j].from || es[i].to != es[j].to
  }

  /** The adjacency entries the edge list gives label `v`, in edge-list order. */
  function OutOf(es: seq<Edge>, v: string): seq<Neighbour>
    decreases |es|
  {
    if es == [] then []
    else (if es[0].from == v then [Neighbour(es[0].to, es[0].weight)] else []) + OutOf(es[1..], v)
  }

  /** The edge list and the adjacency lists describe the same edges, in the same order. */
  ghost predicate Agree(vs: Vertices, es: seq<Edge>)
  {
    (forall i :: 0 <= i < |es| ==> es[i].from in vs && es[i].to in vs) &&
    (forall v :: v in vs ==> vs[v] == OutOf(es, v))
  }

  /** Every invariant of the store except the mirroring of undirected graphs. */
  ghost predicate Wellformed(vs: Vertices, es: seq<Edge>)
  {
    NoSelfLoops(es) && UniquePairs(es) && Agree(vs, es)
  }

  /** Every edge has its mirror with the same weight (the undirected invariant). */
  ghost predicate Mirrored(es: seq<Edge>)
  {
    forall i :: 0 <= i < |es| ==> Mirror(es[i]) in es
  }

  /** Every edge has its mirror, except possibly `x`: the state half-way through an undirected `connect`. */
  ghost predicate MirroredBut(es: seq<Edge>, x: Edge)
  {
    forall i :: 0 <= i < |es| ==> Mirror(es[i]) in es || es[i] == x
  }

  /** Every edge has its mirror, except possibly the one from `from` to `to`: half-way through an undirected `disconnect`. */
  ghost predicate MirroredExceptPair(es: seq<Edge>, from: string, to: string)
  {
    forall i :: 0 <= i < |es| ==> Mirror(es[i]) in es || (es[i].from == from && es[i].to == to)
  }

  /** `add`: a new label gets an empty adjacency; a known label is left alone. */
  function AddVertex(vs: Vertices, name: string): (r: Vertices)
    ensures forall v :: v in r <==> v in vs || v == name
    ensures forall v :: v in vs ==> r[v] == vs[v]
    ensures name !in vs ==> r[name] == []
  {
    if name in vs then vs else vs[name := []]
  }

  /** What one direction of `connect` does to the vertex map: create missing endpoints, append `(to, w)` to `from`. */
  function Linked(vs: Vertices, from: string, to: string, w: int): (r: Vertices)
    ensures forall v :: v in r <==> v in vs || v == from || v == to
    ensures |r[from]| == (if from in vs then |vs[from]| else 0) + 1
    ensures r[from][|r[from]| - 1] == Neighbour(to, w)
  {
    var withEnds := AddVertex(AddVertex(vs, from), to);
    withEnds[from := withEnds[from] + [Neighbour(to, w)]]
  }

  /** The edge list without its first record from `from` to `to`. */
  function RemoveEdge(es: seq<Edge>, from: string, to: string): (r: seq<Edge>)
    ensures |r| == if HasEdge(es, from, to) then |es| - 1 else |es|
    decreases |es|
  {
    if es == [] then []
    else if es[0].from == from && es[0].to == to then es[1..]
    else [es[0]] + RemoveEdge(es[1..], from, to)
  }

  /** The adjacency without its first entry for `name`. */
  function RemoveNeighbour(ns: seq<Neighbour>, name: string): (r: seq<Neighbour>)
    ensures |r| == |ns| - 1 || r == ns
    ensures r == ns ==> forall k :: 0 <= k < |ns| ==> ns[k].target != name
    decreases |ns|
  {
    if ns == [] then []
    else if ns[0].target == name then ns[1..]
    else [ns[0]] + RemoveNeighbour(ns[1..], name)
  }

  /** What one direction of `disconnect` does to the vertex map. */
  function Unlinked(vs: Vertices, from: string, to: string): (r: Vertices)
    ensures forall v :: v in r <==> v in vs
    ensures forall v :: v in vs && v != from ==> r[v] == vs[v]
  {
    if from in vs then vs[from := RemoveNeighbour(vs[from], to)] else vs
  }

  // ---------------------------------------------------------------------------
  // Adjacency lists follow the edge list

  lemma {:induction false} OutOfAppend(es: seq<Edge>, e: Edge, v: string)
    ensures OutOf(es + [e], v) == OutOf(es, v) + (if e.from == v then [Neighbour(e.to, e.weight)] else [])
    decreases |es|
  {
    if es != [] {
      assert (es + [e])[1..] == es[1..] + [e];
      OutOfAppend(es[1..], e, v);
    }
  }

  lemma {:induction false} OutOfRemove(es: seq<Edge>, from: string, to: string, v: string)
    ensures OutOf(RemoveEdge(es, from, to), v)
         == if v == from then RemoveNeighbour(OutOf(es, from), to) else OutOf(es, v)
    decreases |es|
  {
    if es != [] {
      var head := if es[0].from == v then [Neighbour(es[0].to, es[0].weight)] else [];
      assert OutOf(es, v) == head + OutOf(es[1..], v);
      if !(es[0].from == from && es[0].to == to) {
        var rest := RemoveEdge(es[1..], from, to);
        assert ([es[0]] + rest)[0] == es[0] && ([es[0]] + rest)[1..] == rest;
        OutOfRemove(es[1..], from, to, v);
        var x := [es[0]] + rest;
        assert RemoveEdge(es, from, to) == x;
        assert OutOf(x, v) == head + OutOf(rest, v);
        if v == from && head != [] {
          var ns := head + OutOf(es[1..], v);
          assert ns[0] == head[0] && ns[1..] == OutOf(es[1..], v);
          assert ns[0].target != to;
          assert RemoveNeighbour(ns, to) == [ns[0]] + RemoveNeighbour(ns[1..], to);
        } else if v == from {
          assert OutOf(x, v) == OutOf(rest, v) == RemoveNeighbour(OutOf(es[1..], from), to);
          assert OutOf(es, from) == OutOf(es[1..], from);
        }
      } else {
        var ns := OutOf(es, from);
        assert ns == [Neighbour(to, es[0].weight)] + OutOf(es[1..], from);
        assert ns[0].target == to && ns[1..] == OutOf(es[1..], from);
        if v != from {
          assert OutOf(es, v) == OutOf(es[1..], v);
        }
      }
    }
  }

  /** The labels listed by `OutOf(es, v)` are the targets of the edges leaving `v`. */
  lemma {:induction false} OutOfLabels(es: seq<Edge>, v: string, n: Neighbour)
    ensures n in OutOf(es, v) <==> Edge(v, n.target, n.weight) in es
    decreases |es|
  {
    if es != [] {
      OutOfLabels(es[1..], v, n);
      var e := Edge(v, n.target, n.weight);
      assert es == [es[0]] + es[1..];
      assert e in es <==> e == es[0] || e in es[1..];
      if es[0].from == v {
        var head := Neighbour(es[0].to, es[0].weight);
        assert OutOf(es, v) == [head] + OutOf(es[1..], v);
        assert n == head <==> e == es[0];
      } else {
        assert OutOf(es, v) == OutOf(es[1..], v);
        assert e != es[0];
      }
    }
  }

  /** With one edge per ordered pair, no label appears twice in an adjacency list. */
  lemma {:induction false} OutOfDistinct(es: seq<Edge>, v: string)
    requires UniquePairs(es)
    ensures DistinctLabels(OutOf(es, v))
    decreases |es|
  {
    if es != [] {
      var tail := es[1..];
      assert UniquePairs(tail) by {
        forall i, j | 0 <= i < j < |tail| ensures tail[i].from != tail[j].from || tail[i].to != tail[j].to {
          assert tail[i] == es[i + 1] && tail[j] == es[j + 1];
        }
      }
      OutOfDistinct(tail, v);
      if es[0].from == v {
        var ns := OutOf(es, v);
        var rest := OutOf(tail, v);
        assert ns == [Neighbour(es[0].to, es[0].weight)] + rest;
        forall i | 0 < i < |ns| ensures ns[i].target != ns[0].target {
          assert ns[i] in rest;
          OutOfLabels(tail, v, ns[i]);
          var j :| 0 <= j < |tail| && tail[j] == Edge(v, ns[i].target, ns[i].weight);
          assert es[j + 1] == tail[j];
        }
      }
    }
  }

  /** No two entries of an adjacency list name the same neighbour. */
  ghost predicate DistinctLabels(ns: seq<Neighbour>)
  {
    forall i, j :: 0 <= i < j < |ns| ==> ns[i].target != ns[j].target
  }

  // ---------------------------------------------------------------------------
  // Removing an edge record

  lemma {:induction false} RemoveEdgeAt(es: seq<Edge>, from: string, to: string, i: nat)
    requires i < |es| && es[i].from == from && es[i].to == to
    requires forall j :: 0 <= j < i ==> !(es[j].from == from && es[j].to == to)
    ensures RemoveEdge(es, from, to) == es[..i] + es[i + 1..]
    decreases i
  {
    if i > 0 {
      RemoveEdgeAt(es[1..], from, to, i - 1);
      assert RemoveEdge(es, from, to) == [es[0]] + RemoveEdge(es[1..], from, to);
      assert es[..i] == [es[0]] + es[1..][..i - 1];
      assert es[i + 1..] == es[1..][i..];
    }
  }

  lemma {:induction false} RemoveEdgeAbsent(es: seq<Edge>, from: string, to: string)
    requires !HasEdge(es, from, to)
    ensures RemoveEdge(es, from, to) == es
    decreases |es|
  {
    if es != [] {
      forall j | 0 <= j < |es[1..]| ensures !(es[1..][j].from == from && es[1..][j].to == to) {
        assert es[1..][j] == es[j + 1];
      }
      RemoveEdgeAbsent(es[1..], from, to);
    }
  }

  /** In a well-formed store an edge's source is known and its adjacency names the target. */
  lemma NeighbourPresent(vs: Vertices, es: seq<Edge>, from: string, to: string)
    requires Wellformed(vs, es) && HasEdge(es, from, to)
    ensures from in vs && exists k :: 0 <= k < |vs[from]| && vs[from][k].target == to
  {
    var i :| 0 <= i < |es| && es[i].from == from && es[i].to == to;
    var n := Neighbour(to, es[i].weight);
    OutOfLabels(es, from, n);
    assert es[i] == Edge(from, n.target, n.weight);
    var k :| 0 <= k < |vs[from]| && vs[from][k] == n;
  }

  /**
   * One direction of `disconnect`, index by index: dropping the first
   * `from -> to` record, at `i`, and the first entry naming `to` in `from`'s
   * adjacency, at `j`, is `RemoveEdge` and `Unlinked`.
   */
  lemma EraseAt(vs: Vertices, es: seq<Edge>, from: string, to: string, i: nat, j: nat)
    requires i < |es| && es[i].from == from && es[i].to == to
    requires forall k :: 0 <= k < i ==> !(es[k].from == from && es[k].to == to)
    requires from in vs && j < |vs[from]| && vs[from][j].target == to
    requires forall k :: 0 <= k < j ==> vs[from][k].target != to
    ensures Drop(es, i) == RemoveEdge(es, from, to)
    ensures vs[from := Drop(vs[from], j)] == Unlinked(vs, from, to)
  {
    RemoveEdgeAt(es, from, to, i);
    RemoveNeighbourAt(vs[from], to, j);
  }

  lemma {:induction false} RemoveNeighbourAt(ns: seq<Neighbour>, name: string, i: nat)
    requires i < |ns| && ns[i].target == name
    requires forall j :: 0 <= j < i ==> ns[j].target != name
    ensures RemoveNeighbour(ns, name) == ns[..i] + ns[i + 1..]
    decreases i
  {
    if i > 0 {
      RemoveNeighbourAt(ns[1..], name, i - 1);
      assert RemoveNeighbour(ns, name) == [ns[0]] + RemoveNeighbour(ns[1..], name);
      assert ns[..i] == [ns[0]] + ns[1..][..i - 1];
      assert ns[i + 1..] == ns[1..][i..];
    }
  }

  /**
   * `disconnect` removes exactly the record of that edge: one record fewer,
   * the pair is gone, every other record stays, in its relative order.
   */
  lemma RemoveEdgeExactly(es: seq<Edge>, from: string, to: string)
    requires UniquePairs(es) && HasEdge(es, from, to)
    ensures |RemoveEdge(es, from, to)| == |es| - 1
    ensures !HasEdge(RemoveEdge(es, from, to), from, to)
    ensures forall a, b :: a != from || b != to ==> (HasEdge(RemoveEdge(es, from, to), a, b) <==> HasEdge(es, a, b))
    ensures exists i :: 0 <= i < |es| && es[i].from == from && es[i].to == to
                        && RemoveEdge(es, from, to) == Drop(es, i)
  {
    var i := RemoveEdgeShape(es, from, to);
    DropKeeps(es, i);
    var r := Drop(es, i);
    forall j | 0 <= j < |r| ensures !(r[j].from == from && r[j].to == to) {
      assert r[j] == es[if j < i then j else j + 1];
    }
    forall a, b | a != from || b != to ensures HasEdge(r, a, b) <==> HasEdge(es, a, b) {
      DropHasEdge(es, i, a, b);
    }
  }

  /** Dropping a record of another pair leaves the edges between `a` and `b` as they were. */
  lemma DropHasEdge(es: seq<Edge>, k: nat, a: string, b: string)
    requires k < |es| && !(es[k].from == a && es[k].to == b)
    ensures HasEdge(Drop(es, k), a, b) <==> HasEdge(es, a, b)
  {
    var r := Drop(es, k);
    if HasEdge(r, a, b) {
      var j :| 0 <= j < |r| && r[j].from == a && r[j].to == b;
      if j < k {
        assert r[j] == es[j];
      } else {
        assert r[j] == es[j + 1];
      }
    }
    if HasEdge(es, a, b) {
      var j :| 0 <= j < |es| && es[j].from == a && es[j].to == b;
      if j < k {
        assert r[j] == es[j];
      } else {
        assert r[j - 1] == es[j];
      }
    }
  }


  /** A neighbour that is not listed is not removed: `RemoveNeighbour` changes nothing then. */
  lemma {:induction false} RemoveNeighbourAbsent(ns: seq<Neighbour>, name: string)
    requires forall k :: 0 <= k < |ns| ==> ns[k].target != name
    ensures RemoveNeighbour(ns, name) == ns
    decreases |ns|
  {
    if ns != [] {
      RemoveNeighbourAbsent(ns[1..], name);
    }
  }

  /** Disconnecting a pair that has no edge leaves a well-formed vertex map unchanged. */
  lemma UnlinkedAbsent(vs: Vertices, es: seq<Edge>, from: string, to: string)
    requires Agree(vs, es) && !HasEdge(es, from, to)
    ensures Unlinked(vs, from, to) == vs
  {
    if from in vs {
      EdgeInAdjacency(vs, es, from, to);
      RemoveNeighbourAbsent(vs[from], to);
    }
  }

  /** `containsEdge` may consult either side: an edge record exists exactly when `from`'s adjacency names `to`. */
  lemma EdgeInAdjacency(vs: Vertices, es: seq<Edge>, from: string, to: string)
    requires Agree(vs, es)
    ensures HasEdge(es, from, to) <==> from in vs && exists k :: 0 <= k < |vs[from]| && vs[from][k].target == to
  {
    if HasEdge(es, from, to) {
      var i :| 0 <= i < |es| && es[i].from == from && es[i].to == to;
      var n := Neighbour(to, es[i].weight);
      OutOfLabels(es, from, n);
      var k :| 0 <= k < |vs[from]| && vs[from][k] == n;
    }
    if from in vs && exists k :: 0 <= k < |vs[from]| && vs[from][k].target == to {
      var k :| 0 <= k < |vs[from]| && vs[from][k].target == to;
      OutOfLabels(es, from, vs[from][k]);
      var i :| 0 <= i < |es| && es[i] == Edge(from, to, vs[from][k].weight);
    }
  }

  /**
   * A successful one-direction `disconnect` takes exactly one entry, the
   * first naming `to`, out of `from`'s adjacency; the others keep their
   * order and no other vertex changes.
   */
  lemma UnlinkedShape(vs: Vertices, es: seq<Edge>, from: string, to: string)
    requires Agree(vs, es) && HasEdge(es, from, to)
    ensures from in vs && Unlinked(vs, from, to).Keys == vs.Keys
    ensures exists i :: 0 <= i < |vs[from]| && vs[from][i].target == to &&
                        (forall j :: 0 <= j < i ==> vs[from][j].target != to) &&
                        Unlinked(vs, from, to)[from] == vs[from][..i] + vs[from][i + 1..]
    ensures |Unlinked(vs, from, to)[from]| == |vs[from]| - 1
    ensures forall v :: v in vs && v != from ==> Unlinked(vs, from, to)[v] == vs[v]
  {
    EdgeInAdjacency(vs, es, from, to);
    RemoveFirstNeighbour(vs[from], to);
  }

  /** Removing a label the list names takes out its first entry and nothing else. */
  lemma RemoveFirstNeighbour(ns: seq<Neighbour>, name: string)
    requires exists k :: 0 <= k < |ns| && ns[k].target == name
    ensures exists i :: 0 <= i < |ns| && ns[i].target == name &&
                        (forall j :: 0 <= j < i ==> ns[j].target != name) &&
                        RemoveNeighbour(ns, name) == ns[..i] + ns[i + 1..]
    ensures |RemoveNeighbour(ns, name)| == |ns| - 1
  {
    var k :| 0 <= k < |ns| && ns[k].target == name;
    FirstNeighbour(ns, name, k);
    var i :| 0 <= i <= k && ns[i].target == name && forall j :: 0 <= j < i ==> ns[j].target != name;
    RemoveNeighbourAt(ns, name, i);
  }

  /** An adjacency list that names `name` somewhere names it a first time. */
  lemma {:induction false} FirstNeighbour(ns: seq<Neighbour>, name: string, k: nat)
    requires k < |ns| && ns[k].target == name
    ensures exists i :: 0 <= i <= k && ns[i].target == name
                        && forall j :: 0 <= j < i ==> ns[j].target != name
    decreases k
  {
    if exists j :: 0 <= j < k && ns[j].target == name {
      var j :| 0 <= j < k && ns[j].target == name;
      FirstNeighbour(ns, name, j);
    }
  }

  /**
   * A successful one-direction `connect` creates whichever endpoints are
   * missing, with empty adjacency, and appends `(to, w)` to `from`'s
   * adjacency; no other vertex changes.
   */
  lemma LinkedShape(vs: Vertices, from: string, to: string, w: int)
    requires from != to
    ensures Linked(vs, from, to, w).Keys == vs.Keys + {from, to}
    ensures Linked(vs, from, to, w)[from] == (if from in vs then vs[from] else []) + [Neighbour(to, w)]
    ensures Linked(vs, from, to, w)[to] == if to in vs then vs[to] else []
    ensures forall v :: v in vs && v != from ==> Linked(vs, from, to, w)[v] == vs[v]
  {
  }

  lemma HasEdgeAppend(es: seq<Edge>, e: Edge, a: string, b: string)
    ensures HasEdge(es + [e], a, b) <==> HasEdge(es, a, b) || (e.from == a && e.to == b)
  {
    var es' := es + [e];
    if HasEdge(es', a, b) {
      var i :| 0 <= i < |es'| && es'[i].from == a && es'[i].to == b;
      if i < |es| { assert es[i] == es'[i]; }
    }
    if HasEdge(es, a, b) {
      var i :| 0 <= i < |es| && es[i].from == a && es[i].to == b;
      assert es'[i] == es[i];
    }
    if e.from == a && e.to == b {
      assert es'[|es|] == e;
    }
  }

  // ---------------------------------------------------------------------------
  // The edits keep the invariants

  /** An unknown label has no out-edges, so `add` keeps the store well formed. */
  lemma AddKeepsWellformed(vs: Vertices, es: seq<Edge>, name: string)
    requires Wellformed(vs, es)
    ensures Wellformed(AddVertex(vs, name), es)
  {
    if name !in vs {
      UnknownHasNoEdges(vs, es, name);
    }
  }

  lemma UnknownHasNoEdges(vs: Vertices, es: seq<Edge>, name: string)
    requires Agree(vs, es) && name !in vs
    ensures OutOf(es, name) == []
  {
    assert forall i :: 0 <= i < |es| ==> es[i].from != name;
    OutOfNone(es, name);
  }

  lemma {:induction false} OutOfNone(es: seq<Edge>, v: string)
    requires forall i :: 0 <= i < |es| ==> es[i].from != v
    ensures OutOf(es, v) == []
    decreases |es|
  {
    if es != [] {
      assert forall i :: 0 <= i < |es[1..]| ==> es[1..][i] == es[i + 1];
      OutOfNone(es[1..], v);
    }
  }

  /** A successful one-direction `connect` keeps the store well formed. */
  lemma ConnectKeepsWellformed(vs: Vertices, es: seq<Edge>, from: string, to: string, w: int)
    requires Wellformed(vs, es)
    requires from != to && !HasEdge(es, from, to)
    ensures Wellformed(Linked(vs, from, to, w), es + [Edge(from, to, w)])
  {
    var e := Edge(from, to, w);
    var vs' := Linked(vs, from, to, w);
    var es' := es + [e];
    AppendKeepsPairs(es, e);
    forall i | 0 <= i < |es'| ensures es'[i].from in vs' && es'[i].to in vs' {
      if i < |es| { assert es'[i] == es[i]; }
    }
    forall v | v in vs' ensures vs'[v] == OutOf(es', v) {
      LinkedAgrees(vs, es, from, to, w, v);
    }
  }

  /** Appending a new pair that is no self-loop keeps both pair invariants. */
  lemma AppendKeepsPairs(es: seq<Edge>, e: Edge)
    requires NoSelfLoops(es) && UniquePairs(es)
    requires e.from != e.to && !HasEdge(es, e.from, e.to)
    ensures NoSelfLoops(es + [e]) && UniquePairs(es + [e])
  {
    var es' := es + [e];
    forall i | 0 <= i < |es'| ensures es'[i].from != es'[i].to {
      if i < |es| { assert es'[i] == es[i]; }
    }
    forall i, j | 0 <= i < j < |es'| ensures es'[i].from != es'[j].from || es'[i].to != es'[j].to {
      assert es'[i] == es[i];
      if j < |es| { assert es'[j] == es[j]; }
    }
  }

  /** Each entry of the linked map is the out-list of the extended edge list. */
  lemma LinkedAgrees(vs: Vertices, es: seq<Edge>, from: string, to: string, w: int, v: string)
    requires Agree(vs, es) && from != to
    requires v in Linked(vs, from, to, w)
    ensures Linked(vs, from, to, w)[v] == OutOf(es + [Edge(from, to, w)], v)
  {
    OutOfAppend(es, Edge(from, to, w), v);
    LinkedShape(vs, from, to, w);
    if v !in vs {
      UnknownHasNoEdges(vs, es, v);
    }
  }

  /** A successful one-direction `disconnect` keeps the store well formed. */
  lemma DisconnectKeepsWellformed(vs: Vertices, es: seq<Edge>, from: string, to: string)
    requires Wellformed(vs, es)
    ensures Wellformed(Unlinked(vs, from, to), RemoveEdge(es, from, to))
  {
    var r := RemoveEdge(es, from, to);
    if HasEdge(es, from, to) {
      var k := RemoveEdgeShape(es, from, to);
      DropKeeps(es, k);
    } else {
      RemoveEdgeAbsent(es, from, to);
    }
    forall v | v in Unlinked(vs, from, to) ensures Unlinked(vs, from, to)[v] == OutOf(r, v) {
      OutOfRemove(es, from, to, v);
    }
  }

  /** When the pair is present, `RemoveEdge` drops the record at its first occurrence `k`. */
  lemma RemoveEdgeShape(es: seq<Edge>, from: string, to: string) returns (k: nat)
    requires HasEdge(es, from, to)
    ensures k < |es| && es[k].from == from && es[k].to == to
    ensures RemoveEdge(es, from, to) == Drop(es, k)
  {
    var i :| 0 <= i < |es| && es[i].from == from && es[i].to == to;
    FirstMatch(es, from, to, i);
    k :| 0 <= k <= i && es[k].from == from && es[k].to == to
         && forall j :: 0 <= j < k ==> !(es[j].from == from && es[j].to == to);
    RemoveEdgeAt(es, from, to, k);
  }

  /** The sequence without its element at `k`. */
  function Drop<T>(s: seq<T>, k: nat): (r: seq<T>)
    requires k < |s|
    ensures |r| == |s| - 1
  {
    s[..k] + s[k + 1..]
  }

  /** The element at `j` after dropping the one at `k`. */
  lemma DropAt<T>(s: seq<T>, k: nat, j: nat)
    requires k < |s| && j < |s| - 1
    ensures Drop(s, k)[j] == s[if j < k then j else j + 1]
  {
  }

  /** Dropping one record keeps the others in order and keeps the per-record invariants. */
  lemma DropKeeps(es: seq<Edge>, k: nat)
    requires k < |es|
    ensures forall j :: 0 <= j < |es| - 1 ==> Drop(es, k)[j] == es[if j < k then j else j + 1]
    ensures NoSelfLoops(es) ==> NoSelfLoops(Drop(es, k))
    ensures UniquePairs(es) ==> UniquePairs(Drop(es, k))
  {
    var r := Drop(es, k);
    assert forall j :: 0 <= j < |r| ==> r[j] == es[if j < k then j else j + 1];
    if UniquePairs(es) {
      forall i, j | 0 <= i < j < |r| ensures r[i].from != r[j].from || r[i].to != r[j].to {
        assert r[i] == es[if i < k then i else i + 1];
        assert r[j] == es[if j < k then j else j + 1];
      }
    }
  }

  lemma {:induction false} FirstMatch(es: seq<Edge>, from: string, to: string, i: nat)
    requires i < |es| && es[i].from == from && es[i].to == to
    ensures exists k :: 0 <= k <= i && es[k].from == from && es[k].to == to
                        && forall j :: 0 <= j < k ==> !(es[j].from == from && es[j].to == to)
    decreases i
  {
    if exists j :: 0 <= j < i && es[j].from == from && es[j].to == to {
      var j :| 0 <= j < i && es[j].from == from && es[j].to == to;
      FirstMatch(es, from, to, j);
    }
  }

  // ---------------------------------------------------------------------------
  // Mirroring in undirected graphs

  /** In a mirrored store an edge and its reverse are both present or both absent. */
  lemma MirrorAbsent(es: seq<Edge>, from: string, to: string)
    requires Mirrored(es) && !HasEdge(es, from, to)
    ensures !HasEdge(es, to, from)
  {
    forall i | 0 <= i < |es| ensures !(es[i].from == to && es[i].to == from) {
      assert Mirror(es[i]) in es;
    }
  }

  /** Appending the one edge that `x` was waiting for leaves only the new edge without a mirror. */
  lemma MirrorStep(es: seq<Edge>, from: string, to: string, w: int)
    requires MirroredBut(es, Edge(to, from, w))
    ensures MirroredBut(es + [Edge(from, to, w)], Edge(from, to, w))
  {
    var es' := es + [Edge(from, to, w)];
    forall i | 0 <= i < |es'| ensures Mirror(es'[i]) in es' || es'[i] == Edge(from, to, w) {
      if i < |es| {
        assert es'[i] == es[i];
        if Mirror(es[i]) in es {
          var j :| 0 <= j < |es| && es[j] == Mirror(es[i]);
          assert es'[j] == es[j];
        }
      }
    }
  }

  /** Once the edge `x` that lacked a mirror has one of the same pair, every edge has its mirror. */
  lemma MirrorClosed(es: seq<Edge>, x: Edge)
    requires UniquePairs(es) && MirroredBut(es, x) && x in es && x.from != x.to
    requires HasEdge(es, x.to, x.from)
    ensures Mirrored(es)
  {
    var i :| 0 <= i < |es| && es[i].from == x.to && es[i].to == x.from;
    var k :| 0 <= k < |es| && es[k] == x;
    assert Mirror(es[i]) in es;
    var j :| 0 <= j < |es| && es[j] == Mirror(es[i]);
    assert es[j].from == es[k].from && es[j].to == es[k].to;
    assert j == k;
  }

  /**
   * After the first direction of an undirected `disconnect` removed the edge
   * from `from` to `to`, only its reverse can lack a mirror; if the reverse is
   * absent every edge has its mirror.
   */
  /** In a mirrored store an edge's reverse is present too. */
  lemma MirrorPresent(es: seq<Edge>, from: string, to: string)
    requires Mirrored(es) && HasEdge(es, from, to)
    ensures HasEdge(es, to, from)
  {
    var i :| 0 <= i < |es| && es[i].from == from && es[i].to == to;
    assert Mirror(es[i]) in es;
  }

  /**
   * With one record per pair and both directions present, removing
   * `from -> to` and then `to -> from` takes out exactly two records, and
   * neither direction is left.
   */
  lemma RemoveBoth(es: seq<Edge>, from: string, to: string)
    requires UniquePairs(es)
    requires from != to && HasEdge(es, from, to) && HasEdge(es, to, from)
    ensures |RemoveEdge(RemoveEdge(es, from, to), to, from)| == |es| - 2
    ensures !HasEdge(RemoveEdge(RemoveEdge(es, from, to), to, from), from, to)
    ensures !HasEdge(RemoveEdge(RemoveEdge(es, from, to), to, from), to, from)
  {
    var r := RemoveEdge(es, from, to);
    RemoveEdgeExactly(es, from, to);
    var k := RemoveEdgeShape(es, from, to);
    DropKeeps(es, k);
    RemoveEdgeExactly(r, to, from);
  }

  lemma UnmirrorStep(es: seq<Edge>, from: string, to: string)
    requires UniquePairs(es) && MirroredExceptPair(es, from, to)
    ensures MirroredExceptPair(RemoveEdge(es, from, to), to, from)
    ensures !HasEdge(RemoveEdge(es, from, to), to, from) ==> Mirrored(RemoveEdge(es, from, to))
  {
    var r := RemoveEdge(es, from, to);
    if HasEdge(es, from, to) {
      var k := RemoveEdgeShape(es, from, to);
      DropKeeps(es, k);
      forall j | 0 <= j < |r| ensures Mirror(r[j]) in r || (r[j].from == to && r[j].to == from) {
        DropMirror(es, k, j);
      }
    } else {
      RemoveEdgeAbsent(es, from, to);
    }
    if !HasEdge(r, to, from) {
      forall j | 0 <= j < |r| ensures Mirror(r[j]) in r {
        assert !(r[j].from == to && r[j].to == from);
      }
    }
  }

  /** The mirror of a kept record survives the drop unless it was the dropped record. */
  lemma DropMirror(es: seq<Edge>, k: nat, j: nat)
    requires UniquePairs(es) && k < |es| && j < |es| - 1
    requires MirroredExceptPair(es, es[k].from, es[k].to)
    ensures Mirror(Drop(es, k)[j]) in Drop(es, k) || (Drop(es, k)[j].from == es[k].to && Drop(es, k)[j].to == es[k].from)
  {
    var r := Drop(es, k);
    DropAt(es, k, j);
    var ej := if j < k then j else j + 1;
    var e := es[ej];
    if !(e.from == es[k].to && e.to == es[k].from) {
      assert !(e.from == es[k].from && e.to == es[k].to);
      var m :| 0 <= m < |es| && es[m] == Mirror(e);
      assert m != k;
      var jm := if m < k then m else m - 1;
      DropAt(es, k, jm);
      assert r[jm] == Mirror(e);
    }
  }

  // ---------------------------------------------------------------------------
  // edgesSize is the sum of the vertex degrees

  /** The sum of the out-degrees of all vertices. */
  ghost function DegreeSum(vs: Vertices): nat
    decreases |vs|
  {
    if vs == map[] then 0
    else
      var k :| k in vs;
      assert |(vs - {k}).Keys| < |vs.Keys| by {
        assert vs.Keys == (vs - {k}).Keys + {k};
      }
      |vs[k]| + DegreeSum(vs - {k})
  }

  /** The number of edge records leaving a label in `s`. */
  function CountFrom(es: seq<Edge>, s: set<string>): nat
    decreases |es|
  {
    if es == [] then 0 else (if es[0].from in s then 1 else 0) + CountFrom(es[1..], s)
  }

  lemma {:induction false} CountFromSplit(es: seq<Edge>, s: set<string>, k: string)
    requires k in s
    ensures CountFrom(es, s) == CountFrom(es, s - {k}) + |OutOf(es, k)|
    decreases |es|
  {
    if es != [] {
      CountFromSplit(es[1..], s, k);
    }
  }

  lemma {:induction false} CountFromAll(es: seq<Edge>, s: set<string>)
    requires forall i :: 0 <= i < |es| ==> es[i].from in s
    ensures CountFrom(es, s) == |es|
    decreases |es|
  {
    if es != [] {
      assert forall i :: 0 <= i < |es[1..]| ==> es[1..][i] == es[i + 1];
      CountFromAll(es[1..], s);
    }
  }

  lemma {:induction false} DegreeSumCounts(vs: Vertices, es: seq<Edge>)
    requires forall v :: v in vs ==> vs[v] == OutOf(es, v)
    ensures DegreeSum(vs) == CountFrom(es, vs.Keys)
    decreases |vs|
  {
    if vs != map[] {
      var k :| k in vs && DegreeSum(vs) == |vs[k]| + DegreeSum(vs - {k});
      var rest := vs - {k};
      assert |rest.Keys| < |vs.Keys| by {
        assert vs.Keys == rest.Keys + {k};
      }
      DegreeSumCounts(rest, es);
      CountFromSplit(es, vs.Keys, k);
      assert rest.Keys == vs.Keys - {k};
    } else {
      assert CountFrom(es, {}) == 0 by { CountFromNone(es); }
    }
  }

  lemma {:induction false} CountFromNone(es: seq<Edge>)
    ensures CountFrom(es, {}) == 0
    decreases |es|
  {
    if es != [] { CountFromNone(es[1..]); }
  }

  /** When the adjacency lists agree with the edge list, `edgesSize` is the sum of all vertex degrees. */
  lemma EdgeCountIsDegreeSum(vs: Vertices, es: seq<Edge>)
    requires Agree(vs, es)
    ensures |es| == DegreeSum(vs)
  {
    DegreeSumCounts(vs, es);
    CountFromAll(es, vs.Keys);
  }
}
