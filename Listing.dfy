/**
 * What `getEdgesAsString` returns for a known vertex: one `label(weight)`
 * entry per neighbour, in ascending label order, joined by commas.
 */
module Listing {
  import opened Ordering
  import opened Format
  import opened Adjacency

  /**
   * The label-to-weight table that the first loop of `getEdgesAsString`
   * fills in: entries are inserted in adjacency order, so a later entry for
   * the same label replaces an earlier one.
   */
  function Weights(ns: seq<Neighbour>): (r: map<string, int>)
    ensures ns != [] ==> ns[|ns| - 1].target in r && r[ns[|ns| - 1].target] == ns[|ns| - 1].weight
    decreases |ns|
  {
    if ns == [] then map[]
    else Weights(ns[..|ns| - 1])[ns[|ns| - 1].target := ns[|ns| - 1].weight]
  }

  /** One rendered entry, `label(weight)`. */
  function Entry(name: string, weight: int): (s: string)
    ensures |s| > 0
  {
    name + "(" + IntToString(weight) + ")"
  }

  /** The label-to-text table of `getEdgesAsString`: each label's entry followed by a comma. */
  function EntryTexts(w: map<string, int>): (z: map<string, string>)
    ensures z.Keys == w.Keys
  {
    map k | k in w :: Entry(k, w[k]) + ","
  }

  /** The entries for the labels `ks`, in that order, with the weights of `w`. */
  function Entries(ks: seq<string>, w: map<string, int>): (r: seq<string>)
    requires forall i :: 0 <= i < |ks| ==> ks[i] in w
    ensures |r| == |ks|
  {
    seq(|ks|, i requires 0 <= i < |ks| => Entry(ks[i], w[ks[i]]))
  }


  /** The entries of a label-to-weight table in ascending label order, joined by commas. */
  ghost function Rendered(w: map<string, int>): string
  {
    AscendingSpec(w.Keys);
    JoinComma(Entries(Ascending(w.Keys), w))
  }

  /** The text `getEdgesAsString` gives for a vertex with adjacency `ns`; empty exactly when `ns` is. */
  ghost function ListingOf(ns: seq<Neighbour>): (r: string)
    ensures r == "" <==> ns == []
  {
    RenderedEmpty(ns);
    Rendered(Weights(ns))
  }

  /** The labels that occur in an adjacency list. */
  function Targets(ns: seq<Neighbour>): set<string>
  {
    set i | 0 <= i < |ns| :: ns[i].target
  }

  /**
   * The table holds exactly the labels of the adjacency; when no label occurs
   * twice it maps each neighbour to the weight of its edge.
   */
  lemma {:induction false} WeightsOf(ns: seq<Neighbour>)
    ensures Weights(ns).Keys == Targets(ns)
    ensures DistinctLabels(ns) ==> forall i :: 0 <= i < |ns| ==> Weights(ns)[ns[i].target] == ns[i].weight
    decreases |ns|
  {
    if ns != [] {
      var init := ns[..|ns| - 1];
      var last := ns[|ns| - 1];
      WeightsOf(init);
      TargetsSnoc(ns);
      if DistinctLabels(ns) {
        DistinctInit(ns);
        forall i | 0 <= i < |ns| ensures Weights(ns)[ns[i].target] == ns[i].weight {
          if i < |ns| - 1 {
            assert init[i] == ns[i];
            assert ns[i].target != last.target;
          }
        }
      }
    }
  }

  /** The labels of a non-empty adjacency: those of all but its last entry, and the last entry's. */
  lemma TargetsSnoc(ns: seq<Neighbour>)
    requires ns != []
    ensures Targets(ns) == Targets(ns[..|ns| - 1]) + {ns[|ns| - 1].target}
  {
    var init := ns[..|ns| - 1];
    forall x ensures x in Targets(ns) <==> x in Targets(init) + {ns[|ns| - 1].target} {
      if x in Targets(ns) {
        var i :| 0 <= i < |ns| && ns[i].target == x;
        if i < |ns| - 1 { assert init[i] == ns[i]; }
      }
      if x in Targets(init) {
        var i :| 0 <= i < |init| && init[i].target == x;
        assert ns[i] == init[i];
      }
    }
  }

  /** Dropping the last entry keeps labels distinct. */
  lemma DistinctInit(ns: seq<Neighbour>)
    requires ns != [] && DistinctLabels(ns)
    ensures DistinctLabels(ns[..|ns| - 1])
  {
    var init := ns[..|ns| - 1];
    forall i, j | 0 <= i < j < |init| ensures init[i].target != init[j].target {
      assert init[i] == ns[i] && init[j] == ns[j];
    }
  }

  /** There is nothing to list exactly when the vertex has no out-edges. */
  lemma RenderedEmpty(ns: seq<Neighbour>)
    ensures Rendered(Weights(ns)) == "" <==> ns == []
  {
    var w := Weights(ns);
    WeightsOf(ns);
    AscendingSpec(w.Keys);
    var es := Entries(Ascending(w.Keys), w);
    JoinCommaEmpty(es);
    if ns != [] {
      assert ns[0].target in Targets(ns);
      assert |Ascending(w.Keys)| > 0;
    }
  }

  /**
   * Insertion order does not matter: two adjacency lists without repeated
   * labels that hold the same entries render to the same text.
   */
  lemma ListingIgnoresOrder(ns: seq<Neighbour>, ms: seq<Neighbour>)
    requires DistinctLabels(ns) && DistinctLabels(ms)
    requires forall n :: n in ns <==> n in ms
    ensures ListingOf(ns) == ListingOf(ms)
  {
    WeightsOf(ns);
    WeightsOf(ms);
    var wn, wm := Weights(ns), Weights(ms);
    assert wn.Keys == wm.Keys by {
      forall x | x in Targets(ns) ensures x in Targets(ms) {
        var i :| 0 <= i < |ns| && ns[i].target == x;
        assert ns[i] in ms;
      }
      forall x | x in Targets(ms) ensures x in Targets(ns) {
        var i :| 0 <= i < |ms| && ms[i].target == x;
        assert ms[i] in ns;
      }
    }
    forall x | x in wn ensures wn[x] == wm[x] {
      var i :| 0 <= i < |ns| && ns[i].target == x;
      assert ns[i] in ms;
      var j :| 0 <= j < |ms| && ms[j] == ns[i];
    }
    assert wn == wm;
  }

  /**
   * The listing spelled out: for labels `ks` in strictly ascending order,
   * covering exactly the neighbours, with each neighbour's weight, the text
   * is their entries joined by commas.
   */
  lemma ListingIs(ns: seq<Neighbour>, ks: seq<string>, w: map<string, int>)
    requires Increasing(ks)
    requires forall k :: k in ks <==> k in Targets(ns)
    requires DistinctLabels(ns)
    requires forall i :: 0 <= i < |ns| ==> ns[i].target in w && w[ns[i].target] == ns[i].weight
    ensures forall i :: 0 <= i < |ks| ==> ks[i] in w
    ensures ListingOf(ns) == JoinComma(Entries(ks, w))
  {
    WeightsOf(ns);
    var t := Weights(ns);
    AscendingUnique(t.Keys, ks);
    forall i | 0 <= i < |ks| ensures ks[i] in w && ks[i] in t && w[ks[i]] == t[ks[i]] {
      assert ks[i] in Targets(ns);
      var j :| 0 <= j < |ns| && ns[j].target == ks[i];
    }
    EntriesAgree(ks, w, t);
  }

  lemma EntriesAgree(ks: seq<string>, w: map<string, int>, t: map<string, int>)
    requires forall i :: 0 <= i < |ks| ==> ks[i] in w && ks[i] in t && w[ks[i]] == t[ks[i]]
    ensures Entries(ks, w) == Entries(ks, t)
  {
  }
}
