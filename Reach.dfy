/**
 * Which vertices a traversal that starts at `s` can mark when the vertices
 * in `seen` are already marked: those at the end of a walk from `s` whose
 * every later vertex is still unmarked.
 */
module Reach {
  import opened Adjacency
  import opened Listing

  /** `p` follows adjacency entries from its first label to its last. */
  ghost predicate Walk(vs: Vertices, p: seq<string>)
  {
    |p| > 0 &&
    forall i :: 0 <= i < |p| - 1 ==> p[i] in vs && p[i + 1] in Targets(vs[p[i]])
  }

  /** No label after the first one of `p` is in `seen`. */
  ghost predicate Avoids(p: seq<string>, seen: set<string>)
  {
    forall i :: 1 <= i < |p| ==> p[i] !in seen
  }

  /** `v` can be reached from `s` through vertices outside `seen` (`s` itself may be in `seen`). */
  ghost predicate ReachableAvoiding(vs: Vertices, seen: set<string>, s: string, v: string)
  {
    exists p :: Walk(vs, p) && p[0] == s && p[|p| - 1] == v && Avoids(p, seen)
  }

  /** Every neighbour of `v` is in `marked`. */
  ghost predicate ClosedIn(vs: Vertices, marked: set<string>, v: string)
  {
    v in vs && Targets(vs[v]) <= marked
  }

  lemma ReachSelf(vs: Vertices, seen: set<string>, s: string)
    ensures ReachableAvoiding(vs, seen, s, s)
  {
    assert Walk(vs, [s]);
  }

  /**
   * A walk that a nested traversal from the unmarked neighbour `n` of `s`
   * takes, avoiding the then-marked set, extends to a walk from `s` that
   * avoids the set marked when the outer traversal began.
   */
  lemma ReachExtend(vs: Vertices, seen: set<string>, now: set<string>, s: string, n: string, v: string)
    requires seen <= now && n !in now
    requires s in vs && n in Targets(vs[s])
    requires ReachableAvoiding(vs, now, n, v)
    ensures ReachableAvoiding(vs, seen, s, v)
  {
    var p :| Walk(vs, p) && p[0] == n && p[|p| - 1] == v && Avoids(p, now);
    var q := [s] + p;
    assert forall i :: 1 <= i < |q| ==> q[i] == p[i - 1];
    assert Walk(vs, q);
  }

  /**
   * If the starting point and every newly marked vertex have all their
   * neighbours marked, every vertex reachable through unmarked vertices was
   * marked.
   */
  lemma ReachComplete(vs: Vertices, seen: set<string>, marked: set<string>, s: string, v: string)
    requires s in marked
    requires forall u :: u in marked && (u !in seen || u == s) ==> ClosedIn(vs, marked, u)
    requires ReachableAvoiding(vs, seen, s, v)
    ensures v in marked
  {
    var p :| Walk(vs, p) && p[0] == s && p[|p| - 1] == v && Avoids(p, seen);
    WalkMarked(vs, seen, marked, p, |p| - 1);
  }

  lemma {:induction false} WalkMarked(vs: Vertices, seen: set<string>, marked: set<string>, p: seq<string>, k: nat)
    requires Walk(vs, p) && Avoids(p, seen) && k < |p| && p[0] in marked
    requires forall u :: u in marked && (u !in seen || u == p[0]) ==> ClosedIn(vs, marked, u)
    ensures p[k] in marked
    decreases k
  {
    if k > 0 {
      WalkMarked(vs, seen, marked, p, k - 1);
      assert ClosedIn(vs, marked, p[k - 1]);
      assert p[k] in Targets(vs[p[k - 1]]);
    }
  }

  /**
   * The vertices a walk from `s` through vertices outside `seen` reaches in
   * one step are `s`'s neighbours that are outside `seen`.
   */
  lemma OneStep(vs: Vertices, seen: set<string>, s: string, n: string)
    requires s in vs && n in Targets(vs[s]) && n !in seen
    ensures ReachableAvoiding(vs, seen, s, n)
  {
    assert Walk(vs, [s, n]);
  }

  /** A vertex is two steps away from `s` and not one: what breadth-first search as written misses. */
  lemma TwoSteps(vs: Vertices, seen: set<string>, s: string, m: string, n: string)
    requires s in vs && m in Targets(vs[s]) && m !in seen
    requires m in vs && n in Targets(vs[m]) && n !in seen
    ensures ReachableAvoiding(vs, seen, s, n)
  {
    assert Walk(vs, [s, m, n]);
  }

  /** A walk that reaches `u` extends by one step to an unmarked neighbour of `u`. */
  lemma ReachStep(vs: Vertices, seen: set<string>, s: string, u: string, n: string)
    requires ReachableAvoiding(vs, seen, s, u)
    requires u in vs && n in Targets(vs[u]) && n !in seen
    ensures ReachableAvoiding(vs, seen, s, n)
  {
    var p :| Walk(vs, p) && p[0] == s && p[|p| - 1] == u && Avoids(p, seen);
    var q := p + [n];
    assert forall i :: 0 <= i < |p| ==> q[i] == p[i];
    assert Walk(vs, q);
  }

  /**
   * What a depth-first traversal from `s` knows about the vertices it has
   * added to `seen` so far (`marked`): each is reachable from `s` avoiding
   * `seen`, and each except `s` has all its neighbours marked.
   */
  ghost predicate Explored(vs: Vertices, seen: set<string>, s: string, marked: set<string>)
  {
    forall v :: v in marked && v !in seen ==>
      ReachableAvoiding(vs, seen, s, v) && (v != s ==> ClosedIn(vs, marked, v))
  }

  /**
   * A nested traversal from the unmarked neighbour `n` of `s`, which took
   * the marks from `before` to `after` as its contract says, keeps
   * `Explored` for the outer traversal.
   */
  lemma ExploredAfterVisit(vs: Vertices, seen: set<string>, before: set<string>, after: set<string>, s: string, n: string)
    requires seen <= before && s in before && n !in before && before <= after
    requires s in vs && n in Targets(vs[s])
    requires Explored(vs, seen, s, before)
    requires forall v :: v in after && (v !in before || v == n) ==> ClosedIn(vs, after, v)
    requires forall v :: v in after <==> v in before || ReachableAvoiding(vs, before, n, v)
    ensures Explored(vs, seen, s, after)
  {
    forall v | v in after && v !in seen
      ensures ReachableAvoiding(vs, seen, s, v) && (v != s ==> ClosedIn(vs, after, v))
    {
      if v in before {
        assert ReachableAvoiding(vs, seen, s, v);
        if v != s {
          assert ClosedIn(vs, before, v);
        }
      } else {
        ReachExtend(vs, seen, before, s, n, v);
      }
    }
  }

  /**
   * The state of a breadth-first traversal from `s` that began with `seen`
   * marked: queued vertices are marked, known and new (or `s`); every newly
   * marked vertex is reachable; every newly marked vertex and `s` is either
   * finished (`done`, all its neighbours marked) or still queued.
   */
  ghost predicate Frontier(vs: Vertices, seen: set<string>, s: string, marked: set<string>, done: set<string>, q: seq<string>)
  {
    (forall u :: u in q ==> u in marked && u in vs && (u == s || u !in seen)) &&
    (forall v :: v in marked && v !in seen ==> ReachableAvoiding(vs, seen, s, v)) &&
    (forall v :: v in marked && (v !in seen || v == s) ==> v in done || v in q) &&
    (forall v :: v in done ==> ClosedIn(vs, marked, v))
  }

  /** Dequeuing `q[0]`, marking its unmarked neighbours and queuing them keeps `Frontier`. */
  lemma FrontierStep(vs: Vertices, seen: set<string>, s: string, marked: set<string>, done: set<string>, q: seq<string>,
                     marked': set<string>, added: seq<string>)
    requires q != [] && seen <= marked && Frontier(vs, seen, s, marked, done, q)
    requires q[0] in vs && Targets(vs[q[0]]) <= vs.Keys
    requires marked' == marked + Targets(vs[q[0]])
    requires forall x :: x in added <==> x in Targets(vs[q[0]]) && x !in marked
    ensures Frontier(vs, seen, s, marked', done + {q[0]}, q[1..] + added)
  {
    var u := q[0];
    var q' := q[1..] + added;
    assert forall x :: x in q ==> x == u || x in q[1..] by {
      forall x | x in q ensures x == u || x in q[1..] {
        var k :| 0 <= k < |q| && q[k] == x;
        if k > 0 { assert q[1..][k - 1] == x; }
      }
    }
    assert ReachableAvoiding(vs, seen, s, u) by {
      if u == s { ReachSelf(vs, seen, s); }
    }
    forall v | v in marked' && v !in seen ensures ReachableAvoiding(vs, seen, s, v) {
      if v !in marked {
        ReachStep(vs, seen, s, u, v);
      }
    }
    forall x | x in q' ensures x in marked' && x in vs && (x == s || x !in seen) {
      if x !in q[1..] {
        assert x in added;
      }
    }
    forall v | v in marked' && (v !in seen || v == s) ensures v in done + {u} || v in q' {
      if v !in marked {
        assert v in added;
      }
    }
  }

  /** With nothing left in the queue, every vertex reachable from `s` avoiding `seen` is marked. */
  lemma FrontierComplete(vs: Vertices, seen: set<string>, s: string, marked: set<string>, done: set<string>)
    requires s in marked && Frontier(vs, seen, s, marked, done, [])
    ensures forall v :: ReachableAvoiding(vs, seen, s, v) ==> v in marked
  {
    forall v | ReachableAvoiding(vs, seen, s, v) ensures v in marked {
      ReachComplete(vs, seen, marked, s, v);
    }
  }
}
