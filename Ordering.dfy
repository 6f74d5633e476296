/**
 * The order in which a `std::map<string, _>` enumerates its keys: the
 * lexicographic order of `std::string`, character by character, a proper
 * prefix coming first. Labels are Dafny strings here, so characters compare
 * by code point.
 */
module Ordering {

  /** `a` sorts strictly before `b`. */
  predicate Less(a: string, b: string): (r: bool)
    ensures |a| < |b| && a == b[..|a|] ==> r
    decreases |a|
  {
    |b| > 0 && (|a| == 0 || a[0] < b[0] || (a[0] == b[0] && Less(a[1..], b[1..])))
  }

  lemma {:induction false} LessIrreflexive(a: string)
    ensures !Less(a, a)
    decreases |a|
  {
    if |a| > 0 {
      LessIrreflexive(a[1..]);
    }
  }

  lemma {:induction false} LessAsymmetric(a: string, b: string)
    requires Less(a, b)
    ensures !Less(b, a)
    decreases |a|
  {
    if |a| > 0 && a[0] == b[0] {
      LessAsymmetric(a[1..], b[1..]);
    }
  }

  lemma {:induction false} LessTransitive(a: string, b: string, c: string)
    requires Less(a, b) && Less(b, c)
    ensures Less(a, c)
    decreases |a|
  {
    if |a| > 0 && a[0] == b[0] && b[0] == c[0] {
      LessTransitive(a[1..], b[1..], c[1..]);
    }
  }

  lemma {:induction false} LessTotal(a: string, b: string)
    ensures a == b || Less(a, b) || Less(b, a)
    decreases |a|
  {
    if |a| > 0 && |b| > 0 && a[0] == b[0] {
      LessTotal(a[1..], b[1..]);
      if a[1..] == b[1..] {
        assert a == [a[0]] + a[1..] && b == [b[0]] + b[1..];
      }
    }
  }

  /** `m` is the smallest element of `s`. */
  ghost predicate IsLeast(m: string, s: set<string>)
  {
    m in s && forall x :: x in s && x != m ==> Less(m, x)
  }

  lemma {:induction false} LeastExists(s: set<string>)
    requires s != {}
    ensures exists m :: IsLeast(m, s)
    decreases |s|
  {
    var y :| y in s;
    if s != {y} {
      var rest := s - {y};
      LeastExists(rest);
      var m :| IsLeast(m, rest);
      LessTotal(y, m);
      if Less(y, m) {
        forall x | x in s && x != y ensures Less(y, x) {
          if x != m { LessTransitive(y, m, x); }
        }
        assert IsLeast(y, s);
      } else {
        assert IsLeast(m, s);
      }
    } else {
      assert IsLeast(y, s);
    }
  }

  lemma LeastUnique(m: string, n: string, s: set<string>)
    requires IsLeast(m, s) && IsLeast(n, s)
    ensures m == n
  {
    if m != n {
      LessAsymmetric(m, n);
    }
  }

  /** The smallest key of a non-empty key set: where an in-order walk of a `std::map` goes next. */
  ghost function Least(s: set<string>): (m: string)
    requires s != {}
    ensures IsLeast(m, s)
  {
    LeastExists(s);
    var m :| IsLeast(m, s);
    m
  }

  /** Strictly increasing, hence also free of repetitions. */
  ghost predicate Increasing(ks: seq<string>)
  {
    forall i, j :: 0 <= i < j < |ks| ==> Less(ks[i], ks[j])
  }

  /** The keys of `s` in the order an in-order walk of a `std::map` visits them. */
  ghost function Ascending(s: set<string>): (r: seq<string>)
    ensures |r| == |s|
    decreases |s|
  {
    if s == {} then []
    else
      var m := Least(s);
      [m] + Ascending(s - {m})
  }

  /** The walk visits every key exactly once, in strictly increasing order. */
  lemma {:induction false} AscendingSpec(s: set<string>)
    ensures |Ascending(s)| == |s|
    ensures forall k :: k in Ascending(s) <==> k in s
    ensures Increasing(Ascending(s))
    decreases |s|
  {
    if s != {} {
      var m := Least(s);
      var rest := Ascending(s - {m});
      AscendingSpec(s - {m});
      var ks := [m] + rest;
      assert Ascending(s) == ks;
      forall k ensures k in ks <==> k in s {
        assert k in ks <==> k == m || k in rest;
      }
      forall k | 0 <= k < |rest| ensures Less(m, rest[k]) {
        assert rest[k] in s - {m};
      }
      ConsIncreasing(m, rest);
    }
  }

  /** A key below every key of an increasing sequence can go in front of it. */
  lemma ConsIncreasing(m: string, rest: seq<string>)
    requires Increasing(rest)
    requires forall k :: 0 <= k < |rest| ==> Less(m, rest[k])
    ensures Increasing([m] + rest)
  {
    var ks := [m] + rest;
    forall i, j | 0 <= i < j < |ks| ensures Less(ks[i], ks[j]) {
      assert ks[j] == rest[j - 1];
      if i > 0 {
        assert ks[i] == rest[i - 1];
      }
    }
  }

  /**
   * A strictly increasing sequence holding exactly the elements of `s` is
   * `Ascending(s)`: the enumeration order is determined by the key set alone.
   */
  lemma {:induction false} AscendingUnique(s: set<string>, ks: seq<string>)
    requires Increasing(ks)
    requires forall k :: k in ks <==> k in s
    ensures Ascending(s) == ks
    decreases |ks|
  {
    if ks == [] {
      assert s == {};
    } else {
      HeadIsLeast(s, ks);
      var m := Least(s);
      LeastUnique(m, ks[0], s);
      TailAscends(s, ks);
      AscendingUnique(s - {m}, ks[1..]);
      assert Ascending(s) == [m] + Ascending(s - {m});
      assert ks == [ks[0]] + ks[1..];
    }
  }

  /** The head of a strictly increasing listing of `s` is the least key of `s`. */
  lemma HeadIsLeast(s: set<string>, ks: seq<string>)
    requires ks != [] && Increasing(ks)
    requires forall k :: k in ks <==> k in s
    ensures IsLeast(ks[0], s)
  {
    assert ks[0] in s;
    forall x | x in s && x != ks[0] ensures Less(ks[0], x) {
      assert x in ks;
      var j :| 0 <= j < |ks| && ks[j] == x;
    }
  }

  /** Without its head, a strictly increasing listing of `s` lists the rest of `s`, still increasing. */
  lemma TailAscends(s: set<string>, ks: seq<string>)
    requires ks != [] && Increasing(ks)
    requires forall k :: k in ks <==> k in s
    ensures Increasing(ks[1..])
    ensures forall k :: k in ks[1..] <==> k in s - {ks[0]}
  {
    var tail := ks[1..];
    forall i, j | 0 <= i < j < |tail| ensures Less(tail[i], tail[j]) {
      assert tail[i] == ks[i + 1] && tail[j] == ks[j + 1];
    }
    forall k ensures k in tail <==> k in s - {ks[0]} {
      if k in tail {
        var j :| 0 <= j < |tail| && tail[j] == k;
        assert k == ks[j + 1];
        assert Less(ks[0], ks[j + 1]);
        LessIrreflexive(k);
      }
      if k in s - {ks[0]} {
        assert k in ks;
        var j :| 0 <= j < |ks| && ks[j] == k;
        assert j != 0;
        assert tail[j - 1] == k;
      }
    }
  }

  /** An in-order walk starts at the least key and goes on with the others. */
  lemma AscendingFirst(s: set<string>, m: string)
    requires IsLeast(m, s)
    ensures Ascending(s) == [m] + Ascending(s - {m})
  {
    LeastUnique(m, Least(s), s);
  }

  /** One step of an in-order walk: the least remaining key moves to the visited prefix. */
  lemma AscendingStep(all: set<string>, done: seq<string>, rest: set<string>, m: string)
    requires Ascending(all) == done + Ascending(rest)
    requires IsLeast(m, rest)
    ensures Ascending(all) == (done + [m]) + Ascending(rest - {m})
  {
    AscendingFirst(rest, m);
  }
}
