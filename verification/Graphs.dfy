/** Directed graphs given by their arcs, paths in them, and the two graph
    searches the checkers rely on. */
module Graphs {

  /** A non-empty sequence of vertices, each joined to the next by an arc. */
  ghost predicate IsPath<T>(arcs: seq<(T, T)>, p: seq<T>) {
    |p| > 0 && forall i, j | 0 <= i < j < |p| && j == i + 1 :: (p[i], p[j]) in arcs
  }

  /** `p` is a path that starts in `a` and ends in `b`. */
  ghost predicate Joins<T>(arcs: seq<(T, T)>, p: seq<T>, a: T, b: T) {
    IsPath(arcs, p) && p[0] == a && p[|p| - 1] == b
  }

  /** Some path, possibly without arcs, leads from `a` to `b`. */
  ghost predicate Reaches<T(!new)>(arcs: seq<(T, T)>, a: T, b: T) {
    exists p :: Joins(arcs, p, a, b)
  }

  /** Some path with at least one arc leads from `a` back to `a`. */
  ghost predicate OnCycle<T(!new)>(arcs: seq<(T, T)>, a: T) {
    exists p :: Joins(arcs, p, a, a) && |p| >= 2
  }

  /** No arc leaves `s`. */
  ghost predicate Closed<T(!new)>(arcs: seq<(T, T)>, s: set<T>) {
    forall a, b | (a, b) in arcs && a in s :: b in s
  }

  function Reversed<T(!new)>(arcs: seq<(T, T)>): (r: seq<(T, T)>)
    ensures |r| == |arcs|
    ensures forall a, b :: (a, b) in r <==> (b, a) in arcs
  {
    var r := seq(|arcs|, i requires 0 <= i < |arcs| => (arcs[i].1, arcs[i].0));
    assert forall a, b :: (a, b) in r ==> (b, a) in arcs;
    assert forall a, b :: (b, a) in arcs ==> (a, b) in r by {
      forall a, b | (b, a) in arcs ensures (a, b) in r {
        var i :| 0 <= i < |arcs| && arcs[i] == (b, a);
        assert r[i] == (a, b);
      }
    }
    r
  }

  // ---- Paths ----------------------------------------------------------------

  lemma ReachesSelf<T(!new)>(arcs: seq<(T, T)>, a: T)
    ensures Reaches(arcs, a, a)
  {
    assert Joins(arcs, [a], a, a);
  }

  lemma JoinPaths<T>(arcs: seq<(T, T)>, p: seq<T>, q: seq<T>, a: T, b: T, c: T)
    requires Joins(arcs, p, a, b) && Joins(arcs, q, b, c)
    ensures Joins(arcs, p + q[1..], a, c)
  {
    var r := p + q[1..];
    forall i, j | 0 <= i < j < |r| && j == i + 1 ensures (r[i], r[j]) in arcs {
      if j < |p| {
        assert r[i] == p[i] && r[j] == p[j];
      } else {
        assert r[j] == q[j - |p| + 1] && r[i] == q[i - |p| + 1];
      }
    }
  }

  lemma ReachesTransitive<T(!new)>(arcs: seq<(T, T)>, a: T, b: T, c: T)
    requires Reaches(arcs, a, b) && Reaches(arcs, b, c)
    ensures Reaches(arcs, a, c)
  {
    var p :| Joins(arcs, p, a, b);
    var q :| Joins(arcs, q, b, c);
    JoinPaths(arcs, p, q, a, b, c);
  }

  lemma ReachesArc<T(!new)>(arcs: seq<(T, T)>, a: T, b: T)
    requires (a, b) in arcs
    ensures Reaches(arcs, a, b)
  {
    assert Joins(arcs, [a, b], a, b);
  }

  lemma SubPath<T>(arcs: seq<(T, T)>, p: seq<T>, lo: nat, hi: nat)
    requires IsPath(arcs, p) && lo < hi <= |p|
    ensures Joins(arcs, p[lo..hi], p[lo], p[hi - 1])
  {
    var q := p[lo..hi];
    assert forall k | 0 <= k < |q| :: q[k] == p[lo + k];
  }

  /** A closed set that holds the start of a path holds all of it. */
  lemma {:induction false} ClosedHoldsPath<T(!new)>(arcs: seq<(T, T)>, s: set<T>, p: seq<T>, i: nat)
    requires Closed(arcs, s) && IsPath(arcs, p) && p[0] in s && i < |p|
    ensures p[i] in s
  {
    if i > 0 {
      ClosedHoldsPath(arcs, s, p, i - 1);
      assert (p[i - 1], p[i]) in arcs;
    }
  }

  lemma ClosedHoldsReachable<T(!new)>(arcs: seq<(T, T)>, s: set<T>, a: T, b: T)
    requires Closed(arcs, s) && a in s && Reaches(arcs, a, b)
    ensures b in s
  {
    var p :| Joins(arcs, p, a, b);
    ClosedHoldsPath(arcs, s, p, |p| - 1);
  }

  lemma ReversedPath<T(!new)>(arcs: seq<(T, T)>, p: seq<T>, a: T, b: T) returns (q: seq<T>)
    requires Joins(arcs, p, a, b)
    ensures Joins(Reversed(arcs), q, b, a) && |q| == |p|
  {
    q := seq(|p|, i requires 0 <= i < |p| => p[|p| - 1 - i]);
    forall i, j | 0 <= i < j < |q| && j == i + 1 ensures (q[i], q[j]) in Reversed(arcs) {
      assert (p[|p| - 1 - j], p[|p| - 1 - i]) in arcs;
    }
  }

  lemma ReversedReaches<T(!new)>(arcs: seq<(T, T)>, a: T, b: T)
    ensures Reaches(Reversed(arcs), b, a) <==> Reaches(arcs, a, b)
  {
    if Reaches(arcs, a, b) {
      var p :| Joins(arcs, p, a, b);
      var q := ReversedPath(arcs, p, a, b);
    }
    if Reaches(Reversed(arcs), b, a) {
      var p :| Joins(Reversed(arcs), p, b, a);
      var q := ReversedPath(Reversed(arcs), p, b, a);
      assert Reversed(Reversed(arcs)) == arcs;
    }
  }

  /** A vertex lies on a cycle exactly when it has a self-loop or shares its
      strongly connected component with another vertex. */
  lemma CycleIffComponentOrLoop<T(!new)>(arcs: seq<(T, T)>, a: T)
    ensures OnCycle(arcs, a) <==>
            (a, a) in arcs || exists b :: b != a && Reaches(arcs, a, b) && Reaches(arcs, b, a)
  {
    if OnCycle(arcs, a) && (a, a) !in arcs {
      var p :| Joins(arcs, p, a, a) && |p| >= 2;
      var b := p[1];
      assert (p[0], p[1]) in arcs;
      SubPath(arcs, p, 0, 2);
      SubPath(arcs, p, 1, |p|);
      assert b != a && Reaches(arcs, a, b) && Reaches(arcs, b, a);
    }
    if (a, a) in arcs {
      assert Joins(arcs, [a, a], a, a);
    }
    if b :| b != a && Reaches(arcs, a, b) && Reaches(arcs, b, a) {
      var p :| Joins(arcs, p, a, b);
      var q :| Joins(arcs, q, b, a);
      JoinPaths(arcs, p, q, a, b, a);
      assert |p + q[1..]| >= 2;
    }
  }

  /** A cycle through a vertex is one through its successor on it. */
  lemma RotateCycle<T(!new)>(arcs: seq<(T, T)>, p: seq<T>, a: T)
    requires Joins(arcs, p, a, a) && |p| >= 2
    ensures (a, p[1]) in arcs && OnCycle(arcs, p[1])
  {
    assert (p[0], p[1]) in arcs;
    SubPath(arcs, p, 1, |p|);
    SubPath(arcs, p, 0, 2);
    JoinPaths(arcs, p[1..], p[0..2], p[1], a, p[1]);
    assert |p[1..] + p[0..2][1..]| >= 2;
  }

  /** Cycles can be driven round any number of times. */
  lemma {:induction false} RepeatCycle<T(!new)>(arcs: seq<(T, T)>, a: T, k: nat) returns (p: seq<T>)
    requires OnCycle(arcs, a)
    ensures Joins(arcs, p, a, a)
    ensures multiset(p)[a] > k
  {
    if k == 0 {
      p := [a];
    } else {
      var q := RepeatCycle(arcs, a, k - 1);
      var c :| Joins(arcs, c, a, a) && |c| >= 2;
      JoinPaths(arcs, q, c, a, a, a);
      p := q + c[1..];
      assert a in c[1..] by { assert c[1..][|c| - 2] == a; }
      assert multiset(p) == multiset(q) + multiset(c[1..]);
    }
  }

  // ---- Worklists ------------------------------------------------------------

  function Elements<T>(s: seq<T>): set<T> {
    set x | x in s
  }

  lemma ElementsConcat<T>(a: seq<T>, b: seq<T>)
    ensures Elements(a + b) == Elements(a) + Elements(b)
  {}

  lemma ElementsPop<T>(s: seq<T>)
    requires s != []
    ensures Elements(s) == Elements(s[..|s| - 1]) + {s[|s| - 1]}
  {
    assert s == s[..|s| - 1] + [s[|s| - 1]];
    ElementsConcat(s[..|s| - 1], [s[|s| - 1]]);
  }

  /** Every arc that leaves an expanded vertex leads to a known one. */
  ghost predicate Expanded<T(!new)>(arcs: seq<(T, T)>, expanded: set<T>, known: set<T>) {
    forall x, y | (x, y) in arcs && x in expanded :: y in known
  }

  lemma ExpandOne<T(!new)>(arcs: seq<(T, T)>, expanded: set<T>, known: set<T>, n: T, more: set<T>)
    requires Expanded(arcs, expanded, known) && forall y | (n, y) in arcs :: y in more
    ensures Expanded(arcs, expanded + {n}, known + more)
  {}

  /** Once nothing known is left to expand, everything reachable is known. */
  lemma ExpandedHoldsReachable<T(!new)>(arcs: seq<(T, T)>, expanded: set<T>, a: T, b: T)
    requires Expanded(arcs, expanded, expanded) && a in expanded && Reaches(arcs, a, b)
    ensures b in expanded
  {
    assert Closed(arcs, expanded);
    ClosedHoldsReachable(arcs, expanded, a, b);
  }

  // ---- Searches -------------------------------------------------------------

  /** Every vertex at the end of an arc. */
  function Heads<T>(arcs: seq<(T, T)>): set<T> {
    set k | 0 <= k < |arcs| :: arcs[k].1
  }

  /** Breadth-first search with a first-in first-out worklist. It yields the
      start even when no arc mentions it. */
  method Bfs<T(==,!new)>(arcs: seq<(T, T)>, start: T) returns (seen: set<T>)
    ensures forall x :: x in seen <==> Reaches(arcs, start, x)
  {
    seen := {start};
    var queue := [start];
    ReachesSelf(arcs, start);
    while queue != []
      invariant start in seen && seen <= Heads(arcs) + {start}
      invariant forall x | x in queue :: x in seen
      invariant forall x | x in seen :: Reaches(arcs, start, x)
      invariant forall a, b | (a, b) in arcs && a in seen && a !in queue :: b in seen
      decreases Heads(arcs) + {start} - seen, |queue|
    {
      var node := queue[0];
      ghost var seen0, rest := seen, queue[1..];
      queue := queue[1..];
      for k := 0 to |arcs|
        invariant seen0 <= seen <= Heads(arcs) + {start}
        invariant |queue| >= |rest| && queue[..|rest|] == rest
        invariant seen == seen0 ==> queue == rest
        invariant forall x | x in queue :: x in seen
        invariant forall x | x in seen && x !in seen0 :: x in queue
        invariant forall x | x in seen :: Reaches(arcs, start, x)
        invariant forall i | 0 <= i < k && arcs[i].0 == node :: arcs[i].1 in seen
      {
        var (a, b) := arcs[k];
        if a == node && b !in seen {
          assert (node, b) in arcs;
          ReachesArc(arcs, node, b);
          ReachesTransitive(arcs, start, node, b);
          seen, queue := seen + {b}, queue + [b];
        }
      }
      assert forall x | x in rest :: x in queue by {
        forall x | x in rest ensures x in queue {
          var i :| 0 <= i < |rest| && rest[i] == x;
          assert queue[..|rest|][i] == x;
        }
      }
    }
    forall x | Reaches(arcs, start, x) ensures x in seen {
      ClosedHoldsReachable(arcs, seen, start, x);
    }
  }

  /** Whether the strongly connected component of `a` has more than one vertex:
      what `a` reaches meets what reaches `a` outside `a` itself. */
  method SharesComponent<T(==,!new)>(arcs: seq<(T, T)>, a: T) returns (shared: bool)
    ensures shared <==> exists b :: b != a && Reaches(arcs, a, b) && Reaches(arcs, b, a)
  {
    var forward := Bfs(arcs, a);
    var backward := Bfs(Reversed(arcs), a);
    forall x ensures x in backward <==> Reaches(arcs, x, a) {
      ReversedReaches(arcs, x, a);
    }
    var component := forward * backward;
    shared := component != {a};
    ReachesSelf(arcs, a);
    assert forall x :: x in component <==> Reaches(arcs, a, x) && Reaches(arcs, x, a);
    assert a in component;
    if shared {
      var b :| b in component && b != a;
    }
  }
}
