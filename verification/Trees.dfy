/** Ordered trees and their pre-order traversal. */
module Trees {
  datatype Tree<T> = Node(value: T, children: seq<Tree<T>>)

  function Leaf<T>(value: T): Tree<T> {
    Node(value, [])
  }

  // ---- Pre-order ------------------------------------------------------------

  /** For every node in pre-order, the labels from the root to that node, each
      behind `prefix`. */
  function Trail<T>(prefix: seq<T>, t: Tree<T>): seq<seq<T>>
    decreases t, 1
  {
    [prefix + [t.value]] + Trails(prefix + [t.value], t.children)
  }

  function Trails<T>(prefix: seq<T>, ts: seq<Tree<T>>): seq<seq<T>>
    decreases ts, 0
  {
    if ts == [] then [] else Trail(prefix, ts[0]) + Trails(prefix, ts[1..])
  }

  lemma {:induction false} TrailsAppend<T>(prefix: seq<T>, ts: seq<Tree<T>>, us: seq<Tree<T>>)
    ensures Trails(prefix, ts + us) == Trails(prefix, ts) + Trails(prefix, us)
  {
    if ts == [] {
      assert ts + us == us;
    } else {
      assert (ts + us)[1..] == ts[1..] + us;
      TrailsAppend(prefix, ts[1..], us);
    }
  }

  lemma TrailsSnoc<T>(prefix: seq<T>, ts: seq<Tree<T>>, t: Tree<T>)
    ensures Trails(prefix, ts + [t]) == Trails(prefix, ts) + Trail(prefix, t)
  {
    TrailsAppend(prefix, ts, [t]);
    assert Trails(prefix, [t]) == Trail(prefix, t) + Trails(prefix, []);
  }

  lemma TrailsNext<T>(base: seq<seq<T>>, prefix: seq<T>, ts: seq<Tree<T>>, i: nat)
    requires i < |ts|
    ensures base + Trails(prefix, ts[..i]) + Trail(prefix, ts[i]) == base + Trails(prefix, ts[..i + 1])
  {
    assert ts[..i + 1] == ts[..i] + [ts[i]];
    TrailsSnoc(prefix, ts[..i], ts[i]);
  }

  /** A node's trail, assembled behind `base` from its own visit, its first child
      and its other children. */
  lemma TrailOfNode<T>(base: seq<seq<T>>, prefix: seq<T>, value: T, first: Tree<T>, rest: seq<Tree<T>>)
    ensures base + [prefix + [value]] + Trail(prefix + [value], first) + Trails(prefix + [value], rest)
         == base + Trail(prefix, Node(value, [first] + rest))
  {
    var here := prefix + [value];
    TrailsAppend(here, [first], rest);
    TrailsSnoc(here, [], first);
    assert [] + [first] == [first];
  }

  // ---- Positions ------------------------------------------------------------

  /** A node's position: the child index taken at every level from the root. */
  type Position = seq<nat>

  predicate HasPosition<T>(t: Tree<T>, p: Position)
    decreases t
  {
    p == [] || (p[0] < |t.children| && HasPosition(t.children[p[0]], p[1..]))
  }

  /** The labels from the root to the node at position `p`. */
  function LabelsTo<T>(t: Tree<T>, p: Position): seq<T>
    requires HasPosition(t, p)
    decreases t
  {
    [t.value] + if p == [] then [] else LabelsTo(t.children[p[0]], p[1..])
  }

  /** All positions of a tree, in the same order as `Trail`. */
  function Positions<T>(t: Tree<T>): seq<Position>
    decreases t, 1
  {
    [[]] + ChildPositions(t.children, 0)
  }

  function ChildPositions<T>(ts: seq<Tree<T>>, first: nat): seq<Position>
    decreases ts, 0
  {
    if ts == [] then [] else Under(first, Positions(ts[0])) + ChildPositions(ts[1..], first + 1)
  }

  function Under(k: nat, ps: seq<Position>): (r: seq<Position>)
    ensures |r| == |ps| && forall i | 0 <= i < |r| :: r[i] == [k] + ps[i]
  {
    seq(|ps|, i requires 0 <= i < |ps| => [k] + ps[i])
  }

  /** Document order: a node precedes its descendants and whatever lies under its
      later siblings. */
  predicate Precedes(p: Position, q: Position) {
    q != [] && (p == [] || p[0] < q[0] || (p[0] == q[0] && Precedes(p[1..], q[1..])))
  }

  lemma {:induction false} PrecedesIrreflexive(p: Position)
    ensures !Precedes(p, p)
  {
    if p != [] { PrecedesIrreflexive(p[1..]); }
  }

  ghost predicate InDocumentOrder(ps: seq<Position>) {
    forall i, j | 0 <= i < j < |ps| :: Precedes(ps[i], ps[j])
  }

  /** The trail has one entry per position, with exactly the labels that lead to
      that position. */
  lemma {:induction false} TrailMatchesPositions<T>(prefix: seq<T>, t: Tree<T>, i: nat)
    requires i < |Positions(t)|
    ensures |Trail(prefix, t)| == |Positions(t)|
    ensures HasPosition(t, Positions(t)[i])
    ensures Trail(prefix, t)[i] == prefix + LabelsTo(t, Positions(t)[i])
    decreases t, 1
  {
    var next := prefix + [t.value];
    ChildTrailsLength(next, t.children, 0);
    if i > 0 {
      var p := ChildPositions(t.children, 0)[i - 1];
      ChildTrailsMatchPositions(next, t.children, 0, i - 1);
      assert Positions(t)[i] == p;
      assert Trail(prefix, t)[i] == Trails(next, t.children)[i - 1];
      LeadsToFromRoot(prefix, t, p, Trails(next, t.children)[i - 1]);
    }
  }

  lemma {:induction false} ChildTrailsLength<T>(prefix: seq<T>, ts: seq<Tree<T>>, first: nat)
    ensures |Trails(prefix, ts)| == |ChildPositions(ts, first)|
    decreases ts, 0
  {
    if ts != [] {
      TrailMatchesPositions(prefix, ts[0], 0);
      ChildTrailsLength(prefix, ts[1..], first + 1);
    }
  }

  lemma {:induction false} ChildTrailsMatchPositions<T>(prefix: seq<T>, ts: seq<Tree<T>>, first: nat, i: nat)
    requires i < |ChildPositions(ts, first)|
    ensures |Trails(prefix, ts)| == |ChildPositions(ts, first)|
    ensures LeadsTo(prefix, ts, first, ChildPositions(ts, first)[i], Trails(prefix, ts)[i])
    decreases ts, 1
  {
    ChildTrailsLength(prefix, ts, first);
    var ps := Positions(ts[0]);
    TrailMatchesPositions(prefix, ts[0], 0);
    if i < |ps| {
      TrailMatchesPositions(prefix, ts[0], i);
      assert ChildPositions(ts, first)[i] == Under(first, ps)[i] == [first] + ps[i];
    } else {
      var rest, us := ChildPositions(ts[1..], first + 1), Trails(prefix, ts[1..]);
      ChildTrailsMatchPositions(prefix, ts[1..], first + 1, i - |ps|);
      assert ChildPositions(ts, first)[i] == rest[i - |ps|] && Trails(prefix, ts)[i] == us[i - |ps|];
      LeadsToLater(prefix, ts, first, rest[i - |ps|], us[i - |ps|]);
    }
  }

  /** Position `p` lies in the forest `ts`, whose first tree has child index
      `first`, and `c` leads there. */
  ghost predicate LeadsTo<T>(prefix: seq<T>, ts: seq<Tree<T>>, first: nat, p: Position, c: seq<T>) {
    && p != [] && first <= p[0] < first + |ts| && HasPosition(ts[p[0] - first], p[1..])
    && c == prefix + LabelsTo(ts[p[0] - first], p[1..])
  }

  lemma LeadsToFromRoot<T>(prefix: seq<T>, t: Tree<T>, p: Position, c: seq<T>)
    requires LeadsTo(prefix + [t.value], t.children, 0, p, c)
    ensures HasPosition(t, p) && c == prefix + LabelsTo(t, p)
  {
    var below := LabelsTo(t.children[p[0]], p[1..]);
    ConcatAssociates(prefix, [t.value], below);
  }

  lemma ConcatAssociates<T>(a: seq<T>, b: seq<T>, c: seq<T>)
    ensures (a + b) + c == a + (b + c)
  {}

  lemma LeadsToLater<T>(prefix: seq<T>, ts: seq<Tree<T>>, first: nat, p: Position, c: seq<T>)
    requires ts != [] && LeadsTo(prefix, ts[1..], first + 1, p, c)
    ensures LeadsTo(prefix, ts, first, p, c)
  {
    assert ts[1..][p[0] - (first + 1)] == ts[p[0] - first];
  }

  /** Positions come strictly in document order, so none repeats. */
  lemma {:induction false} PositionsInOrder<T>(t: Tree<T>)
    ensures InDocumentOrder(Positions(t))
    decreases t, 1
  {
    ChildPositionsInOrder(t.children, 0);
    var cs := ChildPositions(t.children, 0);
    forall j | 0 <= j < |cs| ensures cs[j] != [] {
      ChildTrailsMatchPositions([], t.children, 0, j);
    }
  }

  lemma {:induction false} ChildPositionsInOrder<T>(ts: seq<Tree<T>>, first: nat)
    ensures InDocumentOrder(ChildPositions(ts, first))
    decreases ts, 0
  {
    if ts != [] {
      PositionsInOrder(ts[0]);
      ChildPositionsInOrder(ts[1..], first + 1);
      var ps, us, all := Under(first, Positions(ts[0])), ChildPositions(ts[1..], first + 1), ChildPositions(ts, first);
      forall i, j | 0 <= i < j < |all| ensures Precedes(all[i], all[j]) {
        if j < |ps| {
          assert all[i][1..] == Positions(ts[0])[i] && all[j][1..] == Positions(ts[0])[j];
        } else {
          assert all[j] == us[j - |ps|];
          ChildTrailsMatchPositions([], ts[1..], first + 1, j - |ps|);
          if i >= |ps| {
            assert all[i] == us[i - |ps|];
          }
        }
      }
    }
  }

  /** Every position of the tree occurs in `Positions`. */
  lemma {:induction false} PositionsComplete<T>(t: Tree<T>, p: Position)
    requires HasPosition(t, p)
    ensures p in Positions(t)
    decreases t, 1
  {
    if p == [] {
      assert Positions(t)[0] == [];
    } else {
      PositionsComplete(t.children[p[0]], p[1..]);
      ChildPositionsComplete(t.children, 0, p[0], p[1..]);
      assert p == [p[0]] + p[1..];
    }
  }

  lemma {:induction false} ChildPositionsComplete<T>(ts: seq<Tree<T>>, first: nat, k: nat, q: Position)
    requires k < |ts| && q in Positions(ts[k])
    ensures [first + k] + q in ChildPositions(ts, first)
    decreases ts, 0
  {
    if k == 0 {
      UnderHolds(first, Positions(ts[0]), q);
    } else {
      ChildPositionsComplete(ts[1..], first + 1, k - 1, q);
    }
  }

  lemma UnderHolds(k: nat, ps: seq<Position>, q: Position)
    requires q in ps
    ensures [k] + q in Under(k, ps)
  {
    var i :| 0 <= i < |ps| && ps[i] == q;
    assert Under(k, ps)[i] == [k] + q;
  }

  // ---- Membership -----------------------------------------------------------

  /** `labels` lead from the root of `t` down to some node. */
  ghost predicate Descends<T>(t: Tree<T>, labels: seq<T>)
    decreases t
  {
    && labels != [] && labels[0] == t.value
    && (|labels| == 1 || exists k :: 0 <= k < |t.children| && Descends(t.children[k], labels[1..]))
  }

  lemma {:induction false} TrailHolds<T>(prefix: seq<T>, t: Tree<T>, c: seq<T>)
    ensures c in Trail(prefix, t) <==> prefix <= c && Descends(t, c[|prefix|..])
    decreases t, 1
  {
    var next := prefix + [t.value];
    TrailsHold(next, t.children, c);
    if c in Trail(prefix, t) {
      if c == next {
        assert c[|prefix|..] == [t.value];
      } else {
        assert c in Trails(next, t.children);
        assert c[|prefix|..][1..] == c[|next|..];
        assert c[|prefix|] == next[|prefix|];
      }
    }
    if prefix <= c && Descends(t, c[|prefix|..]) {
      if |c| == |prefix| + 1 {
        assert c == next;
      } else {
        assert c[|prefix|..][1..] == c[|next|..];
        assert next <= c by { assert c[|prefix|] == t.value; assert c[..|next|] == next; }
      }
    }
  }

  lemma {:induction false} TrailsHold<T>(prefix: seq<T>, ts: seq<Tree<T>>, c: seq<T>)
    ensures c in Trails(prefix, ts) <==>
            prefix <= c && exists k :: 0 <= k < |ts| && Descends(ts[k], c[|prefix|..])
    decreases ts, 0
  {
    if ts != [] {
      TrailHolds(prefix, ts[0], c);
      TrailsHold(prefix, ts[1..], c);
      assert forall k | 1 <= k < |ts| :: ts[k] == ts[1..][k - 1];
      if prefix <= c && exists k :: 0 <= k < |ts| && Descends(ts[k], c[|prefix|..]) {
        var k :| 0 <= k < |ts| && Descends(ts[k], c[|prefix|..]);
        if k > 0 {
          assert ts[1..][k - 1] == ts[k];
        }
      }
    }
  }
}
