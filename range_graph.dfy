/** The "range graph" over the registered nodes and its all-pairs hop
    counts, as the Floyd-Warshall rebuild of the routing table computes
    them. Everything here is specification: the rebuild and the lookup
    are proved against these definitions. */
module RangeGraph {
  import opened HopCount

  /** What a rebuild works from: the pairwise distances between node
      positions (`d[i][j]` stands for `DistFromTable (i, j)`), the
      transmission range, and the number `n` of nodes the matrices cover. */
  datatype Graph = Graph(d: seq<seq<real>>, range: real, n: nat)

  /** A square matrix of distances. */
  predicate IsDistances(d: seq<seq<real>>) {
    forall r :: 0 <= r < |d| ==> |d[r]| == |d|
  }

  /** Euclidean distances are symmetric. */
  predicate Symmetric(d: seq<seq<real>>)
    requires IsDistances(d)
  {
    forall a, b :: 0 <= a < |d| && 0 <= b < |d| ==> d[a][b] == d[b][a]
  }

  predicate WellFormed(g: Graph) {
    IsDistances(g.d) && g.n <= |g.d|
  }

  /** Two distinct nodes are linked when `0 < distance <= range`; nodes at
      the same position are not. */
  predicate Edge(g: Graph, i: nat, j: nat)
    requires WellFormed(g) && i < g.n && j < g.n
  {
    i != j && 0.0 < g.d[i][j] <= g.range
  }

  /** The matrix before relaxation: 0 on the diagonal, 1 for a link,
      infinite otherwise. */
  function Initial(g: Graph, i: nat, j: nat): Hop
    requires WellFormed(g) && i < g.n && j < g.n
  {
    if i == j then Fin(0)
    else if 0.0 < g.d[i][j] <= g.range then Fin(1)
    else Inf
  }

  /** The Floyd-Warshall recurrence: the fewest hops from `i` to `j` using
      only nodes below `k` as relays. The candidate through pivot `k - 1`
      replaces the entry only when it is strictly smaller. */
  ghost function Hops(g: Graph, k: nat, i: nat, j: nat): Hop
    requires WellFormed(g) && k <= g.n && i < g.n && j < g.n
    decreases k
  {
    if k == 0 then Initial(g, i, j)
    else
      var p := k - 1;
      Min(Hops(g, p, i, j), Plus(Hops(g, p, i, p), Hops(g, p, p, j)))
  }

  /** The predecessor entry the relaxation keeps: `i` at the start, and
      the pivot row's entry whenever the pivot gives a strictly shorter
      path. */
  ghost function PredAt(g: Graph, k: nat, i: nat, j: nat): nat
    requires WellFormed(g) && k <= g.n && i < g.n && j < g.n
    decreases k
  {
    if k == 0 then i
    else
      var p := k - 1;
      if Below(Plus(Hops(g, p, i, p), Hops(g, p, p, j)), Hops(g, p, i, j))
      then PredAt(g, p, p, j)
      else PredAt(g, p, i, j)
  }

  // ---------------------------------------------------------------------
  // Basic facts about the recurrence

  /** The diagonal stays 0 at every stage. */
  lemma {:induction false} DiagonalZero(g: Graph, k: nat, i: nat)
    requires WellFormed(g) && k <= g.n && i < g.n
    ensures Hops(g, k, i, i) == Fin(0)
  {
    if k > 0 {
      DiagonalZero(g, k - 1, i);
    }
  }

  /** Relaxation never makes an entry worse than the initial matrix. */
  lemma {:induction false} HopsAtMostInitial(g: Graph, k: nat, i: nat, j: nat)
    requires WellFormed(g) && k <= g.n && i < g.n && j < g.n
    ensures AtMost(Hops(g, k, i, j), Initial(g, i, j))
  {
    if k > 0 {
      HopsAtMostInitial(g, k - 1, i, j);
    }
  }

  /** During the round with pivot `k`, row `k` and column `k` do not change,
      so the in-place update may read them before or after they are
      visited. */
  lemma PivotStable(g: Graph, k: nat, i: nat, j: nat)
    requires WellFormed(g) && k < g.n && i < g.n && j < g.n
    ensures Hops(g, k + 1, i, k) == Hops(g, k, i, k)
    ensures Hops(g, k + 1, k, j) == Hops(g, k, k, j)
    ensures PredAt(g, k + 1, k, j) == PredAt(g, k, k, j)
  {
    DiagonalZero(g, k, k);
  }

  /** With symmetric distances, every stage of the matrix is symmetric. */
  lemma {:induction false} HopsSymmetric(g: Graph, k: nat, i: nat, j: nat)
    requires WellFormed(g) && Symmetric(g.d) && k <= g.n && i < g.n && j < g.n
    ensures Hops(g, k, i, j) == Hops(g, k, j, i)
  {
    if k > 0 {
      var p := k - 1;
      HopsSymmetric(g, p, i, j);
      HopsSymmetric(g, p, i, p);
      HopsSymmetric(g, p, p, j);
    }
  }

  // ---------------------------------------------------------------------
  // Walks in the range graph

  /** A sequence of nodes in which consecutive nodes are linked; it has
      `|w| - 1` hops. */
  ghost predicate IsWalk(g: Graph, w: seq<nat>)
    requires WellFormed(g)
  {
    && |w| >= 1
    && (forall t :: 0 <= t < |w| ==> w[t] < g.n)
    && (forall t :: 0 <= t < |w| - 1 ==> Edge(g, w[t], w[t + 1]))
  }

  /** Every relay of the walk (every node but the two ends) is below `k`. */
  ghost predicate RelaysBelow(w: seq<nat>, k: nat) {
    forall t :: 0 < t < |w| - 1 ==> w[t] < k
  }

  /** A walk of two hops or more has a relay, which is not below 0. */
  lemma HasRelay(w: seq<nat>)
    requires |w| > 2
    ensures !RelaysBelow(w, 0)
  {
    assert !(w[1] < 0);
  }

  ghost function Last(w: seq<nat>): nat
    requires |w| >= 1
  {
    w[|w| - 1]
  }

  /** Joining a walk that ends where another starts. */
  lemma Join(g: Graph, u: seq<nat>, v: seq<nat>, k: nat)
    requires WellFormed(g) && IsWalk(g, u) && IsWalk(g, v) && Last(u) == v[0]
    ensures IsWalk(g, u + v[1..])
    ensures (u + v[1..])[0] == u[0] && Last(u + v[1..]) == Last(v)
    ensures |u + v[1..]| == |u| + |v| - 1
    ensures RelaysBelow(u, k) && RelaysBelow(v, k) && v[0] < k ==> RelaysBelow(u + v[1..], k)
  {
    var w := u + v[1..];
    forall t | 0 <= t < |w| - 1
      ensures Edge(g, w[t], w[t + 1])
    {
      if t < |u| - 1 {
        assert w[t] == u[t] && w[t + 1] == u[t + 1];
      } else {
        assert w[t] == v[t - |u| + 1] && w[t + 1] == v[t - |u| + 2];
      }
    }
  }

  /** A walk that realises each finite entry, using only relays below the
      stage. */
  ghost function WalkOf(g: Graph, k: nat, i: nat, j: nat): (w: seq<nat>)
    requires WellFormed(g) && k <= g.n && i < g.n && j < g.n
    requires Hops(g, k, i, j).Fin?
    ensures IsWalk(g, w) && w[0] == i && Last(w) == j
    ensures RelaysBelow(w, k)
    ensures |w| == Hops(g, k, i, j).count + 1
    decreases k
  {
    if k == 0 then
      if i == j then [i] else [i, j]
    else
      var p := k - 1;
      if Below(Plus(Hops(g, p, i, p), Hops(g, p, p, j)), Hops(g, p, i, j)) then
        var u, v := WalkOf(g, p, i, p), WalkOf(g, p, p, j);
        Join(g, u, v, k);
        u + v[1..]
      else
        WalkOf(g, p, i, j)
  }

  /** No walk whose relays are below `k` is shorter than the stage-`k`
      entry. */
  lemma {:induction false} Shortest(g: Graph, k: nat, w: seq<nat>)
    requires WellFormed(g) && k <= g.n && IsWalk(g, w) && RelaysBelow(w, k)
    ensures AtMost(Hops(g, k, w[0], Last(w)), Fin(|w| - 1))
    decreases k, |w|
  {
    if k == 0 {
      if |w| > 2 {
        HasRelay(w);
        assert false;
      } else if |w| == 2 {
        assert Edge(g, w[0], w[1]);
      }
    } else {
      var p := k - 1;
      if t :| 0 < t < |w| - 1 && w[t] == p {
        var u, v := w[..t + 1], w[t..];
        SplitWalk(g, w, t, k);
        Shortest(g, k, u);
        Shortest(g, k, v);
        ThroughPivot(g, p, w[0], Last(w), |u| - 1, |v| - 1);
      } else {
        assert RelaysBelow(w, p);
        Shortest(g, p, w);
        RoundBound(g, p, w[0], Last(w));
      }
    }
  }

  /** Cutting a walk at one of its relays gives two walks, each with its
      relays below the same bound and no more than those of the whole. */
  lemma SplitWalk(g: Graph, w: seq<nat>, t: nat, k: nat)
    requires WellFormed(g) && IsWalk(g, w) && RelaysBelow(w, k) && 0 < t < |w| - 1
    ensures IsWalk(g, w[..t + 1]) && IsWalk(g, w[t..])
    ensures RelaysBelow(w[..t + 1], k) && RelaysBelow(w[t..], k)
    ensures w[..t + 1][0] == w[0] && Last(w[..t + 1]) == w[t] == w[t..][0] && Last(w[t..]) == Last(w)
    ensures |w[..t + 1]| < |w| && |w[t..]| < |w| && (|w[..t + 1]| - 1) + (|w[t..]| - 1) == |w| - 1
  {
    var u, v := w[..t + 1], w[t..];
    forall s | 0 <= s < |u| - 1 ensures Edge(g, u[s], u[s + 1]) {
      assert u[s] == w[s] && u[s + 1] == w[s + 1];
    }
    forall s | 0 <= s < |v| - 1 ensures Edge(g, v[s], v[s + 1]) {
      assert v[s] == w[t + s] && v[s + 1] == w[t + s + 1];
    }
    forall s | 0 < s < |v| - 1 ensures v[s] < k {
      assert v[s] == w[t + s];
    }
  }

  /** Once both halves through pivot `p` are bounded at stage `p + 1`, so
      is the whole, since the pivot's row and column do not change in its
      own round. */
  lemma ThroughPivot(g: Graph, p: nat, i: nat, j: nat, x: nat, y: nat)
    requires WellFormed(g) && p < g.n && i < g.n && j < g.n
    requires AtMost(Hops(g, p + 1, i, p), Fin(x)) && AtMost(Hops(g, p + 1, p, j), Fin(y))
    ensures AtMost(Hops(g, p + 1, i, j), Fin(x + y))
  {
    PivotStable(g, p, i, j);
    RoundBound(g, p, i, j);
  }

  /** The relaxed matrix holds the fewest hops: a finite entry is the length
      of some walk, and no walk between the two nodes is shorter. */
  lemma HopsAreShortest(g: Graph, i: nat, j: nat, w: seq<nat>)
    requires WellFormed(g) && i < g.n && j < g.n
    requires IsWalk(g, w) && w[0] == i && Last(w) == j
    ensures Hops(g, g.n, i, j).Fin?
    ensures Hops(g, g.n, i, j).count <= |w| - 1
    ensures |WalkOf(g, g.n, i, j)| - 1 == Hops(g, g.n, i, j).count
  {
    Shortest(g, g.n, w);
  }

  /** An infinite entry means that no walk links the two nodes. */
  lemma UnreachableHasNoWalk(g: Graph, i: nat, j: nat, w: seq<nat>)
    requires WellFormed(g) && i < g.n && j < g.n
    requires Hops(g, g.n, i, j) == Inf
    ensures !(IsWalk(g, w) && w[0] == i && Last(w) == j)
  {
    if IsWalk(g, w) && w[0] == i && Last(w) == j {
      Shortest(g, g.n, w);
    }
  }

  /** Triangle inequality of the relaxed matrix. */
  lemma Triangle(g: Graph, i: nat, m: nat, j: nat)
    requires WellFormed(g) && i < g.n && m < g.n && j < g.n
    ensures AtMost(Hops(g, g.n, i, j), Plus(Hops(g, g.n, i, m), Hops(g, g.n, m, j)))
  {
    if Hops(g, g.n, i, m).Fin? && Hops(g, g.n, m, j).Fin? {
      var u, v := WalkOf(g, g.n, i, m), WalkOf(g, g.n, m, j);
      Join(g, u, v, g.n);
      Shortest(g, g.n, u + v[1..]);
    }
  }

  // ---------------------------------------------------------------------
  // The predecessor matrix

  /** At every stage, an off-diagonal predecessor entry is a node index;
      it is `i` when `j` is unreachable; otherwise it is linked to `j` and
      is no farther from `i` than one hop less than `j`. */
  lemma {:induction false} PredFacts(g: Graph, k: nat, i: nat, j: nat)
    requires WellFormed(g) && k <= g.n && i < g.n && j < g.n && i != j
    ensures PredAt(g, k, i, j) < g.n
    ensures Hops(g, k, i, j) == Inf ==> PredAt(g, k, i, j) == i
    ensures Hops(g, k, i, j).Fin? ==>
      Edge(g, PredAt(g, k, i, j), j) &&
      AtMost(Plus(Hops(g, k, i, PredAt(g, k, i, j)), Fin(1)), Hops(g, k, i, j))
  {
    if k == 0 {
      DiagonalZero(g, 0, i);
    } else {
      var p := k - 1;
      PredFacts(g, p, i, j);
      if Below(Plus(Hops(g, p, i, p), Hops(g, p, p, j)), Hops(g, p, i, j)) {
        DiagonalZero(g, p, p);
        DiagonalZero(g, p, i);
        assert p != j && p != i;
        PredFacts(g, p, p, j);
        PredStepImproves(g, p, i, j);
      } else {
        PredStepKeeps(g, p, i, j);
      }
    }
  }

  /** A round with pivot `p` never makes an entry larger than the entry
      before it or than the path through the pivot. */
  lemma RoundBound(g: Graph, p: nat, i: nat, j: nat)
    requires WellFormed(g) && p < g.n && i < g.n && j < g.n
    ensures AtMost(Hops(g, p + 1, i, j), Hops(g, p, i, j))
    ensures AtMost(Hops(g, p + 1, i, j), Plus(Hops(g, p, i, p), Hops(g, p, p, j)))
  {
  }

  /** The inductive step of `PredFacts` when the pivot improves the entry:
      the predecessor is taken from the pivot's row. */
  lemma PredStepImproves(g: Graph, p: nat, i: nat, j: nat)
    requires WellFormed(g) && p < g.n && i < g.n && j < g.n && i != j && p != j
    requires Below(Plus(Hops(g, p, i, p), Hops(g, p, p, j)), Hops(g, p, i, j))
    requires PredAt(g, p, p, j) < g.n
    requires Hops(g, p, p, j).Fin? ==>
      Edge(g, PredAt(g, p, p, j), j) &&
      AtMost(Plus(Hops(g, p, p, PredAt(g, p, p, j)), Fin(1)), Hops(g, p, p, j))
    ensures PredAt(g, p + 1, i, j) < g.n
    ensures Hops(g, p + 1, i, j).Fin?
    ensures Edge(g, PredAt(g, p + 1, i, j), j)
    ensures AtMost(Plus(Hops(g, p + 1, i, PredAt(g, p + 1, i, j)), Fin(1)), Hops(g, p + 1, i, j))
  {
    var q := PredAt(g, p, p, j);
    assert PredAt(g, p + 1, i, j) == q;
    var a, b, c := Hops(g, p, i, p), Hops(g, p, p, j), Hops(g, p, p, q);
    assert Hops(g, p + 1, i, j) == Plus(a, b);
    assert a.Fin? && b.Fin?;
    RoundBound(g, p, i, q);
    assert AtMost(Hops(g, p + 1, i, q), Plus(a, c));
    assert c.Fin? && c.count + 1 <= b.count;
  }

  /** The inductive step of `PredFacts` when the entry is kept: so is its
      predecessor, and the predecessor's own entry can only shrink. */
  lemma PredStepKeeps(g: Graph, p: nat, i: nat, j: nat)
    requires WellFormed(g) && p < g.n && i < g.n && j < g.n && i != j
    requires !Below(Plus(Hops(g, p, i, p), Hops(g, p, p, j)), Hops(g, p, i, j))
    requires PredAt(g, p, i, j) < g.n
    requires Hops(g, p, i, j) == Inf ==> PredAt(g, p, i, j) == i
    requires Hops(g, p, i, j).Fin? ==>
      Edge(g, PredAt(g, p, i, j), j) &&
      AtMost(Plus(Hops(g, p, i, PredAt(g, p, i, j)), Fin(1)), Hops(g, p, i, j))
    ensures PredAt(g, p + 1, i, j) < g.n
    ensures Hops(g, p + 1, i, j) == Inf ==> PredAt(g, p + 1, i, j) == i
    ensures Hops(g, p + 1, i, j).Fin? ==>
      Edge(g, PredAt(g, p + 1, i, j), j) &&
      AtMost(Plus(Hops(g, p + 1, i, PredAt(g, p + 1, i, j)), Fin(1)), Hops(g, p + 1, i, j))
  {
    var q := PredAt(g, p, i, j);
    assert PredAt(g, p + 1, i, j) == q;
    assert Hops(g, p + 1, i, j) == Hops(g, p, i, j);
    RoundBound(g, p, i, q);
  }

  /** In the relaxed matrix the predecessor of `j` lies exactly one hop
      before `j` on a shortest path from `i`. */
  lemma PredOnShortestPath(g: Graph, i: nat, j: nat)
    requires WellFormed(g) && i < g.n && j < g.n && i != j
    requires Hops(g, g.n, i, j).Fin?
    ensures PredAt(g, g.n, i, j) < g.n
    ensures Edge(g, PredAt(g, g.n, i, j), j)
    ensures Plus(Hops(g, g.n, i, PredAt(g, g.n, i, j)), Fin(1)) == Hops(g, g.n, i, j)
  {
    PredFacts(g, g.n, i, j);
    var q := PredAt(g, g.n, i, j);
    Triangle(g, i, q, j);
    HopsAtMostInitial(g, g.n, q, j);
  }

  // ---------------------------------------------------------------------
  // The lookup's predecessor walk

  /** The node where the lookup's walk stops: starting from `j`, follow
      the predecessor entries of row `i` until the next one is `i`. */
  ghost function FirstHop(g: Graph, i: nat, j: nat): (f: nat)
    requires WellFormed(g) && i < g.n && j < g.n && i != j
    ensures f < g.n && f != i
    ensures PredAt(g, g.n, i, f) == i
    decreases if Hops(g, g.n, i, j).Fin? then Hops(g, g.n, i, j).count else 0
  {
    PredFacts(g, g.n, i, j);
    var p := PredAt(g, g.n, i, j);
    if p == i then j
    else
      PredOnShortestPath(g, i, j);
      FirstHop(g, i, p)
  }

  /** The walk ends at `j` itself when `j` is unreachable; otherwise it
      ends at a neighbour of `i` that lies on a shortest path to `j`. */
  lemma {:induction false} FirstHopOnShortestPath(g: Graph, i: nat, j: nat)
    requires WellFormed(g) && i < g.n && j < g.n && i != j
    ensures Hops(g, g.n, i, j) == Inf ==> FirstHop(g, i, j) == j
    ensures Hops(g, g.n, i, j).Fin? ==>
      Edge(g, i, FirstHop(g, i, j)) &&
      Plus(Fin(1), Hops(g, g.n, FirstHop(g, i, j), j)) == Hops(g, g.n, i, j)
    decreases if Hops(g, g.n, i, j).Fin? then Hops(g, g.n, i, j).count else 0
  {
    PredFacts(g, g.n, i, j);
    var p := PredAt(g, g.n, i, j);
    var f := FirstHop(g, i, j);
    if Hops(g, g.n, i, j).Fin? {
      PredOnShortestPath(g, i, j);
      DiagonalZero(g, g.n, j);
      if p == i {
        DiagonalZero(g, g.n, i);
      } else {
        FirstHopOnShortestPath(g, i, p);
        assert f == FirstHop(g, i, p);
        Triangle(g, f, p, j);
        HopsAtMostInitial(g, g.n, p, j);
        Triangle(g, i, f, j);
        HopsAtMostInitial(g, g.n, i, f);
      }
    }
  }

  // ---------------------------------------------------------------------
  // Consequences for particular ranges and layouts

  /** With a range of 0 or less no two nodes are linked, so every
      off-diagonal entry stays infinite at every stage. */
  lemma {:induction false} NoRangeNoRoutes(g: Graph, k: nat, i: nat, j: nat)
    requires WellFormed(g) && g.range <= 0.0 && k <= g.n && i < g.n && j < g.n && i != j
    ensures Hops(g, k, i, j) == Inf
  {
    if k > 0 {
      var p := k - 1;
      NoRangeNoRoutes(g, p, i, j);
      if i != p {
        NoRangeNoRoutes(g, p, i, p);
      } else {
        NoRangeNoRoutes(g, p, p, j);
      }
    }
  }

  /** Three nodes on a line at 0, 1 and 3: nodes 0 and 1 are 1 apart,
      nodes 1 and 2 are 2 apart, nodes 0 and 2 are 3 apart. */
  predicate ThreeOnALine(g: Graph) {
    && g.n == 3 && |g.d| == 3 && IsDistances(g.d)
    && g.d[0][1] == 1.0 && g.d[1][0] == 1.0
    && g.d[1][2] == 2.0 && g.d[2][1] == 2.0
    && g.d[0][2] == 3.0 && g.d[2][0] == 3.0
  }

  /** With range 1.5 only the first two nodes are linked, so node 2 is
      unreachable from node 0 and the walk back from it stops at once. */
  lemma ThreeOnALineShortRange(g: Graph)
    requires ThreeOnALine(g) && g.range == 1.5
    ensures Hops(g, g.n, 0, 1) == Fin(1) && Hops(g, g.n, 0, 2) == Inf && FirstHop(g, 0, 2) == 2
  {
    assert Initial(g, 0, 1) == Fin(1) && Initial(g, 0, 2) == Inf && Initial(g, 1, 2) == Inf;
    assert Initial(g, 2, 2) == Fin(0) && Initial(g, 0, 0) == Fin(0) && Initial(g, 1, 1) == Fin(0);
    assert Hops(g, 1, 0, 2) == Inf && Hops(g, 1, 1, 2) == Inf && Hops(g, 1, 0, 1) == Fin(1);
    DiagonalZero(g, 1, 2);
    DiagonalZero(g, 2, 2);
    assert Hops(g, 2, 0, 2) == Inf && Hops(g, 2, 0, 1) == Fin(1);
    assert Hops(g, 3, 0, 2) == Inf;
    FirstHopOnShortestPath(g, 0, 2);
  }

  /** A round whose pivot gives no strictly shorter path leaves the entry
      and its predecessor alone. */
  lemma RoundKeeps(g: Graph, k: nat, i: nat, j: nat)
    requires WellFormed(g) && k < g.n && i < g.n && j < g.n
    requires !Below(Plus(Hops(g, k, i, k), Hops(g, k, k, j)), Hops(g, k, i, j))
    ensures Hops(g, k + 1, i, j) == Hops(g, k, i, j) && PredAt(g, k + 1, i, j) == PredAt(g, k, i, j)
  {
  }

  /** With range 2.5 the last two nodes are linked too: node 2 is two hops
      from node 0, and the walk back from it stops at node 1, the relay. */
  lemma ThreeOnALineLongRange(g: Graph)
    requires ThreeOnALine(g) && g.range == 2.5
    ensures Hops(g, g.n, 0, 2) == Fin(2) && FirstHop(g, 0, 2) == 1
  {
    assert Initial(g, 0, 1) == Fin(1) && Initial(g, 0, 2) == Inf && Initial(g, 1, 2) == Fin(1);
    assert Initial(g, 2, 1) == Fin(1) && Initial(g, 0, 0) == Fin(0) && Initial(g, 1, 0) == Fin(1);
    assert Hops(g, 1, 0, 1) == Fin(1) && PredAt(g, 1, 0, 1) == 0;
    assert Hops(g, 1, 0, 2) == Inf && PredAt(g, 1, 0, 2) == 0;
    assert Hops(g, 1, 1, 2) == Fin(1) && PredAt(g, 1, 1, 2) == 1;
    assert Hops(g, 1, 2, 1) == Fin(1);
    DiagonalZero(g, 1, 1);
    assert Hops(g, 2, 0, 1) == Fin(1) && PredAt(g, 2, 0, 1) == 0;
    assert Hops(g, 2, 0, 2) == Fin(2) && PredAt(g, 2, 0, 2) == 1;
    assert Hops(g, 2, 2, 1) == Fin(1);
    DiagonalZero(g, 2, 2);
    RoundKeeps(g, 2, 0, 2);
    RoundKeeps(g, 2, 0, 1);
    assert PredAt(g, 3, 0, 2) == 1 && PredAt(g, 3, 0, 1) == 0;
    PredFacts(g, 3, 0, 2);
    assert FirstHop(g, 0, 1) == 1;
  }
}
