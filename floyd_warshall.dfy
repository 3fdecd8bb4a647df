/** The two phases of `ModRoutingTable::UpdateRoute`: filling the flat
    hop-count and predecessor buffers from the range graph, and the
    in-place Floyd-Warshall relaxation over them. */
module FloydWarshall {
  import opened Types
  import opened HopCount
  import opened FlatIndex
  import opened RangeGraph

  /** `dist` holds stage `k` of the hop-count recurrence. */
  ghost predicate DistAtStage(dist: seq<Hop>, g: Graph, k: nat)
    requires WellFormed(g) && k <= g.n
  {
    && |dist| == g.n * g.n
    && forall a, b {:trigger dist[Cell(g.n, a, b)]} :: 0 <= a < g.n && 0 <= b < g.n ==> dist[Cell(g.n, a, b)] == Hops(g, k, a, b)
  }

  /** `pred` holds stage `k` of the predecessor entries off the diagonal;
      the diagonal is never written. */
  ghost predicate PredAtStage(pred: seq<U16>, g: Graph, k: nat)
    requires WellFormed(g) && k <= g.n
  {
    && |pred| == g.n * g.n
    && forall a, b {:trigger pred[Cell(g.n, a, b)]} :: 0 <= a < g.n && 0 <= b < g.n && a != b ==> pred[Cell(g.n, a, b)] as int == PredAt(g, k, a, b)
  }

  /** Part way through the round with pivot `k`: the cells before `(i, j)`
      in row-major order are already at stage `k + 1`. */
  ghost function Stage(k: nat, i: nat, j: nat, a: nat, b: nat): nat {
    if a < i || (a == i && b < j) then k + 1 else k
  }

  ghost predicate DistMidRound(dist: seq<Hop>, g: Graph, k: nat, i: nat, j: nat)
    requires WellFormed(g) && k < g.n
  {
    && |dist| == g.n * g.n
    && forall a, b {:trigger dist[Cell(g.n, a, b)]} :: 0 <= a < g.n && 0 <= b < g.n ==> dist[Cell(g.n, a, b)] == Hops(g, Stage(k, i, j, a, b), a, b)
  }

  ghost predicate PredMidRound(pred: seq<U16>, g: Graph, k: nat, i: nat, j: nat)
    requires WellFormed(g) && k < g.n
  {
    && |pred| == g.n * g.n
    && forall a, b {:trigger pred[Cell(g.n, a, b)]} :: 0 <= a < g.n && 0 <= b < g.n && a != b ==>
         pred[Cell(g.n, a, b)] as int == PredAt(g, Stage(k, i, j, a, b), a, b)
  }

  /** The initialisation double loop: 0 on the diagonal, 1 for a link and
      infinity otherwise; every off-diagonal predecessor is the row's own
      node, linked or not; the diagonal of `pred` is left as allocated. */
  method InitMatrices(g: Graph, dist: array<Hop>, pred: array<U16>)
    requires WellFormed(g) && g.n < U16_LIMIT
    requires dist.Length == g.n * g.n && pred.Length == g.n * g.n
    modifies dist, pred
    ensures forall a, b :: 0 <= a < g.n && 0 <= b < g.n ==>
      dist[Cell(g.n, a, b)] == (if a == b then Fin(0) else if 0.0 < g.d[a][b] <= g.range then Fin(1) else Inf)
    ensures forall a, b :: 0 <= a < g.n && 0 <= b < g.n && a != b ==> pred[Cell(g.n, a, b)] as int == a
    ensures forall a :: 0 <= a < g.n ==> pred[Cell(g.n, a, a)] == old(pred[Cell(g.n, a, a)])
    ensures DistAtStage(dist[..], g, 0) && PredAtStage(pred[..], g, 0)
  {
    var n := g.n;
    var i := 0;
    while i < n
      invariant 0 <= i <= n
      invariant forall a, b {:trigger dist[Cell(n, a, b)]} :: 0 <= a < i && 0 <= b < n ==> dist[Cell(n, a, b)] == Initial(g, a, b)
      invariant forall a, b {:trigger pred[Cell(n, a, b)]} :: 0 <= a < i && 0 <= b < n && a != b ==> pred[Cell(n, a, b)] as int == a
      invariant forall a :: 0 <= a < n ==> pred[Cell(n, a, a)] == old(pred[Cell(n, a, a)])
    {
      var j := 0;
      while j < n
        invariant 0 <= j <= n
        invariant forall a, b {:trigger dist[Cell(n, a, b)]} :: 0 <= a < n && 0 <= b < n && (a < i || (a == i && b < j)) ==>
          dist[Cell(n, a, b)] == Initial(g, a, b)
        invariant forall a, b {:trigger pred[Cell(n, a, b)]} :: 0 <= a < n && 0 <= b < n && (a < i || (a == i && b < j)) && a != b ==>
          pred[Cell(n, a, b)] as int == a
        invariant forall a :: 0 <= a < n ==> pred[Cell(n, a, a)] == old(pred[Cell(n, a, a)])
      {
        var c := Cell(n, i, j);
        if i == j {
          dist[c] := Fin(0);
        } else {
          var distance := g.d[i][j];
          if 0.0 < distance && distance <= g.range {
            dist[c] := Fin(1);
          } else {
            dist[c] := Inf;
          }
          pred[c] := i as U16;
        }
        j := j + 1;
      }
      i := i + 1;
    }
  }

  /** The main triple loop. A cell is overwritten, together with its
      predecessor (copied from the pivot's row), only when the path
      through the pivot is strictly shorter. */
  method Relax(g: Graph, dist: array<Hop>, pred: array<U16>)
    requires WellFormed(g) && g.n < U16_LIMIT
    requires DistAtStage(dist[..], g, 0) && PredAtStage(pred[..], g, 0)
    modifies dist, pred
    ensures DistAtStage(dist[..], g, g.n) && PredAtStage(pred[..], g, g.n)
  {
    var n := g.n;
    var k := 0;
    while k < n
      invariant 0 <= k <= n
      invariant DistAtStage(dist[..], g, k) && PredAtStage(pred[..], g, k)
    {
      RelaxPivot(g, dist, pred, k);
      k := k + 1;
    }
  }

  /** One round of the relaxation, with pivot `k`. */
  method RelaxPivot(g: Graph, dist: array<Hop>, pred: array<U16>, k: nat)
    requires WellFormed(g) && g.n < U16_LIMIT && k < g.n
    requires DistAtStage(dist[..], g, k) && PredAtStage(pred[..], g, k)
    modifies dist, pred
    ensures DistAtStage(dist[..], g, k + 1) && PredAtStage(pred[..], g, k + 1)
  {
    var n := g.n;
    var i := 0;
    assert DistMidRound(dist[..], g, k, 0, 0);
    assert PredMidRound(pred[..], g, k, 0, 0);
    while i < n
      invariant 0 <= i <= n
      invariant DistMidRound(dist[..], g, k, i, 0) && PredMidRound(pred[..], g, k, i, 0)
    {
      var j := 0;
      while j < n
        invariant 0 <= j <= n
        invariant DistMidRound(dist[..], g, k, i, j) && PredMidRound(pred[..], g, k, i, j)
      {
        RelaxCell(g, dist, pred, k, i, j);
        j := j + 1;
      }
      assert DistMidRound(dist[..], g, k, i + 1, 0) by {
        forall a, b | 0 <= a < n && 0 <= b < n ensures Stage(k, i, n, a, b) == Stage(k, i + 1, 0, a, b) { }
      }
      assert PredMidRound(pred[..], g, k, i + 1, 0) by {
        forall a, b | 0 <= a < n && 0 <= b < n ensures Stage(k, i, n, a, b) == Stage(k, i + 1, 0, a, b) { }
      }
      i := i + 1;
    }
  }

  /** The body of the innermost loop, at cell `(i, j)` with pivot `k`. */
  method RelaxCell(g: Graph, dist: array<Hop>, pred: array<U16>, k: nat, i: nat, j: nat)
    requires WellFormed(g) && g.n < U16_LIMIT && k < g.n && i < g.n && j < g.n
    requires DistMidRound(dist[..], g, k, i, j) && PredMidRound(pred[..], g, k, i, j)
    modifies dist, pred
    ensures DistMidRound(dist[..], g, k, i, j + 1) && PredMidRound(pred[..], g, k, i, j + 1)
  {
    var n := g.n;
    ghost var D, P := dist[..], pred[..];
    var ij, ik, kj := Cell(n, i, j), Cell(n, i, k), Cell(n, k, j);
    CellInputs(g, D, k, i, j);
    PredCellInputs(g, D, P, k, i, j);
    var distance := Min(dist[ij], Plus(dist[ik], dist[kj]));
    if distance != dist[ij] {
      dist[ij] := distance;
      pred[ij] := pred[kj];
    }
    DistStep(g, D, dist[..], k, i, j);
    PredStep(g, P, pred[..], k, i, j);
  }

  /** What the innermost loop reads at `(i, j)` in the round with pivot
      `k`: stage-`k` hop counts, whether or not the pivot row and column
      have been visited yet, whose minimum is the stage-`k + 1` entry. */
  lemma CellInputs(g: Graph, D: seq<Hop>, k: nat, i: nat, j: nat)
    requires WellFormed(g) && k < g.n && i < g.n && j < g.n
    requires DistMidRound(D, g, k, i, j)
    ensures D[Cell(g.n, i, j)] == Hops(g, k, i, j)
    ensures Min(D[Cell(g.n, i, j)], Plus(D[Cell(g.n, i, k)], D[Cell(g.n, k, j)])) == Hops(g, k + 1, i, j)
  {
    DistInputs(g, D, k, i, j);
  }

  /** The predecessor the innermost loop leaves at `(i, j)`: the pivot
      row's entry when the pivot improves the cell, its own otherwise. */
  lemma PredCellInputs(g: Graph, D: seq<Hop>, P: seq<U16>, k: nat, i: nat, j: nat)
    requires WellFormed(g) && k < g.n && i < g.n && j < g.n
    requires DistMidRound(D, g, k, i, j) && PredMidRound(P, g, k, i, j)
    ensures Below(Plus(D[Cell(g.n, i, k)], D[Cell(g.n, k, j)]), D[Cell(g.n, i, j)]) ==>
      i != j && P[Cell(g.n, k, j)] as int == PredAt(g, k + 1, i, j)
    ensures !Below(Plus(D[Cell(g.n, i, k)], D[Cell(g.n, k, j)]), D[Cell(g.n, i, j)]) && i != j ==>
      P[Cell(g.n, i, j)] as int == PredAt(g, k + 1, i, j)
  {
    DistInputs(g, D, k, i, j);
    var improves := Below(Plus(Hops(g, k, i, k), Hops(g, k, k, j)), Hops(g, k, i, j));
    if improves {
      DiagonalZero(g, k, i);
      DiagonalZero(g, k, k);
      assert j != k && i != j;
      PredInput(g, P, k, i, j, k);
    } else if i != j {
      PredInput(g, P, k, i, j, i);
    }
  }

  lemma DistInputs(g: Graph, D: seq<Hop>, k: nat, i: nat, j: nat)
    requires WellFormed(g) && k < g.n && i < g.n && j < g.n
    requires DistMidRound(D, g, k, i, j)
    ensures D[Cell(g.n, i, j)] == Hops(g, k, i, j)
    ensures D[Cell(g.n, i, k)] == Hops(g, k, i, k)
    ensures D[Cell(g.n, k, j)] == Hops(g, k, k, j)
  {
    var n := g.n;
    PivotStable(g, k, i, j);
    assert D[Cell(n, i, k)] == Hops(g, Stage(k, i, j, i, k), i, k);
    assert D[Cell(n, k, j)] == Hops(g, Stage(k, i, j, k, j), k, j);
    assert D[Cell(n, i, j)] == Hops(g, Stage(k, i, j, i, j), i, j);
  }

  /** The predecessor entry at row `a` (the pivot or the current row),
      column `j`, read in the round with pivot `k`. */
  lemma PredInput(g: Graph, P: seq<U16>, k: nat, i: nat, j: nat, a: nat)
    requires WellFormed(g) && k < g.n && i < g.n && j < g.n
    requires PredMidRound(P, g, k, i, j)
    requires (a == k || a == i) && a != j
    ensures P[Cell(g.n, a, j)] as int == PredAt(g, k, a, j)
  {
    assert P[Cell(g.n, a, j)] as int == PredAt(g, Stage(k, i, j, a, j), a, j);
    if a != i {
      PivotStable(g, k, i, j);
    }
  }

  lemma DistStep(g: Graph, D: seq<Hop>, D2: seq<Hop>, k: nat, i: nat, j: nat)
    requires WellFormed(g) && k < g.n && i < g.n && j < g.n
    requires DistMidRound(D, g, k, i, j)
    requires |D2| == |D| && D2[Cell(g.n, i, j)] == Hops(g, k + 1, i, j)
    requires forall c :: 0 <= c < |D| && c != Cell(g.n, i, j) ==> D2[c] == D[c]
    ensures DistMidRound(D2, g, k, i, j + 1)
  {
    var n := g.n;
    forall a, b | 0 <= a < n && 0 <= b < n
      ensures D2[Cell(n, a, b)] == Hops(g, Stage(k, i, j + 1, a, b), a, b)
    {
      if a != i || b != j {
        assert Cell(n, a, b) != Cell(n, i, j);
      }
    }
  }

  lemma PredStep(g: Graph, P: seq<U16>, P2: seq<U16>, k: nat, i: nat, j: nat)
    requires WellFormed(g) && k < g.n && i < g.n && j < g.n
    requires PredMidRound(P, g, k, i, j)
    requires |P2| == |P| && (i != j ==> P2[Cell(g.n, i, j)] as int == PredAt(g, k + 1, i, j))
    requires forall c :: 0 <= c < |P| && c != Cell(g.n, i, j) ==> P2[c] == P[c]
    ensures PredMidRound(P2, g, k, i, j + 1)
  {
    var n := g.n;
    forall a, b | 0 <= a < n && 0 <= b < n && a != b
      ensures P2[Cell(n, a, b)] as int == PredAt(g, Stage(k, i, j + 1, a, b), a, b)
    {
      if a != i || b != j {
        assert Cell(n, a, b) != Cell(n, i, j);
      }
    }
  }
}
