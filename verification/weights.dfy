/** Edge weights of one node and the weighted choice among them.

    A node's edges are a map from successor word to weight. The running sum
    the node keeps is compared against Total, the sum of all weights. The
    choice walks the edges in the hash map's iteration order, which is not
    specified: it is any sequence listing every key once (Enumerates). */
module Weights {
  import opened Wrappers

  /** The weight of edge `k`, or 0 when there is no such edge. */
  function Weight(edges: map<string, int>, k: string): int {
    if k in edges then edges[k] else 0
  }

  predicate PositiveWeights(edges: map<string, int>) {
    forall k :: k in edges ==> edges[k] >= 1
  }

  /** The sum of all weights of a map, in no particular order. */
  ghost function Total(edges: map<string, int>): int
    decreases |edges|
  {
    if edges == map[] then 0
    else
      var k :| k in edges;
      edges[k] + Total(edges - {k})
  }

  /** Total may be taken apart at any key. */
  lemma {:induction false} TotalRemove(edges: map<string, int>, k: string)
    requires k in edges
    ensures Total(edges) == edges[k] + Total(edges - {k})
    decreases |edges|
  {
    var j :| j in edges && Total(edges) == edges[j] + Total(edges - {j});
    if j != k {
      assert (edges - {j}) - {k} == (edges - {k}) - {j};
      TotalRemove(edges - {j}, k);
      TotalRemove(edges - {k}, j);
    }
  }

  /** Setting one weight changes the total by the difference. */
  lemma {:induction false} TotalUpdate(edges: map<string, int>, k: string, v: int)
    ensures Total(edges[k := v]) == Total(edges) - Weight(edges, k) + v
  {
    TotalRemove(edges[k := v], k);
    assert edges[k := v] - {k} == edges - {k};
    if k in edges {
      TotalRemove(edges, k);
    } else {
      assert edges - {k} == edges;
    }
  }

  /** Positive weights give a non-negative total, zero exactly for no edges. */
  lemma {:induction false} TotalPositive(edges: map<string, int>)
    requires PositiveWeights(edges)
    ensures Total(edges) >= |edges|
    ensures Total(edges) == 0 <==> edges == map[]
    decreases |edges|
  {
    if edges != map[] {
      var k :| k in edges;
      TotalRemove(edges, k);
      TotalPositive(edges - {k});
    }
  }

  /** `order` lists every key of `edges` exactly once. */
  predicate Enumerates(order: seq<string>, edges: map<string, int>) {
    && Distinct(order)
    && (forall k :: k in edges ==> k in order)
    && (forall k :: k in order ==> k in edges)
  }

  predicate Distinct(order: seq<string>) {
    forall i, j :: 0 <= i < j < |order| ==> order[i] != order[j]
  }

  /** The weights summed along `order`. */
  function SumAlong(edges: map<string, int>, order: seq<string>): int {
    if |order| == 0 then 0 else Weight(edges, order[0]) + SumAlong(edges, order[1..])
  }

  lemma {:induction false} SumAlongAgree(e1: map<string, int>, e2: map<string, int>, order: seq<string>)
    requires forall k :: k in order ==> Weight(e1, k) == Weight(e2, k)
    ensures SumAlong(e1, order) == SumAlong(e2, order)
  {
    if |order| > 0 {
      SumAlongAgree(e1, e2, order[1..]);
    }
  }

  /** Whatever the iteration order, summing along it gives the total. */
  lemma {:induction false} SumAlongIsTotal(edges: map<string, int>, order: seq<string>)
    requires Enumerates(order, edges)
    ensures SumAlong(edges, order) == Total(edges)
    decreases |order|
  {
    if |order| == 0 {
      assert edges == map[];
    } else {
      var k := order[0];
      var rest := order[1..];
      var smaller := edges - {k};
      assert k !in rest;
      assert forall x :: x in smaller <==> x in rest;
      SumAlongIsTotal(smaller, rest);
      SumAlongAgree(edges, smaller, rest);
      TotalRemove(edges, k);
    }
  }

  /** The loop of `Node::next` over an iteration order: subtract each weight
      from the drawn number and stop at the first edge that brings it to zero
      or below; None when the edges run out first. The choice, when there is
      one, is an entry of the order. */
  function Pick(edges: map<string, int>, order: seq<string>, number: int): (r: Option<string>)
    ensures r.Some? ==> r.value in order
  {
    if |order| == 0 then None
    else if number - Weight(edges, order[0]) <= 0 then Some(order[0])
    else Pick(edges, order[1..], number - Weight(edges, order[0]))
  }

  /** A draw in range always lands on an edge of the order. */
  lemma {:induction false} PickInRange(edges: map<string, int>, order: seq<string>, number: int)
    requires 1 <= number <= SumAlong(edges, order)
    ensures Pick(edges, order, number).Some?
    ensures Pick(edges, order, number).value in order
  {
    if number - Weight(edges, order[0]) > 0 {
      PickInRange(edges, order[1..], number - Weight(edges, order[0]));
    }
  }

  /** With positive weights the chosen edge is the one whose cumulative weight
      is the first to reach the draw: `order[i]` is chosen exactly when the
      weights before it sum to less than the draw and the weights up to and
      including it sum to at least the draw. */
  lemma {:induction false} PickIsFirstToReach(edges: map<string, int>, order: seq<string>, number: int, i: nat)
    requires Distinct(order) && PositiveWeights(edges)
    requires forall k :: k in order ==> k in edges
    requires i < |order| && 1 <= number
    ensures Pick(edges, order, number) == Some(order[i]) <==>
            SumAlong(edges, order[..i]) < number <= SumAlong(edges, order[..i + 1])
  {
    var w := Weight(edges, order[0]);
    assert order[..1] == [order[0]];
    assert SumAlong(edges, order[..1]) == w by {
      assert order[..1][1..] == [];
    }
    if i == 0 {
      if number - w > 0 {
        assert order[0] !in order[1..] by {
          forall j | 1 <= j < |order| ensures order[j] != order[0] { }
        }
      }
    } else {
      var rest := order[1..];
      assert order[..i][1..] == rest[..i - 1];
      assert order[..i + 1][1..] == rest[..i];
      assert order[i] == rest[i - 1];
      assert order[0] != order[i];
      if number - w > 0 {
        PickIsFirstToReach(edges, rest, number - w, i - 1);
      } else {
        PickBelowStart(edges, rest, i - 1);
      }
    }
  }

  /** A draw in `1..=Total` over any iteration order always lands on an edge. */
  lemma {:induction false} PickFromTotal(edges: map<string, int>, order: seq<string>, number: int)
    requires Enumerates(order, edges)
    ensures 1 <= number <= Total(edges) ==> Pick(edges, order, number).Some?
  {
    SumAlongIsTotal(edges, order);
    if 1 <= number <= Total(edges) {
      PickInRange(edges, order, number);
    }
  }

  /** Helper: positive weights make prefix sums at least the prefix length. */
  lemma {:induction false} PickBelowStart(edges: map<string, int>, order: seq<string>, i: nat)
    requires PositiveWeights(edges)
    requires forall k :: k in order ==> k in edges
    requires i <= |order|
    ensures SumAlong(edges, order[..i]) >= i
  {
    if i > 0 {
      assert order[..i][1..] == order[1..][..i - 1];
      PickBelowStart(edges, order[1..], i - 1);
    }
  }

  /** How many of the draws 1..n choose edge `e`. */
  function Hits(edges: map<string, int>, order: seq<string>, e: string, n: nat): nat {
    if n == 0 then 0
    else Hits(edges, order, e, n - 1) + (if Pick(edges, order, n) == Some(e) then 1 else 0)
  }

  /** The first `w` draws all go to the first edge of the order. */
  lemma {:induction false} HitsWithinFirst(edges: map<string, int>, order: seq<string>, e: string, n: nat)
    requires |order| > 0 && n <= Weight(edges, order[0])
    ensures Hits(edges, order, e, n) == if order[0] == e then n else 0
  {
    if n > 0 {
      HitsWithinFirst(edges, order, e, n - 1);
    }
  }

  /** Past the first edge's weight, the draws are those of the rest of the
      order, shifted by that weight. */
  lemma {:induction false} HitsShift(edges: map<string, int>, order: seq<string>, e: string, n: nat)
    requires |order| > 0 && 0 <= Weight(edges, order[0]) <= n
    ensures Hits(edges, order, e, n) ==
            (if order[0] == e then Weight(edges, order[0]) else 0)
            + Hits(edges, order[1..], e, n - Weight(edges, order[0]))
  {
    if n == Weight(edges, order[0]) {
      HitsWithinFirst(edges, order, e, n);
    } else {
      HitsShift(edges, order, e, n - 1);
    }
  }

  /** Each edge is chosen by exactly as many of the draws 1..sum as its
      weight, whatever the iteration order: with uniform draws, the
      probability of an edge is its weight divided by the sum. */
  lemma {:induction false} HitsMatchWeight(edges: map<string, int>, order: seq<string>, e: string)
    requires Distinct(order) && PositiveWeights(edges)
    requires forall k :: k in order ==> k in edges
    requires SumAlong(edges, order) >= 0
    ensures Hits(edges, order, e, SumAlong(edges, order)) == if e in order then Weight(edges, e) else 0
  {
    if |order| > 0 {
      var rest := order[1..];
      PickBelowStart(edges, rest, |rest|);
      assert rest[..|rest|] == rest;
      HitsShift(edges, order, e, SumAlong(edges, order));
      HitsMatchWeight(edges, rest, e);
      if order[0] == e {
        assert e !in rest by {
          forall j | 0 <= j < |rest| ensures rest[j] != e {
            assert rest[j] == order[j + 1];
          }
        }
      }
    }
  }

  /** The same count for a node's own edge map and any iteration order of it. */
  lemma {:induction false} EdgeChosenByWeightDraws(edges: map<string, int>, order: seq<string>, e: string)
    requires Enumerates(order, edges) && PositiveWeights(edges)
    ensures Total(edges) >= 0
    ensures Hits(edges, order, e, Total(edges)) == Weight(edges, e)
  {
    SumAlongIsTotal(edges, order);
    TotalPositive(edges);
    HitsMatchWeight(edges, order, e);
  }
}
