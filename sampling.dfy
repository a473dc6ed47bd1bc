/**
 * The sampling primitives. Every random draw is taken from an explicit
 * stream `draws` of raw natural numbers, threaded through by value and
 * returned as `rest`: an integer draw below `bound` is `d % bound`, a
 * uniform double draw is `(d % DoubleScale) / DoubleScale`. A rejection
 * loop that has not accepted when the stream runs out returns `None`;
 * the stream stands for the finite part of the generator's random source
 * that one run consumes.
 */
module Sampling {
  import opened Wrappers
  import opened Edges
  import opened Lists

  /** Both runtimes' `random()` / `nextDouble()` return k / 2^53 with 0 <= k < 2^53. */
  const DoubleScale: nat := 0x20_0000_0000_0000

  /** `rest` is what is left of `draws` after some draws were consumed. */
  ghost predicate SuffixOf(rest: seq<nat>, draws: seq<nat>)
  {
    |rest| <= |draws| && rest == draws[|draws| - |rest|..]
  }

  lemma SuffixOfTransitive(rest: seq<nat>, mid: seq<nat>, draws: seq<nat>)
    requires SuffixOf(rest, mid) && SuffixOf(mid, draws)
    ensures SuffixOf(rest, draws)
  {
    assert draws[|draws| - |mid|..][|mid| - |rest|..] == draws[|draws| - |rest|..];
  }

  /**
   * `random_idx(n, excluding)` / Java `randomIdxExcluding`: redraw
   * `randint(0, n-1)` until the value differs from `excluding`.
   */
  method RandomIdx(n: nat, excluding: int, draws: seq<nat>) returns (r: Option<nat>, rest: seq<nat>)
    requires n > 0
    ensures SuffixOf(rest, draws)
    ensures r.Some? ==> r.value < n && r.value != excluding
    ensures r.None? ==> rest == [] && forall d :: d in draws ==> d % n == excluding
  {
    var selected: int := excluding;
    rest := draws;
    while selected == excluding && rest != []
      invariant SuffixOf(rest, draws)
      invariant selected != excluding ==> 0 <= selected < n
      invariant selected == excluding ==>
        forall d :: d in draws[..|draws| - |rest|] ==> d % n == excluding
      decreases |rest|
    {
      ghost var before := draws[..|draws| - |rest|];
      selected := rest[0] % n;
      assert draws[..|draws| - |rest[1..]|] == before + [rest[0]];
      rest := rest[1..];
    }
    if selected == excluding {
      assert draws[..|draws| - |rest|] == draws;
      r := None;
    } else {
      r := Some(selected);
    }
  }

  /**
   * `random_node(nodes, excluding)`: redraw `random.choice(nodes)` until the
   * element differs from `excluding` (compared by value).
   */
  method RandomNode(nodes: seq<int>, excluding: int, draws: seq<nat>) returns (r: Option<int>, rest: seq<nat>)
    requires |nodes| > 0
    ensures SuffixOf(rest, draws)
    ensures r.Some? ==> r.value in nodes && r.value != excluding
    ensures r.None? ==> rest == [] && forall d :: d in draws ==> nodes[d % |nodes|] == excluding
  {
    var selected := excluding;
    rest := draws;
    while selected == excluding && rest != []
      invariant SuffixOf(rest, draws)
      invariant selected != excluding ==> selected in nodes
      invariant selected == excluding ==>
        forall d :: d in draws[..|draws| - |rest|] ==> nodes[d % |nodes|] == excluding
      decreases |rest|
    {
      ghost var before := draws[..|draws| - |rest|];
      selected := nodes[rest[0] % |nodes|];
      assert draws[..|draws| - |rest[1..]|] == before + [rest[0]];
      rest := rest[1..];
    }
    if selected == excluding {
      assert draws[..|draws| - |rest|] == draws;
      r := None;
    } else {
      r := Some(selected);
    }
  }

  /**
   * The draws of `random_edge_as_indices(n)` never yield a second index:
   * the stream is empty, or every draw after the first repeats its index.
   */
  ghost predicate EdgeDrawsRejected(n: nat, draws: seq<nat>)
    requires n > 0
  {
    draws == [] || forall d :: d in draws[1..] ==> d % n == draws[0] % n
  }

  /**
   * `random_edge_as_indices(n)` / Java `randomEdgeAsIndices`: a first index,
   * a second one different from it, put in ascending order.
   */
  method RandomEdgeAsIndices(n: nat, draws: seq<nat>) returns (r: Option<Edge>, rest: seq<nat>)
    requires n > 0
    ensures SuffixOf(rest, draws)
    ensures r.Some? ==> 0 <= r.value.a < r.value.b < n
    ensures r.Some? ==> draws != [] && (r.value.a == draws[0] % n || r.value.b == draws[0] % n)
    ensures r.None? ==> rest == [] && EdgeDrawsRejected(n, draws)
  {
    if draws == [] {
      return None, [];
    }
    var a := draws[0] % n;
    var b;
    b, rest := RandomIdx(n, a, draws[1..]);
    if b.None? {
      return None, rest;
    }
    r := Some(Canonicalize(a, b.value));
  }

  /** Multiplying by a positive factor keeps a strict order. */
  lemma {:induction false} MulStrictlyMonotone(n: nat, u: nat, m: nat)
    requires n > 0 && u < m
    ensures n * u < n * m
  {
    if n > 1 {
      MulStrictlyMonotone(n - 1, u, m);
      assert n * u == (n - 1) * u + u;
      assert n * m == (n - 1) * m + m;
    }
  }

  /** Scaling a double draw by `n` and truncating lands in `[0, n)`. */
  lemma ScaledIndexInRange(n: nat, u: nat)
    requires n > 0 && u < DoubleScale
    ensures 0 <= (n * u) / DoubleScale < n
  {
    MulStrictlyMonotone(n, u, DoubleScale);
  }

  /** The index a round's first draw selects among `n`: `int(n * random())`. */
  function RoundIndex(n: nat, x: nat): (i: nat)
    requires n > 0
    ensures i < n
  {
    ScaledIndexInRange(n, x % DoubleScale);
    (n * (x % DoubleScale)) / DoubleScale
  }

  /**
   * A round with draws `x` and `u` accepts its index: the drawn double
   * `u / 2^53` is below `weights[i] / maxWeight`.
   */
  predicate Accepts(weights: seq<int>, maxWeight: int, x: nat, u: nat)
    requires |weights| > 0
  {
    (u % DoubleScale) * maxWeight < weights[RoundIndex(|weights|, x)] * DoubleScale
  }

  /** Round `k` of the stream, draws `2k` and `2k + 1`, exists and rejects. */
  ghost predicate RejectedRound(weights: seq<int>, maxWeight: int, draws: seq<nat>, k: nat)
    requires |weights| > 0
  {
    2 * k + 1 < |draws| && !Accepts(weights, maxWeight, draws[2 * k], draws[2 * k + 1])
  }

  /**
   * `random_proportional_selection(weights, max_weight)` / Java
   * `randomProportionalSelection`: stochastic acceptance (Lipowski and
   * Lipowska 2012). Each round draws an index `i = int(n * random())` and
   * accepts it when `random() < weights[i] / max_weight`; with the drawn
   * double `u / 2^53` that test is `u * max_weight < weights[i] * 2^53`.
   * A round that cannot get both of its draws ends the loop.
   */
  method RandomProportionalSelection(weights: seq<int>, maxWeight: int, draws: seq<nat>)
    returns (r: Option<nat>, rest: seq<nat>)
    requires |weights| > 0 && maxWeight > 0
    ensures SuffixOf(rest, draws) && (|draws| - |rest|) % 2 == 0
    ensures r.Some? ==> r.value < |weights| && weights[r.value] > 0
    ensures r.Some? ==>
      && |draws| - |rest| >= 2
      && var k := (|draws| - |rest|) / 2 - 1;
         Accepts(weights, maxWeight, draws[2 * k], draws[2 * k + 1]) && r.value == RoundIndex(|weights|, draws[2 * k])
    ensures r.None? ==> |rest| < 2
    ensures forall k :: 0 <= k < (|draws| - |rest|) / 2 - (if r.Some? then 1 else 0) ==>
      RejectedRound(weights, maxWeight, draws, k)
  {
    var n := |weights|;
    rest := draws;
    ghost var t: nat := 0;
    while |rest| >= 2
      invariant SuffixOf(rest, draws) && |draws| - |rest| == 2 * t
      invariant forall k :: 0 <= k < t ==> RejectedRound(weights, maxWeight, draws, k)
      decreases |rest|
    {
      assert rest[0] == draws[2 * t] && rest[1] == draws[2 * t + 1];
      var x := rest[0] % DoubleScale;
      ScaledIndexInRange(n, x);
      var i := (n * x) / DoubleScale;
      var u := rest[1] % DoubleScale;
      rest := rest[2..];
      if u * maxWeight < weights[i] * DoubleScale {
        assert Accepts(weights, maxWeight, draws[2 * t], draws[2 * t + 1]);
        return Some(i), rest;
      }
      assert RejectedRound(weights, maxWeight, draws, t);
      t := t + 1;
    }
    r := None;
  }

  /**
   * `random_pair_from_list(nodes)` / Java `randomPairFromList`: the values
   * at two distinct random positions, in ascending order.
   */
  method RandomPairFromList(nodes: seq<int>, draws: seq<nat>) returns (r: Option<Edge>, rest: seq<nat>)
    requires |nodes| > 0
    ensures SuffixOf(rest, draws)
    ensures r.Some? ==> exists i, j :: 0 <= i < j < |nodes| && r.value == Canonicalize(nodes[i], nodes[j])
    ensures r.Some? ==> r.value.a in nodes && r.value.b in nodes && r.value.a <= r.value.b
    ensures r.Some? && NoDup(nodes) ==> r.value.Canonical()
    ensures r.None? ==> rest == [] && EdgeDrawsRejected(|nodes|, draws)
  {
    var idxs;
    idxs, rest := RandomEdgeAsIndices(|nodes|, draws);
    if idxs.None? {
      return None, rest;
    }
    var i, j := idxs.value.a, idxs.value.b;
    r := Some(Canonicalize(nodes[i], nodes[j]));
    if NoDup(nodes) {
      NoDupDistinct(nodes, i, j);
    }
  }

  /**
   * Python `list(nodes)` on a set: some enumeration of its elements, each
   * exactly once. The order is the runtime's and is not modelled.
   */
  method ListOfSet(s: set<int>) returns (xs: seq<int>)
    ensures NoDup(xs)
    ensures forall x :: x in xs <==> x in s
    ensures |xs| == |s|
  {
    xs := [];
    var remaining := s;
    while remaining != {}
      invariant remaining <= s
      invariant NoDup(xs)
      invariant forall x :: x in xs <==> x in s && x !in remaining
      invariant |xs| + |remaining| == |s|
      decreases |remaining|
    {
      if forall y :: y !in remaining {
        assert false;  // a non-empty set has a member
      }
      var x :| x in remaining;
      NoDupAppend(xs, x);
      xs := xs + [x];
      remaining := remaining - {x};
    }
  }

  /** `random_pair_from_set(nodes)`: a canonical pair of two distinct members. */
  method RandomPairFromSet(nodes: set<int>, draws: seq<nat>) returns (r: Option<Edge>, rest: seq<nat>)
    requires |nodes| > 0
    ensures SuffixOf(rest, draws)
    ensures r.Some? ==> r.value.a in nodes && r.value.b in nodes && r.value.Canonical()
    ensures r.None? ==> rest == [] && EdgeDrawsRejected(|nodes|, draws)
  {
    var xs := ListOfSet(nodes);
    r, rest := RandomPairFromList(xs, draws);
  }
}
