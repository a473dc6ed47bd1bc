/**
 * The generator, class `JinGen` in both languages: the graph state with its
 * derived per-node quantities, the two edge mutations that keep them in
 * step, the admission gate, the three update rules of the Jin, Girvan and
 * Newman (2001) model and the driver that applies them.
 *
 * The rates `r_0`, `r_1` and `gamma` are floating point and enter the
 * program only through `round(x * rate)`; each is given here as a count
 * function from the base quantity `x` to the number of trials.
 */
module Generator {
  import opened Wrappers
  import opened Edges
  import opened Lists
  import opened Sampling
  import opened Graph

  /** How a run ends. */
  datatype RunResult =
    | Finished(edges: set<Edge>)
      /** The random stream ran out during iteration `at`. */
    | DrawsExhausted(at: nat)
      /** The decay rule of iteration `at` found no edge left to lose (see `NoWeight`). */
    | NoEdgeToLose(at: nat)
      /** Java's `prepareSimulation` refuses a configuration with no meetings. */
    | ZeroMeetingRate

  /** How a run of the decay rule ends. */
  datatype LossStatus =
    | Completed
      /** The random stream ran out. */
    | OutOfDraws
      /**
       * A selection was due with every degree 0: Python's division by
       * `max_degree` raises `ZeroDivisionError`, Java's acceptance test
       * compares against NaN and never accepts.
       */
    | NoWeight

  /** The number of unordered pairs of `n` nodes, counted as `0 + 1 + ... + (n - 1)`. */
  function PairCount(n: nat): nat
  {
    if n == 0 then 0 else PairCount(n - 1) + (n - 1)
  }

  /** The count is the closed form `n * (n - 1) / 2` the program computes, and 0 only below two nodes. */
  lemma {:induction false} PairCountFormula(n: nat)
    ensures PairCount(n) == n * (n - 1) / 2
    ensures PairCount(n) == 0 <==> n < 2
  {
    if n > 0 {
      PairCountFormula(n - 1);
      assert n * (n - 1) == (n - 1) * (n - 2) + 2 * (n - 1);
    }
  }

  /** The mutual meet factor of a node of degree `k`: twice the number of pairs among its friends. */
  function MeetFactor(k: int): int
  {
    k * (k - 1)
  }

  /** The meet factor is never negative, and positive exactly from degree 2 on. */
  lemma MeetFactorPositive(k: int)
    requires k >= 0
    ensures MeetFactor(k) >= 0
    ensures MeetFactor(k) > 0 <==> k >= 2
  {
    if k >= 2 {
      assert k * (k - 1) == k * k - k;
      assert k * k >= 2 * k;
    }
  }

  /**
   * The first `k` nodes' counts agree with their lists: each degree is the
   * list's length and each meet factor is that of the degree. Stated one
   * node at a time so that it unfolds only as far as a proof asks.
   */
  ghost predicate CountsAgree(adj: map<int, seq<int>>, deg: seq<int>, mmf: seq<int>, k: nat)
    decreases k
  {
    && k <= |deg| && k <= |mmf|
    && (k == 0 ||
        (&& deg[k - 1] == |Neighbours(adj, k - 1)|
         && mmf[k - 1] == MeetFactor(deg[k - 1])
         && CountsAgree(adj, deg, mmf, k - 1)))
  }

  /** `CountsAgree` says the same as its node-by-node reading. */
  lemma {:induction false} CountsAgreePointwise(adj: map<int, seq<int>>, deg: seq<int>, mmf: seq<int>, k: nat)
    ensures CountsAgree(adj, deg, mmf, k) <==>
      (&& k <= |deg| && k <= |mmf|
       && forall i :: 0 <= i < k ==> deg[i] == |Neighbours(adj, i)| && mmf[i] == MeetFactor(deg[i]))
    decreases k
  {
    if k > 0 {
      CountsAgreePointwise(adj, deg, mmf, k - 1);
    }
  }

  /**
   * The per-node quantities agree with the neighbour lists: each degree is
   * the list's length, each meet factor is that of the degree, and the two
   * running maxima are the largest degree and its factor.
   */
  ghost predicate InStep(n: nat, adj: map<int, seq<int>>, deg: seq<int>, mmf: seq<int>, maxD: int, maxM: int)
  {
    && |deg| == n && |mmf| == n
    && CountsAgree(adj, deg, mmf, n)
    && maxD == MaxOrZero(deg)
    && maxM == MeetFactor(maxD)
  }

  /** Node `i`'s counts, read off counts that are in step. */
  lemma InStepAt(n: nat, adj: map<int, seq<int>>, deg: seq<int>, mmf: seq<int>, maxD: int, maxM: int, i: int)
    requires InStep(n, adj, deg, mmf, maxD, maxM) && 0 <= i < n
    ensures deg[i] == |Neighbours(adj, i)| && mmf[i] == MeetFactor(deg[i])
  {
    CountsAgreePointwise(adj, deg, mmf, n);
  }

  /**
   * The neighbour lists determine everything else: two states in step with
   * the same lists have the same degrees, meet factors and maxima.
   */
  lemma InStepDetermined(n: nat, adj: map<int, seq<int>>, adj': map<int, seq<int>>,
                         deg: seq<int>, mmf: seq<int>, maxD: int, maxM: int,
                         deg': seq<int>, mmf': seq<int>, maxD': int, maxM': int)
    requires InStep(n, adj, deg, mmf, maxD, maxM) && InStep(n, adj', deg', mmf', maxD', maxM')
    requires forall i :: 0 <= i < n ==> Neighbours(adj', i) == Neighbours(adj, i)
    ensures deg' == deg && mmf' == mmf && maxD' == maxD && maxM' == maxM
  {
    CountsAgreePointwise(adj, deg, mmf, n);
    CountsAgreePointwise(adj', deg', mmf', n);
    assert deg' == deg;
  }

  /** With no neighbour lists, all-zero counts are in step. */
  lemma InStepEmpty(n: nat, deg: seq<int>, mmf: seq<int>)
    requires |deg| == n && |mmf| == n
    requires forall i :: 0 <= i < n ==> deg[i] == 0 && mmf[i] == 0
    ensures InStep(n, map[], deg, mmf, 0, 0)
  {
    CountsAgreePointwise(map[], deg, mmf, n);
    MaxOrZeroUnique(deg, 0);
  }

  /**
   * Changing only the list of `a`, and setting its counts from the new
   * list, keeps the counts in agreement.
   */
  lemma CountsAgreeAfterChange(n: nat, adj: map<int, seq<int>>, adj': map<int, seq<int>>, deg: seq<int>, mmf: seq<int>, a: int)
    requires |deg| == n && |mmf| == n && CountsAgree(adj, deg, mmf, n) && 0 <= a < n
    requires forall i :: i != a ==> Neighbours(adj', i) == Neighbours(adj, i)
    ensures var k := |Neighbours(adj', a)|;
      CountsAgree(adj', deg[a := k], mmf[a := MeetFactor(k)], n)
  {
    var k := |Neighbours(adj', a)|;
    CountsAgreePointwise(adj, deg, mmf, n);
    CountsAgreePointwise(adj', deg[a := k], mmf[a := MeetFactor(k)], n);
  }

  /** Appending `b` to the list of `a` and raising its counts keeps them in step. */
  lemma InStepAfterAppend(n: nat, adj: map<int, seq<int>>, deg: seq<int>, mmf: seq<int>, maxD: int, maxM: int, a: int, b: int)
    requires InStep(n, adj, deg, mmf, maxD, maxM) && 0 <= a < n
    ensures var k := deg[a] + 1;
      InStep(n, Append(adj, a, b), deg[a := k], mmf[a := MeetFactor(k)],
        if k > maxD then k else maxD, if k > maxD then MeetFactor(k) else maxM)
  {
    InStepAt(n, adj, deg, mmf, maxD, maxM, a);
    CountsAgreeAfterChange(n, adj, Append(adj, a, b), deg, mmf, a);
    MaxAfterIncrement(deg, a);
  }

  /**
   * Dropping `b` from the list of `a` and lowering its counts keeps them in
   * step once the maximum is the new largest degree, which is the old
   * maximum unless `a` held it.
   */
  lemma InStepAfterDrop(n: nat, adj: map<int, seq<int>>, deg: seq<int>, mmf: seq<int>, maxD: int, maxM: int, a: int, b: int)
    requires InStep(n, adj, deg, mmf, maxD, maxM) && 0 <= a < n && b in Neighbours(adj, a)
    ensures var k := deg[a] - 1; var m := MaxOrZero(deg[a := k]);
      && InStep(n, Drop(adj, a, b), deg[a := k], mmf[a := MeetFactor(k)], m, MeetFactor(m))
      && (k + 1 != maxD ==> m == maxD)
  {
    var adj' := Drop(adj, a, b);
    InStepAt(n, adj, deg, mmf, maxD, maxM, a);
    assert |Neighbours(adj', a)| == |Neighbours(adj, a)| - 1;
    CountsAgreeAfterChange(n, adj, adj', deg, mmf, a);
    if deg[a] != maxD {
      MaxAfterDecrement(deg, a);
    }
  }

  /** No degree exceeds the cap `z`. */
  ghost predicate Capped(deg: seq<int>, z: int)
  {
    forall i :: 0 <= i < |deg| ==> deg[i] <= z
  }

  /**
   * Adding the edge `e` raises the degrees of `e.a` and `e.b` by one each
   * and leaves every other degree alone.
   */
  lemma DegreesAfterAdd(n: nat, adj: map<int, seq<int>>, deg: seq<int>, mmf: seq<int>,
                        deg': seq<int>, mmf': seq<int>, e: Edge)
    requires |deg| == n && |mmf| == n && CountsAgree(adj, deg, mmf, n)
    requires |deg'| == n && |mmf'| == n && CountsAgree(Append(Append(adj, e.a, e.b), e.b, e.a), deg', mmf', n)
    requires 0 <= e.a < e.b < n
    ensures deg'[e.a] == deg[e.a] + 1 && deg'[e.b] == deg[e.b] + 1
    ensures forall i :: 0 <= i < n && i != e.a && i != e.b ==> deg'[i] == deg[i]
  {
    var adj1 := Append(adj, e.a, e.b);
    var adj' := Append(adj1, e.b, e.a);
    CountsAgreePointwise(adj, deg, mmf, n);
    CountsAgreePointwise(adj', deg', mmf', n);
    assert Neighbours(adj', e.a) == Neighbours(adj1, e.a) == Neighbours(adj, e.a) + [e.b];
    assert Neighbours(adj', e.b) == Neighbours(adj1, e.b) + [e.a];
  }

  /**
   * Removing the present edge `e` lowers the degrees of `e.a` and `e.b` by
   * one each and leaves every other degree alone.
   */
  lemma DegreesAfterRemove(n: nat, adj: map<int, seq<int>>, deg: seq<int>, mmf: seq<int>,
                           deg': seq<int>, mmf': seq<int>, e: Edge)
    requires e.a != e.b && e.b in Neighbours(adj, e.a) && e.a in Neighbours(Drop(adj, e.a, e.b), e.b)
    requires |deg| == n && |mmf| == n && CountsAgree(adj, deg, mmf, n)
    requires |deg'| == n && |mmf'| == n && CountsAgree(Drop(Drop(adj, e.a, e.b), e.b, e.a), deg', mmf', n)
    requires 0 <= e.a < n && 0 <= e.b < n
    ensures deg'[e.a] == deg[e.a] - 1 && deg'[e.b] == deg[e.b] - 1
    ensures forall i :: 0 <= i < n && i != e.a && i != e.b ==> deg'[i] == deg[i]
  {
    var adj1 := Drop(adj, e.a, e.b);
    var adj' := Drop(adj1, e.b, e.a);
    CountsAgreePointwise(adj, deg, mmf, n);
    CountsAgreePointwise(adj', deg', mmf', n);
    assert Neighbours(adj', e.a) == Neighbours(adj1, e.a) == RemoveValue(Neighbours(adj, e.a), e.b);
    assert Neighbours(adj', e.b) == RemoveValue(Neighbours(adj1, e.b), e.a);
  }

  /**
   * Adding the edge `e` whose endpoints are both below the cap keeps every
   * degree within it and cannot lower the maximum degree.
   */
  lemma CappedAfterAdd(n: nat, adj: map<int, seq<int>>, deg: seq<int>, mmf: seq<int>, maxD: int, maxM: int,
                       deg': seq<int>, mmf': seq<int>, maxD': int, maxM': int, e: Edge, z: int)
    requires InStep(n, adj, deg, mmf, maxD, maxM)
    requires InStep(n, Append(Append(adj, e.a, e.b), e.b, e.a), deg', mmf', maxD', maxM')
    requires 0 <= e.a < e.b < n
    requires Capped(deg, z) && deg[e.a] < z && deg[e.b] < z
    ensures Capped(deg', z)
    ensures maxD' >= maxD
  {
    DegreesAfterAdd(n, adj, deg, mmf, deg', mmf', e);
    if maxD != 0 {
      var j :| 0 <= j < n && deg[j] == maxD;
      assert deg'[j] >= deg[j];
    }
  }

  /** Removing a present edge keeps every degree within a cap that held. */
  lemma CappedAfterRemove(n: nat, edges: set<Edge>, adj: map<int, seq<int>>, deg: seq<int>, mmf: seq<int>, maxD: int, maxM: int,
                          deg': seq<int>, mmf': seq<int>, maxD': int, maxM': int, e: Edge, z: int)
    requires Linked(n, edges, adj) && e in edges
    requires InStep(n, adj, deg, mmf, maxD, maxM)
    requires InStep(n, Drop(Drop(adj, e.a, e.b), e.b, e.a), deg', mmf', maxD', maxM')
    requires Capped(deg, z)
    ensures Capped(deg', z)
  {
    RemoveKeepsLinked(n, edges, adj, e);
    assert e == Edge(e.a, e.b);
    DegreesAfterRemove(n, adj, deg, mmf, deg', mmf', e);
  }

  /**
   * The meet factors sum to a positive number exactly when some node has
   * two neighbours, that is when the maximum degree is at least 2; the
   * maximum meet factor is then positive too.
   */
  lemma MeetFactorSumPositive(n: nat, adj: map<int, seq<int>>, deg: seq<int>, mmf: seq<int>, maxD: int, maxM: int)
    requires InStep(n, adj, deg, mmf, maxD, maxM)
    ensures Sum(mmf) >= 0
    ensures Sum(mmf) > 0 <==> maxD >= 2
    ensures maxM > 0 <==> maxD >= 2
  {
    CountsAgreePointwise(adj, deg, mmf, n);
    forall i | 0 <= i < n ensures mmf[i] >= 0 && (mmf[i] > 0 <==> deg[i] >= 2) {
      MeetFactorPositive(deg[i]);
    }
    SumPositiveIff(mmf);
    MeetFactorPositive(maxD);
    if maxD >= 2 {
      var j :| 0 <= j < n && deg[j] == maxD;
      assert mmf[j] > 0;
    }
  }

  /** No degree in `deg'` is below the one at the same node in `deg`. */
  ghost predicate DegreesGrew(deg: seq<int>, deg': seq<int>)
  {
    |deg| == |deg'| && forall i :: 0 <= i < |deg| ==> deg[i] <= deg'[i]
  }

  /**
   * Each pair in `tried` joins two nodes and is an edge of `edges` or has
   * an endpoint whose degree in `deg` has reached `z`: what is left of a
   * pair the gate saw, since it refuses only a present edge or a full
   * endpoint.
   */
  ghost predicate EdgeOrCapped(tried: seq<Edge>, edges: set<Edge>, deg: seq<int>, z: int)
  {
    forall k :: 0 <= k < |tried| ==>
      && 0 <= tried[k].a < tried[k].b < |deg|
      && (tried[k] in edges || deg[tried[k].a] >= z || deg[tried[k].b] >= z)
  }

  /** Growing the edge set and the degrees keeps a record of tried pairs valid. */
  lemma EdgeOrCappedGrows(tried: seq<Edge>, edges: set<Edge>, deg: seq<int>, edges': set<Edge>, deg': seq<int>, z: int)
    requires EdgeOrCapped(tried, edges, deg, z)
    requires edges <= edges' && DegreesGrew(deg, deg')
    ensures EdgeOrCapped(tried, edges', deg', z)
  {
  }

  /** Every edge of `edges` was already in `base` or is one of the pairs tried. */
  ghost predicate GrownFrom(edges: set<Edge>, base: set<Edge>, tried: seq<Edge>)
  {
    forall e :: e in edges ==> e in base || e in tried
  }

  /** A trial that adds at most its own pair keeps the edge set covered by the record. */
  lemma GrownFromStep(edges: set<Edge>, edges': set<Edge>, base: set<Edge>, tried: seq<Edge>, pair: Edge)
    requires GrownFrom(edges, base, tried) && edges' <= edges + {pair}
    ensures GrownFrom(edges', base, tried + [pair])
  {
    forall e | e in edges' ensures e in base || e in tried + [pair] {
      if e != pair {
        assert e in edges;
      }
    }
  }

  /** Records of tried pairs concatenate. */
  lemma EdgeOrCappedAppend(s: seq<Edge>, t: seq<Edge>, edges: set<Edge>, deg: seq<int>, z: int)
    requires EdgeOrCapped(s, edges, deg, z) && EdgeOrCapped(t, edges, deg, z)
    ensures EdgeOrCapped(s + t, edges, deg, z)
  {
    forall k | 0 <= k < |s + t|
      ensures 0 <= (s + t)[k].a < (s + t)[k].b < |deg|
      ensures (s + t)[k] in edges || deg[(s + t)[k].a] >= z || deg[(s + t)[k].b] >= z
    {
      if k >= |s| {
        assert (s + t)[k] == t[k - |s|];
      }
    }
  }

  /** Raising degrees twice raises them. */
  lemma DegreesGrewTransitive(deg: seq<int>, deg': seq<int>, deg'': seq<int>)
    requires DegreesGrew(deg, deg') && DegreesGrew(deg', deg'')
    ensures DegreesGrew(deg, deg'')
  {
  }

  /** Losing edges keeps every remaining edge covered by the record. */
  lemma GrownFromShrinks(edges: set<Edge>, edges': set<Edge>, base: set<Edge>, tried: seq<Edge>)
    requires GrownFrom(edges, base, tried) && edges' <= edges
    ensures GrownFrom(edges', base, tried)
  {
  }

  /** Two phases of growth: the records of both phases cover the final edges. */
  lemma GrownFromConcat(edges: set<Edge>, mid: set<Edge>, base: set<Edge>, s: seq<Edge>, t: seq<Edge>)
    requires GrownFrom(mid, base, s) && GrownFrom(edges, mid, t)
    ensures GrownFrom(edges, base, s + t)
  {
    forall e | e in edges ensures e in base || e in s + t {
      if e in t {
        assert e in s + t;
      } else {
        assert e in mid;
        if e in s {
          assert e in s + t;
        }
      }
    }
  }

  /**
   * Each pair in `pairs` is canonical and both its ends are friends of the
   * ego at the same position in `egos`, a node of `[0, n)`: what an
   * introduction picks.
   */
  ghost predicate FriendsOfEgos(egos: seq<int>, pairs: seq<Edge>, edges: set<Edge>, n: nat)
  {
    && |egos| == |pairs|
    && forall k :: 0 <= k < |pairs| ==>
      && 0 <= egos[k] < n && pairs[k].Canonical()
      && Canonicalize(egos[k], pairs[k].a) in edges
      && Canonicalize(egos[k], pairs[k].b) in edges
  }

  /** A record of introductions stays true as the edge set grows. */
  lemma FriendsOfEgosGrows(egos: seq<int>, pairs: seq<Edge>, edges: set<Edge>, edges': set<Edge>, n: nat)
    requires FriendsOfEgos(egos, pairs, edges, n) && edges <= edges'
    ensures FriendsOfEgos(egos, pairs, edges', n)
  {
  }

  /** One more introduction extends the record. */
  lemma FriendsOfEgosAppend(egos: seq<int>, pairs: seq<Edge>, edges: set<Edge>, n: nat, ego: int, pair: Edge)
    requires FriendsOfEgos(egos, pairs, edges, n)
    requires 0 <= ego < n && pair.Canonical()
    requires Canonicalize(ego, pair.a) in edges && Canonicalize(ego, pair.b) in edges
    ensures FriendsOfEgos(egos + [ego], pairs + [pair], edges, n)
  {
    var egos', pairs' := egos + [ego], pairs + [pair];
    forall k | 0 <= k < |pairs'|
      ensures 0 <= egos'[k] < n && pairs'[k].Canonical()
      ensures Canonicalize(egos'[k], pairs'[k].a) in edges && Canonicalize(egos'[k], pairs'[k].b) in edges
    {
      if k < |pairs| {
        assert egos'[k] == egos[k] && pairs'[k] == pairs[k];
      }
    }
  }

  /**
   * The records of `IntroduceFriends` after one more trial: they survive
   * the trial's growth, and a completed trial that added at most its own
   * pair, two friends of `ego`, extends them by that pair.
   */
  lemma IntroductionRecorded(introduced: seq<Edge>, egos: seq<int>, base: set<Edge>, n: nat, z: int,
                             deg: seq<int>, edges0: set<Edge>, deg0: seq<int>, edges: set<Edge>, deg': seq<int>,
                             ok: bool, ego: int, pair: Edge)
    requires GrownFrom(edges0, base, introduced) && EdgeOrCapped(introduced, edges0, deg0, z)
    requires FriendsOfEgos(egos, introduced, edges0, n) && DegreesGrew(deg, deg0)
    requires edges0 <= edges && DegreesGrew(deg0, deg')
    requires ok ==>
      && 0 <= ego < n && pair.Canonical()
      && Canonicalize(ego, pair.a) in edges0 && Canonicalize(ego, pair.b) in edges0
      && edges <= edges0 + {pair} && EdgeOrCapped([pair], edges, deg', z)
    ensures DegreesGrew(deg, deg') && EdgeOrCapped(introduced, edges, deg', z)
    ensures FriendsOfEgos(egos, introduced, edges, n)
    ensures ok ==>
      && GrownFrom(edges, base, introduced + [pair])
      && EdgeOrCapped(introduced + [pair], edges, deg', z)
      && FriendsOfEgos(egos + [ego], introduced + [pair], edges, n)
  {
    DegreesGrewTransitive(deg, deg0, deg');
    EdgeOrCappedGrows(introduced, edges0, deg0, edges, deg', z);
    FriendsOfEgosGrows(egos, introduced, edges0, edges, n);
    if ok {
      FriendsOfEgosAppend(egos, introduced, edges, n, ego, pair);
      EdgeOrCappedAppend(introduced, [pair], edges, deg', z);
      GrownFromStep(edges0, edges, base, introduced, pair);
    }
  }

  /** The graph between the meeting rule and the introduction rule of an iteration. */
  datatype Snapshot = Snapshot(edges: set<Edge>, adjList: map<int, seq<int>>, meetFactors: seq<int>)

  /**
   * What one round of growth from `base` did: the meeting rule took the
   * edges to `mid`, whose meet factors are those of its lists, adding only
   * pairs of `met`; the introduction rule then took them to `grown`,
   * adding only pairs of `introduced`, each made of two friends of the
   * matching ego.
   */
  ghost predicate GrowthRecord(n: nat, base: set<Edge>, mid: Snapshot, grown: set<Edge>,
                               met: seq<Edge>, introduced: seq<Edge>, egos: seq<int>)
  {
    && base <= mid.edges <= grown
    && Linked(n, mid.edges, mid.adjList)
    && |mid.meetFactors| == n
    && (forall j :: 0 <= j < n ==> mid.meetFactors[j] == MeetFactor(|Neighbours(mid.adjList, j)|))
    && GrownFrom(mid.edges, base, met) && GrownFrom(grown, mid.edges, introduced)
    && FriendsOfEgos(egos, introduced, grown, n)
  }

  /**
   * An example: on the path 0 - 1 - 2, node 1 is the only person with two
   * friends, so every introduction tries the pair (0, 2); when no degree
   * can reach the cap it ends as an edge.
   */
  lemma IntroductionOnPath(egos: seq<int>, pairs: seq<Edge>, edges: set<Edge>, deg: seq<int>, z: int)
    requires FriendsOfEgos(egos, pairs, {Edge(0, 1), Edge(1, 2)}, 3)
    requires EdgeOrCapped(pairs, edges, deg, z) && Capped(deg, 2) && z > 2
    ensures forall k :: 0 <= k < |pairs| ==> pairs[k] == Edge(0, 2)
    ensures |pairs| > 0 ==> Edge(0, 2) in edges
  {
    forall k | 0 <= k < |pairs| ensures pairs[k] == Edge(0, 2) {
      var x, p := egos[k], pairs[k];
      assert Canonicalize(x, p.a) in {Edge(0, 1), Edge(1, 2)};
      assert Canonicalize(x, p.b) in {Edge(0, 1), Edge(1, 2)};
    }
    if |pairs| > 0 {
      assert deg[pairs[0].a] <= 2 && deg[pairs[0].b] <= 2;
    }
  }

  /** A linked state has no edges exactly when its maximum degree is 0. */
  lemma NoEdgesIffZeroMax(n: nat, edges: set<Edge>, adj: map<int, seq<int>>, deg: seq<int>, mmf: seq<int>, maxD: int, maxM: int)
    requires Linked(n, edges, adj) && InStep(n, adj, deg, mmf, maxD, maxM)
    ensures edges == {} <==> maxD == 0
  {
    CountsAgreePointwise(adj, deg, mmf, n);
    if edges == {} {
      forall i | 0 <= i < n ensures deg[i] == 0 {
        if |Neighbours(adj, i)| > 0 {
          NeighbourIsNode(n, edges, adj, i, Neighbours(adj, i)[0]);
        }
      }
      MaxOrZeroUnique(deg, 0);
    } else {
      var e :| e in edges;
      assert e == Edge(e.a, e.b);
      assert |Neighbours(adj, e.a)| > 0;
    }
  }

  class JinGen {
    /** The saturation threshold z*. */
    const zStar: int
    /** Decay is skipped for iteration indices up to this one. */
    const barrierIters: int

    var iteration: int
    var n: nat
    var numPairs: nat
    var edges: set<Edge>
    var adjList: map<int, seq<int>>
    var degrees: array<int>
    var maxDegree: int
    var mutualMeetFactors: array<int>
    var maxMutualMeetFactor: int

    /** The derived quantities agree with the neighbour lists (see `InStep`). */
    ghost predicate Counted()
      reads this`n, this`numPairs, this`adjList, this`degrees, this`maxDegree
      reads this`mutualMeetFactors, this`maxMutualMeetFactor, degrees, mutualMeetFactors
    {
      && degrees != mutualMeetFactors
      && numPairs == PairCount(n)
      && InStep(n, adjList, degrees[..], mutualMeetFactors[..], maxDegree, maxMutualMeetFactor)
    }

    /** The state invariant: counts in step and a simple graph on `[0, n)`. */
    ghost predicate Valid()
      reads this`n, this`numPairs, this`adjList, this`degrees, this`maxDegree
      reads this`mutualMeetFactors, this`maxMutualMeetFactor, degrees, mutualMeetFactors, this`edges
    {
      Counted() && Linked(n, edges, adjList)
    }

    /** The degree bound z*, read as 0 when it is negative (no edge can then be added). */
    function Cap(): int
    {
      if zStar < 0 then 0 else zStar
    }

    /** No node has more connections than the cap. */
    ghost predicate WithinCap()
      reads this`degrees, degrees
    {
      Capped(degrees[..], Cap())
    }

    /**
     * The constructor keeps the parameters, whose defaults are those of
     * both versions (`z_star=5`, `barrier_iters=1`); the state is that of
     * an empty population.
     */
    constructor (zStar: int := 5, barrierIters: int := 1)
      ensures this.zStar == zStar && this.barrierIters == barrierIters
      ensures Valid() && n == 0 && edges == {} && iteration == 0
    {
      this.zStar := zStar;
      this.barrierIters := barrierIters;
      iteration := 0;
      n := 0;
      numPairs := 0;
      edges := {};
      adjList := map[];
      degrees := new int[0];
      maxDegree := 0;
      mutualMeetFactors := new int[0];
      maxMutualMeetFactor := 0;
    }

    /** `_setup(n)`: a fresh, empty state for `n` nodes. */
    method Setup(n: nat)
      modifies this
      ensures Valid() && fresh(degrees) && fresh(mutualMeetFactors)
      ensures this.n == n && iteration == old(iteration)
      ensures edges == {} && adjList == map[]
      ensures forall i :: 0 <= i < n ==> degrees[i] == 0 && mutualMeetFactors[i] == 0
      ensures maxDegree == 0 && maxMutualMeetFactor == 0
    {
      var deg := new int[n](_ => 0);
      var mmf := new int[n](_ => 0);
      InStepEmpty(n, deg[..], mmf[..]);
      this.n := n;
      edges := {};
      adjList := map[];
      degrees := deg;
      maxDegree := 0;
      mutualMeetFactors := mmf;
      maxMutualMeetFactor := 0;
      numPairs := PairCount(n);
    }

    /**
     * Java `prepareSimulation(n)`: the same fresh state, then the check that
     * throws "Bad Config" when the meeting count `round(numPairs * r0)` is 0.
     */
    method PrepareSimulation(n: nat, meetCount: nat -> nat) returns (ok: bool)
      modifies this
      ensures Valid() && fresh(degrees) && fresh(mutualMeetFactors)
      ensures this.n == n && numPairs == PairCount(n) && iteration == old(iteration)
      ensures edges == {} && forall i :: 0 <= i < n ==> degrees[i] == 0
      ensures ok <==> meetCount(PairCount(n)) != 0
    {
      Setup(n);
      ok := meetCount(numPairs) != 0;
    }

    /** Java `findMadDegree`: the largest degree, or 0 when every degree is 0. */
    method FindMaxDegree() returns (maxFound: int)
      requires degrees.Length == n
      ensures maxFound == MaxOrZero(degrees[..])
    {
      maxFound := 0;
      var i := 0;
      while i < n
        invariant 0 <= i <= n
        invariant maxFound == MaxOrZero(degrees[..i])
      {
        var x := degrees[i];
        assert degrees[..i + 1][..i] == degrees[..i];
        if x > maxFound {
          maxFound := x;
        }
        i := i + 1;
      }
      assert degrees[..n] == degrees[..];
    }

    /** Java `sumOfMutualMeetFactors`: the sum over all nodes. */
    method SumOfMutualMeetFactors() returns (accumulator: int)
      requires mutualMeetFactors.Length == n
      ensures accumulator == Sum(mutualMeetFactors[..])
    {
      accumulator := 0;
      var i := 0;
      while i < n
        invariant 0 <= i <= n
        invariant accumulator == Sum(mutualMeetFactors[..i])
      {
        assert mutualMeetFactors[..i + 1][..i] == mutualMeetFactors[..i];
        accumulator := accumulator + mutualMeetFactors[i];
        i := i + 1;
      }
      assert mutualMeetFactors[..n] == mutualMeetFactors[..];
    }

    /**
     * Java `updateEdgeCountsOnAdd` (the Python loop body of `_add_edge`) for
     * the orientation `(e.a, e.b)`: append `e.b` to the list of `e.a`,
     * increment its degree, recompute its meet factor and raise both maxima
     * when the new degree exceeds the old maximum.
     */
    method UpdateEdgeCountsOnAdd(e: Edge)
      requires Counted() && 0 <= e.a < n
      modifies this`adjList, this`maxDegree, this`maxMutualMeetFactor, degrees, mutualMeetFactors
      ensures Counted()
      ensures adjList == Append(old(adjList), e.a, e.b)
      ensures degrees[e.a] == old(degrees[e.a]) + 1
      ensures forall i :: 0 <= i < n && i != e.a ==> degrees[i] == old(degrees[i])
      ensures maxDegree == if degrees[e.a] > old(maxDegree) then degrees[e.a] else old(maxDegree)
    {
      ghost var deg0, mmf0 := degrees[..], mutualMeetFactors[..];
      InStepAfterAppend(n, adjList, deg0, mmf0, maxDegree, maxMutualMeetFactor, e.a, e.b);
      adjList := Append(adjList, e.a, e.b);
      var k := degrees[e.a] + 1;
      degrees[e.a] := k;
      var j := MeetFactor(k);
      mutualMeetFactors[e.a] := j;
      assert degrees[..] == deg0[e.a := k];
      assert mutualMeetFactors[..] == mmf0[e.a := j];
      if k > maxDegree {
        maxDegree := k;
        maxMutualMeetFactor := j;
      }
    }

    /**
     * Java `updateEdgeCountsOnRemove` (the Python loop body of
     * `_remove_edge`) for the orientation `(e.a, e.b)`: remove one `e.b`
     * from the list of `e.a`, decrement its degree, recompute its meet
     * factor, and rescan for the maximum when the degree before removal
     * was the maximum.
     */
    method UpdateEdgeCountsOnRemove(e: Edge)
      requires Counted() && 0 <= e.a < n && e.b in Neighbours(adjList, e.a)
      modifies this`adjList, this`maxDegree, this`maxMutualMeetFactor, degrees, mutualMeetFactors
      ensures Counted()
      ensures adjList == Drop(old(adjList), e.a, e.b)
      ensures degrees[e.a] == old(degrees[e.a]) - 1
    {
      ghost var deg0, mmf0 := degrees[..], mutualMeetFactors[..];
      InStepAfterDrop(n, adjList, deg0, mmf0, maxDegree, maxMutualMeetFactor, e.a, e.b);
      adjList := Drop(adjList, e.a, e.b);
      var k := degrees[e.a] - 1;
      degrees[e.a] := k;
      mutualMeetFactors[e.a] := MeetFactor(k);
      assert degrees[..] == deg0[e.a := k];
      assert mutualMeetFactors[..] == mmf0[e.a := MeetFactor(k)];
      if k + 1 == maxDegree {
        maxDegree := FindMaxDegree();
        maxMutualMeetFactor := MeetFactor(maxDegree);
      }
    }

    /**
     * `_add_edge` / Java `addEdge`: insert a canonical, absent edge, list
     * each endpoint at the other and raise both degrees by one; every other
     * node keeps its degree.
     */
    method AddEdge(e: Edge)
      requires Valid()
      requires e.Canonical() && 0 <= e.a && e.b < n && e !in edges
      modifies this`edges, this`adjList, this`maxDegree, this`maxMutualMeetFactor
      modifies degrees, mutualMeetFactors
      ensures Valid()
      ensures edges == old(edges) + {e}
      ensures adjList == Append(Append(old(adjList), e.a, e.b), e.b, e.a)
      ensures degrees[e.a] == old(degrees[e.a]) + 1 && degrees[e.b] == old(degrees[e.b]) + 1
      ensures forall i :: 0 <= i < n && i != e.a && i != e.b ==> degrees[i] == old(degrees[i])
    {
      ghost var adj' := Append(Append(adjList, e.a, e.b), e.b, e.a);
      AddKeepsLinked(n, edges, adjList, e);
      edges := edges + {e};
      assert Linked(n, edges, adj');
      UpdateEdgeCountsOnAdd(e);
      UpdateEdgeCountsOnAdd(Transpose(e));
      assert adjList == adj';
    }

    /**
     * `_remove_edge` / Java `removeEdge`: erase a present edge and unlist
     * each endpoint at the other, keeping the counts in step (the degree
     * change itself is `DegreesAfterRemove`).
     */
    method RemoveEdge(e: Edge)
      requires Valid() && e in edges
      modifies this`edges, this`adjList, this`maxDegree, this`maxMutualMeetFactor
      modifies degrees, mutualMeetFactors
      ensures Valid()
      ensures edges == old(edges) - {e}
      ensures e.b in Neighbours(old(adjList), e.a)
      ensures e.a in Neighbours(Drop(old(adjList), e.a, e.b), e.b)
      ensures adjList == Drop(Drop(old(adjList), e.a, e.b), e.b, e.a)
    {
      assert e == Edge(e.a, e.b);
      assert e.Canonical();
      ghost var edges', adj' := edges - {e}, Drop(Drop(adjList, e.a, e.b), e.b, e.a);
      RemoveKeepsLinked(n, edges, adjList, e);
      assert Linked(n, edges', adj');
      UpdateEdgeCountsOnRemove(e);
      UpdateEdgeCountsOnRemove(Transpose(e));
      edges := edges - {e};
      assert edges == edges' && adjList == adj';
    }

    /**
     * Adding an absent edge and removing it again restores the edge set,
     * every neighbour list, every degree and meet factor, and both maxima.
     */
    method AddThenRemove(e: Edge)
      requires Valid()
      requires e.Canonical() && 0 <= e.a && e.b < n && e !in edges
      modifies this`edges, this`adjList, this`maxDegree, this`maxMutualMeetFactor
      modifies degrees, mutualMeetFactors
      ensures Valid()
      ensures edges == old(edges)
      ensures forall i :: Neighbours(adjList, i) == Neighbours(old(adjList), i)
      ensures degrees[..] == old(degrees[..])
      ensures mutualMeetFactors[..] == old(mutualMeetFactors[..])
      ensures maxDegree == old(maxDegree) && maxMutualMeetFactor == old(maxMutualMeetFactor)
    {
      ghost var adj0, deg0, mmf0 := adjList, degrees[..], mutualMeetFactors[..];
      ghost var maxD0, maxM0 := maxDegree, maxMutualMeetFactor;
      assert edges + {e} - {e} == edges;
      NeighbourIffEdge(n, edges, adjList, e.a, e.b);
      AddThenDropRestores(adjList, e);
      AddEdge(e);
      RemoveEdge(e);
      InStepDetermined(n, adj0, adjList, deg0, mmf0, maxD0, maxM0,
        degrees[..], mutualMeetFactors[..], maxDegree, maxMutualMeetFactor);
      assert degrees[..] == deg0 && mutualMeetFactors[..] == mmf0;
    }

    /**
     * The step shared by both growth rules: add the edge when the gate
     * admits it, otherwise change nothing. Either way the edge is then
     * present or one of its ends has reached z*.
     */
    method AddIfAdmitted(e: Edge) returns (added: bool)
      requires Valid() && WithinCap() && 0 <= e.a < e.b < n
      modifies this`edges, this`adjList, this`maxDegree, this`maxMutualMeetFactor
      modifies degrees, mutualMeetFactors
      ensures Valid() && WithinCap()
      ensures added == old(ConnectionCanBeMade(e))
      ensures edges == if added then old(edges) + {e} else old(edges)
      ensures adjList == if added then Append(Append(old(adjList), e.a, e.b), e.b, e.a) else old(adjList)
      ensures maxDegree >= old(maxDegree)
      ensures DegreesGrew(old(degrees[..]), degrees[..])
      ensures EdgeOrCapped([e], edges, degrees[..], zStar)
    {
      added := ConnectionCanBeMade(e);
      if added {
        ghost var adj0, deg0, mmf0 := adjList, degrees[..], mutualMeetFactors[..];
        ghost var maxD0, maxM0 := maxDegree, maxMutualMeetFactor;
        AddEdge(e);
        CappedAfterAdd(n, adj0, deg0, mmf0, maxD0, maxM0,
          degrees[..], mutualMeetFactors[..], maxDegree, maxMutualMeetFactor, e, Cap());
      }
    }

    /**
     * `_meet_randomly` / Java `meetRandomly`: `round(numPairs * r_0)`
     * meetings, each between two distinct nodes drawn uniformly; every pair
     * the gate admits becomes an edge. `completed` is false when the stream
     * ran out first. `met` lists the pairs that met: all of them when the
     * rule completes, every new edge is one of them, and each of them is
     * now an edge or has an endpoint at the cap.
     */
    method MeetRandomly(meetCount: nat -> nat, draws: seq<nat>)
      returns (completed: bool, rest: seq<nat>, ghost met: seq<Edge>)
      requires Valid() && WithinCap() && meetCount(0) == 0
      modifies this`edges, this`adjList, this`maxDegree, this`maxMutualMeetFactor
      modifies degrees, mutualMeetFactors
      ensures Valid() && WithinCap()
      ensures old(edges) <= edges
      ensures SuffixOf(rest, draws) && (!completed ==> rest == [])
      ensures completed <==> |met| == meetCount(numPairs)
      ensures |met| <= meetCount(numPairs)
      ensures GrownFrom(edges, old(edges), met)
      ensures EdgeOrCapped(met, edges, degrees[..], zStar)
      ensures DegreesGrew(old(degrees[..]), degrees[..])
    {
      var nMeetings := meetCount(numPairs);
      assert nMeetings > 0 ==> n > 0 by {
        PairCountFormula(n);
      }
      rest := draws;
      met := [];
      var t := 0;
      while t < nMeetings
        invariant Valid() && WithinCap() && old(edges) <= edges && SuffixOf(rest, draws)
        invariant t <= nMeetings && |met| == t
        invariant GrownFrom(edges, old(edges), met)
        invariant EdgeOrCapped(met, edges, degrees[..], zStar)
        invariant DegreesGrew(old(degrees[..]), degrees[..])
      {
        var ok, rest';
        ghost var pair;
        ghost var edges0, deg0 := edges, degrees[..];
        ok, rest', pair := MeetOnce(rest);
        SuffixOfTransitive(rest', rest, draws);
        rest := rest';
        DegreesGrewTransitive(old(degrees[..]), deg0, degrees[..]);
        EdgeOrCappedGrows(met, edges0, deg0, edges, degrees[..], zStar);
        if !ok {
          return false, rest, met;
        }
        EdgeOrCappedAppend(met, [pair], edges, degrees[..], zStar);
        GrownFromStep(edges0, edges, old(edges), met, pair);
        met := met + [pair];
        t := t + 1;
      }
      completed := true;
    }

    /** One meeting: two distinct nodes drawn uniformly, and the gate decides. */
    method MeetOnce(draws: seq<nat>) returns (completed: bool, rest: seq<nat>, ghost pair: Edge)
      requires Valid() && WithinCap() && n > 0
      modifies this`edges, this`adjList, this`maxDegree, this`maxMutualMeetFactor
      modifies degrees, mutualMeetFactors
      ensures Valid() && WithinCap()
      ensures SuffixOf(rest, draws) && (!completed ==> rest == [])
      ensures DegreesGrew(old(degrees[..]), degrees[..])
      ensures completed ==>
        && 0 <= pair.a < pair.b < n
        && edges == (if old(ConnectionCanBeMade(pair)) then old(edges) + {pair} else old(edges))
        && adjList == (if old(ConnectionCanBeMade(pair))
                       then Append(Append(old(adjList), pair.a, pair.b), pair.b, pair.a) else old(adjList))
        && EdgeOrCapped([pair], edges, degrees[..], zStar)
      ensures !completed ==> edges == old(edges) && adjList == old(adjList)
      ensures !completed ==> EdgeDrawsRejected(n, draws)
    {
      var r;
      r, rest := RandomEdgeAsIndices(n, draws);
      if r.None? {
        return false, rest, Edge(0, 0);
      }
      var e := r.value;
      pair := e;
      var _ := AddIfAdmitted(e);
      completed := true;
    }

    /**
     * One introduction (the loop body of `_introduce_friends`): pick an ego
     * with probability proportional to its meet factor, which therefore has
     * at least two neighbours (the source's assert), then two distinct
     * neighbours of it, and let the gate decide whether they connect.
     */
    method IntroduceOnce(draws: seq<nat>) returns (completed: bool, rest: seq<nat>, ghost ego: int, ghost pair: Edge)
      requires Valid() && WithinCap() && maxDegree >= 2
      modifies this`edges, this`adjList, this`maxDegree, this`maxMutualMeetFactor
      modifies degrees, mutualMeetFactors
      ensures Valid() && WithinCap() && maxDegree >= 2
      ensures old(edges) <= edges
      ensures SuffixOf(rest, draws) && (!completed ==> |rest| < 2)
      ensures DegreesGrew(old(degrees[..]), degrees[..])
      ensures completed ==>
        && 0 <= ego < n && old(mutualMeetFactors[ego]) > 0
        && pair.Canonical() && pair.a in Neighbours(old(adjList), ego) && pair.b in Neighbours(old(adjList), ego)
        && Canonicalize(ego, pair.a) in old(edges) && Canonicalize(ego, pair.b) in old(edges)
        && 0 <= pair.a < pair.b < n
        && edges == (if old(ConnectionCanBeMade(pair)) then old(edges) + {pair} else old(edges))
        && adjList == (if old(ConnectionCanBeMade(pair))
                       then Append(Append(old(adjList), pair.a, pair.b), pair.b, pair.a) else old(adjList))
        && EdgeOrCapped([pair], edges, degrees[..], zStar)
      ensures !completed ==> edges == old(edges) && adjList == old(adjList)
    {
      assert maxMutualMeetFactor > 0 by {
        MeetFactorSumPositive(n, adjList, degrees[..], mutualMeetFactors[..], maxDegree, maxMutualMeetFactor);
      }
      var chosen, rest' := RandomProportionalSelection(mutualMeetFactors[..], maxMutualMeetFactor, draws);
      if chosen.None? {
        return false, rest', 0, Edge(0, 0);
      }
      var i := chosen.value;
      ego := i;
      assert |Neighbours(adjList, i)| >= 2 by {
        InStepAt(n, adjList, degrees[..], mutualMeetFactors[..], maxDegree, maxMutualMeetFactor, i);
        MeetFactorPositive(degrees[i]);
      }
      completed, rest, pair := IntroduceAlters(i, rest');
      SuffixOfTransitive(rest, rest', draws);
    }

    /**
     * The second half of an introduction: two distinct neighbours of the
     * ego `i`, which has at least two, and the gate deciding whether they
     * connect.
     */
    method IntroduceAlters(i: int, draws: seq<nat>) returns (completed: bool, rest: seq<nat>, ghost pair: Edge)
      requires Valid() && WithinCap() && maxDegree >= 2
      requires 0 <= i < n && |Neighbours(adjList, i)| >= 2
      modifies this`edges, this`adjList, this`maxDegree, this`maxMutualMeetFactor
      modifies degrees, mutualMeetFactors
      ensures Valid() && WithinCap() && maxDegree >= 2
      ensures old(edges) <= edges
      ensures SuffixOf(rest, draws) && (!completed ==> rest == [])
      ensures DegreesGrew(old(degrees[..]), degrees[..])
      ensures completed ==>
        && pair.Canonical() && pair.a in Neighbours(old(adjList), i) && pair.b in Neighbours(old(adjList), i)
        && Canonicalize(i, pair.a) in old(edges) && Canonicalize(i, pair.b) in old(edges)
        && 0 <= pair.a < pair.b < n
        && edges == (if old(ConnectionCanBeMade(pair)) then old(edges) + {pair} else old(edges))
        && adjList == (if old(ConnectionCanBeMade(pair))
                       then Append(Append(old(adjList), pair.a, pair.b), pair.b, pair.a) else old(adjList))
        && EdgeOrCapped([pair], edges, degrees[..], zStar)
      ensures !completed ==> edges == old(edges) && adjList == old(adjList)
      ensures !completed ==> EdgeDrawsRejected(|Neighbours(old(adjList), i)|, draws)
    {
      var alters := Neighbours(adjList, i);
      assert NoDup(alters);
      var r;
      r, rest := RandomPairFromList(alters, draws);
      if r.None? {
        return false, rest, Edge(0, 0);
      }
      var e := r.value;
      pair := e;
      NeighbourIsNode(n, edges, adjList, i, e.a);
      NeighbourIsNode(n, edges, adjList, i, e.b);
      var _ := AddIfAdmitted(e);
      completed := true;
    }

    /**
     * `_introduce_friends` / Java `introduceFriends`: `round(numMutual * r_1)`
     * introductions, where `numMutual` is half the sum of the meet factors.
     * When there is at least one, some node has two neighbours, so the
     * proportional selection has a positive weight to find. `completed` is
     * false when the stream ran out first. `introduced` lists the pairs
     * that were introduced, as `met` does for `MeetRandomly`, and `egos`
     * the person who introduced each: both ends of each pair are friends
     * of that person.
     */
    method IntroduceFriends(introCount: nat -> nat, draws: seq<nat>)
      returns (completed: bool, rest: seq<nat>, ghost introduced: seq<Edge>, ghost egos: seq<int>)
      requires Valid() && WithinCap() && introCount(0) == 0
      modifies this`edges, this`adjList, this`maxDegree, this`maxMutualMeetFactor
      modifies degrees, mutualMeetFactors
      ensures Valid() && WithinCap()
      ensures old(edges) <= edges
      ensures SuffixOf(rest, draws) && (!completed ==> |rest| < 2)
      ensures Sum(old(mutualMeetFactors[..])) >= 0
      ensures completed <==> |introduced| == introCount(Sum(old(mutualMeetFactors[..])) / 2)
      ensures |introduced| <= introCount(Sum(old(mutualMeetFactors[..])) / 2)
      ensures GrownFrom(edges, old(edges), introduced)
      ensures EdgeOrCapped(introduced, edges, degrees[..], zStar)
      ensures FriendsOfEgos(egos, introduced, edges, n)
      ensures DegreesGrew(old(degrees[..]), degrees[..])
    {
      var total := SumOfMutualMeetFactors();
      assert total >= 0 && (total > 0 ==> maxDegree >= 2) by {
        MeetFactorSumPositive(n, adjList, degrees[..], mutualMeetFactors[..], maxDegree, maxMutualMeetFactor);
      }
      var numMutual := total / 2;
      completed, rest, introduced, egos := IntroduceTimes(introCount(numMutual), draws);
    }

    /**
     * The loop of `_introduce_friends`: `nIntroductions` introductions in
     * turn, with the records `IntroduceFriends` returns.
     */
    method IntroduceTimes(nIntroductions: nat, draws: seq<nat>)
      returns (completed: bool, rest: seq<nat>, ghost introduced: seq<Edge>, ghost egos: seq<int>)
      requires Valid() && WithinCap() && (nIntroductions > 0 ==> maxDegree >= 2)
      modifies this`edges, this`adjList, this`maxDegree, this`maxMutualMeetFactor
      modifies degrees, mutualMeetFactors
      ensures Valid() && WithinCap()
      ensures old(edges) <= edges
      ensures SuffixOf(rest, draws) && (!completed ==> |rest| < 2)
      ensures completed <==> |introduced| == nIntroductions
      ensures |introduced| <= nIntroductions
      ensures GrownFrom(edges, old(edges), introduced)
      ensures EdgeOrCapped(introduced, edges, degrees[..], zStar)
      ensures FriendsOfEgos(egos, introduced, edges, n)
      ensures DegreesGrew(old(degrees[..]), degrees[..])
    {
      rest := draws;
      introduced, egos := [], [];
      var t := 0;
      while t < nIntroductions
        invariant Valid() && WithinCap() && old(edges) <= edges && SuffixOf(rest, draws)
        invariant nIntroductions > 0 ==> maxDegree >= 2
        invariant t <= nIntroductions && |introduced| == t
        invariant GrownFrom(edges, old(edges), introduced)
        invariant EdgeOrCapped(introduced, edges, degrees[..], zStar)
        invariant FriendsOfEgos(egos, introduced, edges, n)
        invariant DegreesGrew(old(degrees[..]), degrees[..])
      {
        var ok, rest';
        ghost var ego, pair;
        ghost var edges0, deg0 := edges, degrees[..];
        ok, rest', ego, pair := IntroduceOnce(rest);
        SuffixOfTransitive(rest', rest, draws);
        rest := rest';
        IntroductionRecorded(introduced, egos, old(edges), n, zStar, old(degrees[..]),
          edges0, deg0, edges, degrees[..], ok, ego, pair);
        if !ok {
          return false, rest, introduced, egos;
        }
        introduced, egos := introduced + [pair], egos + [ego];
        t := t + 1;
      }
      completed := true;
    }

    /**
     * One loss (the loop body of `_lose_touch`): pick an ego with
     * probability proportional to its degree, so it has a neighbour, then
     * one of its neighbours uniformly, and remove the edge between them,
     * which is present. `ego` is the chosen person and `lost` the edge.
     */
    method LoseOnce(draws: seq<nat>) returns (completed: bool, rest: seq<nat>, ghost ego: int, ghost lost: Edge)
      requires Valid() && WithinCap() && maxDegree > 0
      modifies this`edges, this`adjList, this`maxDegree, this`maxMutualMeetFactor
      modifies degrees, mutualMeetFactors
      ensures Valid() && WithinCap()
      ensures SuffixOf(rest, draws) && (!completed ==> |rest| < 2)
      ensures completed ==>
        && 0 <= ego < n && old(degrees[ego]) > 0 && (lost.a == ego || lost.b == ego)
        && lost in old(edges) && edges == old(edges) - {lost}
        && lost.b in Neighbours(old(adjList), lost.a)
        && lost.a in Neighbours(Drop(old(adjList), lost.a, lost.b), lost.b)
        && adjList == Drop(Drop(old(adjList), lost.a, lost.b), lost.b, lost.a)
      ensures completed ==> edges <= old(edges) && |edges| == |old(edges)| - 1
      ensures !completed ==> edges == old(edges) && adjList == old(adjList)
    {
      assert maxDegree in degrees[..];
      var chosen, rest' := RandomProportionalSelection(degrees[..], maxDegree, draws);
      if chosen.None? {
        return false, rest', 0, Edge(0, 0);
      }
      var i := chosen.value;
      ego := i;
      InStepAt(n, adjList, degrees[..], mutualMeetFactors[..], maxDegree, maxMutualMeetFactor, i);
      var alters := Neighbours(adjList, i);
      if rest' == [] {
        return false, rest', 0, Edge(0, 0);
      }
      var alter := alters[rest'[0] % |alters|];
      rest := rest'[1..];
      assert SuffixOf(rest, rest');
      SuffixOfTransitive(rest, rest', draws);
      NeighbourIsNode(n, edges, adjList, i, alter);
      var e := Canonicalize(i, alter);
      lost := e;
      ghost var edges0, adj0, deg0, mmf0 := edges, adjList, degrees[..], mutualMeetFactors[..];
      ghost var maxD0, maxM0 := maxDegree, maxMutualMeetFactor;
      RemoveEdge(e);
      CappedAfterRemove(n, edges0, adj0, deg0, mmf0, maxD0, maxM0,
        degrees[..], mutualMeetFactors[..], maxDegree, maxMutualMeetFactor, e, Cap());
      completed := true;
    }

    /**
     * `_lose_touch` / Java `loseTouch`: `round(|edges| * gamma)` losses,
     * each removing one present edge. With `gamma <= 1` the edges never run
     * out before the losses do; otherwise the source fails (`NoWeight`).
     */
    method LoseTouch(lossCount: nat -> nat, draws: seq<nat>) returns (status: LossStatus, rest: seq<nat>)
      requires Valid() && WithinCap()
      modifies this`edges, this`adjList, this`maxDegree, this`maxMutualMeetFactor
      modifies degrees, mutualMeetFactors
      ensures Valid() && WithinCap()
      ensures edges <= old(edges)
      ensures SuffixOf(rest, draws) && (status == OutOfDraws ==> |rest| < 2)
      ensures status == Completed ==> |edges| == |old(edges)| - lossCount(|old(edges)|)
      ensures status == NoWeight ==> edges == {} && lossCount(|old(edges)|) > |old(edges)|
    {
      var nLost := lossCount(|edges|);
      rest := draws;
      var t := 0;
      while t < nLost
        invariant Valid() && WithinCap() && edges <= old(edges) && SuffixOf(rest, draws)
        invariant t <= nLost && t <= |old(edges)| && |edges| == |old(edges)| - t
      {
        NoEdgesIffZeroMax(n, edges, adjList, degrees[..], mutualMeetFactors[..], maxDegree, maxMutualMeetFactor);
        if maxDegree == 0 {
          return NoWeight, rest;
        }
        var ok, rest';
        ghost var ego, lost;
        ok, rest', ego, lost := LoseOnce(rest);
        SuffixOfTransitive(rest', rest, draws);
        rest := rest';
        if !ok {
          return OutOfDraws, rest;
        }
        t := t + 1;
      }
      status := Completed;
    }

    /**
     * The two growth rules of one iteration: strangers meet, then friends
     * are introduced. `met` and `introduced` are the pairs they tried: all
     * the meetings unless the draws ran out, and every new edge is one of
     * them; when both rules complete, each tried pair is now an edge or
     * has an endpoint at the cap. `mid` is the graph between the two rules:
     * when the meetings complete, the number of introductions is the count
     * for half the sum of its meet factors, and `egos` says who introduced
     * each pair.
     */
    method Grow(meetCount: nat -> nat, introCount: nat -> nat, draws: seq<nat>)
      returns (completed: bool, rest: seq<nat>, ghost met: seq<Edge>, ghost introduced: seq<Edge>,
               ghost egos: seq<int>, ghost mid: Snapshot)
      requires Valid() && WithinCap() && meetCount(0) == 0 && introCount(0) == 0
      modifies this`edges, this`adjList, this`maxDegree, this`maxMutualMeetFactor
      modifies degrees, mutualMeetFactors
      ensures Valid() && WithinCap() && SuffixOf(rest, draws)
      ensures old(edges) <= edges
      ensures !completed ==> |rest| < 2
      ensures GrowthRecord(n, old(edges), mid, edges, met, introduced, egos)
      ensures completed ==> |met| == meetCount(numPairs)
      ensures completed ==> Sum(mid.meetFactors) >= 0 && |introduced| == introCount(Sum(mid.meetFactors) / 2)
      ensures GrownFrom(edges, old(edges), met + introduced)
      ensures completed ==> EdgeOrCapped(met + introduced, edges, degrees[..], zStar)
    {
      introduced, egos := [], [];
      completed, rest, met := MeetRandomly(meetCount, draws);
      mid := Snapshot(edges, adjList, mutualMeetFactors[..]);
      ghost var deg1 := degrees[..];
      CountsAgreePointwise(adjList, deg1, mid.meetFactors, n);
      if !completed {
        assert met + introduced == met;
        return;
      }
      var rest';
      completed, rest', introduced, egos := IntroduceFriends(introCount, rest);
      SuffixOfTransitive(rest', rest, draws);
      rest := rest';
      GrownFromConcat(edges, mid.edges, old(edges), met, introduced);
      if completed {
        EdgeOrCappedGrows(met, mid.edges, deg1, edges, degrees[..], zStar);
        EdgeOrCappedAppend(met, introduced, edges, degrees[..], zStar);
      }
    }

    /**
     * One iteration `i` of `generate`: record `i`, apply the growth rules
     * and, only when `i > barrierIters`, let friends lose touch. Up to
     * `barrierIters` an iteration loses no edge. `met`, `introduced`,
     * `egos` and `mid` are as for `Grow`, and `grown` is the edge set after
     * growth: past the barrier a completed iteration has lost
     * `lossCount(|grown|)` of those edges.
     */
    method Iterate(i: nat, meetCount: nat -> nat, introCount: nat -> nat, lossCount: nat -> nat, draws: seq<nat>)
      returns (status: LossStatus, rest: seq<nat>, ghost met: seq<Edge>, ghost introduced: seq<Edge>,
               ghost egos: seq<int>, ghost mid: Snapshot, ghost grown: set<Edge>)
      requires Valid() && WithinCap() && meetCount(0) == 0 && introCount(0) == 0
      modifies this`iteration, this`edges, this`adjList, this`maxDegree, this`maxMutualMeetFactor
      modifies degrees, mutualMeetFactors
      ensures Valid() && WithinCap() && SuffixOf(rest, draws) && iteration == i
      ensures i <= barrierIters ==> old(edges) <= edges && status != NoWeight
      ensures status == OutOfDraws ==> |rest| < 2
      ensures GrowthRecord(n, old(edges), mid, grown, met, introduced, egos)
      ensures status != OutOfDraws ==>
        && |met| == meetCount(numPairs) && Sum(mid.meetFactors) >= 0
        && |introduced| == introCount(Sum(mid.meetFactors) / 2)
      ensures edges <= grown
      ensures i <= barrierIters ==> edges == grown
      ensures i > barrierIters && status == Completed ==> |edges| == |grown| - lossCount(|grown|)
      ensures status == NoWeight ==> edges == {} && lossCount(|grown|) > |grown|
      ensures GrownFrom(edges, old(edges), met + introduced)
      ensures i <= barrierIters && status == Completed ==>
        EdgeOrCapped(met + introduced, edges, degrees[..], zStar)
    {
      iteration := i;
      var ok, rest';
      ok, rest, met, introduced, egos, mid := Grow(meetCount, introCount, draws);
      grown := edges;
      if !ok {
        return OutOfDraws, rest, met, introduced, egos, mid, grown;
      }
      status := Completed;
      if i > barrierIters {
        status, rest' := LoseTouch(lossCount, rest);
        SuffixOfTransitive(rest', rest, draws);
        rest := rest';
        GrownFromShrinks(grown, edges, old(edges), met + introduced);
      }
    }

    /**
     * The loop of `generate` over iterations `0 .. iterations - 1`. When
     * every iteration is at most `barrierIters`, the edge set only grows.
     */
    method RunIterations(iterations: nat, meetCount: nat -> nat, introCount: nat -> nat, lossCount: nat -> nat, draws: seq<nat>)
      returns (result: RunResult, rest: seq<nat>)
      requires Valid() && WithinCap() && meetCount(0) == 0 && introCount(0) == 0
      modifies this`iteration, this`edges, this`adjList, this`maxDegree, this`maxMutualMeetFactor
      modifies degrees, mutualMeetFactors
      ensures Valid() && WithinCap() && SuffixOf(rest, draws)
      ensures result.Finished? ==> result.edges == edges && (iterations > 0 ==> iteration == iterations - 1)
      ensures result.DrawsExhausted? ==> result.at < iterations && iteration == result.at && |rest| < 2
      ensures result.NoEdgeToLose? ==> barrierIters < result.at < iterations && iteration == result.at && edges == {}
      ensures !result.ZeroMeetingRate?
      ensures iterations <= barrierIters + 1 ==> old(edges) <= edges
    {
      rest := draws;
      var i := 0;
      while i < iterations
        invariant i <= iterations
        invariant Valid() && WithinCap() && SuffixOf(rest, draws)
        invariant i <= barrierIters + 1 ==> old(edges) <= edges
        invariant i > 0 ==> iteration == i - 1
      {
        var status, rest';
        ghost var met, introduced, egos, mid, grown;
        status, rest', met, introduced, egos, mid, grown := Iterate(i, meetCount, introCount, lossCount, rest);
        SuffixOfTransitive(rest', rest, draws);
        rest := rest';
        if status != Completed {
          result := if status == OutOfDraws then DrawsExhausted(i) else NoEdgeToLose(i);
          return;
        }
        i := i + 1;
      }
      result := Finished(edges);
    }

    /**
     * Python `generate(n=250, iterations=30000)`: a fresh state for `n`
     * nodes, then the iterations. Whatever the draws, the final state is valid, no
     * degree exceeds z*, and with `z* <= 0` no edge ever forms.
     */
    method Generate(n: nat := 250, iterations: nat := 30000, meetCount: nat -> nat, introCount: nat -> nat, lossCount: nat -> nat, draws: seq<nat>)
      returns (result: RunResult, rest: seq<nat>)
      requires meetCount(0) == 0 && introCount(0) == 0
      modifies this
      ensures Valid() && WithinCap() && this.n == n && SuffixOf(rest, draws)
      ensures !result.ZeroMeetingRate?
      ensures result.Finished? ==> result.edges == edges
      ensures zStar <= 0 ==> edges == {}
    {
      Setup(n);
      assert WithinCap();
      result, rest := RunIterations(iterations, meetCount, introCount, lossCount, draws);
      if zStar <= 0 {
        NoEdgesIffZeroMax(n, edges, adjList, degrees[..], mutualMeetFactors[..], maxDegree, maxMutualMeetFactor);
      }
    }

    /**
     * Java `generate(n, iterations)`: `prepareSimulation` first, which
     * throws (here `ZeroMeetingRate`) exactly when no meeting would ever
     * happen; otherwise as `Generate`.
     */
    method GenerateChecked(n: nat, iterations: nat, meetCount: nat -> nat, introCount: nat -> nat, lossCount: nat -> nat, draws: seq<nat>)
      returns (result: RunResult, rest: seq<nat>)
      requires meetCount(0) == 0 && introCount(0) == 0
      modifies this
      ensures Valid() && WithinCap() && this.n == n && SuffixOf(rest, draws)
      ensures result.ZeroMeetingRate? <==> meetCount(PairCount(n)) == 0
      ensures result.ZeroMeetingRate? ==> edges == {} && rest == draws
      ensures result.Finished? ==> result.edges == edges
    {
      var ok := PrepareSimulation(n, meetCount);
      assert WithinCap();
      if !ok {
        return ZeroMeetingRate, draws;
      }
      result, rest := RunIterations(iterations, meetCount, introCount, lossCount, draws);
    }

    /**
     * `_connection_can_be_made` / Java `connectionCanBeMade`: the admission
     * gate. It admits an edge only when it is absent and both endpoints
     * still have room for one more connection under z*.
     */
    function ConnectionCanBeMade(e: Edge): (ok: bool)
      reads this, degrees
      requires degrees.Length == n && 0 <= e.a < n && 0 <= e.b < n
      ensures ok ==> e !in edges && degrees[e.a] + 1 <= zStar && degrees[e.b] + 1 <= zStar
      ensures !ok ==> e in edges || degrees[e.a] >= zStar || degrees[e.b] >= zStar
    {
      if e in edges then false
      else degrees[e.a] < zStar && degrees[e.b] < zStar
    }
  }
}
