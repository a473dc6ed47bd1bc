# JinGen in Dafny

JinGen generates random social networks by the "Model II" growth process of
Jin, Girvan and Newman (2001). It starts from `n` isolated people and runs a
number of iterations. Each iteration has up to three rules:

- **meeting:** random pairs of strangers meet;
- **introduction:** a person with two or more friends introduces two of them;
- **decay:** a person loses touch with a random friend. Decay runs only in
  iterations whose index, counted from 0, exceeds `barrier_iters`. The first
  `barrier_iters + 1` iterations (with the default of 1, iterations 0 and 1)
  therefore skip it.

A meeting or an introduction becomes a friendship only when the *admission
gate* lets it through. The gate requires that the two are not already
friends and that neither has reached the degree cap `z*` yet.

The repository has two versions of the same program: a Python one and a
one-to-one Java port with an `Edge` value class. This project models both.

The generator's state has these parts:

- the edge set;
- per-node friend lists;
- per-node degrees;
- per-node *mutual meet factors* `k * (k - 1)`;
- the two running maxima.

It is modelled as the Dafny class `Generator.JinGen`. The edge set and the
friend lists are a `set` and a `map` field; the two per-node tables are
`array` fields. The state invariant `Valid()` has two parts:

- **`Counted()`:** every degree is the length of its list, every meet factor
  is that of its degree, and the maxima are the largest degree and its
  factor.
- **`Linked`:** the edge set and the lists describe the same simple graph.
  Every edge is canonical (`a < b`) and listed at both ends. Every listed
  friend comes from an edge. No list repeats a node.

`AddEdge`, `RemoveEdge` and every rule keep `Valid()`; the per-endpoint
helpers `UpdateEdgeCountsOn*` keep `Counted()`. The growth rules also keep
`WithinCap()`: no degree exceeds `z*` (taken as 0 when negative).

The program's `assert`s are preconditions or proved facts here:

- `_add_edge` and `_remove_edge` assert that the edge is canonical
  (python/jingen/__init__.py:129 and :144). `AddEdge` requires it; for
  `RemoveEdge` it follows from `Valid()`, since every edge in the set is
  canonical. Each rule proves it of the edge it passes.
- The Java `Edge` constructor asserts `a < b` (Edge.java:12). `NewEdge`
  models it, and the Findings table shows the call that breaks it.
- `_introduce_friends` asserts that the chosen person has at least two
  friends (python/jingen/__init__.py:206, JinGen.java:177). `IntroduceOnce`
  proves it from the positive weight of the chosen node.

`set.remove` and `list.remove` in `_remove_edge` also need the edge and both
list entries to be there. `RemoveEdge` requires the edge to be in the set
and proves the two entries present, and decay proves that the edge it
removes is in the set.

### Randomness

Randomness is an explicit stream `draws: seq<nat>` of raw numbers. Every
sampler consumes from it and returns the unused rest.

- An integer draw below `bound` is `d % bound`.
- A uniform double is `(d % 2^53) / 2^53`, the form both runtimes produce.
- A rejection loop that has not accepted when the stream runs out reports
  that, instead of looping forever. Its contract says that every draw it
  consumed was rejected.
- A run that runs out of draws ends with `DrawsExhausted`.

### Rates

The floating-point rates `r_0`, `r_1` and `gamma` enter the program only
through `round(x * rate)`. Each becomes a count function `nat -> nat` from
the base quantity to the number of trials.

### Modules

- `Wrappers`: `Option`.
- `Edges`: the `Edge` value class.
- `Lists`: list removal, index search, maximum and sum.
- `Sampling`: the random primitives.
- `Graph`: the lists and edge set as values, with the `Linked` invariant.
- `Generator`: the class and its rules.

## Model

| member | source | states |
|---|---|---|
| Edges.Canonicalize | python/jingen/__init__.py:56 | the pair in ascending order: its fields are the two inputs, and it is canonical when they differ |
| Edges.NewEdge | java/JinGen/src/main/java/com/johnbnelson/jingen/Edge.java:11-15 | the constructor with its assertion: it succeeds exactly when `a < b` and then keeps both fields |
| Edges.TransposeChecked | java/JinGen/src/main/java/com/johnbnelson/jingen/Edge.java:17-19 | `transpose()` as written: it succeeds exactly when `b < a`, and then holds the two fields swapped |
| Edges.TransposeCheckedFailsOnCanonical | java/JinGen/src/main/java/com/johnbnelson/jingen/Edge.java:11-19 | `transpose()` as written fails the constructor's assertion on every canonical edge |
| Edges.TransposeCheckedCounterexample | java/JinGen/src/main/java/com/johnbnelson/jingen/Edge.java:17-19 | the concrete edge (0, 1), whose transpose fails the assertion |
| Edges.TransposeInvolutive | java/JinGen/src/main/java/com/johnbnelson/jingen/Edge.java:17-19 | transposing twice gives the edge back; a transpose differs from its edge iff the endpoints differ; the transpose of a canonical edge is not canonical |
| Edges.Transpose | java/JinGen/src/main/java/com/johnbnelson/jingen/Edge.java:17-19 | the same undirected edge seen from its other endpoint: its first field is the original second one, and both canonicalize to the same edge |
| Edges.CompareTo | java/JinGen/src/main/java/com/johnbnelson/jingen/Edge.java:29-33 | `compareTo` returns -1, 0 or 1 |
| Edges.CompareToIsLexicographic | java/JinGen/src/main/java/com/johnbnelson/jingen/Edge.java:29-33 | negative iff lexicographically smaller on `(a, b)`, positive iff greater, 0 iff both fields are equal |
| Edges.CompareToAntisymmetric | java/JinGen/src/main/java/com/johnbnelson/jingen/Edge.java:29-33 | swapping the arguments negates the result |
| Edges.CompareToTransitive | java/JinGen/src/main/java/com/johnbnelson/jingen/Edge.java:29-33 | both `<` and `<=` are transitive (a valid order for the `TreeSet`) |
| Edges.CompareToZeroConsistent | java/JinGen/src/main/java/com/johnbnelson/jingen/Edge.java:29-33 | edges that compare as 0 compare alike against every third edge (the consistency rule of `Comparable`) |
| Edges.Equals | java/JinGen/src/main/java/com/johnbnelson/jingen/Edge.java:36-46 | true iff the other object is present and both fields match |
| Edges.EqualsAgreesWithCompareTo | java/JinGen/src/main/java/com/johnbnelson/jingen/Edge.java:29-46 | `equals` holds iff `compareTo` is 0, and it is symmetric |
| Edges.ToInt32 | java/JinGen/src/main/java/com/johnbnelson/jingen/Edge.java:50-52 | the 32-bit wrap-around: in int range and congruent to its argument modulo 2^32 |
| Edges.HashCode | java/JinGen/src/main/java/com/johnbnelson/jingen/Edge.java:49-53 | `31 * a + b` in Java `int` arithmetic: in int range and congruent to `31 * a + b` modulo 2^32 |
| Edges.EqualEdgesHashEqually | java/JinGen/src/main/java/com/johnbnelson/jingen/Edge.java:36-53 | equal edges have equal `hashCode` |
| Lists.IndexOf | java/JinGen/src/main/java/com/johnbnelson/jingen/JinGen.java:99 | `indexOf`: -1 iff absent, otherwise the first position holding the value |
| Lists.RemoveAt | java/JinGen/src/main/java/com/johnbnelson/jingen/JinGen.java:99 | `remove(int)`: one shorter; the elements before `k` stay, the rest move down one place |
| Lists.RemoveValue | python/jingen/__init__.py:149 | `list.remove(x)` makes the list one shorter |
| Lists.RemoveValueIsRemoveAtIndexOf | java/JinGen/src/main/java/com/johnbnelson/jingen/JinGen.java:98-99 | Python's `remove(b)` and Java's `remove(indexOf(b))` give the same list |
| Lists.RemoveValueMultiset | python/jingen/__init__.py:149 | removal takes exactly one occurrence out of the list |
| Lists.RemoveValueNoDup | python/jingen/__init__.py:149 | on a duplicate-free list, the result is duplicate-free and holds exactly the other elements |
| Lists.AppendThenRemove | python/jingen/__init__.py:134-149 | appending an absent value and removing it gives the list back exactly |
| Lists.MaxOrZero | java/JinGen/src/main/java/com/johnbnelson/jingen/JinGen.java:86-95 | the maximum starting from 0: non-negative, no element above it, and either 0 or an element |
| Lists.MaxOfPrefix | java/JinGen/src/main/java/com/johnbnelson/jingen/JinGen.java:86-95 | the scan after `k` steps: non-negative, no element among the first `k` above it, and either 0 or one of them |
| Lists.MaxOrZeroUnique | java/JinGen/src/main/java/com/johnbnelson/jingen/JinGen.java:86-95 | those three properties determine the maximum |
| Lists.MaxAfterIncrement | python/jingen/__init__.py:136-141 | after raising one degree, the maximum is the new degree when it exceeds the old maximum, otherwise unchanged |
| Lists.MaxAfterDecrement | python/jingen/__init__.py:150-156 | lowering a degree below the maximum leaves the maximum unchanged, so no rescan is needed |
| Lists.SumPositiveIff | python/jingen/__init__.py:193 | a sum of non-negative terms is non-negative, and positive iff some term is |
| Sampling.RandomIdx | python/jingen/__init__.py:31-39 | an index in `[0, n)` other than `excluding`; when the draws run out, every draw that was tried hit `excluding` |
| Sampling.RandomNode | python/jingen/__init__.py:20-28 | an element of `nodes` other than `excluding`; when the draws run out, every draw that was tried picked `excluding` |
| Sampling.RandomEdgeAsIndices | python/jingen/__init__.py:42-56 | an edge `(a, b)` with `0 <= a < b < n`, one of whose ends is the first draw; when the draws run out, every later draw picked that first index again |
| Sampling.ScaledIndexInRange | python/jingen/__init__.py:83 | `int(n * random())` lies in `[0, n)` |
| Sampling.RandomProportionalSelection | python/jingen/__init__.py:59-85 | stochastic acceptance uses two draws per round; it returns only an index whose weight is positive, namely the one the last round picked and accepted; every earlier round was rejected, and when the draws run out every round was rejected |
| Sampling.RandomPairFromList | python/jingen/__init__.py:88-96 | the values at two distinct positions, in ascending order; canonical when the list is duplicate-free; when the draws run out, every draw after the first picked the first position again |
| Sampling.ListOfSet | python/jingen/__init__.py:104 | `list(nodes)`: a duplicate-free list of exactly the set's members |
| Sampling.RandomPairFromSet | python/jingen/__init__.py:99-104 | a canonical pair of two members of the set; when the draws run out, every draw after the first picked the first position again |
| Graph.Append | python/jingen/__init__.py:134 | `adj_list[a].append(b)`: `b` goes at the end of `a`'s list, creating it when missing; other lists unchanged |
| Graph.Drop | python/jingen/__init__.py:149 | `adj_list[a].remove(b)` on `a`'s list only; other lists unchanged |
| Graph.NeighbourIsNode | python/jingen/__init__.py:221-223 | a listed friend is another node of the graph, joined to it by an edge |
| Graph.NeighbourIffEdge | python/jingen/__init__.py:164-166 | in a linked state, `b` is listed at `a` iff the edge is present (the gate's `edge in self.edges`) |
| Graph.AddKeepsLinked | python/jingen/__init__.py:128-135 | adding an absent canonical edge and appending both ends keeps the graph linked |
| Graph.RemoveKeepsLinked | python/jingen/__init__.py:143-149 | removing a present edge finds each end in the other's list and keeps the graph linked |
| Graph.AddThenDropRestores | python/jingen/__init__.py:128-156 | appending both orientations of a new edge and removing them restores every list |
| Generator.PairCountFormula | python/jingen/__init__.py:241 | the number of pairs is `n * (n - 1) / 2`, and 0 only below two nodes |
| Generator.MeetFactorPositive | python/jingen/__init__.py:202-205 | `k * (k - 1)` is non-negative, and positive exactly from degree 2 on |
| Generator.InStepAt | python/jingen/__init__.py:200-206 | in a counted state, a node's degree is its list length and its meet factor that of its degree |
| Generator.InStepDetermined | python/jingen/__init__.py:117-122 | the lists determine the degrees, meet factors and maxima |
| Generator.InStepEmpty | python/jingen/__init__.py:233-239 | all-zero tables with no lists are in step |
| Generator.InStepAfterAppend | python/jingen/__init__.py:134-141 | one append plus the count update keeps the counts in step, with the new maximum exactly when `k > max_degree` |
| Generator.InStepAfterDrop | python/jingen/__init__.py:149-156 | one removal plus the count update keeps the counts in step; the maximum changes only when the pre-removal degree was the maximum |
| Generator.DegreesAfterAdd | python/jingen/__init__.py:128-141 | adding an edge raises both endpoints' degrees by one and leaves every other degree alone |
| Generator.DegreesAfterRemove | python/jingen/__init__.py:143-156 | removing an edge lowers both endpoints' degrees by one and leaves every other degree alone |
| Generator.CappedAfterAdd | python/jingen/__init__.py:164-169 | adding an edge whose endpoints are below the cap keeps every degree within it and never lowers the maximum |
| Generator.CappedAfterRemove | python/jingen/__init__.py:143-156 | removing a present edge keeps a cap that held |
| Generator.MeetFactorSumPositive | python/jingen/__init__.py:193-206 | the meet factors sum to a positive number iff the maximum degree is at least 2, and so is the maximum meet factor |
| Generator.IntroductionOnPath | python/jingen/__init__.py:197-210 | an example on one fixed graph, not a property of all graphs: it shows that the introduction and gate records have force. On the path 0 - 1 - 2, every pair that an introduction record allows is (0, 2), since node 1 is the only person with two friends; with every degree at most 2 below the cap, that pair ends as an edge |
| Generator.NoEdgesIffZeroMax | python/jingen/__init__.py:217-222 | a linked, counted state has no edges iff its maximum degree is 0 |
| Generator.JinGen.constructor | python/jingen/__init__.py:108-115 | keeps `z*` and `barrier_iters`, which default to 5 and 1 as in Python and in Java's `JinGen()` (JinGen.java:49-51); the state is a valid empty one |
| Generator.JinGen.Setup | python/jingen/__init__.py:226-241 | a valid state for `n` nodes: no edges, no lists, all-zero tables and maxima |
| Generator.JinGen.PrepareSimulation | java/JinGen/src/main/java/com/johnbnelson/jingen/JinGen.java:200-217 | the same empty state with `numPairs = n(n-1)/2`; it refuses exactly when the meeting count is 0 |
| Generator.JinGen.FindMaxDegree | java/JinGen/src/main/java/com/johnbnelson/jingen/JinGen.java:86-95 | the maximum degree, 0 when every degree is 0 |
| Generator.JinGen.SumOfMutualMeetFactors | java/JinGen/src/main/java/com/johnbnelson/jingen/JinGen.java:151-157 | the sum of all meet factors |
| Generator.JinGen.UpdateEdgeCountsOnAdd | java/JinGen/src/main/java/com/johnbnelson/jingen/JinGen.java:60-77 | appends `b` to `a`'s list and raises `degrees[a]` by one; the counts stay in step; the maximum becomes the new degree iff it exceeds the old one |
| Generator.JinGen.UpdateEdgeCountsOnRemove | java/JinGen/src/main/java/com/johnbnelson/jingen/JinGen.java:97-107 | removes one `b` from `a`'s list and lowers `degrees[a]` by one; the counts, including the rescanned maximum, stay in step |
| Generator.JinGen.AddEdge | java/JinGen/src/main/java/com/johnbnelson/jingen/JinGen.java:53-58 | inserts the edge and lists each end at the other; those two degrees rise by one and no other degree changes; the state stays valid |
| Generator.JinGen.RemoveEdge | java/JinGen/src/main/java/com/johnbnelson/jingen/JinGen.java:79-84 | erases the edge, which is then listed at both ends, and unlists each end; the state stays valid |
| Generator.JinGen.AddThenRemove | python/jingen/__init__.py:128-156 | adding an absent edge and removing it restores the edge set, every list, every degree and meet factor, and both maxima |
| Generator.JinGen.ConnectionCanBeMade | python/jingen/__init__.py:164-169 | admits iff the edge is absent and both degrees are below `z*` (both directions) |
| Generator.JinGen.AddIfAdmitted | python/jingen/__init__.py:182-183 | exactly when the gate admits the edge, adds it and appends each end to the other's list; otherwise changes nothing; either way the edge is then present or an end has reached `z*`; keeps the cap and lowers no degree |
| Generator.JinGen.MeetRandomly | python/jingen/__init__.py:177-183 | returns the pairs that met: exactly `meetCount(numPairs)` of them iff the rule completes; every new edge is one of them, and each of them is now an edge or has an endpoint at `z*`; no degree falls; the state stays valid and within the cap |
| Generator.JinGen.MeetOnce | python/jingen/__init__.py:179-183 | one meeting of two distinct nodes: iff the gate admitted the pair, the edge set gains exactly it and each end is appended to the other's friend list, otherwise neither changes; no degree falls; a stopped meeting has spent the draws, every draw after the first repeats the first index, and it changes no edge and no list |
| Generator.JinGen.IntroduceOnce | python/jingen/__init__.py:197-210 | needs a maximum degree of at least 2; the chosen person had a positive meet factor, the introduced pair is two of that person's friends (both edges to that person are present), canonical; iff the gate admitted it, the edge set gains exactly that pair and each end is appended to the other's list, otherwise neither changes; a stopped introduction has fewer than two draws left and changes no edge and no list (the body proves the source's assert that the chosen person has two friends) |
| Generator.JinGen.IntroduceAlters | python/jingen/__init__.py:203-210 | for a person with two friends, the pair is two of those friends (both edges to that person are present), canonical; iff the gate admitted it, the edge set gains exactly it and each end is appended to the other's list, otherwise neither changes; a stopped one has spent the draws, every draw after the first repeats the first friend's position, and it changes nothing |
| Generator.JinGen.IntroduceFriends | python/jingen/__init__.py:192-210 | returns the introduced pairs and the person who introduced each: exactly `introCount(sum / 2)` pairs iff the rule completes, where `sum` is the sum of the meet factors; each pair is canonical and both its ends are friends of its person; every new edge is one of the pairs, and each pair is now an edge or has an endpoint at `z*`; no degree falls; the state stays valid and within the cap |
| Generator.JinGen.IntroduceTimes | python/jingen/__init__.py:196-210 | the introduction loop: exactly the requested number of pairs iff it completes, otherwise fewer than two draws are left; each pair is canonical and two friends of its recorded person; every new edge is one of the pairs, each pair is now an edge or has an endpoint at `z*`; no degree falls |
| Generator.JinGen.LoseOnce | python/jingen/__init__.py:219-224 | needs a positive maximum degree; a completed loss returns the chosen person, whose degree was positive, and the lost edge, which was present and has that person as an end; exactly that edge leaves the set and each end is removed once from the other's friend list; a stopped one changes no edge and no list (the body proves that the chosen person has a friend and the edge it removes is present) |
| Generator.JinGen.LoseTouch | python/jingen/__init__.py:217-224 | decay only removes edges; a completed decay removes exactly the loss count; it can fail only when the loss count exceeds the edge count |
| Generator.JinGen.Grow | python/jingen/__init__.py:248-249 | the meeting rule then the introduction rule, through a recorded middle graph whose meet factors are those of its friend lists: meetings add only met pairs and introductions only introduced pairs, each introduced pair made of two friends of its recorded ego; when the meetings complete, all `meetCount(numPairs)` were tried and the number of introductions is the count for half the middle graph's meet-factor sum; when both complete, each tried pair is an edge or has an endpoint at `z*`; a stopped run has fewer than two draws left |
| Generator.JinGen.Iterate | python/jingen/__init__.py:246-251 | one iteration records its index and grows the graph as `Grow` states (middle graph, met and introduced pairs, egos, counts of both rules unless the draws ran out); decay then only removes edges of the grown set: up to `barrier_iters` it removes none, and past it a completed iteration has removed exactly `lossCount` of the grown edge count, while `NoWeight` means the loss count exceeded them all; up to the barrier each tried pair is an edge or has an endpoint at `z*` |
| Generator.JinGen.RunIterations | python/jingen/__init__.py:246-256 | the loop ends valid and within the cap; with at most `barrier_iters + 1` iterations the edge set never shrinks; a stopped run reports the iteration where it stopped |
| Generator.JinGen.Generate | python/jingen/__init__.py:243-256 | `n` and `iterations` default to 250 and 30000; the final state is valid, no degree exceeds `z*`, and with `z* <= 0` no edge forms |
| Generator.JinGen.GenerateChecked | java/JinGen/src/main/java/com/johnbnelson/jingen/JinGen.java:225-240 | refuses iff the meeting count of `n(n-1)/2` pairs is 0, and then changes no edge and uses no draw |

## Left out

- Floating-point rates `r_0`, `r_1` and `gamma`: each `round(x * rate)` is an arbitrary count function. It must give 0 at 0 for meetings and introductions, as `round(0 * rate)` does. Their default values (0.0005, 2.0 and 0.005 at python/jingen/__init__.py:108 and JinGen.java:50) have no counterpart, because the rates are not numbers here.
- The float comparison `random() < w / max` in stochastic acceptance is replaced by the exact integer test `u * max < w * 2^53`, where `u / 2^53` is the drawn double. The source compares with the rounded quotient `w / max`, so the two can differ near the boundary: for `w = 2`, `max = 3` and `u = 6004799503160661`, Python's `u / 2^53 < 2 / 3.0` is false and the model's test is true.
- The index `int(n * random())` of stochastic acceptance is the exact floor of `n * u / 2^53` here. The source rounds the float product first, so the two can differ: for `n = 3` and `u = (2^54 - 1) / 3`, the product `2 - 2^-53` rounds to 2.0 and the source picks 2, where the model picks 1. Both lie in `[0, n)`, which is all the model relies on.
- Uniformity and proportionality of the samplers are not modelled. They are probabilistic properties.
- Termination of the rejection loops comes from the finite draw stream. A sampler gives up only when the stream ends with every draw it consumed rejected; the program would loop on.
- Generator.JinGen.MeetRandomly, Generator.JinGen.IntroduceOnce, Generator.JinGen.IntroduceFriends, Generator.JinGen.IntroduceTimes, Generator.JinGen.LoseOnce, Generator.JinGen.LoseTouch, Generator.JinGen.Grow, Generator.JinGen.Iterate, Generator.JinGen.RunIterations, Generator.JinGen.Generate: when one of them stops early, its contract says only that the stream is spent or has fewer than two draws left. It does not say that every draw consumed on the way was rejected. The samplers they call state that fact; lifting it would need a record of every draw.
- The random number generators themselves, and `Random` injection in Java, are not modelled.
- Sampling.RandomIdx, Sampling.RandomNode, Sampling.RandomEdgeAsIndices, Sampling.RandomPairFromList, Sampling.RandomPairFromSet: they require a non-empty range or collection. On an empty one Python's `randint(0, -1)` and `random.choice([])` raise, and Java's `nextInt(0)` throws. Every rule calls them on a non-empty one. On a range of one, both loop forever; that case shows up here as exhaustion of the stream.
- Sampling.RandomProportionalSelection: it requires a positive maximum weight. With a maximum of 0, Python's division raises `ZeroDivisionError` and Java never accepts a candidate. Introductions call it only when some meet factor is positive, and decay only when some degree is; `Generator.JinGen.LoseTouch` reports the remaining case as `NoWeight`.
- Generator.JinGen.LoseTouch: when the loss count exceeds the number of edges (`gamma > 1`), the source sooner or later draws a selection with every degree 0. Python then raises a division by zero, and Java never accepts a candidate. Both end as the `NoWeight` status here.
- The observer `callback` is treated as a no-op.
- `clusteringCoefficient` (double arithmetic) and `main` (command-line parsing and printing) are not modelled.
- The `numba` / `autojit` fallback shim and `setup.py` are not modelled.
- Java `int` overflow in `numPairs = (n * (n - 1)) / 2`, `sumOfMutualMeetFactors` and the degree counters is not modelled. Integers are unbounded here.
- Edges.HashCode: the fields are unbounded `int`s here, so it equals Java's wrapped `hashCode` only for `a` and `b` within Java's `int` range, which holds for every node index below 2^31.
- Edges.Equals: Java's `equals(Object)` also returns false for an object of another class or a subclass (`getClass() != o.getClass()`). Only `Edge` values and `null` (as `None`) are modelled, because the generator compares nothing else.
- Python's `adj_list[ego]` on a `defaultdict` inserts an empty list for an unseen key. A missing key reads as an empty list here and the map is not extended. The lists seen by every operation are unchanged by this.
- Java's `adjList.get(ego)` would return `null` for an unseen key. That cannot happen, because the chosen node has positive weight and so a list.
- Generator.JinGen.RemoveEdge: the change of the two degrees is not one of its postconditions. It is stated by `Generator.DegreesAfterRemove` about the states before and after, both in step.
- Generator.JinGen.MeetRandomly, Generator.JinGen.IntroduceFriends, Generator.JinGen.IntroduceTimes, Generator.JinGen.Grow, Generator.JinGen.Iterate: the returned pairs are ghost values. The contracts do not tie each pair to the draws that produced it. Among the samplers, only `Sampling.RandomProportionalSelection` pins its index to the draws. `Sampling.RandomEdgeAsIndices` ties only its first end to the first draw, and `Sampling.RandomPairFromList` and `Sampling.RandomPairFromSet` promise only range, distinctness and membership.
- Generator.JinGen.RunIterations, Generator.JinGen.Generate, Generator.JinGen.GenerateChecked: the met and introduced pairs of each iteration, which `Generator.JinGen.Iterate` returns, are not carried across iterations. Their contracts therefore do not say that each iteration applied the growth rules; they state validity, the cap, and the iteration where a run stopped.
- Python's order of `list(nodes)` on a set is the runtime's. `ListOfSet` promises some duplicate-free enumeration.

## Findings

| source | as written | input that shows it | evidently intended | confidence | as-written member | corrected member |
|---|---|---|---|---|---|---|
| java/JinGen/src/main/java/com/johnbnelson/jingen/Edge.java:17-19 | `transpose()` builds `new Edge(b, a)` through the constructor that asserts `a < b` | `new Edge(0, 1).transpose()` with assertions enabled: every `addEdge` and `removeEdge` calls it on a canonical edge | an oriented (node, friend) pair that is not subject to the canonical-form check, as used by `updateEdgeCountsOn*` | high (proved; not executed) | Edges.TransposeChecked, Edges.TransposeCheckedCounterexample | Edges.Transpose, Edges.TransposeInvolutive |
