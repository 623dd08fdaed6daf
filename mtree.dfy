/**
 * The M_rad split of an M-tree node: choosing the two entries that are
 * promoted to the parent node when a node overflows.
 *
 * Every pair of entries (i, j) with i < j is tried as the pair of routing
 * objects. For each pair the entries are distributed between the two
 * candidates in alternating nearest-neighbour steps, and the covering radius
 * of each candidate grows as entries are assigned to it. A trial is abandoned
 * as soon as the sum of the two radii reaches the best maximum radius found
 * so far; a finished trial replaces the best pair when its larger radius is
 * strictly smaller than that best.
 *
 * Distances are naturals given by a distance function on object ids. The
 * nearest-neighbour assignment step belongs to the split's superclass and is
 * not part of this model: it is a function-valued field, so everything
 * proved here holds for any assignment step.
 */
module MTree {
  import opened Wrappers

  /** A value of the tree's distance type: a finite distance or the infinite distance. */
  datatype Distance = Finite(value: nat) | Infinite

  /** d is strictly smaller than bound. */
  predicate Below(d: nat, bound: Distance)
  {
    bound.Infinite? || d < bound.value
  }

  /** The larger of two distances. */
  function Max(a: nat, b: nat): nat
  {
    if a >= b then a else b
  }

  /** An entry of a node, identified by the id of its object. */
  datatype MTreeEntry = MTreeEntry(objectId: nat)

  /** An entry tagged with its distance to a candidate and with its index in the node. */
  datatype DistanceEntry = DistanceEntry(entry: MTreeEntry, distance: nat, index: nat)

  /** The result of a finished trial: both covering radii and the entries given to each candidate. */
  datatype Assignment = Assignment(
    firstCoveringRadius: nat,
    secondCoveringRadius: nat,
    firstAssignment: seq<MTreeEntry>,
    secondAssignment: seq<MTreeEntry>)

  /**
   * What one nearest-neighbour step leaves behind: the candidate's grown
   * assignment, its own distance list and the other candidate's list after
   * the step has taken its entry out of them, and the candidate's new radius.
   */
  datatype NNResult = NNResult(
    assignment: seq<MTreeEntry>,
    list: seq<DistanceEntry>,
    other: seq<DistanceEntry>,
    coveringRadius: nat)

  /**
   * The superclass's nearest-neighbour step, applied to (assignment, own
   * list, other list, current radius, node is a leaf).
   */
  type AssignNN = (seq<MTreeEntry>, seq<DistanceEntry>, seq<DistanceEntry>, nat, bool) -> NNResult

  /** The distance between two objects, by id. */
  type DistanceFunction = (nat, nat) -> nat

  /**
   * The distance list of one candidate: one element per node entry, in node
   * order, tagged with the entry's index and its distance to the candidate.
   */
  function DistanceList(entries: seq<MTreeEntry>, id: nat, distance: DistanceFunction): seq<DistanceEntry>
  {
    seq(|entries|, k requires 0 <= k < |entries| => DistanceEntry(entries[k], distance(id, entries[k].objectId), k))
  }

  predicate SortedByDistance(l: seq<DistanceEntry>)
  {
    forall a, b :: 0 <= a < b < |l| ==> l[a].distance <= l[b].distance
  }

  /** Inserts e into a list sorted by distance, before the first element that is not closer. */
  function InsertByDistance(e: DistanceEntry, l: seq<DistanceEntry>): seq<DistanceEntry>
  {
    if l == [] || e.distance <= l[0].distance then [e] + l
    else [l[0]] + InsertByDistance(e, l[1..])
  }

  /**
   * Sorts a distance list by distance. Elements at equal distance keep
   * their relative order, as a stable sort leaves them.
   */
  function SortByDistance(l: seq<DistanceEntry>): seq<DistanceEntry>
  {
    if l == [] then [] else InsertByDistance(l[0], SortByDistance(l[1..]))
  }

  /** Inserting adds exactly the one element. */
  lemma {:induction false} InsertByDistancePermutes(e: DistanceEntry, l: seq<DistanceEntry>)
    ensures multiset(InsertByDistance(e, l)) == multiset(l) + multiset{e}
  {
    if l != [] && e.distance > l[0].distance {
      InsertByDistancePermutes(e, l[1..]);
      assert l == [l[0]] + l[1..];
    }
  }

  /** Every element of the result is e or an element of l. */
  lemma {:induction false} InsertByDistanceMembers(e: DistanceEntry, l: seq<DistanceEntry>)
    ensures forall x :: x in InsertByDistance(e, l) ==> x == e || x in l
  {
    if l != [] && e.distance > l[0].distance {
      InsertByDistanceMembers(e, l[1..]);
    }
  }

  /** Inserting into a sorted list keeps it sorted. */
  lemma {:induction false} InsertByDistanceSorted(e: DistanceEntry, l: seq<DistanceEntry>)
    requires SortedByDistance(l)
    ensures SortedByDistance(InsertByDistance(e, l))
  {
    if l != [] && e.distance > l[0].distance {
      var rest := InsertByDistance(e, l[1..]);
      InsertByDistanceSorted(e, l[1..]);
      InsertByDistanceMembers(e, l[1..]);
      forall b | 0 <= b < |rest| ensures l[0].distance <= rest[b].distance {
        assert rest[b] in rest;
      }
    }
  }

  /** Elements at equal distance are in increasing index order. */
  predicate OrderedByDistanceThenIndex(l: seq<DistanceEntry>)
  {
    forall a, b :: 0 <= a < b < |l| ==>
      l[a].distance < l[b].distance || (l[a].distance == l[b].distance && l[a].index < l[b].index)
  }

  /** The indices of l increase along the list, as they do in a list built in node order. */
  predicate IndicesIncrease(l: seq<DistanceEntry>)
  {
    forall a, b :: 0 <= a < b < |l| ==> l[a].index < l[b].index
  }

  /** Inserting an element whose index is below every index in l keeps the order by distance, then index. */
  lemma {:induction false} InsertByDistanceStable(e: DistanceEntry, l: seq<DistanceEntry>)
    requires OrderedByDistanceThenIndex(l)
    requires forall x :: x in l ==> e.index < x.index
    ensures OrderedByDistanceThenIndex(InsertByDistance(e, l))
  {
    if l != [] && e.distance > l[0].distance {
      var rest := InsertByDistance(e, l[1..]);
      InsertByDistanceStable(e, l[1..]);
      InsertByDistanceMembers(e, l[1..]);
      forall b | 0 <= b < |rest|
        ensures l[0].distance < rest[b].distance || (l[0].distance == rest[b].distance && l[0].index < rest[b].index)
      {
        assert rest[b] in rest;
      }
    }
  }

  /**
   * The sort is stable: a list whose indices increase is sorted by distance
   * and, among equal distances, by index.
   */
  lemma {:induction false} SortByDistanceStable(l: seq<DistanceEntry>)
    requires IndicesIncrease(l)
    ensures OrderedByDistanceThenIndex(SortByDistance(l))
  {
    if l != [] {
      SortByDistanceStable(l[1..]);
      SortByDistanceCorrect(l[1..]);
      forall x | x in SortByDistance(l[1..]) ensures l[0].index < x.index {
        assert x in multiset(SortByDistance(l[1..]));
        assert x in l[1..];
      }
      InsertByDistanceStable(l[0], SortByDistance(l[1..]));
    }
  }

  /** A distance list's indices increase, so its sorted form is ordered by distance, then index. */
  lemma DistanceListSortedStably(entries: seq<MTreeEntry>, id: nat, distance: DistanceFunction)
    ensures OrderedByDistanceThenIndex(SortByDistance(DistanceList(entries, id, distance)))
  {
    SortByDistanceStable(DistanceList(entries, id, distance));
  }

  /** Sorting a list that is already sorted leaves it as it is. */
  lemma {:induction false} SortByDistanceOfSorted(l: seq<DistanceEntry>)
    requires SortedByDistance(l)
    ensures SortByDistance(l) == l
  {
    if l != [] {
      SortByDistanceOfSorted(l[1..]);
      assert l == [l[0]] + l[1..];
    }
  }

  /** The sorted list is sorted by distance and is a permutation of the input. */
  lemma {:induction false} SortByDistanceCorrect(l: seq<DistanceEntry>)
    ensures SortedByDistance(SortByDistance(l))
    ensures multiset(SortByDistance(l)) == multiset(l)
  {
    if l != [] {
      SortByDistanceCorrect(l[1..]);
      InsertByDistanceSorted(l[0], SortByDistance(l[1..]));
      InsertByDistancePermutes(l[0], SortByDistance(l[1..]));
      assert l == [l[0]] + l[1..];
    }
  }

  /** The state of one trial: both radii, both assignments and both distance lists. */
  datatype PartitionState = PartitionState(
    cr1: nat,
    cr2: nat,
    first: seq<MTreeEntry>,
    second: seq<MTreeEntry>,
    list1: seq<DistanceEntry>,
    list2: seq<DistanceEntry>)

  /** Before the first step: both radii are the null distance, both assignments empty, both lists sorted. */
  function InitialState(entries: seq<MTreeEntry>, id1: nat, id2: nat, distance: DistanceFunction): PartitionState
  {
    PartitionState(0, 0, [], [],
      SortByDistance(DistanceList(entries, id1, distance)),
      SortByDistance(DistanceList(entries, id2, distance)))
  }

  /** Step number `step` of a trial: even steps assign to the first candidate, odd steps to the second. */
  function AssignStep(assignNN: AssignNN, isLeaf: bool, s: PartitionState, step: nat): PartitionState
  {
    if step % 2 == 0 then
      var r := assignNN(s.first, s.list1, s.list2, s.cr1, isLeaf);
      s.(cr1 := r.coveringRadius, first := r.assignment, list1 := r.list, list2 := r.other)
    else
      var r := assignNN(s.second, s.list2, s.list1, s.cr2, isLeaf);
      s.(cr2 := r.coveringRadius, second := r.assignment, list2 := r.list, list1 := r.other)
  }

  /** The state of a trial after its first `steps` steps, ignoring the abort test. */
  function Partition(assignNN: AssignNN, isLeaf: bool, start: PartitionState, steps: nat): PartitionState
  {
    if steps == 0 then start
    else AssignStep(assignNN, isLeaf, Partition(assignNN, isLeaf, start, steps - 1), steps - 1)
  }

  /** The sum of the two covering radii, the quantity the abort test compares. */
  function RadiusSum(s: PartitionState): nat
  {
    s.cr1 + s.cr2
  }

  /**
   * Steps alternate: an even step leaves the second candidate's radius and
   * assignment alone, an odd step the first candidate's.
   */
  lemma StepsAlternate(assignNN: AssignNN, isLeaf: bool, start: PartitionState, k: nat)
    ensures var before, after := Partition(assignNN, isLeaf, start, k), Partition(assignNN, isLeaf, start, k + 1);
            if k % 2 == 0 then after.cr2 == before.cr2 && after.second == before.second
            else after.cr1 == before.cr1 && after.first == before.first
  {
  }

  /** Extends "every step so far kept the radius sum below bound" by one step. */
  lemma BelowThroughNextStep(assignNN: AssignNN, isLeaf: bool, start: PartitionState, i: nat, bound: Distance)
    requires forall k :: 1 <= k <= i ==> Below(RadiusSum(Partition(assignNN, isLeaf, start, k)), bound)
    requires Below(RadiusSum(Partition(assignNN, isLeaf, start, i + 1)), bound)
    ensures forall k :: 1 <= k <= i + 1 ==> Below(RadiusSum(Partition(assignNN, isLeaf, start, k)), bound)
  {
  }

  /** The best pair so far, (bi, bj), with its larger radius maxCR; infinite while no pair has been chosen. */
  datatype Choice = Choice(maxCR: Distance, bi: nat, bj: nat)

  /** Pair (p, q) comes before pair (i, j) in the order the split tries pairs. */
  predicate LexBefore(p: int, q: int, i: int, j: int)
  {
    p < i || (p == i && q < j)
  }

  /** A node: an array of entries of which the first numEntries are in use. */
  class MTreeNode {
    const entries: array<MTreeEntry>
    var numEntries: nat
    const isLeaf: bool

    ghost predicate Valid()
      reads this
    {
      numEntries <= entries.Length
    }

    constructor (entries: array<MTreeEntry>, numEntries: nat, isLeaf: bool)
      requires numEntries <= entries.Length
      ensures Valid()
      ensures this.entries == entries && this.numEntries == numEntries && this.isLeaf == isLeaf
    {
      this.entries := entries;
      this.numEntries := numEntries;
      this.isLeaf := isLeaf;
    }
  }

  /** Three entries, with object ids 0, 1 and 2: the node of the example below. */
  function ExampleEntries(): seq<MTreeEntry>
  {
    [MTreeEntry(0), MTreeEntry(1), MTreeEntry(2)]
  }

  /** The weight of each object of the example: 1, 10 and 8. */
  function ExampleWeight(id: nat): nat
  {
    if id == 0 then 1 else if id == 1 then 10 else 8
  }

  /** The example's distance from a candidate to an object: the candidate's weight plus the object's id. */
  function ExampleDistance(from: nat, to: nat): nat
  {
    ExampleWeight(from) + to
  }

  /** The example's assignment step: the radius grows by the distance of the nearest entry; nothing else changes. */
  function ExampleStep(assignment: seq<MTreeEntry>, list: seq<DistanceEntry>, other: seq<DistanceEntry>, radius: nat, isLeaf: bool): NNResult
  {
    NNResult(assignment, list, other, radius + if |list| > 0 then list[0].distance else 0)
  }

  /** The example's distance lists are already sorted, so sorting them keeps their first element. */
  lemma ExampleListSorted(id: nat)
    ensures var l := SortByDistance(DistanceList(ExampleEntries(), id, ExampleDistance));
            |l| == 3 && l[0].distance == ExampleWeight(id)
  {
    var l := DistanceList(ExampleEntries(), id, ExampleDistance);
    assert l == [DistanceEntry(MTreeEntry(0), ExampleWeight(id), 0),
                 DistanceEntry(MTreeEntry(1), ExampleWeight(id) + 1, 1),
                 DistanceEntry(MTreeEntry(2), ExampleWeight(id) + 2, 2)];
    SortByDistanceOfSorted(l);
  }

  /** The split of a node by the M_rad strategy, with the fields its superclass defines. */
  class MRadSplit {
    /** The superclass's nearest-neighbour assignment step. */
    const assignNN: AssignNN

    var firstPromoted: Option<nat>
    var secondPromoted: Option<nat>
    var firstCoveringRadius: Option<nat>
    var secondCoveringRadius: Option<nat>
    var assignmentsToFirst: Option<seq<MTreeEntry>>
    var assignmentsToSecond: Option<seq<MTreeEntry>>

    /** The trial for candidates id1 and id2 after `steps` steps, ignoring the abort test. */
    ghost function Run(entries: seq<MTreeEntry>, isLeaf: bool, distance: DistanceFunction, id1: nat, id2: nat, steps: nat): PartitionState
    {
      Partition(assignNN, isLeaf, InitialState(entries, id1, id2, distance), steps)
    }

    /** Some step of the trial for id1 and id2 brings the radius sum up to bound. */
    ghost predicate Aborts(entries: seq<MTreeEntry>, isLeaf: bool, distance: DistanceFunction, id1: nat, id2: nat, bound: Distance)
    {
      exists k :: 1 <= k <= |entries| && !Below(RadiusSum(Run(entries, isLeaf, distance, id1, id2, k)), bound)
    }

    /** The larger radius of the finished trial for the entries at p and q. */
    ghost function PairMaxRadius(entries: seq<MTreeEntry>, isLeaf: bool, distance: DistanceFunction, p: nat, q: nat): nat
      requires p < |entries| && q < |entries|
    {
      var full := Run(entries, isLeaf, distance, entries[p].objectId, entries[q].objectId, |entries|);
      Max(full.cr1, full.cr2)
    }

    /**
     * The pair (p, q) is worse than a maximum radius m, or would be pruned
     * against it: its finished larger radius exceeds m, or some step's
     * radius sum does. The second case admits pairs whose larger radius is
     * below m (see PrunedPairCanHaveSmallerRadius).
     */
    ghost predicate WorseOrPrunable(entries: seq<MTreeEntry>, isLeaf: bool, distance: DistanceFunction, p: nat, q: nat, m: nat)
      requires p < |entries| && q < |entries|
    {
      || m < PairMaxRadius(entries, isLeaf, distance, p, q)
      || exists k :: 1 <= k <= |entries| && m < RadiusSum(Run(entries, isLeaf, distance, entries[p].objectId, entries[q].objectId, k))
    }

    /** The fields hold the pair (bi, bj) and its finished trial. */
    ghost predicate Records(entries: seq<MTreeEntry>, isLeaf: bool, distance: DistanceFunction, bi: nat, bj: nat)
      reads this
      requires bi < |entries| && bj < |entries|
    {
      var full := Run(entries, isLeaf, distance, entries[bi].objectId, entries[bj].objectId, |entries|);
      && firstPromoted == Some(entries[bi].objectId)
      && secondPromoted == Some(entries[bj].objectId)
      && firstCoveringRadius == Some(full.cr1)
      && secondCoveringRadius == Some(full.cr2)
      && assignmentsToFirst == Some(full.first)
      && assignmentsToSecond == Some(full.second)
    }

    /** Every pair tried before (bi, bj) is worse than the maximum radius m or prunable against it. */
    ghost predicate EarlierWorseOrPrunable(entries: seq<MTreeEntry>, isLeaf: bool, distance: DistanceFunction, bi: nat, bj: nat, m: nat)
    {
      forall p, q :: 0 <= p < q < |entries| && LexBefore(p, q, bi, bj) ==>
        WorseOrPrunable(entries, isLeaf, distance, p, q, m)
    }

    /** Every pair tried after (bi, bj) and before (i, j) aborts against the maximum radius m. */
    ghost predicate LaterAbort(entries: seq<MTreeEntry>, isLeaf: bool, distance: DistanceFunction, bi: nat, bj: nat, i: nat, j: nat, m: nat)
    {
      forall p, q :: 0 <= p < q < |entries| && LexBefore(bi, bj, p, q) && LexBefore(p, q, i, j) ==>
        Aborts(entries, isLeaf, distance, entries[p].objectId, entries[q].objectId, Finite(m))
    }

    /**
     * One step of the search as the inner loop takes it: a pair whose
     * trial is pruned against the current best leaves the choice alone; a
     * finished trial replaces it only when its larger radius is strictly
     * smaller, so a tie keeps the earlier pair.
     */
    ghost function TryStep(entries: seq<MTreeEntry>, isLeaf: bool, distance: DistanceFunction, c: Choice, i: nat, j: nat): Choice
      requires i < |entries| && j < |entries|
    {
      if Aborts(entries, isLeaf, distance, entries[i].objectId, entries[j].objectId, c.maxCR) then c
      else
        var m := PairMaxRadius(entries, isLeaf, distance, i, j);
        if Below(m, c.maxCR) then Choice(Finite(m), i, j) else c
    }

    /**
     * The choice the search holds just before it tries the pair (i, j):
     * every pair of an earlier row and every pair (i, q) with q < j has
     * been tried, in the order the loops take them.
     */
    ghost function ChoiceBefore(entries: seq<MTreeEntry>, isLeaf: bool, distance: DistanceFunction, i: nat, j: nat): Choice
      requires i < j <= |entries|
      decreases i, j, 0
    {
      if j == i + 1 then RowStart(entries, isLeaf, distance, i)
      else ChoiceAfter(entries, isLeaf, distance, i, j - 1)
    }

    /** The choice the search holds once it has tried the pair (i, j). */
    ghost function ChoiceAfter(entries: seq<MTreeEntry>, isLeaf: bool, distance: DistanceFunction, i: nat, j: nat): Choice
      requires i < j < |entries|
      decreases i, j, 1
    {
      TryStep(entries, isLeaf, distance, ChoiceBefore(entries, isLeaf, distance, i, j), i, j)
    }

    /** Trying the pair (i, j) takes the search from its choice before (i, j) to the one before (i, j + 1). */
    lemma ChoiceBeforeNext(entries: seq<MTreeEntry>, isLeaf: bool, distance: DistanceFunction, i: nat, j: nat)
      requires i < j < |entries|
      ensures ChoiceBefore(entries, isLeaf, distance, i, j + 1)
              == TryStep(entries, isLeaf, distance, ChoiceBefore(entries, isLeaf, distance, i, j), i, j)
    {
    }

    /**
     * The choice the search holds when it starts row i: infinite before the
     * first row, and otherwise what the previous row ended with.
     */
    ghost function RowStart(entries: seq<MTreeEntry>, isLeaf: bool, distance: DistanceFunction, i: nat): Choice
      requires i <= |entries|
      decreases i, 0, 0
    {
      if i == 0 then Choice(Infinite, 0, 0)
      else ChoiceBefore(entries, isLeaf, distance, i - 1, |entries|)
    }

    /** The pair the M_rad promotion chooses: the search's choice once every row is done. */
    ghost function MRadChoice(entries: seq<MTreeEntry>, isLeaf: bool, distance: DistanceFunction): Choice
    {
      RowStart(entries, isLeaf, distance, |entries|)
    }

    /**
     * The outcome of the M_rad promotion: the fields record the pair
     * (bi, bj) and its finished trial; every pair tried before it is worse
     * than its maximum radius m or prunable against it, and every pair
     * tried after it aborts against m.
     */
    ghost predicate PromotedPair(entries: seq<MTreeEntry>, isLeaf: bool, distance: DistanceFunction, bi: nat, bj: nat)
      reads this
    {
      && bi < bj < |entries|
      && Records(entries, isLeaf, distance, bi, bj)
      && EarlierWorseOrPrunable(entries, isLeaf, distance, bi, bj, PairMaxRadius(entries, isLeaf, distance, bi, bj))
      && LaterAbort(entries, isLeaf, distance, bi, bj, |entries|, 0, PairMaxRadius(entries, isLeaf, distance, bi, bj))
    }

    /**
     * When the pair (i, j) improves on (bi, bj), every pair tried so far is
     * worse than the new maximum radius m or prunable against it: those before (bi, bj)
     * were already worse than the old one, (bi, bj) itself has the old one,
     * and those after it aborted against the old one.
     */
    lemma {:induction false} ImprovementKeepsEarlierWorseOrPrunable(
      entries: seq<MTreeEntry>, isLeaf: bool, distance: DistanceFunction, bi: nat, bj: nat, m0: nat, i: nat, j: nat, m: nat)
      requires bi < bj < |entries| && LexBefore(bi, bj, i, j)
      requires m < m0 && m0 == PairMaxRadius(entries, isLeaf, distance, bi, bj)
      requires EarlierWorseOrPrunable(entries, isLeaf, distance, bi, bj, m0)
      requires LaterAbort(entries, isLeaf, distance, bi, bj, i, j, m0)
      ensures EarlierWorseOrPrunable(entries, isLeaf, distance, i, j, m)
    {
      forall p, q | 0 <= p < q < |entries| && LexBefore(p, q, i, j)
        ensures WorseOrPrunable(entries, isLeaf, distance, p, q, m)
      {
        if LexBefore(p, q, bi, bj) {
          assert WorseOrPrunable(entries, isLeaf, distance, p, q, m0);
          if m0 >= PairMaxRadius(entries, isLeaf, distance, p, q) {
            var k :| 1 <= k <= |entries| && m0 < RadiusSum(Run(entries, isLeaf, distance, entries[p].objectId, entries[q].objectId, k));
            assert m < RadiusSum(Run(entries, isLeaf, distance, entries[p].objectId, entries[q].objectId, k));
          }
        } else if p != bi || q != bj {
          assert Aborts(entries, isLeaf, distance, entries[p].objectId, entries[q].objectId, Finite(m0));
          var k :| 1 <= k <= |entries| && !Below(RadiusSum(Run(entries, isLeaf, distance, entries[p].objectId, entries[q].objectId, k)), Finite(m0));
          assert m < RadiusSum(Run(entries, isLeaf, distance, entries[p].objectId, entries[q].objectId, k));
        }
      }
    }

    /** A pair that aborts against m extends the run of aborted pairs by one. */
    lemma AbortedPairExtends(entries: seq<MTreeEntry>, isLeaf: bool, distance: DistanceFunction, bi: nat, bj: nat, i: nat, j: nat, m: nat)
      requires i < j < |entries| && LexBefore(bi, bj, i, j)
      requires LaterAbort(entries, isLeaf, distance, bi, bj, i, j, m)
      requires Aborts(entries, isLeaf, distance, entries[i].objectId, entries[j].objectId, Finite(m))
      ensures LaterAbort(entries, isLeaf, distance, bi, bj, i, j + 1, m)
    {
    }

    /** Once every pair (i, j) has been tried, the tried pairs are exactly those whose first index is at most i. */
    lemma RowFinished(entries: seq<MTreeEntry>, isLeaf: bool, distance: DistanceFunction, bi: nat, bj: nat, i: nat, j: nat, m: nat)
      requires j >= |entries|
      requires LaterAbort(entries, isLeaf, distance, bi, bj, i, j, m)
      ensures LaterAbort(entries, isLeaf, distance, bi, bj, i + 1, 0, m)
    {
    }

    /**
     * A trial that is not pruned beats the bound with its larger radius
     * too, since that radius is at most the final radius sum: whenever
     * the trial of a pair returns an assignment, the promotion takes it.
     */
    lemma {:induction false} UnprunedTrialImproves(entries: seq<MTreeEntry>, isLeaf: bool, distance: DistanceFunction, p: nat, q: nat, bound: Distance)
      requires p < |entries| && q < |entries|
      requires !Aborts(entries, isLeaf, distance, entries[p].objectId, entries[q].objectId, bound)
      ensures Below(PairMaxRadius(entries, isLeaf, distance, p, q), bound)
    {
      var full := Run(entries, isLeaf, distance, entries[p].objectId, entries[q].objectId, |entries|);
      assert Below(RadiusSum(full), bound);
    }

    /**
     * What holds of the search's choice c before the pair (i, j) is tried:
     * while no pair has been chosen, no pair has been tried; once (bi, bj)
     * is chosen, c holds its larger radius m, every pair before it is worse
     * than m or prunable against it, and every pair after it and before
     * (i, j) was pruned against m.
     */
    ghost predicate SearchInvariant(entries: seq<MTreeEntry>, isLeaf: bool, distance: DistanceFunction, c: Choice, i: nat, j: nat)
    {
      && (c.maxCR.Infinite? ==> (i == 0 && j <= 1) || |entries| < 2)
      && (c.maxCR.Finite? ==>
            && c.bi < c.bj < |entries| && LexBefore(c.bi, c.bj, i, j)
            && c.maxCR.value == PairMaxRadius(entries, isLeaf, distance, c.bi, c.bj)
            && EarlierWorseOrPrunable(entries, isLeaf, distance, c.bi, c.bj, c.maxCR.value)
            && LaterAbort(entries, isLeaf, distance, c.bi, c.bj, i, j, c.maxCR.value))
    }

    /** Trying the pair (i, j) carries the invariant from (i, j) to (i, j + 1). */
    lemma {:induction false} TryStepKeepsInvariant(entries: seq<MTreeEntry>, isLeaf: bool, distance: DistanceFunction, c: Choice, i: nat, j: nat)
      requires i < j < |entries|
      requires SearchInvariant(entries, isLeaf, distance, c, i, j)
      ensures SearchInvariant(entries, isLeaf, distance, TryStep(entries, isLeaf, distance, c, i, j), i, j + 1)
    {
      var id1, id2 := entries[i].objectId, entries[j].objectId;
      if Aborts(entries, isLeaf, distance, id1, id2, c.maxCR) {
        AbortedPairExtends(entries, isLeaf, distance, c.bi, c.bj, i, j, c.maxCR.value);
      } else {
        var m := PairMaxRadius(entries, isLeaf, distance, i, j);
        UnprunedTrialImproves(entries, isLeaf, distance, i, j, c.maxCR);
        if c.maxCR.Finite? {
          ImprovementKeepsEarlierWorseOrPrunable(entries, isLeaf, distance, c.bi, c.bj, c.maxCR.value, i, j, m);
        }
      }
    }

    /** Finishing row i carries the invariant to the first pair of row i + 1. */
    lemma NextRowKeepsInvariant(entries: seq<MTreeEntry>, isLeaf: bool, distance: DistanceFunction, c: Choice, i: nat, j: nat)
      requires i < |entries| <= j
      requires SearchInvariant(entries, isLeaf, distance, c, i, j)
      ensures SearchInvariant(entries, isLeaf, distance, c, i + 1, i + 2)
    {
      if c.maxCR.Finite? {
        RowFinished(entries, isLeaf, distance, c.bi, c.bj, i, j, c.maxCR.value);
      }
    }

    /** The search's choice before the pair (i, j) meets the invariant there. */
    lemma {:induction false} ChoiceBeforeInvariant(entries: seq<MTreeEntry>, isLeaf: bool, distance: DistanceFunction, i: nat, j: nat)
      requires i < j <= |entries|
      ensures SearchInvariant(entries, isLeaf, distance, ChoiceBefore(entries, isLeaf, distance, i, j), i, j)
      decreases i, j, 0
    {
      if j == i + 1 {
        RowStartInvariant(entries, isLeaf, distance, i);
      } else {
        ChoiceBeforeInvariant(entries, isLeaf, distance, i, j - 1);
        TryStepKeepsInvariant(entries, isLeaf, distance, ChoiceBefore(entries, isLeaf, distance, i, j - 1), i, j - 1);
        ChoiceBeforeNext(entries, isLeaf, distance, i, j - 1);
      }
    }

    /** The search's choice at the start of row i meets the invariant before the pair (i, i + 1). */
    lemma {:induction false} RowStartInvariant(entries: seq<MTreeEntry>, isLeaf: bool, distance: DistanceFunction, i: nat)
      requires i <= |entries|
      ensures SearchInvariant(entries, isLeaf, distance, RowStart(entries, isLeaf, distance, i), i, i + 1)
      decreases i, 0, 0
    {
      if i > 0 {
        ChoiceBeforeInvariant(entries, isLeaf, distance, i - 1, |entries|);
        NextRowKeepsInvariant(entries, isLeaf, distance, ChoiceBefore(entries, isLeaf, distance, i - 1, |entries|), i - 1, |entries|);
      }
    }

    /**
     * The pair the promotion chooses from two or more entries: a pair
     * (bi, bj) with its larger radius m, such that every pair before it is
     * worse than m or prunable against it and every pair after it is
     * pruned against m. These properties describe the fold's result; they
     * do not single it out, since another pair can have them too.
     */
    lemma MRadChoiceDescribed(entries: seq<MTreeEntry>, isLeaf: bool, distance: DistanceFunction)
      requires |entries| >= 2
      ensures var c := MRadChoice(entries, isLeaf, distance);
              && c.maxCR.Finite? && c.bi < c.bj < |entries|
              && c.maxCR.value == PairMaxRadius(entries, isLeaf, distance, c.bi, c.bj)
              && EarlierWorseOrPrunable(entries, isLeaf, distance, c.bi, c.bj, c.maxCR.value)
              && LaterAbort(entries, isLeaf, distance, c.bi, c.bj, |entries|, 0, c.maxCR.value)
    {
      RowStartInvariant(entries, isLeaf, distance, |entries|);
    }

    /**
     * Against the promoted pair's larger radius m, every other pair is
     * pruned: its trial has a step whose radius sum reaches m.
     */
    lemma {:induction false} OtherPairsReachPromotedRadius(entries: seq<MTreeEntry>, isLeaf: bool, distance: DistanceFunction, bi: nat, bj: nat, p: nat, q: nat)
      requires PromotedPair(entries, isLeaf, distance, bi, bj)
      requires p < q < |entries| && (p != bi || q != bj)
      ensures Aborts(entries, isLeaf, distance, entries[p].objectId, entries[q].objectId, Finite(PairMaxRadius(entries, isLeaf, distance, bi, bj)))
    {
      var m := PairMaxRadius(entries, isLeaf, distance, bi, bj);
      var id1, id2 := entries[p].objectId, entries[q].objectId;
      if LexBefore(p, q, bi, bj) {
        assert WorseOrPrunable(entries, isLeaf, distance, p, q, m);
        if m < PairMaxRadius(entries, isLeaf, distance, p, q) {
          assert !Below(RadiusSum(Run(entries, isLeaf, distance, id1, id2, |entries|)), Finite(m));
        } else {
          var k :| 1 <= k <= |entries| && m < RadiusSum(Run(entries, isLeaf, distance, id1, id2, k));
          assert !Below(RadiusSum(Run(entries, isLeaf, distance, id1, id2, k)), Finite(m));
        }
      } else {
        assert LexBefore(bi, bj, p, q) && LexBefore(p, q, |entries|, 0);
      }
    }

    /**
     * The trial of the example candidates a and b: each of its own steps
     * adds the candidate's weight to its radius.
     */
    lemma ExampleTrial(a: nat, b: nat)
      requires assignNN == ExampleStep
      ensures var run := k => Run(ExampleEntries(), true, ExampleDistance, a, b, k);
              && run(1).cr1 == ExampleWeight(a) && run(1).cr2 == 0
              && run(2).cr1 == ExampleWeight(a) && run(2).cr2 == ExampleWeight(b)
              && run(3).cr1 == 2 * ExampleWeight(a) && run(3).cr2 == ExampleWeight(b)
    {
      var entries := ExampleEntries();
      ExampleListSorted(a);
      ExampleListSorted(b);
      var start := InitialState(entries, a, b, ExampleDistance);
      var s1 := AssignStep(assignNN, true, start, 0);
      assert s1.cr1 == ExampleWeight(a) && s1.list2 == start.list2;
      var s2 := AssignStep(assignNN, true, s1, 1);
      assert s2.cr2 == ExampleWeight(b) && s2.list1 == start.list1;
      var s3 := AssignStep(assignNN, true, s2, 2);
      assert s3.cr1 == 2 * ExampleWeight(a);
      assert Partition(assignNN, true, start, 1) == s1;
      assert Partition(assignNN, true, start, 2) == s2;
      assert Partition(assignNN, true, start, 3) == s3;
    }

    /**
     * The promoted pair need not have the smallest larger radius. With the
     * example's three entries, the first pair (0, 1) finishes with radii 2
     * and 10 and is promoted. The pair (0, 2) would finish with radii 2 and
     * 8, but its radius sum reaches 10 at its last step, so it is pruned;
     * the pair (1, 2) is pruned at its first step. The promoted pair's
     * final radius sum, 12, is not the smallest either: that of (0, 2) is 10.
     * The example's distance is not a metric and its step only adds up
     * distances, so this shows what the search does for some distance and
     * some step, not for a nearest-neighbour step over a metric space.
     */
    lemma PrunedPairCanHaveSmallerRadius()
      requires assignNN == ExampleStep
      ensures MRadChoice(ExampleEntries(), true, ExampleDistance) == Choice(Finite(10), 0, 1)
      ensures PairMaxRadius(ExampleEntries(), true, ExampleDistance, 0, 2) == 8
      ensures Aborts(ExampleEntries(), true, ExampleDistance, 0, 2, Finite(10))
      ensures RadiusSum(Run(ExampleEntries(), true, ExampleDistance, 0, 1, 3)) == 12
      ensures RadiusSum(Run(ExampleEntries(), true, ExampleDistance, 0, 2, 3)) == 10
    {
      var entries := ExampleEntries();
      ExampleTrial(0, 1);
      ExampleTrial(0, 2);
      ExampleTrial(1, 2);
      var c01 := ChoiceBefore(entries, true, ExampleDistance, 0, 1);
      assert c01 == Choice(Infinite, 0, 0);
      assert !Aborts(entries, true, ExampleDistance, 0, 1, Infinite);
      assert PairMaxRadius(entries, true, ExampleDistance, 0, 1) == 10;
      ChoiceBeforeNext(entries, true, ExampleDistance, 0, 1);
      var c02 := ChoiceBefore(entries, true, ExampleDistance, 0, 2);
      assert c02 == Choice(Finite(10), 0, 1);
      assert !Below(RadiusSum(Run(entries, true, ExampleDistance, 0, 2, 3)), Finite(10));
      assert Aborts(entries, true, ExampleDistance, 0, 2, Finite(10));
      ChoiceBeforeNext(entries, true, ExampleDistance, 0, 2);
      assert ChoiceBefore(entries, true, ExampleDistance, 0, 3) == c02;
      assert ChoiceBefore(entries, true, ExampleDistance, 1, 2) == c02;
      assert !Below(RadiusSum(Run(entries, true, ExampleDistance, 1, 2, 1)), Finite(10));
      assert Aborts(entries, true, ExampleDistance, 1, 2, Finite(10));
      ChoiceBeforeNext(entries, true, ExampleDistance, 1, 2);
      assert ChoiceBefore(entries, true, ExampleDistance, 1, 3) == c02;
      assert ChoiceBefore(entries, true, ExampleDistance, 2, 3) == c02;
    }

    /** Creates the split of node: the promoted pair is chosen at once. */
    constructor (node: MTreeNode, distance: DistanceFunction, assignNN: AssignNN)
      requires node.Valid()
      ensures this.assignNN == assignNN
      ensures node.numEntries < 2 ==>
                && firstPromoted == None && secondPromoted == None
                && firstCoveringRadius == None && secondCoveringRadius == None
                && assignmentsToFirst == None && assignmentsToSecond == None
      ensures node.numEntries >= 2 ==>
                var c := MRadChoice(node.entries[..node.numEntries], node.isLeaf, distance);
                c.maxCR.Finite? && PromotedPair(node.entries[..node.numEntries], node.isLeaf, distance, c.bi, c.bj)
    {
      this.assignNN := assignNN;
      firstPromoted, secondPromoted := None, None;
      firstCoveringRadius, secondCoveringRadius := None, None;
      assignmentsToFirst, assignmentsToSecond := None, None;
      new;
      ghost var bi, bj := Promote(node, distance);
    }

    /** The fields record the pair of choice c, and c holds that pair's larger radius. */
    ghost predicate RecordsChoice(entries: seq<MTreeEntry>, isLeaf: bool, distance: DistanceFunction, c: Choice)
      reads this
    {
      c.maxCR.Finite? ==>
        && c.bi < c.bj < |entries|
        && Records(entries, isLeaf, distance, c.bi, c.bj)
        && c.maxCR.value == PairMaxRadius(entries, isLeaf, distance, c.bi, c.bj)
    }

    /**
     * Once the search has seen every pair, its choice c is the pair the
     * promotion chooses; when the fields record c, they record the
     * promoted pair.
     */
    lemma {:induction false} RecordedChoicePromoted(entries: seq<MTreeEntry>, isLeaf: bool, distance: DistanceFunction, c: Choice)
      requires |entries| >= 2
      requires c == MRadChoice(entries, isLeaf, distance)
      requires RecordsChoice(entries, isLeaf, distance, c)
      ensures PromotedPair(entries, isLeaf, distance, c.bi, c.bj)
      ensures MRadChoice(entries, isLeaf, distance) == Choice(Finite(PairMaxRadius(entries, isLeaf, distance, c.bi, c.bj)), c.bi, c.bj)
    {
      MRadChoiceDescribed(entries, isLeaf, distance);
    }

    /**
     * Tries every pair of entries in order and records the best one. The
     * best maximum radius maxCR starts infinite and only ever decreases.
     */
    method Promote(node: MTreeNode, distance: DistanceFunction) returns (ghost bi: nat, ghost bj: nat)
      requires node.Valid()
      modifies this
      ensures node.numEntries < 2 ==> unchanged(this)
      ensures node.numEntries >= 2 ==>
                && PromotedPair(node.entries[..node.numEntries], node.isLeaf, distance, bi, bj)
                && MRadChoice(node.entries[..node.numEntries], node.isLeaf, distance) == Choice(Finite(PairMaxRadius(node.entries[..node.numEntries], node.isLeaf, distance, bi, bj)), bi, bj)
    {
      var n := node.numEntries;
      ghost var entries := node.entries[..n];
      var maxCR := Infinite;
      bi, bj := 0, 0;

      for i := 0 to n
        invariant entries == node.entries[..n]
        invariant maxCR.Infinite? ==> unchanged(this) && (i == 0 || n < 2)
        invariant RecordsChoice(entries, node.isLeaf, distance, Choice(maxCR, bi, bj))
        invariant Choice(maxCR, bi, bj) == RowStart(entries, node.isLeaf, distance, i)
      {
        maxCR, bi, bj := PromoteRow(node, distance, entries, i, maxCR, bi, bj);
      }
      if n >= 2 {
        RecordedChoicePromoted(entries, node.isLeaf, distance, Choice(maxCR, bi, bj));
      }
    }

    /**
     * One pass of the outer loop of the promotion: tries the pairs (i, j)
     * for every j after i, carrying the best maximum radius maxCR and the
     * pair (bi, bj) that has it.
     */
    method PromoteRow(node: MTreeNode, distance: DistanceFunction, ghost entries: seq<MTreeEntry>, i: nat, maxCR: Distance, ghost bi: nat, ghost bj: nat)
      returns (maxCR': Distance, ghost bi': nat, ghost bj': nat)
      requires node.Valid() && i < node.numEntries && entries == node.entries[..node.numEntries]
      requires Choice(maxCR, bi, bj) == RowStart(entries, node.isLeaf, distance, i)
      requires RecordsChoice(entries, node.isLeaf, distance, Choice(maxCR, bi, bj))
      modifies this
      ensures maxCR'.Infinite? ==> maxCR.Infinite? && unchanged(this) && i + 1 == node.numEntries
      ensures RecordsChoice(entries, node.isLeaf, distance, Choice(maxCR', bi', bj'))
      ensures Choice(maxCR', bi', bj') == RowStart(entries, node.isLeaf, distance, i + 1)
    {
      var n := node.numEntries;
      maxCR', bi', bj' := maxCR, bi, bj;
      for j := i + 1 to n
        invariant entries == node.entries[..n]
        invariant maxCR'.Infinite? ==> maxCR.Infinite? && unchanged(this) && j == i + 1
        invariant RecordsChoice(entries, node.isLeaf, distance, Choice(maxCR', bi', bj'))
        invariant Choice(maxCR', bi', bj') == ChoiceBefore(entries, node.isLeaf, distance, i, j)
      {
        maxCR', bi', bj' := TryPair(node, distance, entries, i, j, maxCR', bi', bj');
        ChoiceBeforeNext(entries, node.isLeaf, distance, i, j);
      }
    }

    /**
     * One pass of the inner loop of the promotion: the trial of the entries
     * at i and j, bounded by the best maximum radius so far, and the update
     * of the fields when the pair is better.
     */
    method TryPair(node: MTreeNode, distance: DistanceFunction, ghost entries: seq<MTreeEntry>, i: nat, j: nat, maxCR: Distance, ghost bi: nat, ghost bj: nat)
      returns (maxCR': Distance, ghost bi': nat, ghost bj': nat)
      requires node.Valid() && i < j < node.numEntries && entries == node.entries[..node.numEntries]
      requires RecordsChoice(entries, node.isLeaf, distance, Choice(maxCR, bi, bj))
      modifies this
      ensures maxCR'.Finite?
      ensures maxCR.Finite? ==> maxCR'.value <= maxCR.value
      ensures maxCR' == maxCR ==> unchanged(this)
      ensures Choice(maxCR', bi', bj') == TryStep(entries, node.isLeaf, distance, Choice(maxCR, bi, bj), i, j)
      ensures Aborts(entries, node.isLeaf, distance, entries[i].objectId, entries[j].objectId, maxCR) ==>
                maxCR' == maxCR && bi' == bi && bj' == bj && unchanged(this)
      ensures !Aborts(entries, node.isLeaf, distance, entries[i].objectId, entries[j].objectId, maxCR) ==>
                && maxCR' == Finite(PairMaxRadius(entries, node.isLeaf, distance, i, j))
                && bi' == i && bj' == j
                && Records(entries, node.isLeaf, distance, i, j)
      ensures RecordsChoice(entries, node.isLeaf, distance, Choice(maxCR', bi', bj'))
    {
      var id1 := node.entries[i].objectId;
      var id2 := node.entries[j].objectId;
      maxCR', bi', bj' := maxCR, bi, bj;
      var assignment := TestPartition(node, id1, id2, maxCR, distance);
      if assignment.None? {
        return;
      }

      var a := assignment.value;
      ghost var full := Run(entries, node.isLeaf, distance, id1, id2, node.numEntries);
      assert a == Assignment(full.cr1, full.cr2, full.first, full.second);
      var ass_maxCR := Max(a.firstCoveringRadius, a.secondCoveringRadius);
      assert ass_maxCR == PairMaxRadius(entries, node.isLeaf, distance, i, j);
      UnprunedTrialImproves(entries, node.isLeaf, distance, i, j, maxCR);
      if Below(ass_maxCR, maxCR) {
        maxCR' := Finite(ass_maxCR);
        Adopt(node, distance, i, j, a);
        bi', bj' := i, j;
      }
    }

    /** Records the pair (i, j) and its finished trial a in the fields. */
    method Adopt(node: MTreeNode, distance: DistanceFunction, i: nat, j: nat, a: Assignment)
      requires node.Valid() && i < node.numEntries && j < node.numEntries
      requires var entries := node.entries[..node.numEntries];
               var full := Run(entries, node.isLeaf, distance, entries[i].objectId, entries[j].objectId, node.numEntries);
               a == Assignment(full.cr1, full.cr2, full.first, full.second)
      modifies this
      ensures Records(node.entries[..node.numEntries], node.isLeaf, distance, i, j)
    {
      firstPromoted := Some(node.entries[i].objectId);
      secondPromoted := Some(node.entries[j].objectId);
      firstCoveringRadius := Some(a.firstCoveringRadius);
      secondCoveringRadius := Some(a.secondCoveringRadius);
      assignmentsToFirst := Some(a.firstAssignment);
      assignmentsToSecond := Some(a.secondAssignment);
    }

    /**
     * The first part of a trial: one distance list per candidate, each
     * holding every entry of the node with its distance to that candidate
     * and its index.
     */
    method DistanceLists(node: MTreeNode, id1: nat, id2: nat, distance: DistanceFunction)
      returns (list1: seq<DistanceEntry>, list2: seq<DistanceEntry>)
      requires node.Valid()
      ensures list1 == DistanceList(node.entries[..node.numEntries], id1, distance)
      ensures list2 == DistanceList(node.entries[..node.numEntries], id2, distance)
    {
      list1, list2 := [], [];
      for i := 0 to node.numEntries
        invariant list1 == DistanceList(node.entries[..i], id1, distance)
        invariant list2 == DistanceList(node.entries[..i], id2, distance)
      {
        var id := node.entries[i].objectId;
        var d1 := distance(id1, id);
        var d2 := distance(id2, id);
        list1 := list1 + [DistanceEntry(node.entries[i], d1, i)];
        list2 := list2 + [DistanceEntry(node.entries[i], d2, i)];
        assert node.entries[..i + 1][..i] == node.entries[..i];
      }
    }

    /**
     * The trial for candidates id1 and id2: builds and sorts both distance
     * lists, then assigns entries in alternating steps, and gives up (None)
     * as soon as the sum of the two radii reaches currentMinCR.
     */
    method TestPartition(node: MTreeNode, id1: nat, id2: nat, currentMinCR: Distance, distance: DistanceFunction)
      returns (assignment: Option<Assignment>)
      requires node.Valid()
      ensures assignment.None? <==>
                Aborts(node.entries[..node.numEntries], node.isLeaf, distance, id1, id2, currentMinCR)
      ensures assignment.Some? ==>
                var full := Run(node.entries[..node.numEntries], node.isLeaf, distance, id1, id2, node.numEntries);
                assignment.value == Assignment(full.cr1, full.cr2, full.first, full.second)
      ensures assignment.Some? && node.numEntries > 0 ==>
                Below(assignment.value.firstCoveringRadius + assignment.value.secondCoveringRadius, currentMinCR)
    {
      ghost var entries := node.entries[..node.numEntries];
      var currentCR1 := 0;
      var currentCR2 := 0;
      var firstAssignment := [];
      var secondAssignment := [];
      var list1, list2 := DistanceLists(node, id1, id2, distance);
      list1 := SortByDistance(list1);
      list2 := SortByDistance(list2);
      ghost var start := InitialState(entries, id1, id2, distance);
      assert start == PartitionState(0, 0, [], [], list1, list2);

      for i := 0 to node.numEntries
        invariant PartitionState(currentCR1, currentCR2, firstAssignment, secondAssignment, list1, list2)
                  == Partition(assignNN, node.isLeaf, start, i)
        invariant forall k :: 1 <= k <= i ==> Below(RadiusSum(Partition(assignNN, node.isLeaf, start, k)), currentMinCR)
      {
        if i % 2 == 0 {
          var r := assignNN(firstAssignment, list1, list2, currentCR1, node.isLeaf);
          firstAssignment, list1, list2, currentCR1 := r.assignment, r.list, r.other, r.coveringRadius;
        } else {
          var r := assignNN(secondAssignment, list2, list1, currentCR2, node.isLeaf);
          secondAssignment, list2, list1, currentCR2 := r.assignment, r.list, r.other, r.coveringRadius;
        }
        assert PartitionState(currentCR1, currentCR2, firstAssignment, secondAssignment, list1, list2)
               == Partition(assignNN, node.isLeaf, start, i + 1);

        var sumCurrentCR := currentCR1 + currentCR2;
        if !Below(sumCurrentCR, currentMinCR) {
          assert !Below(RadiusSum(Run(entries, node.isLeaf, distance, id1, id2, i + 1)), currentMinCR);
          return None;
        }
        BelowThroughNextStep(assignNN, node.isLeaf, start, i, currentMinCR);
      }
      return Some(Assignment(currentCR1, currentCR2, firstAssignment, secondAssignment));
    }
  }
}
