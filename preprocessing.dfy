/**
 * The DiSH preference-vector preprocessor: validation of its two parameters
 * and the rule that decides, from the neighbourhood of an object in every
 * single dimension, in which dimensions the object is "preferred".
 *
 * A neighbourhood is the set of ids of the objects within epsilon of the
 * object in that one dimension (the range queries that compute it are not
 * part of this model). Its members are query results, and sets of them are
 * compared here as sets of object ids: two results for the same object
 * count as the same member. The preference vector is a bit set, modelled as
 * the set of the indices of its set bits.
 */
module Preprocessing {
  import opened Wrappers

  /** Name of the parameter minpts. */
  const MINPTS_P: string := "minpts"

  /** Name of the parameter epsilon. */
  const EPSILON_P: string := "epsilon"

  /** Value epsilon takes when the parameter is not given. */
  const DEFAULT_EPSILON: real := 0.001

  /** What the option handler holds for epsilon: nothing, or a string that parsed (Some) or did not (None). */
  datatype EpsilonOption = NotSet | Given(parsed: Option<real>)

  /** The outcome of setting the parameters: accepted, or the wrong value of the named parameter. */
  datatype ParameterOutcome = Accepted | WrongParameterValue(parameter: string)

  /**
   * The preference rule, stated over all dimensions at once: dimension i is
   * preferred when its neighbourhood has more than minpts members and it
   * shares at least minpts members with every other dimension whose
   * neighbourhood also has more than minpts members. Dimensions with at most
   * minpts neighbours impose no condition.
   */
  ghost predicate Preferred(neighborIDs: seq<set<int>>, minpts: int, i: int)
  {
    && 0 <= i < |neighborIDs|
    && |neighborIDs[i]| > minpts
    && forall j :: 0 <= j < |neighborIDs| && j != i && |neighborIDs[j]| > minpts ==>
         |neighborIDs[i] * neighborIDs[j]| >= minpts
  }

  /** Dimension i's neighbourhood meets the intersection condition for every j before bound. */
  ghost predicate CompatibleBelow(neighborIDs: seq<set<int>>, minpts: int, i: int, bound: int)
    requires 0 <= i < |neighborIDs|
  {
    forall j :: 0 <= j < bound && j < |neighborIDs| && j != i && |neighborIDs[j]| > minpts ==>
      |neighborIDs[i] * neighborIDs[j]| >= minpts
  }

  /**
   * One entry of the intersection cache. The cache stores the same entry
   * object at [i, j] and at [j, i], so that both orders share it.
   */
  class Intersection {
    const ids: set<int>

    constructor (s_i: set<int>, s_j: set<int>)
      ensures ids == s_i * s_j
    {
      ids := s_i * s_j;
    }
  }

  /**
   * The cache is sound and symmetric: every filled entry holds the
   * intersection of the two neighbourhoods, and the transposed position
   * holds the very same object.
   */
  ghost predicate CacheSound(intersections: array2<Intersection?>, neighborIDs: seq<set<int>>)
    reads intersections
  {
    && intersections.Length0 == |neighborIDs|
    && intersections.Length1 == |neighborIDs|
    && forall i, j :: 0 <= i < |neighborIDs| && 0 <= j < |neighborIDs| && intersections[i, j] != null ==>
         intersections[i, j].ids == neighborIDs[i] * neighborIDs[j] && intersections[j, i] == intersections[i, j]
  }

  class DiSHPreprocessor {
    /** Threshold for the number of points in a neighbourhood. */
    var minpts: int
    /** Radius of the neighbourhood in each dimension; None until the parameters are set. */
    var epsilon: Option<real>

    constructor ()
      ensures minpts == 0 && epsilon == None
    {
      minpts := 0;
      epsilon := None;
    }

    /**
     * Sets minpts and epsilon from the option handler's values. As in the
     * source, a value that parses is stored in its field before its range is
     * checked, so a rejected value may still have been stored; a failure in
     * minpts stops before epsilon is looked at.
     */
    method SetParameters(minptsValue: Option<int>, epsilonValue: EpsilonOption) returns (outcome: ParameterOutcome)
      modifies this
      ensures outcome.Accepted? <==>
                && minptsValue.Some? && minptsValue.value > 0
                && (epsilonValue.Given? ==> epsilonValue.parsed.Some? && 0.0 <= epsilonValue.parsed.value <= 1.0)
      ensures outcome.WrongParameterValue? ==> outcome.parameter in {MINPTS_P, EPSILON_P}
      ensures outcome == WrongParameterValue(MINPTS_P) <==> !(minptsValue.Some? && minptsValue.value > 0)
      ensures outcome.Accepted? ==> minpts > 0 && epsilon.Some? && 0.0 <= epsilon.value <= 1.0
      ensures outcome.Accepted? && epsilonValue.NotSet? ==> epsilon == Some(DEFAULT_EPSILON)
      ensures minpts == (if minptsValue.Some? then minptsValue.value else old(minpts))
      ensures epsilon == (if outcome == WrongParameterValue(MINPTS_P) then old(epsilon)
                          else match epsilonValue
                               case NotSet => Some(DEFAULT_EPSILON)
                               case Given(parsed) => if parsed.Some? then parsed else old(epsilon))
    {
      if minptsValue.None? {
        return WrongParameterValue(MINPTS_P);
      }
      minpts := minptsValue.value;
      if minpts <= 0 {
        return WrongParameterValue(MINPTS_P);
      }

      if epsilonValue.Given? {
        var parsed := epsilonValue.parsed;
        if parsed.None? {
          return WrongParameterValue(EPSILON_P);
        }
        epsilon := parsed;
        if parsed.value < 0.0 || parsed.value > 1.0 {
          return WrongParameterValue(EPSILON_P);
        }
      } else {
        epsilon := Some(DEFAULT_EPSILON);
      }
      outcome := Accepted;
    }

    /**
     * Determines the preference vector from the neighbourhood of the object
     * in each dimension. Intersections are computed lazily into a cache
     * shared by (i, j) and (j, i); the scan over j stops at the first
     * dimension whose intersection is too small.
     */
    method DeterminePreferenceVector(neighborIDs: seq<set<int>>) returns (preferenceVector: set<nat>)
      ensures forall i :: i in preferenceVector ==> i < |neighborIDs|
      ensures forall i :: 0 <= i < |neighborIDs| ==> (i in preferenceVector <==> Preferred(neighborIDs, minpts, i))
    {
      var dimensionality := |neighborIDs|;
      preferenceVector := {};
      var intersections := new Intersection?[dimensionality, dimensionality]((_, _) => null);

      for i := 0 to dimensionality
        invariant forall k :: k in preferenceVector ==> k < i
        invariant forall k :: 0 <= k < i ==> (k in preferenceVector <==> Preferred(neighborIDs, minpts, k))
        invariant CacheSound(intersections, neighborIDs)
      {
        if |neighborIDs[i]| > minpts {
          var preferred := CompatibleWithAll(neighborIDs, i, intersections);
          if preferred {
            preferenceVector := preferenceVector + {i};
          }
        }
      }
    }

    /**
     * The inner loop of DeterminePreferenceVector for a dimension i with
     * more than minpts neighbours: compares it with every other qualifying
     * dimension through the cache, filling the cache as it goes, and stops
     * at the first intersection smaller than minpts.
     */
    method CompatibleWithAll(neighborIDs: seq<set<int>>, i: nat, intersections: array2<Intersection?>) returns (preferred: bool)
      requires i < |neighborIDs| && |neighborIDs[i]| > minpts
      requires CacheSound(intersections, neighborIDs)
      modifies intersections
      ensures CacheSound(intersections, neighborIDs)
      ensures preferred <==> Preferred(neighborIDs, minpts, i)
    {
      preferred := true;
      var s_i := neighborIDs[i];
      for j := 0 to |neighborIDs|
        invariant preferred
        invariant CompatibleBelow(neighborIDs, minpts, i, j)
        invariant CacheSound(intersections, neighborIDs)
      {
        if i == j {
          continue;
        }
        var s_j := neighborIDs[j];
        if |s_j| > minpts {
          var intersection := intersections[i, j];
          if intersection == null {
            intersection := new Intersection(s_i, s_j);
            intersections[i, j] := intersection;
            intersections[j, i] := intersection;
          }
          if |intersection.ids| < minpts {
            preferred := false;
            break;
          }
        }
      }
    }
  }

  /** A dimension with at most minpts neighbours is never preferred, whatever the other dimensions hold. */
  lemma UndersizedNeverPreferred(neighborIDs: seq<set<int>>, minpts: int, i: int)
    requires 0 <= i < |neighborIDs| && |neighborIDs[i]| <= minpts
    ensures !Preferred(neighborIDs, minpts, i)
  {
  }

  /**
   * A dimension j with at most minpts neighbours constrains no other
   * dimension: replacing its neighbourhood by any other one of at most
   * minpts members leaves every other dimension's bit as it was.
   */
  lemma UndersizedDimensionImposesNothing(neighborIDs: seq<set<int>>, minpts: int, j: int, t: set<int>, i: int)
    requires 0 <= j < |neighborIDs| && |neighborIDs[j]| <= minpts && |t| <= minpts
    requires 0 <= i < |neighborIDs| && i != j
    ensures Preferred(neighborIDs, minpts, i) <==> Preferred(neighborIDs[j := t], minpts, i)
  {
    var other := neighborIDs[j := t];
    assert forall k :: 0 <= k < |neighborIDs| && k != j ==> other[k] == neighborIDs[k];
  }

  /**
   * Two qualifying dimensions whose neighbourhoods share fewer than minpts
   * members rule each other out: neither bit is set.
   */
  lemma ConflictExcludesBoth(neighborIDs: seq<set<int>>, minpts: int, i: int, j: int)
    requires 0 <= i < |neighborIDs| && 0 <= j < |neighborIDs| && i != j
    requires |neighborIDs[i]| > minpts && |neighborIDs[j]| > minpts
    requires |neighborIDs[i] * neighborIDs[j]| < minpts
    ensures !Preferred(neighborIDs, minpts, i) && !Preferred(neighborIDs, minpts, j)
  {
    assert neighborIDs[j] * neighborIDs[i] == neighborIDs[i] * neighborIDs[j];
  }

  /** With a single dimension there is nothing to intersect with: the bit is set iff it has more than minpts neighbours. */
  lemma SingleDimension(s_0: set<int>, minpts: int)
    ensures Preferred([s_0], minpts, 0) <==> |s_0| > minpts
  {
  }

  /**
   * The rule as the minpts description words it: the intersection bound is
   * asked of every other dimension, qualifying or not.
   */
  ghost predicate PreferredForAllDimensions(neighborIDs: seq<set<int>>, minpts: int, i: int)
  {
    && 0 <= i < |neighborIDs|
    && |neighborIDs[i]| > minpts
    && forall j :: 0 <= j < |neighborIDs| && j != i ==> |neighborIDs[i] * neighborIDs[j]| >= minpts
  }

  /** The implemented rule sets every bit the described rule sets. */
  lemma DescribedRuleImpliesImplemented(neighborIDs: seq<set<int>>, minpts: int, i: int)
    requires PreferredForAllDimensions(neighborIDs, minpts, i)
    ensures Preferred(neighborIDs, minpts, i)
  {
  }

  /**
   * The converse fails: with minpts = 2, a dimension of three neighbours next
   * to an empty dimension is preferred by the implemented rule, though its
   * intersection with the empty dimension is below minpts.
   */
  lemma ImplementedRuleSetsMoreBits()
    ensures Preferred([{1, 2, 3}, {}], 2, 0)
    ensures !PreferredForAllDimensions([{1, 2, 3}, {}], 2, 0)
  {
    var s: seq<set<int>> := [{1, 2, 3}, {}];
    assert |s[0]| == 3;
    assert s[0] * s[1] == {};
  }
}
