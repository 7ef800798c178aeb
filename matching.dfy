/**
 The match rule: a target subsegment matches an isolated translation when
 the list of reading strings of its units equals the list of reading
 strings of the isolated translation's units. The candidates are filtered
 in enumeration order and the first survivor is taken.
 */
module Matching {
  import opened Units

  /** The candidates whose reading strings equal `target`, in their order. */
  function Filter(candidates: seq<Subsegment>, target: seq<string>): (r: seq<Subsegment>)
    ensures |r| <= |candidates|
    ensures forall c :: c in r ==> c in candidates && Readings(c.units) == target
    ensures forall c :: c in candidates && Readings(c.units) == target ==> c in r
  {
    if candidates == [] then []
    else (if Readings(candidates[0].units) == target then [candidates[0]] else [])
         + Filter(candidates[1..], target)
  }

  /** The candidate at index p matches and none before it does. */
  predicate FirstMatchAt(candidates: seq<Subsegment>, target: seq<string>, p: nat)
  {
    && p < |candidates|
    && Readings(candidates[p].units) == target
    && forall q :: 0 <= q < p ==> Readings(candidates[q].units) != target
  }

  /** Nothing survives the filter exactly when no candidate matches. */
  lemma FilterEmptyIff(candidates: seq<Subsegment>, target: seq<string>)
    ensures Filter(candidates, target) == []
        <==> forall q :: 0 <= q < |candidates| ==> Readings(candidates[q].units) != target
  {
    if Filter(candidates, target) == [] {
      forall q | 0 <= q < |candidates|
        ensures Readings(candidates[q].units) != target
      {
        assert candidates[q] in candidates;
      }
    }
  }

  /** The correspondence takes the first survivor, and that is the earliest
      matching candidate: the match at index p with no match before it. */
  lemma {:induction false} FirstMatchIsEarliest(candidates: seq<Subsegment>, target: seq<string>, p: nat)
    requires FirstMatchAt(candidates, target, p)
    ensures Filter(candidates, target) != []
    ensures Filter(candidates, target)[0] == candidates[p]
  {
    if p > 0 {
      var rest := candidates[1..];
      forall q | 0 <= q < p - 1
        ensures Readings(rest[q].units) != target
      {
        assert rest[q] == candidates[q + 1];
      }
      FirstMatchIsEarliest(rest, target, p - 1);
    }
  }

  /** Whenever something survives, the first survivor sits at some index p,
      matches, and no candidate before p matches. */
  lemma {:induction false} FirstMatchExists(candidates: seq<Subsegment>, target: seq<string>)
    requires Filter(candidates, target) != []
    ensures exists p: nat :: FirstMatchAt(candidates, target, p) && candidates[p] == Filter(candidates, target)[0]
  {
    if Readings(candidates[0].units) != target {
      var rest := candidates[1..];
      FirstMatchExists(rest, target);
      var p: nat :| FirstMatchAt(rest, target, p) && rest[p] == Filter(rest, target)[0];
      forall q | 0 <= q < p + 1
        ensures Readings(candidates[q].units) != target
      {
        if q > 0 {
          assert candidates[q] == rest[q - 1];
        }
      }
      assert candidates[p + 1] == rest[p];
      assert FirstMatchAt(candidates, target, p + 1);
    } else {
      assert FirstMatchAt(candidates, target, 0);
    }
  }

  /** Every candidate has at least one unit, so an isolated translation that
      analyses to no units matches none of them. */
  lemma EmptyAnalysisNeverMatches(candidates: seq<Subsegment>)
    requires forall c :: c in candidates ==> 1 <= |c.units|
    ensures Filter(candidates, Readings([])) == []
  {
    forall q | 0 <= q < |candidates|
      ensures Readings(candidates[q].units) != Readings([])
    {
      assert candidates[q] in candidates;
      assert |Readings(candidates[q].units)| != |Readings([])|;
    }
    FilterEmptyIff(candidates, Readings([]));
  }
}
