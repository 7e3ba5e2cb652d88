/** The weight of a directed pairing (get_edge_weight in secret_santa_pp/solution.py). */
module EdgeWeights {
  import opened Wrappers
  import opened Configuration

  /** Some constraint with limit "exclude" fires for (src, dst). */
  predicate Excluded(cs: seq<Constraint>, src: Person, dst: Person) {
    exists i :: 0 <= i < |cs| && cs[i].limit == Exclude && MeetCriterion(cs[i], src, dst)
  }

  /** How many constraints with the given limit fire for (src, dst). */
  function Firing(cs: seq<Constraint>, src: Person, dst: Person, limit: Limit): nat {
    if cs == [] then 0
    else (if cs[0].limit == limit && MeetCriterion(cs[0], src, dst) then 1 else 0) + Firing(cs[1..], src, dst, limit)
  }

  /**
   * The constraint loop, from accumulated weight `weight`: an "exclude" that
   * fires ends it with no edge, a firing "low-probability" adds 4 and a firing
   * "medium-probability" adds 2.
   */
  function Accumulate(cs: seq<Constraint>, src: Person, dst: Person, weight: int): (r: Option<int>)
    ensures r.None? <==> Excluded(cs, src, dst)
    ensures r.Some? ==> r.value == weight + 4 * Firing(cs, src, dst, LowProbability) + 2 * Firing(cs, src, dst, MediumProbability)
    decreases |cs|
  {
    if cs == [] then Some(weight)
    else
      ExcludedUnfold(cs, src, dst);
      if MeetCriterion(cs[0], src, dst) then
        match cs[0].limit
        case Exclude => None
        case LowProbability => Accumulate(cs[1..], src, dst, weight + 4)
        case MediumProbability => Accumulate(cs[1..], src, dst, weight + 2)
      else Accumulate(cs[1..], src, dst, weight)
  }

  lemma ExcludedUnfold(cs: seq<Constraint>, src: Person, dst: Person)
    requires cs != []
    ensures Excluded(cs, src, dst) <==>
            (cs[0].limit == Exclude && MeetCriterion(cs[0], src, dst)) || Excluded(cs[1..], src, dst)
  {
    if Excluded(cs[1..], src, dst) {
      var i :| 0 <= i < |cs[1..]| && cs[1..][i].limit == Exclude && MeetCriterion(cs[1..][i], src, dst);
      assert cs[i + 1] == cs[1..][i];
    }
    if Excluded(cs, src, dst) {
      var i :| 0 <= i < |cs| && cs[i].limit == Exclude && MeetCriterion(cs[i], src, dst);
      if i > 0 { assert cs[1..][i - 1] == cs[i]; }
    }
  }

  /** Without any relationship tag nothing can fire. */
  lemma {:induction false} NothingFiresWithoutRelationships(cs: seq<Constraint>, src: Person, dst: Person)
    requires |src.relationships| == 0
    ensures !Excluded(cs, src, dst)
    ensures Firing(cs, src, dst, LowProbability) == 0 && Firing(cs, src, dst, MediumProbability) == 0
  {
    assert forall c :: !MeetCriterion(c, src, dst) by {
      forall c ensures !MeetCriterion(c, src, dst) { assert c.relationshipKey !in src.relationships; }
    }
    if cs != [] { NothingFiresWithoutRelationships(cs[1..], src, dst); }
  }

  /**
   * `get_edge_weight`: None (no edge) exactly when a firing constraint
   * excludes the pair, otherwise 1 + 4 per firing low-probability constraint
   * + 2 per firing medium-probability constraint. A source with no tags gets
   * weight 1 at once.
   */
  function EdgeWeight(cs: seq<Constraint>, src: Person, dst: Person): (r: Option<int>)
    ensures |src.relationships| == 0 ==> r == Some(1)
    ensures r.None? <==> Excluded(cs, src, dst)
    ensures r.Some? ==> r.value == 1 + 4 * Firing(cs, src, dst, LowProbability) + 2 * Firing(cs, src, dst, MediumProbability)
    ensures r.Some? ==> r.value >= 1
  {
    if |src.relationships| == 0 then
      NothingFiresWithoutRelationships(cs, src, dst);
      Some(1)
    else Accumulate(cs, src, dst, 1)
  }

  /** The loop of `get_edge_weight`, with its early return on "exclude". */
  method GetEdgeWeight(cs: seq<Constraint>, src: Person, dst: Person) returns (w: Option<int>)
    ensures w == EdgeWeight(cs, src, dst)
  {
    var weight := 1;
    if |src.relationships| == 0 {
      return Some(weight);
    }
    var i := 0;
    while i < |cs|
      invariant 0 <= i <= |cs|
      invariant Accumulate(cs[i..], src, dst, weight) == EdgeWeight(cs, src, dst)
    {
      var constraint := cs[i];
      assert cs[i..][1..] == cs[i + 1..];
      if MeetCriterion(constraint, src, dst) {
        if constraint.limit == Exclude {
          return None;
        }
        if constraint.limit == LowProbability {
          weight := weight + 4;
        } else if constraint.limit == MediumProbability {
          weight := weight + 2;
        }
      }
      i := i + 1;
    }
    return Some(weight);
  }
}
