/**
 The hierarchy measurement script as a whole: the overlap fold over the
 ROA rows followed by the covering worklist seeded with the flagged rows.
 */
module HierarchyMeasure {
  import opened Cidr
  import opened OverlapPass
  import opened CoveringPass

  /**
   Runs both passes over already-parsed rows. Returns the overlap count, the
   final `roas_to_check` and `overlapping_roas`.
   */
  method MeasureHierarchy(rows: seq<Block>)
    returns (count: nat, worklist: seq<Block>, overlapping: seq<seq<Block>>)
    requires AllValid(rows)
    ensures count == |Flagged(rows, |rows|)|
    ensures count <= |worklist| && worklist[..count] == Flagged(rows, |rows|)
    ensures AllValid(worklist)
    ensures worklist == Flagged(rows, |rows|) + PushedUpTo(rows, worklist, |worklist|)
    ensures overlapping == GroupsOf(rows, worklist)
    ensures forall g | g in overlapping :: |g| > 1 && g[0] in worklist
    ensures forall k | count <= k < |worklist| ::
              worklist[k] in rows &&
              exists j :: 0 <= j < k && StrictlyInside(worklist[k], worklist[j]) && worklist[k].len > worklist[j].len
  {
    var first := FirstPass(rows);
    assert forall b | b in first.toCheck :: b in rows by {
      FlaggedAreRows(rows, |rows|);
    }
    count := first.count;
    worklist, overlapping := CollectCovering(first.allRoas, first.toCheck);
    GroupsWellFormed(rows, worklist);
  }
}
