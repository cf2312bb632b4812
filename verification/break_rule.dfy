/** The break rule: a volunteer signed up for four or more shift codes gives
    up the chronologically latest one before booths are assigned. */
module BreakRule {
  import opened Roster

  /** How many shift codes trigger the rule (all five codes count). */
  const BreakThreshold: nat := 4

  lemma HasElement(s: set<Shift>)
    requires |s| > 0
    ensures exists x :: x in s
  {
    if forall x :: x !in s {
      assert false;
    }
  }

  /** Finds an element of a non-empty set that is at least every element. */
  lemma {:induction false} MaxWitness(s: set<Shift>) returns (m: Shift)
    requires |s| > 0
    ensures m in s && forall x :: x in s ==> x <= m
    decreases |s|
  {
    HasElement(s);
    var y :| y in s;
    var rest := s - {y};
    if |rest| == 0 {
      m := y;
      forall x | x in s
        ensures x <= m
      {
        if x != y {
          assert false;
        }
      }
    } else {
      var r := MaxWitness(rest);
      m := if y <= r then r else y;
      forall x | x in s
        ensures x <= m
      {
        if x != y {
          assert x in rest;
        }
      }
    }
  }

  lemma MaxExists(s: set<Shift>)
    requires |s| > 0
    ensures exists m :: m in s && forall x :: x in s ==> x <= m
  {
    var m := MaxWitness(s);
  }

  /** Python's `max` over a non-empty shift set. */
  function MaxShift(s: set<Shift>): (m: Shift)
    requires |s| > 0
    ensures m in s && forall x :: x in s ==> x <= m
  {
    MaxExists(s);
    var m :| m in s && forall x :: x in s ==> x <= m;
    m
  }

  /** The rule applied to one volunteer. */
  function BreakOne(v: Volunteer): (r: Volunteer)
    ensures SameProfile(r, v) && r.shifts <= v.shifts
    ensures |v.shifts| < BreakThreshold ==> r == v
    ensures |v.shifts| >= BreakThreshold ==>
      && |r.shifts| == |v.shifts| - 1
      && (forall x :: x in v.shifts && x !in r.shifts ==>
            x !in r.boothsPerShift && forall y :: y in v.shifts ==> y <= x)
      && (forall t :: t in r.shifts || t !in v.shifts ==>
            (t in r.boothsPerShift <==> t in v.boothsPerShift)
            && (t in v.boothsPerShift ==> r.boothsPerShift[t] == v.boothsPerShift[t]))
  {
    if |v.shifts| >= BreakThreshold then
      var last := MaxShift(v.shifts);
      assert v.shifts == (v.shifts - {last}) + {last};
      RemoveShift(v, last)
    else
      v
  }

  /** `apply_break_rule`: every volunteer of the registry, in place. */
  function ApplyBreakRule(vols: seq<Volunteer>): (r: seq<Volunteer>)
    ensures |r| == |vols|
    ensures forall i :: 0 <= i < |vols| ==> r[i] == BreakOne(vols[i])
  {
    if vols == [] then [] else [BreakOne(vols[0])] + ApplyBreakRule(vols[1..])
  }

  /** The shift codes the loader can produce. */
  predicate KnownCodes(v: Volunteer)
  {
    forall s :: s in v.shifts ==> SetupShift <= s <= CleanupShift
  }

  /** With the five known codes, the rule leaves at most four shifts: exactly
      one code is removed, never all surplus ones. */
  lemma {:induction false} AtMostFourAfterBreak(v: Volunteer)
    requires KnownCodes(v)
    ensures |BreakOne(v).shifts| <= 4
    ensures |v.shifts| == 5 ==> BreakOne(v).shifts == {4, 5, 6, 7}
  {
    var codes: set<Shift> := {4, 5, 6, 7, 8};
    forall x | x in v.shifts
      ensures x in codes
    {
      assert x == 4 || x == 5 || x == 6 || x == 7 || x == 8;
    }
    SubsetSize(v.shifts, codes);
    if |v.shifts| == 5 {
      SubsetSameSize(v.shifts, codes);
      assert MaxShift(v.shifts) == 8;
      assert BreakOne(v).shifts == codes - {8};
    }
  }

  /** A volunteer with at most four shifts ends below the threshold, so
      running the rule a second time changes nothing. */
  lemma BreakIdempotentBelowThreshold(v: Volunteer)
    requires |v.shifts| <= BreakThreshold
    ensures BreakOne(BreakOne(v)) == BreakOne(v)
  {
  }

  lemma {:induction false} SubsetSize(a: set<Shift>, b: set<Shift>)
    requires a <= b
    ensures |a| <= |b|
    decreases |b|
  {
    if |b| > 0 {
      HasElement(b);
      var x :| x in b;
      SubsetSize(a - {x}, b - {x});
    }
  }

  lemma {:induction false} SubsetSameSize(a: set<Shift>, b: set<Shift>)
    requires a <= b && |a| == |b|
    ensures a == b
  {
    if a != b {
      HasElement(b - a);
      assert false;
    }
  }

}
