/** The core of `main` with its I/O stripped: merge the signup files, apply
    the break rule, assign booths. */
module Pipeline {
  import opened Roster
  import opened Merge
  import opened BreakRule
  import opened Engine
  import opened Slots

  function Run(sources: seq<seq<Volunteer>>, booths: seq<Booth>, keyLe: (NameKey, NameKey) -> bool): State
  {
    AssignBooths(ApplyBreakRule(MergeAll(sources)), booths, keyLe)
  }

  /** Records as the signup loader creates them: no booth entries yet. */
  ghost predicate LoaderRecords(sources: seq<seq<Volunteer>>)
  {
    forall f, k :: 0 <= f < |sources| && 0 <= k < |sources[f]| ==>
      sources[f][k].boothsPerShift == map[]
  }

  /** Booths as the booth loader creates them. */
  ghost predicate LoaderBooths(booths: seq<Booth>)
  {
    forall j :: 0 <= j < |booths| ==> booths[j] == NewBooth(booths[j].name)
  }

  lemma {:induction false} FlattenFresh(sources: seq<seq<Volunteer>>)
    requires LoaderRecords(sources)
    ensures forall k :: 0 <= k < |Flatten(sources)| ==> Flatten(sources)[k].boothsPerShift == map[]
    decreases |sources|
  {
    if |sources| > 0 {
      assert LoaderRecords(sources[1..]) by {
        forall f, k | 0 <= f < |sources[1..]| && 0 <= k < |sources[1..][f]|
          ensures sources[1..][f][k].boothsPerShift == map[]
        {
          assert sources[1..][f] == sources[f + 1];
        }
      }
      FlattenFresh(sources[1..]);
      var flat := Flatten(sources);
      forall k | 0 <= k < |flat|
        ensures flat[k].boothsPerShift == map[]
      {
        if k < |sources[0]| {
          assert flat[k] == sources[0][k];
        } else {
          assert flat[k] == Flatten(sources[1..])[k - |sources[0]|];
        }
      }
    }
  }

  /** The registry handed to `assign_booths`: one entry per email of any
      file, no booth entries, and each entry's shift set is the merged set
      after the break rule. */
  lemma RegistryBeforeAssignment(sources: seq<seq<Volunteer>>)
    requires LoaderRecords(sources)
    ensures var merged := MergeAll(sources);
      var vols := ApplyBreakRule(merged);
      && |vols| == |merged| && DistinctEmails(vols)
      && (forall i :: 0 <= i < |vols| ==>
            vols[i].boothsPerShift == map[] && vols[i].email == merged[i].email
            && vols[i].shifts == BreakOne(merged[i]).shifts)
  {
    var merged := MergeAll(sources);
    var recs := Flatten(sources);
    MergeAllSpec(sources);
    FlattenFresh(sources);
    var vols := ApplyBreakRule(merged);
    forall i | 0 <= i < |vols|
      ensures vols[i].boothsPerShift == map[]
    {
      assert merged[i] == Merged(recs, merged[i].email);
      var f := FirstIndex(recs, merged[i].email);
      assert merged[i].boothsPerShift == recs[f].boothsPerShift;
    }
    assert DistinctEmails(vols) by {
      forall a, b | 0 <= a < b < |vols|
        ensures vols[a].email != vols[b].email
      {
        assert SameProfile(vols[a], merged[a]) && SameProfile(vols[b], merged[b]);
      }
    }
  }

  /** The whole run on the loaders' output: every booth stays within
      capacity; every volunteer holds exactly one slot for each shift it has
      a booth recorded for and no other slot; every recorded name is that
      of a booth listing the volunteer; booths are recorded only for
      shifts 5, 6 and 7 that survived the break rule; and a volunteer still
      signed up for one of those shifts goes without a booth for it only
      if every booth is full for it. */
  lemma RunSpec(sources: seq<seq<Volunteer>>, booths: seq<Booth>, keyLe: (NameKey, NameKey) -> bool)
    requires LoaderRecords(sources) && LoaderBooths(booths)
    ensures var r := Run(sources, booths, keyLe);
      var vols := ApplyBreakRule(MergeAll(sources));
      && |r.vols| == |vols| && |r.booths| == |booths|
      && AllWithinCapacity(r.booths)
      && SlotsMatchRecords(r) && RecordsNameHolders(r)
      && (forall i, t :: 0 <= i < |r.vols| && t in r.vols[i].boothsPerShift ==>
            t in AssignedShifts && t in vols[i].shifts)
      && NoOneLeftWithRoom(vols, r)
  {
    RegistryBeforeAssignment(sources);
    var vols := ApplyBreakRule(MergeAll(sources));
    LoaderBoothsFresh(booths);
    FreshAssignment(vols, booths, keyLe);
    AssignBoothsLeavesNoOneWithRoom(vols, booths, keyLe);
  }

  /** Loaded booths are empty and within capacity. */
  lemma LoaderBoothsFresh(booths: seq<Booth>)
    requires LoaderBooths(booths)
    ensures forall j, t :: 0 <= j < |booths| ==> Occupants(booths[j], t) == []
    ensures AllWithinCapacity(booths)
  {
    forall j | 0 <= j < |booths|
      ensures WithinCapacity(booths[j]) && forall t :: Occupants(booths[j], t) == []
    {
      assert booths[j] == NewBooth(booths[j].name);
    }
  }

}
