/** Merging the volunteers of several signup files (the loop in `main`):
    files are read in order; a volunteer whose email is already known gets
    the new shifts added to its set, otherwise the record is added as is. */
module Merge {
  import opened Options
  import opened Roster

  /** The position of the registry entry with email `e`, if any. */
  function IndexOfEmail(vols: seq<Volunteer>, e: Email): (r: Option<nat>)
    ensures r.Some? ==> r.value < |vols| && vols[r.value].email == e
    ensures r.None? ==> forall k :: 0 <= k < |vols| ==> vols[k].email != e
  {
    if |vols| == 0 then None
    else if vols[0].email == e then Some(0)
    else
      match IndexOfEmail(vols[1..], e)
      case None => None
      case Some(k) => Some(k + 1)
  }

  /** One record of one file. */
  function MergeRecord(acc: seq<Volunteer>, v: Volunteer): seq<Volunteer>
  {
    match IndexOfEmail(acc, v.email)
    case Some(k) => acc[k := acc[k].(shifts := acc[k].shifts + v.shifts)]
    case None => acc + [v]
  }

  /** All records of one file, in the file's dict order. */
  function MergeSource(acc: seq<Volunteer>, src: seq<Volunteer>): seq<Volunteer>
    decreases |src|
  {
    if |src| == 0 then acc else MergeSource(MergeRecord(acc, src[0]), src[1..])
  }

  /** All files in command-line order. */
  function MergeSources(acc: seq<Volunteer>, sources: seq<seq<Volunteer>>): seq<Volunteer>
    decreases |sources|
  {
    if |sources| == 0 then acc else MergeSources(MergeSource(acc, sources[0]), sources[1..])
  }

  /** The registry `main` builds, starting from an empty dict. */
  function MergeAll(sources: seq<seq<Volunteer>>): seq<Volunteer>
  {
    MergeSources([], sources)
  }

  // ---------------------------------------------------------------------
  // Reference definitions over the concatenated records
  // ---------------------------------------------------------------------

  function Flatten(sources: seq<seq<Volunteer>>): seq<Volunteer>
    decreases |sources|
  {
    if |sources| == 0 then [] else sources[0] + Flatten(sources[1..])
  }

  function EmailsOf(recs: seq<Volunteer>): (r: seq<Email>)
    ensures |r| == |recs| && forall k :: 0 <= k < |recs| ==> r[k] == recs[k].email
  {
    seq(|recs|, k requires 0 <= k < |recs| => recs[k].email)
  }

  /** The union of the shift sets of every record with email `e`. */
  function ShiftsFor(recs: seq<Volunteer>, e: Email): set<Shift>
    decreases |recs|
  {
    if |recs| == 0 then {}
    else (if recs[0].email == e then recs[0].shifts else {}) + ShiftsFor(recs[1..], e)
  }

  /** Where email `e` first appears. */
  function FirstIndex(recs: seq<Volunteer>, e: Email): (k: nat)
    requires e in EmailsOf(recs)
    ensures k < |recs| && recs[k].email == e
    ensures forall m :: 0 <= m < k ==> recs[m].email != e
    decreases |recs|
  {
    if recs[0].email == e then 0
    else
      EmailsCons(recs);
      1 + FirstIndex(recs[1..], e)
  }

  /** The first record with email `e`, carrying the union of all of that
      email's shifts: what the merged registry holds for `e`. */
  function Merged(recs: seq<Volunteer>, e: Email): Volunteer
    requires e in EmailsOf(recs)
  {
    recs[FirstIndex(recs, e)].(shifts := ShiftsFor(recs, e))
  }

  // ---------------------------------------------------------------------
  // Properties
  // ---------------------------------------------------------------------

  lemma ShiftsForCons(src: seq<Volunteer>, e: Email)
    requires |src| > 0
    ensures ShiftsFor(src, e) == (if src[0].email == e then src[0].shifts else {}) + ShiftsFor(src[1..], e)
  {
  }

  lemma EmailsCons(recs: seq<Volunteer>)
    requires |recs| > 0
    ensures forall e :: e in EmailsOf(recs) <==> e == recs[0].email || e in EmailsOf(recs[1..])
  {
    assert EmailsOf(recs) == [recs[0].email] + EmailsOf(recs[1..]);
  }

  /** Merging one file into a registry with distinct emails keeps them
      distinct, keeps the known entries in place, and ends up with exactly
      the emails of the registry and the file. */
  lemma {:induction false} MergeSourceEmails(acc: seq<Volunteer>, src: seq<Volunteer>)
    requires DistinctEmails(acc)
    ensures var r := MergeSource(acc, src);
      && DistinctEmails(r) && |acc| <= |r|
      && (forall k :: 0 <= k < |acc| ==> r[k].email == acc[k].email)
      && (forall e :: e in EmailsOf(r) <==> e in EmailsOf(acc) || e in EmailsOf(src))
    decreases |src|
  {
    if |src| > 0 {
      var acc1 := MergeRecord(acc, src[0]);
      MergeRecordSpec(acc, src[0]);
      MergeSourceEmails(acc1, src[1..]);
      EmailsCons(src);
      var r := MergeSource(acc1, src[1..]);
      forall e
        ensures e in EmailsOf(r) <==> e in EmailsOf(acc) || e in EmailsOf(src)
      {
        assert e in EmailsOf(r) <==> e in EmailsOf(acc1) || e in EmailsOf(src[1..]);
        assert e in EmailsOf(acc1) <==> e in EmailsOf(acc) || e == src[0].email;
      }
      forall k | 0 <= k < |acc|
        ensures r[k].email == acc[k].email
      {
        assert r[k].email == acc1[k].email;
      }
    }
  }

  /** Volunteers already in the registry keep their record and gain the
      shifts the file lists for their email. */
  lemma {:induction false} MergeSourceKnown(acc: seq<Volunteer>, src: seq<Volunteer>)
    requires DistinctEmails(acc)
    ensures var r := MergeSource(acc, src);
      |acc| <= |r| && forall k :: 0 <= k < |acc| ==>
        r[k] == acc[k].(shifts := acc[k].shifts + ShiftsFor(src, acc[k].email))
    decreases |src|
  {
    if |src| > 0 {
      var acc1 := MergeRecord(acc, src[0]);
      MergeRecordSpec(acc, src[0]);
      MergeSourceKnown(acc1, src[1..]);
      MergeSourceEmails(acc1, src[1..]);
      var r := MergeSource(acc1, src[1..]);
      forall k | 0 <= k < |acc|
        ensures r[k] == acc[k].(shifts := acc[k].shifts + ShiftsFor(src, acc[k].email))
      {
        ShiftsForCons(src, acc[k].email);
        assert acc1[k].email == acc[k].email;
      }
    }
  }

  /** Emails new to the registry are appended, each as its first record in
      the file with the union of its shifts in the file. */
  lemma {:induction false} MergeSourceNew(acc: seq<Volunteer>, src: seq<Volunteer>)
    requires DistinctEmails(acc)
    ensures var r := MergeSource(acc, src);
      |acc| <= |r| && forall k :: |acc| <= k < |r| ==>
        && r[k].email !in EmailsOf(acc) && r[k].email in EmailsOf(src)
        && r[k] == Merged(src, r[k].email)
    decreases |src|
  {
    MergeSourceEmails(acc, src);
    if |src| > 0 {
      var v := src[0];
      var rest := src[1..];
      var acc1 := MergeRecord(acc, v);
      MergeRecordSpec(acc, v);
      MergeSourceNew(acc1, rest);
      var r := MergeSource(acc1, rest);
      if v.email !in EmailsOf(acc) {
        MergeSourceKnown(acc1, rest);
        FirstRecordMerged(src);
        assert r[|acc|] == Merged(src, v.email);
      }
      forall k | |acc1| <= k < |r|
        ensures r[k].email !in EmailsOf(acc) && r[k].email in EmailsOf(src)
        ensures r[k] == Merged(src, r[k].email)
      {
        var e := r[k].email;
        assert e !in EmailsOf(acc1) && e in EmailsOf(rest);
        EmailsCons(src);
        FirstIndexTail(src, e);
      }
    }
  }

  /** A file's first record, with the union of its email's shifts in the
      file, is that email's merged record. */
  lemma FirstRecordMerged(src: seq<Volunteer>)
    requires |src| > 0
    ensures src[0].email in EmailsOf(src)
    ensures Merged(src, src[0].email) == src[0].(shifts := src[0].shifts + ShiftsFor(src[1..], src[0].email))
  {
    assert EmailsOf(src)[0] == src[0].email;
  }

  /** Emails new to the registry are appended in order of first appearance
      in the file, as the volunteer dict keeps insertion order. */
  lemma {:induction false} MergeSourceOrder(acc: seq<Volunteer>, src: seq<Volunteer>)
    requires DistinctEmails(acc)
    ensures var r := MergeSource(acc, src);
      forall k1, k2 :: |acc| <= k1 < k2 < |r| ==>
        r[k1].email in EmailsOf(src) && r[k2].email in EmailsOf(src)
        && FirstIndex(src, r[k1].email) < FirstIndex(src, r[k2].email)
    decreases |src|
  {
    MergeSourceNew(acc, src);
    if |src| > 0 {
      var v := src[0];
      var rest := src[1..];
      var acc1 := MergeRecord(acc, v);
      MergeRecordSpec(acc, v);
      MergeSourceOrder(acc1, rest);
      MergeSourceNew(acc1, rest);
      MergeSourceEmails(acc1, rest);
      var r := MergeSource(acc1, rest);
      assert v.email in EmailsOf(acc1);
      forall k1, k2 | |acc| <= k1 < k2 < |r|
        ensures FirstIndex(src, r[k1].email) < FirstIndex(src, r[k2].email)
      {
        assert |acc1| <= k2;
        FirstIndexTail(src, r[k2].email);
        if k1 >= |acc1| {
          FirstIndexTail(src, r[k1].email);
        } else {
          assert r[k1].email == v.email;
        }
      }
    }
  }

  lemma FirstIndexTail(recs: seq<Volunteer>, e: Email)
    requires |recs| > 0 && recs[0].email != e && e in EmailsOf(recs)
    ensures e in EmailsOf(recs[1..])
    ensures FirstIndex(recs, e) == 1 + FirstIndex(recs[1..], e)
    ensures Merged(recs, e) == Merged(recs[1..], e)
  {
    var k :| 0 <= k < |recs| && EmailsOf(recs)[k] == e;
    assert k > 0 && EmailsOf(recs[1..])[k - 1] == e;
    var i := FirstIndex(recs[1..], e);
    assert FirstIndex(recs, e) == 1 + i;
    assert recs[1 + i] == recs[1..][i];
    assert ShiftsFor(recs, e) == {} + ShiftsFor(recs[1..], e);
    assert {} + ShiftsFor(recs[1..], e) == ShiftsFor(recs[1..], e);
  }

  /** One record: a known email gains the record's shifts, an unknown one
      is appended unchanged. */
  lemma MergeRecordSpec(acc: seq<Volunteer>, v: Volunteer)
    requires DistinctEmails(acc)
    ensures var r := MergeRecord(acc, v);
      && DistinctEmails(r)
      && (v.email in EmailsOf(acc) ==> |r| == |acc|)
      && (v.email !in EmailsOf(acc) ==> r == acc + [v])
      && (forall e :: e in EmailsOf(r) <==> e in EmailsOf(acc) || e == v.email)
      && (forall k :: 0 <= k < |acc| ==>
            r[k] == acc[k].(shifts := acc[k].shifts + (if acc[k].email == v.email then v.shifts else {})))
  {
    MergeRecordEntries(acc, v);
    MergeRecordEmails(acc, v);
  }

  lemma MergeRecordEntries(acc: seq<Volunteer>, v: Volunteer)
    requires DistinctEmails(acc)
    ensures var r := MergeRecord(acc, v);
      && (v.email in EmailsOf(acc) ==> |r| == |acc|)
      && (v.email !in EmailsOf(acc) ==> r == acc + [v])
      && (forall k :: 0 <= k < |acc| ==>
            r[k] == acc[k].(shifts := acc[k].shifts + (if acc[k].email == v.email then v.shifts else {})))
  {
    match IndexOfEmail(acc, v.email)
    case Some(i) =>
      assert v.email in EmailsOf(acc) by {
        assert EmailsOf(acc)[i] == v.email;
      }
    case None =>
      assert v.email !in EmailsOf(acc);
  }

  lemma MergeRecordEmails(acc: seq<Volunteer>, v: Volunteer)
    requires DistinctEmails(acc)
    ensures var r := MergeRecord(acc, v);
      && DistinctEmails(r)
      && (forall e :: e in EmailsOf(r) <==> e in EmailsOf(acc) || e == v.email)
  {
    var r := MergeRecord(acc, v);
    match IndexOfEmail(acc, v.email)
    case Some(i) =>
      assert EmailsOf(r) == EmailsOf(acc);
      assert EmailsOf(acc)[i] == v.email;
    case None =>
      assert EmailsOf(r) == EmailsOf(acc) + [v.email];
  }

  /** Merging the files one after another is merging their concatenation. */
  lemma {:induction false} MergeSourceAppend(acc: seq<Volunteer>, a: seq<Volunteer>, b: seq<Volunteer>)
    ensures MergeSource(MergeSource(acc, a), b) == MergeSource(acc, a + b)
    decreases |a|
  {
    if |a| == 0 {
      assert a + b == b;
    } else {
      assert (a + b)[0] == a[0] && (a + b)[1..] == a[1..] + b;
      MergeSourceAppend(MergeRecord(acc, a[0]), a[1..], b);
    }
  }

  lemma {:induction false} MergeSourcesFlatten(acc: seq<Volunteer>, sources: seq<seq<Volunteer>>)
    ensures MergeSources(acc, sources) == MergeSource(acc, Flatten(sources))
    decreases |sources|
  {
    if |sources| > 0 {
      MergeSourcesFlatten(MergeSource(acc, sources[0]), sources[1..]);
      MergeSourceAppend(acc, sources[0], Flatten(sources[1..]));
    }
  }

  /** The merged registry: one entry per email found in any file, none
      other; each entry is that email's first record (names, phone, booth
      map) with the union of the email's shift sets over all files; entries
      are ordered by first appearance. */
  lemma MergeAllSpec(sources: seq<seq<Volunteer>>)
    ensures var r := MergeAll(sources);
      var recs := Flatten(sources);
      && DistinctEmails(r)
      && (forall e :: e in EmailsOf(r) <==> e in EmailsOf(recs))
      && (forall k :: 0 <= k < |r| ==> r[k].email in EmailsOf(recs) && r[k] == Merged(recs, r[k].email))
      && (forall k1, k2 :: 0 <= k1 < k2 < |r| ==>
            FirstIndex(recs, r[k1].email) < FirstIndex(recs, r[k2].email))
  {
    MergeSourcesFlatten([], sources);
    MergeSourceEmails([], Flatten(sources));
    MergeSourceNew([], Flatten(sources));
    MergeSourceOrder([], Flatten(sources));
  }

}
