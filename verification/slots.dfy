/** The global bookkeeping invariant of `assign_booths`: a booth entry
    `booths_per_shift[s] = b.name` is written exactly when booth `b` accepted
    the email for `s`, so every volunteer occupies one slot for each shift it
    has a booth recorded for, and no slot for any other shift. */
module Slots {
  import opened Roster
  import opened Engine

  /** How many slots of shift `s` hold `e`, over all booths. */
  function SlotCount(booths: seq<Booth>, s: Shift, e: Email): nat
  {
    if |booths| == 0 then 0
    else multiset(Occupants(booths[0], s))[e] + SlotCount(booths[1..], s, e)
  }

  /** One accepted assignment adds exactly one slot, for that shift and email. */
  lemma {:induction false} SlotCountAfterAccept(booths: seq<Booth>, j: nat, b: Booth, s: Shift, e: Email, t: Shift, x: Email)
    requires j < |booths| && Accepts(booths[j], b, s, e)
    ensures SlotCount(booths[j := b], t, x) == SlotCount(booths, t, x) + (if t == s && x == e then 1 else 0)
    decreases j
  {
    var updated := booths[j := b];
    if j == 0 {
      assert updated[1..] == booths[1..];
      if t == s {
        assert multiset(Occupants(b, s)) == multiset(Occupants(booths[0], s)) + multiset{e};
      }
    } else {
      assert updated[1..] == booths[1..][j - 1 := b];
      SlotCountAfterAccept(booths[1..], j - 1, b, s, e, t, x);
    }
  }

  /** Booths with no occupants hold no slot. */
  lemma {:induction false} SlotCountEmpty(booths: seq<Booth>, t: Shift, x: Email)
    requires forall j :: 0 <= j < |booths| ==> Occupants(booths[j], t) == []
    ensures SlotCount(booths, t, x) == 0
    decreases |booths|
  {
    if |booths| > 0 {
      SlotCountEmpty(booths[1..], t, x);
    }
  }

  /** Each volunteer holds one slot for every shift with a recorded booth
      and none for any other shift. */
  ghost predicate SlotsMatchRecords(st: State)
  {
    forall i, t :: 0 <= i < |st.vols| ==>
      SlotCount(st.booths, t, st.vols[i].email) == if t in st.vols[i].boothsPerShift then 1 else 0
  }

  /** Considering a volunteer who has no booth yet for `s` keeps the
      invariant. */
  lemma PlaceKeepsSlots(st: State, s: Shift, i: nat)
    requires i < |st.vols| && DistinctEmails(st.vols) && SlotsMatchRecords(st)
    requires s !in st.vols[i].boothsPerShift
    ensures SlotsMatchRecords(Place(st, s, i).state)
  {
    var step := Place(st, s, i);
    if step.accepted.Some? {
      var j := step.accepted.value;
      var r := step.state;
      var e := st.vols[i].email;
      forall k, t | 0 <= k < |r.vols|
        ensures SlotCount(r.booths, t, r.vols[k].email) == if t in r.vols[k].boothsPerShift then 1 else 0
      {
        SlotCountAfterAccept(st.booths, j, r.booths[j], s, e, t, r.vols[k].email);
        if k != i {
          assert r.vols[k] == st.vols[k];
          assert st.vols[k].email != e by {
            if k < i {
              assert st.vols[k].email != st.vols[i].email;
            } else {
              assert st.vols[i].email != st.vols[k].email;
            }
          }
        }
      }
    }
  }

  /** Booth entries never touch emails, so distinct emails stay distinct. */
  lemma RecordsKeepEmails(vols: seq<Volunteer>, vols': seq<Volunteer>, scope: seq<Shift>)
    requires AllRecordsWithin(vols, vols', scope) && DistinctEmails(vols)
    ensures DistinctEmails(vols')
  {
    forall a, b | 0 <= a < b < |vols'|
      ensures vols'[a].email != vols'[b].email
    {
      assert RecordsWithin(vols[a], vols'[a], scope);
      assert RecordsWithin(vols[b], vols'[b], scope);
    }
  }

  predicate DistinctIndices(order: seq<nat>)
  {
    forall a, b :: 0 <= a < b < |order| ==> order[a] != order[b]
  }

  /** One shift's pass keeps the invariant when no candidate has a booth
      for that shift yet and each is visited once. */
  lemma {:induction false} PlaceAllKeepsSlots(st: State, s: Shift, order: seq<nat>)
    requires IndicesIn(order, |st.vols|) && DistinctIndices(order)
    requires DistinctEmails(st.vols) && SlotsMatchRecords(st)
    requires forall k :: 0 <= k < |order| ==> s !in st.vols[order[k]].boothsPerShift
    ensures SlotsMatchRecords(PlaceAll(st, s, order))
    decreases |order|
  {
    if |order| > 0 {
      var i := order[0];
      PlaceKeepsSlots(st, s, i);
      var next := Place(st, s, i).state;
      PlaceStepFacts(st, s, i);
      forall k | 0 <= k < |order[1..]|
        ensures s !in next.vols[order[1..][k]].boothsPerShift
      {
        assert order[1..][k] == order[k + 1] != order[0];
      }
      RecordsKeepEmails(st.vols, next.vols, [s]);
      PlaceAllKeepsSlots(next, s, order[1..]);
    }
  }

  /** The shift loop keeps the invariant when the shifts are distinct and
      nobody starts with a booth for any of them. */
  lemma {:induction false} RunShiftsKeepSlots(st: State, shifts: seq<Shift>, order: seq<nat>)
    requires IndicesIn(order, |st.vols|) && DistinctIndices(order)
    requires DistinctEmails(st.vols) && SlotsMatchRecords(st)
    requires forall a, b :: 0 <= a < b < |shifts| ==> shifts[a] != shifts[b]
    requires forall i, t :: 0 <= i < |st.vols| && t in shifts ==> t !in st.vols[i].boothsPerShift
    ensures SlotsMatchRecords(RunShifts(st, shifts, order))
    decreases |shifts|
  {
    if |shifts| > 0 {
      var s := shifts[0];
      forall k | 0 <= k < |order|
        ensures s !in st.vols[order[k]].boothsPerShift
      {
        assert s in shifts;
      }
      PlaceAllKeepsSlots(st, s, order);
      var next := PlaceAll(st, s, order);
      forall i, t | 0 <= i < |next.vols| && t in shifts[1..]
        ensures t !in next.vols[i].boothsPerShift
      {
        var k :| 0 <= k < |shifts[1..]| && shifts[1..][k] == t;
        assert shifts[k + 1] != shifts[0] && t in shifts && t !in [s];
        assert t !in st.vols[i].boothsPerShift;
        assert RecordsWithin(st.vols[i], next.vols[i], [s]);
      }
      RecordsKeepEmails(st.vols, next.vols, [s]);
      RunShiftsKeepSlots(next, shifts[1..], order);
    }
  }

  /** Every recorded booth name names a booth whose list for that shift
      holds the volunteer's email. */
  ghost predicate RecordsNameHolders(st: State)
  {
    forall i, t :: 0 <= i < |st.vols| && t in st.vols[i].boothsPerShift ==>
      HeldIn(st.booths, st.vols[i].boothsPerShift[t], st.vols[i].email, t)
  }

  /** Some booth named `name` lists `e` for shift `t`. */
  ghost predicate HeldIn(booths: seq<Booth>, name: string, e: Email, t: Shift)
  {
    exists j :: 0 <= j < |booths| && booths[j].name == name && e in Occupants(booths[j], t)
  }

  lemma HoldersSurviveGrowth(st: State, r: State)
    requires RecordsNameHolders(st) && Grows(st.booths, r.booths)
    requires |r.vols| == |st.vols|
    ensures forall i, t :: 0 <= i < |st.vols| && t in st.vols[i].boothsPerShift ==>
      HeldIn(r.booths, st.vols[i].boothsPerShift[t], st.vols[i].email, t)
  {
    forall i, t | 0 <= i < |st.vols| && t in st.vols[i].boothsPerShift
      ensures HeldIn(r.booths, st.vols[i].boothsPerShift[t], st.vols[i].email, t)
    {
      var j :| 0 <= j < |st.booths| && st.booths[j].name == st.vols[i].boothsPerShift[t]
        && st.vols[i].email in Occupants(st.booths[j], t);
      assert Occupants(st.booths[j], t) <= Occupants(r.booths[j], t);
      var p :| 0 <= p < |Occupants(st.booths[j], t)| && Occupants(st.booths[j], t)[p] == st.vols[i].email;
      assert Occupants(r.booths[j], t)[p] == st.vols[i].email;
      assert r.booths[j].name == st.booths[j].name;
    }
  }

  /** Considering one candidate keeps every recorded name pointing at a
      booth that holds the volunteer. */
  lemma PlaceKeepsHolders(st: State, s: Shift, i: nat)
    requires i < |st.vols| && RecordsNameHolders(st)
    ensures RecordsNameHolders(Place(st, s, i).state)
  {
    var step := Place(st, s, i);
    var r := step.state;
    PlaceStepFacts(st, s, i);
    HoldersSurviveGrowth(st, r);
    if step.accepted.Some? {
      var j := step.accepted.value;
      forall k, t | 0 <= k < |r.vols| && t in r.vols[k].boothsPerShift
        ensures HeldIn(r.booths, r.vols[k].boothsPerShift[t], r.vols[k].email, t)
      {
        if k == i && t == s {
          assert Occupants(r.booths[j], s) == Occupants(st.booths[j], s) + [st.vols[i].email];
          assert r.booths[j].name == r.vols[k].boothsPerShift[t];
        } else {
          assert t in st.vols[k].boothsPerShift;
        }
      }
    }
  }

  lemma {:induction false} PlaceAllKeepsHolders(st: State, s: Shift, order: seq<nat>)
    requires IndicesIn(order, |st.vols|) && RecordsNameHolders(st)
    ensures RecordsNameHolders(PlaceAll(st, s, order))
    decreases |order|
  {
    if |order| > 0 {
      PlaceKeepsHolders(st, s, order[0]);
      PlaceAllKeepsHolders(Place(st, s, order[0]).state, s, order[1..]);
    }
  }

  lemma {:induction false} RunShiftsKeepHolders(st: State, shifts: seq<Shift>, order: seq<nat>)
    requires IndicesIn(order, |st.vols|) && RecordsNameHolders(st)
    ensures RecordsNameHolders(RunShifts(st, shifts, order))
    decreases |shifts|
  {
    if |shifts| > 0 {
      PlaceAllKeepsHolders(st, shifts[0], order);
      RunShiftsKeepHolders(PlaceAll(st, shifts[0], order), shifts[1..], order);
    }
  }

  lemma AssignedShiftsDistinct()
    ensures forall a, b :: 0 <= a < b < |AssignedShifts| ==> AssignedShifts[a] != AssignedShifts[b]
  {
  }

  /** After `assign_booths`, every volunteer holds exactly one slot per shift
      it has a booth recorded for and none otherwise; in particular nobody
      occupies two slots of one shift. Holds whenever emails are distinct
      (as the registry's keys are), the input already satisfies the
      invariant, and no volunteer starts with a booth for 5, 6 or 7. */
  lemma AssignBoothsOneSlotPerShift(vols: seq<Volunteer>, booths: seq<Booth>, keyLe: (NameKey, NameKey) -> bool)
    requires DistinctEmails(vols) && SlotsMatchRecords(State(vols, booths, 0))
    requires forall i, t :: 0 <= i < |vols| && t in AssignedShifts ==> t !in vols[i].boothsPerShift
    ensures SlotsMatchRecords(AssignBooths(vols, booths, keyLe))
    ensures var r := AssignBooths(vols, booths, keyLe);
      forall i, t :: 0 <= i < |r.vols| ==> SlotCount(r.booths, t, r.vols[i].email) <= 1
  {
    var order := SortedOrder(vols, keyLe);
    AssignedShiftsDistinct();
    RunShiftsKeepSlots(State(vols, booths, 0), AssignedShifts, order);
    SlotsAtMostOne(AssignBooths(vols, booths, keyLe));
  }

  /** Under the invariant nobody holds two slots of one shift. */
  lemma SlotsAtMostOne(st: State)
    requires SlotsMatchRecords(st)
    ensures forall i, t :: 0 <= i < |st.vols| ==> SlotCount(st.booths, t, st.vols[i].email) <= 1
  {
  }

  /** After `assign_booths`, every booth name recorded for a volunteer is the
      name of a booth that lists the volunteer for that shift. */
  lemma AssignBoothsRecordsHolders(vols: seq<Volunteer>, booths: seq<Booth>, keyLe: (NameKey, NameKey) -> bool)
    requires RecordsNameHolders(State(vols, booths, 0))
    ensures RecordsNameHolders(AssignBooths(vols, booths, keyLe))
  {
    RunShiftsKeepHolders(State(vols, booths, 0), AssignedShifts, SortedOrder(vols, keyLe));
  }

  /** The loader's output: no booth entries and empty booths. */
  ghost predicate FreshRoster(vols: seq<Volunteer>, booths: seq<Booth>)
  {
    && (forall i :: 0 <= i < |vols| ==> vols[i].boothsPerShift == map[])
    && (forall j, t :: 0 <= j < |booths| ==> Occupants(booths[j], t) == [])
  }

  /** The loader's output satisfies both invariants before assignment. */
  lemma FreshStart(vols: seq<Volunteer>, booths: seq<Booth>)
    requires FreshRoster(vols, booths)
    ensures SlotsMatchRecords(State(vols, booths, 0))
    ensures RecordsNameHolders(State(vols, booths, 0))
    ensures forall i, t :: 0 <= i < |vols| && t in AssignedShifts ==> t !in vols[i].boothsPerShift
  {
    forall i, t | 0 <= i < |vols|
      ensures SlotCount(booths, t, vols[i].email) == if t in vols[i].boothsPerShift then 1 else 0
    {
      SlotCountEmpty(booths, t, vols[i].email);
    }
  }

  /** On the loader's output the invariant holds before assignment, and
      after assignment each volunteer holds a slot for shift `t` exactly
      when `t` is 5, 6 or 7, the volunteer signed up for it, and a booth was
      recorded. */
  lemma FreshAssignment(vols: seq<Volunteer>, booths: seq<Booth>, keyLe: (NameKey, NameKey) -> bool)
    requires DistinctEmails(vols) && FreshRoster(vols, booths)
    ensures var r := AssignBooths(vols, booths, keyLe);
      && SlotsMatchRecords(r)
      && RecordsNameHolders(r)
      && (forall i, t :: 0 <= i < |r.vols| && t in r.vols[i].boothsPerShift ==>
            t in AssignedShifts && t in vols[i].shifts)
  {
    FreshStart(vols, booths);
    AssignBoothsOneSlotPerShift(vols, booths, keyLe);
    AssignBoothsRecordsHolders(vols, booths, keyLe);
    RecordsFromEmpty(vols, AssignBooths(vols, booths, keyLe).vols, AssignedShifts);
  }

  /** Starting without booth entries, every entry lies in the scope and in
      the volunteer's own shifts. */
  lemma RecordsFromEmpty(vols: seq<Volunteer>, vols': seq<Volunteer>, scope: seq<Shift>)
    requires AllRecordsWithin(vols, vols', scope)
    requires forall i :: 0 <= i < |vols| ==> vols[i].boothsPerShift == map[]
    ensures forall i, t :: 0 <= i < |vols'| && t in vols'[i].boothsPerShift ==> t in scope && t in vols[i].shifts
  {
    forall i, t | 0 <= i < |vols'| && t in vols'[i].boothsPerShift
      ensures t in scope && t in vols[i].shifts
    {
      assert RecordsWithin(vols[i], vols'[i], scope);
      assert t !in vols[i].boothsPerShift;
    }
  }

}
