/** The roster state: volunteers with their shift sets and shift-to-booth
    records, and booths with a capacity-checked per-shift occupant list. */
module Roster {

  /** Shift codes: 4 setup, 5..7 the three working shifts, 8 cleanup. */
  type Shift = int
  type Email = string

  const SetupShift: Shift := 4
  const CleanupShift: Shift := 8

  /** Only these shifts receive a booth, in this order. */
  const AssignedShifts: seq<Shift> := [5, 6, 7]

  /** Every booth the loader creates takes two volunteers per shift. */
  const DefaultCapacity: int := 2

  datatype Volunteer = Volunteer(
    firstName: string,
    lastName: string,
    email: Email,
    phone: string,
    shifts: set<Shift>,
    boothsPerShift: map<Shift, string>)

  /** No two registry entries share an email, as the keys of the volunteer
      dict do not. */
  ghost predicate DistinctEmails(vols: seq<Volunteer>)
  {
    forall a, b :: 0 <= a < b < |vols| ==> vols[a].email != vols[b].email
  }

  /** Name, email and phone agree: the parts of a record no roster operation edits. */
  predicate SameProfile(v: Volunteer, w: Volunteer)
  {
    v.firstName == w.firstName && v.lastName == w.lastName
    && v.email == w.email && v.phone == w.phone
  }

  /** Records `s` in the shift set; nothing else changes. */
  function AddShift(v: Volunteer, s: Shift): (r: Volunteer)
    ensures s in r.shifts
    ensures forall t :: t != s ==> (t in r.shifts <==> t in v.shifts)
    ensures r.boothsPerShift == v.boothsPerShift && SameProfile(r, v)
  {
    v.(shifts := v.shifts + {s})
  }

  /** Drops `s` from the shift set together with any booth recorded for it;
      every other shift and booth entry is kept. */
  function RemoveShift(v: Volunteer, s: Shift): (r: Volunteer)
    ensures s !in r.shifts && s !in r.boothsPerShift
    ensures forall t :: t != s ==> (t in r.shifts <==> t in v.shifts)
    ensures forall t :: t != s ==>
      (t in r.boothsPerShift <==> t in v.boothsPerShift)
      && (t in v.boothsPerShift ==> r.boothsPerShift[t] == v.boothsPerShift[t])
    ensures SameProfile(r, v)
  {
    v.(shifts := v.shifts - {s}, boothsPerShift := v.boothsPerShift - {s})
  }

  /** Adding a shift that was not there and removing it again gives back the
      original volunteer. */
  lemma RemoveUndoesAdd(v: Volunteer, s: Shift)
    requires s !in v.shifts && s !in v.boothsPerShift
    ensures RemoveShift(AddShift(v, s), s) == v
  {
    assert RemoveShift(AddShift(v, s), s).shifts == v.shifts;
    assert RemoveShift(AddShift(v, s), s).boothsPerShift == v.boothsPerShift;
  }

  datatype Booth = Booth(name: string, capacity: int, assignments: map<Shift, seq<Email>>)

  /** A booth as the loader creates it: default capacity, nobody assigned. */
  function NewBooth(name: string): (b: Booth)
    ensures b.name == name && b.capacity == 2
    ensures forall s :: Occupants(b, s) == []
  {
    Booth(name, DefaultCapacity, map[])
  }

  /** The emails placed in booth `b` for shift `s`, in placement order; a
      shift never probed reads as the empty list. */
  function Occupants(b: Booth, s: Shift): seq<Email>
  {
    if s in b.assignments then b.assignments[s] else []
  }

  function HasSpace(b: Booth, s: Shift): bool
  {
    |Occupants(b, s)| < b.capacity
  }

  /** `b'` is `b` with `e` appended to the end of the occupant list of `s`
      and nothing else changed. */
  ghost predicate Accepts(b: Booth, b': Booth, s: Shift, e: Email)
  {
    && b'.name == b.name && b'.capacity == b.capacity
    && Occupants(b', s) == Occupants(b, s) + [e]
    && forall t :: t != s ==> Occupants(b', t) == Occupants(b, t)
  }

  /** No shift of `b` holds more than its capacity. */
  ghost predicate WithinCapacity(b: Booth)
  {
    forall s :: |Occupants(b, s)| <= b.capacity
  }

  /** Tries to place `e` in booth `b` for shift `s`: succeeds exactly when the
      shift's list is shorter than the capacity, appending `e`; on failure the
      booth is returned as it was. */
  function AssignVolunteer(b: Booth, s: Shift, e: Email): (r: (bool, Booth))
    ensures r.0 <==> |Occupants(b, s)| < b.capacity
    ensures r.0 ==> Accepts(b, r.1, s, e)
    ensures !r.0 ==> r.1 == b
    ensures WithinCapacity(b) ==> WithinCapacity(r.1)
  {
    var current := Occupants(b, s);
    if |current| < b.capacity then
      (true, b.(assignments := b.assignments[s := current + [e]]))
    else
      (false, b)
  }

  /** `has_space` answers exactly whether an assignment would be accepted. */
  lemma HasSpaceIffAssignSucceeds(b: Booth, s: Shift, e: Email)
    ensures HasSpace(b, s) <==> AssignVolunteer(b, s, e).0
  {
  }

  /** In a booth within capacity, a shift without space is exactly full and
      rejects every further email, leaving the booth unchanged. */
  lemma FullShiftRejects(b: Booth, s: Shift, e: Email)
    requires WithinCapacity(b) && !HasSpace(b, s)
    ensures AssignVolunteer(b, s, e) == (false, b)
    ensures |Occupants(b, s)| == b.capacity
  {
    assert |Occupants(b, s)| <= b.capacity;
  }

}
