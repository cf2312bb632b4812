/** `assign_booths`: for shifts 5, 6 and 7 in turn, every volunteer signed up
    for the shift is considered in name order; each first tries the booth it
    held for the previous shift, then a round-robin scan from a cursor that is
    shared by all candidates and all shifts. */
module Engine {
  import opened Options
  import opened Roster
  import Sorting

  /** The whole mutable state of one run: the volunteer registry (in insertion
      order), the booth list, and the round-robin cursor. */
  datatype State = State(vols: seq<Volunteer>, booths: seq<Booth>, cursor: nat)

  // ---------------------------------------------------------------------
  // Candidate order
  // ---------------------------------------------------------------------

  /** The sort key (last name, first name); `assign_booths` lower-cases both
      parts and compares the pair, which the model leaves to `keyLe`. */
  type NameKey = (string, string)

  function NameKeyOf(v: Volunteer): NameKey
  {
    (v.lastName, v.firstName)
  }

  function VolunteerLe(keyLe: (NameKey, NameKey) -> bool): (Volunteer, Volunteer) -> bool
  {
    (a: Volunteer, b: Volunteer) => keyLe(NameKeyOf(a), NameKeyOf(b))
  }

  lemma VolunteerLePreorder(keyLe: (NameKey, NameKey) -> bool)
    requires Sorting.TotalPreorder(keyLe)
    ensures Sorting.TotalPreorder(VolunteerLe(keyLe))
  {
    var le := VolunteerLe(keyLe);
    forall a, b
      ensures le(a, b) || le(b, a)
    {
      assert keyLe(NameKeyOf(a), NameKeyOf(b)) || keyLe(NameKeyOf(b), NameKeyOf(a));
    }
    forall a, b, c | le(a, b) && le(b, c)
      ensures le(a, c)
    {
      assert keyLe(NameKeyOf(a), NameKeyOf(b)) && keyLe(NameKeyOf(b), NameKeyOf(c));
    }
  }

  /** The registry sorted stably by name key, each entry paired with its
      registry index. */
  function SortedEntries(vols: seq<Volunteer>, keyLe: (NameKey, NameKey) -> bool): (r: seq<(nat, Volunteer)>)
    ensures |r| == |vols|
    ensures forall k :: 0 <= k < |r| ==> r[k].0 < |vols| && r[k].1 == vols[r[k].0]
    ensures forall a, b :: 0 <= a < b < |r| ==> r[a].0 != r[b].0
    ensures forall i :: 0 <= i < |vols| ==> (i, vols[i]) in r
  {
    var xs := Sorting.Enumerate(vols);
    var r := Sorting.SortBy(xs, VolunteerLe(keyLe));
    Sorting.SortKeepsPositionsDistinct(xs, VolunteerLe(keyLe));
    PermutedEnumeration(vols, r);
    r
  }

  /** A rearrangement of the enumerated registry holds each index once,
      next to its own volunteer. */
  lemma PermutedEnumeration(vols: seq<Volunteer>, r: seq<(nat, Volunteer)>)
    requires multiset(r) == multiset(Sorting.Enumerate(vols))
    ensures forall k :: 0 <= k < |r| ==> r[k].0 < |vols| && r[k].1 == vols[r[k].0]
    ensures forall i :: 0 <= i < |vols| ==> (i, vols[i]) in r
  {
    var xs := Sorting.Enumerate(vols);
    forall k | 0 <= k < |r|
      ensures r[k].0 < |vols| && r[k].1 == vols[r[k].0]
    {
      assert r[k] in multiset(xs);
      var m :| 0 <= m < |xs| && xs[m] == r[k];
    }
    forall i | 0 <= i < |vols|
      ensures (i, vols[i]) in r
    {
      assert xs[i] in multiset(r);
    }
  }

  /** The registry indices in the order candidates are visited: a
      permutation of all indices. */
  function SortedOrder(vols: seq<Volunteer>, keyLe: (NameKey, NameKey) -> bool): (order: seq<nat>)
    ensures |order| == |vols|
    ensures forall k :: 0 <= k < |order| ==> order[k] < |vols|
    ensures forall a, b :: 0 <= a < b < |order| ==> order[a] != order[b]
    ensures forall i :: 0 <= i < |vols| ==> i in order
  {
    var entries := SortedEntries(vols, keyLe);
    var order := seq(|entries|, k requires 0 <= k < |entries| => entries[k].0);
    forall i | 0 <= i < |vols|
      ensures i in order
    {
      var k :| 0 <= k < |entries| && entries[k] == (i, vols[i]);
      assert order[k] == i;
    }
    order
  }

  /** Candidates are visited in ascending key order, and volunteers with equal
      keys in registry (insertion) order. */
  lemma SortedOrderByName(vols: seq<Volunteer>, keyLe: (NameKey, NameKey) -> bool)
    requires Sorting.TotalPreorder(keyLe)
    ensures var order := SortedOrder(vols, keyLe);
      && (forall a, b :: 0 <= a < b < |order| ==>
            keyLe(NameKeyOf(vols[order[a]]), NameKeyOf(vols[order[b]])))
      && (forall a, b :: 0 <= a < b < |order|
            && keyLe(NameKeyOf(vols[order[b]]), NameKeyOf(vols[order[a]]))
            ==> order[a] < order[b])
  {
    var xs := Sorting.Enumerate(vols);
    VolunteerLePreorder(keyLe);
    Sorting.SortSorted(xs, VolunteerLe(keyLe));
    Sorting.SortTiesInOrder(xs, VolunteerLe(keyLe));
    var entries := SortedEntries(vols, keyLe);
    var order := SortedOrder(vols, keyLe);
    assert forall k :: 0 <= k < |order| ==> order[k] == entries[k].0;
  }

  // ---------------------------------------------------------------------
  // One candidate
  // ---------------------------------------------------------------------

  /** The first booth carrying `name`, as Python's `next(...)` over the
      booth list finds it. */
  function FirstNamed(booths: seq<Booth>, name: string): (r: Option<nat>)
    ensures r.Some? ==> r.value < |booths| && booths[r.value].name == name
    ensures r.Some? ==> forall k :: 0 <= k < r.value ==> booths[k].name != name
    ensures r.None? ==> forall k :: 0 <= k < |booths| ==> booths[k].name != name
  {
    if |booths| == 0 then None
    else if booths[0].name == name then Some(0)
    else
      match FirstNamed(booths[1..], name)
      case None => None
      case Some(j) => Some(j + 1)
  }

  /** The booth the continuity attempt goes to: the first booth named like
      the one recorded for the previous shift code, if a non-empty name was
      recorded. */
  function PreferredBooth(booths: seq<Booth>, v: Volunteer, s: Shift): (r: Option<nat>)
    ensures r.Some? ==>
      && (s - 1) in v.boothsPerShift && v.boothsPerShift[s - 1] != ""
      && r.value < |booths| && booths[r.value].name == v.boothsPerShift[s - 1]
      && forall k :: 0 <= k < r.value ==> booths[k].name != booths[r.value].name
    ensures r.None? && (s - 1) in v.boothsPerShift && v.boothsPerShift[s - 1] != "" ==>
      forall k :: 0 <= k < |booths| ==> booths[k].name != v.boothsPerShift[s - 1]
  {
    if (s - 1) in v.boothsPerShift && v.boothsPerShift[s - 1] != "" then
      FirstNamed(booths, v.boothsPerShift[s - 1])
    else
      None
  }

  /** The result of a round-robin scan: the booths, the advanced cursor, and
      the index of the booth that accepted, if any. */
  datatype Placement = Placement(booths: seq<Booth>, cursor: nat, accepted: Option<nat>)

  /** The fallback loop: try booth `cursor % n`, advance the cursor, count the
      attempt, stop at the first booth that accepts or after `n` attempts. */
  function Scan(booths: seq<Booth>, s: Shift, e: Email, cursor: nat, attempts: nat): (r: Placement)
    decreases |booths| - attempts
    ensures |r.booths| == |booths| && cursor <= r.cursor
    ensures attempts <= |booths| ==> r.cursor <= cursor + (|booths| - attempts)
    ensures r.accepted.None? ==>
      && r.booths == booths
      && r.cursor == cursor + (if attempts < |booths| then |booths| - attempts else 0)
      && forall t :: cursor <= t < r.cursor ==> !HasSpace(booths[t % |booths|], s)
    ensures r.accepted.Some? ==>
      && cursor < r.cursor && |booths| > 0
      && r.accepted.value == (r.cursor - 1) % |booths|
      && HasSpace(booths[r.accepted.value], s)
      && r.booths == booths[r.accepted.value := r.booths[r.accepted.value]]
      && Accepts(booths[r.accepted.value], r.booths[r.accepted.value], s, e)
      && forall t :: cursor <= t < r.cursor - 1 ==> !HasSpace(booths[t % |booths|], s)
  {
    if attempts >= |booths| then
      Placement(booths, cursor, None)
    else
      var j := cursor % |booths|;
      var (ok, b) := AssignVolunteer(booths[j], s, e);
      if ok then Placement(booths[j := b], cursor + 1, Some(j))
      else Scan(booths, s, e, cursor + 1, attempts + 1)
  }

  function Record(v: Volunteer, s: Shift, name: string): Volunteer
  {
    v.(boothsPerShift := v.boothsPerShift[s := name])
  }

  /** The outcome of considering one candidate: the new state and the booth
      that accepted the candidate, if one did. */
  datatype Step = Step(state: State, accepted: Option<nat>)

  /** `r` is `st` after booth `j` accepted volunteer `i` for shift `s`: the
      email is appended to that booth's list, the booth's name is recorded
      for the shift, and nothing else in the registry or booth list changes. */
  ghost predicate Placed(st: State, r: State, s: Shift, i: nat, j: nat)
    requires i < |st.vols|
  {
    && j < |st.booths| && HasSpace(st.booths[j], s)
    && |r.booths| == |st.booths|
    && r.booths == st.booths[j := r.booths[j]]
    && Accepts(st.booths[j], r.booths[j], s, st.vols[i].email)
    && r.vols == st.vols[i := Record(st.vols[i], s, st.booths[j].name)]
  }

  /** The continuity attempt applies: a preferred booth exists and has room. */
  predicate ContinuityApplies(st: State, s: Shift, i: nat)
    requires i < |st.vols|
  {
    var pref := PreferredBooth(st.booths, st.vols[i], s);
    pref.Some? && HasSpace(st.booths[pref.value], s)
  }

  /** The body of the candidate loop of `assign_booths` for volunteer `i` and shift `s`. */
  function Place(st: State, s: Shift, i: nat): (r: Step)
    requires i < |st.vols|
    ensures |r.state.vols| == |st.vols| && |r.state.booths| == |st.booths|
    ensures st.cursor <= r.state.cursor <= st.cursor + |st.booths|
    ensures s !in st.vols[i].shifts ==> r == Step(st, None)
    ensures r.accepted.Some? ==> s in st.vols[i].shifts && Placed(st, r.state, s, i, r.accepted.value)
    ensures r.accepted.None? && s in st.vols[i].shifts ==>
      && r.state == st.(cursor := st.cursor + |st.booths|)
      && forall j :: 0 <= j < |st.booths| ==> !HasSpace(st.booths[j], s)
    ensures s in st.vols[i].shifts && ContinuityApplies(st, s, i) ==>
      r.accepted == PreferredBooth(st.booths, st.vols[i], s) && r.state.cursor == st.cursor
    ensures s in st.vols[i].shifts && !ContinuityApplies(st, s, i) && r.accepted.Some? ==>
      && st.cursor < r.state.cursor
      && r.accepted.value == (r.state.cursor - 1) % |st.booths|
      && forall t :: st.cursor <= t < r.state.cursor - 1 ==> !HasSpace(st.booths[t % |st.booths|], s)
  {
    var v := st.vols[i];
    if s !in v.shifts then
      Step(st, None)
    else
      var pref := PreferredBooth(st.booths, v, s);
      if pref.Some? && AssignVolunteer(st.booths[pref.value], s, v.email).0 then
        var j := pref.value;
        var b := AssignVolunteer(st.booths[j], s, v.email).1;
        Step(State(st.vols[i := Record(v, s, st.booths[j].name)], st.booths[j := b], st.cursor), Some(j))
      else
        var p := Scan(st.booths, s, v.email, st.cursor, 0);
        match p.accepted
        case None =>
          EveryBoothTried(st.booths, s, st.cursor);
          Step(st.(cursor := p.cursor), None)
        case Some(j) =>
          Step(State(st.vols[i := Record(v, s, st.booths[j].name)], p.booths, p.cursor), Some(j))
  }

  /** A full round of `n` consecutive cursor positions visits every booth. */
  lemma EveryBoothTried(booths: seq<Booth>, s: Shift, cursor: nat)
    requires forall t :: cursor <= t < cursor + |booths| ==> !HasSpace(booths[t % |booths|], s)
    ensures forall j :: 0 <= j < |booths| ==> !HasSpace(booths[j], s)
  {
    forall j | 0 <= j < |booths|
      ensures !HasSpace(booths[j], s)
    {
      var t := ResidueInRound(cursor, |booths|, j);
    }
  }

  /** Among `n` consecutive numbers from `c`, one is congruent to `j`. */
  lemma ResidueInRound(c: nat, n: nat, j: nat) returns (t: nat)
    requires j < n
    ensures c <= t < c + n && t % n == j
  {
    var q := c / n;
    assert c == q * n + c % n;
    if j >= c % n {
      t := q * n + j;
      ModOfMultiplePlus(q, n, j);
    } else {
      t := (q + 1) * n + j;
      assert (q + 1) * n == q * n + n;
      ModOfMultiplePlus(q + 1, n, j);
    }
  }

  /** Adding a multiple of `n` does not change a residue. */
  lemma ModOfMultiplePlus(q: int, n: int, j: int)
    requires 0 <= j < n
    ensures (q * n + j) % n == j
  {
    var r := (q * n + j) % n;
    var d := (q * n + j) / n;
    assert q * n + j == d * n + r;
    assert (q - d) * n == r - j;
    if q - d >= 1 {
      MulAtLeast(q - d, n);
    } else if q - d <= -1 {
      MulAtLeast(d - q, n);
    }
  }

  lemma MulAtLeast(k: int, n: int)
    requires k >= 1 && n >= 0
    ensures k * n >= n
  {
    assert k * n == (k - 1) * n + n;
  }

  // ---------------------------------------------------------------------
  // Folds over candidates and shifts
  // ---------------------------------------------------------------------

  /** The booth list only grows: same booths, same names and capacities, and
      every occupant list of `bs` is a prefix of the one in `bs'`. */
  ghost predicate Grows(bs: seq<Booth>, bs': seq<Booth>)
  {
    && |bs'| == |bs|
    && forall j :: 0 <= j < |bs| ==>
      && bs'[j].name == bs[j].name && bs'[j].capacity == bs[j].capacity
      && forall t :: Occupants(bs[j], t) <= Occupants(bs'[j], t)
  }

  ghost predicate AllWithinCapacity(bs: seq<Booth>)
  {
    forall j :: 0 <= j < |bs| ==> WithinCapacity(bs[j])
  }

  /** `v'` is `v` with booth entries possibly added for shifts of `scope`
      that `v` signed up for; profile, shift set and every other entry are
      kept. */
  ghost predicate RecordsWithin(v: Volunteer, v': Volunteer, scope: seq<Shift>)
  {
    && SameProfile(v', v) && v'.shifts == v.shifts
    && (forall t :: t !in scope ==>
          (t in v'.boothsPerShift <==> t in v.boothsPerShift)
          && (t in v.boothsPerShift ==> v'.boothsPerShift[t] == v.boothsPerShift[t]))
    && (forall t :: t in scope && t in v'.boothsPerShift ==> t in v.boothsPerShift || t in v.shifts)
  }

  ghost predicate AllRecordsWithin(vols: seq<Volunteer>, vols': seq<Volunteer>, scope: seq<Shift>)
  {
    |vols'| == |vols| && forall i :: 0 <= i < |vols| ==> RecordsWithin(vols[i], vols'[i], scope)
  }

  predicate IndicesIn(order: seq<nat>, n: nat)
  {
    forall k :: 0 <= k < |order| ==> order[k] < n
  }

  /** The candidate loop for one shift, over `order`. */
  function PlaceAll(st: State, s: Shift, order: seq<nat>): (r: State)
    requires IndicesIn(order, |st.vols|)
    decreases |order|
    ensures AllRecordsWithin(st.vols, r.vols, [s])
    ensures Grows(st.booths, r.booths)
    ensures AllWithinCapacity(st.booths) ==> AllWithinCapacity(r.booths)
    ensures st.cursor <= r.cursor <= st.cursor + |order| * |st.booths|
    ensures |st.booths| == 0 ==> r == st
  {
    if |order| == 0 then st
    else
      var next := Place(st, s, order[0]).state;
      PlaceStepFacts(st, s, order[0]);
      var r := PlaceAll(next, s, order[1..]);
      ChainPlacements(st, next, r, s, |st.booths|, |order|);
      r
  }

  /** Composes the invariants of one placement with those of the remaining
      candidates of the same shift. */
  lemma ChainPlacements(st: State, next: State, r: State, s: Shift, n: nat, k: nat)
    requires k >= 1
    requires AllRecordsWithin(st.vols, next.vols, [s]) && AllRecordsWithin(next.vols, r.vols, [s])
    requires Grows(st.booths, next.booths) && Grows(next.booths, r.booths)
    requires st.cursor <= next.cursor <= st.cursor + n
    requires next.cursor <= r.cursor <= next.cursor + (k - 1) * n
    ensures AllRecordsWithin(st.vols, r.vols, [s])
    ensures Grows(st.booths, r.booths)
    ensures st.cursor <= r.cursor <= st.cursor + k * n
  {
    GrowsTransitive(st.booths, next.booths, r.booths);
    RecordsTransitive(st.vols, next.vols, r.vols, [s], [s]);
    CursorChain(st.cursor, next.cursor, r.cursor, k, n);
  }

  /** What one `Place` does to the invariants the folds carry. */
  lemma PlaceStepFacts(st: State, s: Shift, i: nat)
    requires i < |st.vols|
    ensures var r := Place(st, s, i).state;
      && AllRecordsWithin(st.vols, r.vols, [s])
      && Grows(st.booths, r.booths)
      && (AllWithinCapacity(st.booths) ==> AllWithinCapacity(r.booths))
      && (|st.booths| == 0 ==> r == st)
  {
    var step := Place(st, s, i);
    if step.accepted.Some? {
      var j := step.accepted.value;
      RecordAddsWithin(st.vols, i, s, st.booths[j].name);
      AcceptGrows(st.booths, step.state.booths, j, s, st.vols[i].email);
      if AllWithinCapacity(st.booths) {
        AcceptKeepsCapacity(st.booths, step.state.booths, j, s, st.vols[i].email);
      }
    }
  }

  /** Recording a booth for one of volunteer `i`'s own shifts keeps every
      record within that shift. */
  lemma RecordAddsWithin(vols: seq<Volunteer>, i: nat, s: Shift, name: string)
    requires i < |vols| && s in vols[i].shifts
    ensures AllRecordsWithin(vols, vols[i := Record(vols[i], s, name)], [s])
  {
    var r := vols[i := Record(vols[i], s, name)];
    forall k | 0 <= k < |vols|
      ensures RecordsWithin(vols[k], r[k], [s])
    {
      if k == i {
        assert r[k].boothsPerShift == vols[k].boothsPerShift[s := name];
      }
    }
  }

  /** Appending to one booth's list only grows the booth lists. */
  lemma AcceptGrows(booths: seq<Booth>, r: seq<Booth>, j: nat, s: Shift, e: Email)
    requires j < |booths| && |r| == |booths| && r == booths[j := r[j]]
    requires Accepts(booths[j], r[j], s, e)
    ensures Grows(booths, r)
  {
    forall k, t | 0 <= k < |booths|
      ensures Occupants(booths[k], t) <= Occupants(r[k], t)
    {
      if k == j && t == s {
        assert Occupants(r[k], t) == Occupants(booths[k], t) + [e];
      }
    }
  }

  /** A booth that had room stays within capacity after accepting. */
  lemma AcceptKeepsCapacity(booths: seq<Booth>, r: seq<Booth>, j: nat, s: Shift, e: Email)
    requires j < |booths| && |r| == |booths| && r == booths[j := r[j]]
    requires HasSpace(booths[j], s) && Accepts(booths[j], r[j], s, e)
    requires AllWithinCapacity(booths)
    ensures AllWithinCapacity(r)
  {
    forall k | 0 <= k < |r|
      ensures WithinCapacity(r[k])
    {
      if k == j {
        assert WithinCapacity(booths[k]);
        forall t
          ensures |Occupants(r[k], t)| <= r[k].capacity
        {
          assert |Occupants(booths[k], t)| <= booths[k].capacity;
        }
      }
    }
  }

  lemma GrowsTransitive(a: seq<Booth>, b: seq<Booth>, c: seq<Booth>)
    requires Grows(a, b) && Grows(b, c)
    ensures Grows(a, c)
  {
    forall j, t | 0 <= j < |a|
      ensures Occupants(a[j], t) <= Occupants(c[j], t)
    {
      assert Occupants(a[j], t) <= Occupants(b[j], t);
      assert Occupants(b[j], t) <= Occupants(c[j], t);
    }
  }

  lemma RecordsTransitive(a: seq<Volunteer>, b: seq<Volunteer>, c: seq<Volunteer>, s1: seq<Shift>, s2: seq<Shift>)
    requires AllRecordsWithin(a, b, s1) && AllRecordsWithin(b, c, s2)
    ensures AllRecordsWithin(a, c, s1 + s2)
  {
    forall i | 0 <= i < |a|
      ensures RecordsWithin(a[i], c[i], s1 + s2)
    {
      assert RecordsWithin(a[i], b[i], s1) && RecordsWithin(b[i], c[i], s2);
    }
  }

  lemma CursorChain(c0: int, c1: int, c2: int, k: int, step: int)
    requires k >= 1 && c1 <= c0 + step && c2 <= c1 + (k - 1) * step
    ensures c2 <= c0 + k * step
  {
    MulStep(k, step);
  }

  lemma MulStep(k: int, n: int)
    requires k >= 1
    ensures (k - 1) * n + n == k * n
  {
  }

  /** The outer loop over shift codes, with one candidate order for all. */
  function RunShifts(st: State, shifts: seq<Shift>, order: seq<nat>): (r: State)
    requires IndicesIn(order, |st.vols|)
    decreases |shifts|
    ensures AllRecordsWithin(st.vols, r.vols, shifts)
    ensures Grows(st.booths, r.booths)
    ensures AllWithinCapacity(st.booths) ==> AllWithinCapacity(r.booths)
    ensures st.cursor <= r.cursor <= st.cursor + |shifts| * (|order| * |st.booths|)
    ensures |st.booths| == 0 ==> r == st
  {
    if |shifts| == 0 then
      st
    else
      var next := PlaceAll(st, shifts[0], order);
      assert |next.vols| == |st.vols| && |next.booths| == |st.booths|;
      var r := RunShifts(next, shifts[1..], order);
      var perShift := |order| * |st.booths|;
      assert |order| * |next.booths| == perShift;
      assert shifts == [shifts[0]] + shifts[1..];
      ChainShifts(st, next, r, [shifts[0]], shifts[1..], perShift);
      r
  }

  /** Composes the invariants of one shift's pass with those of the
      remaining shifts. */
  lemma ChainShifts(st: State, next: State, r: State, first: seq<Shift>, rest: seq<Shift>, perShift: nat)
    requires |first| == 1
    requires AllRecordsWithin(st.vols, next.vols, first) && AllRecordsWithin(next.vols, r.vols, rest)
    requires Grows(st.booths, next.booths) && Grows(next.booths, r.booths)
    requires AllWithinCapacity(st.booths) ==> AllWithinCapacity(next.booths)
    requires AllWithinCapacity(next.booths) ==> AllWithinCapacity(r.booths)
    requires st.cursor <= next.cursor <= st.cursor + perShift
    requires next.cursor <= r.cursor <= next.cursor + |rest| * perShift
    ensures AllRecordsWithin(st.vols, r.vols, first + rest)
    ensures Grows(st.booths, r.booths)
    ensures AllWithinCapacity(st.booths) ==> AllWithinCapacity(r.booths)
    ensures st.cursor <= r.cursor <= st.cursor + |first + rest| * perShift
  {
    GrowsTransitive(st.booths, next.booths, r.booths);
    RecordsTransitive(st.vols, next.vols, r.vols, first, rest);
    CursorChain(st.cursor, next.cursor, r.cursor, |first + rest|, perShift);
  }

  /** `assign_booths`: the cursor starts at 0 once per call; shifts 5, 6 and 7
      are handled in that order, each over the name-sorted candidates. Only
      booth entries for those shifts, and only for shifts the volunteer
      signed up for, are added; names, emails, phones and shift sets are
      untouched; booth lists only grow and stay within capacity; the cursor
      moves at most once per booth per candidate per shift. */
  function AssignBooths(vols: seq<Volunteer>, booths: seq<Booth>, keyLe: (NameKey, NameKey) -> bool): (r: State)
    ensures AllRecordsWithin(vols, r.vols, AssignedShifts)
    ensures Grows(booths, r.booths)
    ensures AllWithinCapacity(booths) ==> AllWithinCapacity(r.booths)
    ensures r.cursor <= 3 * (|vols| * |booths|)
    ensures |booths| == 0 ==> r.vols == vols && r.booths == booths && r.cursor == 0
  {
    RunShifts(State(vols, booths, 0), AssignedShifts, SortedOrder(vols, keyLe))
  }

  /** One candidate's scan never tries a booth twice: the booths
      `t % n` for the cursor positions `t` it consumes are pairwise
      different. */
  lemma ScanTriesEachBoothOnce(booths: seq<Booth>, s: Shift, e: Email, cursor: nat)
    ensures var r := Scan(booths, s, e, cursor, 0);
      forall t1, t2 :: cursor <= t1 < t2 < r.cursor ==> t1 % |booths| != t2 % |booths|
  {
    var r := Scan(booths, s, e, cursor, 0);
    forall t1, t2 | cursor <= t1 < t2 < r.cursor
      ensures t1 % |booths| != t2 % |booths|
    {
      DistinctResidues(cursor, |booths|, t1, t2);
    }
  }

  /** `n` consecutive integers have pairwise different residues mod `n`. */
  lemma DistinctResidues(cursor: nat, n: nat, t1: nat, t2: nat)
    requires cursor <= t1 < t2 < cursor + n
    ensures t1 % n != t2 % n
  {
    var q1 := t1 / n;
    var q2 := t2 / n;
    assert t1 == q1 * n + t1 % n;
    assert t2 == q2 * n + t2 % n;
    if t1 % n == t2 % n {
      assert (q2 - q1) * n == t2 - t1;
      if q2 - q1 >= 1 {
        MulAtLeast(q2 - q1, n);
      } else {
        MulNonPositive(q2 - q1, n);
      }
    }
  }

  lemma MulNonPositive(k: int, n: int)
    requires k <= 0 && n >= 0
    ensures k * n <= 0
  {
  }

  // ---------------------------------------------------------------------
  // Nobody is left out while a booth has room
  // ---------------------------------------------------------------------

  /** A booth full for `s` stays full while the booth lists grow. */
  lemma FullStaysFull(bs: seq<Booth>, bs': seq<Booth>, s: Shift)
    requires Grows(bs, bs')
    requires forall j :: 0 <= j < |bs| ==> !HasSpace(bs[j], s)
    ensures forall j :: 0 <= j < |bs'| ==> !HasSpace(bs'[j], s)
  {
    forall j | 0 <= j < |bs'|
      ensures !HasSpace(bs'[j], s)
    {
      assert !HasSpace(bs[j], s);
      assert Occupants(bs[j], s) <= Occupants(bs'[j], s);
    }
  }

  /** Considering a candidate never removes a booth entry. */
  lemma PlaceKeepsEntry(st: State, s: Shift, i: nat, k: nat, t: Shift)
    requires i < |st.vols| && k < |st.vols| && t in st.vols[k].boothsPerShift
    ensures t in Place(st, s, i).state.vols[k].boothsPerShift
  {
  }

  /** One shift's pass never removes a booth entry. */
  lemma {:induction false} PlaceAllKeepsEntry(st: State, s: Shift, order: seq<nat>, k: nat, t: Shift)
    requires IndicesIn(order, |st.vols|) && k < |st.vols| && t in st.vols[k].boothsPerShift
    ensures t in PlaceAll(st, s, order).vols[k].boothsPerShift
    decreases |order|
  {
    if |order| > 0 {
      var next := Place(st, s, order[0]).state;
      PlaceKeepsEntry(st, s, order[0], k, t);
      PlaceAllKeepsEntry(next, s, order[1..], k, t);
    }
  }

  /** The shift loop never removes a booth entry. */
  lemma {:induction false} RunShiftsKeepsEntry(st: State, shifts: seq<Shift>, order: seq<nat>, k: nat, t: Shift)
    requires IndicesIn(order, |st.vols|) && k < |st.vols| && t in st.vols[k].boothsPerShift
    ensures t in RunShifts(st, shifts, order).vols[k].boothsPerShift
    decreases |shifts|
  {
    if |shifts| > 0 {
      var next := PlaceAll(st, shifts[0], order);
      PlaceAllKeepsEntry(st, shifts[0], order, k, t);
      RunShiftsKeepsEntry(next, shifts[1..], order, k, t);
    }
  }

  /** After one shift's pass, the candidate at position `k` of the order,
      if signed up for `s`, holds a booth for `s`, or every booth is full
      for `s`. */
  lemma {:induction false} PlaceAllNoOneLeftWithRoom(st: State, s: Shift, order: seq<nat>, k: nat)
    requires IndicesIn(order, |st.vols|) && k < |order| && s in st.vols[order[k]].shifts
    ensures var r := PlaceAll(st, s, order);
      s in r.vols[order[k]].boothsPerShift || forall j :: 0 <= j < |r.booths| ==> !HasSpace(r.booths[j], s)
    decreases |order|
  {
    if k == 0 {
      PlaceAllFirstNoRoom(st, s, order);
    } else {
      var next := Place(st, s, order[0]).state;
      PlaceKeepsShifts(st, s, order[0], order[k]);
      assert order[1..][k - 1] == order[k];
      PlaceAllNoOneLeftWithRoom(next, s, order[1..], k - 1);
      PlaceAllCons(st, s, order);
    }
  }

  /** One shift's pass is its first placement followed by the rest. */
  lemma PlaceAllCons(st: State, s: Shift, order: seq<nat>)
    requires IndicesIn(order, |st.vols|) && |order| > 0
    ensures PlaceAll(st, s, order) == PlaceAll(Place(st, s, order[0]).state, s, order[1..])
  {
  }

  /** The first candidate of a pass keeps the booth it was given, or found
      every booth full, which stays so for the rest of the pass. */
  lemma PlaceAllFirstNoRoom(st: State, s: Shift, order: seq<nat>)
    requires IndicesIn(order, |st.vols|) && |order| > 0 && s in st.vols[order[0]].shifts
    ensures var r := PlaceAll(st, s, order);
      s in r.vols[order[0]].boothsPerShift || forall j :: 0 <= j < |r.booths| ==> !HasSpace(r.booths[j], s)
  {
    var next := Place(st, s, order[0]).state;
    PlaceAllCons(st, s, order);
    var r := PlaceAll(next, s, order[1..]);
    PlaceLeavesNoRoom(st, s, order[0]);
    if s in next.vols[order[0]].boothsPerShift {
      PlaceAllKeepsEntry(next, s, order[1..], order[0], s);
    } else {
      FullStaysFull(next.booths, r.booths, s);
    }
  }

  /** A candidate signed up for `s` ends with a booth entry for `s`, or
      every booth is full for `s`. */
  lemma PlaceLeavesNoRoom(st: State, s: Shift, i: nat)
    requires i < |st.vols| && s in st.vols[i].shifts
    ensures var r := Place(st, s, i).state;
      s in r.vols[i].boothsPerShift || forall j :: 0 <= j < |r.booths| ==> !HasSpace(r.booths[j], s)
  {
    var step := Place(st, s, i);
    if step.accepted.Some? {
      assert step.state.vols[i] == Record(st.vols[i], s, st.booths[step.accepted.value].name);
    }
  }

  /** Considering a candidate changes nobody's shift set. */
  lemma PlaceKeepsShifts(st: State, s: Shift, i: nat, k: nat)
    requires i < |st.vols| && k < |st.vols|
    ensures Place(st, s, i).state.vols[k].shifts == st.vols[k].shifts
  {
  }

  /** The same across the shift loop, for any shift `s` it handles. */
  lemma {:induction false} RunShiftsNoOneLeftWithRoom(st: State, shifts: seq<Shift>, order: seq<nat>, k: nat, s: Shift)
    requires IndicesIn(order, |st.vols|) && k < |order|
    requires s in shifts && s in st.vols[order[k]].shifts
    ensures var r := RunShifts(st, shifts, order);
      s in r.vols[order[k]].boothsPerShift || forall j :: 0 <= j < |r.booths| ==> !HasSpace(r.booths[j], s)
    decreases |shifts|
  {
    var next := PlaceAll(st, shifts[0], order);
    var r := RunShifts(st, shifts, order);
    assert r == RunShifts(next, shifts[1..], order);
    if shifts[0] == s {
      PlaceAllNoOneLeftWithRoom(st, s, order, k);
      if s in next.vols[order[k]].boothsPerShift {
        RunShiftsKeepsEntry(next, shifts[1..], order, order[k], s);
      } else {
        FullStaysFull(next.booths, r.booths, s);
      }
    } else {
      assert RecordsWithin(st.vols[order[k]], next.vols[order[k]], [shifts[0]]);
      assert s in shifts[1..];
      RunShiftsNoOneLeftWithRoom(next, shifts[1..], order, k, s);
    }
  }

  /** After `assign_booths`, a volunteer signed up for shift 5, 6 or 7 is
      left without a booth for it only if every booth is full for it. */
  lemma AssignBoothsNoOneLeftWithRoom(vols: seq<Volunteer>, booths: seq<Booth>, keyLe: (NameKey, NameKey) -> bool, i: nat, s: Shift)
    requires i < |vols| && s in AssignedShifts && s in vols[i].shifts
    ensures var r := AssignBooths(vols, booths, keyLe);
      s !in r.vols[i].boothsPerShift ==> forall j :: 0 <= j < |r.booths| ==> !HasSpace(r.booths[j], s)
  {
    var order := SortedOrder(vols, keyLe);
    assert i in order;
    var k :| 0 <= k < |order| && order[k] == i;
    RunShiftsNoOneLeftWithRoom(State(vols, booths, 0), AssignedShifts, order, k, s);
  }

  /** In `r`, every volunteer signed up (in `vols`) for shift 5, 6 or 7 either
      holds a booth for it or finds every booth full for it. */
  ghost predicate NoOneLeftWithRoom(vols: seq<Volunteer>, r: State)
    requires |r.vols| <= |vols|
  {
    forall i, s ::
      0 <= i < |r.vols| && s in AssignedShifts && s in vols[i].shifts && s !in r.vols[i].boothsPerShift
      ==> forall j :: 0 <= j < |r.booths| ==> !HasSpace(r.booths[j], s)
  }

  /** The same for every volunteer and assigned shift at once. */
  lemma AssignBoothsLeavesNoOneWithRoom(vols: seq<Volunteer>, booths: seq<Booth>, keyLe: (NameKey, NameKey) -> bool)
    ensures |AssignBooths(vols, booths, keyLe).vols| == |vols|
    ensures NoOneLeftWithRoom(vols, AssignBooths(vols, booths, keyLe))
  {
    var r := AssignBooths(vols, booths, keyLe);
    forall i, s | 0 <= i < |r.vols| && s in AssignedShifts && s in vols[i].shifts && s !in r.vols[i].boothsPerShift
      ensures forall j :: 0 <= j < |r.booths| ==> !HasSpace(r.booths[j], s)
    {
      AssignBoothsNoOneLeftWithRoom(vols, booths, keyLe, i, s);
    }
  }

}
