/** Worked examples of the engine on small rosters. */
module Scenarios {
  import opened Options
  import opened Roster
  import opened BreakRule
  import opened Engine

  function Signup(last: string, email: Email, shifts: set<Shift>): Volunteer
  {
    Volunteer("", last, email, "", shifts, map[])
  }

  /** Orders the three example surnames alphabetically. */
  function Rank(name: string): int
  {
    if name == "Adams" then 0 else if name == "Brown" then 1 else 2
  }

  function ByRank(a: NameKey, b: NameKey): bool
  {
    Rank(a.0) <= Rank(b.0)
  }

  const Adams := Signup("Adams", "a@x.org", {5})
  const Brown := Signup("Brown", "b@x.org", {5})
  const Carter := Signup("Carter", "c@x.org", {5})

  /** A booth of default capacity holding `emails` for shift 5. */
  function Holding(name: string, emails: seq<Email>): Booth
  {
    Booth(name, DefaultCapacity, map[5 := emails])
  }

  lemma AssignToEmpty(name: string, e: Email)
    ensures AssignVolunteer(NewBooth(name), 5, e) == (true, Holding(name, [e]))
  {
    assert NewBooth(name).assignments == map[];
    assert [] + [e] == [e];
    assert map[][5 := [e]] == map[5 := [e]];
  }

  lemma AssignToHolding(name: string, emails: seq<Email>, e: Email)
    requires |emails| < DefaultCapacity
    ensures AssignVolunteer(Holding(name, emails), 5, e) == (true, Holding(name, emails + [e]))
  {
    assert Holding(name, emails).assignments[5 := emails + [e]] == map[5 := emails + [e]];
  }

  lemma ExampleKeys()
    ensures !VolunteerLe(ByRank)(Carter, Adams)
    ensures !VolunteerLe(ByRank)(Carter, Brown)
    ensures VolunteerLe(ByRank)(Adams, Brown)
  {
    var le := VolunteerLe(ByRank);
    assert forall a, b :: le(a, b) == ByRank(NameKeyOf(a), NameKeyOf(b));
    assert NameKeyOf(Adams).0 == "Adams" && NameKeyOf(Brown).0 == "Brown" && NameKeyOf(Carter).0 == "Carter";
    assert Rank("Adams") == 0 && Rank("Brown") >= 1 && Rank("Carter") == 2;
  }

  lemma ExampleInserts()
    ensures Sorting.Insert([(0, Carter)], (1, Adams), VolunteerLe(ByRank)) == [(1, Adams), (0, Carter)]
    ensures Sorting.Insert([(1, Adams), (0, Carter)], (2, Brown), VolunteerLe(ByRank))
      == [(1, Adams), (2, Brown), (0, Carter)]
  {
    var le := VolunteerLe(ByRank);
    ExampleKeys();
    var one: seq<(nat, Volunteer)> := [(0, Carter)];
    assert |one[..0]| == 0;
    assert [(1, Adams), (0, Carter)][..1] == [(1, Adams)];
    assert Sorting.Insert([(1, Adams)], (2, Brown), le) == [(1, Adams), (2, Brown)];
  }

  lemma ExampleSortSteps()
    ensures Sorting.SortBy([(0, Carter)], VolunteerLe(ByRank)) == [(0, Carter)]
    ensures Sorting.SortBy([(0, Carter), (1, Adams)], VolunteerLe(ByRank)) == [(1, Adams), (0, Carter)]
  {
    var one: seq<(nat, Volunteer)> := [(0, Carter)];
    var two: seq<(nat, Volunteer)> := [(0, Carter), (1, Adams)];
    assert |one[..0]| == 0;
    assert two[..1] == one;
    ExampleInserts();
  }

  lemma ExampleSortAll()
    ensures Sorting.SortBy([(0, Carter), (1, Adams), (2, Brown)], VolunteerLe(ByRank))
      == [(1, Adams), (2, Brown), (0, Carter)]
  {
    var three: seq<(nat, Volunteer)> := [(0, Carter), (1, Adams), (2, Brown)];
    assert three[..2] == [(0, Carter), (1, Adams)];
    ExampleSortSteps();
    ExampleInserts();
  }

  lemma ExampleEnumerate()
    ensures Sorting.Enumerate([Carter, Adams, Brown]) == [(0, Carter), (1, Adams), (2, Brown)]
  {
  }

  lemma ExampleEntries()
    ensures SortedEntries([Carter, Adams, Brown], ByRank) == [(1, Adams), (2, Brown), (0, Carter)]
  {
    ExampleEnumerate();
    ExampleSortAll();
  }

  /** The registry is Carter, Adams, Brown; by surname the visiting order is
      Adams, Brown, Carter. */
  lemma ExampleOrder()
    ensures SortedOrder([Carter, Adams, Brown], ByRank) == [1, 2, 0]
  {
    ExampleEntries();
    var order := SortedOrder([Carter, Adams, Brown], ByRank);
    assert order[0] == 1 && order[1] == 2 && order[2] == 0;
  }

  /** The three-candidate roster before shift 5 is processed. */
  const Start := State([Carter, Adams, Brown], [NewBooth("B1"), NewBooth("B2")], 0)

  /** After Adams and after Brown were placed for shift 5. */
  const AfterAdams := State([Carter, Record(Adams, 5, "B1"), Brown], [Holding("B1", ["a@x.org"]), NewBooth("B2")], 1)
  const AfterBrown := State([Carter, Record(Adams, 5, "B1"), Record(Brown, 5, "B2")],
                            [Holding("B1", ["a@x.org"]), Holding("B2", ["b@x.org"])], 2)

  /** The same roster after shift 5: B1 holds Adams and Carter, B2 Brown. */
  const Finish := State([Record(Carter, 5, "B1"), Record(Adams, 5, "B1"), Record(Brown, 5, "B2")],
                        [Holding("B1", ["a@x.org", "c@x.org"]), Holding("B2", ["b@x.org"])], 3)

  lemma ExampleAdams()
    ensures Place(Start, 5, 1) == Step(AfterAdams, Some(0))
  {
    var booths := [NewBooth("B1"), NewBooth("B2")];
    assert PreferredBooth(booths, Adams, 5) == None;
    AssignToEmpty("B1", "a@x.org");
    assert booths[0 := Holding("B1", ["a@x.org"])] == [Holding("B1", ["a@x.org"]), NewBooth("B2")];
    assert Scan(booths, 5, "a@x.org", 0, 0)
      == Placement([Holding("B1", ["a@x.org"]), NewBooth("B2")], 1, Some(0));
  }

  lemma ExampleBrown()
    ensures Place(AfterAdams, 5, 2) == Step(AfterBrown, Some(1))
  {
    var booths := [Holding("B1", ["a@x.org"]), NewBooth("B2")];
    assert PreferredBooth(booths, Brown, 5) == None;
    AssignToEmpty("B2", "b@x.org");
    assert 1 % 2 == 1;
    assert booths[1 := Holding("B2", ["b@x.org"])] == [Holding("B1", ["a@x.org"]), Holding("B2", ["b@x.org"])];
    assert Scan(booths, 5, "b@x.org", 1, 0)
      == Placement([Holding("B1", ["a@x.org"]), Holding("B2", ["b@x.org"])], 2, Some(1));
  }

  lemma ExampleCarter()
    ensures Place(AfterBrown, 5, 0) == Step(Finish, Some(0))
  {
    var booths := [Holding("B1", ["a@x.org"]), Holding("B2", ["b@x.org"])];
    assert PreferredBooth(booths, Carter, 5) == None;
    assert 2 % 2 == 0;
    AssignToHolding("B1", ["a@x.org"], "c@x.org");
    assert ["a@x.org"] + ["c@x.org"] == ["a@x.org", "c@x.org"];
    assert booths[0 := Holding("B1", ["a@x.org", "c@x.org"])] == [Holding("B1", ["a@x.org", "c@x.org"]), Holding("B2", ["b@x.org"])];
    assert Scan(booths, 5, "c@x.org", 2, 0)
      == Placement([Holding("B1", ["a@x.org", "c@x.org"]), Holding("B2", ["b@x.org"])], 3, Some(0));
  }

  lemma ExampleShiftFive()
    ensures PlaceAll(Start, 5, [1, 2, 0]) == Finish
  {
    ExampleAdams();
    ExampleBrown();
    ExampleCarter();
    var o: seq<nat> := [1, 2, 0];
    assert o[1..] == [2, 0] && o[1..][1..] == [0];
  }

  lemma ExampleLaterShifts()
    ensures RunShifts(Finish, [6, 7], [1, 2, 0]) == Finish
  {
    NoCandidatesRun(Finish, [6, 7], [1, 2, 0]);
  }

  /** Two booths, cursor at 0, candidates Adams, Brown and Carter for shift
      5 (registered as Carter, Adams, Brown): the cursor moves past each
      accepting booth, so Adams gets the first booth, Brown the second and
      Carter the first again, and the cursor ends at 3. */
  lemma RoundRobinSpreadsFallbacks()
    ensures var r := AssignBooths([Carter, Adams, Brown], [NewBooth("B1"), NewBooth("B2")], ByRank);
      && r.vols == [Record(Carter, 5, "B1"), Record(Adams, 5, "B1"), Record(Brown, 5, "B2")]
      && r.booths == [Holding("B1", ["a@x.org", "c@x.org"]), Holding("B2", ["b@x.org"])]
      && r.cursor == 3
  {
    ExampleOrder();
    ExampleShiftFive();
    ExampleLaterShifts();
    var sh: seq<Shift> := [5, 6, 7];
    assert sh[1..] == [6, 7];
    assert RunShifts(Start, AssignedShifts, [1, 2, 0]) == Finish;
  }

  /** A shift nobody signed up for changes nothing. */
  lemma {:induction false} NoCandidates(st: State, s: Shift, order: seq<nat>)
    requires IndicesIn(order, |st.vols|)
    requires forall i :: 0 <= i < |st.vols| ==> s !in st.vols[i].shifts
    ensures PlaceAll(st, s, order) == st
    decreases |order|
  {
    if |order| > 0 {
      NoCandidates(st, s, order[1..]);
    }
  }

  /** Shifts nobody signed up for change nothing. */
  lemma {:induction false} NoCandidatesRun(st: State, shifts: seq<Shift>, order: seq<nat>)
    requires IndicesIn(order, |st.vols|)
    requires forall i, t :: 0 <= i < |st.vols| && t in shifts ==> t !in st.vols[i].shifts
    ensures RunShifts(st, shifts, order) == st
    decreases |shifts|
  {
    if |shifts| > 0 {
      assert shifts[0] in shifts;
      NoCandidates(st, shifts[0], order);
      forall i, t | 0 <= i < |st.vols| && t in shifts[1..]
        ensures t !in st.vols[i].shifts
      {
        assert t in shifts;
      }
      NoCandidatesRun(st, shifts[1..], order);
    }
  }

  const Ann := Signup("Adams", "a@x.org", {5})
  const Bob := Signup("Brown", "b@x.org", {5, 6})

  lemma ContinuitySort()
    ensures Sorting.SortBy([(0, Ann), (1, Bob)], VolunteerLe(ByRank)) == [(0, Ann), (1, Bob)]
  {
    var le := VolunteerLe(ByRank);
    assert forall a, b :: le(a, b) == ByRank(NameKeyOf(a), NameKeyOf(b));
    assert le(Ann, Bob);
    var one: seq<(nat, Volunteer)> := [(0, Ann)];
    var two: seq<(nat, Volunteer)> := [(0, Ann), (1, Bob)];
    assert |one[..0]| == 0 && two[..1] == one;
    assert Sorting.SortBy(one, le) == one;
  }

  lemma ContinuityOrder()
    ensures SortedOrder([Ann, Bob], ByRank) == [0, 1]
  {
    assert Sorting.Enumerate([Ann, Bob]) == [(0, Ann), (1, Bob)];
    ContinuitySort();
    assert SortedEntries([Ann, Bob], ByRank) == [(0, Ann), (1, Bob)];
    var order := SortedOrder([Ann, Bob], ByRank);
    assert order[0] == 0 && order[1] == 1;
  }

  /** The continuity roster before any shift, after Adams's shift-5
      placement, after shift 5, and after all three shifts. */
  /** Brown with booth B12 recorded for shifts 5 and 6. */
  const BobStays := Volunteer("", "Brown", "b@x.org", "", {5, 6}, map[5 := "B12", 6 := "B12"])
  const ContinuityStart := State([Ann, Bob], [NewBooth("B11"), NewBooth("B12")], 0)
  const ContinuityAfterAnn := State([Record(Ann, 5, "B11"), Bob], [Holding("B11", ["a@x.org"]), NewBooth("B12")], 1)
  const ContinuityMid := State([Record(Ann, 5, "B11"), Record(Bob, 5, "B12")],
    [Holding("B11", ["a@x.org"]), Holding("B12", ["b@x.org"])], 2)
  const ContinuityEnd := State([Record(Ann, 5, "B11"), BobStays],
    [Holding("B11", ["a@x.org"]), Booth("B12", DefaultCapacity, map[5 := ["b@x.org"], 6 := ["b@x.org"]])], 2)

  lemma ContinuityAnnFive()
    ensures Place(ContinuityStart, 5, 0) == Step(ContinuityAfterAnn, Some(0))
  {
    var b0 := [NewBooth("B11"), NewBooth("B12")];
    AssignToEmpty("B11", "a@x.org");
    assert PreferredBooth(b0, Ann, 5) == None;
    assert b0[0 := Holding("B11", ["a@x.org"])] == ContinuityAfterAnn.booths;
    assert Scan(b0, 5, "a@x.org", 0, 0) == Placement(ContinuityAfterAnn.booths, 1, Some(0));
  }

  lemma ContinuityBobFive()
    ensures Place(ContinuityAfterAnn, 5, 1) == Step(ContinuityMid, Some(1))
  {
    var b1 := ContinuityAfterAnn.booths;
    AssignToEmpty("B12", "b@x.org");
    assert PreferredBooth(b1, Bob, 5) == None;
    assert 1 % 2 == 1;
    assert b1[1 := Holding("B12", ["b@x.org"])] == ContinuityMid.booths;
    assert Scan(b1, 5, "b@x.org", 1, 0) == Placement(ContinuityMid.booths, 2, Some(1));
  }

  /** Shift 5 by round robin: Adams to B11, Brown to B12. */
  lemma ContinuityShiftFive()
    ensures PlaceAll(ContinuityStart, 5, [0, 1]) == ContinuityMid
  {
    ContinuityAnnFive();
    ContinuityBobFive();
    var o: seq<nat> := [0, 1];
    assert o[1..] == [1];
  }

  /** Brown's shift-5 booth B12 has room for shift 6, so Brown stays there
      and the cursor does not move. */
  lemma ContinuityBobSix()
    ensures Place(ContinuityMid, 6, 1) == Step(ContinuityEnd, Some(1))
  {
    var b2 := ContinuityMid.booths;
    var b3 := ContinuityEnd.booths;
    var bob := Record(Bob, 5, "B12");
    assert bob.boothsPerShift == map[5 := "B12"];
    assert FirstNamed(b2, "B12") == Some(1);
    assert PreferredBooth(b2, bob, 6) == Some(1);
    assert Occupants(b2[1], 6) == [];
    assert [] + ["b@x.org"] == ["b@x.org"];
    assert b2[1].assignments == map[5 := ["b@x.org"]];
    assert map[5 := ["b@x.org"]][6 := ["b@x.org"]] == map[5 := ["b@x.org"], 6 := ["b@x.org"]];
    assert AssignVolunteer(b2[1], 6, "b@x.org") == (true, b3[1]);
    assert b2[1 := b3[1]] == b3;
    assert map[5 := "B12"][6 := "B12"] == map[5 := "B12", 6 := "B12"];
    assert Record(bob, 6, "B12") == BobStays;
  }

  /** Shift 6: Adams did not sign up; Brown keeps booth B12. */
  lemma ContinuityShiftSix()
    ensures PlaceAll(ContinuityMid, 6, [0, 1]) == ContinuityEnd
  {
    ContinuityBobSix();
    assert Place(ContinuityMid, 6, 0) == Step(ContinuityMid, None);
    var o: seq<nat> := [0, 1];
    assert o[1..] == [1];
  }

  /** Nobody signed up for shift 7. */
  lemma ContinuityShiftSeven()
    ensures RunShifts(ContinuityEnd, [7], [0, 1]) == ContinuityEnd
  {
    NoCandidatesRun(ContinuityEnd, [7], [0, 1]);
  }

  lemma ContinuityLaterShifts()
    ensures RunShifts(ContinuityMid, [6, 7], [0, 1]) == ContinuityEnd
  {
    ContinuityShiftSix();
    ContinuityShiftSeven();
    var sh: seq<Shift> := [6, 7];
    assert sh[1..] == [7];
  }

  lemma ContinuityRun()
    ensures RunShifts(ContinuityStart, AssignedShifts, [0, 1]) == ContinuityEnd
  {
    ContinuityShiftFive();
    ContinuityLaterShifts();
    var sh: seq<Shift> := [5, 6, 7];
    assert sh[1..] == [6, 7];
  }

  /** A volunteer placed in booth B12 for shift 5 and signed up for shift 6
      is placed in B12 again while it has room, and the cursor does not
      move for that placement. */
  lemma ContinuityKeepsBooth()
    ensures var r := AssignBooths([Ann, Bob], [NewBooth("B11"), NewBooth("B12")], ByRank);
      && r.vols[1].boothsPerShift == map[5 := "B12", 6 := "B12"]
      && Occupants(r.booths[1], 6) == ["b@x.org"]
      && r.cursor == 2
  {
    ContinuityOrder();
    ContinuityRun();
  }

  /** One booth B1 and three candidates for shift 5, before and after each
      placement. */
  const Crowd := [Adams, Brown, Carter]
  const CrowdStart := State(Crowd, [NewBooth("B1")], 0)
  const CrowdOne := State([Record(Adams, 5, "B1"), Brown, Carter], [Holding("B1", ["a@x.org"])], 1)
  const CrowdTwo := State([Record(Adams, 5, "B1"), Record(Brown, 5, "B1"), Carter],
                          [Holding("B1", ["a@x.org", "b@x.org"])], 2)

  lemma CrowdFirst()
    ensures Place(CrowdStart, 5, 0) == Step(CrowdOne, Some(0))
  {
    AssignToEmpty("B1", "a@x.org");
    assert PreferredBooth([NewBooth("B1")], Adams, 5) == None;
    assert 0 % 1 == 0;
    assert Scan([NewBooth("B1")], 5, "a@x.org", 0, 0) == Placement(CrowdOne.booths, 1, Some(0));
  }

  lemma CrowdSecond()
    ensures Place(CrowdOne, 5, 1) == Step(CrowdTwo, Some(0))
  {
    AssignToHolding("B1", ["a@x.org"], "b@x.org");
    assert ["a@x.org"] + ["b@x.org"] == ["a@x.org", "b@x.org"];
    assert PreferredBooth(CrowdOne.booths, Brown, 5) == None;
    assert 1 % 1 == 0;
    assert Scan(CrowdOne.booths, 5, "b@x.org", 1, 0) == Placement(CrowdTwo.booths, 2, Some(0));
  }

  /** B1 is full: one attempt, the cursor moves on, and Carter gets no booth. */
  lemma CrowdThird()
    ensures Place(CrowdTwo, 5, 2) == Step(CrowdTwo.(cursor := 3), None)
  {
    assert Occupants(CrowdTwo.booths[0], 5) == ["a@x.org", "b@x.org"];
    assert !HasSpace(CrowdTwo.booths[0], 5);
    assert PreferredBooth(CrowdTwo.booths, Carter, 5) == None;
    assert 2 % 1 == 0;
    assert Scan(CrowdTwo.booths, 5, "c@x.org", 2, 0) == Placement(CrowdTwo.booths, 3, None);
  }

  lemma CrowdRun()
    ensures PlaceAll(CrowdStart, 5, [0, 1, 2]) == CrowdTwo.(cursor := 3)
  {
    CrowdFirst();
    CrowdSecond();
    CrowdThird();
    var o: seq<nat> := [0, 1, 2];
    assert o[1..] == [1, 2] && o[1..][1..] == [2];
  }

  /** One booth of capacity 2 and three candidates for shift 5: the third
      is left unassigned after one full scan. */
  lemma FullBoothLeavesLastUnassigned()
    ensures var r := PlaceAll(CrowdStart, 5, [0, 1, 2]);
      && Occupants(r.booths[0], 5) == ["a@x.org", "b@x.org"]
      && 5 !in r.vols[2].boothsPerShift
      && r.cursor == 3
  {
    CrowdRun();
  }

  /** Signed up for 5, 6, 7 and 8, a volunteer loses only 8 and remains a
      candidate for 5, 6 and 7. */
  lemma BreakDropsCleanup()
    ensures BreakOne(Signup("Anders", "alice@x.org", {5, 6, 7, 8})).shifts == {5, 6, 7}
  {
    var v := Signup("Anders", "alice@x.org", {5, 6, 7, 8});
    assert |v.shifts| == 4;
    assert MaxShift(v.shifts) == 8;
  }

}
