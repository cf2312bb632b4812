# Fall carnival booth roster, modelled in Dafny

This project models the booth-assignment core of the fall carnival roster
tool (`main.py`). Volunteers sign up in one or more signup files for shift
codes 4 (setup), 5, 6 and 7 (the three working shifts) and 8 (cleanup).
The tool then runs three steps:

1. It merges the files by email.
2. It applies the break rule: anyone with four or more codes gives up the
   latest one.
3. It assigns booths for shifts 5, 6 and 7.

Booths take two volunteers per shift. For each shift, candidates are
visited in a stable sort by last and then first name. A candidate first
tries the booth recorded for the previous shift code. Otherwise a
round-robin scan runs from a cursor that is shared by all candidates and
shifts.

Layout:

- `options.dfy`: `Option`.
- `roster.dfy`: `Volunteer` and `Booth`; `add_shift`, `remove_shift`,
  `assign_volunteer` and `has_space`.
- `merge.dfy`: the merge loop in `main`, plus a reference definition of
  the merged registry.
- `break_rule.dfy`: `apply_break_rule`.
- `sorting.dfy`: a stable insertion sort on (position, item) pairs.
- `engine.dfy`: `assign_booths`. One candidate is handled by `Place`, one
  shift by `PlaceAll`, and the shift loop by `RunShifts`.
- `slots.dfy`: the invariant that links booth lists and recorded booth
  names.
- `pipeline.dfy`: merge, then the break rule, then assignment, as `main`
  runs them.
- `scenarios.dfy`: worked examples on small rosters.

Modelling choices:

- The volunteer dict is a sequence in insertion order, keyed by email.
  The engine addresses volunteers by index. This mirrors the shared
  Python objects: the sorted list and the dict hold the same
  `Volunteer`s.
- The booth-list cursor `booth_index` is an unbounded `nat`, as Python
  integers are. The booth tried is `cursor % n`.
- The lower-cased sort key is abstracted. The model takes a comparison
  `keyLe` on (last, first) name pairs, and the ordering lemmas assume it
  is a total preorder.
- A shift never probed in a booth's `defaultdict` reads as an empty list.

Two consequences of the code are worth spelling out:

- Round robin. The cursor advances past the accepting booth
  (main.py:278-280). With two booths, the cursor at 0 and candidates
  Adams, Brown and Carter, Adams gets B1, Brown B2 and Carter B1
  (`Scenarios.RoundRobinSpreadsFallbacks`).
- Break rule. The rule removes one code only (main.py:240-242), so a
  volunteer with all five codes keeps four (`BreakRule.AtMostFourAfterBreak`).

## Model

| member | source | states |
|---|---|---|
| Roster.AddShift | main.py:91-92 | the shift is in the new set; every other shift's membership, the booth map, names, email and phone are unchanged |
| Roster.RemoveShift | main.py:94-97 | the shift leaves the set and its booth entry is dropped; every other shift and booth entry, and the profile, are unchanged |
| Roster.RemoveUndoesAdd | main.py:91-97 | removing a shift that was just added, and was absent before, gives back the original volunteer |
| Roster.AssignVolunteer | main.py:111-115 | succeeds exactly when the shift's list is shorter than the capacity; on success the email is appended at the end and no other shift changes; on failure the booth is unchanged; a booth within capacity stays within capacity |
| Roster.HasSpaceIffAssignSucceeds | main.py:111-118 | `has_space` holds exactly when `assign_volunteer` would accept |
| Roster.NewBooth | main.py:104-109 | a new booth has capacity 2 and an empty list for every shift |
| Roster.FullShiftRejects | main.py:111-118 | in a booth within capacity, a shift without space holds exactly `capacity` emails and rejects any email without change |
| BreakRule.MaxShift | main.py:241 | the chosen code is in the set and at least every code in it |
| BreakRule.BreakOne | main.py:239-242 | below 4 codes the volunteer is untouched; at 4 or more the count drops by exactly one, the removed code is the maximum and loses its booth entry, and every other code is kept, as is every booth entry other than the removed code's, including entries for shifts the volunteer is not signed up for |
| BreakRule.ApplyBreakRule | main.py:235-242 | every registry entry, in place and in order, gets the rule applied once |
| BreakRule.AtMostFourAfterBreak | main.py:235-242 | with codes from 4 to 8, at most four remain; all five become {4, 5, 6, 7} |
| BreakRule.BreakIdempotentBelowThreshold | main.py:240 | a volunteer with at most four codes is unaffected by a second application |
| Sorting.SortSorted | main.py:253-256 | the sort's output is ordered by the comparison |
| Sorting.SortTiesInOrder | main.py:253-256 | the sort is stable: items with equal keys keep their input order |
| Sorting.SortKeepsPositionsDistinct | main.py:253-256 | the output holds every input position once |
| Engine.SortedEntries | main.py:253-256 | the sorted registry is a permutation of the enumerated registry: each index once, with its own volunteer |
| Engine.SortedOrder | main.py:253-256 | the visiting order lists every registry index exactly once |
| Engine.SortedOrderByName | main.py:253-256 | candidates are visited in ascending (last, first) key order, and equal keys in registry insertion order |
| Engine.FirstNamed | main.py:266-270 | finds the first booth with the name, or reports that no booth has it |
| Engine.PreferredBooth | main.py:264-270 | continuity is attempted only if a non-empty name is recorded for the previous code; it targets the first booth of that name |
| Engine.Scan | main.py:276-283 | tries booths `cursor % n` onward, each attempt advancing the cursor; stops at the first booth with space, which gets the email appended; the accepting booth is `(cursor' - 1) % n`; every booth passed over was full; at most n attempts; without success the booths are unchanged and the cursor moved by n |
| Engine.ScanTriesEachBoothOnce | main.py:276-280 | the booths one candidate's scan tries, `t % n` for each cursor position it consumes, are pairwise different: no booth is tried twice |
| Engine.EveryBoothTried | main.py:276-283 | n consecutive cursor positions, all full, cover every booth |
| Engine.Place | main.py:259-283 | a volunteer without the shift is skipped; if continuity applies, the preferred booth takes the volunteer and the cursor does not move; otherwise the round robin places them; if nobody accepted, every booth was full and only the cursor moved, by n; an accepted placement appends the email to one booth and records that booth's name for the shift, with nothing else changed |
| Engine.PlaceAll | main.py:259-283 | one shift's pass: booth entries are added only for that shift and only for volunteers signed up for it; booth lists only grow; capacity is kept; the cursor moves at most n per candidate; with no booths nothing changes |
| Engine.RunShifts | main.py:258-283 | the shift loop: the same invariants over the listed shifts, with the cursor carried from shift to shift |
| Engine.AssignBooths | main.py:247-283 | entries only for shifts 5, 6 and 7 the volunteer signed up for; profiles and shift sets unchanged; booth lists only grow; capacity kept; the cursor ends at most 3 * volunteers * booths; no booths means no change |
| Engine.PlaceAllNoOneLeftWithRoom | main.py:259-283 | after one shift's pass, every visited candidate signed up for the shift holds a booth entry for it, or every booth is full for it |
| Engine.RunShiftsNoOneLeftWithRoom | main.py:258-283 | the same after the shift loop, for every shift the loop handles: later shifts neither remove entries nor free slots |
| Engine.AssignBoothsNoOneLeftWithRoom | main.py:258-283 | after `assign_booths`, a volunteer signed up for shift 5, 6 or 7 is without a booth for it only if every booth is full for that shift |
| Slots.SlotCountAfterAccept | main.py:111-115 | one acceptance adds exactly one slot, for that shift and email |
| Slots.PlaceKeepsSlots | main.py:271-282 | with distinct emails, considering a candidate who has no booth yet for the shift keeps the invariant that each volunteer holds one slot per shift with a recorded booth and none for any other shift: a name is recorded exactly when that booth accepted the email |
| Slots.AssignBoothsOneSlotPerShift | main.py:258-282 | after assignment, each volunteer holds one slot for each shift with a recorded booth, none for any other shift, and never two slots of one shift |
| Slots.AssignBoothsRecordsHolders | main.py:271-282 | every recorded booth name names a booth whose list for that shift holds the volunteer |
| Slots.FreshAssignment | main.py:247-283 | on loader output (no entries, empty booths), both invariants hold after assignment, and entries exist only for shifts 5, 6 and 7 the volunteer signed up for |
| Merge.IndexOfEmail | main.py:387 | finds the registry position of an email, or reports that it is absent |
| Merge.MergeRecordSpec | main.py:386-393 | a known email gains the record's shifts in place; an unknown one is appended unchanged; emails stay distinct |
| Merge.MergeAllSpec | main.py:383-393 | the merged registry has one entry per email found in any file and no other; each entry is that email's first record with the union of all of its shift sets; entries are ordered by first appearance |
| Pipeline.RegistryBeforeAssignment | main.py:383-396 | the registry handed to assignment has distinct emails, no booth entries, and the merged shift sets reduced by the break rule |
| Pipeline.RunSpec | main.py:383-399 | the whole run keeps every booth within capacity, links slots and records one to one, records booths only for shifts 5, 6 and 7 that survived the break rule, and leaves a volunteer still signed up for one of those shifts without a booth only when every booth is full for it |
| Scenarios.RoundRobinSpreadsFallbacks | main.py:276-283 | two booths, candidates Adams, Brown, Carter for shift 5: Adams and Carter end in booth 1, Brown in booth 2, and the cursor at 3 |
| Scenarios.ContinuityKeepsBooth | main.py:264-273 | with booths B11 and B12, the second candidate lands in B12 for shift 5 by round robin and is placed in B12 again for shift 6 by continuity; the cursor ends at 2, moved only by the two round-robin placements |
| Scenarios.FullBoothLeavesLastUnassigned | main.py:276-283 | with one booth and three candidates for shift 5, the first two fill the booth, the third gets no booth entry, and the cursor ends at 3 |
| Scenarios.BreakDropsCleanup | main.py:239-242 | a volunteer signed up for 5, 6, 7 and 8 loses only 8 |

## Left out

- Engine.PlaceAll, Engine.RunShifts, Engine.AssignBooths: their own
  contracts carry the preserved invariants only. That a signed-up
  candidate is left without a booth only when every booth is full is
  stated per candidate and shift by the `NoOneLeftWithRoom` lemmas. A
  quantified form over all candidates on the functions themselves is too
  costly to prove.
- CSV reading and writing, `sys.exit`, logging, `print` reporting and
  argv handling in `main`. These are file and console I/O. The loaders'
  output is a parameter instead: `Pipeline.LoaderRecords` and
  `Pipeline.LoaderBooths` describe it.
- `EMAIL_REGEX`, `SHIFT_MAP`, and the stripping and lower-casing in
  `parse_signup_data`. This is input validation with Python's `re` and
  string methods. Shift codes are plain integers, and
  `BreakRule.KnownCodes` states the 4..8 range where a lemma needs it.
- The per-file dict that `parse_signup_data` builds. It follows the same
  rule as the merge in `main`: the first record wins and shifts are
  unioned. So each file is modelled as its sequence of records, with
  duplicates allowed.
- Unicode `str.lower()` in the sort key. It is replaced by the comparison
  `keyLe`, and the ordering properties assume `keyLe` is a total preorder.
  Ties keep insertion order because Python's `sorted` is stable.
- `Booth.formatted`, `__str__`, `__repr__`, the unfilled-booths report and
  the filled-slot count. These only format output.
- The `defaultdict` side effect: probing a shift stores an empty list.
  Missing and empty lists are treated as the same.
- `get_list_of_volunteers.py` is not part of this model. It only counts
  distinct emails read from files.
- `Booth.capacity_per_shift` is modelled as an arbitrary integer. Only
  `NewBooth` fixes it to 2, as the loader does.
