/** Tutor search by availability and the per-teacher schedule grouping:
    `find_available_tutors` returns the distinct tutors with a slot on a
    day that contains a desired window, and
    `get_availability_grouped_by_time` collects one teacher's slots into
    one group per time frame, listing the days of each. */
module Utils {
  import opened Wrappers
  import opened Models

  // ---------------------------------------------------------------------
  // find_available_tutors
  // ---------------------------------------------------------------------

  /** The slot lies on `day` and contains the window [start, end]; both
      ends are inclusive. */
  predicate Covers(s: Slot, day: Day, start: Time, end: Time)
  {
    s.day == day && s.start <= start && s.end >= end
  }

  /** The query `filter(days_of_week=day, start_time__lte=start, end_time__gte=end)`:
      the covering slots, in table order. */
  function CoveringSlots(slots: seq<Slot>, day: Day, start: Time, end: Time): (r: seq<Slot>)
    ensures forall s :: s in r <==> s in slots && Covers(s, day, start, end)
  {
    if slots == [] then []
    else (if Covers(slots[0], day, start, end) then [slots[0]] else []) + CoveringSlots(slots[1..], day, start, end)
  }

  /** The query keeps table order: filtering a concatenation is
      concatenating the filtered parts. */
  lemma {:induction false} CoveringSlotsKeepsOrder(a: seq<Slot>, b: seq<Slot>, day: Day, start: Time, end: Time)
    ensures CoveringSlots(a + b, day, start, end) == CoveringSlots(a, day, start, end) + CoveringSlots(b, day, start, end)
    decreases |a|
  {
    if a == [] {
      assert a + b == b;
    } else {
      assert (a + b)[1..] == a[1..] + b;
      CoveringSlotsKeepsOrder(a[1..], b, day, start, end);
    }
  }

  /** The query keeps multiplicity: a covering slot occurs in the result
      as often as in the table, and no other slot occurs. */
  lemma {:induction false} CoveringSlotsCounts(a: seq<Slot>, day: Day, start: Time, end: Time)
    ensures forall s :: multiset(CoveringSlots(a, day, start, end))[s] == if Covers(s, day, start, end) then multiset(a)[s] else 0
    decreases |a|
  {
    if a != [] {
      var r := CoveringSlots(a, day, start, end);
      var tail := CoveringSlots(a[1..], day, start, end);
      var head := if Covers(a[0], day, start, end) then [a[0]] else [];
      CoveringSlotsCounts(a[1..], day, start, end);
      assert a == [a[0]] + a[1..];
      assert multiset(a) == multiset{a[0]} + multiset(a[1..]);
      assert r == head + tail;
      assert multiset(r) == multiset(head) + multiset(tail);
      forall s: Slot ensures multiset(r)[s] == if Covers(s, day, start, end) then multiset(a)[s] else 0 {
        assert multiset(r)[s] == multiset(head)[s] + multiset(tail)[s];
        assert multiset(a)[s] == multiset{a[0]}[s] + multiset(a[1..])[s];
      }
    }
  }

  /** The tutors the search should find: none for an empty or reversed
      window, otherwise every tutor owning a covering slot. */
  ghost function AvailableTutors(slots: seq<Slot>, day: Day, start: Time, end: Time): set<TeacherId>
  {
    if start >= end then {} else set s | s in slots && Covers(s, day, start, end) :: s.tutor
  }

  /** `list(found_tutors)`: the members of a set, each once, in some order. */
  method ListOf(found: set<TeacherId>) returns (r: seq<TeacherId>)
    ensures forall t :: t in r <==> t in found
    ensures Distinct(r)
  {
    r := [];
    var rest := found;
    while rest != {}
      invariant rest <= found
      invariant forall t :: t in r <==> t in found - rest
      invariant Distinct(r)
      decreases |rest|
    {
      var t :| t in rest;
      r := r + [t];
      rest := rest - {t};
    }
  }

  /** `find_available_tutors`: a tutor is listed exactly when one of their
      slots lies on the day and contains the window, and no tutor is listed
      twice. A reversed or empty window finds nobody. */
  method FindAvailableTutors(slots: seq<Slot>, day: Day, start: Time, end: Time) returns (tutors: seq<TeacherId>)
    ensures start >= end ==> tutors == []
    ensures forall t :: t in tutors <==> t in AvailableTutors(slots, day, start, end)
    ensures Distinct(tutors)
  {
    if start >= end {
      return [];
    }
    var available := CoveringSlots(slots, day, start, end);
    var found: set<TeacherId> := {};
    for i := 0 to |available|
      invariant found == set s | s in available[..i] :: s.tutor
    {
      assert available[..i + 1] == available[..i] + [available[i]];
      found := found + {available[i].tutor};
    }
    assert available[..|available|] == available;
    tutors := ListOf(found);
  }

  /** Worked case: a Monday 09:00-12:00 slot serves a 10:00-11:00 search
      but not an 08:00-11:00 one. */
  lemma MondayMorningExample(tutor: TeacherId)
    ensures tutor in AvailableTutors([Slot(tutor, MON, 540, 720)], MON, 600, 660)
    ensures tutor !in AvailableTutors([Slot(tutor, MON, 540, 720)], MON, 480, 660)
    ensures tutor !in AvailableTutors([Slot(tutor, MON, 540, 720)], TUE, 600, 660)
  {
    assert Slot(tutor, MON, 540, 720) in [Slot(tutor, MON, 540, 720)];
  }

  /** Containment is inclusive: a slot equal to the window qualifies, one
      that starts a minute late does not. */
  lemma InclusiveContainment(tutor: TeacherId, day: Day, start: Time, end: Time)
    requires start < end && start + 1 < MinutesPerDay
    ensures tutor in AvailableTutors([Slot(tutor, day, start, end)], day, start, end)
    ensures tutor !in AvailableTutors([Slot(tutor, day, start + 1, end)], day, start, end)
  {
    assert Slot(tutor, day, start, end) in [Slot(tutor, day, start, end)];
  }

  /** A tutor found for a window is found for every non-empty window inside it. */
  lemma NarrowerWindowKeepsTutor(slots: seq<Slot>, day: Day, start: Time, end: Time, start': Time, end': Time, t: TeacherId)
    requires t in AvailableTutors(slots, day, start, end)
    requires start <= start' < end' <= end
    ensures t in AvailableTutors(slots, day, start', end')
  {
    var s :| s in slots && Covers(s, day, start, end) && s.tutor == t;
    assert Covers(s, day, start', end');
  }

  // ---------------------------------------------------------------------
  // get_availability_grouped_by_time
  // ---------------------------------------------------------------------

  /** The time frame a group is keyed on. The source keys on the string
      `"<start>-<end>"`, which determines the pair and back. */
  datatype TimeKey = TimeKey(start: Time, end: Time)

  /** One entry of the result: a time frame and the days it is offered on. */
  datatype Group = Group(start: Time, end: Time, days: seq<Day>)

  function KeyOf(s: Slot): TimeKey
  {
    TimeKey(s.start, s.end)
  }

  /** The query `filter(tutor=teacher)`: that teacher's slots, in table order. */
  function SlotsOf(slots: seq<Slot>, teacher: TeacherId): (r: seq<Slot>)
    ensures forall s :: s in r <==> s in slots && s.tutor == teacher
  {
    if slots == [] then []
    else (if slots[0].tutor == teacher then [slots[0]] else []) + SlotsOf(slots[1..], teacher)
  }

  /** The query keeps table order: filtering a concatenation is
      concatenating the filtered parts. */
  lemma {:induction false} SlotsOfKeepsOrder(a: seq<Slot>, b: seq<Slot>, teacher: TeacherId)
    ensures SlotsOf(a + b, teacher) == SlotsOf(a, teacher) + SlotsOf(b, teacher)
    decreases |a|
  {
    if a == [] {
      assert a + b == b;
    } else {
      assert (a + b)[1..] == a[1..] + b;
      SlotsOfKeepsOrder(a[1..], b, teacher);
    }
  }

  /** The query keeps multiplicity: each of the teacher's slots occurs in
      the result as often as in the table, and no other slot occurs. */
  lemma {:induction false} SlotsOfCounts(a: seq<Slot>, teacher: TeacherId)
    ensures forall s :: multiset(SlotsOf(a, teacher))[s] == if s.tutor == teacher then multiset(a)[s] else 0
    decreases |a|
  {
    if a != [] {
      var r := SlotsOf(a, teacher);
      var tail := SlotsOf(a[1..], teacher);
      var head := if a[0].tutor == teacher then [a[0]] else [];
      SlotsOfCounts(a[1..], teacher);
      assert a == [a[0]] + a[1..];
      assert multiset(a) == multiset{a[0]} + multiset(a[1..]);
      assert r == head + tail;
      assert multiset(r) == multiset(head) + multiset(tail);
      forall s: Slot ensures multiset(r)[s] == if s.tutor == teacher then multiset(a)[s] else 0 {
        assert multiset(r)[s] == multiset(head)[s] + multiset(tail)[s];
        assert multiset(a)[s] == multiset{a[0]}[s] + multiset(a[1..])[s];
      }
    }
  }

  /** Some slot has time frame `k`. */
  predicate FrameOffered(slots: seq<Slot>, k: TimeKey)
  {
    exists i :: 0 <= i < |slots| && KeyOf(slots[i]) == k
  }

  /** The distinct time frames of `slots`, in order of first occurrence
      (the insertion order of the dictionary the source builds). */
  function DistinctKeys(slots: seq<Slot>): (r: seq<TimeKey>)
    ensures Distinct(r)
    ensures forall k :: k in r <==> FrameOffered(slots, k)
  {
    if slots == [] then []
    else
      var before := slots[..|slots| - 1];
      var prev := DistinctKeys(before);
      var k := KeyOf(slots[|slots| - 1]);
      assert forall i :: 0 <= i < |before| ==> before[i] == slots[i];
      assert forall k' :: FrameOffered(slots, k') <==> FrameOffered(before, k') || k' == k;
      if k in prev then prev else prev + [k]
  }

  /** The days of the slots with time frame `k`, in slot order. */
  function DaysFor(slots: seq<Slot>, k: TimeKey): seq<Day>
  {
    if slots == [] then []
    else
      var last := slots[|slots| - 1];
      DaysFor(slots[..|slots| - 1], k) + (if KeyOf(last) == k then [last.day] else [])
  }

  /** The intended result: one group per distinct time frame, in order of
      first occurrence, each listing the days of its slots. */
  function Grouping(slots: seq<Slot>): seq<Group>
  {
    var keys := DistinctKeys(slots);
    seq(|keys|, i requires 0 <= i < |keys| => Group(keys[i].start, keys[i].end, DaysFor(slots, keys[i])))
  }

  lemma DistinctKeysSnoc(slots: seq<Slot>, x: Slot)
    ensures DistinctKeys(slots + [x])
            == if KeyOf(x) in DistinctKeys(slots) then DistinctKeys(slots) else DistinctKeys(slots) + [KeyOf(x)]
  {
    assert (slots + [x])[..|slots|] == slots;
  }

  lemma DaysForSnoc(slots: seq<Slot>, x: Slot, k: TimeKey)
    ensures DaysFor(slots + [x], k) == DaysFor(slots, k) + (if KeyOf(x) == k then [x.day] else [])
  {
    assert (slots + [x])[..|slots|] == slots;
  }

  /** `list(grouped.values())`: the groups in the insertion order of their keys. */
  method ValuesInOrder(grouped: map<TimeKey, Group>, order: seq<TimeKey>) returns (result: seq<Group>)
    requires forall k :: k in order ==> k in grouped
    ensures |result| == |order|
    ensures forall m :: 0 <= m < |order| ==> result[m] == grouped[order[m]]
  {
    result := [];
    for j := 0 to |order|
      invariant |result| == j
      invariant forall m :: 0 <= m < j ==> result[m] == grouped[order[m]]
    {
      result := result + [grouped[order[j]]];
    }
  }

  /** The dictionary and its key order after the slots `seen`: the keys are
      the distinct frames in first-occurrence order, and each group holds
      the days of its frame. */
  ghost predicate Accumulated(grouped: map<TimeKey, Group>, order: seq<TimeKey>, seen: seq<Slot>)
  {
    && order == DistinctKeys(seen)
    && (forall k :: k in grouped <==> k in order)
    && (forall k :: k in grouped ==> grouped[k] == Group(k.start, k.end, DaysFor(seen, k)))
  }

  /** One step of the grouping loop keeps the dictionary in step with the
      slots seen so far. */
  lemma AccumulateSlot(grouped: map<TimeKey, Group>, order: seq<TimeKey>, seen: seq<Slot>, slot: Slot)
    requires Accumulated(grouped, order, seen)
    ensures var key := KeyOf(slot);
            var g := if key in grouped then grouped[key] else Group(slot.start, slot.end, []);
            Accumulated(grouped[key := g.(days := g.days + [slot.day])],
                        if key in grouped then order else order + [key], seen + [slot])
  {
    var key := KeyOf(slot);
    var g := if key in grouped then grouped[key] else Group(slot.start, slot.end, []);
    var grouped' := grouped[key := g.(days := g.days + [slot.day])];
    DistinctKeysSnoc(seen, slot);
    forall k | k in grouped' ensures grouped'[k] == Group(k.start, k.end, DaysFor(seen + [slot], k)) {
      DaysForSnoc(seen, slot, k);
      if k == key && key !in grouped {
        assert !FrameOffered(seen, key);
        DaysForAbsent(seen, key);
      }
    }
  }

  /** `get_availability_grouped_by_time`, reading each slot's
      `days_of_week`: builds the dictionary of groups slot by slot and
      returns its values in insertion order. */
  method GroupByTime(table: seq<Slot>, teacher: TeacherId) returns (result: seq<Group>)
    ensures result == Grouping(SlotsOf(table, teacher))
  {
    var slots := SlotsOf(table, teacher);
    var grouped: map<TimeKey, Group> := map[];
    var order: seq<TimeKey> := [];
    for i := 0 to |slots|
      invariant Accumulated(grouped, order, slots[..i])
    {
      assert slots[..i + 1] == slots[..i] + [slots[i]];
      grouped, order := AddSlot(grouped, order, slots[..i], slots[i]);
    }
    assert slots[..|slots|] == slots;
    result := ValuesInOrder(grouped, order);
    AccumulatedIsGrouping(grouped, order, slots);
  }

  /** The loop body: files `slot` under its time frame, creating the group
      with no days the first time the frame is seen. */
  method AddSlot(grouped: map<TimeKey, Group>, order: seq<TimeKey>, ghost seen: seq<Slot>, slot: Slot)
    returns (grouped': map<TimeKey, Group>, order': seq<TimeKey>)
    requires Accumulated(grouped, order, seen)
    ensures Accumulated(grouped', order', seen + [slot])
  {
    var key := KeyOf(slot);
    AccumulateSlot(grouped, order, seen, slot);
    var group := if key in grouped then grouped[key] else Group(slot.start, slot.end, []);
    order' := order;
    if key !in grouped {
      order' := order + [key];
    }
    grouped' := grouped[key := group.(days := group.days + [slot.day])];
  }

  /** The dictionary accumulated over all slots, read in key order, is the
      grouping. */
  lemma AccumulatedIsGrouping(grouped: map<TimeKey, Group>, order: seq<TimeKey>, slots: seq<Slot>)
    requires Accumulated(grouped, order, slots)
    ensures |order| == |Grouping(slots)|
    ensures forall m :: 0 <= m < |order| ==> grouped[order[m]] == Grouping(slots)[m]
  {
  }

  /** The frame of group `g`. */
  function GroupKey(g: Group): TimeKey
  {
    TimeKey(g.start, g.end)
  }

  /** Some group has time frame `k`. */
  predicate FrameGrouped(groups: seq<Group>, k: TimeKey)
  {
    exists i :: 0 <= i < |groups| && GroupKey(groups[i]) == k
  }

  /** Exactly one group per distinct (start, end) pair among the slots. */
  lemma OneGroupPerTimeFrame(slots: seq<Slot>)
    ensures forall i, j :: 0 <= i < j < |Grouping(slots)| ==> GroupKey(Grouping(slots)[i]) != GroupKey(Grouping(slots)[j])
    ensures forall k :: FrameGrouped(Grouping(slots), k) <==> FrameOffered(slots, k)
  {
    var keys := DistinctKeys(slots);
    var g := Grouping(slots);
    assert forall i :: 0 <= i < |g| ==> GroupKey(g[i]) == keys[i];
    forall k | FrameOffered(slots, k) ensures FrameGrouped(g, k) {
      assert k in keys;
      var i :| 0 <= i < |keys| && keys[i] == k;
      assert GroupKey(g[i]) == k;
    }
  }

  /** Sum of the day counts of a list of groups. */
  function DayCount(groups: seq<Group>): nat
  {
    if groups == [] then 0 else DayCount(groups[..|groups| - 1]) + |groups[|groups| - 1].days|
  }

  /** Sum over the frames `keys` of the number of days filed under each. */
  function DayTotal(slots: seq<Slot>, keys: seq<TimeKey>): nat
  {
    if keys == [] then 0 else DayTotal(slots, keys[..|keys| - 1]) + |DaysFor(slots, keys[|keys| - 1])|
  }

  /** Appending slot `x` adds one day to the total over any list of distinct
      frames that contains its frame, and none to one that does not. */
  lemma {:induction false} DayTotalStep(slots: seq<Slot>, x: Slot, keys: seq<TimeKey>)
    requires Distinct(keys)
    ensures DayTotal(slots + [x], keys) == DayTotal(slots, keys) + (if KeyOf(x) in keys then 1 else 0)
  {
    var s' := slots + [x];
    assert s'[..|s'| - 1] == slots;
    if keys != [] {
      var init := keys[..|keys| - 1];
      var k := keys[|keys| - 1];
      assert Distinct(init);
      DayTotalStep(slots, x, init);
      assert KeyOf(x) in keys <==> KeyOf(x) in init || KeyOf(x) == k;
      assert KeyOf(x) == k ==> KeyOf(x) !in init;
    }
  }

  /** A frame that no slot has collects no days. */
  lemma {:induction false} DaysForAbsent(slots: seq<Slot>, k: TimeKey)
    requires forall i :: 0 <= i < |slots| ==> KeyOf(slots[i]) != k
    ensures DaysFor(slots, k) == []
  {
    if slots != [] {
      var before := slots[..|slots| - 1];
      assert forall i :: 0 <= i < |before| ==> before[i] == slots[i];
      DaysForAbsent(before, k);
    }
  }

  /** Over the distinct frames of the slots, every slot is counted once. */
  lemma {:induction false} DayTotalIsSlotCount(slots: seq<Slot>)
    ensures DayTotal(slots, DistinctKeys(slots)) == |slots|
  {
    if slots != [] {
      var before := slots[..|slots| - 1];
      var x := slots[|slots| - 1];
      assert slots == before + [x];
      var prev := DistinctKeys(before);
      DayTotalIsSlotCount(before);
      DayTotalStep(before, x, prev);
      if KeyOf(x) !in prev {
        var keys := prev + [KeyOf(x)];
        assert keys[..|keys| - 1] == prev;
        assert forall i :: 0 <= i < |before| ==> KeyOf(before[i]) != KeyOf(x);
        DaysForAbsent(before, KeyOf(x));
        assert DaysFor(slots, KeyOf(x)) == [x.day];
      }
    }
  }

  /** The day count of groups built from a list of frames is the day total
      over those frames. */
  lemma {:induction false} DayCountOfGroups(slots: seq<Slot>, keys: seq<TimeKey>)
    ensures DayCount(seq(|keys|, i requires 0 <= i < |keys| => Group(keys[i].start, keys[i].end, DaysFor(slots, keys[i]))))
            == DayTotal(slots, keys)
  {
    var g := seq(|keys|, i requires 0 <= i < |keys| => Group(keys[i].start, keys[i].end, DaysFor(slots, keys[i])));
    if keys != [] {
      var init := keys[..|keys| - 1];
      DayCountOfGroups(slots, init);
      var g' := seq(|init|, i requires 0 <= i < |init| => Group(init[i].start, init[i].end, DaysFor(slots, init[i])));
      assert g[..|g| - 1] == g';
    }
  }

  /** Each slot contributes exactly one day entry: the day counts over all
      groups add up to the number of slots. */
  lemma DayEntriesMatchSlots(slots: seq<Slot>)
    ensures DayCount(Grouping(slots)) == |slots|
  {
    DayCountOfGroups(slots, DistinctKeys(slots));
    DayTotalIsSlotCount(slots);
  }

  /** The days of a group are exactly those of the slots with its frame:
      a day entry appears in the group of its own slot's frame. */
  lemma {:induction false} DaysForMembers(slots: seq<Slot>, k: TimeKey, d: Day)
    ensures d in DaysFor(slots, k) <==> exists i :: 0 <= i < |slots| && KeyOf(slots[i]) == k && slots[i].day == d
  {
    if slots != [] {
      var before := slots[..|slots| - 1];
      assert forall i :: 0 <= i < |before| ==> before[i] == slots[i];
      DaysForMembers(before, k, d);
      var last := slots[|slots| - 1];
      if KeyOf(last) == k && last.day == d {
        assert DaysFor(slots, k) == DaysFor(before, k) + [d];
      }
    }
  }

  /** Groups appear in the order their frame first occurs: every slot with
      the frame of a later group comes after some slot with the frame of
      an earlier one. */
  lemma {:induction false} GroupsInFirstOccurrenceOrder(slots: seq<Slot>, a: nat, b: nat, p: nat)
    requires a < b < |DistinctKeys(slots)|
    requires p < |slots| && KeyOf(slots[p]) == DistinctKeys(slots)[b]
    ensures exists q :: 0 <= q < p && KeyOf(slots[q]) == DistinctKeys(slots)[a]
  {
    var before := slots[..|slots| - 1];
    var prev := DistinctKeys(before);
    var keys := DistinctKeys(slots);
    var k := KeyOf(slots[|slots| - 1]);
    assert forall i :: 0 <= i < |before| ==> before[i] == slots[i];
    if k in prev {
      assert keys == prev;
      if p < |before| {
        GroupsInFirstOccurrenceOrder(before, a, b, p);
      } else {
        assert keys[b] in prev;
        var p' :| 0 <= p' < |before| && KeyOf(before[p']) == keys[b];
        GroupsInFirstOccurrenceOrder(before, a, b, p');
      }
    } else {
      assert keys == prev + [k];
      if b < |prev| {
        if p < |before| {
          GroupsInFirstOccurrenceOrder(before, a, b, p);
        } else {
          assert false;
        }
      } else {
        assert keys[a] == prev[a];
        assert prev[a] in prev;
        var q :| 0 <= q < |before| && KeyOf(before[q]) == prev[a];
        if p < |before| {
          assert false;
        }
      }
    }
  }

  // ---------------------------------------------------------------------
  // The attribute the source reads
  // ---------------------------------------------------------------------

  /** Attribute lookup on a slot for the day field: only `days_of_week` exists. */
  function DayAttribute(s: Slot, name: string): (r: Option<Day>)
    ensures r.Some? <==> name == "days_of_week"
  {
    if name == "days_of_week" then Some(s.day) else None
  }

  /** The grouping when each slot's day is read through attribute `name`:
      the first slot whose lookup fails raises, so the result is `None`. */
  function GroupingReading(slots: seq<Slot>, name: string): (r: Option<seq<Group>>)
    ensures r.Some? ==> r.value == Grouping(slots)
  {
    if exists i :: 0 <= i < |slots| && DayAttribute(slots[i], name).None? then None else Some(Grouping(slots))
  }

  /** As written the grouping reads `day_of_week`, which slots do not have:
      it raises for every teacher with at least one slot. */
  lemma GroupingAsWrittenFails(slots: seq<Slot>)
    requires slots != []
    ensures GroupingReading(slots, "day_of_week") == None
  {
    assert DayAttribute(slots[0], "day_of_week").None?;
  }

  /** Reading `days_of_week` gives the intended grouping. */
  lemma GroupingCorrected(slots: seq<Slot>)
    ensures GroupingReading(slots, "days_of_week") == Some(Grouping(slots))
  {
  }
}
