/**
 * The doctor list of the booking screen: the clinic listing (one entry per
 * doctor with that doctor's free slots) regrouped by slot, each slot listing
 * the doctors free then, and the slots shown in ascending time order.
 */
module DoctorList {
  import opened WorkingCalendar
  import Tables

  /** One doctor's entry as the clinic listing delivers it. */
  datatype AvailableSlot = AvailableSlot(doctorId: int, firstName: string, lastName: string, specialty: string, availableSlots: seq<Instant>)

  /** A JavaScript `Map` from slot to doctors: its keys in insertion order, and its contents. */
  datatype SlotMap = SlotMap(keys: seq<Instant>, groups: map<Instant, seq<AvailableSlot>>)

  predicate Distinct(s: seq<Instant>)
  {
    forall i, j :: 0 <= i < j < |s| ==> s[i] != s[j]
  }

  /** The key list holds each key of the map exactly once. */
  predicate WellFormed(m: SlotMap)
  {
    Distinct(m.keys) && (forall k :: k in m.groups ==> k in m.keys) && (forall k :: k in m.keys ==> k in m.groups)
  }

  /** `slotsMap.get(slot)`, with a missing key read as no doctors. */
  function Get(groups: map<Instant, seq<AvailableSlot>>, k: Instant): seq<AvailableSlot>
  {
    if k in groups then groups[k] else []
  }

  /** One step of the inner loop: create the slot's group when missing, then append the doctor to it. */
  function Push(m: SlotMap, slot: Instant, doctor: AvailableSlot): (r: SlotMap)
    ensures WellFormed(m) ==> WellFormed(r)
    ensures forall k :: Get(r.groups, k) == Get(m.groups, k) + (if k == slot then [doctor] else [])
    ensures forall k :: k in r.groups <==> k in m.groups || k == slot
  {
    var pending := if slot in m.groups then m else SlotMap(m.keys + [slot], m.groups[slot := []]);
    SlotMap(pending.keys, pending.groups[slot := pending.groups[slot] + [doctor]])
  }

  /** The inner loop over one doctor's slots, in order. */
  function PushAll(m: SlotMap, doctor: AvailableSlot, slots: seq<Instant>): SlotMap
  {
    if |slots| == 0 then m
    else Push(PushAll(m, doctor, slots[..|slots| - 1]), slots[|slots| - 1], doctor)
  }

  /** The map the two loops build from the doctors, in order. */
  function Grouped(doctors: seq<AvailableSlot>): SlotMap
  {
    if |doctors| == 0 then SlotMap([], map[])
    else
      var last := doctors[|doctors| - 1];
      PushAll(Grouped(doctors[..|doctors| - 1]), last, last.availableSlots)
  }

  /** How many times `k` occurs in `s`. */
  function Count(s: seq<Instant>, k: Instant): nat
  {
    if |s| == 0 then 0 else Count(s[..|s| - 1], k) + (if s[|s| - 1] == k then 1 else 0)
  }

  function Repeat(d: AvailableSlot, n: nat): (r: seq<AvailableSlot>)
    ensures |r| == n
  {
    if n == 0 then [] else Repeat(d, n - 1) + [d]
  }

  /** Reference definition of a slot's group: each doctor, in input order, once per time the slot occurs in that doctor's list. */
  function Occurrences(doctors: seq<AvailableSlot>, k: Instant): seq<AvailableSlot>
  {
    if |doctors| == 0 then []
    else
      var last := doctors[|doctors| - 1];
      Occurrences(doctors[..|doctors| - 1], k) + Repeat(last, Count(last.availableSlots, k))
  }

  /** Some doctor offers slot `k`. */
  predicate Offered(doctors: seq<AvailableSlot>, k: Instant)
  {
    exists i :: 0 <= i < |doctors| && k in doctors[i].availableSlots
  }

  lemma {:induction false} PushAllWellFormed(m: SlotMap, doctor: AvailableSlot, slots: seq<Instant>)
    requires WellFormed(m)
    ensures WellFormed(PushAll(m, doctor, slots))
  {
    if |slots| > 0 {
      PushAllWellFormed(m, doctor, slots[..|slots| - 1]);
    }
  }

  lemma {:induction false} PushAllKey(m: SlotMap, doctor: AvailableSlot, slots: seq<Instant>, k: Instant)
    ensures k in PushAll(m, doctor, slots).groups <==> k in m.groups || k in slots
  {
    if |slots| > 0 {
      var init := slots[..|slots| - 1];
      PushAllKey(m, doctor, init, k);
      assert slots == init + [slots[|slots| - 1]];
    }
  }

  lemma {:induction false} PushAllGroup(m: SlotMap, doctor: AvailableSlot, slots: seq<Instant>, k: Instant)
    ensures Get(PushAll(m, doctor, slots).groups, k) == Get(m.groups, k) + Repeat(doctor, Count(slots, k))
  {
    if |slots| > 0 {
      var init := slots[..|slots| - 1];
      var last := slots[|slots| - 1];
      var prev := PushAll(m, doctor, init);
      PushAllGroup(m, doctor, init, k);
      assert Get(PushAll(m, doctor, slots).groups, k) == Get(prev.groups, k) + (if k == last then [doctor] else []);
      if last == k {
        var before := Get(m.groups, k);
        var reps := Repeat(doctor, Count(init, k));
        assert Repeat(doctor, Count(slots, k)) == reps + [doctor];
        assert (before + reps) + [doctor] == before + (reps + [doctor]);
      } else {
        assert Count(slots, k) == Count(init, k);
      }
    }
  }

  /** The inner loop keeps the map well formed, adds exactly the doctor's slots as keys, and adds the doctor once per occurrence. */
  lemma PushAllFacts(m: SlotMap, doctor: AvailableSlot, slots: seq<Instant>)
    ensures WellFormed(m) ==> WellFormed(PushAll(m, doctor, slots))
    ensures forall k :: k in PushAll(m, doctor, slots).groups <==> k in m.groups || k in slots
    ensures forall k :: Get(PushAll(m, doctor, slots).groups, k) == Get(m.groups, k) + Repeat(doctor, Count(slots, k))
  {
    if WellFormed(m) {
      PushAllWellFormed(m, doctor, slots);
    }
    forall k ensures k in PushAll(m, doctor, slots).groups <==> k in m.groups || k in slots {
      PushAllKey(m, doctor, slots, k);
    }
    forall k ensures Get(PushAll(m, doctor, slots).groups, k) == Get(m.groups, k) + Repeat(doctor, Count(slots, k)) {
      PushAllGroup(m, doctor, slots, k);
    }
  }

  /** The map after the loops: well formed, keyed by exactly the offered slots, each slot's group being its occurrences. */
  lemma {:induction false} GroupedFacts(doctors: seq<AvailableSlot>)
    ensures WellFormed(Grouped(doctors))
    ensures forall k :: k in Grouped(doctors).groups <==> Offered(doctors, k)
    ensures forall k :: Get(Grouped(doctors).groups, k) == Occurrences(doctors, k)
  {
    if |doctors| > 0 {
      var init := doctors[..|doctors| - 1];
      var last := doctors[|doctors| - 1];
      GroupedFacts(init);
      PushAllFacts(Grouped(init), last, last.availableSlots);
      forall k ensures Offered(doctors, k) <==> Offered(init, k) || k in last.availableSlots {
        if Offered(doctors, k) {
          var i :| 0 <= i < |doctors| && k in doctors[i].availableSlots;
          if i < |init| {
            assert init[i] == doctors[i];
          }
        }
        if Offered(init, k) {
          var i :| 0 <= i < |init| && k in init[i].availableSlots;
          assert doctors[i] == init[i];
        }
      }
    }
  }

  lemma {:induction false} CountPositive(s: seq<Instant>, k: Instant)
    ensures Count(s, k) > 0 <==> k in s
  {
    if |s| > 0 {
      CountPositive(s[..|s| - 1], k);
      assert s == s[..|s| - 1] + [s[|s| - 1]];
    }
  }

  lemma {:induction false} CountAtMostOne(s: seq<Instant>, k: Instant)
    requires Distinct(s)
    ensures Count(s, k) <= 1
  {
    if |s| > 0 {
      var init := s[..|s| - 1];
      CountAtMostOne(init, k);
      if s[|s| - 1] == k {
        CountPositive(init, k);
      }
    }
  }

  /** The slot test the grouping amounts to when no doctor lists a slot twice. */
  function Offers(k: Instant): AvailableSlot -> bool
  {
    (d: AvailableSlot) => k in d.availableSlots
  }

  /** No doctor lists the same slot twice, as holds for the clinic listing's strictly ascending slot lists. */
  predicate NoRepeatedSlots(doctors: seq<AvailableSlot>)
  {
    forall i :: 0 <= i < |doctors| ==> Distinct(doctors[i].availableSlots)
  }

  lemma FilterOne(d: AvailableSlot, k: Instant)
    ensures Tables.Filter([d], Offers(k)) == if k in d.availableSlots then [d] else []
  {
    assert [d][1..] == [];
  }

  lemma RepeatOnce(last: AvailableSlot, k: Instant)
    requires Distinct(last.availableSlots)
    ensures Repeat(last, Count(last.availableSlots, k)) == if k in last.availableSlots then [last] else []
  {
    CountAtMostOne(last.availableSlots, k);
    CountPositive(last.availableSlots, k);
    if k in last.availableSlots {
      assert Repeat(last, 1) == [] + [last];
    }
  }

  /** Without repeated slots, a slot's group is exactly the doctors offering it, in input order. */
  lemma {:induction false} OccurrencesIsFilter(doctors: seq<AvailableSlot>, k: Instant)
    requires NoRepeatedSlots(doctors)
    ensures Occurrences(doctors, k) == Tables.Filter(doctors, Offers(k))
  {
    if |doctors| > 0 {
      var init := doctors[..|doctors| - 1];
      var last := doctors[|doctors| - 1];
      assert NoRepeatedSlots(init) by {
        forall i | 0 <= i < |init| ensures Distinct(init[i].availableSlots) {
          assert init[i] == doctors[i];
        }
      }
      OccurrencesIsFilter(init, k);
      assert doctors == init + [last];
      Tables.FilterAppend(init, [last], Offers(k));
      FilterOne(last, k);
      RepeatOnce(last, k);
    }
  }

  /** The number of doctor entries across the groups, summed over the key list. */
  function SumGroups(keys: seq<Instant>, groups: map<Instant, seq<AvailableSlot>>): nat
  {
    if |keys| == 0 then 0 else |Get(groups, keys[0])| + SumGroups(keys[1..], groups)
  }

  lemma {:induction false} SumGroupsAppend(keys: seq<Instant>, x: Instant, groups: map<Instant, seq<AvailableSlot>>)
    ensures SumGroups(keys + [x], groups) == SumGroups(keys, groups) + |Get(groups, x)|
  {
    if |keys| > 0 {
      assert (keys + [x])[1..] == keys[1..] + [x];
      SumGroupsAppend(keys[1..], x, groups);
    } else {
      assert [x][1..] == [];
    }
  }

  lemma {:induction false} SumGroupsUpdate(keys: seq<Instant>, groups: map<Instant, seq<AvailableSlot>>, x: Instant, v: seq<AvailableSlot>)
    requires Distinct(keys)
    ensures SumGroups(keys, groups[x := v]) + (if x in keys then |Get(groups, x)| else 0)
      == SumGroups(keys, groups) + (if x in keys then |v| else 0)
  {
    if |keys| > 0 {
      SumGroupsUpdate(keys[1..], groups, x, v);
      assert x in keys <==> x == keys[0] || x in keys[1..];
      if x == keys[0] {
        assert x !in keys[1..];
      }
    }
  }

  /** The doctor entries in the map, summed over its keys. */
  function EntryCount(m: SlotMap): nat
  {
    SumGroups(m.keys, m.groups)
  }

  lemma PushAddsOne(m: SlotMap, slot: Instant, doctor: AvailableSlot)
    requires WellFormed(m)
    ensures EntryCount(Push(m, slot, doctor)) == EntryCount(m) + 1
  {
    if slot in m.groups {
      SumGroupsUpdate(m.keys, m.groups, slot, m.groups[slot] + [doctor]);
    } else {
      var g := m.groups[slot := [doctor]];
      assert [] + [doctor] == [doctor];
      assert m.groups[slot := []][slot := [doctor]] == g;
      assert Push(m, slot, doctor) == SlotMap(m.keys + [slot], g);
      SumGroupsAppend(m.keys, slot, g);
      SumGroupsUpdate(m.keys, m.groups, slot, [doctor]);
    }
  }

  lemma {:induction false} PushAllAdds(m: SlotMap, doctor: AvailableSlot, slots: seq<Instant>)
    requires WellFormed(m)
    ensures EntryCount(PushAll(m, doctor, slots)) == EntryCount(m) + |slots|
  {
    if |slots| > 0 {
      var init := slots[..|slots| - 1];
      PushAllAdds(m, doctor, init);
      PushAllFacts(m, doctor, init);
      PushAddsOne(PushAll(m, doctor, init), slots[|slots| - 1], doctor);
    }
  }

  /** The sum of the lengths of all doctors' slot lists. */
  function SlotTotal(doctors: seq<AvailableSlot>): nat
  {
    if |doctors| == 0 then 0 else SlotTotal(doctors[..|doctors| - 1]) + |doctors[|doctors| - 1].availableSlots|
  }

  lemma {:induction false} GroupedCount(doctors: seq<AvailableSlot>)
    ensures EntryCount(Grouped(doctors)) == SlotTotal(doctors)
  {
    if |doctors| > 0 {
      var init := doctors[..|doctors| - 1];
      var last := doctors[|doctors| - 1];
      GroupedCount(init);
      GroupedFacts(init);
      PushAllAdds(Grouped(init), last, last.availableSlots);
    }
  }

  predicate StrictlyAscending(s: seq<Instant>)
  {
    forall i, j :: 0 <= i < j < |s| ==> s[i] < s[j]
  }

  /** Place `x` among strictly ascending, distinct keys. */
  function Insert(x: Instant, s: seq<Instant>): (r: seq<Instant>)
    requires StrictlyAscending(s) && x !in s
    ensures StrictlyAscending(r)
    ensures |r| == |s| + 1
    ensures forall y :: y in r <==> y == x || y in s
  {
    if |s| == 0 then [x]
    else if x < s[0] then [x] + s
    else
      var rest := Insert(x, s[1..]);
      assert forall i :: 0 <= i < |rest| ==> s[0] < rest[i] by {
        forall i | 0 <= i < |rest| ensures s[0] < rest[i] {
          assert rest[i] in rest;
          if rest[i] != x {
            var j :| 0 <= j < |s[1..]| && s[1..][j] == rest[i];
            assert s[j + 1] == rest[i];
          }
        }
      }
      [s[0]] + rest
  }

  /** The entry sort: the distinct keys in ascending time order, each still once. */
  function Sort(keys: seq<Instant>): (r: seq<Instant>)
    requires Distinct(keys)
    ensures StrictlyAscending(r)
    ensures |r| == |keys|
    ensures forall y :: y in r <==> y in keys
  {
    if |keys| == 0 then []
    else
      var init := keys[..|keys| - 1];
      assert keys == init + [keys[|keys| - 1]];
      Insert(keys[|keys| - 1], Sort(init))
  }

  lemma {:induction false} SumGroupsInsert(x: Instant, s: seq<Instant>, groups: map<Instant, seq<AvailableSlot>>)
    requires StrictlyAscending(s) && x !in s
    ensures SumGroups(Insert(x, s), groups) == SumGroups(s, groups) + |Get(groups, x)|
  {
    if |s| > 0 && x >= s[0] {
      SumGroupsInsert(x, s[1..], groups);
      assert ([s[0]] + Insert(x, s[1..]))[1..] == Insert(x, s[1..]);
    } else if |s| > 0 {
      assert ([x] + s)[1..] == s;
    } else {
      assert [x][1..] == [];
    }
  }

  lemma {:induction false} SumGroupsSort(keys: seq<Instant>, groups: map<Instant, seq<AvailableSlot>>)
    requires Distinct(keys)
    ensures SumGroups(Sort(keys), groups) == SumGroups(keys, groups)
  {
    if |keys| > 0 {
      var init := keys[..|keys| - 1];
      var x := keys[|keys| - 1];
      assert keys == init + [x];
      SumGroupsSort(init, groups);
      SumGroupsInsert(x, Sort(init), groups);
      SumGroupsAppend(init, x, groups);
    }
  }

  /** `Array.from(slotsMap.entries())` taken in the given key order. */
  function Entries(keys: seq<Instant>, groups: map<Instant, seq<AvailableSlot>>): (r: seq<(Instant, seq<AvailableSlot>)>)
    ensures |r| == |keys|
    ensures forall i :: 0 <= i < |r| ==> r[i] == (keys[i], Get(groups, keys[i]))
  {
    if |keys| == 0 then [] else [(keys[0], Get(groups, keys[0]))] + Entries(keys[1..], groups)
  }

  /** The number of doctor entries across all returned groups. */
  function TotalEntries(entries: seq<(Instant, seq<AvailableSlot>)>): nat
  {
    if |entries| == 0 then 0 else |entries[0].1| + TotalEntries(entries[1..])
  }

  lemma {:induction false} TotalEntriesOf(keys: seq<Instant>, groups: map<Instant, seq<AvailableSlot>>)
    ensures TotalEntries(Entries(keys, groups)) == SumGroups(keys, groups)
  {
    if |keys| > 0 {
      TotalEntriesOf(keys[1..], groups);
      assert Entries(keys, groups)[1..] == Entries(keys[1..], groups);
    }
  }

  /** What `organizeAppointmentsBySlot` returns: the map's entries sorted by slot. */
  function Organized(doctors: seq<AvailableSlot>): seq<(Instant, seq<AvailableSlot>)>
  {
    var m := Grouped(doctors);
    GroupedFacts(doctors);
    Entries(Sort(m.keys), m.groups)
  }

  /** Some entry of the result is for slot `k`. */
  predicate ListsSlot(entries: seq<(Instant, seq<AvailableSlot>)>, k: Instant)
  {
    exists i :: 0 <= i < |entries| && entries[i].0 == k
  }

  /** The result's slots are strictly ascending, so no slot is listed twice. */
  lemma OrganizedAscending(doctors: seq<AvailableSlot>)
    ensures forall i, j :: 0 <= i < j < |Organized(doctors)| ==> Organized(doctors)[i].0 < Organized(doctors)[j].0
  {
    GroupedFacts(doctors);
    var m := Grouped(doctors);
    assert Organized(doctors) == Entries(Sort(m.keys), m.groups);
  }

  /** The result lists a slot exactly when some doctor offers it. */
  lemma OrganizedSlots(doctors: seq<AvailableSlot>)
    ensures forall k :: ListsSlot(Organized(doctors), k) <==> Offered(doctors, k)
  {
    GroupedFacts(doctors);
    var m := Grouped(doctors);
    var sorted := Sort(m.keys);
    var r := Organized(doctors);
    assert r == Entries(sorted, m.groups);
    forall k ensures ListsSlot(r, k) <==> Offered(doctors, k) {
      if Offered(doctors, k) {
        assert k in m.keys;
        var i :| 0 <= i < |sorted| && sorted[i] == k;
        assert r[i].0 == k;
      }
      if ListsSlot(r, k) {
        var i :| 0 <= i < |r| && r[i].0 == k;
        assert sorted[i] in sorted;
      }
    }
  }

  /** Each slot's doctors are that slot's occurrences, in input order. */
  lemma OrganizedGroups(doctors: seq<AvailableSlot>)
    ensures forall i :: 0 <= i < |Organized(doctors)| ==> Organized(doctors)[i].1 == Occurrences(doctors, Organized(doctors)[i].0)
  {
    GroupedFacts(doctors);
    var m := Grouped(doctors);
    assert Organized(doctors) == Entries(Sort(m.keys), m.groups);
  }

  /** Every slot occurrence in the input yields exactly one doctor entry in the result. */
  lemma OrganizedTotal(doctors: seq<AvailableSlot>)
    ensures TotalEntries(Organized(doctors)) == SlotTotal(doctors)
  {
    GroupedFacts(doctors);
    var m := Grouped(doctors);
    TotalEntriesOf(Sort(m.keys), m.groups);
    SumGroupsSort(m.keys, m.groups);
    GroupedCount(doctors);
  }

  /** organizeAppointmentsBySlot: fill the map doctor by doctor and slot by slot, then sort its entries by slot. */
  method OrganizeAppointmentsBySlot(appointments: seq<AvailableSlot>) returns (entries: seq<(Instant, seq<AvailableSlot>)>)
    ensures entries == Organized(appointments)
    ensures forall i, j :: 0 <= i < j < |entries| ==> entries[i].0 < entries[j].0
    ensures forall k :: ListsSlot(entries, k) <==> Offered(appointments, k)
    ensures forall i :: 0 <= i < |entries| ==> entries[i].1 == Occurrences(appointments, entries[i].0)
    ensures TotalEntries(entries) == SlotTotal(appointments)
  {
    var keys: seq<Instant> := [];
    var slotsMap: map<Instant, seq<AvailableSlot>> := map[];
    for i := 0 to |appointments|
      invariant SlotMap(keys, slotsMap) == Grouped(appointments[..i])
    {
      var doctor := appointments[i];
      ghost var before := SlotMap(keys, slotsMap);
      for j := 0 to |doctor.availableSlots|
        invariant SlotMap(keys, slotsMap) == PushAll(before, doctor, doctor.availableSlots[..j])
      {
        var slot := doctor.availableSlots[j];
        assert doctor.availableSlots[..j + 1][..j] == doctor.availableSlots[..j];
        if slot !in slotsMap {
          keys := keys + [slot];
          slotsMap := slotsMap[slot := []];
        }
        slotsMap := slotsMap[slot := slotsMap[slot] + [doctor]];
      }
      assert doctor.availableSlots[..|doctor.availableSlots|] == doctor.availableSlots;
      assert appointments[..i + 1][..i] == appointments[..i];
    }
    assert appointments[..|appointments|] == appointments;
    GroupedFacts(appointments);
    entries := Entries(Sort(keys), slotsMap);
    OrganizedAscending(appointments);
    OrganizedSlots(appointments);
    OrganizedGroups(appointments);
    OrganizedTotal(appointments);
  }
}
