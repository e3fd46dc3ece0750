/**
 * The scheduling engine: the working-day policy applied to slot listing for a
 * clinic, the single-slot check, the conflict check and booking.
 */
module AppointmentController {
  import opened Wrappers
  import opened WorkingCalendar
  import opened Models
  import Tables
  import Data

  /** The object listed per doctor by both availability endpoints. */
  datatype DoctorAvailability = DoctorAvailability(
    doctorId: int, firstName: string, lastName: string, specialty: Option<string>, availableSlots: seq<Instant>)

  /** Why a booking was refused, in the order the checks run. */
  datatype BookingError = MissingFields | ClosedDay | SlotTaken | OutsideWorkingHours | InThePast

  /** The HTTP status each refusal is reported with. */
  function StatusOf(e: BookingError): Status
  {
    match e
    case MissingFields => BadRequest
    case ClosedDay => Conflict
    case SlotTaken => Conflict
    case OutsideWorkingHours => BadRequest
    case InThePast => BadRequest
  }

  // ---------------------------------------------------------------------------
  // Store queries
  // ---------------------------------------------------------------------------

  /** `doctor.Speciality?.Name`: the name of the speciality the doctor's key refers to, if any. */
  function SpecialtyName(specialities: seq<Speciality>, specialityId: int): (r: Option<string>)
    ensures r.Some? <==> exists i :: 0 <= i < |specialities| && specialities[i].id == specialityId
    ensures r.Some? ==> exists i :: (0 <= i < |specialities| && specialities[i].id == specialityId
      && (forall j :: 0 <= j < i ==> specialities[j].id != specialityId)
      && r.value == specialities[i].name)
  {
    match Tables.FindIndex(specialities, (s: Speciality) => s.id == specialityId)
    case None => None
    case Some(i) => Some(specialities[i].name)
  }

  /** The doctors of one clinic, in table order. */
  function ClinicDoctors(doctors: seq<Doctor>, clinicId: int): seq<Doctor>
  {
    Tables.Filter(doctors, (d: Doctor) => d.clinicId == clinicId)
  }

  /** A doctor's appointments on the calendar day of `date`. */
  function DoctorAppointmentsOn(appointments: seq<Appointment>, doctorId: int, date: Instant): seq<Appointment>
  {
    Tables.Filter(appointments, (a: Appointment) => a.doctorId == doctorId && DayOf(a.date) == DayOf(date))
  }

  /** Some appointment in the list has time of day `m`. */
  predicate BookedAt(doctorAppointments: seq<Appointment>, m: nat)
  {
    exists i :: 0 <= i < |doctorAppointments| && TimeOfDay(doctorAppointments[i].date) == m
  }

  /** An appointment holds exactly this doctor and timestamp. */
  predicate IsBooked(appointments: seq<Appointment>, doctorId: int, t: Instant)
  {
    exists i :: 0 <= i < |appointments| && appointments[i].doctorId == doctorId && appointments[i].date == t
  }

  /** CheckForAppointmentConflict: the new appointment's doctor already has one at that exact timestamp. */
  predicate CheckForAppointmentConflict(appointments: seq<Appointment>, newAppointment: Appointment)
  {
    IsBooked(appointments, newAppointment.doctorId, newAppointment.date)
  }

  /** The single correctness invariant: no two appointments share (doctor, timestamp). */
  predicate NoDoubleBooking(appointments: seq<Appointment>)
  {
    Tables.UniqueBy(appointments, AppointmentSlot)
  }

  lemma IsBookedIsHasKey(appointments: seq<Appointment>, doctorId: int, t: Instant)
    ensures IsBooked(appointments, doctorId, t) <==> Tables.HasKey(appointments, AppointmentSlot, (doctorId, t))
  {
    if IsBooked(appointments, doctorId, t) {
      var i :| 0 <= i < |appointments| && appointments[i].doctorId == doctorId && appointments[i].date == t;
      assert AppointmentSlot(appointments[i]) == (doctorId, t);
    }
  }

  // ---------------------------------------------------------------------------
  // Slot generation
  // ---------------------------------------------------------------------------

  /** The slot the loop adds at minute `off` of the day of `date`, if any. */
  function SlotAt(date: Instant, now: Instant, doctorAppointments: seq<Appointment>, off: nat): seq<Instant>
    requires off < MinutesPerDay
  {
    if InOpenWindow(off) && At(DayOf(date), off) > now && !BookedAt(doctorAppointments, off) then [At(DayOf(date), off)] else []
  }

  /**
   * The open slots of a day from minute `off` on: stepping by 30 minutes up to
   * 17:00, keeping each time that is in an open window, strictly after `now`
   * and not the time of day of one of `doctorAppointments`.
   */
  function SlotsFrom(date: Instant, now: Instant, doctorAppointments: seq<Appointment>, off: nat): seq<Instant>
    decreases CloseMinute - off
  {
    if off >= CloseMinute then []
    else SlotAt(date, now, doctorAppointments, off) + SlotsFrom(date, now, doctorAppointments, off + SlotLength)
  }

  /** The loop's three tests on the time `off` minutes after midnight decide the slot at `off`. */
  lemma SlotAtIsLoopTest(date: Instant, now: Instant, doctorAppointments: seq<Appointment>, off: nat, t: Instant)
    requires off < CloseMinute && t == Midnight(date) + off
    ensures SlotAt(date, now, doctorAppointments, off) ==
      if IsWithinWorkingHours(t, GetWorkingHours(date)) && t > now && !BookedAt(doctorAppointments, TimeOfDay(t)) then [t] else []
  {
    HoursFromMidnight(date);
    assert t == At(DayOf(date), off);
  }

  /** The slots the loop has listed when it reaches minute `off`: those of the grid times from 08:00 up to `off`. */
  function SlotsBefore(date: Instant, now: Instant, doctorAppointments: seq<Appointment>, off: nat): seq<Instant>
    requires off <= CloseMinute
    decreases off
  {
    if off < OpenMinute + SlotLength then []
    else SlotsBefore(date, now, doctorAppointments, off - SlotLength) + SlotAt(date, now, doctorAppointments, off - SlotLength)
  }

  /** Moving one grid time from the slots still to come to the slots listed keeps the whole day. */
  lemma SlotsSplitStep(date: Instant, now: Instant, doctorAppointments: seq<Appointment>, off: nat)
    requires OpenMinute <= off && off + SlotLength <= CloseMinute
    requires SlotsBefore(date, now, doctorAppointments, off) + SlotsFrom(date, now, doctorAppointments, off)
      == OpenSlots(date, now, doctorAppointments)
    ensures SlotsBefore(date, now, doctorAppointments, off + SlotLength) + SlotsFrom(date, now, doctorAppointments, off + SlotLength)
      == OpenSlots(date, now, doctorAppointments)
  {
    var before := SlotsBefore(date, now, doctorAppointments, off);
    var kept := SlotAt(date, now, doctorAppointments, off);
    var rest := SlotsFrom(date, now, doctorAppointments, off + SlotLength);
    assert before + (kept + rest) == (before + kept) + rest;
  }

  /** The slots listed before a grid time and those from it on make up the whole day. */
  lemma {:induction false} SlotsSplit(date: Instant, now: Instant, doctorAppointments: seq<Appointment>, steps: nat)
    requires OpenMinute + SlotLength * steps <= CloseMinute
    ensures SlotsBefore(date, now, doctorAppointments, OpenMinute + SlotLength * steps)
      + SlotsFrom(date, now, doctorAppointments, OpenMinute + SlotLength * steps)
      == OpenSlots(date, now, doctorAppointments)
  {
    if steps > 0 {
      SlotsSplit(date, now, doctorAppointments, steps - 1);
      SlotsSplitStep(date, now, doctorAppointments, OpenMinute + SlotLength * (steps - 1));
    }
  }

  /** The open slots of the day of `date`, starting at 08:00. */
  function OpenSlots(date: Instant, now: Instant, doctorAppointments: seq<Appointment>): seq<Instant>
  {
    SlotsFrom(date, now, doctorAppointments, OpenMinute)
  }

  /** What makes `t` a listed slot for the day of `date`. */
  predicate IsOpenSlot(date: Instant, now: Instant, doctorAppointments: seq<Appointment>, t: Instant)
  {
    && DayOf(t) == DayOf(date)
    && TimeOfDay(t) % SlotLength == 0
    && InOpenWindow(TimeOfDay(t))
    && t > now
    && !BookedAt(doctorAppointments, TimeOfDay(t))
  }

  lemma {:induction false} SlotsFromMembers(date: Instant, now: Instant, booked: seq<Appointment>, off: nat, t: Instant)
    requires off % SlotLength == 0
    ensures t in SlotsFrom(date, now, booked, off) <==> IsOpenSlot(date, now, booked, t) && TimeOfDay(t) >= off
    decreases CloseMinute - off
  {
    if off < CloseMinute {
      SlotsFromMembers(date, now, booked, off + SlotLength, t);
      var c := At(DayOf(date), off);
      if DayOf(t) == DayOf(date) && TimeOfDay(t) == off {
        assert t == c by {
          assert t == Midnight(t) + TimeOfDay(t);
          assert c == Midnight(c) + TimeOfDay(c);
        }
      }
    }
  }

  /** Every listed slot lies in an open window on the day of `date`, is on the 30-minute grid from 08:00, after `now`, and not taken. */
  lemma OpenSlotsMembers(date: Instant, now: Instant, booked: seq<Appointment>, t: Instant)
    ensures t in OpenSlots(date, now, booked) <==> IsOpenSlot(date, now, booked, t)
  {
    SlotsFromMembers(date, now, booked, OpenMinute, t);
  }

  lemma {:induction false} SlotsFromAscending(date: Instant, now: Instant, booked: seq<Appointment>, off: nat)
    ensures forall i :: 0 <= i < |SlotsFrom(date, now, booked, off)| ==>
      DayOf(SlotsFrom(date, now, booked, off)[i]) == DayOf(date) && TimeOfDay(SlotsFrom(date, now, booked, off)[i]) >= off
    ensures forall i, j :: 0 <= i < j < |SlotsFrom(date, now, booked, off)| ==>
      SlotsFrom(date, now, booked, off)[i] < SlotsFrom(date, now, booked, off)[j]
    decreases CloseMinute - off
  {
    if off < CloseMinute {
      SlotsFromAscending(date, now, booked, off + SlotLength);
      var rest := SlotsFrom(date, now, booked, off + SlotLength);
      var c := At(DayOf(date), off);
      forall i | 0 <= i < |rest| ensures c < rest[i] {
        assert rest[i] == Midnight(rest[i]) + TimeOfDay(rest[i]);
      }
    }
  }

  /** A doctor's listed slots are strictly ascending, hence free of duplicates. */
  lemma OpenSlotsAscending(date: Instant, now: Instant, booked: seq<Appointment>)
    ensures forall i, j :: 0 <= i < j < |OpenSlots(date, now, booked)| ==>
      OpenSlots(date, now, booked)[i] < OpenSlots(date, now, booked)[j]
  {
    SlotsFromAscending(date, now, booked, OpenMinute);
  }

  /** The number of grid times from `off` (on the grid, at or after 08:00) that fall in an open window. */
  function GridCountFrom(off: nat): nat
  {
    (if off < BreakStartMinute then (BreakStartMinute - off) / SlotLength else 0)
    + (if off < CloseMinute then (CloseMinute - (if off < BreakEndMinute then BreakEndMinute else off)) / SlotLength else 0)
  }

  lemma {:induction false} FreeDayCountFrom(date: Instant, now: Instant, off: nat)
    requires off % SlotLength == 0 && OpenMinute <= off
    requires now < At(DayOf(date), OpenMinute)
    ensures |SlotsFrom(date, now, [], off)| == GridCountFrom(off)
    decreases CloseMinute - off
  {
    if off < CloseMinute {
      FreeDayCountFrom(date, now, off + SlotLength);
      assert At(DayOf(date), OpenMinute) <= At(DayOf(date), off);
    }
  }

  /**
   * With `now` before 08:00 of that day and no appointments, exactly 16 slots
   * are listed, and neither 12:00 nor 12:30 is one of them.
   */
  lemma SixteenSlotsOnFreeDay(date: Instant, now: Instant)
    requires now < At(DayOf(date), OpenMinute)
    ensures |OpenSlots(date, now, [])| == 16
    ensures At(DayOf(date), BreakStartMinute) !in OpenSlots(date, now, [])
    ensures At(DayOf(date), BreakStartMinute + SlotLength) !in OpenSlots(date, now, [])
  {
    FreeDayCountFrom(date, now, OpenMinute);
    OpenSlotsMembers(date, now, [], At(DayOf(date), BreakStartMinute));
    OpenSlotsMembers(date, now, [], At(DayOf(date), BreakStartMinute + SlotLength));
  }

  /**
   * The slot loop for one doctor: from the day's start time in 30-minute
   * steps up to the end time, skipping the break, past times and the times of
   * day already taken by `doctorAppointments`.
   */
  method AvailableSlots(date: Instant, now: Instant, doctorAppointments: seq<Appointment>) returns (availableSlots: seq<Instant>)
    ensures availableSlots == OpenSlots(date, now, doctorAppointments)
    ensures forall t :: t in availableSlots <==> IsOpenSlot(date, now, doctorAppointments, t)
    ensures forall i, j :: 0 <= i < j < |availableSlots| ==> availableSlots[i] < availableSlots[j]
  {
    var wh := GetWorkingHours(date);
    HoursFromMidnight(date);
    availableSlots := [];
    var currentTime := wh.startTime;
    ghost var off: nat := OpenMinute;
    ghost var steps: nat := 0;
    while currentTime < wh.endTime
      invariant steps <= (CloseMinute - OpenMinute) / SlotLength && off == OpenMinute + SlotLength * steps
      invariant currentTime == Midnight(date) + off
      invariant availableSlots == SlotsBefore(date, now, doctorAppointments, off)
      decreases wh.endTime - currentTime
    {
      SlotAtIsLoopTest(date, now, doctorAppointments, off, currentTime);
      if IsWithinWorkingHours(currentTime, wh) {
        if currentTime > now {
          if !BookedAt(doctorAppointments, TimeOfDay(currentTime)) {
            availableSlots := availableSlots + [currentTime];
          }
        }
      }
      currentTime := currentTime + SlotLength;
      off := off + SlotLength;
      steps := steps + 1;
    }
    assert off == CloseMinute;
    SlotsSplit(date, now, doctorAppointments, steps);
    forall t ensures t in availableSlots <==> IsOpenSlot(date, now, doctorAppointments, t) {
      OpenSlotsMembers(date, now, doctorAppointments, t);
    }
    OpenSlotsAscending(date, now, doctorAppointments);
  }

  // ---------------------------------------------------------------------------
  // Listing for a clinic and day
  // ---------------------------------------------------------------------------

  /** The listing entry for one doctor: present only when at least one slot is open. */
  function EntryFor(d: Doctor, appointments: seq<Appointment>, specialities: seq<Speciality>, date: Instant, now: Instant): seq<DoctorAvailability>
  {
    var slots := OpenSlots(date, now, DoctorAppointmentsOn(appointments, d.id, date));
    if |slots| > 0 then [DoctorAvailability(d.id, d.firstName, d.lastName, SpecialtyName(specialities, d.specialityId), slots)]
    else []
  }

  /** The entry of each doctor, for fixed tables, day and `now`. */
  function Entries(appointments: seq<Appointment>, specialities: seq<Speciality>, date: Instant, now: Instant): Doctor -> seq<DoctorAvailability>
  {
    (d: Doctor) => EntryFor(d, appointments, specialities, date, now)
  }

  /** The entries for a list of doctors, in the list's order. */
  function Collect(ds: seq<Doctor>, appointments: seq<Appointment>, specialities: seq<Speciality>, date: Instant, now: Instant): seq<DoctorAvailability>
  {
    Tables.FlatMap(ds, Entries(appointments, specialities, date, now))
  }

  /** One more doctor appends that doctor's entry, if any, to the entries of the doctors before it. */
  lemma CollectStep(ds: seq<Doctor>, i: nat, appointments: seq<Appointment>, specialities: seq<Speciality>, date: Instant, now: Instant)
    requires i < |ds|
    ensures Collect(ds[..i + 1], appointments, specialities, date, now)
      == Collect(ds[..i], appointments, specialities, date, now) + EntryFor(ds[i], appointments, specialities, date, now)
  {
    assert ds[..i + 1][..i] == ds[..i];
    assert Entries(appointments, specialities, date, now)(ds[i]) == EntryFor(ds[i], appointments, specialities, date, now);
  }

  /** What the clinic listing returns: nothing on a weekend, otherwise one entry per clinic doctor with an open slot. */
  function ClinicAvailability(doctors: seq<Doctor>, appointments: seq<Appointment>, specialities: seq<Speciality>,
                              clinicId: int, date: Instant, now: Instant): seq<DoctorAvailability>
  {
    if IsWeekend(date) then [] else Collect(ClinicDoctors(doctors, clinicId), appointments, specialities, date, now)
  }

  /** ViewAllAvailableDoctorAppointments. */
  method ViewAllAvailableDoctorAppointments(db: Data.AppointmentDbContext, clinicId: int, date: Instant, now: Instant)
    returns (availableAppointments: seq<DoctorAvailability>)
    ensures availableAppointments == ClinicAvailability(db.doctors, db.appointments, db.specialities, clinicId, date, now)
    ensures IsWeekend(date) ==> availableAppointments == []
  {
    if IsWeekend(date) {
      return [];
    }
    var doctors := ClinicDoctors(db.doctors, clinicId);
    availableAppointments := [];
    for i := 0 to |doctors|
      invariant availableAppointments == Collect(doctors[..i], db.appointments, db.specialities, date, now)
    {
      CollectStep(doctors, i, db.appointments, db.specialities, date, now);
      var doctor := doctors[i];
      var doctorAppointments := DoctorAppointmentsOn(db.appointments, doctor.id, date);
      var availableSlots := AvailableSlots(date, now, doctorAppointments);
      if |availableSlots| > 0 {
        availableAppointments := availableAppointments + [DoctorAvailability(
          doctor.id, doctor.firstName, doctor.lastName, SpecialtyName(db.specialities, doctor.specialityId), availableSlots)];
      }
    }
    assert doctors[..|doctors|] == doctors;
  }

  lemma CollectSound(ds: seq<Doctor>, appointments: seq<Appointment>, specialities: seq<Speciality>,
                     date: Instant, now: Instant, k: nat)
    requires k < |Collect(ds, appointments, specialities, date, now)|
    ensures exists i :: (0 <= i < |ds| &&
      var e := Collect(ds, appointments, specialities, date, now)[k];
      e.doctorId == ds[i].id && e.firstName == ds[i].firstName && e.lastName == ds[i].lastName &&
      e.availableSlots == OpenSlots(date, now, DoctorAppointmentsOn(appointments, ds[i].id, date)) &&
      e.availableSlots != [])
  {
    var f := Entries(appointments, specialities, date, now);
    Tables.FlatMapSound(ds, f, k);
    var i, j :| 0 <= i < |ds| && 0 <= j < |f(ds[i])| && Collect(ds, appointments, specialities, date, now)[k] == f(ds[i])[j];
    assert f(ds[i]) == EntryFor(ds[i], appointments, specialities, date, now);
  }

  lemma CollectComplete(ds: seq<Doctor>, appointments: seq<Appointment>, specialities: seq<Speciality>,
                        date: Instant, now: Instant, i: nat)
    requires i < |ds|
    requires OpenSlots(date, now, DoctorAppointmentsOn(appointments, ds[i].id, date)) != []
    ensures exists k :: (0 <= k < |Collect(ds, appointments, specialities, date, now)| &&
      Collect(ds, appointments, specialities, date, now)[k].doctorId == ds[i].id &&
      Collect(ds, appointments, specialities, date, now)[k].availableSlots == OpenSlots(date, now, DoctorAppointmentsOn(appointments, ds[i].id, date)))
  {
    var f := Entries(appointments, specialities, date, now);
    assert f(ds[i]) == EntryFor(ds[i], appointments, specialities, date, now);
    Tables.FlatMapComplete(ds, f, i, 0);
    var k :| 0 <= k < |Collect(ds, appointments, specialities, date, now)| && Collect(ds, appointments, specialities, date, now)[k] == f(ds[i])[0];
  }

  /**
   * Every listed doctor belongs to the clinic, has at least one open slot, and
   * carries exactly the open slots of that day.
   */
  lemma ListedDoctorsBelongToClinic(doctors: seq<Doctor>, appointments: seq<Appointment>, specialities: seq<Speciality>,
                                    clinicId: int, date: Instant, now: Instant, k: nat)
    requires k < |ClinicAvailability(doctors, appointments, specialities, clinicId, date, now)|
    ensures !IsWeekend(date)
    ensures var e := ClinicAvailability(doctors, appointments, specialities, clinicId, date, now)[k];
      e.availableSlots != [] &&
      e.availableSlots == OpenSlots(date, now, DoctorAppointmentsOn(appointments, e.doctorId, date)) &&
      exists d :: d in doctors && d.clinicId == clinicId && d.id == e.doctorId
  {
    var cds := ClinicDoctors(doctors, clinicId);
    CollectSound(cds, appointments, specialities, date, now, k);
    var i :| 0 <= i < |cds| &&
      var e := Collect(cds, appointments, specialities, date, now)[k];
      e.doctorId == cds[i].id && e.firstName == cds[i].firstName && e.lastName == cds[i].lastName &&
      e.availableSlots == OpenSlots(date, now, DoctorAppointmentsOn(appointments, cds[i].id, date)) &&
      e.availableSlots != [];
    assert cds[i] in doctors && cds[i].clinicId == clinicId;
  }

  /** Every doctor of the clinic with an open slot on a weekday is listed, with those slots. */
  lemma ClinicDoctorWithOpenSlotIsListed(doctors: seq<Doctor>, appointments: seq<Appointment>, specialities: seq<Speciality>,
                                         clinicId: int, date: Instant, now: Instant, d: Doctor)
    requires d in doctors && d.clinicId == clinicId && !IsWeekend(date)
    requires OpenSlots(date, now, DoctorAppointmentsOn(appointments, d.id, date)) != []
    ensures exists e :: (e in ClinicAvailability(doctors, appointments, specialities, clinicId, date, now) &&
      e.doctorId == d.id && e.availableSlots == OpenSlots(date, now, DoctorAppointmentsOn(appointments, d.id, date)))
  {
    var cds := ClinicDoctors(doctors, clinicId);
    var i :| 0 <= i < |doctors| && doctors[i] == d;
    assert d in cds;
    var j :| 0 <= j < |cds| && cds[j] == d;
    CollectComplete(cds, appointments, specialities, date, now, j);
    var whole := Collect(cds, appointments, specialities, date, now);
    var k :| 0 <= k < |whole| && whole[k].doctorId == d.id &&
      whole[k].availableSlots == OpenSlots(date, now, DoctorAppointmentsOn(appointments, d.id, date));
    assert whole[k] in whole;
  }

  // ---------------------------------------------------------------------------
  // Single-slot check
  // ---------------------------------------------------------------------------

  /** ViewAvailableDoctorAppointments: whether one exact timestamp is bookable with one doctor of one clinic. */
  function ViewAvailableDoctorAppointments(doctors: seq<Doctor>, appointments: seq<Appointment>, specialities: seq<Speciality>,
                                           clinicId: int, doctorId: int, date: Instant, now: Instant): (r: Result<DoctorAvailability, Status>)
    ensures r.Ok? <==>
      && !IsWeekend(date)
      && (exists i :: 0 <= i < |doctors| && doctors[i].clinicId == clinicId && doctors[i].id == doctorId)
      && InOpenWindow(TimeOfDay(date))
      && date > now
      && !IsBooked(appointments, doctorId, date)
    ensures r.Err? ==> r.error == NotFound
    ensures r.Ok? ==> r.value.doctorId == doctorId && r.value.availableSlots == [date]
    ensures r.Ok? ==> exists i :: (0 <= i < |doctors| && doctors[i].clinicId == clinicId && doctors[i].id == doctorId
      && (forall j :: 0 <= j < i ==> !(doctors[j].clinicId == clinicId && doctors[j].id == doctorId))
      && r.value == DoctorAvailability(doctorId, doctors[i].firstName, doctors[i].lastName,
                                       SpecialtyName(specialities, doctors[i].specialityId), [date]))
  {
    if IsWeekend(date) then Err(NotFound)
    else
      match Tables.FindIndex(doctors, (d: Doctor) => d.clinicId == clinicId && d.id == doctorId)
      case None => Err(NotFound)
      case Some(i) =>
        var doctor := doctors[i];
        var appointmentExists := IsBooked(appointments, doctor.id, date);
        var wh := GetWorkingHours(date);
        var isWithinWorkingHours := IsWithinWorkingHours(date, wh);
        var isInThePast := IsInThePast(date, now);
        WithinOwnHoursIff(date);
        if isWithinWorkingHours && !isInThePast && !appointmentExists then
          Ok(DoctorAvailability(doctor.id, doctor.firstName, doctor.lastName, SpecialtyName(specialities, doctor.specialityId), [date]))
        else Err(NotFound)
  }

  /** A slot of the clinic listing is an open slot of a clinic doctor on a weekday. */
  lemma ListedSlotIsOpen(doctors: seq<Doctor>, appointments: seq<Appointment>, specialities: seq<Speciality>,
                         clinicId: int, date: Instant, now: Instant, e: DoctorAvailability, t: Instant)
    requires e in ClinicAvailability(doctors, appointments, specialities, clinicId, date, now)
    requires t in e.availableSlots
    ensures !IsWeekend(date)
    ensures IsOpenSlot(date, now, DoctorAppointmentsOn(appointments, e.doctorId, date), t)
    ensures exists i :: 0 <= i < |doctors| && doctors[i].clinicId == clinicId && doctors[i].id == e.doctorId
  {
    var listing := ClinicAvailability(doctors, appointments, specialities, clinicId, date, now);
    var k :| 0 <= k < |listing| && listing[k] == e;
    ListedDoctorsBelongToClinic(doctors, appointments, specialities, clinicId, date, now, k);
    var d :| d in doctors && d.clinicId == clinicId && d.id == e.doctorId;
    var i :| 0 <= i < |doctors| && doctors[i] == d;
    OpenSlotsMembers(date, now, DoctorAppointmentsOn(appointments, e.doctorId, date), t);
  }

  /** A time of day free among a doctor's appointments of that day is not booked with that doctor at all. */
  lemma FreeTimeIsNotBooked(appointments: seq<Appointment>, doctorId: int, date: Instant, t: Instant)
    requires DayOf(t) == DayOf(date)
    requires !BookedAt(DoctorAppointmentsOn(appointments, doctorId, date), TimeOfDay(t))
    ensures !IsBooked(appointments, doctorId, t)
  {
  }

  /** Every slot of the clinic listing passes the single-slot check for the same `now` and the same store. */
  lemma ListedSlotPassesSingleCheck(doctors: seq<Doctor>, appointments: seq<Appointment>, specialities: seq<Speciality>,
                                    clinicId: int, date: Instant, now: Instant, e: DoctorAvailability, t: Instant)
    requires e in ClinicAvailability(doctors, appointments, specialities, clinicId, date, now)
    requires t in e.availableSlots
    ensures ViewAvailableDoctorAppointments(doctors, appointments, specialities, clinicId, e.doctorId, t, now).Ok?
  {
    ListedSlotIsOpen(doctors, appointments, specialities, clinicId, date, now, e, t);
    FreeTimeIsNotBooked(appointments, e.doctorId, date, t);
    assert DayOfWeek(t) == DayOfWeek(date);
  }


  // ---------------------------------------------------------------------------
  // Booking
  // ---------------------------------------------------------------------------

  /** The required fields are set: a non-default date and non-zero patient, doctor and clinic keys. */
  predicate FieldsPresent(a: Appointment)
  {
    a.date != DefaultDate && a.patientId != 0 && a.doctorId != 0 && a.clinicId != 0
  }

  /** The first check CreateAppointment fails, if any, in its fixed order. */
  function BookingRejection(appointments: seq<Appointment>, appointment: Appointment, now: Instant): (r: Option<BookingError>)
    ensures r.None? <==>
      FieldsPresent(appointment) && !IsWeekend(appointment.date) && !IsBooked(appointments, appointment.doctorId, appointment.date)
      && InOpenWindow(TimeOfDay(appointment.date)) && appointment.date > now
    ensures r == Some(MissingFields) <==> !FieldsPresent(appointment)
    ensures r == Some(ClosedDay) <==> FieldsPresent(appointment) && IsWeekend(appointment.date)
    ensures r == Some(SlotTaken) <==>
      FieldsPresent(appointment) && !IsWeekend(appointment.date) && IsBooked(appointments, appointment.doctorId, appointment.date)
    ensures r == Some(OutsideWorkingHours) <==>
      FieldsPresent(appointment) && !IsWeekend(appointment.date) && !IsBooked(appointments, appointment.doctorId, appointment.date)
      && !InOpenWindow(TimeOfDay(appointment.date))
    ensures r == Some(InThePast) <==>
      FieldsPresent(appointment) && !IsWeekend(appointment.date) && !IsBooked(appointments, appointment.doctorId, appointment.date)
      && InOpenWindow(TimeOfDay(appointment.date)) && appointment.date <= now
  {
    WithinOwnHoursIff(appointment.date);
    if !FieldsPresent(appointment) then Some(MissingFields)
    else if IsWeekend(appointment.date) then Some(ClosedDay)
    else if CheckForAppointmentConflict(appointments, appointment) then Some(SlotTaken)
    else if !IsWithinWorkingHours(appointment.date, GetWorkingHours(appointment.date)) then Some(OutsideWorkingHours)
    else if IsInThePast(appointment.date, now) then Some(InThePast)
    else None
  }

  /** A booking accepted on a store without double bookings leaves it without double bookings. */
  lemma BookingKeepsNoDoubleBooking(appointments: seq<Appointment>, appointment: Appointment, now: Instant, id: int)
    requires NoDoubleBooking(appointments)
    requires BookingRejection(appointments, appointment, now).None?
    ensures NoDoubleBooking(appointments + [appointment.(id := id)])
  {
    IsBookedIsHasKey(appointments, appointment.doctorId, appointment.date);
    Tables.AppendKeepsUnique(appointments, AppointmentSlot, appointment.(id := id));
  }

  /**
   * Once a booking is accepted, the single-slot check reports that
   * (doctor, timestamp) as unavailable; before it, the check reported it
   * available whenever the doctor belongs to the clinic.
   */
  lemma BookedSlotNoLongerAvailable(doctors: seq<Doctor>, appointments: seq<Appointment>, specialities: seq<Speciality>,
                                    clinicId: int, appointment: Appointment, now: Instant, id: int)
    requires BookingRejection(appointments, appointment, now).None?
    ensures (exists i :: 0 <= i < |doctors| && doctors[i].clinicId == clinicId && doctors[i].id == appointment.doctorId) ==>
      ViewAvailableDoctorAppointments(doctors, appointments, specialities, clinicId, appointment.doctorId, appointment.date, now).Ok?
    ensures ViewAvailableDoctorAppointments(doctors, appointments + [appointment.(id := id)], specialities, clinicId,
                                            appointment.doctorId, appointment.date, now) == Err(NotFound)
  {
    var after := appointments + [appointment.(id := id)];
    assert after[|appointments|].doctorId == appointment.doctorId && after[|appointments|].date == appointment.date;
    assert IsBooked(after, appointment.doctorId, appointment.date);
  }

  /** A slot taken from the clinic listing can be booked, for any patient and clinic key, as long as no one books it first. */
  lemma ListedSlotIsBookable(doctors: seq<Doctor>, appointments: seq<Appointment>, specialities: seq<Speciality>,
                             clinicId: int, date: Instant, now: Instant, e: DoctorAvailability, t: Instant, request: Appointment)
    requires e in ClinicAvailability(doctors, appointments, specialities, clinicId, date, now)
    requires t in e.availableSlots
    requires request.date == t && request.doctorId == e.doctorId
    requires request.patientId != 0 && request.clinicId != 0 && e.doctorId != 0
    ensures BookingRejection(appointments, request, now).None?
  {
    ListedSlotPassesSingleCheck(doctors, appointments, specialities, clinicId, date, now, e, t);
  }

  /** CreateAppointment: run the checks in order; on success store the appointment under the next identity. */
  method CreateAppointment(db: Data.AppointmentDbContext, appointment: Appointment, now: Instant) returns (r: Result<Appointment, BookingError>)
    requires db.Valid()
    modifies db
    ensures db.Valid()
    ensures r.Err? <==> BookingRejection(old(db.appointments), appointment, now).Some?
    ensures r.Err? ==> (r.error == BookingRejection(old(db.appointments), appointment, now).value
      && db.appointments == old(db.appointments) && db.nextAppointmentId == old(db.nextAppointmentId))
    ensures r.Ok? ==> (r.value == appointment.(id := old(db.nextAppointmentId))
      && db.appointments == old(db.appointments) + [r.value] && db.nextAppointmentId == old(db.nextAppointmentId) + 1)
    ensures NoDoubleBooking(old(db.appointments)) ==> NoDoubleBooking(db.appointments)
    ensures db.specialities == old(db.specialities) && db.clinics == old(db.clinics) && db.doctors == old(db.doctors)
      && db.patients == old(db.patients)
    ensures db.nextSpecialityId == old(db.nextSpecialityId) && db.nextClinicId == old(db.nextClinicId)
      && db.nextDoctorId == old(db.nextDoctorId) && db.nextPatientId == old(db.nextPatientId)
  {
    if appointment.date == DefaultDate || appointment.patientId == 0 || appointment.doctorId == 0 || appointment.clinicId == 0 {
      return Err(MissingFields);
    }
    var hasConflict := CheckForAppointmentConflict(db.appointments, appointment);
    var wh := GetWorkingHours(appointment.date);
    var isWithinWorkingHours := IsWithinWorkingHours(appointment.date, wh);
    var isInThePast := IsInThePast(appointment.date, now);
    if IsWeekend(appointment.date) {
      return Err(ClosedDay);
    }
    if hasConflict {
      return Err(SlotTaken);
    }
    if !isWithinWorkingHours {
      return Err(OutsideWorkingHours);
    }
    if isInThePast {
      return Err(InThePast);
    }
    var stored := appointment.(id := db.nextAppointmentId);
    if NoDoubleBooking(db.appointments) {
      BookingKeepsNoDoubleBooking(db.appointments, appointment, now, db.nextAppointmentId);
    }
    Data.InsertWithCounter(db.appointments, AppointmentId, stored, db.nextAppointmentId);
    db.appointments := db.appointments + [stored];
    db.nextAppointmentId := db.nextAppointmentId + 1;
    r := Ok(stored);
  }

  /** DeleteAppointment: remove the appointment with that identity, or report NotFound. */
  method DeleteAppointment(db: Data.AppointmentDbContext, id: int) returns (r: Result<(), Status>)
    requires db.Valid()
    modifies db
    ensures db.Valid()
    ensures r.Err? <==> !Tables.HasKey(old(db.appointments), AppointmentId, id)
    ensures r.Err? ==> r.error == NotFound && db.appointments == old(db.appointments)
    ensures r.Ok? ==> exists i :: (0 <= i < |old(db.appointments)| && old(db.appointments)[i].id == id
      && db.appointments == Tables.RemoveAt(old(db.appointments), i))
    ensures !Tables.HasKey(db.appointments, AppointmentId, id)
    ensures NoDoubleBooking(old(db.appointments)) ==> NoDoubleBooking(db.appointments)
    ensures db.specialities == old(db.specialities) && db.clinics == old(db.clinics) && db.doctors == old(db.doctors)
      && db.patients == old(db.patients) && db.nextAppointmentId == old(db.nextAppointmentId)
    ensures db.nextSpecialityId == old(db.nextSpecialityId) && db.nextClinicId == old(db.nextClinicId)
      && db.nextDoctorId == old(db.nextDoctorId) && db.nextPatientId == old(db.nextPatientId)
  {
    var found := Tables.FindIndex(db.appointments, (a: Appointment) => a.id == id);
    if found.None? {
      return Err(NotFound);
    }
    var i := found.value;
    assert AppointmentId(db.appointments[i]) == id;
    Tables.FoundIsOnly(db.appointments, AppointmentId, id, i);
    if NoDoubleBooking(db.appointments) {
      Tables.RemoveKeepsUnique(db.appointments, AppointmentSlot, i);
    }
    Data.RemoveKeepsValid(db.appointments, AppointmentId, i, db.nextAppointmentId);
    db.appointments := Tables.RemoveAt(db.appointments, i);
    r := Ok(());
  }
}
