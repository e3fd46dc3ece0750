/** Doctor records: lookup, name search, creation with a duplicate-name check, deletion guarded by appointments. */
module DoctorController {
  import opened Wrappers
  import opened Models
  import Tables
  import Data

  /** The clinic part of a doctor's projection. */
  datatype ClinicSummary = ClinicSummary(id: int, name: string, address: string)

  /** The projection the doctor endpoints return. */
  datatype DoctorView = DoctorView(firstName: string, lastName: string, speciality: Option<Speciality>, clinic: Option<ClinicSummary>)

  /** The speciality row a key refers to (`d.Speciality`). */
  function SpecialityOf(specialities: seq<Speciality>, id: int): (r: Option<Speciality>)
    ensures r.Some? ==> r.value in specialities && r.value.id == id
    ensures r.None? <==> !Tables.HasKey(specialities, SpecialityId, id)
  {
    match Tables.FindIndex(specialities, (s: Speciality) => s.id == id)
    case None => None
    case Some(i) => Some(specialities[i])
  }

  /** The first clinic with the doctor's clinic key, projected to ID, Name and Address. */
  function ClinicOf(clinics: seq<Clinic>, id: int): (r: Option<ClinicSummary>)
    ensures r.Some? ==> r.value.id == id
    ensures r.Some? ==> exists i :: (0 <= i < |clinics| && clinics[i].id == id
      && (forall j :: 0 <= j < i ==> clinics[j].id != id)
      && r.value == ClinicSummary(clinics[i].id, clinics[i].name, clinics[i].address))
    ensures r.None? <==> !Tables.HasKey(clinics, ClinicId, id)
  {
    match Tables.FindIndex(clinics, (c: Clinic) => c.id == id)
    case None => None
    case Some(i) => Some(ClinicSummary(clinics[i].id, clinics[i].name, clinics[i].address))
  }

  function View(d: Doctor, clinics: seq<Clinic>, specialities: seq<Speciality>): DoctorView
  {
    DoctorView(d.firstName, d.lastName, SpecialityOf(specialities, d.specialityId), ClinicOf(clinics, d.clinicId))
  }

  /** GetDoctorById: the first doctor with that identity, or NotFound when there is none. */
  function GetDoctorById(doctors: seq<Doctor>, clinics: seq<Clinic>, specialities: seq<Speciality>, id: int): (r: Result<DoctorView, Status>)
    ensures r.Err? <==> !Tables.HasKey(doctors, DoctorId, id)
    ensures r.Err? ==> r.error == NotFound
    ensures r.Ok? ==> exists i :: (0 <= i < |doctors| && doctors[i].id == id && r.value == View(doctors[i], clinics, specialities))
  {
    match Tables.FindIndex(doctors, (d: Doctor) => d.id == id)
    case None => Err(NotFound)
    case Some(i) => Ok(View(doctors[i], clinics, specialities))
  }

  /** ViewAllDoctors: every doctor's projection, in table order. */
  function ViewAllDoctors(doctors: seq<Doctor>, clinics: seq<Clinic>, specialities: seq<Speciality>): (r: seq<DoctorView>)
    ensures |r| == |doctors|
    ensures forall i :: 0 <= i < |doctors| ==> r[i] == View(doctors[i], clinics, specialities)
  {
    seq(|doctors|, i requires 0 <= i < |doctors| => View(doctors[i], clinics, specialities))
  }

  /** With unique identities, each listed doctor is what looking that doctor up by identity returns. */
  lemma ListingAgreesWithLookup(doctors: seq<Doctor>, clinics: seq<Clinic>, specialities: seq<Speciality>, i: nat)
    requires Tables.UniqueBy(doctors, DoctorId)
    requires i < |doctors|
    ensures GetDoctorById(doctors, clinics, specialities, doctors[i].id) == Ok(ViewAllDoctors(doctors, clinics, specialities)[i])
  {
    var r := GetDoctorById(doctors, clinics, specialities, doctors[i].id);
    assert DoctorId(doctors[i]) == doctors[i].id;
    var j :| 0 <= j < |doctors| && doctors[j].id == doctors[i].id && r.value == View(doctors[j], clinics, specialities);
    assert DoctorId(doctors[j]) == DoctorId(doctors[i]);
  }

  /** `char.IsWhiteSpace`: the Unicode space separators, line and paragraph separators, and U+0009 to U+000D, U+0085. */
  predicate IsWhiteSpace(c: char)
  {
    || ('\U{0009}' <= c <= '\U{000D}') || c == '\U{0020}' || c == '\U{0085}' || c == '\U{00A0}' || c == '\U{1680}'
    || ('\U{2000}' <= c <= '\U{200A}') || c == '\U{2028}' || c == '\U{2029}' || c == '\U{202F}' || c == '\U{205F}' || c == '\U{3000}'
  }

  /** `string.IsNullOrWhiteSpace` (a missing query parameter arrives as the empty string). */
  predicate IsNullOrWhiteSpace(s: string)
  {
    forall i :: 0 <= i < |s| ==> IsWhiteSpace(s[i])
  }

  predicate StartsWith(s: string, prefix: string)
  {
    |prefix| <= |s| && s[..|prefix|] == prefix
  }

  /** `string.Contains`: `sub` occurs in `s` at some position. */
  predicate Contains(s: string, sub: string)
    decreases |s|
  {
    StartsWith(s, sub) || (|s| > 0 && Contains(s[1..], sub))
  }

  /** `sub` occurs in `s` starting at position `i`. */
  predicate OccursAt(s: string, sub: string, i: nat)
  {
    i + |sub| <= |s| && s[i..i + |sub|] == sub
  }

  /** `Contains` holds exactly when `sub` occurs somewhere in `s`. */
  lemma {:induction false} ContainsIff(s: string, sub: string)
    ensures Contains(s, sub) <==> exists i: nat :: OccursAt(s, sub, i)
    decreases |s|
  {
    if StartsWith(s, sub) {
      assert OccursAt(s, sub, 0);
    }
    if |s| > 0 {
      ContainsIff(s[1..], sub);
      if exists i: nat :: OccursAt(s, sub, i) {
        var i: nat :| OccursAt(s, sub, i);
        if i > 0 { assert OccursAt(s[1..], sub, i - 1); }
      }
      if Contains(s[1..], sub) {
        var i: nat :| OccursAt(s[1..], sub, i);
        assert OccursAt(s, sub, i + 1);
      }
    }
  }

  /** The search predicate both search endpoints use. */
  predicate MatchesName(d: Doctor, name: string)
  {
    Contains(d.firstName, name) || Contains(d.lastName, name)
  }

  function Matcher(name: string): Doctor -> bool
  {
    (d: Doctor) => MatchesName(d, name)
  }

  /**
   * SearchDoctors: BadRequest for a blank name; otherwise the projections of
   * exactly the doctors whose first or last name contains it, in table order,
   * and NotFound when there are none.
   */
  function SearchDoctors(doctors: seq<Doctor>, clinics: seq<Clinic>, specialities: seq<Speciality>, name: string): (r: Result<seq<DoctorView>, Status>)
    ensures IsNullOrWhiteSpace(name) ==> r == Err(BadRequest)
    ensures !IsNullOrWhiteSpace(name) ==> (r == Err(NotFound) <==> forall i :: 0 <= i < |doctors| ==> !MatchesName(doctors[i], name))
    ensures r.Err? ==> r.error == BadRequest || r.error == NotFound
    ensures r.Ok? ==> forall i :: 0 <= i < |doctors| && MatchesName(doctors[i], name) ==> View(doctors[i], clinics, specialities) in r.value
    ensures r.Ok? ==> forall k :: 0 <= k < |r.value| ==>
      exists i :: 0 <= i < |doctors| && MatchesName(doctors[i], name) && r.value[k] == View(doctors[i], clinics, specialities)
    ensures r.Ok? ==> |r.value| == |Tables.Positions(doctors, Matcher(name))|
    ensures r.Ok? ==> forall k :: 0 <= k < |r.value| ==>
      r.value[k] == View(doctors[Tables.Positions(doctors, Matcher(name))[k]], clinics, specialities)
  {
    if IsNullOrWhiteSpace(name) then Err(BadRequest)
    else
      var found := Tables.Filter(doctors, Matcher(name));
      var result := ViewAllDoctors(found, clinics, specialities);
      MatchesAreListed(doctors, clinics, specialities, name, found, result);
      MatchesInTableOrder(doctors, clinics, specialities, name, found, result);
      ListedAreMatches(doctors, clinics, specialities, name, result);
      if |result| == 0 then Err(NotFound) else Ok(result)
  }

  lemma MatchesAreListed(doctors: seq<Doctor>, clinics: seq<Clinic>, specialities: seq<Speciality>, name: string,
                          found: seq<Doctor>, result: seq<DoctorView>)
    requires found == Tables.Filter(doctors, Matcher(name))
    requires |result| == |found| && forall k :: 0 <= k < |found| ==> result[k] == View(found[k], clinics, specialities)
    ensures forall i :: 0 <= i < |doctors| && MatchesName(doctors[i], name) ==> View(doctors[i], clinics, specialities) in result
    ensures |result| == 0 <==> forall i :: 0 <= i < |doctors| ==> !MatchesName(doctors[i], name)
  {
    forall i | 0 <= i < |doctors| && MatchesName(doctors[i], name)
      ensures View(doctors[i], clinics, specialities) in result
    {
      assert Matcher(name)(doctors[i]);
      var k :| 0 <= k < |found| && found[k] == doctors[i];
      assert result[k] == View(doctors[i], clinics, specialities);
    }
    if |result| > 0 {
      assert Matcher(name)(found[0]);
    }
  }

  /** The search lists one projection per matching doctor, at the matches' positions in table order. */
  lemma MatchesInTableOrder(doctors: seq<Doctor>, clinics: seq<Clinic>, specialities: seq<Speciality>, name: string,
                            found: seq<Doctor>, result: seq<DoctorView>)
    requires found == Tables.Filter(doctors, Matcher(name))
    requires |result| == |found| && forall k :: 0 <= k < |found| ==> result[k] == View(found[k], clinics, specialities)
    ensures |result| == |Tables.Positions(doctors, Matcher(name))|
    ensures forall k :: 0 <= k < |result| ==> result[k] == View(doctors[Tables.Positions(doctors, Matcher(name))[k]], clinics, specialities)
  {
    Tables.FilterIsAtPositions(doctors, Matcher(name));
  }

  /** Every projection the search lists is that of a matching doctor. */
  lemma ListedAreMatches(doctors: seq<Doctor>, clinics: seq<Clinic>, specialities: seq<Speciality>, name: string, result: seq<DoctorView>)
    requires |result| == |Tables.Positions(doctors, Matcher(name))|
    requires forall k :: 0 <= k < |result| ==> result[k] == View(doctors[Tables.Positions(doctors, Matcher(name))[k]], clinics, specialities)
    ensures forall k :: 0 <= k < |result| ==>
      exists i :: 0 <= i < |doctors| && MatchesName(doctors[i], name) && result[k] == View(doctors[i], clinics, specialities)
  {
    var pos := Tables.Positions(doctors, Matcher(name));
    forall k | 0 <= k < |result|
      ensures exists i :: 0 <= i < |doctors| && MatchesName(doctors[i], name) && result[k] == View(doctors[i], clinics, specialities)
    {
      assert Matcher(name)(doctors[pos[k]]);
    }
  }

  /** SearchDoctor: the projection of the first doctor the same predicate selects, BadRequest for a blank name, NotFound if none. */
  function SearchDoctor(doctors: seq<Doctor>, clinics: seq<Clinic>, specialities: seq<Speciality>, name: string): (r: Result<DoctorView, Status>)
    ensures IsNullOrWhiteSpace(name) ==> r == Err(BadRequest)
    ensures r.Ok? ==> exists i :: (0 <= i < |doctors| && MatchesName(doctors[i], name)
      && (forall j :: 0 <= j < i ==> !MatchesName(doctors[j], name)) && r.value == View(doctors[i], clinics, specialities))
  {
    if IsNullOrWhiteSpace(name) then Err(BadRequest)
    else
      match Tables.FindIndex(doctors, Matcher(name))
      case None => Err(NotFound)
      case Some(i) => Ok(View(doctors[i], clinics, specialities))
  }

  /** The single search answers with the first entry of the list search, and fails exactly as it does. */
  lemma SearchDoctorIsFirstOfSearchDoctors(doctors: seq<Doctor>, clinics: seq<Clinic>, specialities: seq<Speciality>, name: string)
    ensures SearchDoctor(doctors, clinics, specialities, name) ==
      match SearchDoctors(doctors, clinics, specialities, name)
      case Err(e) => Err(e)
      case Ok(views) => Ok(views[0])
  {
    Tables.FilterHeadIsFirst(doctors, Matcher(name));
  }

  /** A doctor with the same first and last name is already stored. */
  predicate NameTaken(doctors: seq<Doctor>, doctor: Doctor)
  {
    exists i :: 0 <= i < |doctors| && doctors[i].firstName == doctor.firstName && doctors[i].lastName == doctor.lastName
  }

  /** A creation that passes the duplicate-name check keeps doctors' full names unique. */
  lemma CreateKeepsNamesUnique(doctors: seq<Doctor>, doctor: Doctor, id: int)
    requires Tables.UniqueBy(doctors, DoctorFullName)
    requires !NameTaken(doctors, doctor)
    ensures Tables.UniqueBy(doctors + [doctor.(id := id)], DoctorFullName)
  {
    Tables.AppendKeepsUnique(doctors, DoctorFullName, doctor.(id := id));
  }

  /** Create: Conflict when the name is taken, otherwise store the doctor under the next identity. */
  method Create(db: Data.AppointmentDbContext, doctor: Doctor) returns (r: Result<Doctor, Status>)
    requires db.Valid()
    modifies db
    ensures db.Valid()
    ensures r.Err? <==> NameTaken(old(db.doctors), doctor)
    ensures r.Err? ==> r.error == Conflict && db.doctors == old(db.doctors) && db.nextDoctorId == old(db.nextDoctorId)
    ensures r.Ok? ==> (r.value == doctor.(id := old(db.nextDoctorId)) && db.doctors == old(db.doctors) + [r.value]
      && db.nextDoctorId == old(db.nextDoctorId) + 1)
    ensures Tables.UniqueBy(old(db.doctors), DoctorFullName) ==> Tables.UniqueBy(db.doctors, DoctorFullName)
    ensures db.specialities == old(db.specialities) && db.clinics == old(db.clinics) && db.patients == old(db.patients)
      && db.appointments == old(db.appointments)
    ensures db.nextSpecialityId == old(db.nextSpecialityId) && db.nextClinicId == old(db.nextClinicId)
      && db.nextPatientId == old(db.nextPatientId) && db.nextAppointmentId == old(db.nextAppointmentId)
  {
    var existing := Tables.FindIndex(db.doctors, (d: Doctor) => d.firstName == doctor.firstName && d.lastName == doctor.lastName);
    if existing.Some? {
      return Err(Conflict);
    }
    var stored := doctor.(id := db.nextDoctorId);
    if Tables.UniqueBy(db.doctors, DoctorFullName) {
      CreateKeepsNamesUnique(db.doctors, doctor, db.nextDoctorId);
    }
    Data.InsertWithCounter(db.doctors, DoctorId, stored, db.nextDoctorId);
    db.doctors := db.doctors + [stored];
    db.nextDoctorId := db.nextDoctorId + 1;
    r := Ok(stored);
  }

  /** Some appointment is with this doctor. */
  predicate HasAppointments(appointments: seq<Appointment>, id: int)
  {
    exists j :: 0 <= j < |appointments| && appointments[j].doctorId == id
  }

  /** Every appointment names a stored doctor. */
  predicate AppointmentsReferToDoctors(appointments: seq<Appointment>, doctors: seq<Doctor>)
  {
    Tables.AllReferTo(appointments, (a: Appointment) => a.doctorId, doctors, DoctorId)
  }

  /** Deleting a doctor that no appointment is with keeps every appointment's doctor resolvable. */
  lemma DeleteKeepsAppointmentReferences(doctors: seq<Doctor>, appointments: seq<Appointment>, i: nat)
    requires i < |doctors|
    requires AppointmentsReferToDoctors(appointments, doctors)
    requires !HasAppointments(appointments, doctors[i].id)
    ensures AppointmentsReferToDoctors(appointments, Tables.RemoveAt(doctors, i))
  {
    Tables.RemoveUnreferenced(appointments, (a: Appointment) => a.doctorId, doctors, DoctorId, i);
  }

  /** DeleteDoctor: NotFound for an absent identity, BadRequest while appointments are with the doctor, otherwise remove that doctor. */
  method DeleteDoctor(db: Data.AppointmentDbContext, id: int) returns (r: Result<(), Status>)
    requires db.Valid()
    modifies db
    ensures db.Valid()
    ensures !Tables.HasKey(old(db.doctors), DoctorId, id) ==> r == Err(NotFound)
    ensures Tables.HasKey(old(db.doctors), DoctorId, id) && HasAppointments(db.appointments, id) ==> r == Err(BadRequest)
    ensures r.Ok? <==> Tables.HasKey(old(db.doctors), DoctorId, id) && !HasAppointments(db.appointments, id)
    ensures r.Err? ==> db.doctors == old(db.doctors)
    ensures r.Ok? ==> exists i :: (0 <= i < |old(db.doctors)| && old(db.doctors)[i].id == id
      && db.doctors == Tables.RemoveAt(old(db.doctors), i))
    ensures r.Ok? ==> !Tables.HasKey(db.doctors, DoctorId, id) && !HasAppointments(db.appointments, id)
    ensures AppointmentsReferToDoctors(db.appointments, old(db.doctors)) ==> AppointmentsReferToDoctors(db.appointments, db.doctors)
    ensures db.specialities == old(db.specialities) && db.clinics == old(db.clinics) && db.patients == old(db.patients)
      && db.appointments == old(db.appointments) && db.nextDoctorId == old(db.nextDoctorId)
    ensures db.nextSpecialityId == old(db.nextSpecialityId) && db.nextClinicId == old(db.nextClinicId)
      && db.nextPatientId == old(db.nextPatientId) && db.nextAppointmentId == old(db.nextAppointmentId)
  {
    var found := Tables.FindIndex(db.doctors, (d: Doctor) => d.id == id);
    if found.None? {
      return Err(NotFound);
    }
    var i := found.value;
    if HasAppointments(db.appointments, id) {
      return Err(BadRequest);
    }
    assert DoctorId(db.doctors[i]) == id;
    Tables.FoundIsOnly(db.doctors, DoctorId, id, i);
    if AppointmentsReferToDoctors(db.appointments, db.doctors) {
      DeleteKeepsAppointmentReferences(db.doctors, db.appointments, i);
    }
    Data.RemoveKeepsValid(db.doctors, DoctorId, i, db.nextDoctorId);
    db.doctors := Tables.RemoveAt(db.doctors, i);
    r := Ok(());
  }
}
