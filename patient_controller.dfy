/**
 * Patient records: lookups by identity and by social security number, the DTO
 * projection that hides the stored hash, creation with its validation order,
 * and deletion guarded by appointments.
 */
module PatientController {
  import opened Wrappers
  import opened WorkingCalendar
  import opened Models
  import Tables
  import Data

  /** PatientDTO: every field of a patient except the SSN. */
  datatype PatientDto = PatientDto(id: int, firstName: string, lastName: string, birthdate: Instant, gender: string)

  /** The projection all three read endpoints return. */
  function ToDto(p: Patient): (dto: PatientDto)
    ensures dto.id == p.id && dto.firstName == p.firstName && dto.lastName == p.lastName
    ensures dto.birthdate == p.birthdate && dto.gender == p.gender
  {
    PatientDto(p.id, p.firstName, p.lastName, p.birthdate, p.gender)
  }

  /** Patients that agree on everything but the SSN have the same DTO: the DTO carries nothing about the SSN. */
  lemma DtoHidesSsn(p: Patient, ssn: string)
    ensures ToDto(p.(ssn := ssn)) == ToDto(p)
  {
  }

  /** GetPatientById: the patient's DTO, or NotFound when no patient has that identity. */
  function GetPatientById(patients: seq<Patient>, id: int): (r: Result<PatientDto, Status>)
    ensures r.Err? <==> !Tables.HasKey(patients, PatientId, id)
    ensures r.Err? ==> r.error == NotFound
    ensures r.Ok? ==> exists i :: 0 <= i < |patients| && patients[i].id == id && r.value == ToDto(patients[i])
  {
    match Tables.FindIndex(patients, (p: Patient) => p.id == id)
    case None => Err(NotFound)
    case Some(i) => Ok(ToDto(patients[i]))
  }

  /** The list endpoint (named ViewAllDoctors in the source although it lists patients): every patient's DTO, in table order. */
  function ViewAllDoctors(patients: seq<Patient>): (r: seq<PatientDto>)
    ensures |r| == |patients|
    ensures forall i :: 0 <= i < |patients| ==> r[i].id == patients[i].id && r[i] == ToDto(patients[i])
  {
    seq(|patients|, i requires 0 <= i < |patients| => ToDto(patients[i]))
  }

  /** GetPatientBySSN: hash the given number and return the DTO of the first patient storing that hash, or NotFound. */
  function GetPatientBySSN(patients: seq<Patient>, hash: string -> string, ssn: string): (r: Result<PatientDto, Status>)
    ensures r.Err? <==> !Tables.HasKey(patients, PatientSsn, hash(ssn))
    ensures r.Err? ==> r.error == NotFound
    ensures r.Ok? ==> exists i :: (0 <= i < |patients| && patients[i].ssn == hash(ssn) && r.value == ToDto(patients[i])
      && forall j :: 0 <= j < i ==> patients[j].ssn != hash(ssn))
  {
    var hashedSSN := hash(ssn);
    match Tables.FindIndex(patients, (p: Patient) => p.ssn == hashedSSN)
    case None => Err(NotFound)
    case Some(i) => Ok(ToDto(patients[i]))
  }

  /** Why a patient was refused, in the order the checks run. */
  datatype PatientError = NullPatient | MissingSsn | MissingFields | DuplicateSsn

  function StatusOf(e: PatientError): Status
  {
    match e
    case NullPatient => BadRequest
    case MissingSsn => BadRequest
    case MissingFields => BadRequest
    case DuplicateSsn => Conflict
  }

  /** First name, last name and gender are filled in (a null string arrives as the empty one). */
  predicate RequiredFieldsPresent(p: Patient)
  {
    p.firstName != "" && p.lastName != "" && p.gender != ""
  }

  /** The first check CreatePatient fails, if any. */
  function PatientRejection(patients: seq<Patient>, hash: string -> string, newPatient: Option<Patient>, ssn: string): (r: Option<PatientError>)
    ensures r == Some(NullPatient) <==> newPatient.None?
    ensures r == Some(MissingSsn) <==> newPatient.Some? && ssn == ""
    ensures r == Some(MissingFields) <==> newPatient.Some? && ssn != "" && !RequiredFieldsPresent(newPatient.value)
    ensures r == Some(DuplicateSsn) <==>
      newPatient.Some? && ssn != "" && RequiredFieldsPresent(newPatient.value) && Tables.HasKey(patients, PatientSsn, hash(ssn))
    ensures r.None? <==>
      newPatient.Some? && ssn != "" && RequiredFieldsPresent(newPatient.value) && !Tables.HasKey(patients, PatientSsn, hash(ssn))
  {
    if newPatient.None? then Some(NullPatient)
    else if ssn == "" then Some(MissingSsn)
    else if !RequiredFieldsPresent(newPatient.value) then Some(MissingFields)
    else if Tables.FindIndex(patients, (p: Patient) => p.ssn == hash(ssn)).Some? then Some(DuplicateSsn)
    else None
  }

  /**
   * After an accepted creation, looking the patient up by the same raw number
   * finds exactly the new patient, whatever the hash function is.
   */
  lemma CreateThenFindBySsn(patients: seq<Patient>, hash: string -> string, newPatient: Option<Patient>, ssn: string, id: int)
    requires PatientRejection(patients, hash, newPatient, ssn).None?
    ensures GetPatientBySSN(patients + [newPatient.value.(id := id, ssn := hash(ssn))], hash, ssn)
      == Ok(ToDto(newPatient.value.(id := id, ssn := hash(ssn))))
  {
    var stored := newPatient.value.(id := id, ssn := hash(ssn));
    var after := patients + [stored];
    forall j | 0 <= j < |patients| ensures after[j].ssn != hash(ssn) {
      assert after[j] == patients[j];
      assert PatientSsn(patients[j]) != hash(ssn);
    }
    assert after[|patients|] == stored;
  }

  /** An accepted creation keeps stored SSN hashes unique. */
  lemma CreateKeepsSsnUnique(patients: seq<Patient>, hash: string -> string, newPatient: Option<Patient>, ssn: string, id: int)
    requires Tables.UniqueBy(patients, PatientSsn)
    requires PatientRejection(patients, hash, newPatient, ssn).None?
    ensures Tables.UniqueBy(patients + [newPatient.value.(id := id, ssn := hash(ssn))], PatientSsn)
  {
    Tables.AppendKeepsUnique(patients, PatientSsn, newPatient.value.(id := id, ssn := hash(ssn)));
  }

  /**
   * CreatePatient: validate in order, refuse a number whose hash is already
   * stored, then store the patient with the hash (never the raw number) under
   * the next identity.
   */
  method CreatePatient(db: Data.AppointmentDbContext, hash: string -> string, newPatient: Option<Patient>, hashedSSN: string)
    returns (r: Result<Patient, PatientError>)
    requires db.Valid()
    modifies db
    ensures db.Valid()
    ensures r.Err? <==> PatientRejection(old(db.patients), hash, newPatient, hashedSSN).Some?
    ensures r.Err? ==> (r.error == PatientRejection(old(db.patients), hash, newPatient, hashedSSN).value
      && db.patients == old(db.patients) && db.nextPatientId == old(db.nextPatientId))
    ensures r.Ok? ==> (r.value == newPatient.value.(id := old(db.nextPatientId), ssn := hash(hashedSSN))
      && db.patients == old(db.patients) + [r.value] && db.nextPatientId == old(db.nextPatientId) + 1)
    ensures Tables.UniqueBy(old(db.patients), PatientSsn) ==> Tables.UniqueBy(db.patients, PatientSsn)
    ensures db.specialities == old(db.specialities) && db.clinics == old(db.clinics) && db.doctors == old(db.doctors)
      && db.appointments == old(db.appointments)
    ensures db.nextSpecialityId == old(db.nextSpecialityId) && db.nextClinicId == old(db.nextClinicId)
      && db.nextDoctorId == old(db.nextDoctorId) && db.nextAppointmentId == old(db.nextAppointmentId)
  {
    if newPatient.None? {
      return Err(NullPatient);
    }
    if hashedSSN == "" {
      return Err(MissingSsn);
    }
    var patient := newPatient.value;
    if patient.firstName == "" || patient.lastName == "" || patient.gender == "" {
      return Err(MissingFields);
    }
    var existingPatient := Tables.FindIndex(db.patients, (p: Patient) => p.ssn == hash(hashedSSN));
    if existingPatient.Some? {
      return Err(DuplicateSsn);
    }
    patient := patient.(ssn := hash(hashedSSN));
    patient := patient.(id := db.nextPatientId);
    if Tables.UniqueBy(db.patients, PatientSsn) {
      CreateKeepsSsnUnique(db.patients, hash, newPatient, hashedSSN, db.nextPatientId);
    }
    Data.InsertWithCounter(db.patients, PatientId, patient, db.nextPatientId);
    db.patients := db.patients + [patient];
    db.nextPatientId := db.nextPatientId + 1;
    r := Ok(patient);
  }

  /** Some appointment is for this patient. */
  predicate HasAppointments(appointments: seq<Appointment>, id: int)
  {
    exists j :: 0 <= j < |appointments| && appointments[j].patientId == id
  }

  /** Every appointment names a stored patient. */
  predicate AppointmentsReferToPatients(appointments: seq<Appointment>, patients: seq<Patient>)
  {
    Tables.AllReferTo(appointments, (a: Appointment) => a.patientId, patients, PatientId)
  }

  /** Deleting a patient no appointment is for keeps every appointment's patient resolvable. */
  lemma DeleteKeepsAppointmentReferences(patients: seq<Patient>, appointments: seq<Appointment>, i: nat)
    requires i < |patients|
    requires AppointmentsReferToPatients(appointments, patients)
    requires !HasAppointments(appointments, patients[i].id)
    ensures AppointmentsReferToPatients(appointments, Tables.RemoveAt(patients, i))
  {
    Tables.RemoveUnreferenced(appointments, (a: Appointment) => a.patientId, patients, PatientId, i);
  }

  /** DeletePatient: NotFound for an absent identity, BadRequest while appointments are for the patient, otherwise remove that patient. */
  method DeletePatient(db: Data.AppointmentDbContext, id: int) returns (r: Result<(), Status>)
    requires db.Valid()
    modifies db
    ensures db.Valid()
    ensures !Tables.HasKey(old(db.patients), PatientId, id) ==> r == Err(NotFound)
    ensures Tables.HasKey(old(db.patients), PatientId, id) && HasAppointments(db.appointments, id) ==> r == Err(BadRequest)
    ensures r.Ok? <==> Tables.HasKey(old(db.patients), PatientId, id) && !HasAppointments(db.appointments, id)
    ensures r.Err? ==> db.patients == old(db.patients)
    ensures r.Ok? ==> exists i :: (0 <= i < |old(db.patients)| && old(db.patients)[i].id == id
      && db.patients == Tables.RemoveAt(old(db.patients), i))
    ensures r.Ok? ==> !Tables.HasKey(db.patients, PatientId, id)
    ensures AppointmentsReferToPatients(db.appointments, old(db.patients)) ==> AppointmentsReferToPatients(db.appointments, db.patients)
    ensures db.specialities == old(db.specialities) && db.clinics == old(db.clinics) && db.doctors == old(db.doctors)
      && db.appointments == old(db.appointments) && db.nextPatientId == old(db.nextPatientId)
    ensures db.nextSpecialityId == old(db.nextSpecialityId) && db.nextClinicId == old(db.nextClinicId)
      && db.nextDoctorId == old(db.nextDoctorId) && db.nextAppointmentId == old(db.nextAppointmentId)
  {
    var found := Tables.FindIndex(db.patients, (p: Patient) => p.id == id);
    if found.None? {
      return Err(NotFound);
    }
    var i := found.value;
    if HasAppointments(db.appointments, id) {
      return Err(BadRequest);
    }
    assert PatientId(db.patients[i]) == id;
    Tables.FoundIsOnly(db.patients, PatientId, id, i);
    if AppointmentsReferToPatients(db.appointments, db.patients) {
      DeleteKeepsAppointmentReferences(db.patients, db.appointments, i);
    }
    Data.RemoveKeepsValid(db.patients, PatientId, i, db.nextPatientId);
    db.patients := Tables.RemoveAt(db.patients, i);
    r := Ok(());
  }
}
