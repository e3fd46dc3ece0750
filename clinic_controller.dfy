/** Clinic records: lookup and listing with each clinic's doctors, creation with a duplicate-name check, deletion guarded by doctors. */
module ClinicController {
  import opened Wrappers
  import opened Models
  import Tables
  import Data
  import DoctorController

  /** A doctor as listed under a clinic: identity, names and the speciality row the doctor refers to. */
  datatype ClinicDoctor = ClinicDoctor(id: int, firstName: string, lastName: string, speciality: Option<Speciality>)

  /** The projection both read endpoints return: the clinic's columns and its doctors. */
  datatype ClinicView = ClinicView(id: int, name: string, address: string, doctors: seq<ClinicDoctor>)

  /** A doctor works at the clinic with key `id`. */
  function AtClinic(id: int): Doctor -> bool
  {
    (d: Doctor) => d.clinicId == id
  }

  /** The doctors whose clinic key is `id` (the clinic's `Doctors` collection), each once and in table order. */
  function DoctorsOf(doctors: seq<Doctor>, id: int): (r: seq<Doctor>)
    ensures forall i :: 0 <= i < |r| ==> r[i].clinicId == id && r[i] in doctors
    ensures forall i :: 0 <= i < |doctors| && doctors[i].clinicId == id ==> doctors[i] in r
    ensures |r| == |Tables.Positions(doctors, AtClinic(id))|
    ensures forall k :: 0 <= k < |r| ==> r[k] == doctors[Tables.Positions(doctors, AtClinic(id))[k]]
  {
    Tables.FilterIsAtPositions(doctors, AtClinic(id));
    Tables.Filter(doctors, AtClinic(id))
  }

  function ListDoctor(d: Doctor, specialities: seq<Speciality>): ClinicDoctor
  {
    ClinicDoctor(d.id, d.firstName, d.lastName, DoctorController.SpecialityOf(specialities, d.specialityId))
  }

  /** Each doctor of `ds` as listed under a clinic, in the same order. */
  function ListDoctors(ds: seq<Doctor>, specialities: seq<Speciality>): (r: seq<ClinicDoctor>)
    ensures |r| == |ds|
    ensures forall k :: 0 <= k < |ds| ==> r[k] == ListDoctor(ds[k], specialities)
  {
    seq(|ds|, k requires 0 <= k < |ds| => ListDoctor(ds[k], specialities))
  }

  /** Every doctor working at the clinic appears in the clinic's listing. */
  lemma ClinicDoctorIsListed(doctors: seq<Doctor>, specialities: seq<Speciality>, id: int, k: nat)
    requires k < |doctors| && doctors[k].clinicId == id
    ensures ListDoctor(doctors[k], specialities) in ListDoctors(DoctorsOf(doctors, id), specialities)
  {
    var own := DoctorsOf(doctors, id);
    var j :| 0 <= j < |own| && own[j] == doctors[k];
    assert ListDoctors(own, specialities)[j] == ListDoctor(doctors[k], specialities);
  }

  /** A clinic with its doctors, each projected in the order the doctor table holds them. */
  function ViewOf(c: Clinic, doctors: seq<Doctor>, specialities: seq<Speciality>): (v: ClinicView)
    ensures v.id == c.id && v.name == c.name && v.address == c.address
    ensures |v.doctors| == |DoctorsOf(doctors, c.id)|
    ensures forall k :: 0 <= k < |v.doctors| ==> v.doctors[k] == ListDoctor(DoctorsOf(doctors, c.id)[k], specialities)
    ensures forall k :: 0 <= k < |doctors| && doctors[k].clinicId == c.id ==>
      ListDoctor(doctors[k], specialities) in v.doctors
  {
    forall k | 0 <= k < |doctors| && doctors[k].clinicId == c.id
      ensures ListDoctor(doctors[k], specialities) in ListDoctors(DoctorsOf(doctors, c.id), specialities)
    {
      ClinicDoctorIsListed(doctors, specialities, c.id, k);
    }
    ClinicView(c.id, c.name, c.address, ListDoctors(DoctorsOf(doctors, c.id), specialities))
  }

  /** GetClinicById: the first clinic with that identity together with its doctors, or NotFound. */
  function GetClinicById(clinics: seq<Clinic>, doctors: seq<Doctor>, specialities: seq<Speciality>, id: int): (r: Result<ClinicView, Status>)
    ensures r.Err? <==> !Tables.HasKey(clinics, ClinicId, id)
    ensures r.Err? ==> r.error == NotFound
    ensures r.Ok? ==> (r.value.id == id
      && (exists i :: 0 <= i < |clinics| && clinics[i].id == id && r.value == ViewOf(clinics[i], doctors, specialities)))
  {
    match Tables.FindIndex(clinics, (c: Clinic) => c.id == id)
    case None => Err(NotFound)
    case Some(i) => Ok(ViewOf(clinics[i], doctors, specialities))
  }

  /** ViewAllClinics: every clinic with its doctors, in table order. */
  function ViewAllClinics(clinics: seq<Clinic>, doctors: seq<Doctor>, specialities: seq<Speciality>): (r: seq<ClinicView>)
    ensures |r| == |clinics|
    ensures forall i :: 0 <= i < |clinics| ==> r[i].id == clinics[i].id && r[i] == ViewOf(clinics[i], doctors, specialities)
  {
    seq(|clinics|, i requires 0 <= i < |clinics| => ViewOf(clinics[i], doctors, specialities))
  }

  /** With unique identities, each listed clinic is exactly what looking it up by its identity returns. */
  lemma ListingAgreesWithLookup(clinics: seq<Clinic>, doctors: seq<Doctor>, specialities: seq<Speciality>, i: nat)
    requires Tables.UniqueBy(clinics, ClinicId)
    requires i < |clinics|
    ensures GetClinicById(clinics, doctors, specialities, clinics[i].id) == Ok(ViewAllClinics(clinics, doctors, specialities)[i])
  {
    var r := GetClinicById(clinics, doctors, specialities, clinics[i].id);
    assert ClinicId(clinics[i]) == clinics[i].id;
    var j :| 0 <= j < |clinics| && clinics[j].id == clinics[i].id && r.value == ViewOf(clinics[j], doctors, specialities);
    assert ClinicId(clinics[j]) == ClinicId(clinics[i]);
  }

  /** A clinic with the same name is already stored. */
  predicate NameTaken(clinics: seq<Clinic>, clinic: Clinic)
  {
    exists i :: 0 <= i < |clinics| && clinics[i].name == clinic.name
  }

  /** A creation that passes the duplicate-name check keeps clinic names unique. */
  lemma CreateKeepsNamesUnique(clinics: seq<Clinic>, clinic: Clinic, id: int)
    requires Tables.UniqueBy(clinics, ClinicName)
    requires !NameTaken(clinics, clinic)
    ensures Tables.UniqueBy(clinics + [clinic.(id := id)], ClinicName)
  {
    Tables.AppendKeepsUnique(clinics, ClinicName, clinic.(id := id));
  }

  /** Create: Conflict when the name is taken, otherwise store the clinic under the next identity. */
  method Create(db: Data.AppointmentDbContext, clinic: Clinic) returns (r: Result<Clinic, Status>)
    requires db.Valid()
    modifies db
    ensures db.Valid()
    ensures r.Err? <==> NameTaken(old(db.clinics), clinic)
    ensures r.Err? ==> r.error == Conflict && db.clinics == old(db.clinics) && db.nextClinicId == old(db.nextClinicId)
    ensures r.Ok? ==> (r.value == clinic.(id := old(db.nextClinicId)) && db.clinics == old(db.clinics) + [r.value]
      && db.nextClinicId == old(db.nextClinicId) + 1)
    ensures Tables.UniqueBy(old(db.clinics), ClinicName) ==> Tables.UniqueBy(db.clinics, ClinicName)
    ensures db.specialities == old(db.specialities) && db.doctors == old(db.doctors) && db.patients == old(db.patients)
      && db.appointments == old(db.appointments)
    ensures db.nextSpecialityId == old(db.nextSpecialityId) && db.nextDoctorId == old(db.nextDoctorId)
      && db.nextPatientId == old(db.nextPatientId) && db.nextAppointmentId == old(db.nextAppointmentId)
  {
    var existingClinic := Tables.FindIndex(db.clinics, (c: Clinic) => c.name == clinic.name);
    if existingClinic.Some? {
      return Err(Conflict);
    }
    var stored := clinic.(id := db.nextClinicId);
    if Tables.UniqueBy(db.clinics, ClinicName) {
      CreateKeepsNamesUnique(db.clinics, clinic, db.nextClinicId);
    }
    Data.InsertWithCounter(db.clinics, ClinicId, stored, db.nextClinicId);
    db.clinics := db.clinics + [stored];
    db.nextClinicId := db.nextClinicId + 1;
    r := Ok(stored);
  }

  /** Some doctor works at this clinic. */
  predicate HasDoctors(doctors: seq<Doctor>, id: int)
  {
    exists j :: 0 <= j < |doctors| && doctors[j].clinicId == id
  }

  /** Every doctor names a stored clinic. */
  predicate DoctorsReferToClinics(doctors: seq<Doctor>, clinics: seq<Clinic>)
  {
    Tables.AllReferTo(doctors, (d: Doctor) => d.clinicId, clinics, ClinicId)
  }

  /** Deleting a clinic no doctor works at keeps every doctor's clinic resolvable. */
  lemma DeleteKeepsDoctorReferences(clinics: seq<Clinic>, doctors: seq<Doctor>, i: nat)
    requires i < |clinics|
    requires DoctorsReferToClinics(doctors, clinics)
    requires !HasDoctors(doctors, clinics[i].id)
    ensures DoctorsReferToClinics(doctors, Tables.RemoveAt(clinics, i))
  {
    Tables.RemoveUnreferenced(doctors, (d: Doctor) => d.clinicId, clinics, ClinicId, i);
  }

  /** Delete: NotFound for an absent identity, BadRequest while doctors work at the clinic, otherwise remove that clinic. */
  method Delete(db: Data.AppointmentDbContext, id: int) returns (r: Result<(), Status>)
    requires db.Valid()
    modifies db
    ensures db.Valid()
    ensures !Tables.HasKey(old(db.clinics), ClinicId, id) ==> r == Err(NotFound)
    ensures Tables.HasKey(old(db.clinics), ClinicId, id) && HasDoctors(db.doctors, id) ==> r == Err(BadRequest)
    ensures r.Ok? <==> Tables.HasKey(old(db.clinics), ClinicId, id) && !HasDoctors(db.doctors, id)
    ensures r.Err? ==> db.clinics == old(db.clinics)
    ensures r.Ok? ==> exists i :: (0 <= i < |old(db.clinics)| && old(db.clinics)[i].id == id
      && db.clinics == Tables.RemoveAt(old(db.clinics), i))
    ensures r.Ok? ==> !Tables.HasKey(db.clinics, ClinicId, id) && !HasDoctors(db.doctors, id)
    ensures DoctorsReferToClinics(db.doctors, old(db.clinics)) ==> DoctorsReferToClinics(db.doctors, db.clinics)
    ensures db.specialities == old(db.specialities) && db.doctors == old(db.doctors) && db.patients == old(db.patients)
      && db.appointments == old(db.appointments) && db.nextClinicId == old(db.nextClinicId)
    ensures db.nextSpecialityId == old(db.nextSpecialityId) && db.nextDoctorId == old(db.nextDoctorId)
      && db.nextPatientId == old(db.nextPatientId) && db.nextAppointmentId == old(db.nextAppointmentId)
  {
    var found := Tables.FindIndex(db.clinics, (c: Clinic) => c.id == id);
    if found.None? {
      return Err(NotFound);
    }
    var i := found.value;
    if HasDoctors(db.doctors, id) {
      return Err(BadRequest);
    }
    assert ClinicId(db.clinics[i]) == id;
    Tables.FoundIsOnly(db.clinics, ClinicId, id, i);
    if DoctorsReferToClinics(db.doctors, db.clinics) {
      DeleteKeepsDoctorReferences(db.clinics, db.doctors, i);
    }
    Data.RemoveKeepsValid(db.clinics, ClinicId, i, db.nextClinicId);
    db.clinics := Tables.RemoveAt(db.clinics, i);
    r := Ok(());
  }
}
