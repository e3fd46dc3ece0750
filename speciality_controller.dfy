/** Speciality records: lookup, listing, creation with a duplicate-name check, deletion guarded by doctors. */
module SpecialityController {
  import opened Wrappers
  import opened Models
  import Tables
  import Data

  /** GetSpecialityById: the first speciality with that identity, or NotFound. */
  function GetSpecialityById(specialities: seq<Speciality>, id: int): (r: Result<Speciality, Status>)
    ensures r.Err? <==> !Tables.HasKey(specialities, SpecialityId, id)
    ensures r.Err? ==> r.error == NotFound
    ensures r.Ok? ==> r.value.id == id && r.value in specialities
  {
    match Tables.FindIndex(specialities, (s: Speciality) => s.id == id)
    case None => Err(NotFound)
    case Some(i) => Ok(specialities[i])
  }

  /** ViewAllSpecialities: the whole table, unprojected. */
  function ViewAllSpecialities(specialities: seq<Speciality>): (r: seq<Speciality>)
    ensures |r| == |specialities|
    ensures forall i :: 0 <= i < |r| ==> r[i] == specialities[i]
  {
    specialities
  }

  /** Every listed speciality is what looking it up by its identity returns, when identities are unique. */
  lemma ListingAgreesWithLookup(specialities: seq<Speciality>, i: nat)
    requires Tables.UniqueBy(specialities, SpecialityId)
    requires i < |specialities|
    ensures GetSpecialityById(specialities, specialities[i].id) == Ok(ViewAllSpecialities(specialities)[i])
  {
    assert SpecialityId(specialities[i]) == specialities[i].id;
    var r := GetSpecialityById(specialities, specialities[i].id);
    var j :| 0 <= j < |specialities| && specialities[j] == r.value;
    assert SpecialityId(specialities[j]) == SpecialityId(specialities[i]);
  }

  /** A speciality with the same name is already stored. */
  predicate NameTaken(specialities: seq<Speciality>, speciality: Speciality)
  {
    exists i :: 0 <= i < |specialities| && specialities[i].name == speciality.name
  }

  /** A creation that passes the duplicate-name check keeps speciality names unique. */
  lemma CreateKeepsNamesUnique(specialities: seq<Speciality>, speciality: Speciality, id: int)
    requires Tables.UniqueBy(specialities, SpecialityName)
    requires !NameTaken(specialities, speciality)
    ensures Tables.UniqueBy(specialities + [speciality.(id := id)], SpecialityName)
  {
    Tables.AppendKeepsUnique(specialities, SpecialityName, speciality.(id := id));
  }

  /** Create: Conflict when the name is taken, otherwise store the speciality under the next identity. */
  method Create(db: Data.AppointmentDbContext, speciality: Speciality) returns (r: Result<Speciality, Status>)
    requires db.Valid()
    modifies db
    ensures db.Valid()
    ensures r.Err? <==> NameTaken(old(db.specialities), speciality)
    ensures r.Err? ==> r.error == Conflict && db.specialities == old(db.specialities) && db.nextSpecialityId == old(db.nextSpecialityId)
    ensures r.Ok? ==> (r.value == speciality.(id := old(db.nextSpecialityId)) && db.specialities == old(db.specialities) + [r.value]
      && db.nextSpecialityId == old(db.nextSpecialityId) + 1)
    ensures Tables.UniqueBy(old(db.specialities), SpecialityName) ==> Tables.UniqueBy(db.specialities, SpecialityName)
    ensures db.clinics == old(db.clinics) && db.doctors == old(db.doctors) && db.patients == old(db.patients)
      && db.appointments == old(db.appointments)
    ensures db.nextClinicId == old(db.nextClinicId) && db.nextDoctorId == old(db.nextDoctorId)
      && db.nextPatientId == old(db.nextPatientId) && db.nextAppointmentId == old(db.nextAppointmentId)
  {
    var existingSpeciality := Tables.FindIndex(db.specialities, (s: Speciality) => s.name == speciality.name);
    if existingSpeciality.Some? {
      return Err(Conflict);
    }
    var stored := speciality.(id := db.nextSpecialityId);
    if Tables.UniqueBy(db.specialities, SpecialityName) {
      CreateKeepsNamesUnique(db.specialities, speciality, db.nextSpecialityId);
    }
    Data.InsertWithCounter(db.specialities, SpecialityId, stored, db.nextSpecialityId);
    db.specialities := db.specialities + [stored];
    db.nextSpecialityId := db.nextSpecialityId + 1;
    r := Ok(stored);
  }

  /** Some doctor has this speciality. */
  predicate HasDoctors(doctors: seq<Doctor>, id: int)
  {
    exists j :: 0 <= j < |doctors| && doctors[j].specialityId == id
  }

  /** Every doctor names a stored speciality. */
  predicate DoctorsReferToSpecialities(doctors: seq<Doctor>, specialities: seq<Speciality>)
  {
    Tables.AllReferTo(doctors, (d: Doctor) => d.specialityId, specialities, SpecialityId)
  }

  /** Deleting a speciality no doctor has keeps every doctor's speciality resolvable. */
  lemma DeleteKeepsDoctorReferences(specialities: seq<Speciality>, doctors: seq<Doctor>, i: nat)
    requires i < |specialities|
    requires DoctorsReferToSpecialities(doctors, specialities)
    requires !HasDoctors(doctors, specialities[i].id)
    ensures DoctorsReferToSpecialities(doctors, Tables.RemoveAt(specialities, i))
  {
    Tables.RemoveUnreferenced(doctors, (d: Doctor) => d.specialityId, specialities, SpecialityId, i);
  }

  /**
   * DeleteSpeciality: the dependency check runs first, so an identity some
   * doctor still names is refused with BadRequest even when no such
   * speciality is stored; then NotFound; otherwise remove that speciality.
   */
  method DeleteSpeciality(db: Data.AppointmentDbContext, id: int) returns (r: Result<(), Status>)
    requires db.Valid()
    modifies db
    ensures db.Valid()
    ensures HasDoctors(db.doctors, id) ==> r == Err(BadRequest)
    ensures !HasDoctors(db.doctors, id) && !Tables.HasKey(old(db.specialities), SpecialityId, id) ==> r == Err(NotFound)
    ensures r.Ok? <==> !HasDoctors(db.doctors, id) && Tables.HasKey(old(db.specialities), SpecialityId, id)
    ensures r.Err? ==> db.specialities == old(db.specialities)
    ensures r.Ok? ==> exists i :: (0 <= i < |old(db.specialities)| && old(db.specialities)[i].id == id
      && db.specialities == Tables.RemoveAt(old(db.specialities), i))
    ensures r.Ok? ==> !Tables.HasKey(db.specialities, SpecialityId, id) && !HasDoctors(db.doctors, id)
    ensures DoctorsReferToSpecialities(db.doctors, old(db.specialities)) ==> DoctorsReferToSpecialities(db.doctors, db.specialities)
    ensures db.clinics == old(db.clinics) && db.doctors == old(db.doctors) && db.patients == old(db.patients)
      && db.appointments == old(db.appointments) && db.nextSpecialityId == old(db.nextSpecialityId)
    ensures db.nextClinicId == old(db.nextClinicId) && db.nextDoctorId == old(db.nextDoctorId)
      && db.nextPatientId == old(db.nextPatientId) && db.nextAppointmentId == old(db.nextAppointmentId)
  {
    if HasDoctors(db.doctors, id) {
      return Err(BadRequest);
    }
    var found := Tables.FindIndex(db.specialities, (s: Speciality) => s.id == id);
    if found.None? {
      return Err(NotFound);
    }
    var i := found.value;
    assert SpecialityId(db.specialities[i]) == id;
    Tables.FoundIsOnly(db.specialities, SpecialityId, id, i);
    if DoctorsReferToSpecialities(db.doctors, db.specialities) {
      DeleteKeepsDoctorReferences(db.specialities, db.doctors, i);
    }
    Data.RemoveKeepsValid(db.specialities, SpecialityId, i, db.nextSpecialityId);
    db.specialities := Tables.RemoveAt(db.specialities, i);
    r := Ok(());
  }

  /** When every doctor's speciality is stored, a named speciality exists, so the order of the two checks only shows on inconsistent data. */
  lemma ReferencedSpecialityIsStored(doctors: seq<Doctor>, specialities: seq<Speciality>, id: int)
    requires DoctorsReferToSpecialities(doctors, specialities)
    requires HasDoctors(doctors, id)
    ensures Tables.HasKey(specialities, SpecialityId, id)
  {
    var j :| 0 <= j < |doctors| && doctors[j].specialityId == id;
    assert ((d: Doctor) => d.specialityId)(doctors[j]) == id;
  }
}
