/**
 * The database context the five controllers share: one table per entity and
 * the auto-increment counter the store draws each new identity from.
 */
module Data {
  import opened Models
  import Tables

  class AppointmentDbContext {
    var specialities: seq<Speciality>
    var clinics: seq<Clinic>
    var doctors: seq<Doctor>
    var patients: seq<Patient>
    var appointments: seq<Appointment>

    var nextSpecialityId: int
    var nextClinicId: int
    var nextDoctorId: int
    var nextPatientId: int
    var nextAppointmentId: int

    /** Primary keys are unique, positive and below their table's counter. */
    ghost predicate Valid()
      reads this
    {
      && nextSpecialityId >= 1 && nextClinicId >= 1 && nextDoctorId >= 1 && nextPatientId >= 1 && nextAppointmentId >= 1
      && Tables.UniqueBy(specialities, SpecialityId) && Tables.KeysInRange(specialities, SpecialityId, 1, nextSpecialityId)
      && Tables.UniqueBy(clinics, ClinicId) && Tables.KeysInRange(clinics, ClinicId, 1, nextClinicId)
      && Tables.UniqueBy(doctors, DoctorId) && Tables.KeysInRange(doctors, DoctorId, 1, nextDoctorId)
      && Tables.UniqueBy(patients, PatientId) && Tables.KeysInRange(patients, PatientId, 1, nextPatientId)
      && Tables.UniqueBy(appointments, AppointmentId) && Tables.KeysInRange(appointments, AppointmentId, 1, nextAppointmentId)
    }

    /** An empty database. */
    constructor ()
      ensures Valid()
      ensures specialities == [] && clinics == [] && doctors == [] && patients == [] && appointments == []
    {
      specialities, clinics, doctors, patients, appointments := [], [], [], [], [];
      nextSpecialityId, nextClinicId, nextDoctorId, nextPatientId, nextAppointmentId := 1, 1, 1, 1, 1;
    }
  }

  /** A key at or above a table's counter is not taken. */
  lemma CounterIsFresh<T>(s: seq<T>, key: T -> int, lo: int, next: int)
    requires Tables.KeysInRange(s, key, lo, next)
    ensures !Tables.HasKey(s, key, next)
  {
  }

  /** Appending a row keyed by the counter, then advancing the counter, keeps keys unique and in range. */
  lemma InsertWithCounter<T>(s: seq<T>, key: T -> int, x: T, next: int)
    requires Tables.UniqueBy(s, key) && Tables.KeysInRange(s, key, 1, next)
    requires key(x) == next && next >= 1
    ensures Tables.UniqueBy(s + [x], key) && Tables.KeysInRange(s + [x], key, 1, next + 1)
  {
    Tables.AppendKeepsUnique(s, key, x);
    var t := s + [x];
    forall i | 0 <= i < |t| ensures 1 <= key(t[i]) < next + 1 {
      if i < |s| { assert t[i] == s[i]; }
    }
  }

  /** Removing a row keeps keys unique and in range. */
  lemma RemoveKeepsValid<T>(s: seq<T>, key: T -> int, i: nat, next: int)
    requires i < |s|
    requires Tables.UniqueBy(s, key) && Tables.KeysInRange(s, key, 1, next)
    ensures Tables.UniqueBy(Tables.RemoveAt(s, i), key) && Tables.KeysInRange(Tables.RemoveAt(s, i), key, 1, next)
  {
    Tables.RemoveKeepsUnique(s, key, i);
  }
}
