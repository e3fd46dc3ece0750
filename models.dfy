/**
 * The stored records. Navigation properties are replaced by the integer
 * foreign keys they are loaded through.
 */
module Models {
  import opened WorkingCalendar

  datatype Speciality = Speciality(id: int, name: string)

  datatype Clinic = Clinic(id: int, name: string, address: string)

  datatype Doctor = Doctor(id: int, firstName: string, lastName: string, specialityId: int, clinicId: int)

  /** `ssn` holds the hash of the social security number, never the number itself. */
  datatype Patient = Patient(id: int, firstName: string, lastName: string, ssn: string, birthdate: Instant, gender: string)

  datatype Appointment = Appointment(id: int, date: Instant, note: string, patientId: int, doctorId: int, clinicId: int)

  /** Key selectors, passed to the generic table queries. */
  function SpecialityId(s: Speciality): int { s.id }
  function ClinicId(c: Clinic): int { c.id }
  function DoctorId(d: Doctor): int { d.id }
  function PatientId(p: Patient): int { p.id }
  function AppointmentId(a: Appointment): int { a.id }

  function SpecialityName(s: Speciality): string { s.name }
  function ClinicName(c: Clinic): string { c.name }
  function DoctorFullName(d: Doctor): (string, string) { (d.firstName, d.lastName) }
  function PatientSsn(p: Patient): string { p.ssn }

  /** The key no two appointments may share: the doctor and the exact timestamp. */
  function AppointmentSlot(a: Appointment): (int, Instant) { (a.doctorId, a.date) }
}
