# Medical appointment scheduling, modelled in Dafny

This project models the booking engine of a clinic appointment system. Its back end is an ASP.NET Core API over a MySQL database, and its front end is a Next.js booking screen.

## What is modelled

- **The working day.** A clinic is open 08:00 to 17:00 UTC, with a break from 12:00 to 13:00, and closed on Saturdays and Sundays. Bookable slots start every 30 minutes from 08:00.
- **Availability.**
  - The clinic listing gives, for each doctor of a clinic, the free slots of one day.
  - The single-slot check says whether one exact timestamp is free with one doctor of one clinic.
- **Booking.**
  - `CreateAppointment` runs five checks in a fixed order, then stores the appointment.
  - Sequential bookings keep the invariant that no two appointments share a (doctor, timestamp) pair.
  - `DeleteAppointment` removes an appointment by identity.
- **Records.**
  - **Doctors:** lookup, listing, substring search, creation refused on a duplicate full name, and deletion refused while appointments reference the doctor.
  - **Patients:** lookup by identity and by hashed social security number, a DTO (data transfer object) without the SSN, creation with its validation order and duplicate-SSN check, and deletion guarded by appointments.
  - **Clinics:** lookup and listing with each clinic's doctors, creation refused on a duplicate name, and deletion guarded by doctors.
  - **Specialities:** lookup, listing, creation refused on a duplicate name, and deletion in which the dependency check runs before the existence check.
- **The booking screen.**
  - The doctor list regroups the clinic listing by slot and sorts the slots by time.
  - The calendar covers:
    - month navigation and month lengths;
    - the Monday-first month grid: weekday headers, blank cells, then one cell per day;
    - the `YYYY-MM-DD` keys under which days are fetched and looked up.

## How it is represented

- **Time.**
  - A timestamp is an `Instant`: whole minutes since 0001-01-01T00:00 UTC, the value of `default(DateTime)`. That day was a Monday.
  - The calendar day is `t / 1440`, the time of day `t % 1440`, and .NET's `DayOfWeek` `(day + 1) % 7`, with Sunday as 0.
  - The server clock `DateTime.UtcNow` becomes a parameter `now`.
- **The database.**
  - The database context is the class `Data.AppointmentDbContext`. It holds one sequence per table, in table order, plus one auto-increment counter per table.
  - `Valid()` says that primary keys are unique, positive and below their counter.
  - The controllers are modules:
    - read endpoints are functions over the tables;
    - endpoints that write are methods with `modifies db`, and they state the whole new state.
- **Outcomes.** HTTP results become `Result` values whose errors are `BadRequest`, `Conflict` or `NotFound`. `Ok`, `Created` and `NoContent` become `Ok`.
- **Hashing.** SHA-256 with Base64 (`Back-End/Helpers/hash.cs`) is a function parameter `hash: string -> string`. It is treated as deterministic but otherwise unknown.
- **The front end.**
  - The doctor list's JavaScript `Map` becomes a key list in insertion order plus a Dafny `map`.
  - Slot strings are the instants they denote.
  - The calendar's per-day fetch is a function parameter `responseLength: string -> nat`, the number of doctors returned for a date key.
  - The calendar's JavaScript `Date` arithmetic is written out:
    - the proleptic Gregorian calendar;
    - month rollover into the neighbouring year;
    - day 0 as the last day of the previous month;
    - years 0 to 99 read as 1900 to 1999.

## Behaviour of the code worth knowing

- Neither booking nor the single-slot check requires the timestamp to lie on the 30-minute grid. Any minute inside an open window is accepted, as long as no appointment has exactly that timestamp. Only the listing generates grid slots.
- The first check of `CreateAppointment` only requires non-zero keys and a non-default date. It does not check that the patient, doctor or clinic exists, nor that the doctor works at that clinic.
- The listing drops a slot when any appointment of the doctor that day has the same time of day. The single-slot check and booking compare exact timestamps.
- `CreateAppointment` computes the conflict before it tests for a weekend, but it reports the weekend first. The model reports in the same order.

## Model

| member | source | states |
|---|---|---|
| WorkingCalendar.GetWorkingHours | Back-End/Controllers/AppointmentController.cs:70-78 | The start, break start, break end and end fall on the input's calendar day at 08:00, 12:00, 13:00 and 17:00, in increasing order |
| WorkingCalendar.WorkingHoursIgnoreTimeOfDay | Back-End/Controllers/AppointmentController.cs:70-78 | Two instants on the same day get the same working hours, so the time of day of the input plays no part |
| WorkingCalendar.WithinOwnHoursIff | Back-End/Controllers/AppointmentController.cs:189 | A timestamp checked against its own day's hours is within them exactly when its time of day is in [08:00,12:00) or [13:00,17:00) |
| WorkingCalendar.OtherDayNotWithin | Back-End/Controllers/AppointmentController.cs:117-118 | Whatever passes the working-hours test against some day's hours lies on that day, inside an open window |
| AppointmentController.SpecialtyName | Back-End/Controllers/AppointmentController.cs:143 | The speciality name is present exactly when some stored speciality has the doctor's speciality key, and it is the `Name` of the first stored speciality with that key |
| AppointmentController.IsBookedIsHasKey | Back-End/Controllers/AppointmentController.cs:40-50 | The conflict check holds exactly when the (doctor, timestamp) key is already taken in the appointment table |
| AppointmentController.OpenSlotsMembers | Back-End/Controllers/AppointmentController.cs:112-133 | A time is listed exactly when it is on the day asked for, on the 30-minute grid, inside an open window, strictly after `now`, and not the time of day of one of the doctor's appointments that day |
| AppointmentController.OpenSlotsAscending | Back-End/Controllers/AppointmentController.cs:113-132 | A doctor's listed slots are strictly ascending, so there are no duplicates |
| AppointmentController.SixteenSlotsOnFreeDay | Back-End/Controllers/AppointmentController.cs:113-132 | With `now` before 08:00 and no appointments, exactly 16 slots are listed, and neither 12:00 nor 12:30 is among them |
| AppointmentController.AvailableSlots | Back-End/Controllers/AppointmentController.cs:109-133 | The slot loop yields exactly the open slots: membership as above, in strictly ascending order |
| AppointmentController.ViewAllAvailableDoctorAppointments | Back-End/Controllers/AppointmentController.cs:82-155 | The result is the clinic listing: empty on a Saturday or Sunday, otherwise one entry per doctor of the clinic that has an open slot, in table order |
| AppointmentController.CollectSound | Back-End/Controllers/AppointmentController.cs:101-147 | Every collected entry comes from one of the given doctors, with that doctor's names and non-empty open slots |
| AppointmentController.CollectComplete | Back-End/Controllers/AppointmentController.cs:101-147 | Every given doctor with an open slot has an entry carrying exactly those slots |
| AppointmentController.ListedDoctorsBelongToClinic | Back-End/Controllers/AppointmentController.cs:93-146 | A non-empty listing means a weekday, and every listed doctor belongs to the clinic and carries exactly that day's open slots, at least one |
| AppointmentController.ClinicDoctorWithOpenSlotIsListed | Back-End/Controllers/AppointmentController.cs:93-146 | On a weekday, every doctor of the clinic with an open slot is listed with those slots |
| AppointmentController.ViewAvailableDoctorAppointments | Back-End/Controllers/AppointmentController.cs:159-215 | The slot is returned exactly when it is a weekday, the doctor exists in that clinic, the time is in an open window, it is strictly after `now`, and no appointment has exactly that (doctor, timestamp); every failure is NotFound; the returned entry carries the first matching doctor's ID, first and last name and speciality name, with the one requested time as its only slot |
| AppointmentController.ListedSlotIsOpen | Back-End/Controllers/AppointmentController.cs:93-133 | A slot of the clinic listing is an open slot, on a weekday, of a doctor who belongs to the clinic |
| AppointmentController.FreeTimeIsNotBooked | Back-End/Controllers/AppointmentController.cs:105-124 | A time whose time of day is free among the doctor's appointments of that day has no appointment with that doctor at exactly that time, as the single-slot check at lines 182-183 tests |
| AppointmentController.ListedSlotPassesSingleCheck | Back-End/Controllers/AppointmentController.cs:170-209 | Every slot of the clinic listing passes the single-slot check for the same `now` and store |
| AppointmentController.BookingRejection | Back-End/Controllers/AppointmentController.cs:224-266 | The first failing check, in order: missing fields, weekend, taken (doctor, timestamp), outside the windows, not after `now`; each error holds exactly when its check fails and all earlier ones pass, and there is none exactly when all pass |
| AppointmentController.BookingKeepsNoDoubleBooking | Back-End/Controllers/AppointmentController.cs:224-270 | Appending an accepted booking keeps (doctor, timestamp) unique across the appointment table |
| AppointmentController.BookedSlotNoLongerAvailable | Back-End/Controllers/AppointmentController.cs:182-195 | Before an accepted booking the single-slot check offers that timestamp (for a doctor of the clinic); after it, the check answers NotFound |
| AppointmentController.ListedSlotIsBookable | Back-End/Controllers/AppointmentController.cs:224-266 | A slot taken from the clinic listing passes every booking check, given non-zero keys |
| AppointmentController.CreateAppointment | Back-End/Controllers/AppointmentController.cs:219-280 | It fails exactly when a check fails, with the first failing check, leaving the table unchanged; on success exactly the appointment is appended under the next identity and nothing else changes; keys stay valid and no double booking arises |
| AppointmentController.DeleteAppointment | Back-End/Controllers/AppointmentController.cs:283-304 | NotFound exactly when no appointment has the identity; otherwise exactly that row is removed, and the identity is gone afterwards |
| DoctorController.SpecialityOf | Back-End/Controllers/DoctorController.cs:32 | The speciality is a stored row with the doctor's key, and absent exactly when no row has that key |
| DoctorController.ClinicOf | Back-End/Controllers/DoctorController.cs:35-43 | The clinic summary is the ID, name and address of the first stored clinic with the doctor's clinic key, and is absent exactly when no clinic has it |
| DoctorController.GetDoctorById | Back-End/Controllers/DoctorController.cs:26-53 | NotFound exactly when no doctor has the identity; otherwise the projection of a doctor with that identity |
| DoctorController.ViewAllDoctors | Back-End/Controllers/DoctorController.cs:65-84 | One projection per doctor, in table order |
| DoctorController.ListingAgreesWithLookup | Back-End/Controllers/DoctorController.cs:26-84 | With unique identities, each listed doctor is exactly what the lookup by that doctor's identity returns |
| DoctorController.ContainsIff | Back-End/Controllers/DoctorController.cs:100 | `Contains` holds exactly when the query occurs at some position of the name |
| DoctorController.SearchDoctors | Back-End/Controllers/DoctorController.cs:138-171 | BadRequest for a blank name; otherwise NotFound exactly when no doctor's first or last name contains it, and the result lists every matching doctor and only matching doctors, one entry per match, in table order (the k-th entry is the projection of the doctor at the k-th matching position) |
| DoctorController.MatchesAreListed | Back-End/Controllers/DoctorController.cs:145-168 | Projecting the filtered doctors lists every match, and it is empty exactly when nothing matches |
| DoctorController.MatchesInTableOrder | Back-End/Controllers/DoctorController.cs:145-168 | The projected search result has one entry per matching doctor, the k-th being the doctor at the k-th matching position of the table |
| DoctorController.ListedAreMatches | Back-End/Controllers/DoctorController.cs:145-168 | Every entry of the projected search result is the projection of a doctor whose first or last name contains the query |
| Tables.Positions | Back-End/Controllers/DoctorController.cs:145-168 | The positions of the rows a `Where` predicate keeps: each satisfies it, they strictly increase, and every satisfying row's position is among them |
| Tables.FilterIsAtPositions | Back-End/Controllers/DoctorController.cs:145-168 | `Where` keeps exactly the rows at those positions, one entry per kept row, in table order |
| DoctorController.SearchDoctor | Back-End/Controllers/DoctorController.cs:92-125 | BadRequest for a blank name; a result is the projection of the first doctor in table order whose first or last name contains the query |
| DoctorController.SearchDoctorIsFirstOfSearchDoctors | Back-End/Controllers/DoctorController.cs:89-177 | The single search returns the first entry of the list search and fails exactly as it does |
| DoctorController.CreateKeepsNamesUnique | Back-End/Controllers/DoctorController.cs:186-196 | A creation that passes the duplicate check keeps (first name, last name) unique |
| DoctorController.Create | Back-End/Controllers/DoctorController.cs:181-205 | Conflict exactly when a doctor with the same first and last name exists, with the table unchanged; otherwise exactly that doctor is appended under the next identity; unique full names are preserved |
| DoctorController.DeleteKeepsAppointmentReferences | Back-End/Controllers/DoctorController.cs:241-248 | Removing a doctor that no appointment references keeps every appointment's doctor resolvable |
| DoctorController.DeleteDoctor | Back-End/Controllers/DoctorController.cs:227-257 | NotFound for an absent identity; BadRequest with the table unchanged while an appointment references the doctor; it succeeds exactly when the doctor is stored and unreferenced, removing exactly that doctor |
| PatientController.ToDto | Back-End/Controllers/PatientController.cs:32-39 | The DTO copies identity, names, birthdate and gender |
| PatientController.DtoHidesSsn | Back-End/DTOs/patientDTO.cs:1-11 | Patients that differ only in their SSN have the same DTO, so the DTO reveals nothing of the SSN |
| PatientController.GetPatientById | Back-End/Controllers/PatientController.cs:23-42 | NotFound exactly when no patient has the identity; otherwise the DTO of a patient with it |
| PatientController.ViewAllDoctors | Back-End/Controllers/PatientController.cs:46-59 | One DTO per patient, in table order |
| PatientController.GetPatientBySSN | Back-End/Controllers/PatientController.cs:63-84 | NotFound exactly when no stored SSN equals the hash of the number; otherwise the DTO of the first patient storing that hash |
| PatientController.PatientRejection | Back-End/Controllers/PatientController.cs:90-117 | The first failing check, in order: null patient, empty SSN, empty first name, last name or gender, hash of the SSN already stored; each error holds exactly when its check fails and all earlier ones pass |
| PatientController.CreateThenFindBySsn | Back-End/Controllers/PatientController.cs:65-123 | After an accepted creation, looking up the same raw number returns the new patient's DTO, whatever the hash function is |
| PatientController.CreateKeepsSsnUnique | Back-End/Controllers/PatientController.cs:110-123 | An accepted creation keeps stored SSN hashes unique |
| PatientController.CreatePatient | Back-End/Controllers/PatientController.cs:88-126 | It fails exactly when a check fails, with the first failing check and the table unchanged; on success the patient is appended with the hash of the number as its SSN, never the number, under the next identity |
| PatientController.DeleteKeepsAppointmentReferences | Back-End/Controllers/PatientController.cs:160-167 | Removing a patient that no appointment references keeps every appointment's patient resolvable |
| PatientController.DeletePatient | Back-End/Controllers/PatientController.cs:148-172 | NotFound for an absent identity; BadRequest with the table unchanged while an appointment references the patient; it succeeds exactly when the patient is stored and unreferenced, removing exactly that patient |
| ClinicController.DoctorsOf | Back-End/Controllers/ClinicController.cs:32-38 | The clinic's doctors are exactly the stored doctors with that clinic key, each once and in table order (the k-th is the doctor at the k-th position with that key) |
| ClinicController.ClinicDoctorIsListed | Back-End/Controllers/ClinicController.cs:32-38 | Every doctor with the clinic's key appears, with its speciality, in the clinic's doctor listing |
| ClinicController.ViewOf | Back-End/Controllers/ClinicController.cs:25-39 | The view carries the clinic's columns and lists each doctor of the clinic, in table order, with that doctor's speciality |
| ClinicController.GetClinicById | Back-End/Controllers/ClinicController.cs:21-50 | NotFound exactly when no clinic has the identity; otherwise the view of a clinic with it |
| ClinicController.ViewAllClinics | Back-End/Controllers/ClinicController.cs:54-75 | One view per clinic, in table order |
| ClinicController.ListingAgreesWithLookup | Back-End/Controllers/ClinicController.cs:21-75 | With unique identities, each listed clinic is exactly what the lookup by its identity returns |
| ClinicController.CreateKeepsNamesUnique | Back-End/Controllers/ClinicController.cs:84-93 | A creation that passes the duplicate check keeps clinic names unique |
| ClinicController.Create | Back-End/Controllers/ClinicController.cs:79-102 | Conflict exactly when a clinic with the same name exists, with the table unchanged; otherwise exactly that clinic is appended under the next identity |
| ClinicController.DeleteKeepsDoctorReferences | Back-End/Controllers/ClinicController.cs:139-148 | Removing a clinic that no doctor works at keeps every doctor's clinic resolvable |
| ClinicController.Delete | Back-End/Controllers/ClinicController.cs:125-157 | NotFound for an absent identity first; BadRequest with the table unchanged while a doctor works at the clinic; it succeeds exactly when the clinic is stored and no doctor works there, removing exactly that clinic |
| SpecialityController.GetSpecialityById | Back-End/Controllers/SpecialityController.cs:21-35 | NotFound exactly when no speciality has the identity; otherwise a stored speciality with it |
| SpecialityController.ViewAllSpecialities | Back-End/Controllers/SpecialityController.cs:39-43 | The whole table, in order |
| SpecialityController.ListingAgreesWithLookup | Back-End/Controllers/SpecialityController.cs:21-43 | With unique identities, each listed speciality is what the lookup by its identity returns |
| SpecialityController.CreateKeepsNamesUnique | Back-End/Controllers/SpecialityController.cs:52-62 | A creation that passes the duplicate check keeps speciality names unique |
| SpecialityController.Create | Back-End/Controllers/SpecialityController.cs:47-71 | Conflict exactly when a speciality with the same name exists, with the table unchanged; otherwise exactly that speciality is appended under the next identity |
| SpecialityController.DeleteKeepsDoctorReferences | Back-End/Controllers/SpecialityController.cs:99-117 | Removing a speciality that no doctor has keeps every doctor's speciality resolvable |
| SpecialityController.DeleteSpeciality | Back-End/Controllers/SpecialityController.cs:94-126 | BadRequest whenever a doctor names the identity, even if no such speciality is stored; then NotFound for an absent identity; it succeeds exactly when no doctor names it and it is stored, removing exactly that speciality |
| SpecialityController.ReferencedSpecialityIsStored | Back-End/Controllers/SpecialityController.cs:99-114 | When every doctor's speciality is stored, an identity that some doctor names is stored, so the order of the two checks only shows on inconsistent data |
| DoctorList.Push | Front-End/components/DoctorList/index.tsx:29-32 | One step adds the doctor to the slot's group and to no other; the slot becomes a key; the key list stays duplicate-free and matches the map |
| DoctorList.GroupedFacts | Front-End/components/DoctorList/index.tsx:25-34 | After the loops the map is keyed by exactly the offered slots, each once, and each slot's group is its occurrences in input order |
| DoctorList.OccurrencesIsFilter | Front-End/components/DoctorList/index.tsx:27-33 | When no doctor repeats a slot, a slot's group is exactly the doctors offering it, in input order |
| DoctorList.GroupedCount | Front-End/components/DoctorList/index.tsx:27-33 | The groups hold as many entries as there are slots across all doctors' lists |
| DoctorList.Sort | Front-End/components/DoctorList/index.tsx:36 | The keys come out strictly ascending, with the same members and length |
| DoctorList.OrganizedAscending | Front-End/components/DoctorList/index.tsx:36 | The returned entries are in strictly ascending slot order |
| DoctorList.OrganizedSlots | Front-End/components/DoctorList/index.tsx:24-37 | The result lists a slot exactly when some doctor offers it |
| DoctorList.OrganizedGroups | Front-End/components/DoctorList/index.tsx:24-37 | Each listed slot carries its occurrences in input order |
| DoctorList.OrganizedTotal | Front-End/components/DoctorList/index.tsx:24-37 | The total number of group entries equals the sum of the lengths of all slot lists |
| DoctorList.OrganizeAppointmentsBySlot | Front-End/components/DoctorList/index.tsx:24-37 | The two loops and the sort return the entries in ascending slot order, listing exactly the offered slots, each with its occurrences, and as many entries in total as there are slots |
| Calendar.NextMonth | Front-End/components/Calendar/index.tsx:172-181 | December goes to January of the next year, any other month to the next month of the same year, and the month index stays in 0..11 |
| Calendar.PrevMonth | Front-End/components/Calendar/index.tsx:184-193 | January goes to December of the previous year, any other month to the previous month of the same year, and the month index stays in 0..11 |
| Calendar.NavigationStepsOneMonth | Front-End/components/Calendar/index.tsx:172-193 | Each move shifts the month count by exactly one |
| Calendar.NavigationRoundTrip | Front-End/components/Calendar/index.tsx:172-193 | Next then previous, and previous then next, return to the month shown |
| Calendar.DaysInMonth | Front-End/components/Calendar/index.tsx:44-46 | The Gregorian length: 28..31, February 29 exactly in leap years, 30 exactly for April, June, September and November |
| Calendar.DaysBeforeYearStep | Front-End/components/Calendar/index.tsx:45 | Consecutive new-year day numbers differ by the year's length |
| Calendar.DayNumberInjective | Front-End/components/Calendar/index.tsx:45 | Distinct valid dates have distinct day numbers |
| Calendar.GetDaysInMonth | Front-End/components/Calendar/index.tsx:44-46 | Day 0 of the following month is the last valid day of the month: that day is valid and the next one is not |
| Calendar.MondayIndex | Front-End/components/Calendar/index.tsx:91 | The blank count lies in 0..6 and is the Monday-first column of the weekday: 6 for Sunday, weekday - 1 otherwise |
| Calendar.GridColumn | Front-End/components/Calendar/index.tsx:98-162 | The grid position of each day, after seven headers and the blanks, is in the column of that day's weekday |
| Calendar.WeekdayAgreesWithBackEnd | Front-End/components/Calendar/index.tsx:88 | The calendar's weekday of a day is the back end's day of week for any instant of that day |
| Calendar.WeekendColumns | Front-End/components/Calendar/index.tsx:94 | The grid's Saturday and Sunday columns hold exactly the days the back end treats as closed |
| Calendar.PadZero | Front-End/components/Calendar/index.tsx:80-82 | Below 100, the text is exactly the tens digit and the units digit |
| Calendar.PadZeroRoundTrip | Front-End/components/Calendar/index.tsx:80-82 | Reading back the two padded digits gives the number |
| Calendar.DateKeyInjective | Front-End/components/Calendar/index.tsx:63 | Within a year, distinct months or days give distinct `YYYY-MM-DD` keys |
| Calendar.AvailableDaysMembers | Front-End/components/Calendar/index.tsx:62-69 | A day is kept exactly when it is in the month and its answer was non-empty |
| Calendar.KeysMembership | Front-End/components/Calendar/index.tsx:63-116 | A day's key is among the keys of some days exactly when the day is among them |
| Calendar.AvailableKeysMembership | Front-End/components/Calendar/index.tsx:58-116 | The lookup made while drawing the grid finds a day exactly when that day's fetch returned a doctor |
| Calendar.FetchAvailableAppointmentDates | Front-End/components/Calendar/index.tsx:58-70 | The loop collects the keys of the days with a non-empty answer, in increasing day order, and a day's key is present exactly when its answer was non-empty |
| Calendar.FillGrid | Front-End/components/Calendar/index.tsx:98-162 | Seven two-letter headers, then the blanks, then one cell per day, bookable exactly when the key built for that day is available and marked exactly when it is the selected date |
| Calendar.CellColumns | Front-End/components/Calendar/index.tsx:98-162 | In a grid whose day cells follow the headers and the month's blanks in order, every day cell lies in the column of its own weekday |
| Calendar.GenerateDays | Front-End/components/Calendar/index.tsx:85-169 | The grid has 7 headers, `mondayIndex` blanks and one cell per day of the month, each bookable exactly when its `YYYY-MM-DD` key is available, and every day cell lies in the column of its own weekday |

## Left out

- HTTP and ASP.NET plumbing is not modelled: routing, response bodies and messages, `CreatedAtAction`, and the `StatusCode(500)` catch blocks. Outcomes are `Result` values.
- EF Core's asynchronous queries and navigation loading are not modelled. Navigation properties become integer foreign keys that are resolved by lookups.
- Foreign-key enforcement by MySQL on insert is not modelled. A booking or doctor that names a missing row would fail there with a 500. The model appends it, and states reference integrity as lemmas about deletions only.
- Identities sent in request bodies are ignored: the store assigns the next counter value, as AUTO_INCREMENT does for the usual zero identity.
- Concurrency is not modelled: only sequential calls are. Two simultaneous bookings of the same (doctor, timestamp) can both pass the conflict check before either insert, and no unique index prevents that. `NoDoubleBooking` holds only for calls run one at a time.
- The `Update` endpoints of all five controllers are not modelled. They overwrite records without any check and can break the uniqueness invariants.
- `GetAllAppointments` and `GetAppointment` are not modelled. They are plain reads with navigation loading.
- Time has minute resolution. Seconds and ticks, `DateTimeKind`, time zones, and the browser's local time in `getDay` and `formatTime` are not modelled. The calendar's day numbers are read as UTC days.
- `Hash` (SHA-256 then Base64) is not modelled. It is an unknown deterministic function parameter.
- SQL collation is not modelled. Name comparison in the duplicate checks and `Contains` in the searches are case-sensitive here, whereas MySQL's default collation ignores case. A null string is modelled as the empty string.
- `DoctorList.OccurrencesIsFilter` requires that no doctor repeats a slot. That always holds for the clinic listing's strictly ascending slot lists. Without it, a doctor appears once per repetition, and `DoctorList.GroupedFacts` states that general case.
- The doctor list takes its input as a sequence value, so leaving the caller's list unmodified is automatic rather than stated.
- The sort at `Front-End/components/DoctorList/index.tsx:36` compares the times the slot strings denote. The model sorts the instants directly, and string parsing is not modelled.
- The calendar's JSX, styling, click handlers and loading and error state are not modelled. `currentWeekday` is advanced as in the source but never read, so no property is stated about it.
- The stale year captured inside the month updaters is not modelled. Each move is modelled as applied to the month and year currently shown.
- The unpadded date string sent when a day is clicked (`Front-End/components/Calendar/index.tsx:207`) is not modelled. It is a request-format detail.
- `Back-End/Models/Speciality.cs` is not part of this model. The schema configuration in `Back-End/Data/followingDataContext.cs` and `Back-End/Program.cs` is not modelled.
