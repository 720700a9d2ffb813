# Clinic appointment scheduling and patient records — a Dafny model

This project models the logic of a small single-page clinic application. The
application registers patients, books appointments with a doctor of a department
at one of the doctor's time slots, reschedules and deletes appointments, edits and
deletes patients, and lists, searches, counts and exports what it holds. All of
its data lives in the browser's key-value store as JSON text.

The model has these parts:

- **Store** (`storage.dfy`, module `Storage`). The key-value store is a
  `map<string, Item>` with `Item = Absent | Corrupt | Text(Json)`. A missing key is
  `Absent`, and so is an empty stored string, which the code treats the same way.
  Stored text that `JSON.parse` rejects is `Corrupt`. The module covers `load` with
  its fallback, `save`, `ensureArray`, first-run seeding with the four seeded
  departments and four seeded doctors, the `byId` first-match lookup and the shape
  of `uid`. `Store` is a class whose `cells` field its methods rewrite.
- **Validators** (`validate.dfy`, module `Validate`). Each of `name`, `age`,
  `gender`, `contact` and `email` is a predicate on the trimmed text. The email
  pattern is written out as a backtracking matcher and proved equal to a
  declarative description. `age` is modelled with JavaScript's `parseInt`,
  including leading white space, the sign, a trailing non-digit tail and the `0x`
  prefix.
- **Dates** (`dates.dfy`, module `Dates`). A date input value is an ISO `YYYY-MM-DD`
  string. "Today" is an explicit `Date(year, month, day)` parameter. The module
  covers `isFutureDate` and `getApptStatus`. It proves that the ISO strings
  round-trip and that string order is calendar order.
- **Scheduling engine** (`engine.dfy`, module `Engine`). The booking guard chain
  and append, the reschedule with its clash scan that skips the edited
  appointment, the delete by id and the cascade delete of a patient. Each is a
  pure specification function with its lemmas. `Clinic` is a class holding the
  decoded patient and appointment collections, which are the ones the handlers
  write. Its methods are the handlers. Each is stated against those functions, and
  each handler that changes the appointments keeps the no-double-booking invariant.
  The reschedule keeps it only when ids are distinct; booking and both deletes keep
  it unconditionally, and the deletes also keep distinct ids.
- **Patient records** (`registry.dfy`, module `Registry`). The values the
  registration and edit forms read, their validation chains, and the records they
  build. This covers both the detailed edit dialog and the legacy edit dialog.
- **Read side** (`views.dfy`, module `Views`). The appointments table rows with
  their "Unknown" fallbacks and their search. Also the patients table search, the
  doctor and time-slot selection lists, the dashboard counts, and the CSV export
  lines with a reader that takes them back.
- `text.dfy` (trim, lower-casing, substring search, JavaScript string order),
  `seqs.dfy` (an order-keeping `Filter` with a multiset-exact contract),
  `records.dfy` (the four entity records) and `wrappers.dfy` (`Option`).

Behaviour kept as the code has it:

- Booking does not check that the time is one of the doctor's slots.
- Booking does not check that the doctor belongs to the chosen department
  (`Engine.BookingSkipsSlotAndDepartmentChecks`).
- `ensureArray` returns `[]` without writing when the key is absent or its text is
  corrupt. Corrupt text therefore stays corrupt.
- Seeding writes departments and doctors only when the key is absent. A corrupt or
  non-array value there is left alone.
- Rescheduling checks neither an empty time nor the doctor's slots.
- The clash scan of rescheduling skips appointments by id, not by position. So
  "no double booking" is preserved when ids are distinct, and
  `Engine.RescheduleNeedsDistinctIds` shows a store with a repeated id where a
  reschedule creates a double booking.
- Registration stores the name as `first + " " + last` untrimmed. The detailed
  edit trims it. With an empty last name the two differ
  (`Registry.NameDerivationDiffers`).
- The legacy edit validates raw values and stores them untrimmed.

## Model

| member | source | states |
|---|---|---|
| Storage.LoadFrom | js/storage.js:6-13 | the parsed value when the key holds parseable text; the fallback when the key is absent, empty or unparseable |
| Storage.LoadAfterSave | js/storage.js:15-17 | a load right after `save(k, d)` returns `d` whatever the fallback; every other key is unchanged |
| Storage.EnsureArrayCases | js/storage.js:18-25 | a stored array is returned and nothing is written; a stored non-array becomes `[]` and `[]` is returned; an absent or corrupt key gives `[]` with nothing written; other keys are unchanged; a later load yields the returned array |
| Storage.Store.Save | js/storage.js:15-17 | the store after saving is the old store with that key replaced, and loading it gives the data back |
| Storage.Store.EnsureArray | js/storage.js:18-25 | the new store and the returned list are those `EnsureArrayCases` describes |
| Storage.Store.SeedData | js/storage.js:36-60 | the new store is the seeded store the seed lemmas describe |
| Storage.SeedWritesOnlyAbsent | js/storage.js:37-55 | departments and doctors are written only when nothing is stored under their key; otherwise the stored item is kept |
| Storage.SeedKeepsArrays | js/storage.js:36-60 | seeding never overwrites an array stored under any key and never touches keys other than the four collections |
| Storage.SeedLoadsCollections | js/storage.js:58-59 | after seeding, patients and appointments always load as arrays |
| Storage.SeedIdempotent | js/storage.js:36-60 | seeding a seeded store changes nothing, so the seeding that runs on every page load is harmless |
| Storage.SeedFreshStore | js/storage.js:36-66 | on an empty store the getters return the four seeded departments, the four seeded doctors and two empty lists |
| Storage.SeedDoctorsHaveDepartments | js/storage.js:38-53 | every seeded doctor's department id names a seeded department |
| Storage.SeedIdsDistinct | js/storage.js:38-53 | seeded ids are pairwise distinct within and across the two lists |
| Storage.SeedSlotsAscending | js/storage.js:48-53 | every seeded doctor has five slots in strictly ascending string order, so they are distinct |
| Storage.FirstIndex | js/storage.js:73 | the index of the first element with that id, or none exactly when no element has it |
| Storage.ById | js/storage.js:73 | none exactly when no element has the id; otherwise an element with that id, with no earlier element having it |
| Storage.Uid | js/storage.js:29-33 | the id begins with `prefix + "_"`; its length is that of the prefix, the separator, the clock part and the random part together |
| Storage.UidPrefixesSeparate | js/storage.js:29-33 | a patient id (`p_…`) never equals an appointment id (`a_…`) |
| Validate.NameEndsWithLetters | js/validate.js:6-8 | an accepted name's trimmed text starts and ends with a letter |
| Validate.GenderHasContent | js/validate.js:13-15 | a gender is accepted exactly when the text holds a character that is not white space |
| Validate.ContactAccepts | js/validate.js:16-18 | a contact is accepted exactly when it is ten ASCII digits with only white space around them |
| Validate.DigitRun | js/validate.js:10 | the digits `parseInt` reads: a prefix of digits of the radix, followed by no further digit |
| Validate.PositionalPositive | js/validate.js:10-11 | the positional value of a digit run is positive exactly when some digit is not zero |
| Validate.AgeAccepts | js/validate.js:9-12 | an age is accepted exactly when the text after white space and an optional `+` (not `-`) starts with a digit run holding a nonzero digit; after a `0x` or `0X` prefix the run is read in hexadecimal, so "0x1A" is accepted |
| Validate.AgeRejectsZero | js/validate.js:9-12 | "0" is rejected: the number is not greater than zero |
| Validate.AgeRejectsNegative | js/validate.js:9-12 | "-3" is rejected: the sign makes it negative |
| Validate.AgeRejectsLetters | js/validate.js:9-12 | "abc" is rejected: no digit is read, so the number is NaN |
| Validate.AgeAcceptsTrailingText | js/validate.js:9-12 | "42 years" is accepted: `parseInt` stops at the first non-digit |
| Validate.AgeAcceptsPlusSign | js/validate.js:9-12 | "+7" is accepted |
| Validate.AgeAcceptsHex | js/validate.js:9-12 | "0x1A" is accepted; `parseInt` reads it as hexadecimal 26 |
| Validate.EmailMatchWellFormed | js/validate.js:21 | every address the pattern accepts has no white space, exactly one `@` after a non-empty local part, and an inner `.` in the domain |
| Validate.WellFormedEmailMatches | js/validate.js:21 | every such well-formed address matches the pattern |
| Validate.EmailMatchShape | js/validate.js:21 | the pattern matcher accepts exactly the well-formed addresses: no white space, exactly one `@` with a non-empty local part, and a domain with a `.` that is neither its first nor its last character |
| Validate.EmailOptional | js/validate.js:20 | a blank email is accepted |
| Validate.EmailAccepts | js/validate.js:19-22 | a non-blank email is accepted exactly when its trimmed text is well formed |
| Validate.ValidatorsSeeTrimmedText | js/validate.js:6-22 | name, gender, contact and email give the same verdict on the text and on its trim |
| Dates.ParseFormat | js/app.js:274-280 | formatting a valid date and parsing it back gives the date |
| Dates.FormatParse | js/app.js:274-280 | a parseable date string is the formatting of its parse |
| Dates.StringOrderIsCalendarOrder | js/app.js:101-105 | on formatted dates, JavaScript string order coincides with calendar order |
| Dates.IsFutureDate | js/app.js:274-280 | true exactly when the string is a date that is not before today; an unparseable string gives false |
| Dates.StatusCases | js/app.js:327-333 | "Today" exactly on today's date, "Upcoming" exactly on a later date, "Completed" exactly otherwise (including unparseable), so the cases are exhaustive and exclusive |
| Dates.FutureIffNotCompleted | js/app.js:327-333 | a date passes `isFutureDate` exactly when its status is not "Completed" |
| Dates.StringCompareMatchesStatus | js/app.js:101-105 | for a parseable date, equality with today's ISO string means "Today" and being greater means "Upcoming" |
| Engine.SlotTaken | js/app.js:281-284 | true exactly when some stored appointment has that doctor, date and time |
| Engine.BookingCheck | js/app.js:298-304 | each rejection is reported exactly when every earlier guard passes and its own fails, in the order missing patient, department, doctor, date, then a past date, a missing time and a taken slot; the booking is accepted exactly when all pass |
| Engine.Book | js/app.js:298-315 | a rejected booking leaves the appointments unchanged; an accepted one appends exactly one record with the given fields at the end and keeps every earlier record |
| Engine.BookPreservesNoDoubleBooking | js/app.js:304-314 | booking keeps "no two appointments share doctor, date and time" |
| Engine.BookPreservesDistinctIds | js/app.js:308-314 | booking with an unused id keeps ids distinct |
| Engine.PastDateRejected | js/app.js:302 | a date before today is refused and nothing is added |
| Engine.BookingSkipsSlotAndDepartmentChecks | js/app.js:298-304 | a seeded cardiology doctor is booked under ENT at a time they do not offer, and the chain accepts it |
| Engine.Clash | js/app.js:497-500 | true exactly when another appointment, by id, of that doctor has that date and time |
| Engine.RescheduleCheck | js/app.js:491-501 | a past or unparseable date is rejected first, then an unknown id, then a clash with another appointment of the same doctor; the reschedule is accepted exactly when the date is not past, the id is found and there is no clash; only these three rejections occur |
| Engine.Rescheduled | js/app.js:493-505 | only the date and time of the first appointment with the id change; its other fields, every other entry and the length are kept |
| Engine.ReschedulePreservesNoDoubleBooking | js/app.js:497-505 | with distinct ids, an accepted reschedule keeps no double booking and distinct ids |
| Engine.RescheduleToOwnSlot | js/app.js:498-500 | in a store with no double booking and distinct ids, moving an appointment to its own current date and time (on or after today) is accepted and changes nothing |
| Engine.RescheduleNeedsDistinctIds | js/app.js:497-500 | with two appointments sharing an id, an accepted reschedule creates a double booking |
| Engine.DeleteAppointment | js/app.js:518-520 | exactly the entries with the id are removed; the rest keep their multiplicity and order |
| Engine.RemovePatient | js/app.js:776-777 | exactly the patients with the id are removed; the rest are kept in order |
| Engine.RemovePatientAppointments | js/app.js:779-780 | exactly the appointments of that patient are removed; the rest are kept in order |
| Engine.CascadeKeepsReferences | js/app.js:773-780 | after the cascade no appointment names the patient, and every remaining appointment still names an existing patient |
| Engine.DeletePreservesInvariants | js/app.js:518-520 | deleting an appointment or a patient's appointments keeps no double booking, and separately keeps distinct ids |
| Engine.Clinic.SubmitBooking | js/app.js:285-320 | the handler reports the guard chain's verdict, leaves the appointments as `Book` says and keeps no double booking |
| Engine.Clinic.SaveEditChanges | js/app.js:486-511 | the handler reports the reschedule verdict, changes nothing on rejection, applies `Rescheduled` on success and keeps the invariants when ids are distinct |
| Engine.Clinic.ConfirmDelete | js/app.js:512-525 | the appointments become the filtered list; no double booking and distinct ids are each kept whenever they held before |
| Engine.Clinic.DeletePatient | js/app.js:773-791 | patients, then appointments, are replaced by their filtered lists; references stay resolvable, and no double booking and distinct ids are each kept whenever they held before |
| Engine.Clinic.RegisterPatient | js/app.js:155-212 | on rejection nothing changes; on acceptance the new record is appended and its id remembered |
| Engine.Clinic.SavePatientEdit | js/app.js:663-712 | on rejection nothing changes; on acceptance the first patient with the id is replaced by the edited record |
| Engine.Clinic.SaveLegacyPatientEdit | js/app.js:714-734 | on rejection nothing changes; on acceptance the first patient with the id receives the raw name, age, gender, contact, email and address |
| Registry.ReadFormIdempotent | js/app.js:162-172 | reading values already read changes nothing: every field except age and gender is read trimmed |
| Registry.PatientFormCheck | js/app.js:175-181 | the form is accepted exactly when name, age, gender, contact and email pass their validators, the pincode is six digits and a blood group is given |
| Registry.AcceptedFormStoresValidFields | js/app.js:183-204 | the record built from an accepted form passes every validator on its stored fields, stores the first and last name, contact, email, city, state and blood group already trimmed, and carries the given id and creation time |
| Registry.NameDerivationDiffers | js/app.js:191 | with last name empty, registration stores "Asha " while the detailed edit, which trims the joined name (line 689), stores "Asha" |
| Registry.EditedKeepsIdentity | js/app.js:696-710 | the detailed edit keeps the record's id and creation time |
| Registry.PatientEditCheck | js/app.js:678-694 | the edit is accepted exactly when the form is valid and some patient has the id |
| Registry.ApplyPatientEdit | js/app.js:696-710 | the edited position holds the edited record with its id and creation time kept; every other position and the length are unchanged |
| Registry.LegacyEditCheck | js/app.js:723-731 | the legacy edit is accepted exactly when the raw name, age, gender, contact and email pass and some patient has the id |
| Registry.LegacyEditKeepsStructuredFields | js/app.js:733 | the legacy merge replaces name and address and keeps id, first and last name, city, state, pincode, blood group and creation time |
| Views.ProjectRows | js/app.js:353-366 | one row per appointment, numbered from 1, with its date, time, id and status; its patient, department and doctor cells are the names the first-match lookups give, which are "Unknown" when nothing resolves |
| Views.PatientName | js/app.js:354-359 | the fallback when no patient has the id; otherwise the name of the first patient with that id |
| Views.DepartmentName | js/app.js:356-360 | the fallback when no department has the id; otherwise the name of the first department with that id |
| Views.DoctorName | js/app.js:355-361 | the fallback when no doctor has the id; otherwise the name of the first doctor with that id |
| Views.SearchRows | js/app.js:369-375 | the kept rows are exactly the matching ones, each with its multiplicity, in their original order |
| Views.SearchKeepsExactlyMatches | js/app.js:369-375 | a row is shown exactly when it is in the table and its lower-cased names or its date contain the lower-cased query |
| Views.EmptySearchKeepsAll | js/app.js:369-375 | the empty query keeps every row in order |
| Views.SearchPatients | js/app.js:544-550 | exactly the patients whose lower-cased blob includes the trimmed, lower-cased query are kept, in order |
| Views.BlankPatientSearchKeepsAll | js/app.js:544-550 | a query of white space lists every patient in order |
| Views.FoundByName | js/app.js:546-549 | a patient whose lower-cased name includes the query is listed |
| Views.DoctorsInDepartment | js/app.js:262-263 | exactly the doctors of that department are listed, in stored order |
| Views.SlotsForDoctor | js/app.js:268-273 | no slots when no doctor has the id; otherwise the slots of the first doctor with it |
| Views.CountsBounded | js/app.js:103-105 | today's count plus the upcoming count never exceeds the total |
| Views.CountsMatchStatus | js/app.js:101-105 | for well-formed dates the two counts are the numbers of "Today" and "Upcoming" badges |
| Views.QuoteCell | js/app.js:437 | a cell starts and ends with a double quote |
| Views.UnquoteQuote | js/app.js:437 | unquoting a quoted cell gives the original text back, so doubling the quotes loses nothing |
| Views.PatientContact | js/app.js:416-422 | "" when no patient has the id; otherwise the contact of the first patient with that id |
| Views.ExportRecord | js/app.js:415-428 | eight values in header order: id, then the first-match patient name and contact, department name and doctor name ("" when unresolved), then date, time and status text |
| Views.ExportAgreesWithTable | js/app.js:415-428 | where all three references resolve, the exported id and names equal those of the table row |
| Views.ReadEscapedEscape | js/app.js:437 | a CSV reader takes back exactly the escaped text up to its closing quote, when the quote is followed by a comma or the end of the line |
| Views.ReadCellsJoinQuoted | js/app.js:437 | a non-empty list of cells, quoted and joined by commas, reads back as the same list |
| Views.ExportLineReadsBack | js/app.js:435-438 | every exported data line reads back, cell by cell, as the eight values of its record |

## Left out

- Routing, the DOM, table HTML, Bootstrap modals, toasts, the mobile menu and
  `confirm()`. These are interface only. The delete handlers are modelled from the
  point where the user has confirmed.
- `withSubmittingState` and its promise handling. It is button state, not logic.
- The CSV file download (Blob, object URL, anchor). The cells, the header order,
  the quoting and the comma join of a data line are modelled. The header line
  itself and the newline join of the lines are not.
- Real `localStorage` and `JSON.parse`/`JSON.stringify`. The store is a map with a
  `Corrupt` case. `Clinic` holds the collections already decoded as typed lists, so
  which keys the collections live under is part of `Storage` only.
- The clock. "Today" is a parameter. The UTC date of `toISOString` on the
  dashboard and the local dates of `setHours` elsewhere are taken to be the same
  day. Creation timestamps are parameters.
- Dates.ParseIso: accepts day 1 to 31 in every month. The `Date` constructor's
  month-length rollover (for example 2025-02-30 becoming 2 March) is not
  modelled. It reads only the `YYYY-MM-DD` form a date input yields; the shorter
  ISO forms that `Date` also accepts ("2030-01", "2030") give `None`.
- `Math.random` and `Date.now` in `uid`. They are parameters, and uniqueness is
  only probabilistic, so `Engine.BookPreservesDistinctIds` assumes a fresh id.
- Unicode. White space is the ASCII set `trim` removes (space, tab, line feed,
  carriage return, vertical tab, form feed), and lower-casing is ASCII only.
- The prefill of the patient edit dialog, including the regex recovery of fields
  for older records. It only fills form inputs.
- Engine.Clinic.RegisterPatient and Engine.Clinic.SavePatientEdit: receive the
  values as the handler reads them (`Registry.ReadForm` of the inputs), not the
  raw inputs.
- Views.SearchPatients: the fallback that reads the search box when no filter text
  is passed is not modelled, because it reads the DOM.
- The patient bookings dialog, `fillPatients` and `fillDepartments`. These are
  display lists with no logic beyond a filter.
- A failure between the two writes of `deletePatient`. Storage errors are not
  modelled, so the cascade is treated as if it were atomic.
