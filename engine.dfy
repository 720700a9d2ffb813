/**
 * The write side of the clinic: booking, rescheduling and deleting appointments,
 * registering, editing and deleting patients. Pure functions state each rule;
 * the `Clinic` class performs the same steps on the loaded collections.
 */
module Engine {
  import opened Wrappers
  import opened Seqs
  import opened Dates
  import opened Records
  import opened Storage
  import opened Validate
  import opened Registry

  /** Why a booking or an edit is refused (the toast the UI shows). */
  datatype Rejection =
    | MissingPatient
    | MissingDepartment
    | MissingDoctor
    | MissingDate
    | DateInPast
    | MissingTime
    | SlotBooked
    | AppointmentNotFound

  predicate SameSlot(a: Appointment, b: Appointment)
  {
    a.doctorId == b.doctorId && a.date == b.date && a.time == b.time
  }

  /** The central invariant: no two appointments share a doctor, a date and a time. */
  predicate NoDoubleBooking(appts: seq<Appointment>)
  {
    forall i, j :: 0 <= i < j < |appts| ==> !SameSlot(appts[i], appts[j])
  }

  predicate DistinctIds(appts: seq<Appointment>)
  {
    forall i, j :: 0 <= i < j < |appts| ==> appts[i].id != appts[j].id
  }

  /** `isSlotTaken(doctorId, date, time)`: some stored appointment has exactly that doctor, date and time. */
  function SlotTaken(appts: seq<Appointment>, doctorId: string, date: string, time: string): (r: bool)
    ensures r <==>
      exists i :: 0 <= i < |appts| && appts[i].doctorId == doctorId && appts[i].date == date && appts[i].time == time
  {
    if appts == [] then false
    else
      (appts[0].doctorId == doctorId && appts[0].date == date && appts[0].time == time)
      || (assert forall i :: 0 < i < |appts| ==> appts[i] == appts[1..][i - 1];
          SlotTaken(appts[1..], doctorId, date, time))
  }

  /** The fields of the booking form. */
  datatype BookingRequest = BookingRequest(
    patientId: string, departmentId: string, doctorId: string, date: string, time: string)

  /**
   * The guard chain of the booking form, in its order: missing patient, department,
   * doctor or date; a date before today; a missing time; a slot already taken.
   * Neither membership of `time` in the doctor's slots nor the doctor's department is checked.
   */
  function BookingCheck(appts: seq<Appointment>, req: BookingRequest, today: Date): (r: Option<Rejection>)
    ensures r == Some(MissingPatient) <==> req.patientId == ""
    ensures r == Some(MissingDepartment) <==> req.patientId != "" && req.departmentId == ""
    ensures r == Some(MissingDoctor) <==> req.patientId != "" && req.departmentId != "" && req.doctorId == ""
    ensures r == Some(MissingDate) <==>
      req.patientId != "" && req.departmentId != "" && req.doctorId != "" && req.date == ""
    ensures r == Some(DateInPast) <==>
      req.patientId != "" && req.departmentId != "" && req.doctorId != "" && req.date != ""
      && !IsFutureDate(req.date, today)
    ensures r == Some(MissingTime) <==>
      req.patientId != "" && req.departmentId != "" && req.doctorId != "" && req.date != ""
      && IsFutureDate(req.date, today) && req.time == ""
    ensures r == Some(SlotBooked) <==>
      req.patientId != "" && req.departmentId != "" && req.doctorId != "" && req.date != ""
      && IsFutureDate(req.date, today) && req.time != ""
      && SlotTaken(appts, req.doctorId, req.date, req.time)
    ensures r.None? <==>
      req.patientId != "" && req.departmentId != "" && req.doctorId != "" && req.date != ""
      && IsFutureDate(req.date, today) && req.time != ""
      && !SlotTaken(appts, req.doctorId, req.date, req.time)
    ensures r != Some(AppointmentNotFound)
  {
    if req.patientId == "" then Some(MissingPatient)
    else if req.departmentId == "" then Some(MissingDepartment)
    else if req.doctorId == "" then Some(MissingDoctor)
    else if req.date == "" then Some(MissingDate)
    else if !IsFutureDate(req.date, today) then Some(DateInPast)
    else if req.time == "" then Some(MissingTime)
    else if SlotTaken(appts, req.doctorId, req.date, req.time) then Some(SlotBooked)
    else None
  }

  /** The record a successful booking appends. */
  function NewAppointment(req: BookingRequest, id: string, createdAt: string): Appointment
  {
    Appointment(id, req.patientId, req.departmentId, req.doctorId, req.date, req.time, createdAt)
  }

  /** The appointments after a booking attempt: one record appended on success, none otherwise. */
  function Book(appts: seq<Appointment>, req: BookingRequest, today: Date, id: string, createdAt: string)
    : (r: seq<Appointment>)
    ensures BookingCheck(appts, req, today).Some? ==> r == appts
    ensures BookingCheck(appts, req, today).None? ==>
      |r| == |appts| + 1 && r[..|appts|] == appts && r[|appts|] == NewAppointment(req, id, createdAt)
  {
    if BookingCheck(appts, req, today).None? then appts + [NewAppointment(req, id, createdAt)] else appts
  }

  /** Booking never creates a double booking. */
  lemma BookPreservesNoDoubleBooking(
    appts: seq<Appointment>, req: BookingRequest, today: Date, id: string, createdAt: string)
    requires NoDoubleBooking(appts)
    ensures NoDoubleBooking(Book(appts, req, today, id, createdAt))
  {
    var r := Book(appts, req, today, id, createdAt);
    if BookingCheck(appts, req, today).None? {
      forall i, j | 0 <= i < j < |r| ensures !SameSlot(r[i], r[j]) {
        if j == |appts| {
          assert r[i] == appts[i];
        } else {
          assert r[i] == appts[i] && r[j] == appts[j];
        }
      }
    }
  }

  /** Booking with a fresh id keeps ids distinct. */
  lemma BookPreservesDistinctIds(
    appts: seq<Appointment>, req: BookingRequest, today: Date, id: string, createdAt: string)
    requires DistinctIds(appts)
    requires forall a :: a in appts ==> a.id != id
    ensures DistinctIds(Book(appts, req, today, id, createdAt))
  {
    var r := Book(appts, req, today, id, createdAt);
    if BookingCheck(appts, req, today).None? {
      forall i, j | 0 <= i < j < |r| ensures r[i].id != r[j].id {
        assert r[i] == appts[i];
        if j < |appts| {
          assert r[j] == appts[j];
        }
      }
    }
  }

  /** A date before today is refused whatever the slot availability, and nothing is added. */
  lemma PastDateRejected(appts: seq<Appointment>, req: BookingRequest, today: Date, id: string, createdAt: string)
    requires ParseIso(req.date).Some? && Before(ParseIso(req.date).value, today)
    ensures BookingCheck(appts, req, today).Some?
    ensures Book(appts, req, today, id, createdAt) == appts
  {
  }

  /**
   * The chain checks neither the doctor's slot list nor the doctor's department:
   * cardiology's doc_meena is booked under ENT at a time not among its slots.
   */
  lemma BookingSkipsSlotAndDepartmentChecks()
    ensures var req := BookingRequest("p1", "dep_ent", "doc_meena", "2030-01-10", "23:59");
      && BookingCheck([], req, Date(2026, 10, 14)).None?
      && "23:59" !in SeedDoctors[0].slots
      && SeedDoctors[0].id == "doc_meena" && SeedDoctors[0].departmentId != "dep_ent"
  {
    ExampleDate();
  }

  /** `current.doctorId` is booked at `date`/`time` by an appointment whose id is not `id`. */
  function Clash(appts: seq<Appointment>, doctorId: string, id: string, date: string, time: string): (r: bool)
    ensures r <==>
      exists i :: 0 <= i < |appts| && appts[i].doctorId == doctorId && appts[i].id != id
                  && appts[i].date == date && appts[i].time == time
  {
    if appts == [] then false
    else
      (appts[0].doctorId == doctorId && appts[0].id != id && appts[0].date == date && appts[0].time == time)
      || (assert forall i :: 0 < i < |appts| ==> appts[i] == appts[1..][i - 1];
          Clash(appts[1..], doctorId, id, date, time))
  }

  function AppointmentId(a: Appointment): string
  {
    a.id
  }

  /**
   * The guard chain of the edit dialog: a date before today (or unparseable) first,
   * then an unknown id, then a clash with another appointment of the same doctor.
   */
  function RescheduleCheck(appts: seq<Appointment>, id: string, date: string, time: string, today: Date)
    : (r: Option<Rejection>)
    ensures r == Some(DateInPast) <==> !IsFutureDate(date, today)
    ensures r == Some(AppointmentNotFound) <==>
      IsFutureDate(date, today) && forall j :: 0 <= j < |appts| ==> appts[j].id != id
    ensures r == Some(SlotBooked) <==>
      IsFutureDate(date, today) && FirstIndex(appts, id, AppointmentId).Some?
      && Clash(appts, appts[FirstIndex(appts, id, AppointmentId).value].doctorId, id, date, time)
    ensures r.None? <==>
      IsFutureDate(date, today) && FirstIndex(appts, id, AppointmentId).Some?
      && !Clash(appts, appts[FirstIndex(appts, id, AppointmentId).value].doctorId, id, date, time)
    ensures r.None? || r == Some(DateInPast) || r == Some(AppointmentNotFound) || r == Some(SlotBooked)
  {
    if !IsFutureDate(date, today) then Some(DateInPast)
    else match FirstIndex(appts, id, AppointmentId)
      case None => Some(AppointmentNotFound)
      case Some(i) =>
        if Clash(appts, appts[i].doctorId, id, date, time) then Some(SlotBooked) else None
  }

  /**
   * `appts[index].date = date; appts[index].time = time` for the first appointment
   * with that id: only those two fields of that one entry change.
   */
  function Rescheduled(appts: seq<Appointment>, id: string, date: string, time: string): (r: seq<Appointment>)
    requires FirstIndex(appts, id, AppointmentId).Some?
    ensures var k := FirstIndex(appts, id, AppointmentId).value;
      && |r| == |appts|
      && (forall j :: 0 <= j < |appts| && j != k ==> r[j] == appts[j])
      && r[k] == appts[k].(date := date, time := time)
  {
    var k := FirstIndex(appts, id, AppointmentId).value;
    appts[k := appts[k].(date := date, time := time)]
  }

  /** Rescheduling keeps the invariant when ids are distinct (the clash scan skips by id). */
  lemma ReschedulePreservesNoDoubleBooking(
    appts: seq<Appointment>, id: string, date: string, time: string, today: Date)
    requires NoDoubleBooking(appts) && DistinctIds(appts)
    requires RescheduleCheck(appts, id, date, time, today).None?
    ensures NoDoubleBooking(Rescheduled(appts, id, date, time))
    ensures DistinctIds(Rescheduled(appts, id, date, time))
  {
    var k := FirstIndex(appts, id, AppointmentId).value;
    var r := Rescheduled(appts, id, date, time);
    assert !Clash(appts, appts[k].doctorId, id, date, time);
    forall i, j | 0 <= i < j < |r| ensures !SameSlot(r[i], r[j]) && r[i].id != r[j].id {
      if i == k {
        assert appts[j].id != id;
        assert r[j] == appts[j];
      } else if j == k {
        assert appts[i].id != id;
        assert r[i] == appts[i];
      } else {
        assert r[i] == appts[i] && r[j] == appts[j];
      }
    }
  }

  /** Moving an appointment to its own date and time is accepted and changes nothing. */
  lemma RescheduleToOwnSlot(appts: seq<Appointment>, k: nat, today: Date)
    requires NoDoubleBooking(appts) && DistinctIds(appts)
    requires k < |appts| && IsFutureDate(appts[k].date, today)
    ensures var a := appts[k];
      && RescheduleCheck(appts, a.id, a.date, a.time, today).None?
      && Rescheduled(appts, a.id, a.date, a.time) == appts
  {
    var a := appts[k];
    var f := FirstIndex(appts, a.id, AppointmentId);
    assert f.Some? by {
      assert AppointmentId(appts[k]) == a.id;
    }
    assert appts[f.value].id == a.id;
    assert f.value == k;
    assert !Clash(appts, a.doctorId, a.id, a.date, a.time) by {
      forall i | 0 <= i < |appts| && appts[i].id != a.id
        ensures !(appts[i].doctorId == a.doctorId && appts[i].date == a.date && appts[i].time == a.time)
      {
        assert i != k;
        assert !SameSlot(appts[i], appts[k]) by {
          if i < k { assert !SameSlot(appts[i], appts[k]); } else { assert !SameSlot(appts[k], appts[i]); }
        }
      }
    }
    assert appts[k].(date := a.date, time := a.time) == appts[k];
  }

  /**
   * Without distinct ids the invariant can break: two entries share id "a_1", moving
   * the first onto the second's slot does not count the second as a clash.
   */
  lemma RescheduleNeedsDistinctIds()
    ensures var first := Appointment("a_1", "p1", "dep_cardio", "doc_meena", "2030-01-10", "09:00", "");
      var second := Appointment("a_1", "p2", "dep_cardio", "doc_meena", "2030-01-10", "09:30", "");
      && NoDoubleBooking([first, second])
      && RescheduleCheck([first, second], "a_1", "2030-01-10", "09:30", Date(2026, 10, 14)).None?
      && !NoDoubleBooking(Rescheduled([first, second], "a_1", "2030-01-10", "09:30"))
  {
    var first := Appointment("a_1", "p1", "dep_cardio", "doc_meena", "2030-01-10", "09:00", "");
    var second := Appointment("a_1", "p2", "dep_cardio", "doc_meena", "2030-01-10", "09:30", "");
    assert FirstIndex([first, second], "a_1", AppointmentId) == Some(0);
    assert !Clash([first, second], "doc_meena", "a_1", "2030-01-10", "09:30");
    ExampleDate();
    assert RescheduleCheck([first, second], "a_1", "2030-01-10", "09:30", Date(2026, 10, 14)).None?;
    var r := Rescheduled([first, second], "a_1", "2030-01-10", "09:30");
    assert r[1] == second;
    assert SameSlot(r[0], r[1]);
  }

  /** The date used by the worked examples parses, and lies after 2026-10-14. */
  lemma ExampleDate()
    ensures ParseIso("2030-01-10") == Some(Date(2030, 1, 10))
    ensures IsFutureDate("2030-01-10", Date(2026, 10, 14))
  {
    ParseFormat(Date(2030, 1, 10));
    assert FormatIso(Date(2030, 1, 10)) == "2030-01-10";
  }

  /** The confirm handler of the delete dialog: `appts.filter(a => a.id !== id)`. */
  function DeleteAppointment(appts: seq<Appointment>, id: string): (r: seq<Appointment>)
    ensures forall a :: multiset(r)[a] == if a.id == id then 0 else multiset(appts)[a]
    ensures IsSubsequence(r, appts)
  {
    Filter(appts, (a: Appointment) => a.id != id)
  }

  /** `deletePatient`, first write: the patients whose id is not `id`, in order. */
  function RemovePatient(patients: seq<Patient>, id: string): (r: seq<Patient>)
    ensures forall p :: multiset(r)[p] == if p.id == id then 0 else multiset(patients)[p]
    ensures IsSubsequence(r, patients)
  {
    Filter(patients, (p: Patient) => p.id != id)
  }

  /** `deletePatient`, second write: the appointments whose `patientId` is not `id`, in order. */
  function RemovePatientAppointments(appts: seq<Appointment>, id: string): (r: seq<Appointment>)
    ensures forall a :: multiset(r)[a] == if a.patientId == id then 0 else multiset(appts)[a]
    ensures IsSubsequence(r, appts)
  {
    Filter(appts, (a: Appointment) => a.patientId != id)
  }

  /** Every appointment names an existing patient. */
  predicate PatientsExist(appts: seq<Appointment>, patients: seq<Patient>)
  {
    forall i :: 0 <= i < |appts| ==> exists p :: p in patients && p.id == appts[i].patientId
  }

  /** The cascade removes every reference to the patient and keeps every other reference resolvable. */
  lemma CascadeKeepsReferences(appts: seq<Appointment>, patients: seq<Patient>, id: string)
    requires PatientsExist(appts, patients)
    ensures forall a :: a in RemovePatientAppointments(appts, id) ==> a.patientId != id
    ensures PatientsExist(RemovePatientAppointments(appts, id), RemovePatient(patients, id))
  {
    var ra, rp := RemovePatientAppointments(appts, id), RemovePatient(patients, id);
    forall a | a in ra ensures a.patientId != id {
      assert multiset(ra)[a] > 0;
    }
    forall i | 0 <= i < |ra| ensures exists p :: p in rp && p.id == ra[i].patientId {
      var a := ra[i];
      assert multiset(ra)[a] > 0;
      assert a in appts;
      var j :| 0 <= j < |appts| && appts[j] == a;
      var p :| p in patients && p.id == appts[j].patientId;
      assert multiset(rp)[p] == multiset(patients)[p] > 0;
    }
  }

  /** Deleting appointments never creates a double booking or an id clash. */
  lemma DeletePreservesInvariants(appts: seq<Appointment>, id: string)
    ensures NoDoubleBooking(appts) ==> NoDoubleBooking(DeleteAppointment(appts, id))
    ensures DistinctIds(appts) ==> DistinctIds(DeleteAppointment(appts, id))
    ensures NoDoubleBooking(appts) ==> NoDoubleBooking(RemovePatientAppointments(appts, id))
    ensures DistinctIds(appts) ==> DistinctIds(RemovePatientAppointments(appts, id))
  {
    if NoDoubleBooking(appts) {
      SubsequenceKeepsNoDoubleBooking(DeleteAppointment(appts, id), appts);
      SubsequenceKeepsNoDoubleBooking(RemovePatientAppointments(appts, id), appts);
    }
    if DistinctIds(appts) {
      SubsequenceKeepsDistinctIds(DeleteAppointment(appts, id), appts);
      SubsequenceKeepsDistinctIds(RemovePatientAppointments(appts, id), appts);
    }
  }

  lemma {:induction false} SubsequenceKeepsNoDoubleBooking(sub: seq<Appointment>, s: seq<Appointment>)
    requires IsSubsequence(sub, s) && NoDoubleBooking(s)
    ensures NoDoubleBooking(sub)
  {
    if sub != [] && s != [] {
      assert NoDoubleBooking(s[1..]) by {
        assert forall i :: 0 <= i < |s[1..]| ==> s[1..][i] == s[i + 1];
      }
      if sub[0] == s[0] {
        SubsequenceKeepsNoDoubleBooking(sub[1..], s[1..]);
        SubsequenceMembers(sub[1..], s[1..]);
        forall j | 0 < j < |sub| ensures !SameSlot(sub[0], sub[j]) {
          assert sub[j] == sub[1..][j - 1];
          var m :| 0 <= m < |s[1..]| && s[1..][m] == sub[j];
          assert s[m + 1] == sub[j];
        }
        assert forall i :: 0 < i < |sub| ==> sub[i] == sub[1..][i - 1];
      } else {
        SubsequenceKeepsNoDoubleBooking(sub, s[1..]);
      }
    }
  }

  lemma {:induction false} SubsequenceKeepsDistinctIds(sub: seq<Appointment>, s: seq<Appointment>)
    requires IsSubsequence(sub, s) && DistinctIds(s)
    ensures DistinctIds(sub)
  {
    if sub != [] && s != [] {
      assert DistinctIds(s[1..]) by {
        assert forall i :: 0 <= i < |s[1..]| ==> s[1..][i] == s[i + 1];
      }
      if sub[0] == s[0] {
        SubsequenceKeepsDistinctIds(sub[1..], s[1..]);
        SubsequenceMembers(sub[1..], s[1..]);
        forall j | 0 < j < |sub| ensures sub[0].id != sub[j].id {
          assert sub[j] == sub[1..][j - 1];
          var m :| 0 <= m < |s[1..]| && s[1..][m] == sub[j];
          assert s[m + 1] == sub[j];
        }
        assert forall i :: 0 < i < |sub| ==> sub[i] == sub[1..][i - 1];
      } else {
        SubsequenceKeepsDistinctIds(sub, s[1..]);
      }
    }
  }

  lemma {:induction false} SubsequenceMembers<T>(sub: seq<T>, s: seq<T>)
    requires IsSubsequence(sub, s)
    ensures forall i :: 0 <= i < |sub| ==> exists m :: 0 <= m < |s| && s[m] == sub[i]
  {
    if sub != [] && s != [] {
      if sub[0] == s[0] {
        SubsequenceMembers(sub[1..], s[1..]);
        forall i | 0 < i < |sub| ensures exists m :: 0 <= m < |s| && s[m] == sub[i] {
          assert sub[i] == sub[1..][i - 1];
          var m :| 0 <= m < |s[1..]| && s[1..][m] == sub[1..][i - 1];
          assert s[m + 1] == sub[i];
        }
      } else {
        SubsequenceMembers(sub, s[1..]);
        forall i | 0 <= i < |sub| ensures exists m :: 0 <= m < |s| && s[m] == sub[i] {
          var m :| 0 <= m < |s[1..]| && s[1..][m] == sub[i];
          assert s[m + 1] == sub[i];
        }
      }
    }
  }

  /**
   * The decoded patient and appointment collections the handlers read and write
   * back, with the last registered patient's id. Every handler reads the
   * collections, decides, and replaces what it changed. No handler writes the
   * departments or the doctors; the read side takes them as a `Views.Directory`.
   */
  class Clinic {
    var patients: seq<Patient>
    var appointments: seq<Appointment>
    var lastRegisteredPatientId: string

    constructor (patients: seq<Patient>, appointments: seq<Appointment>)
      ensures this.patients == patients && this.appointments == appointments
      ensures lastRegisteredPatientId == ""
    {
      this.patients := patients;
      this.appointments := appointments;
      lastRegisteredPatientId := "";
    }

    /**
     * The booking form's submit handler: the guard chain, then `appts.push(newAppt)`.
     * `id` and `createdAt` are the `uid("a")` and clock readings.
     */
    method SubmitBooking(req: BookingRequest, today: Date, id: string, createdAt: string)
      returns (rejection: Option<Rejection>)
      modifies this`appointments
      ensures rejection == BookingCheck(old(appointments), req, today)
      ensures appointments == Book(old(appointments), req, today, id, createdAt)
      ensures old(NoDoubleBooking(appointments)) ==> NoDoubleBooking(appointments)
    {
      if req.patientId == "" { return Some(MissingPatient); }
      if req.departmentId == "" { return Some(MissingDepartment); }
      if req.doctorId == "" { return Some(MissingDoctor); }
      if req.date == "" { return Some(MissingDate); }
      if !IsFutureDate(req.date, today) { return Some(DateInPast); }
      if req.time == "" { return Some(MissingTime); }
      if SlotTaken(appointments, req.doctorId, req.date, req.time) { return Some(SlotBooked); }
      if NoDoubleBooking(appointments) {
        BookPreservesNoDoubleBooking(appointments, req, today, id, createdAt);
      }
      appointments := appointments + [NewAppointment(req, id, createdAt)];
      rejection := None;
    }

    /**
     * `saveEditChanges`: the guard chain, then `appts[index].date = date;
     * appts[index].time = time` for the entry `findIndex` located.
     */
    method SaveEditChanges(id: string, date: string, time: string, today: Date)
      returns (rejection: Option<Rejection>)
      modifies this`appointments
      ensures rejection == RescheduleCheck(old(appointments), id, date, time, today)
      ensures rejection.Some? ==> appointments == old(appointments)
      ensures rejection.None? ==> appointments == Rescheduled(old(appointments), id, date, time)
      ensures old(NoDoubleBooking(appointments) && DistinctIds(appointments)) ==>
        NoDoubleBooking(appointments) && DistinctIds(appointments)
    {
      if !IsFutureDate(date, today) { return Some(DateInPast); }
      var index := FirstIndex(appointments, id, AppointmentId);
      if index.None? { return Some(AppointmentNotFound); }
      var current := appointments[index.value];
      if Clash(appointments, current.doctorId, id, date, time) { return Some(SlotBooked); }
      if NoDoubleBooking(appointments) && DistinctIds(appointments) {
        ReschedulePreservesNoDoubleBooking(appointments, id, date, time, today);
      }
      appointments := appointments[index.value := current.(date := date, time := time)];
      rejection := None;
    }

    /** The confirm handler of the delete dialog. */
    method ConfirmDelete(id: string)
      modifies this`appointments
      ensures appointments == DeleteAppointment(old(appointments), id)
      ensures old(NoDoubleBooking(appointments)) ==> NoDoubleBooking(appointments)
      ensures old(DistinctIds(appointments)) ==> DistinctIds(appointments)
    {
      DeletePreservesInvariants(appointments, id);
      appointments := DeleteAppointment(appointments, id);
    }

    /** `deletePatient`: the patient list is written first, then the appointment list. */
    method DeletePatient(id: string)
      modifies this`patients, this`appointments
      ensures patients == RemovePatient(old(patients), id)
      ensures appointments == RemovePatientAppointments(old(appointments), id)
      ensures old(PatientsExist(appointments, patients)) ==> PatientsExist(appointments, patients)
      ensures old(NoDoubleBooking(appointments)) ==> NoDoubleBooking(appointments)
      ensures old(DistinctIds(appointments)) ==> DistinctIds(appointments)
    {
      if PatientsExist(appointments, patients) {
        CascadeKeepsReferences(appointments, patients, id);
      }
      DeletePreservesInvariants(appointments, id);
      patients := RemovePatient(patients, id);
      appointments := RemovePatientAppointments(appointments, id);
    }

    /**
     * The registration form's submit handler, given the values as it reads them
     * (`ReadForm` of the inputs): the validation chain, then `patients.push(newPatient)`
     * and the remembered id. `id` is the `uid("p")` reading.
     */
    method RegisterPatient(form: PatientForm, id: string, createdAt: string)
      returns (rejection: Option<PatientRejection>)
      modifies this`patients, this`lastRegisteredPatientId
      ensures rejection == PatientFormCheck(form)
      ensures rejection.Some? ==> patients == old(patients) && lastRegisteredPatientId == old(lastRegisteredPatientId)
      ensures rejection.None? ==>
        patients == old(patients) + [NewPatient(form, id, createdAt)] && lastRegisteredPatientId == id
    {
      rejection := PatientFormCheck(form);
      if rejection.Some? { return; }
      patients := patients + [NewPatient(form, id, createdAt)];
      lastRegisteredPatientId := id;
    }

    /**
     * `savePatientEdit` with the detailed dialog, given the values as it reads them:
     * validation, then the lookup, then the merge.
     */
    method SavePatientEdit(id: string, form: PatientForm) returns (rejection: Option<PatientRejection>)
      modifies this`patients
      ensures rejection == PatientEditCheck(old(patients), id, form)
      ensures rejection.Some? ==> patients == old(patients)
      ensures rejection.None? ==>
        patients == ApplyPatientEdit(old(patients), FirstIndex(old(patients), id, PatientId).value, form)
    {
      rejection := PatientFormCheck(form);
      if rejection.Some? { return; }
      var idx := FirstIndex(patients, id, PatientId);
      if idx.None? { return Some(PatientNotFound); }
      patients := ApplyPatientEdit(patients, idx.value, form);
    }

    /** `savePatientEdit` with the legacy dialog: raw values merged over the stored record. */
    method SaveLegacyPatientEdit(id: string, form: LegacyForm) returns (rejection: Option<PatientRejection>)
      modifies this`patients
      ensures rejection == LegacyEditCheck(old(patients), id, form)
      ensures rejection.Some? ==> patients == old(patients)
      ensures rejection.None? ==>
        var k := FirstIndex(old(patients), id, PatientId).value;
        patients == ReplaceAt(old(patients), k, LegacyEdited(old(patients)[k], form))
    {
      if !Name(form.name) { return Some(InvalidName); }
      if !Validate.Age(form.age) { return Some(InvalidAge); }
      if !Gender(form.gender) { return Some(MissingGender); }
      if !Contact(form.contact) { return Some(InvalidContact); }
      if !Email(form.email) { return Some(InvalidEmail); }
      var idx := FirstIndex(patients, id, PatientId);
      if idx.None? { return Some(PatientNotFound); }
      patients := ReplaceAt(patients, idx.value, LegacyEdited(patients[idx.value], form));
      rejection := None;
    }
  }
}
