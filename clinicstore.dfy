/**
 * The clinic database shared by both Flask back ends: the `users`, `appointments` and
 * `reports` tables, and the handlers that change them. Each handler runs as one atomic
 * step; the tables are maps from the row id (for `reports`, from the UNIQUE
 * `appointment_id`) to the row, and each AUTOINCREMENT/SERIAL sequence is a counter that
 * only grows.
 */
module ClinicStore {
  import opened Optional

  const Scheduled := "Scheduled"
  const Completed := "Completed"
  const Cancelled := "Cancelled"
  const Confirmed := "Confirmed"
  const Available := "Available"
  const PatientRole := "patient"
  const DoctorRole := "doctor"

  /** A key of a request body: absent (`'k' not in data`) or present with a value (`data['k']`). */
  datatype Field<T> = Absent | Given(value: T)

  /** What `appointments.report_id` holds: NULL, the integer 1, or the text `'generated'`. */
  datatype ReportRef = NoReport | RefInt(n: int) | RefText(s: string)

  /** A row of `appointments` (the never-written `doctor_name` column is left out). */
  datatype Appointment = Appointment(
    dept: string, date: string, status: string, userMobile: string,
    patientName: Option<string>, patientAge: Option<int>, reportId: ReportRef)

  /** A row of `reports`; `created_at` is a clock value and is left out. */
  datatype Report = Report(
    id: int, appointmentId: int, diagnosis: string, medicines: string, notes: string,
    filePath: Option<string>, symptoms: Option<string>, followUpDate: Option<string>)

  /** A row of `users`: patients and doctors share the table and differ by `role`. */
  datatype User = User(
    name: string, age: Option<int>, mobile: string, role: string,
    department: Option<string>, status: Option<string>,
    queueCurrent: Option<int>, queueTotal: Option<int>,
    roomNumber: Option<string>, description: Option<string>)

  /**
   * A report submission once its required keys (`appointment_id`, `diagnosis`,
   * `medicines`, `notes`) are known to be present. `filePath` is the stored name of the
   * uploaded file, if one was sent; `symptoms` and `followUpDate` come from `data.get`.
   */
  datatype ReportForm = ReportForm(
    appointmentId: int, diagnosis: string, medicines: string, notes: string,
    filePath: Option<string>, symptoms: Option<string>, followUpDate: Option<string>)

  /** The keys of a `/api/doctor/report` submission, as sent. */
  datatype ReportRequest = ReportRequest(
    appointmentId: Field<int>, diagnosis: Field<string>, medicines: Field<string>, notes: Field<string>,
    filePath: Option<string>, symptoms: Option<string>, followUpDate: Option<string>)

  /** What `/api/doctor/report` answers: success, or the server error a missing key raises. */
  datatype SaveReply = Saved | SaveFailed

  /** What `/api/login` answers. */
  datatype LoginReply =
    | Existing(id: int, user: User)
    | Registered(id: int, name: string, age: Option<int>, mobile: string)
    | NameAndAgeRequired
    | MissingMobile

  /** What `/api/report/<apt_id>` answers: the report row, or the 404 "Report not found". */
  datatype ReportReply = Found(report: Report) | NotFound

  // ---------------------------------------------------------------------------
  // Seed rows
  // ---------------------------------------------------------------------------

  function SeedDoctor(name: string, dept: string, mobile: string, room: string, desc: string): User {
    User(name, Some(45), mobile, DoctorRole, Some(dept), Some(Available), Some(0), Some(0), Some(room), Some(desc))
  }

  /** The rows inserted into an empty `users` table: one demo patient and six doctors. */
  function SeedUsers(): map<int, User> {
    map[
      1 := User("Demo User", Some(25), "9876543210", PatientRole, None, Some(Available), Some(0), Some(0), None, None),
      2 := SeedDoctor("Dr. Nikhil Patil", "General Physician", "admin1", "101", "Expert in general health and primary care."),
      3 := SeedDoctor("Dr. Sagar Patil", "Dental", "admin2", "205", "Specialist in dental surgery and oral health."),
      4 := SeedDoctor("Dr. Pratiksha Patil", "ENT", "admin3", "310", "Specializes in ear, nose, and throat disorders."),
      5 := SeedDoctor("Dr. Sharma", "Orthopedic", "admin4", "D-12", "Expert in bone and joint treatments."),
      6 := SeedDoctor("Dr. Tiwari", "Cardiology", "admin5", "ICU-1", "Specialist in heart diseases and surgery."),
      7 := SeedDoctor("Dr. Nethe", "Pediatrics", "admin6", "OPD-4", "Child healthcare specialist.")
    ]
  }

  /** Tells the seed mobiles apart: the demo patient's is the only one that is not six long. */
  function SeedTag(mobile: string): int {
    if |mobile| != 6 then 1 else mobile[5] as int - '0' as int + 1
  }

  lemma SeedTagOf(id: int)
    requires id in SeedUsers()
    ensures SeedTag(SeedUsers()[id].mobile) == id
  {
    var u := SeedUsers();
    if id == 1 {
      assert |u[1].mobile| == 10;
    } else {
      assert |u[id].mobile| == 6;
    }
  }

  /** No two seed users share a mobile, and their ids are 1 to 7. */
  lemma SeedMobilesUnique()
    ensures UniqueMobiles(SeedUsers())
    ensures forall id | id in SeedUsers() :: 0 < id <= 7
  {
    var u := SeedUsers();
    forall i, j | i in u && j in u && i != j
      ensures u[i].mobile != u[j].mobile
    {
      SeedTagOf(i);
      SeedTagOf(j);
    }
  }

  // ---------------------------------------------------------------------------
  // Row updates
  // ---------------------------------------------------------------------------

  /** `UPDATE appointments SET status = s WHERE id = id`: no check of the current status. */
  function SetStatus(m: map<int, Appointment>, id: int, s: string): (r: map<int, Appointment>)
    ensures r.Keys == m.Keys
    ensures id in m ==> r[id].status == s && r[id] == m[id].(status := s)
    ensures forall j | j in m && j != id :: r[j] == m[j]
  {
    if id in m then m[id := m[id].(status := s)] else m
  }

  /** A later status update wins: only the last of two status writes to the same row is visible. */
  lemma SetStatusLastWins(m: map<int, Appointment>, id: int, s1: string, s2: string)
    ensures SetStatus(SetStatus(m, id, s1), id, s2) == SetStatus(m, id, s2)
  {
  }

  /** The appointment update of a first report: `status = 'Completed'` and the report marker. */
  function MarkCompleted(m: map<int, Appointment>, id: int, marker: ReportRef): (r: map<int, Appointment>)
    ensures r.Keys == m.Keys
    ensures id in m ==> r[id] == m[id].(status := Completed, reportId := marker)
    ensures forall j | j in m && j != id :: r[j] == m[j]
  {
    if id in m then m[id := m[id].(status := Completed, reportId := marker)] else m
  }

  /**
   * The submission `save_report` goes on with: every `data[k]` it reads must be present,
   * otherwise the handler raises before writing anything.
   */
  function FormOf(req: ReportRequest): (r: Option<ReportForm>)
    ensures r.Some? <==>
      req.appointmentId.Given? && req.diagnosis.Given? && req.medicines.Given? && req.notes.Given?
    ensures r.Some? ==>
      r.value.appointmentId == req.appointmentId.value && r.value.diagnosis == req.diagnosis.value
      && r.value.medicines == req.medicines.value && r.value.notes == req.notes.value
      && r.value.filePath == req.filePath && r.value.symptoms == req.symptoms
      && r.value.followUpDate == req.followUpDate
  {
    if req.appointmentId.Given? && req.diagnosis.Given? && req.medicines.Given? && req.notes.Given? then
      Some(ReportForm(req.appointmentId.value, req.diagnosis.value, req.medicines.value, req.notes.value,
                      req.filePath, req.symptoms, req.followUpDate))
    else None
  }

  /** Python truthiness of the stored file name (`if file_path:`). */
  predicate HasFile(form: ReportForm) {
    form.filePath.Some? && form.filePath.value != ""
  }

  /** The row `save_report` inserts when the appointment has no report yet. */
  function FirstReport(id: int, form: ReportForm): Report {
    Report(id, form.appointmentId, form.diagnosis, form.medicines, form.notes,
           form.filePath, form.symptoms, form.followUpDate)
  }

  /**
   * The row a later `save_report` leaves: the text fields are replaced; with a file its
   * name replaces `file_path` and symptoms/follow-up are kept, without one symptoms and
   * follow-up are replaced and `file_path` is kept. Identity and key never change.
   */
  function Revise(r: Report, form: ReportForm): (s: Report)
    ensures s.id == r.id && s.appointmentId == r.appointmentId
    ensures s.diagnosis == form.diagnosis && s.medicines == form.medicines && s.notes == form.notes
    ensures HasFile(form) ==>
      s.filePath == form.filePath && s.symptoms == r.symptoms && s.followUpDate == r.followUpDate
    ensures !HasFile(form) ==>
      s.filePath == r.filePath && s.symptoms == form.symptoms && s.followUpDate == form.followUpDate
  {
    if HasFile(form) then
      r.(diagnosis := form.diagnosis, medicines := form.medicines, notes := form.notes,
         filePath := form.filePath)
    else
      r.(diagnosis := form.diagnosis, medicines := form.medicines, notes := form.notes,
         symptoms := form.symptoms, followUpDate := form.followUpDate)
  }

  /** Submitting the same form twice leaves the report as submitting it once. */
  lemma ReviseIdempotent(r: Report, form: ReportForm)
    ensures Revise(Revise(r, form), form) == Revise(r, form)
  {
  }

  /** A resubmission without a file, after a first report, yields exactly the first report of the new form. */
  lemma ReviseWithoutFileRestoresForm(id: int, first: ReportForm, again: ReportForm)
    requires again.appointmentId == first.appointmentId && !HasFile(again) && again.filePath == first.filePath
    ensures Revise(FirstReport(id, first), again) == FirstReport(id, again)
  {
  }

  /** `/api/report/<apt_id>`: the report stored for that appointment, if any. */
  function GetReport(reports: map<int, Report>, aptId: int): (r: ReportReply)
    ensures r.Found? <==> aptId in reports
    ensures r.Found? ==> r.report == reports[aptId]
  {
    if aptId in reports then Found(reports[aptId]) else NotFound
  }

  /** The value a key of `update_doctor_status` leaves in its column. */
  function Overwrite<T>(f: Field<T>, current: T): T {
    match f
    case Given(v) => v
    case Absent => current
  }

  /**
   * `update_doctor_status`: each key present in the request overwrites its column in the
   * row whose id is `docId`; no role check and no bound on the counters.
   */
  function ApplyStatusUpdate(
    users: map<int, User>, docId: Option<int>,
    status: Field<Option<string>>, current: Field<Option<int>>, total: Field<Option<int>>): (r: map<int, User>)
    ensures r.Keys == users.Keys
    ensures forall j | j in users && docId != Some(j) :: r[j] == users[j]
    ensures docId.Some? && docId.value in users ==>
      var u, v := users[docId.value], r[docId.value];
      v.status == Overwrite(status, u.status)
      && v.queueCurrent == Overwrite(current, u.queueCurrent)
      && v.queueTotal == Overwrite(total, u.queueTotal)
      && v == u.(status := v.status, queueCurrent := v.queueCurrent, queueTotal := v.queueTotal)
  {
    match docId
    case None => users
    case Some(d) =>
      if d in users then
        var u := users[d];
        users[d := u.(status := Overwrite(status, u.status),
                      queueCurrent := Overwrite(current, u.queueCurrent),
                      queueTotal := Overwrite(total, u.queueTotal))]
      else users
  }

  /** A request with none of the three keys changes nothing. */
  lemma EmptyStatusUpdateIsIdentity(users: map<int, User>, docId: Option<int>)
    ensures ApplyStatusUpdate(users, docId, Absent, Absent, Absent) == users
  {
  }

  /** The counters are stored as sent: a current position above the total is accepted. */
  lemma CounterBoundsNotChecked(users: map<int, User>, d: int)
    requires d in users
    ensures var u := ApplyStatusUpdate(users, Some(d), Absent, Given(Some(10)), Given(Some(3)))[d];
      u.queueCurrent == Some(10) && u.queueTotal == Some(3)
  {
  }

  // ---------------------------------------------------------------------------
  // Lookup by mobile (`SELECT * FROM users WHERE mobile = ?`)
  // ---------------------------------------------------------------------------

  ghost predicate MobileTaken(users: map<int, User>, mobile: string) {
    exists id :: id in users && users[id].mobile == mobile
  }

  ghost predicate UniqueMobiles(users: map<int, User>) {
    forall i, j | i in users && j in users && i != j :: users[i].mobile != users[j].mobile
  }

  /** The id of the user row with this mobile among ids `1..hi`, scanning from the highest. */
  function LookupMobile(users: map<int, User>, mobile: string, hi: int): (r: Option<int>)
    ensures r.Some? ==> r.value in users && 0 < r.value <= hi && users[r.value].mobile == mobile
    ensures r.None? ==> forall id | id in users && 0 < id <= hi :: users[id].mobile != mobile
    decreases hi
  {
    if hi <= 0 then None
    else if hi in users && users[hi].mobile == mobile then Some(hi)
    else LookupMobile(users, mobile, hi - 1)
  }

  /** The stored row of a newly registered patient. */
  function NewPatient(name: string, age: Option<int>, mobile: string): User {
    User(name, age, mobile, PatientRole, None, None, Some(0), Some(0), None, None)
  }

  // ---------------------------------------------------------------------------
  // The tables
  // ---------------------------------------------------------------------------

  class ClinicDb {
    var users: map<int, User>
    var appointments: map<int, Appointment>
    /** Keyed by `appointment_id`, which the schema declares UNIQUE. */
    var reports: map<int, Report>
    var lastUserId: int
    var lastAptId: int
    var lastReportId: int
    /** Every appointment id the sequence has handed out, deleted rows included. */
    ghost var issuedAptIds: set<int>

    ghost predicate Valid()
      reads this
    {
      lastUserId >= 0 && lastAptId >= 0 && lastReportId >= 0
      && (forall id | id in users :: 0 < id <= lastUserId)
      && UniqueMobiles(users)
      && appointments.Keys <= issuedAptIds
      && (forall id | id in issuedAptIds :: 0 < id <= lastAptId)
      && (forall a | a in reports :: reports[a].appointmentId == a && 0 < reports[a].id <= lastReportId)
      && (forall a, b | a in reports && b in reports && a != b :: reports[a].id != reports[b].id)
    }

    /** A freshly created database: the seed users and no appointments or reports. */
    constructor Seeded()
      ensures Valid()
      ensures users == SeedUsers() && appointments == map[] && reports == map[]
      ensures lastUserId == 7 && lastAptId == 0 && lastReportId == 0 && issuedAptIds == {}
    {
      SeedMobilesUnique();
      users := SeedUsers();
      appointments := map[];
      reports := map[];
      lastUserId := 7;
      lastAptId := 0;
      lastReportId := 0;
      issuedAptIds := {};
    }

    /**
     * `INSERT INTO appointments ... VALUES (dept, date, 'Scheduled', mobile, NULL, name, age)`:
     * one new row under a fresh id, larger than every id ever issued; no duplicate check.
     */
    method InsertAppointment(dept: string, date: string, mobile: string,
                             patientName: Option<string>, patientAge: Option<int>) returns (id: int)
      requires Valid()
      modifies this
      ensures Valid()
      ensures id == old(lastAptId) + 1 && id !in old(issuedAptIds) && id !in old(appointments)
      ensures forall j | j in old(issuedAptIds) :: j < id
      ensures appointments == old(appointments)[id := Appointment(dept, date, Scheduled, mobile, patientName, patientAge, NoReport)]
      ensures appointments.Keys == old(appointments).Keys + {id}
      ensures issuedAptIds == old(issuedAptIds) + {id} && lastAptId == id
      ensures users == old(users) && reports == old(reports)
      ensures lastUserId == old(lastUserId) && lastReportId == old(lastReportId)
    {
      lastAptId := lastAptId + 1;
      id := lastAptId;
      appointments := appointments[id := Appointment(dept, date, Scheduled, mobile, patientName, patientAge, NoReport)];
      issuedAptIds := issuedAptIds + {id};
    }

    /**
     * `save_report` once its required keys are present: a first report for the appointment
     * is inserted and the appointment (if the row exists) becomes Completed with `marker`
     * as its `report_id`; a later one only revises the existing report.
     */
    method SaveReport(form: ReportForm, marker: ReportRef)
      requires Valid()
      modifies this
      ensures Valid()
      ensures form.appointmentId in old(reports) ==>
        reports == old(reports)[form.appointmentId := Revise(old(reports)[form.appointmentId], form)]
        && appointments == old(appointments) && lastReportId == old(lastReportId)
      ensures form.appointmentId !in old(reports) ==>
        lastReportId == old(lastReportId) + 1
        && reports == old(reports)[form.appointmentId := FirstReport(lastReportId, form)]
        && appointments == MarkCompleted(old(appointments), form.appointmentId, marker)
      ensures reports.Keys == old(reports).Keys + {form.appointmentId}
      ensures users == old(users) && issuedAptIds == old(issuedAptIds)
      ensures lastUserId == old(lastUserId) && lastAptId == old(lastAptId)
    {
      var a := form.appointmentId;
      if a in reports {
        reports := reports[a := Revise(reports[a], form)];
      } else {
        lastReportId := lastReportId + 1;
        reports := reports[a := FirstReport(lastReportId, form)];
        appointments := MarkCompleted(appointments, a, marker);
      }
    }

    /** `UPDATE appointments SET status = s WHERE id = ?`, the body of cancel and confirm. */
    method SetAppointmentStatus(id: int, s: string)
      requires Valid()
      modifies this
      ensures Valid()
      ensures appointments == SetStatus(old(appointments), id, s)
      ensures users == old(users) && reports == old(reports) && issuedAptIds == old(issuedAptIds)
      ensures lastUserId == old(lastUserId) && lastAptId == old(lastAptId) && lastReportId == old(lastReportId)
    {
      appointments := SetStatus(appointments, id, s);
    }

    /** `cancel_appointment`: status becomes 'Cancelled' whatever it was, 'Completed' included. */
    method Cancel(id: int)
      requires Valid()
      modifies this
      ensures Valid()
      ensures appointments == SetStatus(old(appointments), id, Cancelled)
      ensures users == old(users) && reports == old(reports) && issuedAptIds == old(issuedAptIds)
      ensures lastUserId == old(lastUserId) && lastAptId == old(lastAptId) && lastReportId == old(lastReportId)
    {
      SetAppointmentStatus(id, Cancelled);
    }

    /** `confirm_appointment`: status becomes 'Confirmed' whatever it was. */
    method Confirm(id: int)
      requires Valid()
      modifies this
      ensures Valid()
      ensures appointments == SetStatus(old(appointments), id, Confirmed)
      ensures users == old(users) && reports == old(reports) && issuedAptIds == old(issuedAptIds)
      ensures lastUserId == old(lastUserId) && lastAptId == old(lastAptId) && lastReportId == old(lastReportId)
    {
      SetAppointmentStatus(id, Confirmed);
    }

    /** `delete_appointment`: the row goes, its report stays, and its id is not handed out again. */
    method Delete(id: int)
      requires Valid()
      modifies this
      ensures Valid()
      ensures appointments == old(appointments) - {id}
      ensures users == old(users) && reports == old(reports) && issuedAptIds == old(issuedAptIds)
      ensures lastUserId == old(lastUserId) && lastAptId == old(lastAptId) && lastReportId == old(lastReportId)
    {
      appointments := appointments - {id};
    }

    /** `update_doctor_status`: the keys present overwrite their columns of row `docId`. */
    method UpdateDoctorStatus(docId: Option<int>, status: Field<Option<string>>,
                              current: Field<Option<int>>, total: Field<Option<int>>)
      requires Valid()
      modifies this
      ensures Valid()
      ensures users == ApplyStatusUpdate(old(users), docId, status, current, total)
      ensures appointments == old(appointments) && reports == old(reports) && issuedAptIds == old(issuedAptIds)
      ensures lastUserId == old(lastUserId) && lastAptId == old(lastAptId) && lastReportId == old(lastReportId)
    {
      users := ApplyStatusUpdate(users, docId, status, current, total);
      assert forall id | id in users :: users[id].mobile == old(users)[id].mobile;
    }

    /**
     * `login`: a known mobile returns its stored row; an unknown one is registered as a
     * patient when both `name` and `age` keys are present, and refused otherwise. A missing
     * `mobile` key raises before anything is read.
     */
    method Login(mobile: Field<string>, name: Field<string>, age: Field<Option<int>>) returns (reply: LoginReply)
      requires Valid()
      modifies this
      ensures Valid()
      ensures mobile.Absent? ==> reply == MissingMobile
      ensures mobile.Given? && MobileTaken(old(users), mobile.value) ==>
        reply.Existing? && reply.id in old(users) && reply.user == old(users)[reply.id]
        && reply.user.mobile == mobile.value
      ensures mobile.Given? && !MobileTaken(old(users), mobile.value) && (name.Absent? || age.Absent?) ==>
        reply == NameAndAgeRequired
      ensures reply.Registered? <==>
        mobile.Given? && !MobileTaken(old(users), mobile.value) && name.Given? && age.Given?
      ensures reply.Registered? ==>
        reply == Registered(old(lastUserId) + 1, name.value, age.value, mobile.value)
        && users == old(users)[reply.id := NewPatient(name.value, age.value, mobile.value)]
        && lastUserId == reply.id && reply.id !in old(users)
      ensures !reply.Registered? ==> users == old(users) && lastUserId == old(lastUserId)
      ensures appointments == old(appointments) && reports == old(reports) && issuedAptIds == old(issuedAptIds)
      ensures lastAptId == old(lastAptId) && lastReportId == old(lastReportId)
    {
      if mobile.Absent? {
        return MissingMobile;
      }
      var found := LookupMobile(users, mobile.value, lastUserId);
      if found.Some? {
        return Existing(found.value, users[found.value]);
      }
      if name.Absent? || age.Absent? {
        return NameAndAgeRequired;
      }
      lastUserId := lastUserId + 1;
      users := users[lastUserId := NewPatient(name.value, age.value, mobile.value)];
      reply := Registered(lastUserId, name.value, age.value, mobile.value);
    }
  }
}
