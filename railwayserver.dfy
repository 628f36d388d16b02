/**
 * The handlers of the deployed back end that differ from the earlier one: booking stores
 * the patient's name and age, a first report marks its appointment with `report_id = 1`,
 * the appointment listing carries each report's follow-up date, and the patient history
 * joins reports on the appointment id alone.
 */
module RailwayServer {
  import opened Optional
  import opened Strings
  import opened ClinicStore
  import opened ClinicQueries

  /** The marker a first report writes into `appointments.report_id`. */
  const ReportMarker := RefInt(1)

  /** The body of `/api/book`: three required keys and two optional ones (`data.get`). */
  datatype BookRequest = BookRequest(
    dept: Field<string>, date: Field<string>, mobile: Field<string>,
    patientName: Option<string>, patientAge: Option<int>)

  /** What `/api/book` answers: the new id, or the server error a missing key raises. */
  datatype BookReply = Booked(id: int) | BookFailed

  /**
   * `book_appointment`: with all required keys, exactly one new 'Scheduled' row with no
   * report, under an id larger than any issued before; otherwise nothing changes.
   */
  method BookAppointment(db: ClinicDb, req: BookRequest) returns (reply: BookReply)
    requires db.Valid()
    modifies db
    ensures db.Valid()
    ensures reply.BookFailed? <==> req.dept.Absent? || req.date.Absent? || req.mobile.Absent?
    ensures reply.BookFailed? ==>
      db.appointments == old(db.appointments) && db.lastAptId == old(db.lastAptId)
      && db.issuedAptIds == old(db.issuedAptIds)
    ensures reply.Booked? ==>
      reply.id == old(db.lastAptId) + 1 && reply.id !in old(db.issuedAptIds)
      && (forall j | j in old(db.issuedAptIds) :: j < reply.id)
      && db.appointments == old(db.appointments)[reply.id := Appointment(
           req.dept.value, req.date.value, Scheduled, req.mobile.value, req.patientName, req.patientAge, NoReport)]
      && db.appointments.Keys == old(db.appointments).Keys + {reply.id}
    ensures reply.Booked? ==> db.lastAptId == reply.id && db.issuedAptIds == old(db.issuedAptIds) + {reply.id}
    ensures db.users == old(db.users) && db.reports == old(db.reports)
    ensures db.lastUserId == old(db.lastUserId) && db.lastReportId == old(db.lastReportId)
  {
    if req.dept.Absent? || req.date.Absent? || req.mobile.Absent? {
      return BookFailed;
    }
    var id := db.InsertAppointment(req.dept.value, req.date.value, req.mobile.value, req.patientName, req.patientAge);
    reply := Booked(id);
  }

  /** Booking the same request twice gives two rows with equal contents under two different ids. */
  method BookTwice(db: ClinicDb, req: BookRequest) returns (first: BookReply, second: BookReply)
    requires db.Valid() && req.dept.Given? && req.date.Given? && req.mobile.Given?
    modifies db
    ensures db.Valid()
    ensures first.Booked? && second.Booked? && first.id < second.id
    ensures first.id in db.appointments && second.id in db.appointments
    ensures db.appointments[first.id] == db.appointments[second.id]
  {
    first := BookAppointment(db, req);
    second := BookAppointment(db, req);
  }

  /** `save_report` with `report_id = 1` as the first-report marker. */
  method SaveReport(db: ClinicDb, req: ReportRequest) returns (reply: SaveReply)
    requires db.Valid()
    modifies db
    ensures db.Valid()
    ensures reply.SaveFailed? <==> FormOf(req).None?
    ensures reply.SaveFailed? ==>
      db.reports == old(db.reports) && db.appointments == old(db.appointments)
      && db.lastReportId == old(db.lastReportId)
    ensures reply.Saved? ==>
      var form := FormOf(req).value;
      var a := form.appointmentId;
      (a in old(db.reports) ==>
        db.reports == old(db.reports)[a := Revise(old(db.reports)[a], form)]
        && db.appointments == old(db.appointments) && db.lastReportId == old(db.lastReportId))
      && (a !in old(db.reports) ==>
        db.reports == old(db.reports)[a := FirstReport(old(db.lastReportId) + 1, form)]
        && db.appointments == MarkCompleted(old(db.appointments), a, ReportMarker)
        && db.lastReportId == old(db.lastReportId) + 1)
    ensures db.users == old(db.users) && db.issuedAptIds == old(db.issuedAptIds)
    ensures db.lastUserId == old(db.lastUserId) && db.lastAptId == old(db.lastAptId)
  {
    var form := FormOf(req);
    if form.None? {
      return SaveFailed;
    }
    db.SaveReport(form.value, ReportMarker);
    reply := Saved;
  }

  /**
   * The report flow end to end: book, submit a first report, read it back, cancel. The
   * report holds the submitted fields, the appointment is Completed with `report_id = 1`,
   * and the cancel still overrides the Completed status. If a report was already stored
   * under the new id (a report may name an appointment that did not exist yet), the
   * submission only revises that report and the appointment stays Scheduled.
   */
  method ReportLifecycle(db: ClinicDb, dept: string, date: string, mobile: string, req: ReportRequest)
    returns (id: int, report: ReportReply, afterReport: Appointment, afterCancel: Appointment)
    requires db.Valid()
    requires req.diagnosis.Given? && req.medicines.Given? && req.notes.Given?
    modifies db
    ensures db.Valid()
    ensures id == old(db.lastAptId) + 1
    ensures report.Found? && report.report.appointmentId == id
      && report.report.diagnosis == req.diagnosis.value
      && report.report.medicines == req.medicines.value && report.report.notes == req.notes.value
    ensures id !in old(db.reports) ==>
      report.report.filePath == req.filePath && report.report.symptoms == req.symptoms
      && report.report.followUpDate == req.followUpDate
      && afterReport == Appointment(dept, date, Completed, mobile, None, None, ReportMarker)
    ensures id in old(db.reports) ==>
      afterReport == Appointment(dept, date, Scheduled, mobile, None, None, NoReport)
    ensures afterCancel == afterReport.(status := Cancelled)
  {
    var booked := BookAppointment(db, BookRequest(Given(dept), Given(date), Given(mobile), None, None));
    id := booked.id;
    var saved := SaveReport(db, req.(appointmentId := Given(id)));
    report := GetReport(db.reports, id);
    afterReport := db.appointments[id];
    db.Cancel(id);
    afterCancel := db.appointments[id];
  }

  // ---------------------------------------------------------------------------
  // GET /api/appointments?mobile=...
  // ---------------------------------------------------------------------------

  /** A listing row: `a.*` and the follow-up date of the appointment's report (`r.follow_up_date`). */
  datatype AppointmentRow = AppointmentRow(id: int, apt: Appointment, followUpDate: Option<string>)

  /** `LEFT JOIN reports r ON a.id = r.appointment_id`, one column of it. */
  function FollowUpOf(reports: map<int, Report>, id: int): Option<string> {
    if id in reports then reports[id].followUpDate else None
  }

  /**
   * `get_appointments`: nothing without a mobile; otherwise exactly that mobile's
   * appointments among ids `1..hi`, newest id first, each with its report's follow-up date.
   */
  function GetAppointments(appts: map<int, Appointment>, reports: map<int, Report>, hi: int,
                           mobile: Option<string>): (rows: seq<AppointmentRow>)
    ensures mobile.None? || mobile == Some("") ==> rows == []
    ensures forall i | 0 <= i < |rows| ::
      rows[i].id in appts && 0 < rows[i].id <= hi && rows[i].apt == appts[rows[i].id]
      && Some(rows[i].apt.userMobile) == mobile
      && rows[i].followUpDate == (if rows[i].id in reports then reports[rows[i].id].followUpDate else None)
    ensures mobile.Some? && mobile.value != "" ==>
      forall id | id in appts && 0 < id <= hi && appts[id].userMobile == mobile.value ::
        exists i | 0 <= i < |rows| :: rows[i].id == id
    ensures forall i, j | 0 <= i < j < |rows| :: rows[i].id > rows[j].id
  {
    match mobile
    case None => []
    case Some(m) =>
      if m == "" then []
      else
        var ids := IdsOf(appts, m, hi);
        var rows := RowsOf(appts, reports, ids);
        ListingCoversMobile(appts, reports, m, hi, ids, rows);
        rows
  }

  /** One listing row per id, in the order of `ids`. */
  function RowsOf(appts: map<int, Appointment>, reports: map<int, Report>, ids: seq<int>): (rows: seq<AppointmentRow>)
    requires forall i | 0 <= i < |ids| :: ids[i] in appts
    ensures |rows| == |ids|
    ensures forall i | 0 <= i < |ids| :: rows[i] == AppointmentRow(ids[i], appts[ids[i]], FollowUpOf(reports, ids[i]))
  {
    seq(|ids|, i requires 0 <= i < |ids| => AppointmentRow(ids[i], appts[ids[i]], FollowUpOf(reports, ids[i])))
  }

  /** Every appointment of the mobile among ids `1..hi` has a listing row. */
  lemma ListingCoversMobile(appts: map<int, Appointment>, reports: map<int, Report>, m: string, hi: int, ids: seq<int>, rows: seq<AppointmentRow>)
    requires ids == IdsOf(appts, m, hi) && rows == RowsOf(appts, reports, ids)
    ensures forall id | id in appts && 0 < id <= hi && appts[id].userMobile == m ::
      exists i | 0 <= i < |rows| :: rows[i].id == id
  {
    forall id | id in appts && 0 < id <= hi && appts[id].userMobile == m
      ensures exists i | 0 <= i < |rows| :: rows[i].id == id
    {
      var i :| 0 <= i < |ids| && ids[i] == id;
      assert rows[i].id == id;
    }
  }

  // ---------------------------------------------------------------------------
  // GET /api/doctor/patient_history/<mobile>
  // ---------------------------------------------------------------------------

  /** A history row: `a.*` and the report's diagnosis, medicines, symptoms and follow-up date. */
  datatype HistoryRow = HistoryRow(
    id: int, apt: Appointment,
    diagnosis: Option<string>, medicines: Option<string>, symptoms: Option<string>, followUpDate: Option<string>)

  /** `LEFT JOIN reports r ON a.id = r.appointment_id`: the report's columns where one exists, NULLs otherwise. */
  function JoinReport(reports: map<int, Report>, e: Entry): (row: HistoryRow)
    ensures row.id == e.id && row.apt == e.apt
    ensures e.id in reports ==>
      row.diagnosis == Some(reports[e.id].diagnosis) && row.medicines == Some(reports[e.id].medicines)
      && row.symptoms == reports[e.id].symptoms && row.followUpDate == reports[e.id].followUpDate
    ensures e.id !in reports ==>
      row.diagnosis == None && row.medicines == None && row.symptoms == None && row.followUpDate == None
  {
    if e.id in reports then
      var r := reports[e.id];
      HistoryRow(e.id, e.apt, Some(r.diagnosis), Some(r.medicines), r.symptoms, r.followUpDate)
    else HistoryRow(e.id, e.apt, None, None, None, None)
  }

  /** The history rows: the date-ordered appointments of the mobile, each joined with its report. */
  function GetPatientHistory(appts: map<int, Appointment>, reports: map<int, Report>, hi: int,
                             mobile: string): seq<HistoryRow>
  {
    var es := HistoryEntries(appts, mobile, hi);
    seq(|es|, i requires 0 <= i < |es| => JoinReport(reports, es[i]))
  }

  lemma HistoryRowAt(appts: map<int, Appointment>, reports: map<int, Report>, hi: int, mobile: string, i: int)
    requires 0 <= i < |GetPatientHistory(appts, reports, hi, mobile)|
    ensures var es := HistoryEntries(appts, mobile, hi);
      var row := GetPatientHistory(appts, reports, hi, mobile)[i];
      |es| == |GetPatientHistory(appts, reports, hi, mobile)| && row == JoinReport(reports, es[i])
  {
  }

  /** Each history row is one of the mobile's appointments joined with its report. */
  lemma PatientHistorySound(appts: map<int, Appointment>, reports: map<int, Report>, hi: int, mobile: string)
    ensures var rows := GetPatientHistory(appts, reports, hi, mobile);
      forall i | 0 <= i < |rows| ::
        rows[i].id in appts && 0 < rows[i].id <= hi && rows[i].apt == appts[rows[i].id]
        && rows[i].apt.userMobile == mobile && rows[i] == JoinReport(reports, Entry(rows[i].id, rows[i].apt))
  {
    var rows := GetPatientHistory(appts, reports, hi, mobile);
    var es := HistoryEntries(appts, mobile, hi);
    forall i | 0 <= i < |rows|
      ensures rows[i].id in appts && 0 < rows[i].id <= hi && rows[i].apt == appts[rows[i].id]
        && rows[i].apt.userMobile == mobile && rows[i] == JoinReport(reports, Entry(rows[i].id, rows[i].apt))
    {
      HistoryRowAt(appts, reports, hi, mobile, i);
      assert es[i] == Entry(rows[i].id, rows[i].apt);
    }
  }

  /** Every appointment of the mobile among ids `1..hi` has a history row. */
  lemma PatientHistoryComplete(appts: map<int, Appointment>, reports: map<int, Report>, hi: int, mobile: string)
    ensures var rows := GetPatientHistory(appts, reports, hi, mobile);
      forall id | id in appts && 0 < id <= hi && appts[id].userMobile == mobile ::
        exists i | 0 <= i < |rows| :: rows[i].id == id
  {
    var rows := GetPatientHistory(appts, reports, hi, mobile);
    var es := HistoryEntries(appts, mobile, hi);
    forall id | id in appts && 0 < id <= hi && appts[id].userMobile == mobile
      ensures exists i | 0 <= i < |rows| :: rows[i].id == id
    {
      var i :| 0 <= i < |es| && es[i].id == id;
      HistoryRowAt(appts, reports, hi, mobile, i);
      assert rows[i].id == id;
    }
  }

  /** No appointment appears twice, and dates never increase down the history. */
  lemma PatientHistoryOrdered(appts: map<int, Appointment>, reports: map<int, Report>, hi: int, mobile: string)
    ensures var rows := GetPatientHistory(appts, reports, hi, mobile);
      (forall i, j | 0 <= i < j < |rows| :: rows[i].id != rows[j].id)
      && (forall i | 0 <= i < |rows| - 1 :: LexLeq(rows[i + 1].apt.date, rows[i].apt.date))
  {
    var rows := GetPatientHistory(appts, reports, hi, mobile);
    var es := HistoryEntries(appts, mobile, hi);
    forall i | 0 <= i < |rows|
      ensures rows[i].id == es[i].id && rows[i].apt == es[i].apt
    {
      HistoryRowAt(appts, reports, hi, mobile, i);
    }
  }
}
