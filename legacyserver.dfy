/**
 * The handlers of the earlier back end that differ from the deployed one: booking does
 * not store the patient's name or age, a first report marks its appointment with
 * `report_id = 'generated'`, the appointment listing has no report join, and the patient
 * history joins a report only where the appointment carries the `'generated'` marker.
 */
module LegacyServer {
  import opened Optional
  import opened Strings
  import opened ClinicStore
  import opened ClinicQueries

  /** The marker a first report writes into `appointments.report_id`. */
  const ReportMarker := RefText("generated")

  /** The body of `/api/book`: the three keys this handler reads. */
  datatype BookRequest = BookRequest(dept: Field<string>, date: Field<string>, mobile: Field<string>)

  /** What `/api/book` answers: the new row id, or the server error a missing key raises. */
  datatype BookReply = Booked(id: int) | BookFailed

  /**
   * `book_appointment`: with all three keys, exactly one new 'Scheduled' row with no
   * report and no patient name or age, under a fresh id; otherwise nothing changes.
   */
  method BookAppointment(db: ClinicDb, req: BookRequest) returns (reply: BookReply)
    requires db.Valid()
    modifies db
    ensures db.Valid()
    ensures reply.BookFailed? <==> req.dept.Absent? || req.date.Absent? || req.mobile.Absent?
    ensures reply.BookFailed? ==>
      db.appointments == old(db.appointments) && db.lastAptId == old(db.lastAptId)
      && db.issuedAptIds == old(db.issuedAptIds)
    ensures reply.Booked? ==>
      reply.id == old(db.lastAptId) + 1 && reply.id !in old(db.issuedAptIds)
      && (forall j | j in old(db.issuedAptIds) :: j < reply.id)
      && db.appointments == old(db.appointments)[reply.id := Appointment(
           req.dept.value, req.date.value, Scheduled, req.mobile.value, None, None, NoReport)]
    ensures reply.Booked? ==> db.lastAptId == reply.id && db.issuedAptIds == old(db.issuedAptIds) + {reply.id}
    ensures db.users == old(db.users) && db.reports == old(db.reports)
    ensures db.lastUserId == old(db.lastUserId) && db.lastReportId == old(db.lastReportId)
  {
    if req.dept.Absent? || req.date.Absent? || req.mobile.Absent? {
      return BookFailed;
    }
    var id := db.InsertAppointment(req.dept.value, req.date.value, req.mobile.value, None, None);
    reply := Booked(id);
  }

  /** `save_report` with `report_id = 'generated'` as the first-report marker. */
  method SaveReport(db: ClinicDb, req: ReportRequest) returns (reply: SaveReply)
    requires db.Valid()
    modifies db
    ensures db.Valid()
    ensures reply.SaveFailed? <==> FormOf(req).None?
    ensures reply.SaveFailed? ==>
      db.reports == old(db.reports) && db.appointments == old(db.appointments)
      && db.lastReportId == old(db.lastReportId)
    ensures reply.Saved? ==>
      var form := FormOf(req).value;
      var a := form.appointmentId;
      (a in old(db.reports) ==>
        db.reports == old(db.reports)[a := Revise(old(db.reports)[a], form)]
        && db.appointments == old(db.appointments) && db.lastReportId == old(db.lastReportId))
      && (a !in old(db.reports) ==>
        db.reports == old(db.reports)[a := FirstReport(old(db.lastReportId) + 1, form)]
        && db.appointments == MarkCompleted(old(db.appointments), a, ReportMarker)
        && db.lastReportId == old(db.lastReportId) + 1)
    ensures db.users == old(db.users) && db.issuedAptIds == old(db.issuedAptIds)
    ensures db.lastUserId == old(db.lastUserId) && db.lastAptId == old(db.lastAptId)
  {
    var form := FormOf(req);
    if form.None? {
      return SaveFailed;
    }
    db.SaveReport(form.value, ReportMarker);
    reply := Saved;
  }

  /**
   * `get_appointments`: nothing without a mobile; otherwise exactly that mobile's
   * appointment rows among ids `1..hi`, newest id first, with no report columns.
   */
  function GetAppointments(appts: map<int, Appointment>, hi: int, mobile: Option<string>): (rows: seq<Entry>)
    ensures mobile.None? || mobile == Some("") ==> rows == []
    ensures forall i | 0 <= i < |rows| ::
      rows[i].id in appts && 0 < rows[i].id <= hi && rows[i].apt == appts[rows[i].id]
      && Some(rows[i].apt.userMobile) == mobile
    ensures mobile.Some? && mobile.value != "" ==>
      forall id | id in appts && 0 < id <= hi && appts[id].userMobile == mobile.value ::
        exists i | 0 <= i < |rows| :: rows[i].id == id
    ensures forall i, j | 0 <= i < j < |rows| :: rows[i].id > rows[j].id
  {
    match mobile
    case None => []
    case Some(m) =>
      if m == "" then []
      else
        var ids := IdsOf(appts, m, hi);
        var rows := EntriesOf(appts, ids);
        ListingCoversMobile(appts, m, hi, ids, rows);
        rows
  }

  /** Every appointment of the mobile among ids `1..hi` has a listing row. */
  lemma ListingCoversMobile(appts: map<int, Appointment>, m: string, hi: int, ids: seq<int>, rows: seq<Entry>)
    requires ids == IdsOf(appts, m, hi) && rows == EntriesOf(appts, ids)
    ensures forall id | id in appts && 0 < id <= hi && appts[id].userMobile == m ::
      exists i | 0 <= i < |rows| :: rows[i].id == id
  {
    forall id | id in appts && 0 < id <= hi && appts[id].userMobile == m
      ensures exists i | 0 <= i < |rows| :: rows[i].id == id
    {
      var i :| 0 <= i < |ids| && ids[i] == id;
      assert rows[i].id == id;
    }
  }

  /** A history row: `a.*` and the report's diagnosis, medicines, symptoms and follow-up date. */
  datatype HistoryRow = HistoryRow(
    id: int, apt: Appointment,
    diagnosis: Option<string>, medicines: Option<string>, symptoms: Option<string>, followUpDate: Option<string>)

  /**
   * `LEFT JOIN reports r ON a.report_id = 'generated' AND a.id = r.appointment_id`: the
   * report's columns only where the appointment carries the marker and a report exists.
   */
  function JoinReport(reports: map<int, Report>, e: Entry): (row: HistoryRow)
    ensures row.id == e.id && row.apt == e.apt
    ensures row.diagnosis.Some? <==> e.apt.reportId == ReportMarker && e.id in reports
    ensures row.diagnosis.Some? ==>
      row.diagnosis == Some(reports[e.id].diagnosis) && row.medicines == Some(reports[e.id].medicines)
      && row.symptoms == reports[e.id].symptoms && row.followUpDate == reports[e.id].followUpDate
    ensures row.diagnosis.None? ==>
      row.medicines == None && row.symptoms == None && row.followUpDate == None
  {
    if e.apt.reportId == ReportMarker && e.id in reports then
      var r := reports[e.id];
      HistoryRow(e.id, e.apt, Some(r.diagnosis), Some(r.medicines), r.symptoms, r.followUpDate)
    else HistoryRow(e.id, e.apt, None, None, None, None)
  }

  /** The history rows: the date-ordered appointments of the mobile, each joined with its report. */
  function GetPatientHistory(appts: map<int, Appointment>, reports: map<int, Report>, hi: int,
                             mobile: string): seq<HistoryRow>
  {
    var es := HistoryEntries(appts, mobile, hi);
    seq(|es|, i requires 0 <= i < |es| => JoinReport(reports, es[i]))
  }

  lemma HistoryRowAt(appts: map<int, Appointment>, reports: map<int, Report>, hi: int, mobile: string, i: int)
    requires 0 <= i < |GetPatientHistory(appts, reports, hi, mobile)|
    ensures var es := HistoryEntries(appts, mobile, hi);
      var row := GetPatientHistory(appts, reports, hi, mobile)[i];
      |es| == |GetPatientHistory(appts, reports, hi, mobile)| && row == JoinReport(reports, es[i])
  {
  }

  /** Each history row is one of the mobile's appointments, joined only under the marker. */
  lemma PatientHistorySound(appts: map<int, Appointment>, reports: map<int, Report>, hi: int, mobile: string)
    ensures var rows := GetPatientHistory(appts, reports, hi, mobile);
      forall i | 0 <= i < |rows| ::
        rows[i].id in appts && 0 < rows[i].id <= hi && rows[i].apt == appts[rows[i].id]
        && rows[i].apt.userMobile == mobile && rows[i] == JoinReport(reports, Entry(rows[i].id, rows[i].apt))
  {
    var rows := GetPatientHistory(appts, reports, hi, mobile);
    var es := HistoryEntries(appts, mobile, hi);
    forall i | 0 <= i < |rows|
      ensures rows[i].id in appts && 0 < rows[i].id <= hi && rows[i].apt == appts[rows[i].id]
        && rows[i].apt.userMobile == mobile && rows[i] == JoinReport(reports, Entry(rows[i].id, rows[i].apt))
    {
      HistoryRowAt(appts, reports, hi, mobile, i);
      assert es[i] == Entry(rows[i].id, rows[i].apt);
    }
  }

  /** Every appointment of the mobile among ids `1..hi` has a history row. */
  lemma PatientHistoryComplete(appts: map<int, Appointment>, reports: map<int, Report>, hi: int, mobile: string)
    ensures var rows := GetPatientHistory(appts, reports, hi, mobile);
      forall id | id in appts && 0 < id <= hi && appts[id].userMobile == mobile ::
        exists i | 0 <= i < |rows| :: rows[i].id == id
  {
    var rows := GetPatientHistory(appts, reports, hi, mobile);
    var es := HistoryEntries(appts, mobile, hi);
    forall id | id in appts && 0 < id <= hi && appts[id].userMobile == mobile
      ensures exists i | 0 <= i < |rows| :: rows[i].id == id
    {
      var i :| 0 <= i < |es| && es[i].id == id;
      HistoryRowAt(appts, reports, hi, mobile, i);
      assert rows[i].id == id;
    }
  }

  /** No appointment appears twice, and dates never increase down the history. */
  lemma PatientHistoryOrdered(appts: map<int, Appointment>, reports: map<int, Report>, hi: int, mobile: string)
    ensures var rows := GetPatientHistory(appts, reports, hi, mobile);
      (forall i, j | 0 <= i < j < |rows| :: rows[i].id != rows[j].id)
      && (forall i | 0 <= i < |rows| - 1 :: LexLeq(rows[i + 1].apt.date, rows[i].apt.date))
  {
    var rows := GetPatientHistory(appts, reports, hi, mobile);
    var es := HistoryEntries(appts, mobile, hi);
    forall i | 0 <= i < |rows|
      ensures rows[i].id == es[i].id && rows[i].apt == es[i].apt
    {
      HistoryRowAt(appts, reports, hi, mobile, i);
    }
  }

  /**
   * A first report submitted through this back end is visible in the history: the row of
   * that appointment then carries the report's diagnosis.
   */
  lemma FirstReportJoins(appts: map<int, Appointment>, reports: map<int, Report>, id: int, k: int, form: ReportForm)
    requires id in appts && id !in reports && form.appointmentId == id
    ensures var a2 := MarkCompleted(appts, id, ReportMarker);
      var r2 := reports[id := FirstReport(k, form)];
      JoinReport(r2, Entry(id, a2[id])).diagnosis == Some(form.diagnosis)
  {
  }
}
