/**
 * The earlier client's own decision logic: a doctor search that also looks at the
 * description, the lower-case status classification of the doctor cards, and the
 * doctor's appointment table action.
 */
module LegacyClient {
  import opened Optional
  import opened Strings
  import opened ClinicStore
  import opened ClinicQueries
  import opened PatientClient
  import RailwayClient
  import LegacyServer

  // ---------------------------------------------------------------------------
  // Doctor search
  // ---------------------------------------------------------------------------

  /** The lower-cased name, department, or description (when there is one) contains the term. */
  predicate MatchesTerm(d: Doctor, term: string) {
    IsInfix(term, ToLower(d.name)) || IsInfix(term, ToLower(d.department))
    || (d.description.Some? && d.description.value != "" && IsInfix(term, ToLower(d.description.value)))
  }

  /** `filterDoctors`: the doctors matching the lower-cased query, in list order. */
  function FilterDoctors(docs: seq<Doctor>, query: string): (r: seq<Doctor>)
    ensures forall d :: d in r <==> d in docs && MatchesTerm(d, ToLower(query))
    ensures IsSubsequence(r, docs)
  {
    var term := ToLower(query);
    FilterIsSubsequence(docs, d => MatchesTerm(d, term));
    Filter(docs, d => MatchesTerm(d, term))
  }

  /**
   * This search finds every doctor the deployed client's search finds, and narrowing its
   * result to names and departments gives exactly the deployed client's result.
   */
  lemma SearchExtendsNameAndDepartment(docs: seq<Doctor>, query: string)
    ensures var term := ToLower(query);
      Filter(FilterDoctors(docs, query), d => RailwayClient.MatchesTerm(d, term))
        == RailwayClient.FilterDoctors(docs, query)
  {
    var term := ToLower(query);
    FilterNarrow(docs, d => MatchesTerm(d, term), d => RailwayClient.MatchesTerm(d, term));
  }

  /** A cardiologist described as a heart surgeon, with "heart" in neither name nor department. */
  function HeartSurgeon(): Doctor {
    Doctor("Dr. Rao", "Cardiology", Some("heart surgeon"), None, None, None, None)
  }

  lemma LowerHeart()
    ensures ToLower("heart") == "heart"
  {
    var r := ToLower("heart");
    assert r[0] == 'h' && r[1] == 'e' && r[2] == 'a' && r[3] == 'r' && r[4] == 't';
  }

  lemma HeartSurgeonMatches()
    ensures MatchesTerm(HeartSurgeon(), "heart")
  {
    var r := ToLower("heart surgeon");
    assert r[0] == 'h' && r[1] == 'e' && r[2] == 'a' && r[3] == 'r' && r[4] == 't';
    assert r[..5] == "heart";
    assert IsPrefix("heart", r);
  }

  lemma HeartSurgeonMissesNameAndDepartment()
    ensures !RailwayClient.MatchesTerm(HeartSurgeon(), "heart")
  {
    NoLetterH("Dr. Rao");
    NoLetterH("Cardiology");
  }

  /** A doctor this search finds only through the description. */
  lemma DescriptionOnlyMatch()
    ensures FilterDoctors([HeartSurgeon()], "heart") == [HeartSurgeon()]
    ensures RailwayClient.FilterDoctors([HeartSurgeon()], "heart") == []
  {
    LowerHeart();
    HeartSurgeonMatches();
    HeartSurgeonMissesNameAndDepartment();
    var d := HeartSurgeon();
    assert [d][1..] == [];
    assert Filter([d], x => MatchesTerm(x, "heart")) == [d];
    assert Filter([d], x => RailwayClient.MatchesTerm(x, "heart")) == [];
  }

  /** "heart" occurs nowhere in the lower-cased form of a word with no 'h' or 'H'. */
  lemma NoLetterH(s: string)
    requires forall i | 0 <= i < |s| :: s[i] != 'h' && s[i] != 'H'
    ensures !IsInfix("heart", ToLower(s))
  {
    var r := ToLower(s);
    forall i | 0 <= i < |r|
      ensures r[i] != 'h'
    {
      assert r[i] == LowerChar(s[i]);
    }
    NotInfixOfHeart(r);
  }

  /** "heart" occurs nowhere in a word with no 'h'. */
  lemma {:induction false} NotInfixOfHeart(s: string)
    requires 'h' !in s
    ensures !IsInfix("heart", s)
    decreases |s|
  {
    if |s| > 0 {
      assert !IsPrefix("heart", s) by {
        if |s| >= 5 {
          assert s[..5] != "heart" by { assert s[0] != 'h'; }
        }
      }
      NotInfixOfHeart(s[1..]);
    } else {
      assert !IsPrefix("heart", s);
    }
  }

  // ---------------------------------------------------------------------------
  // Doctor cards
  // ---------------------------------------------------------------------------

  /** The availability a card shows. */
  datatype Availability = Available | Busy | NotAvailable

  /** `(doc.status || 'unavailable').toLowerCase()`: a missing or empty status reads as 'unavailable'. */
  function StatusWord(status: Option<string>): (w: string)
    ensures status.Some? && status.value != "" ==> w == ToLower(status.value)
    ensures status.None? || status == Some("") ==> w == "unavailable"
  {
    ToLower(if status.Some? && status.value != "" then status.value else "unavailable")
  }

  /** The classification of a card: 'available', 'busy', or anything else. */
  function Classify(status: Option<string>): (a: Availability)
    ensures a == Available <==> StatusWord(status) == "available"
    ensures a == Busy <==> StatusWord(status) == "busy"
    ensures a == NotAvailable <==> StatusWord(status) != "available" && StatusWord(status) != "busy"
  {
    var w := StatusWord(status);
    if w == "available" then Available else if w == "busy" then Busy else NotAvailable
  }

  /** The back end's statuses: the seeded 'Available', 'Busy', and 'Off' and NULL both not available. */
  lemma ServerStatusesClassified()
    ensures Classify(Some("Available")) == Available
    ensures Classify(Some("Busy")) == Busy
    ensures Classify(Some("Off")) == NotAvailable
    ensures Classify(None) == NotAvailable
  {
    assert ToLower("Available") == "available";
    assert ToLower("Busy") == "busy";
    assert ToLower("Off") == "off";
    assert ToLower("unavailable") == "unavailable";
  }

  /** The classification ignores letter case. */
  lemma ClassifyIgnoresCase(s: string)
    ensures Classify(Some(ToLower(s))) == Classify(Some(s))
  {
    ToLowerIdempotent(s);
    assert |ToLower(s)| == |s|;
  }

  /** What a card shows about one doctor. */
  datatype Card = Card(availability: Availability, room: string, blurb: string, bookEnabled: bool)

  /** `renderDoctorGrid`'s card: every card offers booking, whatever the classification. */
  function RenderCard(d: Doctor): (c: Card)
    ensures c.availability == Classify(d.status)
    ensures c.bookEnabled
    ensures c.room == (if d.roomNumber.Some? && d.roomNumber.value != "" then d.roomNumber.value else "N/A")
    ensures d.description.Some? && d.description.value != "" ==> c.blurb == d.description.value
    ensures d.description.None? || d.description == Some("") ==> c.blurb == "Specialist consultation available."
  {
    Card(Classify(d.status),
         if d.roomNumber.Some? && d.roomNumber.value != "" then d.roomNumber.value else "N/A",
         if d.description.Some? && d.description.value != "" then d.description.value
         else "Specialist consultation available.",
         true)
  }

  /** A doctor who is 'Off' shows as not available, yet the card still offers booking. */
  lemma OffDoctorStillBookable(d: Doctor)
    requires d.status == Some("Off")
    ensures RenderCard(d).availability == NotAvailable && RenderCard(d).bookEnabled
  {
    ServerStatusesClassified();
  }

  // ---------------------------------------------------------------------------
  // Doctor appointment table
  // ---------------------------------------------------------------------------

  /** The action cell of an appointment row. */
  datatype Action = CompletedLabel | WriteReport(id: int, patientName: string)

  /** A NULL patient name interpolated into the handler's argument reads as the text `null`. */
  function NameText(n: Option<string>): string {
    if n.Some? then n.value else "null"
  }

  /** "Completed" exactly for a completed appointment; otherwise a report button for that row. */
  function ActionFor(id: int, apt: Appointment): (a: Action)
    ensures a == CompletedLabel <==> apt.status == Completed
    ensures a.WriteReport? ==> a.id == id && a.patientName == NameText(apt.patientName)
  {
    if apt.status == Completed then CompletedLabel else WriteReport(id, NameText(apt.patientName))
  }

  /** Once a first report is saved, the row's action is the "Completed" label. */
  lemma ReportedRowShowsCompleted(appts: map<int, Appointment>, id: int, marker: ReportRef)
    requires id in appts
    ensures ActionFor(id, MarkCompleted(appts, id, marker)[id]) == CompletedLabel
  {
  }

  /**
   * This back end books without a patient name, so the report button of such a row
   * passes the text `null` as the patient's name.
   */
  lemma LegacyBookedRowPassesNull(id: int, dept: string, date: string, mobile: string)
    ensures ActionFor(id, Appointment(dept, date, Scheduled, mobile, None, None, NoReport))
      == WriteReport(id, "null")
  {
  }

  /**
   * The listing this back end sends is newest first too, so the status card as written
   * inspects the patient's oldest appointment here as well.
   */
  lemma CardInspectsOldestBooking(appts: map<int, Appointment>, hi: int, mobile: string)
    ensures var es := LegacyServer.GetAppointments(appts, hi, Some(mobile));
      IdsDescending(es)
      && (ActiveAppointmentAsWritten(es).Some? ==> forall i | 0 <= i < |es| :: ActiveAppointmentAsWritten(es).value.id <= es[i].id)
  {
    AsWrittenPicksOldest(LegacyServer.GetAppointments(appts, hi, Some(mobile)));
  }
}
