/**
 * The deployed client's own decision logic: the QR entry pass and its scan, the doctor
 * search, and the doctor card's label, wait estimate, token counts, avatar and button.
 */
module RailwayClient {
  import opened Optional
  import opened Strings
  import opened ClinicQueries
  import opened PatientClient
  import RailwayServer

  // ---------------------------------------------------------------------------
  // Entry pass
  // ---------------------------------------------------------------------------

  /** `showEntryPass`: a toast asking to log in first, or the payload `{m, n}` put in the QR code. */
  datatype EntryPass = LoginFirst | Pass(m: string, n: string)

  /** The payload carries the mobile and the name up to its first space. */
  function ShowEntryPass(user: Option<SessionUser>): (p: EntryPass)
    ensures p.LoginFirst? <==> user.None?
    ensures p.Pass? ==>
      var name := user.value.name;
      p.m == user.value.mobile && IsPrefix(p.n, name) && ' ' !in p.n
      && (|p.n| < |name| ==> name[|p.n|] == ' ')
  {
    match user
    case None => LoginFirst
    case Some(u) => Pass(u.mobile, Split(u.name)[0])
  }

  /**
   * What `JSON.parse` yields, as far as `onScanSuccess` looks at it: an object with its
   * string members `m` and `n` (absent when missing), `null`, or any other JSON value.
   */
  datatype JsonValue = JObject(m: Option<string>, n: Option<string>) | JNull | JOther

  /** `JSON.stringify(data)` read back by `JSON.parse`: the payload object. */
  function EncodePass(p: EntryPass): (v: JsonValue)
    requires p.Pass?
    ensures v.JObject? && v.m == Some(p.m) && v.n == Some(p.n)
  {
    JObject(Some(p.m), Some(p.n))
  }

  /** A string is truthy unless it is missing or empty. */
  predicate Truthy(s: Option<string>) {
    s.Some? && s.value != ""
  }

  /** `onScanSuccess`: open the patient's history, or alert one of two messages. */
  datatype ScanOutcome = ViewHistory(mobile: string, name: string) | InvalidCode | InvalidFormat

  /**
   * `parsed` is `None` when `JSON.parse` throws. Reading `m` of `null` throws too, and both
   * land in the catch ("Invalid QR Format"); any other value without a truthy `m` is
   * "Invalid QR Code".
   */
  function OnScanSuccess(parsed: Option<JsonValue>): (o: ScanOutcome)
    ensures o == InvalidFormat <==> parsed.None? || parsed == Some(JNull)
    ensures o.ViewHistory? <==> parsed.Some? && parsed.value.JObject? && Truthy(parsed.value.m)
    ensures o.ViewHistory? ==>
      o.mobile == parsed.value.m.value
      && o.name == (if Truthy(parsed.value.n) then parsed.value.n.value else "Scanned User")
  {
    match parsed
    case None => InvalidFormat
    case Some(JNull) => InvalidFormat
    case Some(JOther) => InvalidCode
    case Some(JObject(m, n)) =>
      if Truthy(m) then ViewHistory(m.value, if Truthy(n) then n.value else "Scanned User")
      else InvalidCode
  }

  /**
   * Scanning a signed-in patient's pass opens that patient's history under the first word
   * of their name, or under "Scanned User" when the name begins with a space.
   */
  lemma EntryPassRoundTrip(u: SessionUser)
    requires u.mobile != ""
    ensures var p := ShowEntryPass(Some(u));
      OnScanSuccess(Some(EncodePass(p)))
        == ViewHistory(u.mobile, if Split(u.name)[0] == "" then "Scanned User" else Split(u.name)[0])
  {
  }

  /** For a two-word name the pass opens the history under the first word. */
  lemma EntryPassFirstName(mobile: string, first: string, last: string)
    requires mobile != "" && first != "" && ' ' !in first && ' ' !in last
    ensures OnScanSuccess(Some(EncodePass(ShowEntryPass(Some(SessionUser(first + " " + last, mobile))))))
      == ViewHistory(mobile, first)
  {
    SplitTwoWords(first, last);
  }

  /** Every mobile the login form lets through is non-empty, so its pass always scans. */
  lemma AcceptedMobileScans(nameInput: string, age: string, mobile: string, name: string)
    requires CheckLogin(nameInput, age, mobile).Send?
    ensures OnScanSuccess(Some(EncodePass(ShowEntryPass(Some(SessionUser(name, mobile)))))).ViewHistory?
  {
    assert mobile != "" by {
      if mobile != "admin" {
        assert |mobile| == 10;
      }
    }
  }

  // ---------------------------------------------------------------------------
  // Doctor search
  // ---------------------------------------------------------------------------

  /** The lower-cased name or department contains the (already lower-cased) term. */
  predicate MatchesTerm(d: Doctor, term: string) {
    IsInfix(term, ToLower(d.name)) || IsInfix(term, ToLower(d.department))
  }

  /** `filterDoctors`: the doctors matching the lower-cased query, in list order. */
  function FilterDoctors(docs: seq<Doctor>, query: string): (r: seq<Doctor>)
    ensures forall d :: d in r <==> d in docs && MatchesTerm(d, ToLower(query))
    ensures IsSubsequence(r, docs)
  {
    var term := ToLower(query);
    FilterIsSubsequence(docs, d => MatchesTerm(d, term));
    Filter(docs, d => MatchesTerm(d, term))
  }

  /** An empty search box shows every doctor. */
  lemma EmptyQueryKeepsAll(docs: seq<Doctor>)
    ensures FilterDoctors(docs, "") == docs
  {
    assert ToLower("") == "";
    forall i | 0 <= i < |docs|
      ensures MatchesTerm(docs[i], "")
    {
      EmptyIsInfix(ToLower(docs[i].name));
    }
    FilterKeepsAll(docs, d => MatchesTerm(d, ""));
  }

  /** Searching is blind to letter case: the query and its lower-cased form find the same doctors. */
  lemma SearchIgnoresCase(docs: seq<Doctor>, query: string)
    ensures FilterDoctors(docs, ToLower(query)) == FilterDoctors(docs, query)
  {
    ToLowerIdempotent(query);
  }

  /** Searching the concatenation of two lists is searching each in turn. */
  lemma SearchConcat(a: seq<Doctor>, b: seq<Doctor>, query: string)
    ensures FilterDoctors(a + b, query) == FilterDoctors(a, query) + FilterDoctors(b, query)
  {
    FilterConcat(a, b, d => MatchesTerm(d, ToLower(query)));
  }

  // ---------------------------------------------------------------------------
  // Doctor card
  // ---------------------------------------------------------------------------

  /** The status text of a card. */
  function StatusLabel(status: Option<string>): (l: string)
    ensures l == "In Consultation" <==> status == Some("Busy")
    ensures l == "Off Duty" <==> status == Some("Off")
    ensures l == "Available" <==> status != Some("Busy") && status != Some("Off")
  {
    if status == Some("Off") then "Off Duty"
    else if status == Some("Busy") then "In Consultation"
    else "Available"
  }

  /**
   * The minutes shown: `(queue_total - queue_current) * 15` when `queue_total` is truthy
   * (a NULL current counts as 0), else 15. Nothing clamps it at zero.
   */
  function WaitEstimate(current: Option<int>, total: Option<int>): (w: int)
    ensures w % 15 == 0
    ensures total.None? || total == Some(0) ==> w == 15
    ensures total.Some? && total.value != 0 ==> w == 15 * (total.value - current.GetOr(0))
    ensures current.Some? && total.Some? && 0 <= current.value <= total.value ==> w >= 0
  {
    if total.Some? && total.value != 0 then (total.value - current.GetOr(0)) * 15 else 15
  }

  /** An empty queue reads 15 minutes, a fully served one 0, and an over-served one negative. */
  lemma WaitEstimateEdges()
    ensures WaitEstimate(Some(0), Some(0)) == 15
    ensures WaitEstimate(Some(4), Some(4)) == 0
    ensures WaitEstimate(Some(5), Some(3)) == -30
  {
  }

  /** The first character of every non-empty word, in order (`map(n => n[0]).join('')`). */
  function Heads(words: seq<string>): (r: string)
    ensures |r| <= |words|
    ensures (forall k | 0 <= k < |words| :: ' ' !in words[k]) ==> ' ' !in r
    ensures (forall k | 0 <= k < |words| :: words[k] != "") ==>
      |r| == |words| && forall k | 0 <= k < |words| :: r[k] == words[k][0]
    decreases |words|
  {
    if |words| == 0 then ""
    else (if |words[0]| > 0 then [words[0][0]] else "") + Heads(words[1..])
  }

  /** `name.split(' ').map(n => n[0]).join('').substring(0, 2)`: not upper-cased. */
  function Avatar(name: string): (r: string)
    ensures |r| <= 2 && ' ' !in r
  {
    SplitNoSpaces(name);
    var hs := Heads(Split(name));
    if |hs| <= 2 then hs else hs[..2]
  }

  lemma HeadsOfTwoWords(first: string, last: string)
    requires first != "" && last != ""
    ensures Heads([first, last]) == [first[0], last[0]]
  {
    assert [first, last][1..] == [last];
    assert [last][1..] == [];
  }

  /** For a two-word name the avatar is the first letters of both words. */
  lemma AvatarOfTwoWords(first: string, last: string)
    requires first != "" && last != "" && ' ' !in first && ' ' !in last
    ensures Avatar(first + " " + last) == [first[0], last[0]]
  {
    SplitTwoWords(first, last);
    HeadsOfTwoWords(first, last);
  }

  /**
   * For a name of non-empty space-free words joined by single spaces, the avatar is the
   * first letter of the first word followed by the first letter of the second, if any.
   */
  lemma AvatarOfWords(ws: seq<string>)
    requires |ws| >= 1 && NoSpaces(ws) && forall k | 0 <= k < |ws| :: ws[k] != ""
    ensures Avatar(JoinSpace(ws)) == if |ws| == 1 then [ws[0][0]] else [ws[0][0], ws[1][0]]
  {
    SplitOfJoin(ws);
  }

  /** A seeded three-word doctor name keeps its title's initial: "Dr. Nikhil Patil" shows "DN". */
  lemma SeededAvatar()
    ensures Avatar("Dr. Nikhil Patil") == "DN"
  {
    var ws := ["Dr.", "Nikhil", "Patil"];
    assert JoinSpace(ws[2..]) == "Patil";
    assert JoinSpace(ws[1..]) == "Nikhil Patil";
    assert JoinSpace(ws) == "Dr. Nikhil Patil";
    AvatarOfWords(ws);
  }

  /** For a two-word name the avatar, upper-cased, is the profile's initials. */
  lemma AvatarMatchesInitials(first: string, last: string)
    requires first != "" && last != "" && ' ' !in first && ' ' !in last
    ensures Initials(first + " " + last) == Some(ToUpper(Avatar(first + " " + last)))
  {
    AvatarOfTwoWords(first, last);
    SplitTwoWords(first, last);
    assert HeadOrUndefined(first) + HeadOrUndefined(last) == [first[0], last[0]];
  }

  /** What a card shows about one doctor. */
  datatype Card = Card(
    avatar: string, statusText: string, room: Option<string>, waitMinutes: int,
    tokensCurrent: int, tokensTotal: int, bookEnabled: bool, buttonText: string)

  /**
   * `renderDoctorGrid`'s card: the button is disabled and reads "Unavailable" exactly for
   * an 'Off' doctor, which is exactly the card labelled "Off Duty"; a room shows only
   * when it is non-empty.
   */
  function RenderCard(d: Doctor): (c: Card)
    ensures c.bookEnabled <==> c.statusText != "Off Duty"
    ensures c.bookEnabled <==> d.status != Some("Off")
    ensures c.buttonText == (if c.bookEnabled then "Book Appointment" else "Unavailable")
    ensures c.room.Some? <==> Truthy(d.roomNumber)
    ensures c.tokensCurrent == d.queueCurrent.GetOr(0) && c.tokensTotal == d.queueTotal.GetOr(0)
    ensures c.tokensTotal != 0 ==> c.waitMinutes == 15 * (c.tokensTotal - c.tokensCurrent)
    ensures c.tokensTotal == 0 ==> c.waitMinutes == 15
    ensures c.statusText == StatusLabel(d.status) && c.avatar == Avatar(d.name)
    ensures c.room.Some? ==> c.room == d.roomNumber
  {
    var enabled := d.status != Some("Off");
    Card(Avatar(d.name), StatusLabel(d.status),
         if Truthy(d.roomNumber) then d.roomNumber else None,
         WaitEstimate(d.queueCurrent, d.queueTotal),
         d.queueCurrent.GetOr(0), d.queueTotal.GetOr(0),
         enabled, if enabled then "Book Appointment" else "Unavailable")
  }

  /**
   * The card and the booking form disagree about an 'Off' doctor: the card's button is
   * disabled, but choosing that department in the form still enables confirm.
   */
  lemma OffDoctorCardVersusForm(d: Doctor)
    requires d.status == Some("Off") && d.department != ""
    ensures !RenderCard(d).bookEnabled
    ensures CheckBookingAvailability(Some([d]), d.department) == Enabled
  {
    assert FirstInDept([d], d.department) == Some(d);
  }

  // ---------------------------------------------------------------------------
  // The appointment listing as the client stores it
  // ---------------------------------------------------------------------------

  /** `appState.appointments = data`: the rows of `/api/appointments`, as id and appointment. */
  function ListingEntries(rows: seq<RailwayServer.AppointmentRow>): (es: seq<Entry>)
    ensures |es| == |rows| && forall i | 0 <= i < |rows| :: es[i] == Entry(rows[i].id, rows[i].apt)
  {
    seq(|rows|, i requires 0 <= i < |rows| => Entry(rows[i].id, rows[i].apt))
  }

  /**
   * The listing this back end sends is newest first, so the element the status card as
   * written inspects, the last one, is the patient's oldest appointment.
   */
  lemma CardInspectsOldestBooking(appts: map<int, ClinicStore.Appointment>, reports: map<int, ClinicStore.Report>,
                                  hi: int, mobile: string)
    ensures var es := ListingEntries(RailwayServer.GetAppointments(appts, reports, hi, Some(mobile)));
      IdsDescending(es)
      && (ActiveAppointmentAsWritten(es).Some? ==> forall i | 0 <= i < |es| :: ActiveAppointmentAsWritten(es).value.id <= es[i].id)
  {
    var es := ListingEntries(RailwayServer.GetAppointments(appts, reports, hi, Some(mobile)));
    AsWrittenPicksOldest(es);
  }
}
