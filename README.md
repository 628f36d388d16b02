# Smart Hospital App: a Dafny model of its bookkeeping core

Smart Hospital App is a small clinic system. Patients sign in with a mobile number, book
appointments by department, and follow a shared waiting queue. Doctors update their status
and queue counters, look at a patient's history, and write reports. A report completes the
appointment it names. The repository holds two generations of the same system. Each has a
Flask back end over SQLite or PostgreSQL and a browser client:

- the deployed one: `Railway_Deploy/backend/server.py` and `Railway_Deploy/script.js`;
- the earlier one: `backend/server.py` and `script.js`.

This project models the parts of both that decide something:

- the `appointments`, `reports` and `users` tables;
- the handlers that change those tables;
- the read queries;
- the SQL rewrite the deployed back end applies for PostgreSQL;
- the small decision helpers of both clients.

## Modules

- `Optional` (`optional.dfy`): the `Option` type.
- `Strings` (`strings.dfy`): the string operations the code relies on, with the semantics
  of the language that runs them:
  - Python `str.replace`;
  - JavaScript `trim`, `split(' ')`, `includes`, `toLowerCase` and `toUpperCase`;
  - the code-point order that SQLite's BINARY collation gives `ORDER BY` on text.
- `DbConnection` (`dbconnection.dfy`): the PostgreSQL rewrite of a query.
  - `?` placeholders become `%s`.
  - `AUTOINCREMENT` becomes `SERIAL`.
  - An insert gets ` RETURNING id`.
- `ClinicStore` (`clinicstore.dfy`): the row types and the seed rows. It also holds the class
  `ClinicDb`, which has one map field per table and the AUTOINCREMENT counters, plus the
  handlers the two back ends share:
  - `login`;
  - `save_report`, with the first-report marker as a parameter;
  - `get_report`;
  - `cancel`, `confirm` and `delete`;
  - `update_doctor_status`.

  Every id is larger than all ids issued before it, so ids are never reused. A ghost set of
  issued appointment ids records this.
- `ClinicQueries` (`clinicqueries.dfy`): the read queries both back ends share:
  - the per-mobile listing, newest id first;
  - the per-mobile history, latest date first;
  - the queue aggregate over doctors.
- `RailwayServer` and `LegacyServer` (`railwayserver.dfy`, `legacyserver.dfy`): where the two
  back ends differ.
  - Booking stores the patient's name and age in the deployed back end only.
  - The first-report marker is `1` in the deployed back end and `'generated'` in the earlier one.
  - The deployed listing carries each report's follow-up date.
  - The history join condition differs between the two.
- `PatientClient` (`patientclient.dfy`): the client logic both `script.js` files share:
  - the login gate;
  - doctor de-duplication;
  - the booking-availability gate;
  - the active-appointment card;
  - profile initials;
  - the class `AppState`, with sign-in, logout, navigation, queue refresh and appointment sync.
- `RailwayClient` (`railwayclient.dfy`): the deployed client's own logic:
  - the QR entry pass and its scan;
  - the doctor search;
  - the doctor card.
- `LegacyClient` (`legacyclient.dfy`): the earlier client's own logic:
  - the search that also looks at the description;
  - status classification;
  - the doctor table's action button.

Where the shared `ClinicDb` methods cite the deployed back end, the earlier back end has the
same code at these lines of `backend/server.py`:

- login: 149-184
- get_report: 297-306
- delete: 308-314
- confirm: 316-322
- cancel: 324-330
- queue: 332-352
- update_doctor_status: 356-374

The login gate, dedup, availability gate, appointment card, logout and queue refresh of
`script.js` sit at these lines:

- login gate: 121-138
- dedup: 313
- availability gate: 495-521
- appointment card: 648-667
- logout: 185-191
- queue refresh: 477

## Behaviour worth knowing

The model follows the code, and lemmas state what the code does in these places:

- **Duplicate bookings.** Booking has no duplicate check. The same request twice makes two
  rows under increasing ids (`RailwayServer.BookTwice`).
- **Status changes.** Cancel, confirm and delete act from any status, 'Completed' and
  'Cancelled' included, and of two status writes only the later one is visible
  (`ClinicStore.SetStatusLastWins`, `RailwayServer.ReportLifecycle`).
- **Reports.** A report is written or revised whatever the appointment's status. A report
  stored under an appointment id that has no appointment row is still created
  (`RailwayServer.ReportLifecycle`).
- **Queue.** There are no per-department tokens. The queue is two counters per doctor, which
  the doctor sets to any values, a current position above the total included
  (`ClinicStore.CounterBoundsNotChecked`).
- **Availability.** A doctor's availability is a stored status the doctor sets, not a value
  computed from the queue (`ClinicStore.ClinicDb.UpdateDoctorStatus`).

## Model

| member | source | states |
|---|---|---|
| DbConnection.Execute | Railway_Deploy/backend/server.py:66-77 | On SQLite the query runs unchanged. On PostgreSQL no `?` and no `AUTOINCREMENT` are left in what runs. |
| DbConnection.SerialCannotStartAutoincrement | Railway_Deploy/backend/server.py:71 | No tail of `SERIAL` can begin an `AUTOINCREMENT`, so the rewrite cannot create a new one. |
| DbConnection.CleanQueryUnchanged | Railway_Deploy/backend/server.py:66-77 | A query with no placeholder and no `AUTOINCREMENT` runs unchanged on both databases. |
| DbConnection.ExecuteRoundTrip | Railway_Deploy/backend/server.py:67-71 | A query free of `%s` and `AUTOINCREMENT` is recovered by turning every `%s` back into `?`, so the rewrite loses nothing. |
| DbConnection.ExecuteUndo | Railway_Deploy/backend/server.py:66-71 | For a query with no `%s` and no `SERIAL` of its own, turning `SERIAL` back into `AUTOINCREMENT` and then `%s` back into `?` recovers the query: each `AUTOINCREMENT` became exactly one `SERIAL`, each `?` one `%s`, and nothing else changed. |
| DbConnection.AutoincrementBecomesSerial | Railway_Deploy/backend/server.py:71 | The keyword `AUTOINCREMENT` reaches PostgreSQL as `SERIAL`. |
| DbConnection.InsertQuery | Railway_Deploy/backend/server.py:95-108 | On PostgreSQL the insert ends in ` RETURNING id` and has no `?` before it. On SQLite it is unchanged. |
| DbConnection.InsertQueryRoundTrip | Railway_Deploy/backend/server.py:96-98 | Dropping the suffix and turning `%s` back into `?` gives the original insert. |
| Strings.ReplaceRemovesAll | Railway_Deploy/backend/server.py:69-71 | After `str.replace(pat, rep)` no `pat` is left, provided `rep` cannot overlap into a new `pat`. |
| Strings.PlaceholderRoundTrip | Railway_Deploy/backend/server.py:69 | Replacing `?` by `%s` and back is the identity on text without `%s`. |
| Strings.ReplaceUndo | Railway_Deploy/backend/server.py:69-71 | Replacing back undoes `str.replace`, when the text held no copy of the replacement and the replacement's first character does not recur in it. |
| Strings.Split | Railway_Deploy/script.js:230 | `split(' ')` gives at least one piece, and the first piece is the text before the first space. |
| Strings.SplitHasSpace | Railway_Deploy/script.js:230 | `split(' ')` gives more than one piece exactly when the text has a space. |
| Strings.SplitNoSpaces | Railway_Deploy/script.js:230 | No piece of `split(' ')` contains a space. |
| Strings.SplitLastPiece | Railway_Deploy/script.js:230 | The last piece is the text after the last space, or the whole text when there is none. |
| Strings.SplitTwoWords | Railway_Deploy/script.js:230 | Two space-free words joined by one space split back into exactly those two words. |
| Strings.SplitJoin | Railway_Deploy/script.js:230 | Joining the pieces of `split(' ')` with single spaces gives the text back. With `SplitNoSpaces` this fixes every piece. |
| Strings.SplitOfJoin | Railway_Deploy/script.js:230 | Space-free words joined with single spaces split back into exactly those words. |
| Strings.Trim | Railway_Deploy/script.js:107 | `trim()` returns a substring with no white space at either end. |
| Strings.TrimRemovesOnlyEdgeSpace | Railway_Deploy/script.js:107 | The result is the text from some index on, with only white space before it and only white space after it. With `Trim`'s own clause this leaves one possible result. |
| ClinicStore.ClinicDb.Seeded | Railway_Deploy/backend/server.py:198-221 | An empty database is seeded with the demo patient and six doctors, all 'Available' at 0/0, and no appointments or reports. |
| ClinicStore.ClinicDb.InsertAppointment | Railway_Deploy/backend/server.py:360-361 | The insert adds one 'Scheduled' row with no report under a fresh id. That id is larger than every id issued before and is never reused. Nothing else changes. |
| ClinicStore.ClinicDb.SaveReport | Railway_Deploy/backend/server.py:417-434 | If a report already exists for the appointment, only that report is revised. Otherwise a report with the next report id is inserted, and the appointment becomes Completed with the marker. |
| ClinicStore.ClinicDb.SetAppointmentStatus | Railway_Deploy/backend/server.py:462 | Only the status of that row changes, and a missing row is a no-op. |
| ClinicStore.ClinicDb.Cancel | Railway_Deploy/backend/server.py:467-473 | The status becomes 'Cancelled' from any status, 'Completed' included. |
| ClinicStore.ClinicDb.Confirm | Railway_Deploy/backend/server.py:459-465 | The status becomes 'Confirmed' from any status. |
| ClinicStore.ClinicDb.Delete | Railway_Deploy/backend/server.py:451-457 | The row goes and its report stays. Its id stays issued, so it is not handed out again. |
| ClinicStore.ClinicDb.UpdateDoctorStatus | Railway_Deploy/backend/server.py:496-514 | Each key present overwrites its column in row `id`. Nothing else changes. |
| ClinicStore.ClinicDb.Login | Railway_Deploy/backend/server.py:274-309 | A known mobile returns its stored row and changes nothing. An unknown mobile is registered as a patient iff both `name` and `age` are present, and otherwise gets the 400 reply. Mobiles stay unique. |
| ClinicStore.SetStatus | Railway_Deploy/backend/server.py:462 | The row's status is set and the other rows and keys are unchanged. |
| ClinicStore.SetStatusLastWins | Railway_Deploy/backend/server.py:459-473 | Of two status writes to a row, only the last one is visible. |
| ClinicStore.MarkCompleted | Railway_Deploy/backend/server.py:434 | The appointment becomes Completed with the report marker, and the others are unchanged. |
| ClinicStore.FormOf | Railway_Deploy/backend/server.py:407-429 | The handler goes on iff `appointment_id`, `diagnosis`, `medicines` and `notes` are all present. The optional keys come from `data.get`. |
| ClinicStore.Revise | Railway_Deploy/backend/server.py:420-425 | The text fields are replaced. With a file, the file name is replaced and symptoms and follow-up are kept. Without one, symptoms and follow-up are replaced and the file is kept. The id and key never change. |
| ClinicStore.ReviseIdempotent | Railway_Deploy/backend/server.py:420-425 | Resubmitting the same form changes nothing more. |
| ClinicStore.ReviseWithoutFileRestoresForm | Railway_Deploy/backend/server.py:423-428 | A file-less revision of a first report equals the first report of the new form. |
| ClinicStore.GetReport | Railway_Deploy/backend/server.py:440-449 | It returns the report stored for the appointment iff there is one, and otherwise "Report not found". |
| ClinicStore.ApplyStatusUpdate | Railway_Deploy/backend/server.py:496-514 | Only row `id` changes, and only in the columns whose keys are present. |
| ClinicStore.EmptyStatusUpdateIsIdentity | Railway_Deploy/backend/server.py:502-509 | A request with none of the three keys changes nothing. |
| ClinicStore.CounterBoundsNotChecked | Railway_Deploy/backend/server.py:505-509 | A current position above the total is stored as sent. |
| ClinicStore.LookupMobile | Railway_Deploy/backend/server.py:280 | The row found has the mobile. When no row is found, no row has it. |
| ClinicQueries.IdsOf | Railway_Deploy/backend/server.py:335-341 | It lists exactly the mobile's appointment ids, each once, in strictly decreasing order. |
| ClinicQueries.SortByDateDesc | Railway_Deploy/backend/server.py:392 | The result has the dates in descending order and is a permutation of its input. |
| ClinicQueries.HistoryEntries | Railway_Deploy/backend/server.py:387-393 | It lists exactly the mobile's appointments, each once, with dates never increasing. |
| ClinicQueries.DateDescendingPairwise | Railway_Deploy/backend/server.py:392 | Any earlier history row has a date at least that of any later row. |
| ClinicQueries.QueueStatus | Railway_Deploy/backend/server.py:475-492 | It returns the sums of the doctors' non-NULL counters. The wait is 15 minutes per waiting patient, 0 when no one waits, and never negative. |
| ClinicQueries.SumIgnoresNonDoctor | Railway_Deploy/backend/server.py:478 | Adding a non-doctor row leaves the sums unchanged. |
| ClinicQueries.SumAfterRowChange | Railway_Deploy/backend/server.py:478 | Replacing a row moves each sum by the change in that row's contribution. |
| ClinicQueries.QueueAfterCounterUpdate | Railway_Deploy/backend/server.py:505-509 | A doctor's counter update moves the queue sums by exactly the change in that doctor's counters. |
| ClinicQueries.NoDoctorsNoQueue | Railway_Deploy/backend/server.py:481-482 | With no doctor rows the queue reads 0/0 with no wait. |
| ClinicQueries.SeedQueueEmpty | Railway_Deploy/backend/server.py:207-220 | The seeded clinic's queue reads 0/0 with no wait. |
| RailwayServer.BookAppointment | Railway_Deploy/backend/server.py:357-367 | With `dept`, `date` and `mobile` present, exactly one new 'Scheduled' row is added under a fresh, never-reused id, which becomes the appointment counter and joins the issued ids. Otherwise the appointments, the counter and the issued ids are unchanged. Users, reports and the user and report counters never change. |
| RailwayServer.BookTwice | Railway_Deploy/backend/server.py:357-367 | There is no duplicate check: the same request twice makes two equal rows under increasing ids. |
| RailwayServer.SaveReport | Railway_Deploy/backend/server.py:398-438 | A missing required key writes nothing. A first report inserts the report under the next report id, which the report counter advances to, and marks the appointment `report_id = 1`. A later report only revises the existing one and keeps the report counter. Users, the issued ids and the user and appointment counters never change. |
| RailwayServer.ReportLifecycle | Railway_Deploy/backend/server.py:357-473 | Book, report, read back and cancel: the report reads back as submitted and the appointment becomes Completed; a cancel still overrides it. If an orphan report was already stored under the new id, the report is revised and the appointment stays Scheduled. |
| RailwayServer.GetAppointments | Railway_Deploy/backend/server.py:320-355 | A missing or empty mobile gives `[]`. Otherwise it lists, among ids `1..hi`, exactly that mobile's appointments, newest id first, each with its report's follow-up date. |
| RailwayServer.JoinReport | Railway_Deploy/backend/server.py:387-390 | A row gets the report's columns iff a report exists for that appointment, and NULLs otherwise. |
| RailwayServer.PatientHistorySound | Railway_Deploy/backend/server.py:384-396 | Every history row is one of the mobile's appointments with an id in `1..hi`, joined with its report. |
| RailwayServer.PatientHistoryComplete | Railway_Deploy/backend/server.py:384-396 | Every appointment of the mobile with an id in `1..hi` appears in the history. A valid `ClinicDb` keeps every appointment id in `1..lastAptId`. |
| RailwayServer.PatientHistoryOrdered | Railway_Deploy/backend/server.py:392 | No appointment appears twice, and dates never increase down the history. |
| LegacyServer.BookAppointment | backend/server.py:208-222 | Exactly one new 'Scheduled' row is added, with no patient name or age, under a fresh id that becomes the appointment counter and joins the issued ids. A missing key changes nothing. Users, reports and the user and report counters never change. |
| LegacyServer.SaveReport | backend/server.py:255-295 | Like the deployed handler, with the same counter behaviour, except that a first report marks the appointment `report_id = 'generated'`. |
| LegacyServer.GetAppointments | backend/server.py:196-206 | A missing or empty mobile gives `[]`. Otherwise it lists, among ids `1..hi`, exactly that mobile's rows, newest id first. |
| LegacyServer.JoinReport | backend/server.py:244-248 | A row gets the report's columns iff the appointment carries `'generated'` and a report exists. |
| LegacyServer.PatientHistorySound | backend/server.py:240-253 | Every history row is one of the mobile's appointments with an id in `1..hi`, joined under the marker only. |
| LegacyServer.PatientHistoryComplete | backend/server.py:240-253 | Every appointment of the mobile with an id in `1..hi` appears in the history. A valid `ClinicDb` keeps every appointment id in `1..lastAptId`. |
| LegacyServer.PatientHistoryOrdered | backend/server.py:248 | No appointment appears twice, and dates never increase down the history. |
| LegacyServer.FirstReportJoins | backend/server.py:285-291 | A first report saved through this back end shows its diagnosis in the history. |
| PatientClient.CheckLogin | Railway_Deploy/script.js:107-124 | The request is sent iff the trimmed name has at least 2 characters and the mobile is `admin` or exactly ten ASCII digits. The two refusals are each characterised. |
| PatientClient.LoginGateIdempotent | Railway_Deploy/script.js:107-113 | A sent name has no edge white space, and sending it again sends the same request. |
| PatientClient.AdminIsNotTenDigits | Railway_Deploy/script.js:120 | `admin` is never mistaken for a phone number. |
| PatientClient.FirstOccurrences | Railway_Deploy/script.js:299 | The reference order: each name once, holding exactly the input's names. |
| PatientClient.Put | Railway_Deploy/script.js:299 | `Map.set` replaces an entry with the same name in place, or appends. Names stay distinct. |
| PatientClient.Dedup | Railway_Deploy/script.js:299 | There is one doctor per name, in first-occurrence order, and each is the last record with that name. |
| PatientClient.DedupKeepsEveryName | Railway_Deploy/script.js:299 | Every input name survives de-duplication. |
| PatientClient.Filter | script.js:831-835 | `Array.filter` keeps exactly the passing doctors. |
| PatientClient.FilterIsSubsequence | script.js:831-835 | The filtered list is a sub-sequence of the input. |
| PatientClient.FilterConcat | Railway_Deploy/script.js:787-790 | Filtering is homomorphic over concatenation, so order is kept. |
| PatientClient.FilterKeepsAll | Railway_Deploy/script.js:787-790 | A test every doctor passes keeps the whole list. |
| PatientClient.FilterNarrow | script.js:831-835 | Filtering by a weaker test and then a stronger one equals filtering by the stronger one. |
| PatientClient.FirstInDept | Railway_Deploy/script.js:498 | `find` returns the first doctor of the department, or nothing when none belongs to it. |
| PatientClient.CheckBookingAvailability | Railway_Deploy/script.js:487-513 | An empty department disables. A matched doctor disables iff its status is exactly 'unavailable'. No match throws on `doc.name` and leaves the button as it was. |
| PatientClient.ServerStatusesNeverDisable | Railway_Deploy/script.js:502-512 | With the statuses the back end writes (Available, Busy, Off, NULL), a chosen department is never refused. |
| PatientClient.ActiveAppointmentAsWritten | Railway_Deploy/script.js:643-660 | The card shows the last element of the stored list iff it is 'Scheduled'. |
| PatientClient.AsWrittenPicksOldest | Railway_Deploy/script.js:648-651 | Over a newest-first listing, the card as written inspects the oldest appointment. |
| PatientClient.AsWrittenHidesNewBooking | Railway_Deploy/script.js:648-660 | A new booking after a completed visit shows "No active appointments". |
| PatientClient.ActiveAppointment | Railway_Deploy/script.js:651-660 | The intended card shows the first, newest element iff it is 'Scheduled'. |
| PatientClient.ActivePicksNewest | Railway_Deploy/script.js:651-652 | Over a newest-first listing, the intended card inspects the newest appointment. |
| PatientClient.Initials | Railway_Deploy/script.js:230-231 | The initials throw a TypeError (`undefined + undefined` is `NaN`) exactly when the name begins and ends with a space, such as " " or " Ann ". |
| PatientClient.InitialsOfName | Railway_Deploy/script.js:230-231 | For a name without edge spaces, the initials are the upper-cased first character, plus the character after the last space when there is one. |
| PatientClient.InitialsTrailingSpace | Railway_Deploy/script.js:230-231 | An empty last word reads as `undefined`: "John " gives "JUNDEFINED". |
| PatientClient.AppState.constructor | Railway_Deploy/script.js:4-14 | The initial state has no user, the login screen, no appointments and a 0/0/0 queue. |
| PatientClient.AppState.NavigateTo | Railway_Deploy/script.js:79-88 | Hiding the screens throws unless all four screen elements are on the page, and then nothing changes. Otherwise a known screen id becomes the current screen and an unknown one changes nothing. The invariant is kept. |
| PatientClient.AppState.SignIn | Railway_Deploy/script.js:137-145 | The reply's user is kept. The dashboard is shown unless the profile's initials throw (a name that begins and ends with a space) or a screen element is missing. |
| PatientClient.AppState.Logout | Railway_Deploy/script.js:171-177 | The user and appointments are cleared and the queue is kept. The login screen is shown unless a screen element is missing. |
| PatientClient.AppState.ApplyQueueUpdate | Railway_Deploy/script.js:465-473 | The queue becomes the server's `QueueStatus`, and the non-negative wait invariant holds. |
| PatientClient.AppState.SyncAppointments | Railway_Deploy/script.js:411-413 | The fetched listing replaces the stored appointments. |
| PatientClient.AppState.ActiveCard | Railway_Deploy/script.js:648-660 | The card as corrected (see Findings): the first stored appointment is shown iff it is 'Scheduled', and over a newest-first listing it is the newest one. |
| RailwayClient.ShowEntryPass | Railway_Deploy/script.js:848-856 | With no user, the pass asks to log in first. Otherwise the payload is the mobile and the name up to its first space. |
| RailwayClient.EncodePass | Railway_Deploy/script.js:852-857 | The parsed payload is an object with exactly those `m` and `n`. |
| RailwayClient.OnScanSuccess | Railway_Deploy/script.js:906-933 | A parse error or `null` gives "Invalid QR Format". A truthy `m` opens the history with `n` or 'Scanned User'. Anything else gives "Invalid QR Code". |
| RailwayClient.EntryPassRoundTrip | Railway_Deploy/script.js:848-924 | Scanning a user's pass opens that mobile's history under the first word of the name. |
| RailwayClient.EntryPassFirstName | Railway_Deploy/script.js:854-918 | For "First Last" the scan opens the history under "First". |
| RailwayClient.AcceptedMobileScans | Railway_Deploy/script.js:120-918 | Every mobile the login gate accepts gives a pass that scans. |
| RailwayClient.FilterDoctors | Railway_Deploy/script.js:776-790 | It keeps exactly the doctors whose lower-cased name or department contains the lower-cased query, as a sub-sequence. |
| RailwayClient.EmptyQueryKeepsAll | Railway_Deploy/script.js:781-790 | An empty query keeps every doctor in order. |
| RailwayClient.SearchIgnoresCase | Railway_Deploy/script.js:781 | A query and its lower-cased form find the same doctors. |
| RailwayClient.SearchConcat | Railway_Deploy/script.js:787-790 | Searching a concatenation searches each part in order. |
| RailwayClient.StatusLabel | Railway_Deploy/script.js:736-739 | 'Busy' gives "In Consultation", 'Off' gives "Off Duty", and anything else gives "Available". Each direction is stated. |
| RailwayClient.WaitEstimate | Railway_Deploy/script.js:762 | The wait is 15 times (total − current) when the total is truthy, and 15 otherwise. It is a multiple of 15 and is not clamped. |
| RailwayClient.WaitEstimateEdges | Railway_Deploy/script.js:762 | An empty queue shows 15, a fully served one 0, and an over-served one a negative wait. |
| RailwayClient.Heads | Railway_Deploy/script.js:746 | `map(n => n[0]).join('')` over non-empty words is their first characters, in order. |
| RailwayClient.Avatar | Railway_Deploy/script.js:746 | At most two characters, none of them a space. |
| RailwayClient.AvatarOfWords | Railway_Deploy/script.js:746 | For non-empty space-free words joined by single spaces, the avatar is the first word's first letter, followed by the second word's if there is one. |
| RailwayClient.SeededAvatar | Railway_Deploy/script.js:746 | The seeded three-word name "Dr. Nikhil Patil" shows "DN". |
| RailwayClient.AvatarOfTwoWords | Railway_Deploy/script.js:746 | For "First Last" the avatar is the two first letters. |
| RailwayClient.AvatarMatchesInitials | Railway_Deploy/script.js:230-231 | For a two-word name the avatar, upper-cased, equals the profile initials. |
| RailwayClient.RenderCard | Railway_Deploy/script.js:732-770 | The label is `StatusLabel` of the status and the avatar is `Avatar` of the name. The button is enabled iff the status is not 'Off', which is iff the label is not "Off Duty", and its text follows. A room shows iff it is non-empty, and it is the doctor's own room. The tokens use 0 for NULL. |
| RailwayClient.OffDoctorCardVersusForm | Railway_Deploy/script.js:767 | An 'Off' doctor's card disables booking, while the booking form still enables confirm for that department. |
| RailwayClient.ListingEntries | Railway_Deploy/script.js:413 | The stored appointments are the listing's rows, in order. |
| RailwayClient.CardInspectsOldestBooking | Railway_Deploy/script.js:648-651 | Over this back end's listing, the card as written inspects the oldest appointment. |
| LegacyClient.FilterDoctors | script.js:829-835 | It keeps exactly the doctors whose name, department or non-empty description contains the term, as a sub-sequence. |
| LegacyClient.SearchExtendsNameAndDepartment | script.js:831-835 | Narrowing this search to names and departments gives the deployed client's search. |
| LegacyClient.DescriptionOnlyMatch | script.js:834 | A doctor found only through the description is found here but not by the deployed search. |
| LegacyClient.StatusWord | script.js:884 | A missing or empty status reads as 'unavailable'. Otherwise the status is lower-cased. |
| LegacyClient.Classify | script.js:884-890 | It classifies as Available iff the word is 'available', Busy iff 'busy', and Not Available otherwise. |
| LegacyClient.ServerStatusesClassified | script.js:884-890 | 'Available' and 'Busy' classify as such; 'Off' and NULL are Not Available. |
| LegacyClient.ClassifyIgnoresCase | script.js:884 | Letter case does not change the classification. |
| LegacyClient.RenderCard | script.js:884-914 | The room falls back to 'N/A' and the description to the stock text. Booking is offered on every card. |
| LegacyClient.OffDoctorStillBookable | script.js:884-914 | An 'Off' doctor shows Not Available yet can be booked. |
| LegacyClient.ActionFor | script.js:734-736 | The row shows "Completed" iff the status is 'Completed'. Otherwise it shows Write Report for that id and patient name. |
| LegacyClient.ReportedRowShowsCompleted | script.js:734 | Once a first report is saved, the row shows "Completed". |
| LegacyClient.LegacyBookedRowPassesNull | script.js:736 | A row booked through the earlier back end passes the text `null` as the patient name. |
| LegacyClient.CardInspectsOldestBooking | script.js:653-656 | Over the earlier back end's listing, the card as written inspects the oldest appointment. |

## Left out

- Flask routing, static and upload serving, CORS, and the debug and health endpoints are
  framework glue.
- `secure_filename` and `file.save` are left out. A report's file is its stored name or
  nothing.
- The upload is saved before the required keys are read. A missing key therefore still
  leaves the file on disk.
- `created_at` columns are left out: they are clock values.
- The `doctor_name` and `system_settings` columns and tables are never read by the modelled
  code.
- Driver selection, connections, `create_schema`, migrations and the schema update scripts
  are left out. The model assumes the migrated columns exist. The earlier schema lacks some
  of them, which in practice makes those handlers fail.
- PostgreSQL errors are not modelled:
  - the double-quoted `"patient"` and `"doctor"` literals, which PostgreSQL reads as
    identifiers;
  - foreign-key enforcement.
- The earlier back end runs on SQLite only, which stores its `'generated'` marker in the
  INTEGER `report_id` column as text, as is.
- Request bodies are modelled as present-or-absent keys with well-typed values. JSON `null`
  or a wrongly typed value under a required key, and the text affinity of `appointment_id`,
  are not modelled.
- Concurrency is left out: each handler is one atomic step, as each opens its own
  connection.
- `get_doctors`, `get_all_appointments`, the contact form and the messages endpoint are
  plain reads or inserts with no decision in them.
- ClinicQueries.HistoryEntries: ties in `ORDER BY date DESC` are left unspecified, as in
  SQL. The proved order is only "dates never increase".
- ClinicQueries.HistoryEntries: dates are compared in code-point order (`Strings.LexLeq`),
  which is SQLite's BINARY collation. On PostgreSQL the same `ORDER BY a.date DESC` follows
  the database's collation locale. The dates are the client's `toLocaleDateString()`
  text, such as "10/2/2026". A glibc locale that ignores '/' at the first level puts
  "10/2/2026" below "1/20/2026", the reverse of code-point order. The model does not
  capture that order. The same holds for RailwayServer.PatientHistoryOrdered.
- RailwayServer.PatientHistoryOrdered: proves code-point date order, which is SQLite's and
  not necessarily PostgreSQL's (see ClinicQueries.HistoryEntries).
- `JSON.parse` and `JSON.stringify` are abstract. A scan is a parsed value or a parse
  error, and only string members `m` and `n` are distinguished. `EncodePass` stands for
  stringify-then-parse.
- `toLowerCase` and `toUpperCase` are modelled on ASCII letters only.
- Strings are sequences of Unicode characters, where JavaScript's `length`, `[0]` and
  `substring` count UTF-16 code units. This affects the members below for text outside the
  Basic Multilingual Plane:
- PatientClient.CheckLogin: a one-character name such as "𠀋" has length 2 in JavaScript
  and is sent. The model counts 1 character and refuses it as too short.
- PatientClient.Initials: for a name starting with such a character, such as "𝒜nn",
  JavaScript's `n[0]` is a lone surrogate. The model takes the whole character.
- PatientClient.InitialsOfName: states the whole first character, where JavaScript takes
  its first UTF-16 code unit (see PatientClient.Initials).
- RailwayClient.Avatar: `n[0]` and `substring(0, 2)` count characters here, not UTF-16
  code units.
- RailwayClient.FilterDoctors: a doctor with a NULL name or department makes the
  JavaScript filter throw. The model's doctors always have both.
- The random queue simulation in `setInterval` is left out: it is driven by `Math.random`
  and timers.
- The DOM, HTML templating, toasts, theme and `localStorage`, the QR code and scanner
  libraries, and date formatting are left out. Of the page's elements only the four
  screens are modelled (`onPage`). Every other element a handler touches is assumed
  present.
- The `window.viewHistory` existence check in `onScanSuccess` is left out. The model's
  outcome is the call it makes.
- `admin.js` is not part of this model: it is credential UI and tables with no decisions.
- The message texts of the booking gate are left out. Only the button state is modelled.
- PatientClient.AppState.ApplyQueueUpdate takes the server's computed reply rather than an
  arbitrary JSON body, because the client applies whatever `/api/queue` sends.

## Findings

| source | as written | input that shows it | evidently intended | confidence | as-written member | corrected member |
|---|---|---|---|---|---|---|
| Railway_Deploy/script.js:648-652 | The status card reverses `appState.appointments` and takes element 0. The server already sends that list newest id first, so the card reads the oldest appointment. | Two appointments for one mobile: id 1 'Completed' and id 2 'Scheduled'. The listing is [2, 1], and the card shows "No active appointments". | Element 0 of the server's listing, the newest booking, is shown iff it is 'Scheduled'. | not executed | PatientClient.AsWrittenHidesNewBooking | PatientClient.ActivePicksNewest |
| script.js:653-660 | The same reversal in the earlier client, over the earlier back end's newest-first listing. | The same two appointments. | The same rule. | not executed | LegacyClient.CardInspectsOldestBooking | PatientClient.ActiveAppointment |
