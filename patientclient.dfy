/**
 * The decision logic both browser clients share: the login form's validation, the
 * doctor list's de-duplication by name, the booking-availability gate, the active
 * appointment card, the profile initials, and the `appState` object they update.
 */
module PatientClient {
  import opened Optional
  import opened Strings
  import opened ClinicStore
  import opened ClinicQueries

  // ---------------------------------------------------------------------------
  // Login form
  // ---------------------------------------------------------------------------

  /** What the login form does on submit: refuse with one of two messages, or send the request. */
  datatype LoginGate = NameTooShort | BadMobile | Send(name: string, age: string, mobile: string)

  predicate IsAsciiDigit(c: char) {
    '0' <= c <= '9'
  }

  /** `/^\d{10}$/.test(s)`: exactly ten ASCII digits and nothing else. */
  predicate TenDigits(s: string) {
    |s| == 10 && forall i | 0 <= i < |s| :: IsAsciiDigit(s[i])
  }

  /**
   * The submit handler of the login form: the trimmed name must have at least two
   * characters, then the mobile must be `admin` or ten digits; the age is not checked.
   */
  function CheckLogin(nameInput: string, age: string, mobile: string): (g: LoginGate)
    ensures g.Send? <==> |Trim(nameInput)| >= 2 && (mobile == "admin" || TenDigits(mobile))
    ensures g == NameTooShort <==> |Trim(nameInput)| < 2
    ensures g == BadMobile <==> |Trim(nameInput)| >= 2 && mobile != "admin" && !TenDigits(mobile)
    ensures g.Send? ==> g.name == Trim(nameInput) && g.age == age && g.mobile == mobile
  {
    var name := Trim(nameInput);
    if |name| < 2 then NameTooShort
    else if mobile != "admin" && !TenDigits(mobile) then BadMobile
    else Send(name, age, mobile)
  }

  lemma TrimOfTrimmed(s: string)
    requires |s| == 0 || (!IsJsSpace(s[0]) && !IsJsSpace(s[|s| - 1]))
    ensures Trim(s) == s
  {
  }

  /**
   * A sent name has no white space at either end, so submitting the form again with the
   * name it sent sends exactly the same request.
   */
  lemma LoginGateIdempotent(nameInput: string, age: string, mobile: string)
    requires CheckLogin(nameInput, age, mobile).Send?
    ensures var g := CheckLogin(nameInput, age, mobile);
      !IsJsSpace(g.name[0]) && !IsJsSpace(g.name[|g.name| - 1])
      && CheckLogin(g.name, age, mobile) == g
  {
    ResendSame(CheckLogin(nameInput, age, mobile), Trim(nameInput), age, mobile);
  }

  /** A request sent with an already trimmed name is sent again unchanged. */
  lemma ResendSame(g: LoginGate, t: string, age: string, mobile: string)
    requires g == Send(t, age, mobile) && |t| >= 2 && !IsJsSpace(t[0]) && !IsJsSpace(t[|t| - 1])
    requires mobile == "admin" || TenDigits(mobile)
    ensures !IsJsSpace(g.name[0]) && !IsJsSpace(g.name[|g.name| - 1]) && CheckLogin(g.name, age, mobile) == g
  {
    TrimOfTrimmed(t);
  }

  /** The doctor login word is never taken for a phone number, and vice versa. */
  lemma AdminIsNotTenDigits()
    ensures !TenDigits("admin")
  {
  }

  // ---------------------------------------------------------------------------
  // Doctor list
  // ---------------------------------------------------------------------------

  /** A row of `/api/doctors` as the client reads it. */
  datatype Doctor = Doctor(
    name: string, department: string, description: Option<string>, status: Option<string>,
    queueCurrent: Option<int>, queueTotal: Option<int>, roomNumber: Option<string>)

  function Names(ds: seq<Doctor>): (ns: seq<string>)
    ensures |ns| == |ds| && forall i | 0 <= i < |ds| :: ns[i] == ds[i].name
  {
    seq(|ds|, i requires 0 <= i < |ds| => ds[i].name)
  }

  predicate DistinctNames(ds: seq<Doctor>) {
    forall i, j | 0 <= i < j < |ds| :: ds[i].name != ds[j].name
  }

  /** Reference order: each name once, where it first occurs. */
  function FirstOccurrences(ns: seq<string>): (r: seq<string>)
    ensures forall n :: n in r <==> n in ns
    ensures forall i, j | 0 <= i < j < |r| :: r[i] != r[j]
    decreases |ns|
  {
    if |ns| == 0 then []
    else
      var p := FirstOccurrences(ns[..|ns| - 1]);
      assert ns == ns[..|ns| - 1] + [ns[|ns| - 1]];
      if ns[|ns| - 1] in p then p else p + [ns[|ns| - 1]]
  }

  /** The last doctor in the list with this name, if any. */
  function LastWithName(ds: seq<Doctor>, n: string): Option<Doctor>
    decreases |ds|
  {
    if |ds| == 0 then None
    else if ds[|ds| - 1].name == n then Some(ds[|ds| - 1])
    else LastWithName(ds[..|ds| - 1], n)
  }

  /** Where a name sits in a list, or -1 when it is absent. */
  function IndexOfName(ds: seq<Doctor>, n: string): (k: int)
    ensures -1 <= k < |ds|
    ensures k >= 0 ==> ds[k].name == n
    ensures k < 0 ==> forall i | 0 <= i < |ds| :: ds[i].name != n
    decreases |ds|
  {
    if |ds| == 0 then -1
    else if ds[|ds| - 1].name == n then |ds| - 1
    else IndexOfName(ds[..|ds| - 1], n)
  }

  /** `map.set(d.name, d)` on a Map listed in insertion order: replace in place, or append. */
  function Put(acc: seq<Doctor>, d: Doctor): (r: seq<Doctor>)
    requires DistinctNames(acc)
    ensures DistinctNames(r)
    ensures d.name in Names(acc) ==>
      |r| == |acc| && forall i | 0 <= i < |acc| :: r[i] == (if acc[i].name == d.name then d else acc[i])
    ensures d.name !in Names(acc) ==> r == acc + [d]
  {
    var k := IndexOfName(acc, d.name);
    if k < 0 then
      PutAppend(acc, d);
      acc + [d]
    else
      PutReplace(acc, d, k);
      acc[k := d]
  }

  /** An absent name is appended, which keeps the names distinct. */
  lemma PutAppend(acc: seq<Doctor>, d: Doctor)
    requires DistinctNames(acc) && forall i | 0 <= i < |acc| :: acc[i].name != d.name
    ensures DistinctNames(acc + [d]) && d.name !in Names(acc)
  {
  }

  /** A present name is overwritten where it stands: the only entry with that name. */
  lemma PutReplace(acc: seq<Doctor>, d: Doctor, k: int)
    requires DistinctNames(acc) && 0 <= k < |acc| && acc[k].name == d.name
    ensures DistinctNames(acc[k := d]) && d.name in Names(acc)
    ensures forall i | 0 <= i < |acc| :: acc[k := d][i] == (if acc[i].name == d.name then d else acc[i])
  {
    assert Names(acc)[k] == d.name;
  }

  /**
   * `Array.from(new Map(doctors.map(d => [d.name, d])).values())`: one doctor per name,
   * the last record for each name, at the position where the name first occurs.
   */
  function Dedup(docs: seq<Doctor>): (r: seq<Doctor>)
    ensures DistinctNames(r)
    ensures Names(r) == FirstOccurrences(Names(docs))
    ensures forall i | 0 <= i < |r| :: LastWithName(docs, r[i].name) == Some(r[i])
    decreases |docs|
  {
    if |docs| == 0 then []
    else
      var prefix := docs[..|docs| - 1];
      var d := docs[|docs| - 1];
      var p := Dedup(prefix);
      assert docs == prefix + [d];
      PutKeepsFirstOccurrences(prefix, d, p);
      PutKeepsLastRecords(prefix, d, p);
      Put(p, d)
  }

  lemma PutKeepsFirstOccurrences(prefix: seq<Doctor>, d: Doctor, p: seq<Doctor>)
    requires DistinctNames(p) && Names(p) == FirstOccurrences(Names(prefix))
    ensures Names(Put(p, d)) == FirstOccurrences(Names(prefix + [d]))
  {
    var docs := prefix + [d];
    var r := Put(p, d);
    assert Names(docs) == Names(prefix) + [d.name];
    assert Names(docs)[..|docs| - 1] == Names(prefix);
    if d.name in Names(p) {
      assert forall i | 0 <= i < |r| :: r[i].name == p[i].name;
    } else {
      assert Names(r) == Names(p) + [d.name];
    }
  }

  lemma PutKeepsLastRecords(prefix: seq<Doctor>, d: Doctor, p: seq<Doctor>)
    requires DistinctNames(p)
    requires forall i | 0 <= i < |p| :: LastWithName(prefix, p[i].name) == Some(p[i])
    ensures var r := Put(p, d);
      forall i | 0 <= i < |r| :: LastWithName(prefix + [d], r[i].name) == Some(r[i])
  {
    var docs := prefix + [d];
    var r := Put(p, d);
    assert docs[..|docs| - 1] == prefix;
    forall i | 0 <= i < |r|
      ensures LastWithName(docs, r[i].name) == Some(r[i])
    {
      if r[i].name == d.name {
        assert r[i] == d;
      } else {
        assert i < |p| && r[i] == p[i];
      }
    }
  }

  /** Every name of the input survives de-duplication exactly once. */
  lemma DedupKeepsEveryName(docs: seq<Doctor>, k: int)
    requires 0 <= k < |docs|
    ensures exists i | 0 <= i < |Dedup(docs)| :: Dedup(docs)[i].name == docs[k].name
  {
    var r := Dedup(docs);
    assert docs[k].name == Names(docs)[k];
    assert docs[k].name in Names(r);
    var i :| 0 <= i < |r| && Names(r)[i] == docs[k].name;
    assert r[i].name == docs[k].name;
  }

  /** `Array.prototype.filter` over the doctor list. */
  function Filter(docs: seq<Doctor>, keep: Doctor -> bool): (r: seq<Doctor>)
    ensures forall d :: d in r <==> d in docs && keep(d)
    ensures |r| <= |docs|
    decreases |docs|
  {
    if |docs| == 0 then []
    else if keep(docs[0]) then [docs[0]] + Filter(docs[1..], keep)
    else Filter(docs[1..], keep)
  }

  /** `a` lists some of the elements of `b`, in `b`'s order. */
  predicate IsSubsequence(a: seq<Doctor>, b: seq<Doctor>)
    decreases |b|
  {
    |a| == 0 || (|b| > 0 && ((a[0] == b[0] && IsSubsequence(a[1..], b[1..])) || IsSubsequence(a, b[1..])))
  }

  /** The filter keeps the list's order. */
  lemma {:induction false} FilterIsSubsequence(docs: seq<Doctor>, keep: Doctor -> bool)
    ensures IsSubsequence(Filter(docs, keep), docs)
    decreases |docs|
  {
    if |docs| > 0 {
      FilterIsSubsequence(docs[1..], keep);
      if keep(docs[0]) {
        assert Filter(docs, keep)[1..] == Filter(docs[1..], keep);
      }
    }
  }

  /** Filtering a concatenation filters each part: the kept doctors stay in their order. */
  lemma {:induction false} FilterConcat(a: seq<Doctor>, b: seq<Doctor>, keep: Doctor -> bool)
    ensures Filter(a + b, keep) == Filter(a, keep) + Filter(b, keep)
    decreases |a|
  {
    if |a| > 0 {
      var ab := a + b;
      assert ab[0] == a[0] && ab[1..] == a[1..] + b;
      FilterConcat(a[1..], b, keep);
      if keep(a[0]) {
        calc {
          Filter(ab, keep);
          [a[0]] + Filter(a[1..] + b, keep);
          [a[0]] + (Filter(a[1..], keep) + Filter(b, keep));
          ([a[0]] + Filter(a[1..], keep)) + Filter(b, keep);
        }
      } else {
        assert Filter(ab, keep) == Filter(a[1..] + b, keep);
      }
    } else {
      assert a + b == b;
    }
  }

  /** A test every doctor passes keeps the whole list. */
  lemma {:induction false} FilterKeepsAll(docs: seq<Doctor>, keep: Doctor -> bool)
    requires forall i | 0 <= i < |docs| :: keep(docs[i])
    ensures Filter(docs, keep) == docs
    decreases |docs|
  {
    if |docs| > 0 {
      FilterKeepsAll(docs[1..], keep);
    }
  }

  /** Filtering by a weaker test first and then by a stronger one is filtering by the stronger one. */
  lemma {:induction false} FilterNarrow(docs: seq<Doctor>, weak: Doctor -> bool, strong: Doctor -> bool)
    requires forall d :: strong(d) ==> weak(d)
    ensures Filter(Filter(docs, weak), strong) == Filter(docs, strong)
    decreases |docs|
  {
    if |docs| > 0 {
      FilterNarrow(docs[1..], weak, strong);
    }
  }

  /** No doctor before position `k` belongs to the department. */
  predicate NoneBefore(docs: seq<Doctor>, k: int, dept: string)
    requires 0 <= k <= |docs|
  {
    forall j | 0 <= j < k :: docs[j].department != dept
  }

  /** Array.prototype.find: the first doctor of the department. */
  function FirstInDept(docs: seq<Doctor>, dept: string): (r: Option<Doctor>)
    ensures r.None? ==> NoneBefore(docs, |docs|, dept)
    ensures r.Some? ==> exists k | 0 <= k < |docs| :: (docs[k] == r.value && r.value.department == dept
      && NoneBefore(docs, k, dept))
    decreases |docs|
  {
    if |docs| == 0 then None
    else if docs[0].department == dept then
      assert docs[0] == docs[0] && NoneBefore(docs, 0, dept);
      Some(docs[0])
    else
      var r := FirstInDept(docs[1..], dept);
      assert r.Some? ==> exists k | 0 <= k < |docs| :: (docs[k] == r.value && r.value.department == dept
        && NoneBefore(docs, k, dept)) by {
        if r.Some? {
          var k :| 0 <= k < |docs[1..]| && docs[1..][k] == r.value && r.value.department == dept
            && NoneBefore(docs[1..], k, dept);
          assert docs[k + 1] == r.value;
          assert NoneBefore(docs, k + 1, dept) by {
            forall j | 0 <= j < k + 1
              ensures docs[j].department != dept
            {
              if j > 0 {
                assert docs[j] == docs[1..][j - 1];
              }
            }
          }
        }
      }
      assert r.None? ==> NoneBefore(docs, |docs|, dept) by {
        if r.None? {
          forall j | 0 <= j < |docs|
            ensures docs[j].department != dept
          {
            if j > 0 {
              assert docs[j] == docs[1..][j - 1];
            }
          }
        }
      }
      r
  }

  // ---------------------------------------------------------------------------
  // checkBookingAvailability
  // ---------------------------------------------------------------------------

  /**
   * The confirm button after `checkBookingAvailability`: disabled, enabled, or left as it
   * was because building the message read `doc.name` of a missing doctor and threw.
   */
  datatype Gate = Disabled | Enabled | Thrown

  /** The gate for a department, given `window.allDoctors` (absent before the list has loaded). */
  function CheckBookingAvailability(allDoctors: Option<seq<Doctor>>, dept: string): (g: Gate)
    ensures dept == "" ==> g == Disabled
    ensures dept != "" ==>
      var doc := if allDoctors.Some? then FirstInDept(allDoctors.value, dept) else None;
      (g == Thrown <==> doc.None?)
      && (g == Disabled <==> doc.Some? && doc.value.status == Some("unavailable"))
  {
    if dept == "" then Disabled
    else
      var doc := if allDoctors.Some? then FirstInDept(allDoctors.value, dept) else None;
      if doc.Some? && doc.value.status == Some("unavailable") then Disabled
      else if doc.Some? && doc.value.status == Some("busy") then Enabled
      else if doc.None? then Thrown
      else Enabled
  }

  /** A status the back end writes: the seeded 'Available', the doctor panel's 'Busy'/'Off', or NULL. */
  predicate ServerStatus(s: Option<string>) {
    s == None || s == Some("Available") || s == Some("Busy") || s == Some("Off")
  }

  /**
   * With the statuses the back end writes, a chosen department is never refused: a doctor
   * who is 'Off' can still be booked, since only the lower-case 'unavailable' disables.
   */
  lemma ServerStatusesNeverDisable(docs: seq<Doctor>, dept: string)
    requires dept != "" && forall i | 0 <= i < |docs| :: ServerStatus(docs[i].status)
    ensures CheckBookingAvailability(Some(docs), dept) != Disabled
  {
  }

  // ---------------------------------------------------------------------------
  // renderAppointmentList
  // ---------------------------------------------------------------------------

  function Reverse<T>(s: seq<T>): (r: seq<T>)
    ensures |r| == |s| && forall i | 0 <= i < |s| :: r[i] == s[|s| - 1 - i]
    decreases |s|
  {
    if |s| == 0 then [] else Reverse(s[1..]) + [s[0]]
  }

  /**
   * The status card as written: the first element of the reversed list, shown only when
   * it is 'Scheduled'; `None` is "No active appointments".
   */
  function ActiveAppointmentAsWritten(apts: seq<Entry>): (r: Option<Entry>)
    ensures |apts| == 0 ==> r.None?
    ensures |apts| > 0 ==> (r.Some? <==> apts[|apts| - 1].apt.status == Scheduled)
    ensures r.Some? ==> r.value == apts[|apts| - 1]
  {
    var history := Reverse(apts);
    if |history| == 0 then None
    else if history[0].apt.status == Scheduled then Some(history[0])
    else None
  }

  /** The listing comes from the server newest id first. */
  predicate IdsDescending(apts: seq<Entry>) {
    forall i, j | 0 <= i < j < |apts| :: apts[i].id > apts[j].id
  }

  /**
   * Over the server's listing (newest id first) the card as written inspects the OLDEST
   * appointment: its id is the smallest of the list.
   */
  lemma AsWrittenPicksOldest(apts: seq<Entry>)
    requires IdsDescending(apts)
    ensures var r := ActiveAppointmentAsWritten(apts);
      r.Some? ==> forall i | 0 <= i < |apts| :: r.value.id <= apts[i].id
  {
  }

  /** A patient with an older finished visit and a newer booking sees "No active appointments". */
  lemma AsWrittenHidesNewBooking()
    ensures var apts := [Entry(2, Appointment("Dental", "2026-01-02", Scheduled, "9876543210", None, None, NoReport)),
                         Entry(1, Appointment("ENT", "2026-01-01", Completed, "9876543210", None, None, RefInt(1)))];
      IdsDescending(apts) && ActiveAppointmentAsWritten(apts).None?
  {
  }

  /** The card as intended: the most recent appointment, shown only when it is 'Scheduled'. */
  function ActiveAppointment(apts: seq<Entry>): (r: Option<Entry>)
    ensures |apts| == 0 ==> r.None?
    ensures |apts| > 0 ==> (r.Some? <==> apts[0].apt.status == Scheduled)
    ensures r.Some? ==> r.value == apts[0]
  {
    if |apts| == 0 then None
    else if apts[0].apt.status == Scheduled then Some(apts[0])
    else None
  }

  /** Over the server's listing the intended card inspects the newest appointment. */
  lemma ActivePicksNewest(apts: seq<Entry>)
    requires IdsDescending(apts)
    ensures var r := ActiveAppointment(apts);
      r.Some? ==> r.value.apt.status == Scheduled && forall i | 0 <= i < |apts| :: apts[i].id <= r.value.id
  {
  }

  // ---------------------------------------------------------------------------
  // Profile initials
  // ---------------------------------------------------------------------------

  /** `s[0]` read as text: the first character, or the word `undefined` that `""[0]` turns into. */
  function HeadOrUndefined(s: string): string {
    if |s| > 0 then [s[0]] else "undefined"
  }

  /**
   * `(names[0][0] + (names.length > 1 ? names[names.length - 1][0] : '')).toUpperCase()`
   * with `names = name.split(' ')`; `None` is the TypeError thrown when both pieces read
   * are empty, since `undefined + undefined` is `NaN`, which has no `toUpperCase`.
   */
  function Initials(name: string): (r: Option<string>)
    ensures r.None? <==> |name| > 0 && name[0] == ' ' && name[|name| - 1] == ' '
  {
    InitialsThrowIff(name);
    InitialsOfWords(Split(name))
  }

  /** The initials read off the pieces of the split name. */
  function InitialsOfWords(names: seq<string>): Option<string>
    requires |names| > 0
  {
    if |names| > 1 && |names[0]| == 0 && |names[|names| - 1]| == 0 then None
    else Some(ToUpper(HeadOrUndefined(names[0]) + (if |names| > 1 then HeadOrUndefined(names[|names| - 1]) else "")))
  }

  /** Both pieces read are empty exactly when the name begins and ends with a space. */
  lemma InitialsThrowIff(name: string)
    ensures var names := Split(name);
      (|names| > 1 && |names[0]| == 0 && |names[|names| - 1]| == 0)
      <==> (|name| > 0 && name[0] == ' ' && name[|name| - 1] == ' ')
  {
    var names := Split(name);
    SplitHasSpace(name);
    SplitNoSpaces(name);
    SplitLastPiece(name);
    var last := names[|names| - 1];
    assert ' ' !in last;
    if |name| > 0 && name[0] == ' ' {
      assert ' ' in name;
    }
    if |names| > 1 && |names[0]| == 0 && |last| == 0 {
      assert name[0] == ' ';
      assert name[|name| - 1] == ' ';
    }
  }

  /**
   * For a non-empty name without a space at either end: the upper-cased first character,
   * followed, when there is a space, by the upper-cased character just after the last space.
   */
  lemma InitialsOfName(name: string)
    requires |name| > 0 && name[0] != ' ' && name[|name| - 1] != ' '
    ensures var ini := Initials(name);
      (' ' !in name ==> ini == Some([UpperChar(name[0])]))
      && (' ' in name ==> exists k | 0 < k < |name| - 1 ::
            name[k] == ' ' && ' ' !in name[k + 1..] && ini == Some([UpperChar(name[0]), UpperChar(name[k + 1])]))
  {
    if ' ' in name {
      InitialsOfSpacedName(name);
    } else {
      InitialsOfOneWord(name);
    }
  }

  lemma InitialsOfOneWord(name: string)
    requires |name| > 0 && ' ' !in name
    ensures Initials(name) == Some([UpperChar(name[0])])
  {
    var names := Split(name);
    SplitHasSpace(name);
    assert |names| == 1;
    assert names[0][0] == name[0];
    assert HeadOrUndefined(names[0]) == [name[0]];
    assert HeadOrUndefined(names[0]) + "" == [name[0]];
    assert InitialsOfWords(names) == Some(ToUpper([name[0]]));
    assert ToUpper([name[0]]) == [UpperChar(name[0])];
  }

  lemma InitialsOfSpacedName(name: string)
    requires |name| > 0 && name[0] != ' ' && name[|name| - 1] != ' ' && ' ' in name
    ensures exists k | 0 < k < |name| - 1 ::
      name[k] == ' ' && ' ' !in name[k + 1..] && Initials(name) == Some([UpperChar(name[0]), UpperChar(name[k + 1])])
  {
    var names := Split(name);
    SplitHasSpace(name);
    SplitNoSpaces(name);
    SplitLastPiece(name);
    var first := names[0];
    var last := names[|names| - 1];
    assert first[0] == name[0];
    LastWordAfterSpace(name, last);
    var k := |name| - |last| - 1;
    InitialsOfSeveralWords(names);
    assert Initials(name) == Some([UpperChar(name[0]), UpperChar(name[k + 1])]);
  }

  /** The last piece of a name with a space and no edge spaces starts right after an inner space. */
  lemma LastWordAfterSpace(name: string, last: string)
    requires |name| > 0 && name[0] != ' ' && name[|name| - 1] != ' ' && ' ' in name
    requires IsLastPiece(last, name) && ' ' !in last
    ensures 0 < |last| < |name| - 1
    ensures var k := |name| - |last| - 1;
      name[k] == ' ' && name[k + 1..] == last && last[0] == name[k + 1]
  {
    assert name[|name| - |last|..] == last;
    assert forall j | |name| - |last| <= j < |name| :: name[j] == last[j - (|name| - |last|)];
    var i :| 0 <= i < |name| && name[i] == ' ';
    assert i < |name| - |last|;
  }

  /** With two or more pieces, the initials are the first characters of the first and last ones. */
  lemma InitialsOfSeveralWords(names: seq<string>)
    requires |names| > 1 && |names[0]| > 0 && |names[|names| - 1]| > 0
    ensures InitialsOfWords(names) == Some([UpperChar(names[0][0]), UpperChar(names[|names| - 1][0])])
  {
    var heads := HeadOrUndefined(names[0]) + HeadOrUndefined(names[|names| - 1]);
    assert heads == [names[0][0], names[|names| - 1][0]];
    assert ToUpper(heads) == [UpperChar(names[0][0]), UpperChar(names[|names| - 1][0])];
    assert InitialsOfWords(names) == Some(ToUpper(heads));
  }

  /** A trailing space leaves an empty last word, whose missing first character reads as `undefined`. */
  lemma InitialsTrailingSpace()
    ensures Initials("John ") == Some("JUNDEFINED")
  {
    var s := "John ";
    assert s == "John" + " ";
    FirstSegmentOfWord("John", " ");
    assert s[5..] == "";
    SplitOneWord("");
    SplitIntoTwo(s, "John", "");
    InitialsOfEmptyLastWord();
  }

  lemma InitialsOfEmptyLastWord()
    ensures InitialsOfWords(["John", ""]) == Some("JUNDEFINED")
  {
    var heads := HeadOrUndefined("John") + HeadOrUndefined("");
    assert heads == "Jundefined";
    assert ToUpper(heads) == "JUNDEFINED";
    assert InitialsOfWords(["John", ""]) == Some(ToUpper(heads));
  }

  // ---------------------------------------------------------------------------
  // appState
  // ---------------------------------------------------------------------------

  /** The signed-in user as the client keeps it (the login reply's `user`). */
  datatype SessionUser = SessionUser(name: string, mobile: string)

  /** The keys of the `screens` object. */
  const ScreenKeys: set<string> := {"login", "dashboard", "booking", "doctor"}

  lemma ScreenIdOfKey(key: string)
    requires key in ScreenKeys
    ensures key + "-screen" in {"login-screen", "dashboard-screen", "booking-screen", "doctor-screen"}
  {
    if key == "login" {
      assert key + "-screen" == "login-screen";
    } else if key == "dashboard" {
      assert key + "-screen" == "dashboard-screen";
    } else if key == "booking" {
      assert key + "-screen" == "booking-screen";
    } else {
      assert key + "-screen" == "doctor-screen";
    }
  }

  /** The client's shared state object (the theme, read from local storage, is left out). */
  class AppState {
    var user: Option<SessionUser>
    var currentScreen: string
    var appointments: seq<Entry>
    var queue: QueueReply

    /**
     * The current screen is one of the four screens, and the queue shown is a whole number
     * of fifteen-minute slots, never negative.
     */
    ghost predicate Valid()
      reads this
    {
      currentScreen in {"login-screen", "dashboard-screen", "booking-screen", "doctor-screen"}
      && queue.waitTime >= 0 && queue.waitTime % 15 == 0
    }

    /** The initial object: nobody signed in, the login screen, no appointments, an empty queue. */
    constructor ()
      ensures Valid()
      ensures user == None && currentScreen == "login-screen" && appointments == []
      ensures queue == QueueReply(0, 0, 0)
    {
      user := None;
      currentScreen := "login-screen";
      appointments := [];
      queue := QueueReply(0, 0, 0);
    }

    /**
     * `navigateTo`: every element of `screens` is hidden first, which throws (`threw`)
     * unless all four are on the page (`onPage` holds the keys whose element exists). Then a
     * known key becomes the current screen; an unknown one leaves the screen as it was.
     */
    method NavigateTo(screenId: string, onPage: set<string>) returns (threw: bool)
      requires Valid()
      modifies this
      ensures Valid()
      ensures threw <==> !(ScreenKeys <= onPage)
      ensures !threw && screenId in ScreenKeys ==> currentScreen == screenId + "-screen"
      ensures threw || screenId !in ScreenKeys ==> currentScreen == old(currentScreen)
      ensures user == old(user) && appointments == old(appointments) && queue == old(queue)
    {
      threw := !(ScreenKeys <= onPage);
      if !threw && screenId in ScreenKeys {
        currentScreen := screenId + "-screen";
        ScreenIdOfKey(screenId);
      }
    }

    /**
     * A successful login reply: the returned user is kept, then the profile is drawn, whose
     * initials throw for a name that begins and ends with a space, and only then is the
     * dashboard shown.
     */
    method SignIn(u: SessionUser, onPage: set<string>) returns (threw: bool)
      requires Valid()
      modifies this
      ensures Valid()
      ensures user == Some(u)
      ensures threw <==> Initials(u.name).None? || !(ScreenKeys <= onPage)
      ensures currentScreen == (if threw then old(currentScreen) else "dashboard-screen")
      ensures appointments == old(appointments) && queue == old(queue)
    {
      user := Some(u);
      if Initials(u.name).None? {
        threw := true;
      } else {
        threw := NavigateTo("dashboard", onPage);
      }
    }

    /** The logout button: forget the user and the appointments, then `navigateTo('login')`. */
    method Logout(onPage: set<string>) returns (threw: bool)
      requires Valid()
      modifies this
      ensures Valid()
      ensures user == None && appointments == []
      ensures threw <==> !(ScreenKeys <= onPage)
      ensures currentScreen == (if threw then old(currentScreen) else "login-screen")
      ensures queue == old(queue)
    {
      user := None;
      appointments := [];
      threw := NavigateTo("login", onPage);
    }

    /**
     * `fetchQueueUpdate`: the reply of `/api/queue` replaces the queue wholesale; that
     * reply is `QueueStatus` of the users table, whose wait is a non-negative multiple of 15.
     */
    method ApplyQueueUpdate(users: map<int, User>, hi: int)
      requires Valid()
      modifies this
      ensures Valid()
      ensures queue == QueueStatus(users, hi)
      ensures user == old(user) && appointments == old(appointments) && currentScreen == old(currentScreen)
    {
      queue := QueueStatus(users, hi);
    }

    /** The appointments screen: the fetched listing replaces `appState.appointments`. */
    method SyncAppointments(listing: seq<Entry>)
      requires Valid()
      modifies this
      ensures Valid()
      ensures appointments == listing
      ensures user == old(user) && queue == old(queue) && currentScreen == old(currentScreen)
    {
      appointments := listing;
    }

    /**
     * The status card over the current appointments, by the intended rule: the first
     * stored appointment, shown iff it is 'Scheduled'. Over the server's listing that is
     * the newest booking.
     */
    function ActiveCard(): (r: Option<Entry>)
      reads this
      ensures r.Some? <==> |appointments| > 0 && appointments[0].apt.status == Scheduled
      ensures r.Some? ==> r.value == appointments[0]
      ensures r.Some? && IdsDescending(appointments) ==>
        forall i | 0 <= i < |appointments| :: appointments[i].id <= r.value.id
    {
      ActiveAppointment(appointments)
    }
  }
}
