/**
 * The read-only queries over the clinic tables: the per-mobile appointment listing
 * (`ORDER BY id DESC`), the date-ordered patient history (`ORDER BY date DESC`) and the
 * queue aggregate (`SUM(queue_current)`, `SUM(queue_total)` over doctors).
 */
module ClinicQueries {
  import opened Optional
  import opened Strings
  import opened ClinicStore

  // ---------------------------------------------------------------------------
  // WHERE user_mobile = ? ORDER BY id DESC
  // ---------------------------------------------------------------------------

  /**
   * The ids in `1..hi` of the appointments booked under `mobile`, highest first: exactly
   * those rows, each once, in strictly decreasing order.
   */
  function IdsOf(appts: map<int, Appointment>, mobile: string, hi: int): (r: seq<int>)
    ensures forall i | 0 <= i < |r| :: r[i] in appts && 0 < r[i] <= hi && appts[r[i]].userMobile == mobile
    ensures forall id | id in appts && 0 < id <= hi && appts[id].userMobile == mobile :: id in r
    ensures forall i, j | 0 <= i < j < |r| :: r[i] > r[j]
    decreases hi
  {
    if hi <= 0 then []
    else if hi in appts && appts[hi].userMobile == mobile then [hi] + IdsOf(appts, mobile, hi - 1)
    else IdsOf(appts, mobile, hi - 1)
  }

  /** An appointment row together with its id (`a.id`, `a.*`). */
  datatype Entry = Entry(id: int, apt: Appointment)

  function EntriesOf(appts: map<int, Appointment>, ids: seq<int>): (r: seq<Entry>)
    requires forall i | 0 <= i < |ids| :: ids[i] in appts
    ensures |r| == |ids|
    ensures forall i | 0 <= i < |ids| :: r[i] == Entry(ids[i], appts[ids[i]])
  {
    seq(|ids|, i requires 0 <= i < |ids| => Entry(ids[i], appts[ids[i]]))
  }

  // ---------------------------------------------------------------------------
  // ORDER BY a.date DESC
  // ---------------------------------------------------------------------------

  /** Dates never increase along the sequence (SQLite BINARY order on TEXT). */
  predicate DateDescending(es: seq<Entry>) {
    forall i | 0 <= i < |es| - 1 :: LexLeq(es[i + 1].apt.date, es[i].apt.date)
  }

  function InsertByDate(e: Entry, sorted: seq<Entry>): (r: seq<Entry>)
    requires DateDescending(sorted)
    ensures DateDescending(r)
    ensures multiset(r) == multiset(sorted) + multiset{e}
    ensures |r| > 0 && (r[0] == e || (|sorted| > 0 && r[0] == sorted[0]))
    decreases |sorted|
  {
    if |sorted| == 0 then [e]
    else if LexLeq(sorted[0].apt.date, e.apt.date) then [e] + sorted
    else
      LexLeqTotal(sorted[0].apt.date, e.apt.date);
      var rest := InsertByDate(e, sorted[1..]);
      assert sorted == [sorted[0]] + sorted[1..];
      [sorted[0]] + rest
  }

  /** The rows of `es` ordered by date, latest first; rows of equal date keep no particular order. */
  function SortByDateDesc(es: seq<Entry>): (r: seq<Entry>)
    ensures DateDescending(r)
    ensures multiset(r) == multiset(es)
    decreases |es|
  {
    if |es| == 0 then []
    else
      assert es == [es[0]] + es[1..];
      InsertByDate(es[0], SortByDateDesc(es[1..]))
  }

  lemma {:induction false} DistinctIdsCountOnce(es: seq<Entry>, x: Entry)
    requires forall i, j | 0 <= i < j < |es| :: es[i].id != es[j].id
    ensures multiset(es)[x] <= 1
    decreases |es|
  {
    if |es| > 0 {
      assert es == [es[0]] + es[1..];
      DistinctIdsCountOnce(es[1..], x);
      if es[0] == x {
        assert x !in es[1..];
      }
    }
  }

  lemma RepeatCountsTwice(s: seq<Entry>, i: int, j: int)
    requires 0 <= i < j < |s| && s[i] == s[j]
    ensures multiset(s)[s[i]] >= 2
  {
    assert s == s[..j] + s[j..];
    assert s[i] in s[..j];
    assert s[j] in s[j..];
  }

  /** Two orderings with the same multiset hold the same rows. */
  lemma SameRows(entries: seq<Entry>, sorted: seq<Entry>)
    requires multiset(sorted) == multiset(entries)
    ensures forall i | 0 <= i < |sorted| :: sorted[i] in entries
    ensures forall k | 0 <= k < |entries| :: entries[k] in sorted
  {
    forall i | 0 <= i < |sorted|
      ensures sorted[i] in entries
    {
      assert sorted[i] in multiset(sorted);
    }
    forall k | 0 <= k < |entries|
      ensures entries[k] in sorted
    {
      assert entries[k] in multiset(entries);
    }
  }

  /** Reordering rows whose ids were distinct, where an id determines its row, keeps the ids distinct. */
  lemma SortedIdsDistinct(entries: seq<Entry>, sorted: seq<Entry>)
    requires multiset(sorted) == multiset(entries)
    requires forall i, j | 0 <= i < j < |entries| :: entries[i].id != entries[j].id
    requires forall i, j | 0 <= i < j < |sorted| && sorted[i].id == sorted[j].id :: sorted[i] == sorted[j]
    ensures forall i, j | 0 <= i < j < |sorted| :: sorted[i].id != sorted[j].id
  {
    forall i, j | 0 <= i < j < |sorted|
      ensures sorted[i].id != sorted[j].id
    {
      if sorted[i].id == sorted[j].id {
        RepeatCountsTwice(sorted, i, j);
        DistinctIdsCountOnce(entries, sorted[i]);
      }
    }
  }

  /**
   * The history's row set: the mobile's appointments among ids `1..hi`, each exactly once,
   * ordered by date with the latest first.
   */
  function HistoryEntries(appts: map<int, Appointment>, mobile: string, hi: int): (r: seq<Entry>)
    ensures forall i | 0 <= i < |r| ::
      r[i].id in appts && 0 < r[i].id <= hi && r[i].apt == appts[r[i].id] && r[i].apt.userMobile == mobile
    ensures forall id | id in appts && 0 < id <= hi && appts[id].userMobile == mobile ::
      exists i | 0 <= i < |r| :: r[i].id == id
    ensures forall i, j | 0 <= i < j < |r| :: r[i].id != r[j].id
    ensures DateDescending(r)
  {
    var ids := IdsOf(appts, mobile, hi);
    var entries := EntriesOf(appts, ids);
    var sorted := SortByDateDesc(entries);
    SameRows(entries, sorted);
    HistoryMembers(appts, mobile, hi, ids, entries, sorted);
    SortedIdsDistinct(entries, sorted);
    sorted
  }

  lemma HistoryMembers(appts: map<int, Appointment>, mobile: string, hi: int,
                       ids: seq<int>, entries: seq<Entry>, sorted: seq<Entry>)
    requires ids == IdsOf(appts, mobile, hi) && entries == EntriesOf(appts, ids)
    requires forall i | 0 <= i < |sorted| :: sorted[i] in entries
    requires forall k | 0 <= k < |entries| :: entries[k] in sorted
    ensures forall i | 0 <= i < |sorted| ::
      sorted[i].id in appts && 0 < sorted[i].id <= hi && sorted[i].apt == appts[sorted[i].id]
      && sorted[i].apt.userMobile == mobile
    ensures forall id | id in appts && 0 < id <= hi && appts[id].userMobile == mobile ::
      exists i | 0 <= i < |sorted| :: sorted[i].id == id
    ensures forall i, j | 0 <= i < j < |entries| :: entries[i].id != entries[j].id
  {
    forall id | id in appts && 0 < id <= hi && appts[id].userMobile == mobile
      ensures exists i | 0 <= i < |sorted| :: sorted[i].id == id
    {
      var k :| 0 <= k < |ids| && ids[k] == id;
      assert entries[k] in sorted;
    }
  }

  /** Adjacent order is order between any two rows. */
  lemma {:induction false} DateDescendingPairwise(es: seq<Entry>, i: int, j: int)
    requires DateDescending(es) && 0 <= i <= j < |es|
    ensures LexLeq(es[j].apt.date, es[i].apt.date)
    decreases j - i
  {
    if i == j {
      LexLeqReflexive(es[i].apt.date);
    } else {
      DateDescendingPairwise(es, i + 1, j);
      LexLeqTransitive(es[j].apt.date, es[i + 1].apt.date, es[i].apt.date);
    }
  }

  lemma {:induction false} LexLeqReflexive(s: string)
    ensures LexLeq(s, s)
    decreases |s|
  {
    if |s| > 0 {
      LexLeqReflexive(s[1..]);
    }
  }

  // ---------------------------------------------------------------------------
  // SUM(queue_current), SUM(queue_total) FROM users WHERE role = "doctor"
  // ---------------------------------------------------------------------------

  /** What `/api/queue` answers. */
  datatype QueueReply = QueueReply(current: int, total: int, waitTime: int)

  /** A user's contribution to a queue sum: a doctor's non-NULL counter; NULLs and non-doctors add nothing. */
  function Contribution(u: User, ofTotal: bool): int {
    if u.role != DoctorRole then 0
    else if ofTotal then u.queueTotal.GetOr(0)
    else u.queueCurrent.GetOr(0)
  }

  /** The SQL sum over the rows with ids `1..hi` (a sum over no non-NULL value reads as 0). */
  function SumQueue(users: map<int, User>, ofTotal: bool, hi: int): int
    decreases hi
  {
    if hi <= 0 then 0
    else SumQueue(users, ofTotal, hi - 1) + (if hi in users then Contribution(users[hi], ofTotal) else 0)
  }

  /**
   * `get_queue_status`: the two sums, and fifteen minutes per patient still waiting; a
   * negative backlog counts as none, so the estimate is never negative.
   */
  function QueueStatus(users: map<int, User>, hi: int): (q: QueueReply)
    ensures q.current == SumQueue(users, false, hi) && q.total == SumQueue(users, true, hi)
    ensures q.waitTime >= 0 && q.waitTime % 15 == 0
    ensures q.total > q.current ==> q.waitTime == 15 * (q.total - q.current)
    ensures q.total <= q.current ==> q.waitTime == 0
  {
    var current := SumQueue(users, false, hi);
    var total := SumQueue(users, true, hi);
    var backlog := total - current;
    QueueReply(current, total, (if backlog > 0 then backlog else 0) * 15)
  }

  /** Rows outside `1..hi`, or rows that are not doctors, do not enter the sums. */
  lemma {:induction false} SumIgnoresNonDoctor(users: map<int, User>, k: int, u: User, ofTotal: bool, hi: int)
    requires k !in users && u.role != DoctorRole
    ensures SumQueue(users[k := u], ofTotal, hi) == SumQueue(users, ofTotal, hi)
    decreases hi
  {
    if hi > 0 {
      SumIgnoresNonDoctor(users, k, u, ofTotal, hi - 1);
    }
  }

  /** Rows above `hi` do not enter the sums. */
  lemma {:induction false} SumIgnoresAbove(users: map<int, User>, k: int, u: User, ofTotal: bool, hi: int)
    requires hi < k
    ensures SumQueue(users[k := u], ofTotal, hi) == SumQueue(users, ofTotal, hi)
    decreases hi
  {
    if hi > 0 {
      SumIgnoresAbove(users, k, u, ofTotal, hi - 1);
    }
  }

  /** Replacing one row changes each sum by exactly the difference of that row's contributions. */
  lemma {:induction false} SumAfterRowChange(users: map<int, User>, k: int, u: User, ofTotal: bool, hi: int)
    requires k in users && 0 < k <= hi
    ensures SumQueue(users[k := u], ofTotal, hi)
         == SumQueue(users, ofTotal, hi) - Contribution(users[k], ofTotal) + Contribution(u, ofTotal)
    decreases hi
  {
    if hi == k {
      SumIgnoresAbove(users, k, u, ofTotal, hi - 1);
    } else {
      SumAfterRowChange(users, k, u, ofTotal, hi - 1);
    }
  }

  /**
   * Setting a doctor's counters through `update_doctor_status` moves the queue sums by
   * exactly the change in that doctor's counters.
   */
  lemma QueueAfterCounterUpdate(users: map<int, User>, d: int, cur: Option<int>, tot: Option<int>, hi: int)
    requires d in users && 0 < d <= hi && users[d].role == DoctorRole
    ensures var after := ApplyStatusUpdate(users, Some(d), Absent, Given(cur), Given(tot));
      SumQueue(after, false, hi) == SumQueue(users, false, hi) - users[d].queueCurrent.GetOr(0) + cur.GetOr(0)
      && SumQueue(after, true, hi) == SumQueue(users, true, hi) - users[d].queueTotal.GetOr(0) + tot.GetOr(0)
  {
    var after := ApplyStatusUpdate(users, Some(d), Absent, Given(cur), Given(tot));
    var v := after[d];
    assert after == users[d := v];
    SumAfterRowChange(users, d, v, false, hi);
    SumAfterRowChange(users, d, v, true, hi);
  }

  /** With no doctor rows the queue reads as empty: both sums and the wait are 0. */
  lemma {:induction false} NoDoctorsNoQueue(users: map<int, User>, hi: int)
    requires forall id | id in users :: users[id].role != DoctorRole
    ensures QueueStatus(users, hi) == QueueReply(0, 0, 0)
    decreases hi
  {
    if hi > 0 {
      NoDoctorsNoQueue(users, hi - 1);
    }
  }

  /** The freshly seeded database has six doctors at 0/0, so the queue reads as empty. */
  lemma SeedQueueEmpty()
    ensures QueueStatus(SeedUsers(), 7) == QueueReply(0, 0, 0)
  {
    var u := SeedUsers();
    assert forall id | id in u :: Contribution(u[id], false) == 0 && Contribution(u[id], true) == 0;
    assert SumQueue(u, false, 7) == 0 && SumQueue(u, true, 7) == 0 by {
      ZeroContributionsSumZero(u, 7);
    }
  }

  lemma {:induction false} ZeroContributionsSumZero(users: map<int, User>, hi: int)
    requires forall id | id in users :: Contribution(users[id], false) == 0 && Contribution(users[id], true) == 0
    ensures SumQueue(users, false, hi) == 0 && SumQueue(users, true, hi) == 0
    decreases hi
  {
    if hi > 0 {
      ZeroContributionsSumZero(users, hi - 1);
    }
  }
}
