/**
 * Attendance analytics of the api backend (`AnalyticsService`): the
 * dashboard overview, one Sonta Head's record, one meeting's statistics
 * with its check-in timeline, and the average attendance rate.
 *
 * The tables are sequences of rows: `meetings` for the meetings table and
 * `records` for attendance. Rates are computed over exact reals, where
 * JavaScript divides doubles. A date range in the query is inclusive at
 * both ends (`Between`) and applies only when both ends are given.
 */
module Analytics {
  import opened Wrappers
  import opened Strings
  import Seqs
  import FaceMatch
  import Meetings
  import SontaHeads
  import Attendance

  type Record = Attendance.Record
  type Meeting = Meetings.Meeting

  const MinuteMs := 60000
  const BucketMinutes := 15
  const RecentLimit := 10

  // ---------------------------------------------------------------------
  // Check-in timeline
  // ---------------------------------------------------------------------

  /**
   * `Math.floor(Math.floor(Δ / 60000) / 15) * 15` for a check-in `Δ`
   * milliseconds after the start: the start of its quarter hour, in
   * minutes. Flooring goes toward minus infinity, so a check-in before
   * the start lands in a negative bucket.
   */
  function Bucket(at: int, start: int): (b: int)
    ensures b % BucketMinutes == 0
    ensures b * MinuteMs <= at - start < (b + BucketMinutes) * MinuteMs
  {
    var minutes := (at - start) / MinuteMs;
    minutes / BucketMinutes * BucketMinutes
  }

  /** One entry of the `intervals` map: a bucket and how many check-ins fell in it. */
  datatype Slot = Slot(bucket: int, count: nat)

  predicate Ascending(t: seq<Slot>) {
    forall i, j :: 0 <= i < j < |t| ==> t[i].bucket < t[j].bucket
  }

  predicate Occupied(t: seq<Slot>) {
    forall i :: 0 <= i < |t| ==> t[i].count >= 1
  }

  /** Every bucket of `t` lies above `lo`. */
  predicate Above(t: seq<Slot>, lo: int) {
    forall i :: 0 <= i < |t| ==> t[i].bucket > lo
  }

  /** The check-ins `t` records for bucket `b`. */
  function CountIn(t: seq<Slot>, b: int): nat
    decreases |t|
  {
    if |t| == 0 then 0 else (if t[0].bucket == b then t[0].count else 0) + CountIn(t[1..], b)
  }

  function Total(t: seq<Slot>): nat
    decreases |t|
  {
    if |t| == 0 then 0 else t[0].count + Total(t[1..])
  }

  /** `intervals.set(b, (intervals.get(b) || 0) + 1)`, on a list kept in bucket order. */
  function Add(t: seq<Slot>, b: int): (r: seq<Slot>)
    ensures forall k :: CountIn(r, k) == CountIn(t, k) + (if k == b then 1 else 0)
    ensures Total(r) == Total(t) + 1
    decreases |t|
  {
    if |t| == 0 then [Slot(b, 1)]
    else if t[0].bucket == b then
      var r := [Slot(b, t[0].count + 1)] + t[1..];
      assert r[1..] == t[1..];
      r
    else if b < t[0].bucket then
      var r := [Slot(b, 1)] + t;
      assert r[1..] == t;
      r
    else
      var rest := Add(t[1..], b);
      var r := [t[0]] + rest;
      assert r[1..] == rest;
      r
  }

  /** Adding a check-in keeps every bucket above any bound the new bucket exceeds. */
  lemma {:induction false} AddKeepsAbove(t: seq<Slot>, b: int, lo: int)
    requires Above(t, lo) && b > lo
    ensures Above(Add(t, b), lo)
    decreases |t|
  {
    var r := Add(t, b);
    if |t| > 0 && b < t[0].bucket {
      assert forall i :: 1 <= i < |r| ==> r[i] == t[i - 1];
    } else if |t| > 0 && b > t[0].bucket {
      assert Above(t[1..], lo);
      AddKeepsAbove(t[1..], b, lo);
      assert r == [t[0]] + Add(t[1..], b);
    }
  }

  /** Adding a check-in keeps every slot occupied. */
  lemma {:induction false} AddKeepsOccupied(t: seq<Slot>, b: int)
    requires Occupied(t)
    ensures Occupied(Add(t, b))
    decreases |t|
  {
    if |t| > 0 && b > t[0].bucket {
      assert Occupied(t[1..]);
      AddKeepsOccupied(t[1..], b);
      assert Add(t, b) == [t[0]] + Add(t[1..], b);
    }
  }

  /** A slot below every bucket of an ascending list can go in front of it. */
  lemma ConsAscending(x: Slot, rest: seq<Slot>)
    requires Ascending(rest) && Above(rest, x.bucket)
    ensures Ascending([x] + rest)
  {
    var r := [x] + rest;
    forall i, j | 0 <= i < j < |r| ensures r[i].bucket < r[j].bucket {
      assert r[j] == rest[j - 1];
      if i > 0 {
        assert r[i] == rest[i - 1];
      }
    }
  }

  /** The tail of an ascending list is ascending and lies above its head. */
  lemma TailAscending(t: seq<Slot>)
    requires Ascending(t) && |t| > 0
    ensures Ascending(t[1..]) && Above(t[1..], t[0].bucket)
  {
    assert forall i :: 0 <= i < |t| - 1 ==> t[1..][i] == t[i + 1];
  }

  /** Adding a check-in keeps the list in strictly ascending bucket order. */
  lemma {:induction false} AddKeepsAscending(t: seq<Slot>, b: int)
    requires Ascending(t)
    ensures Ascending(Add(t, b))
    decreases |t|
  {
    if |t| > 0 {
      TailAscending(t);
      if b < t[0].bucket {
        assert Above(t, b) by {
          assert forall i :: 0 < i < |t| ==> t[i] == t[1..][i - 1];
        }
        ConsAscending(Slot(b, 1), t);
      } else if b == t[0].bucket {
        ConsAscending(Slot(b, t[0].count + 1), t[1..]);
      } else {
        AddKeepsAscending(t[1..], b);
        AddKeepsAbove(t[1..], b, t[0].bucket);
        ConsAscending(t[0], Add(t[1..], b));
      }
    }
  }

  /** The `intervals` map built from a list of buckets, in bucket order (the sort of the source). */
  function Tally(bs: seq<int>): (t: seq<Slot>)
    ensures Ascending(t) && Occupied(t)
    ensures Total(t) == |bs|
    ensures forall k :: CountIn(t, k) == multiset(bs)[k]
    decreases |bs|
  {
    if |bs| == 0 then []
    else
      var init := bs[..|bs| - 1];
      assert bs == init + [bs[|bs| - 1]];
      AddKeepsAscending(Tally(init), bs[|bs| - 1]);
      AddKeepsOccupied(Tally(init), bs[|bs| - 1]);
      Add(Tally(init), bs[|bs| - 1])
  }

  /** In a list with distinct buckets, a bucket's count is its slot's count. */
  lemma {:induction false} CountInSlot(t: seq<Slot>, i: nat)
    requires Ascending(t) && i < |t|
    ensures CountIn(t, t[i].bucket) == t[i].count
    decreases |t|
  {
    if i == 0 {
      CountInMissing(t[1..], t[0].bucket);
    } else {
      CountInSlot(t[1..], i - 1);
    }
  }

  lemma {:induction false} CountInMissing(t: seq<Slot>, b: int)
    requires Ascending(t) && Above(t, b)
    ensures CountIn(t, b) == 0
    decreases |t|
  {
    if |t| > 0 {
      CountInMissing(t[1..], b);
    }
  }

  /** A bucket with check-ins has a slot. */
  lemma {:induction false} CountInFound(t: seq<Slot>, b: int)
    requires CountIn(t, b) > 0
    ensures exists i :: 0 <= i < |t| && t[i].bucket == b
    decreases |t|
  {
    if t[0].bucket != b {
      CountInFound(t[1..], b);
      var i :| 0 <= i < |t[1..]| && t[1..][i].bucket == b;
      assert t[i + 1].bucket == b;
    }
  }

  /**
   * One line of the timeline. The source's `time` text is a function of
   * the bucket, `Label(p.bucket)`; the line keeps the bucket it is rendered from.
   */
  datatype Point = Point(bucket: int, count: nat, cumulative: nat)

  /** `+${interval}min`: the bucket's minutes between '+' and "min". */
  function Label(b: int): (l: string)
    ensures |l| >= 5 && l[0] == '+' && l[|l| - 3..] == "min"
    ensures b >= 0 <==> IsDigit(l[1])
  {
    var l := "+" + Signed(b) + "min";
    assert l[1] == Signed(b)[0];
    l
  }

  /** Different buckets get different labels. */
  lemma LabelInjective(a: int, b: int)
    requires Label(a) == Label(b)
    ensures a == b
  {
    var la, lb := Label(a), Label(b);
    assert Signed(a) == la[1..|la| - 3];
    assert Signed(b) == lb[1..|lb| - 3];
    SignedInjective(a, b);
  }

  /** The running totals `acc + t[0].count`, `acc + t[0].count + t[1].count`, ... */
  function Sums(t: seq<Slot>, acc: nat): (s: seq<nat>)
    ensures |s| == |t|
    decreases |t|
  {
    if |t| == 0 then [] else [acc + t[0].count] + Sums(t[1..], acc + t[0].count)
  }

  /** Over occupied slots every running total exceeds the starting value. */
  lemma {:induction false} SumsAbove(t: seq<Slot>, acc: nat, k: nat)
    requires Occupied(t) && k < |t|
    ensures Sums(t, acc)[k] > acc
    decreases k
  {
    if k > 0 {
      assert Occupied(t[1..]);
      SumsAbove(t[1..], acc + t[0].count, k - 1);
    }
  }

  /** Over occupied slots the running totals strictly increase. */
  lemma {:induction false} SumsGrow(t: seq<Slot>, acc: nat, i: nat, j: nat)
    requires Occupied(t) && i < j < |t|
    ensures Sums(t, acc)[i] < Sums(t, acc)[j]
    decreases i
  {
    assert Occupied(t[1..]);
    if i == 0 {
      SumsAbove(t[1..], acc + t[0].count, j - 1);
    } else {
      SumsGrow(t[1..], acc + t[0].count, i - 1, j - 1);
    }
  }

  /** Each running total is the one before plus the slot's count. */
  lemma {:induction false} SumsStep(t: seq<Slot>, acc: nat, i: nat)
    requires 0 < i < |t|
    ensures Sums(t, acc)[i] == Sums(t, acc)[i - 1] + t[i].count
    decreases i
  {
    if i > 1 {
      SumsStep(t[1..], acc + t[0].count, i - 1);
    }
  }

  /** The last running total is the starting value plus the total. */
  lemma {:induction false} SumsLast(t: seq<Slot>, acc: nat)
    requires |t| > 0
    ensures Sums(t, acc)[|t| - 1] == acc + Total(t)
    decreases |t|
  {
    if |t| > 1 {
      SumsLast(t[1..], acc + t[0].count);
    }
  }

  /** The running sum over the sorted slots, starting from `acc`. */
  function Running(t: seq<Slot>, acc: nat): (r: seq<Point>)
    ensures |r| == |t|
    ensures forall i :: 0 <= i < |t| ==> r[i].bucket == t[i].bucket && r[i].count == t[i].count
  {
    var sums := Sums(t, acc);
    seq(|t|, i requires 0 <= i < |t| => Point(t[i].bucket, t[i].count, sums[i]))
  }

  /** The first line carries `acc` plus the first count, the last `acc` plus the total. */
  lemma RunningEnds(t: seq<Slot>, acc: nat)
    requires |t| > 0
    ensures Running(t, acc)[0].cumulative == acc + t[0].count
    ensures Running(t, acc)[|t| - 1].cumulative == acc + Total(t)
  {
    SumsLast(t, acc);
  }

  /** Each later line adds exactly its slot's count to the line before. */
  lemma RunningStep(t: seq<Slot>, acc: nat, i: nat)
    requires 0 < i < |t|
    ensures Running(t, acc)[i].cumulative == Running(t, acc)[i - 1].cumulative + t[i].count
  {
    SumsStep(t, acc, i);
  }

  /** Over occupied slots the cumulative strictly increases. */
  lemma RunningGrows(t: seq<Slot>, acc: nat, i: nat, j: nat)
    requires Occupied(t) && i < j < |t|
    ensures Running(t, acc)[i].cumulative < Running(t, acc)[j].cumulative
  {
    SumsGrow(t, acc, i, j);
  }

  /** The bucket of every check-in, relative to the meeting's actual start. */
  function Buckets(records: seq<Record>, start: int): (bs: seq<int>)
    ensures |bs| == |records|
    ensures forall i :: 0 <= i < |records| ==> bs[i] == Bucket(records[i].at, start)
  {
    seq(|records|, i requires 0 <= i < |records| => Bucket(records[i].at, start))
  }

  /** The slots of a started meeting's check-ins. */
  function Slots(records: seq<Record>, start: int): seq<Slot> {
    Tally(Buckets(records, start))
  }

  /** `calculateCheckInTimeline`: nothing for a meeting that never started. */
  function Timeline(records: seq<Record>, m: Meeting): (r: seq<Point>)
    ensures m.actualStart.None? ==> r == []
  {
    match m.actualStart
    case None => []
    case Some(start) => Running(Slots(records, start), 0)
  }

  /** The check-ins among `records` that fall in bucket `b`. */
  function InBucket(records: seq<Record>, start: int, b: int): nat {
    multiset(Buckets(records, start))[b]
  }

  /** Each slot counts exactly the check-ins of its bucket, and that bucket is a quarter hour. */
  lemma SlotCountsItsBucket(records: seq<Record>, start: int, i: nat)
    requires i < |Slots(records, start)|
    ensures var t := Slots(records, start);
            t[i].count == InBucket(records, start, t[i].bucket) >= 1 && t[i].bucket % BucketMinutes == 0
  {
    var bs := Buckets(records, start);
    var t := Slots(records, start);
    CountInSlot(t, i);
    assert t[i].bucket in multiset(bs);
    var n :| 0 <= n < |bs| && bs[n] == t[i].bucket;
  }

  /** Every check-in's bucket has a slot. */
  lemma CheckInHasSlot(records: seq<Record>, start: int, k: nat)
    requires k < |records|
    ensures exists i :: 0 <= i < |Slots(records, start)| && Slots(records, start)[i].bucket == Bucket(records[k].at, start)
  {
    var bs := Buckets(records, start);
    assert bs[k] in multiset(bs);
    CountInFound(Slots(records, start), bs[k]);
  }

  /**
   * The slots of a started meeting: buckets that are multiples of 15 in
   * increasing order, each counting exactly the check-ins it holds, and
   * every check-in's bucket among them.
   */
  lemma SlotsShape(records: seq<Record>, start: int)
    ensures var t := Slots(records, start);
            && (forall i, j :: 0 <= i < j < |t| ==> t[i].bucket < t[j].bucket)
            && (forall i :: 0 <= i < |t| ==>
                  t[i].count == InBucket(records, start, t[i].bucket) >= 1 && t[i].bucket % BucketMinutes == 0)
            && (forall k :: 0 <= k < |records| ==>
                  exists i :: 0 <= i < |t| && t[i].bucket == Bucket(records[k].at, start))
            && Total(t) == |records|
  {
    var t := Slots(records, start);
    forall i | 0 <= i < |t|
      ensures t[i].count == InBucket(records, start, t[i].bucket) >= 1 && t[i].bucket % BucketMinutes == 0
    {
      SlotCountsItsBucket(records, start, i);
    }
    forall k | 0 <= k < |records|
      ensures exists i :: 0 <= i < |t| && t[i].bucket == Bucket(records[k].at, start)
    {
      CheckInHasSlot(records, start, k);
    }
  }

  /** A started meeting's timeline is the running sum of its slots. */
  lemma TimelineOfStarted(records: seq<Record>, m: Meeting)
    requires m.actualStart.Some?
    ensures var t := Slots(records, m.actualStart.value);
            && Timeline(records, m) == Running(t, 0)
            && Occupied(t) && Total(t) == |records|
  {
  }

  /** The timeline of a started meeting has one line per slot, with the slot's bucket and count. */
  lemma TimelineLines(records: seq<Record>, m: Meeting)
    requires m.actualStart.Some?
    ensures var t := Slots(records, m.actualStart.value);
            var r := Timeline(records, m);
            && |r| == |t|
            && forall i :: 0 <= i < |t| ==> r[i].bucket == t[i].bucket && r[i].count == t[i].count
  {
    TimelineOfStarted(records, m);
  }

  /**
   * The running total of a started meeting's timeline climbs strictly
   * and ends at the number of check-ins.
   */
  lemma TimelineClimbs(records: seq<Record>, m: Meeting)
    requires m.actualStart.Some?
    ensures var r := Timeline(records, m);
            && (forall i, j :: 0 <= i < j < |r| ==> r[i].cumulative < r[j].cumulative)
            && (|records| > 0 ==> |r| > 0 && r[|r| - 1].cumulative == |records|)
  {
    var t := Slots(records, m.actualStart.value);
    TimelineOfStarted(records, m);
    RunningClimbs(t);
    if |t| == 0 {
      assert Total(t) == 0;
    }
  }

  /** Over occupied slots the running sum from 0 climbs strictly to the total. */
  lemma RunningClimbs(t: seq<Slot>)
    requires Occupied(t)
    ensures var r := Running(t, 0);
            && (forall i, j :: 0 <= i < j < |r| ==> r[i].cumulative < r[j].cumulative)
            && (|t| > 0 ==> r[|r| - 1].cumulative == Total(t))
  {
    var r := Running(t, 0);
    forall i, j | 0 <= i < j < |r| ensures r[i].cumulative < r[j].cumulative {
      RunningGrows(t, 0, i, j);
    }
    if |t| > 0 {
      RunningEnds(t, 0);
    }
  }

  // ---------------------------------------------------------------------
  // Counting helpers
  // ---------------------------------------------------------------------

  /** A query's optional date range. */
  datatype Query = Query(startDate: Option<int>, endDate: Option<int>)

  /** `Between(start, end)`, applied only when both ends are given. */
  predicate InPeriod(q: Query, t: int) {
    q.startDate.Some? && q.endDate.Some? ==> q.startDate.value <= t <= q.endDate.value
  }

  function ForMeeting(meetingId: string): Record -> bool {
    (r: Record) => r.meetingId == meetingId
  }

  function ForHeadInPeriod(headId: string, q: Query): Record -> bool {
    (r: Record) => r.sontaHeadId == headId && InPeriod(q, r.at)
  }

  function RecordInPeriod(q: Query): Record -> bool {
    (r: Record) => InPeriod(q, r.at)
  }

  function MeetingInPeriod(q: Query): Meeting -> bool {
    (m: Meeting) => InPeriod(q, m.scheduledStart)
  }

  /** `{ ...whereClause, isLate: true }`. */
  function LateInPeriod(q: Query): Record -> bool {
    (r: Record) => InPeriod(q, r.at) && r.isLate
  }

  /** `{ ...whereClause, checkInMethod: 'manual_admin' }`. */
  function ManualInPeriod(q: Query): Record -> bool {
    (r: Record) => InPeriod(q, r.at) && r.checkInMethod == Attendance.ManualAdmin
  }

  /** `part / whole * 100`, or 0 when `whole` is not positive. */
  function Percent(part: int, whole: int): (p: real)
    ensures whole <= 0 ==> p == 0.0
    ensures whole > 0 && 0 <= part ==> p >= 0.0
    ensures whole > 0 && 0 <= part <= whole ==> p <= 100.0
  {
    if whole > 0 then
      FaceMatch.DivAtMost(part as real, whole as real, 1.0);
      part as real / whole as real * 100.0
    else 0.0
  }

  /** `meeting.expectedAttendees || 0`. */
  function Expected(m: Meeting): (e: int)
    ensures Meetings.Truthy(m.expectedAttendees) ==> e == m.expectedAttendees.value
    ensures !Meetings.Truthy(m.expectedAttendees) ==> e == 0
  {
    if Meetings.Truthy(m.expectedAttendees) then m.expectedAttendees.value else 0
  }

  /** `findOne({ where: { id } })` over the meetings table. */
  function FindMeeting(meetings: seq<Meeting>, id: string): (o: Option<nat>)
    ensures o.Some? ==> o.value < |meetings| && meetings[o.value].id == id
    ensures o.None? <==> forall i :: 0 <= i < |meetings| ==> meetings[i].id != id
    decreases |meetings|
  {
    if |meetings| == 0 then None
    else if meetings[0].id == id then Some(0)
    else
      match FindMeeting(meetings[1..], id)
      case None => None
      case Some(i) => Some(i + 1)
  }

  // ---------------------------------------------------------------------
  // Meeting analytics
  // ---------------------------------------------------------------------

  datatype MeetingStatistics = MeetingStatistics(
    expectedAttendees: int,
    actualAttendees: nat,
    attendanceRate: real,
    onTime: int,
    late: nat,
    lateRate: real,
    manualCheckIns: nat,
    facialRecognitionCheckIns: int)

  datatype MeetingReport = MeetingReport(meeting: Meeting, statistics: MeetingStatistics,
                                         timeline: seq<Point>, attendance: seq<Record>)

  /**
   * The statistics block for a meeting's check-ins against its expected
   * attendance: the check-ins split into on time and late, and into manual
   * and facial; a rate with a zero divisor is 0.
   */
  function MeetingStatisticsOf(attendance: seq<Record>, expected: int): (s: MeetingStatistics)
    ensures s.expectedAttendees == expected && s.actualAttendees == |attendance|
    ensures s.late == |Seqs.Keep(attendance, Attendance.Late)|
    ensures s.onTime == |Seqs.Keep(attendance, Attendance.OnTime)|
    ensures s.manualCheckIns == |Seqs.Keep(attendance, Attendance.Manual)|
    ensures s.facialRecognitionCheckIns == |Seqs.Keep(attendance, Attendance.Facial)|
    ensures s.onTime + s.late == s.actualAttendees
    ensures s.manualCheckIns + s.facialRecognitionCheckIns == s.actualAttendees
    ensures s.attendanceRate == Percent(s.actualAttendees, s.expectedAttendees)
    ensures s.lateRate == Percent(s.late, s.actualAttendees)
    ensures s.expectedAttendees <= 0 ==> s.attendanceRate == 0.0
    ensures s.actualAttendees == 0 ==> s.lateRate == 0.0
    ensures 0.0 <= s.lateRate <= 100.0
  {
    var actual := |attendance|;
    var late := |Seqs.Keep(attendance, Attendance.Late)|;
    var manual := |Seqs.Keep(attendance, Attendance.Manual)|;
    Seqs.KeepSplits(attendance, Attendance.Late, Attendance.OnTime);
    Seqs.KeepSplits(attendance, Attendance.Manual, Attendance.Facial);
    MeetingStatistics(expected, actual, Percent(actual, expected), actual - late, late,
                      Percent(late, actual), manual, actual - manual)
  }

  /**
   * `getMeetingAnalytics`: NotFound for an unknown meeting. Otherwise the
   * meeting's check-ins ordered oldest first, their statistics against
   * the meeting's expected attendance, and their timeline.
   */
  function MeetingAnalytics(meetings: seq<Meeting>, records: seq<Record>, meetingId: string): (r: Result<MeetingReport, HttpError>)
    ensures FindMeeting(meetings, meetingId).None? <==> r.Err?
    ensures r.Err? ==> r.error == NotFound("Meeting not found")
    ensures r.Ok? ==> r.value.meeting.id == meetingId
    ensures r.Ok? ==> forall x :: x in r.value.attendance <==> x in records && x.meetingId == meetingId
    ensures r.Ok? ==> multiset(r.value.attendance) == multiset(Seqs.Keep(records, ForMeeting(meetingId)))
    ensures r.Ok? ==> OldestFirst(r.value.attendance)
    ensures r.Ok? ==> r.value.statistics == MeetingStatisticsOf(r.value.attendance, Expected(r.value.meeting))
    ensures r.Ok? ==> r.value.timeline == Timeline(r.value.attendance, r.value.meeting)
  {
    match FindMeeting(meetings, meetingId)
    case None => Err(NotFound("Meeting not found"))
    case Some(i) =>
      var m := meetings[i];
      var kept := Seqs.Keep(records, ForMeeting(meetingId));
      var attendance := SortOldestFirst(kept);
      assert forall x :: x in attendance <==> x in multiset(attendance);
      assert forall x :: x in kept <==> x in multiset(kept);
      Ok(MeetingReport(m, MeetingStatisticsOf(attendance, Expected(m)), Timeline(attendance, m), attendance))
  }

  /** Check-ins ordered by check-in time, oldest first. */
  predicate OldestFirst(s: seq<Record>) {
    Seqs.Ascending(s, Attendance.CheckInTime)
  }

  /** `order: { checkInTimestamp: 'ASC' }`. */
  function SortOldestFirst(s: seq<Record>): (r: seq<Record>)
    ensures forall i, j :: 0 <= i < j < |r| ==> r[i].at <= r[j].at
    ensures multiset(r) == multiset(s)
  {
    Seqs.SortAscending(s, Attendance.CheckInTime)
  }

  /** The meeting's statistics count exactly the check-ins the attendance roster lists. */
  lemma MeetingAnalyticsCountsRoster(meetings: seq<Meeting>, records: seq<Record>, meetingId: string)
    requires FindMeeting(meetings, meetingId).Some?
    ensures var rep := MeetingAnalytics(meetings, records, meetingId).value;
            var roster := Attendance.MeetingRecords(records, meetingId);
            && multiset(rep.attendance) == multiset(roster)
            && rep.statistics.actualAttendees == |roster|
            && rep.statistics.late == |Seqs.Keep(roster, Attendance.Late)|
            && rep.statistics.manualCheckIns == |Seqs.Keep(roster, Attendance.Manual)|
  {
    var rep := MeetingAnalytics(meetings, records, meetingId).value;
    var roster := Attendance.MeetingRecords(records, meetingId);
    Seqs.KeepSame(records, ForMeeting(meetingId), (a: Record) => a.meetingId == meetingId);
    assert multiset(rep.attendance) == multiset(roster);
    Seqs.KeepPermutation(rep.attendance, roster, Attendance.Late);
    Seqs.KeepPermutation(rep.attendance, roster, Attendance.Manual);
    assert |multiset(rep.attendance)| == |rep.attendance| && |multiset(roster)| == |roster|;
  }

  // ---------------------------------------------------------------------
  // Sonta Head analytics
  // ---------------------------------------------------------------------

  /** Check-ins ordered by check-in time, newest first. */
  predicate NewestFirst(s: seq<Record>) {
    Seqs.Descending(s, Attendance.CheckInTime)
  }

  /** `order: { checkInTimestamp: 'DESC' }`. */
  function SortNewestFirst(s: seq<Record>): (r: seq<Record>)
    ensures forall i, j :: 0 <= i < j < |r| ==> r[i].at >= r[j].at
    ensures multiset(r) == multiset(s)
  {
    Seqs.SortDescending(s, Attendance.CheckInTime)
  }

  datatype HeadStatistics = HeadStatistics(
    totalMeetings: nat,
    attended: nat,
    missed: int,
    attendanceRate: real,
    onTime: int,
    late: nat,
    lateRate: real)

  datatype HeadReport = HeadReport(head: SontaHeads.SontaHead, statistics: HeadStatistics, recentAttendance: seq<Record>)

  /** `getMeetingsCount`: the meetings scheduled within the query's period. */
  function MeetingsCount(meetings: seq<Meeting>, q: Query): (n: nat)
    ensures n <= |meetings|
  {
    |Seqs.Keep(meetings, MeetingInPeriod(q))|
  }

  /** The statistics block for a head's check-ins `attended` against `total` meetings. */
  function HeadStatisticsOf(attended: seq<Record>, total: nat): (s: HeadStatistics)
    ensures s.totalMeetings == total && s.attended == |attended|
    ensures s.missed == s.totalMeetings - s.attended
    ensures s.late == |Seqs.Keep(attended, Attendance.Late)|
    ensures s.onTime == |Seqs.Keep(attended, Attendance.OnTime)|
    ensures s.onTime + s.late == s.attended
    ensures s.attendanceRate == Percent(s.attended, s.totalMeetings)
    ensures s.lateRate == Percent(s.late, s.attended)
    ensures s.totalMeetings == 0 ==> s.attendanceRate == 0.0
    ensures s.attended == 0 ==> s.lateRate == 0.0
    ensures 0.0 <= s.lateRate <= 100.0
  {
    var late := |Seqs.Keep(attended, Attendance.Late)|;
    Seqs.KeepSplits(attended, Attendance.Late, Attendance.OnTime);
    HeadStatistics(total, |attended|, total - |attended|, Percent(|attended|, total),
                   |attended| - late, late, Percent(late, |attended|))
  }

  /** `attendance.slice(0, 10)` of the check-ins ordered newest first. */
  function Recent(attended: seq<Record>): (r: seq<Record>)
    ensures |r| == if |attended| < RecentLimit then |attended| else RecentLimit
    ensures multiset(r) <= multiset(attended)
    ensures NewestFirst(r)
  {
    var sorted := SortNewestFirst(attended);
    if |sorted| < RecentLimit then sorted
    else
      var r := sorted[..RecentLimit];
      assert sorted == r + sorted[RecentLimit..];
      assert multiset(sorted) == multiset(r) + multiset(sorted[RecentLimit..]);
      assert forall i, j :: 0 <= i < j < |r| ==> r[i] == sorted[i] && r[j] == sorted[j];
      r
  }

  /** No check-in left out of the recent list is newer than one in it. */
  lemma RecentAreNewest(attended: seq<Record>, x: Record, y: Record)
    requires x in Recent(attended) && y in attended && y !in Recent(attended)
    ensures x.at >= y.at
  {
    var sorted := SortNewestFirst(attended);
    var r := Recent(attended);
    assert r == sorted[..|r|];
    assert y in multiset(sorted);
    var i :| 0 <= i < |r| && r[i] == x;
    var j :| 0 <= j < |sorted| && sorted[j] == y;
    assert j >= |r|;
  }

  /**
   * `getSontaHeadAnalytics`: NotFound for an unknown Sonta Head. Otherwise
   * the head's check-ins within the period against the number of meetings
   * scheduled in the period (the counts do not depend on the newest-first
   * order of the query), and the newest ten check-ins.
   */
  function SontaHeadAnalytics(heads: seq<SontaHeads.SontaHead>, meetings: seq<Meeting>, records: seq<Record>,
                              headId: string, q: Query): (r: Result<HeadReport, HttpError>)
    ensures SontaHeads.IndexOf(heads, headId).None? <==> r.Err?
    ensures r.Err? ==> r.error == NotFound("Sonta Head not found")
    ensures r.Ok? ==>
      var attended := Seqs.Keep(records, ForHeadInPeriod(headId, q));
      && r.value.head.id == headId
      && r.value.statistics == HeadStatisticsOf(attended, MeetingsCount(meetings, q))
      && r.value.recentAttendance == Recent(attended)
  {
    match SontaHeads.IndexOf(heads, headId)
    case None => Err(NotFound("Sonta Head not found"))
    case Some(i) =>
      var attended := Seqs.Keep(records, ForHeadInPeriod(headId, q));
      Ok(HeadReport(heads[i], HeadStatisticsOf(attended, MeetingsCount(meetings, q)), Recent(attended)))
  }

  /**
   * `missed` is not clamped: a Sonta Head who checked in during the
   * period to a meeting scheduled outside it has more attendances than
   * meetings, and a negative number of missed meetings.
   */
  lemma MissedCanBeNegative(h: SontaHeads.SontaHead, r: Record)
    requires r.sontaHeadId == h.id
    ensures SontaHeadAnalytics([h], [], [r], h.id, Query(None, None)).Ok?
    ensures SontaHeadAnalytics([h], [], [r], h.id, Query(None, None)).value.statistics.missed == -1
  {
    assert Seqs.Keep([r], ForHeadInPeriod(h.id, Query(None, None))) == [r];
  }

  // ---------------------------------------------------------------------
  // Average attendance rate and overview
  // ---------------------------------------------------------------------

  /** One meeting's attendance rate; a meeting without an expected head count contributes 0. */
  function MeetingRate(m: Meeting, records: seq<Record>): (p: real)
    ensures p >= 0.0
    ensures Expected(m) <= 0 ==> p == 0.0
  {
    Percent(|Seqs.Keep(records, ForMeeting(m.id))|, Expected(m))
  }

  function SumRates(ms: seq<Meeting>, records: seq<Record>): (s: real)
    ensures s >= 0.0
    decreases |ms|
  {
    if |ms| == 0 then 0.0 else SumRates(ms[..|ms| - 1], records) + MeetingRate(ms[|ms| - 1], records)
  }

  /** The mean rate over a list of meetings, 0 for none. */
  function MeanRate(ms: seq<Meeting>, records: seq<Record>): (a: real)
    ensures |ms| == 0 ==> a == 0.0
    ensures a >= 0.0
  {
    if |ms| == 0 then 0.0 else SumRates(ms, records) / |ms| as real
  }

  /** `calculateAverageAttendanceRate`: the mean rate of the meetings scheduled in the period. */
  function AverageAttendanceRate(meetings: seq<Meeting>, records: seq<Record>, q: Query): (a: real)
    ensures MeetingsCount(meetings, q) == 0 ==> a == 0.0
    ensures a >= 0.0
  {
    MeanRate(Seqs.Keep(meetings, MeetingInPeriod(q)), records)
  }

  /**
   * A meeting without an expected head count adds nothing to the sum but
   * still counts in the divisor, so it pulls the average down.
   */
  lemma UnexpectedMeetingDilutes(ms: seq<Meeting>, m: Meeting, records: seq<Record>)
    requires Expected(m) <= 0
    ensures MeanRate(ms + [m], records) * (|ms| + 1) as real == MeanRate(ms, records) * |ms| as real
  {
    var all := ms + [m];
    var total := SumRates(ms, records);
    assert all[..|all| - 1] == ms;
    assert SumRates(all, records) == total;
    QuotientTimes(total, (|ms| + 1) as real);
    if |ms| > 0 {
      QuotientTimes(total, |ms| as real);
    }
  }

  /** Dividing by a non-zero count and multiplying back gives the sum. */
  lemma QuotientTimes(s: real, d: real)
    requires d != 0.0
    ensures s / d * d == s
  {
  }

  /** If no meeting has more check-ins than expected, the average is a true percentage. */
  lemma {:induction false} AverageAtMostHundred(ms: seq<Meeting>, records: seq<Record>)
    requires forall m :: m in ms ==> |Seqs.Keep(records, ForMeeting(m.id))| <= Expected(m) || Expected(m) <= 0
    ensures SumRates(ms, records) <= 100.0 * |ms| as real
    ensures MeanRate(ms, records) <= 100.0
    decreases |ms|
  {
    if |ms| > 0 {
      var init := ms[..|ms| - 1];
      assert forall m :: m in init ==> m in ms;
      AverageAtMostHundred(init, records);
      assert ms[|ms| - 1] in ms;
      FaceMatch.DivAtMost(SumRates(ms, records), |ms| as real, 100.0);
    }
  }

  datatype Overview = Overview(
    totalMeetings: nat,
    totalAttendance: nat,
    totalSontaHeads: nat,
    averageAttendanceRate: int,
    lateArrivals: nat,
    manualCheckIns: nat,
    lateArrivalRate: real,
    manualCheckInRate: real)

  /**
   * `getOverview`: counts over the period, the number of active Sonta
   * Heads, and the late and manual shares of all check-ins, each 0 when
   * there are none. The average attendance rate is rounded.
   */
  function GetOverview(meetings: seq<Meeting>, records: seq<Record>, heads: seq<SontaHeads.SontaHead>, q: Query): (o: Overview)
    ensures o.totalMeetings == MeetingsCount(meetings, q)
    ensures o.totalAttendance == |Seqs.Keep(records, RecordInPeriod(q))| <= |records|
    ensures o.totalSontaHeads == |SontaHeads.Filter(heads, SontaHeads.Active)|
    ensures o.lateArrivals == |Seqs.Keep(Seqs.Keep(records, RecordInPeriod(q)), Attendance.Late)|
    ensures o.manualCheckIns == |Seqs.Keep(Seqs.Keep(records, RecordInPeriod(q)), Attendance.Manual)|
    ensures o.lateArrivals <= o.totalAttendance && o.manualCheckIns <= o.totalAttendance
    ensures o.lateArrivalRate == Percent(o.lateArrivals, o.totalAttendance)
    ensures o.manualCheckInRate == Percent(o.manualCheckIns, o.totalAttendance)
    ensures o.totalAttendance == 0 ==> o.lateArrivalRate == 0.0 && o.manualCheckInRate == 0.0
    ensures 0.0 <= o.lateArrivalRate <= 100.0 && 0.0 <= o.manualCheckInRate <= 100.0
    ensures o.averageAttendanceRate as real - 0.5 <= AverageAttendanceRate(meetings, records, q)
            < o.averageAttendanceRate as real + 0.5
    ensures o.averageAttendanceRate >= 0
  {
    var inPeriod := Seqs.Keep(records, RecordInPeriod(q));
    var total := |inPeriod|;
    var late := |Seqs.Keep(records, LateInPeriod(q))|;
    var manual := |Seqs.Keep(records, ManualInPeriod(q))|;
    Seqs.KeepKeep(records, RecordInPeriod(q), Attendance.Late, LateInPeriod(q));
    Seqs.KeepKeep(records, RecordInPeriod(q), Attendance.Manual, ManualInPeriod(q));
    Overview(MeetingsCount(meetings, q), total, |SontaHeads.Filter(heads, SontaHeads.Active)|,
             FaceMatch.Round(AverageAttendanceRate(meetings, records, q)), late, manual,
             Percent(late, total), Percent(manual, total))
  }
}
