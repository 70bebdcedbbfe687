/**
 * The meeting lifecycle and its QR codes (`MeetingsService` of the api
 * backend). Meetings move SCHEDULED -> ACTIVE -> ENDED, or to CANCELLED from
 * SCHEDULED or CANCELLED. Each meeting owns a list of QR records, of which at
 * most one is active; the active one is what a Sonta Head scans to check in.
 *
 * The repositories become the immutable `Store`; the clock is `now` in
 * milliseconds; HMAC-SHA256 is the parameter `mac`; generated ids, random
 * bytes and stored image paths arrive in a `QrSeed`.
 */
module Meetings {
  import opened Wrappers
  import opened Strings
  import QrToken
  import Base64
  import ImageStorage

  datatype MeetingStatus = Scheduled | Active | Ended | Cancelled
  datatype QrExpiryStrategy = UntilEnd | MaxScans | TimeBased

  /** The database spelling of a status, used in error messages. */
  function StatusName(s: MeetingStatus): string {
    match s
    case Scheduled => "scheduled"
    case Active => "active"
    case Ended => "ended"
    case Cancelled => "cancelled"
  }

  /** A status whose meeting may still hold an active QR code. */
  predicate Live(s: MeetingStatus) {
    s == Scheduled || s == Active
  }

  /** JavaScript truthiness of an optional number column: absent and 0 are falsy. */
  predicate Truthy(n: Option<int>) {
    n.Some? && n.value != 0
  }

  datatype Meeting = Meeting(
    id: string,
    title: string,
    description: Option<string>,
    locationName: string,
    locationAddress: Option<string>,
    latitude: real,
    longitude: real,
    radius: int,
    scheduledStart: int,
    scheduledEnd: int,
    actualStart: Option<int>,
    actualEnd: Option<int>,
    lateCutoffMinutes: Option<int>,
    strategy: QrExpiryStrategy,
    qrExpiryMinutes: Option<int>,
    qrMaxScans: Option<int>,
    status: MeetingStatus,
    expectedAttendees: Option<int>,
    createdBy: string)

  datatype QrCode = QrCode(
    id: string,
    meetingId: string,
    token: string,
    imagePath: string,
    scanCount: int,
    maxScans: Option<int>,
    isActive: bool,
    expiresAt: Option<int>,
    invalidatedAt: Option<int>,
    invalidatedBy: Option<string>)

  datatype Store = Store(meetings: map<string, Meeting>, qrs: seq<QrCode>)

  /** The fields of `CreateMeetingDto`, dates already parsed to milliseconds. */
  datatype MeetingForm = MeetingForm(
    title: string,
    description: Option<string>,
    locationName: string,
    locationAddress: Option<string>,
    latitude: real,
    longitude: real,
    radius: Option<int>,
    scheduledStart: int,
    scheduledEnd: int,
    lateCutoffMinutes: Option<int>,
    strategy: Option<QrExpiryStrategy>,
    qrExpiryMinutes: Option<int>,
    qrMaxScans: Option<int>,
    expectedAttendees: Option<int>)

  /** An update: every field optional; an absent field is left as it is. */
  datatype MeetingPatch = MeetingPatch(
    title: Option<string>,
    description: Option<string>,
    locationName: Option<string>,
    locationAddress: Option<string>,
    latitude: Option<real>,
    longitude: Option<real>,
    radius: Option<int>,
    scheduledStart: Option<int>,
    scheduledEnd: Option<int>,
    lateCutoffMinutes: Option<int>,
    strategy: Option<QrExpiryStrategy>,
    qrExpiryMinutes: Option<int>,
    qrMaxScans: Option<int>,
    expectedAttendees: Option<int>)

  /** What `generateQrCode` draws from outside: the new record id, 16 random bytes and the stored image path. */
  datatype QrSeed = QrSeed(qrId: string, random: seq<Base64.Byte>, imagePath: string)

  const DefaultRadius := 100
  const MinuteMs := 60000

  // ---------------------------------------------------------------------------
  // Counting active QR codes

  function ActiveCount(qrs: seq<QrCode>, m: string): nat
    decreases |qrs|
  {
    if |qrs| == 0 then 0
    else (if qrs[0].isActive && qrs[0].meetingId == m then 1 else 0) + ActiveCount(qrs[1..], m)
  }

  predicate ActiveFor(q: QrCode, m: string) {
    q.isActive && q.meetingId == m
  }

  lemma {:induction false} ActiveCountPointwise(a: seq<QrCode>, b: seq<QrCode>, m: string)
    requires |a| == |b|
    requires forall i :: 0 <= i < |a| ==> ActiveFor(a[i], m) == ActiveFor(b[i], m)
    ensures ActiveCount(a, m) == ActiveCount(b, m)
    decreases |a|
  {
    if |a| > 0 {
      ActiveCountPointwise(a[1..], b[1..], m);
    }
  }

  lemma {:induction false} ActiveCountZero(a: seq<QrCode>, m: string)
    ensures ActiveCount(a, m) == 0 <==> forall i :: 0 <= i < |a| ==> !ActiveFor(a[i], m)
    decreases |a|
  {
    if |a| > 0 {
      ActiveCountZero(a[1..], m);
      assert forall i :: 1 <= i < |a| ==> a[i] == a[1..][i - 1];
    }
  }

  lemma {:induction false} ActiveCountAppend(a: seq<QrCode>, q: QrCode, m: string)
    ensures ActiveCount(a + [q], m) == ActiveCount(a, m) + (if ActiveFor(q, m) then 1 else 0)
    decreases |a|
  {
    if |a| > 0 {
      assert (a + [q])[1..] == a[1..] + [q];
      ActiveCountAppend(a[1..], q, m);
    }
  }

  /** Two distinct active records of one meeting make the count at least two. */
  lemma {:induction false} TwoActiveCountTwo(a: seq<QrCode>, m: string, i: int, j: int)
    requires 0 <= i < j < |a| && ActiveFor(a[i], m) && ActiveFor(a[j], m)
    ensures ActiveCount(a, m) >= 2
    decreases |a|
  {
    if i > 0 {
      TwoActiveCountTwo(a[1..], m, i - 1, j - 1);
    } else {
      ActiveCountZero(a[1..], m);
      assert a[1..][j - 1] == a[j];
    }
  }

  // ---------------------------------------------------------------------------
  // The store invariant

  predicate TokensUnique(qrs: seq<QrCode>) {
    forall i, j :: 0 <= i < |qrs| && 0 <= j < |qrs| && qrs[i].token == qrs[j].token ==> i == j
  }

  /**
   * What the schema and the service together maintain: meetings are keyed by
   * their UUID, every QR belongs to a stored meeting (foreign key), QR tokens
   * are unique (`UQ_qr_codes_qr_token`), each meeting has at most one active
   * QR, and only a scheduled or active meeting has one.
   */
  predicate Valid(st: Store) {
    (forall k :: k in st.meetings ==> st.meetings[k].id == k && QrToken.IsUuidText(k))
    && (forall i :: 0 <= i < |st.qrs| ==> st.qrs[i].meetingId in st.meetings)
    && TokensUnique(st.qrs)
    && (forall k :: k in st.meetings ==> ActiveCount(st.qrs, k) <= 1)
    && (forall i :: 0 <= i < |st.qrs| && st.qrs[i].isActive ==>
          st.qrs[i].meetingId in st.meetings && Live(st.meetings[st.qrs[i].meetingId].status))
  }

  /** The status moves the service permits: a meeting never goes back to SCHEDULED. */
  predicate MayBecome(a: MeetingStatus, b: MeetingStatus) {
    a == b
    || (a == Scheduled && b == Active)
    || (a == Active && b == Ended)
    || ((a == Scheduled || a == Cancelled) && b == Cancelled)
  }

  /** Every meeting present before and after moved along `MayBecome`. */
  predicate Evolves(before: Store, after: Store) {
    forall k :: k in before.meetings && k in after.meetings ==>
      MayBecome(before.meetings[k].status, after.meetings[k].status)
  }

  // ---------------------------------------------------------------------------
  // QR generation

  /** The record `generateQrCode` saves for a meeting at time `now`. */
  function NewQr(m: Meeting, seed: QrSeed, now: nat, mac: string -> seq<Base64.Byte>): (q: QrCode)
    requires QrToken.IsUuidText(m.id)
    ensures q.meetingId == m.id && q.isActive && q.scanCount == 0
    ensures q.maxScans == (if m.strategy == MaxScans then m.qrMaxScans else None)
    ensures q.expiresAt.None? && q.invalidatedAt.None?
    ensures QrToken.CheckToken(q.token, mac) == QrToken.Signed(m.id)
  {
    QrToken.GeneratedTokenIsSigned(m.id, now, seed.random, mac);
    QrCode(seed.qrId, m.id, QrToken.Generate(m.id, now, seed.random, mac), seed.imagePath,
           0, if m.strategy == MaxScans then m.qrMaxScans else None, true, None, None, None)
  }

  predicate TokenFree(qrs: seq<QrCode>, token: string) {
    forall i :: 0 <= i < |qrs| ==> qrs[i].token != token
  }

  // ---------------------------------------------------------------------------
  // create

  /**
   * The meeting `create` builds from a form: the form's fields as given, a
   * falsy radius replaced by the default, the strategy defaulting to
   * UNTIL_END, no actual times yet, status SCHEDULED and its creator recorded.
   */
  function FromForm(f: MeetingForm, id: string, adminId: string): (m: Meeting)
    ensures m.id == id && m.createdBy == adminId && m.status == Scheduled
    ensures m.actualStart.None? && m.actualEnd.None?
    ensures m.title == f.title && m.description == f.description
    ensures m.locationName == f.locationName && m.locationAddress == f.locationAddress
    ensures m.latitude == f.latitude && m.longitude == f.longitude
    ensures m.scheduledStart == f.scheduledStart && m.scheduledEnd == f.scheduledEnd
    ensures Truthy(f.radius) ==> m.radius == f.radius.value
    ensures !Truthy(f.radius) ==> m.radius == DefaultRadius
    ensures f.strategy.Some? ==> m.strategy == f.strategy.value
    ensures f.strategy.None? ==> m.strategy == UntilEnd
    ensures m.lateCutoffMinutes == f.lateCutoffMinutes && m.qrExpiryMinutes == f.qrExpiryMinutes
    ensures m.qrMaxScans == f.qrMaxScans && m.expectedAttendees == f.expectedAttendees
  {
    Meeting(id, f.title, f.description, f.locationName, f.locationAddress, f.latitude, f.longitude,
            if Truthy(f.radius) then f.radius.value else DefaultRadius,
            f.scheduledStart, f.scheduledEnd, None, None, f.lateCutoffMinutes,
            f.strategy.GetOr(UntilEnd), f.qrExpiryMinutes, f.qrMaxScans, Scheduled,
            f.expectedAttendees, adminId)
  }

  /**
   * `create`: the schedule must run forward and not start in the past; the
   * meeting is stored SCHEDULED with its first, active QR code.
   */
  function Create(st: Store, f: MeetingForm, adminId: string, now: nat, id: string, seed: QrSeed,
                  mac: string -> seq<Base64.Byte>): (r: Result<Store, HttpError>)
    requires id !in st.meetings && QrToken.IsUuidText(id)
    requires TokenFree(st.qrs, QrToken.Generate(id, now, seed.random, mac))
    ensures f.scheduledStart >= f.scheduledEnd ==> r == Err(BadRequest("End time must be after start time"))
    ensures f.scheduledStart < f.scheduledEnd && f.scheduledStart < now ==>
              r == Err(BadRequest("Start time cannot be in the past"))
    ensures r.Ok? <==> now <= f.scheduledStart < f.scheduledEnd
    ensures r.Ok? ==>
      && id in r.value.meetings
      && r.value.meetings[id] == FromForm(f, id, adminId)
      && r.value.meetings[id].status == Scheduled
      && r.value.meetings[id].radius == (if Truthy(f.radius) then f.radius.value else DefaultRadius)
      && r.value.meetings[id].strategy == (if f.strategy.Some? then f.strategy.value else UntilEnd)
      && r.value.meetings[id].createdBy == adminId
      && (forall k :: k in st.meetings ==> k in r.value.meetings && r.value.meetings[k] == st.meetings[k])
      && |r.value.qrs| == |st.qrs| + 1 && r.value.qrs[..|st.qrs|] == st.qrs
      && r.value.qrs[|st.qrs|].isActive && r.value.qrs[|st.qrs|].meetingId == id
  {
    if f.scheduledStart >= f.scheduledEnd then Err(BadRequest("End time must be after start time"))
    else if f.scheduledStart < now then Err(BadRequest("Start time cannot be in the past"))
    else
      var m := FromForm(f, id, adminId);
      var st' := Store(st.meetings[id := m], st.qrs + [NewQr(m, seed, now, mac)]);
      assert st'.qrs[..|st.qrs|] == st.qrs;
      Ok(st')
  }

  /** Adding a new live meeting together with its one active QR keeps the store valid. */
  lemma AddMeetingPreservesValid(st: Store, m: Meeting, q: QrCode)
    requires Valid(st)
    requires m.id !in st.meetings && QrToken.IsUuidText(m.id) && Live(m.status)
    requires q.meetingId == m.id && TokenFree(st.qrs, q.token)
    ensures Valid(Store(st.meetings[m.id := m], st.qrs + [q]))
    ensures ActiveCount(st.qrs + [q], m.id) == (if q.isActive then 1 else 0)
  {
    var st' := Store(st.meetings[m.id := m], st.qrs + [q]);
    ActiveCountZero(st.qrs, m.id);
    ActiveCountAppend(st.qrs, q, m.id);
    forall k | k in st'.meetings ensures ActiveCount(st'.qrs, k) <= 1 {
      ActiveCountAppend(st.qrs, q, k);
    }
    assert TokensUnique(st'.qrs) by {
      var n := |st.qrs|;
      forall i, j | 0 <= i < |st'.qrs| && 0 <= j < |st'.qrs| && st'.qrs[i].token == st'.qrs[j].token
        ensures i == j
      {
        if i < n && j < n {
          assert st.qrs[i] == st'.qrs[i] && st.qrs[j] == st'.qrs[j];
        }
      }
    }
    forall i | 0 <= i < |st'.qrs| ensures st'.qrs[i].meetingId in st'.meetings {
      if i < |st.qrs| {
        assert st'.qrs[i] == st.qrs[i];
      }
    }
    forall i | 0 <= i < |st'.qrs| && st'.qrs[i].isActive
      ensures Live(st'.meetings[st'.qrs[i].meetingId].status)
    {
      if i < |st.qrs| {
        assert st'.qrs[i] == st.qrs[i];
      }
    }
  }

  lemma CreatePreservesValid(st: Store, f: MeetingForm, adminId: string, now: nat, id: string, seed: QrSeed,
                             mac: string -> seq<Base64.Byte>)
    requires Valid(st)
    requires id !in st.meetings && QrToken.IsUuidText(id)
    requires TokenFree(st.qrs, QrToken.Generate(id, now, seed.random, mac))
    ensures var r := Create(st, f, adminId, now, id, seed, mac);
      r.Ok? ==> Valid(r.value) && Evolves(st, r.value) && ActiveCount(r.value.qrs, id) == 1
  {
    var r := Create(st, f, adminId, now, id, seed, mac);
    if r.Ok? {
      var m := FromForm(f, id, adminId);
      AddMeetingPreservesValid(st, m, NewQr(m, seed, now, mac));
    }
  }

  // ---------------------------------------------------------------------------
  // update

  /** `Object.assign` of one required field: a given value replaces the stored one. */
  predicate Assigned<T(==)>(given: Option<T>, now: T, before: T) {
    if given.Some? then now == given.value else now == before
  }

  /** `Object.assign` of one nullable field: a given value replaces the stored one. */
  predicate Overlaid<T(==)>(given: Option<T>, now: Option<T>, before: Option<T>) {
    if given.Some? then now == given else now == before
  }

  /**
   * The meeting after `Object.assign(meeting, dto)` with the merged schedule:
   * every field the patch gives replaces the stored one, every absent field
   * is left as it is, and what the patch cannot name (id, actual times,
   * status, creator) is untouched.
   */
  function Patch(m: Meeting, p: MeetingPatch, start: int, end: int): (n: Meeting)
    ensures n.id == m.id && n.status == m.status && n.createdBy == m.createdBy
    ensures n.actualStart == m.actualStart && n.actualEnd == m.actualEnd
    ensures n.scheduledStart == start && n.scheduledEnd == end
    ensures Assigned(p.title, n.title, m.title) && Assigned(p.locationName, n.locationName, m.locationName)
    ensures Assigned(p.latitude, n.latitude, m.latitude) && Assigned(p.longitude, n.longitude, m.longitude)
    ensures Assigned(p.radius, n.radius, m.radius) && Assigned(p.strategy, n.strategy, m.strategy)
    ensures Overlaid(p.description, n.description, m.description)
    ensures Overlaid(p.locationAddress, n.locationAddress, m.locationAddress)
    ensures Overlaid(p.lateCutoffMinutes, n.lateCutoffMinutes, m.lateCutoffMinutes)
    ensures Overlaid(p.qrExpiryMinutes, n.qrExpiryMinutes, m.qrExpiryMinutes)
    ensures Overlaid(p.qrMaxScans, n.qrMaxScans, m.qrMaxScans)
    ensures Overlaid(p.expectedAttendees, n.expectedAttendees, m.expectedAttendees)
  {
    m.(title := p.title.GetOr(m.title),
       description := if p.description.Some? then p.description else m.description,
       locationName := p.locationName.GetOr(m.locationName),
       locationAddress := if p.locationAddress.Some? then p.locationAddress else m.locationAddress,
       latitude := p.latitude.GetOr(m.latitude),
       longitude := p.longitude.GetOr(m.longitude),
       radius := p.radius.GetOr(m.radius),
       scheduledStart := start,
       scheduledEnd := end,
       lateCutoffMinutes := if p.lateCutoffMinutes.Some? then p.lateCutoffMinutes else m.lateCutoffMinutes,
       strategy := p.strategy.GetOr(m.strategy),
       qrExpiryMinutes := if p.qrExpiryMinutes.Some? then p.qrExpiryMinutes else m.qrExpiryMinutes,
       qrMaxScans := if p.qrMaxScans.Some? then p.qrMaxScans else m.qrMaxScans,
       expectedAttendees := if p.expectedAttendees.Some? then p.expectedAttendees else m.expectedAttendees)
  }

  /**
   * `update`: only a scheduled meeting can be edited, and the merged schedule
   * (new date where given, stored date otherwise) must run forward.
   */
  function Update(st: Store, id: string, p: MeetingPatch): (r: Result<Store, HttpError>)
    ensures id !in st.meetings ==> r.Err? && r.error.NotFound?
    ensures id in st.meetings && st.meetings[id].status != Scheduled ==>
              r == Err(BadRequest("Can only edit scheduled meetings"))
    ensures r.Ok? <==> id in st.meetings && st.meetings[id].status == Scheduled
                        && p.scheduledStart.GetOr(st.meetings[id].scheduledStart)
                           < p.scheduledEnd.GetOr(st.meetings[id].scheduledEnd)
    ensures r.Ok? ==>
      && r.value.qrs == st.qrs
      && r.value.meetings.Keys == st.meetings.Keys
      && (forall k :: k in st.meetings && k != id ==> r.value.meetings[k] == st.meetings[k])
      && r.value.meetings[id].status == Scheduled
      && r.value.meetings[id].scheduledStart < r.value.meetings[id].scheduledEnd
      && r.value.meetings[id] == Patch(st.meetings[id], p, p.scheduledStart.GetOr(st.meetings[id].scheduledStart),
                                       p.scheduledEnd.GetOr(st.meetings[id].scheduledEnd))
  {
    if id !in st.meetings then Err(NotFound("Meeting with ID \"" + id + "\" not found"))
    else
      var m := st.meetings[id];
      if m.status != Scheduled then Err(BadRequest("Can only edit scheduled meetings"))
      else
        var start := p.scheduledStart.GetOr(m.scheduledStart);
        var end := p.scheduledEnd.GetOr(m.scheduledEnd);
        if start >= end then Err(BadRequest("End time must be after start time"))
        else Ok(st.(meetings := st.meetings[id := Patch(m, p, start, end)]))
  }
  /** Sending the same update twice leaves the meetings as one update does. */
  lemma UpdateIdempotent(st: Store, id: string, p: MeetingPatch)
    requires Update(st, id, p).Ok?
    ensures Update(Update(st, id, p).value, id, p) == Update(st, id, p)
  {
    var m := st.meetings[id];
    var start := p.scheduledStart.GetOr(m.scheduledStart);
    var end := p.scheduledEnd.GetOr(m.scheduledEnd);
    var n := Patch(m, p, start, end);
    var once := st.(meetings := st.meetings[id := n]);
    assert Update(st, id, p) == Ok(once);
    assert p.scheduledStart.GetOr(n.scheduledStart) == start && p.scheduledEnd.GetOr(n.scheduledEnd) == end;
    assert Patch(n, p, start, end) == n;
    assert once.meetings[id := n] == once.meetings;
  }


  lemma UpdatePreservesValid(st: Store, id: string, p: MeetingPatch)
    requires Valid(st)
    ensures var r := Update(st, id, p); r.Ok? ==> Valid(r.value) && Evolves(st, r.value)
  {
  }

  // ---------------------------------------------------------------------------
  // remove

  function WithoutMeeting(qrs: seq<QrCode>, m: string): (r: seq<QrCode>)
    ensures forall x :: x in r <==> x in qrs && x.meetingId != m
    ensures |r| <= |qrs|
    decreases |qrs|
  {
    if |qrs| == 0 then []
    else (if qrs[0].meetingId != m then [qrs[0]] else []) + WithoutMeeting(qrs[1..], m)
  }

  lemma {:induction false} WithoutMeetingKeepsCounts(qrs: seq<QrCode>, m: string, k: string)
    ensures ActiveCount(WithoutMeeting(qrs, m), k) <= ActiveCount(qrs, k)
    decreases |qrs|
  {
    if |qrs| > 0 {
      WithoutMeetingKeepsCounts(qrs[1..], m, k);
      var rest := WithoutMeeting(qrs[1..], m);
      if qrs[0].meetingId != m {
        assert WithoutMeeting(qrs, m) == [qrs[0]] + rest;
        assert ([qrs[0]] + rest)[1..] == rest;
      } else {
        assert WithoutMeeting(qrs, m) == rest;
      }
    }
  }

  lemma {:induction false} WithoutMeetingKeepsUnique(qrs: seq<QrCode>, m: string)
    requires TokensUnique(qrs)
    ensures TokensUnique(WithoutMeeting(qrs, m))
    decreases |qrs|
  {
    if |qrs| > 0 {
      var tail := qrs[1..];
      assert TokensUnique(tail) by {
        forall i, j | 0 <= i < |tail| && 0 <= j < |tail| && tail[i].token == tail[j].token
          ensures i == j
        {
          assert qrs[i + 1] == tail[i] && qrs[j + 1] == tail[j];
        }
      }
      WithoutMeetingKeepsUnique(tail, m);
      var rest := WithoutMeeting(tail, m);
      if qrs[0].meetingId != m {
        var r := [qrs[0]] + rest;
        assert WithoutMeeting(qrs, m) == r;
        forall j | 0 <= j < |rest| ensures rest[j].token != qrs[0].token {
          assert rest[j] in tail;
          var t :| 0 <= t < |tail| && tail[t] == rest[j];
          assert qrs[t + 1] == rest[j];
        }
        forall i, j | 0 <= i < |r| && 0 <= j < |r| && r[i].token == r[j].token ensures i == j {
          if i > 0 && j > 0 {
            assert r[i] == rest[i - 1] && r[j] == rest[j - 1];
          }
        }
      }
    }
  }

  datatype Removed = Removed(store: Store, images: seq<ImageStorage.Removal>)

  /**
   * `remove`: refused only for an active meeting. The meeting goes, its QR
   * records go with it (ON DELETE CASCADE), and each QR image is routed for
   * deletion.
   */
  function Remove(st: Store, id: string): (r: Result<Removed, HttpError>)
    ensures r.Ok? <==> id in st.meetings && st.meetings[id].status != Active
    ensures id in st.meetings && st.meetings[id].status == Active ==>
              r == Err(BadRequest("Cannot delete an active meeting"))
    ensures r.Ok? ==>
      && r.value.store.meetings == st.meetings - {id}
      && (forall x :: x in r.value.store.qrs <==> x in st.qrs && x.meetingId != id)
  {
    if id !in st.meetings then Err(NotFound("Meeting with ID \"" + id + "\" not found"))
    else if st.meetings[id].status == Active then Err(BadRequest("Cannot delete an active meeting"))
    else
      var images := seq(|st.qrs|, i requires 0 <= i < |st.qrs| =>
                          if st.qrs[i].meetingId == id then ImageStorage.RemovalFor(Some(st.qrs[i].imagePath))
                          else ImageStorage.Keep);
      Ok(Removed(Store(st.meetings - {id}, WithoutMeeting(st.qrs, id)), images))
  }

  lemma RemovePreservesValid(st: Store, id: string)
    requires Valid(st)
    ensures var r := Remove(st, id); r.Ok? ==> Valid(r.value.store) && Evolves(st, r.value.store)
  {
    var r := Remove(st, id);
    if r.Ok? {
      var st' := r.value.store;
      WithoutMeetingKeepsUnique(st.qrs, id);
      forall k | k in st'.meetings ensures ActiveCount(st'.qrs, k) <= 1 {
        WithoutMeetingKeepsCounts(st.qrs, id, k);
      }
      forall i | 0 <= i < |st'.qrs| ensures st'.qrs[i].meetingId in st'.meetings {
        assert st'.qrs[i] in st'.qrs;
      }
      forall i | 0 <= i < |st'.qrs| && st'.qrs[i].isActive
        ensures Live(st'.meetings[st'.qrs[i].meetingId].status)
      {
        assert st'.qrs[i] in st.qrs;
        var t :| 0 <= t < |st.qrs| && st.qrs[t] == st'.qrs[i];
      }
    }
  }

  // ---------------------------------------------------------------------------
  // start, end, cancel

  /** The index of the first active QR of a meeting (`qrCodes.find(qr => qr.isActive)`). */
  function FirstActive(qrs: seq<QrCode>, m: string): (o: Option<nat>)
    ensures o.Some? ==> o.value < |qrs| && ActiveFor(qrs[o.value], m)
                        && forall j :: 0 <= j < o.value ==> !ActiveFor(qrs[j], m)
    ensures o.None? ==> forall j :: 0 <= j < |qrs| ==> !ActiveFor(qrs[j], m)
    decreases |qrs|
  {
    if |qrs| == 0 then None
    else if ActiveFor(qrs[0], m) then Some(0)
    else
      match FirstActive(qrs[1..], m)
      case None => None
      case Some(i) => Some(i + 1)
  }

  /**
   * `startMeeting`: only from SCHEDULED. The meeting becomes ACTIVE with
   * `actualStart = now`; under TIME_BASED with a (truthy) expiry in minutes,
   * the active QR expires that many minutes from now.
   */
  function Start(st: Store, id: string, now: int): (r: Result<Store, HttpError>)
    ensures r.Ok? <==> id in st.meetings && st.meetings[id].status == Scheduled
    ensures id in st.meetings && st.meetings[id].status != Scheduled ==>
              r == Err(BadRequest("Meeting is already " + StatusName(st.meetings[id].status)
                                  + ". Can only start scheduled meetings."))
    ensures r.Ok? ==>
      && r.value.meetings == st.meetings[id := st.meetings[id].(status := Active, actualStart := Some(now))]
      && |r.value.qrs| == |st.qrs|
      && (forall i :: 0 <= i < |st.qrs| ==> r.value.qrs[i] == st.qrs[i].(expiresAt := r.value.qrs[i].expiresAt))
      && (forall i :: 0 <= i < |st.qrs| && r.value.qrs[i].expiresAt != st.qrs[i].expiresAt ==>
            ActiveFor(st.qrs[i], id))
      && (var m := st.meetings[id];
          m.strategy == TimeBased && Truthy(m.qrExpiryMinutes) ==>
            forall i :: 0 <= i < |st.qrs| && ActiveFor(st.qrs[i], id) && Valid(st) ==>
              r.value.qrs[i].expiresAt == Some(now + m.qrExpiryMinutes.value * MinuteMs))
  {
    if id !in st.meetings then Err(NotFound("Meeting with ID \"" + id + "\" not found"))
    else
      var m := st.meetings[id];
      if m.status != Scheduled then
        Err(BadRequest("Meeting is already " + StatusName(m.status) + ". Can only start scheduled meetings."))
      else
        var meetings := st.meetings[id := m.(status := Active, actualStart := Some(now))];
        match FirstActive(st.qrs, id)
        case Some(i) =>
          if m.strategy == TimeBased && Truthy(m.qrExpiryMinutes) then
            var qrs := st.qrs[i := st.qrs[i].(expiresAt := Some(now + m.qrExpiryMinutes.value * MinuteMs))];
            assert Valid(st) ==> forall j :: 0 <= j < |st.qrs| && ActiveFor(st.qrs[j], id) ==> j == i by {
              if Valid(st) {
                forall j | 0 <= j < |st.qrs| && ActiveFor(st.qrs[j], id) ensures j == i {
                  if j < i {
                  } else if j > i {
                    TwoActiveCountTwo(st.qrs, id, i, j);
                  }
                }
              }
            }
            Ok(Store(meetings, qrs))
          else Ok(Store(meetings, st.qrs))
        case None => Ok(Store(meetings, st.qrs))
  }

  lemma StartPreservesValid(st: Store, id: string, now: int)
    requires Valid(st)
    ensures var r := Start(st, id, now); r.Ok? ==> Valid(r.value) && Evolves(st, r.value)
  {
    var r := Start(st, id, now);
    if r.Ok? {
      var st' := r.value;
      forall k | k in st'.meetings ensures ActiveCount(st'.qrs, k) <= 1 {
        ActiveCountPointwise(st.qrs, st'.qrs, k);
      }
      assert TokensUnique(st'.qrs) by {
        forall i, j | 0 <= i < |st'.qrs| && 0 <= j < |st'.qrs| && st'.qrs[i].token == st'.qrs[j].token
          ensures i == j
        {
          assert st.qrs[i].token == st'.qrs[i].token && st.qrs[j].token == st'.qrs[j].token;
        }
      }
      forall i | 0 <= i < |st'.qrs| && st'.qrs[i].isActive
        ensures Live(st'.meetings[st'.qrs[i].meetingId].status)
      {
        assert st.qrs[i].isActive && st.qrs[i].meetingId == st'.qrs[i].meetingId;
      }
    }
  }

  /** Every QR of meeting `m` deactivated and stamped (the update keyed on `meetingId`). */
  function CloseAll(qrs: seq<QrCode>, m: string, now: int): (r: seq<QrCode>)
    ensures |r| == |qrs|
    ensures forall i :: 0 <= i < |qrs| ==>
              r[i] == (if qrs[i].meetingId == m then qrs[i].(isActive := false, invalidatedAt := Some(now)) else qrs[i])
  {
    seq(|qrs|, i requires 0 <= i < |qrs| =>
          if qrs[i].meetingId == m then qrs[i].(isActive := false, invalidatedAt := Some(now)) else qrs[i])
  }

  lemma CloseAllCounts(qrs: seq<QrCode>, m: string, now: int, k: string)
    ensures ActiveCount(CloseAll(qrs, m, now), k) == if k == m then 0 else ActiveCount(qrs, k)
  {
    var r := CloseAll(qrs, m, now);
    if k == m {
      ActiveCountZero(r, m);
    } else {
      ActiveCountPointwise(qrs, r, k);
    }
  }

  /**
   * `endMeeting`: only from ACTIVE. The meeting becomes ENDED with
   * `actualEnd = now`, and none of its QR codes stays active.
   */
  function End(st: Store, id: string, now: int): (r: Result<Store, HttpError>)
    ensures r.Ok? <==> id in st.meetings && st.meetings[id].status == Active
    ensures id in st.meetings && st.meetings[id].status != Active ==>
              r == Err(BadRequest("Can only end active meetings"))
    ensures r.Ok? ==>
      && r.value.meetings == st.meetings[id := st.meetings[id].(status := Ended, actualEnd := Some(now))]
      && ActiveCount(r.value.qrs, id) == 0
      && (forall k :: k != id ==> ActiveCount(r.value.qrs, k) == ActiveCount(st.qrs, k))
  {
    if id !in st.meetings then Err(NotFound("Meeting with ID \"" + id + "\" not found"))
    else
      var m := st.meetings[id];
      if m.status != Active then Err(BadRequest("Can only end active meetings"))
      else
        var qrs := CloseAll(st.qrs, id, now);
        CloseAllCounts(st.qrs, id, now, id);
        assert forall k :: k != id ==> ActiveCount(qrs, k) == ActiveCount(st.qrs, k) by {
          forall k | k != id ensures ActiveCount(qrs, k) == ActiveCount(st.qrs, k) {
            CloseAllCounts(st.qrs, id, now, k);
          }
        }
        Ok(Store(st.meetings[id := m.(status := Ended, actualEnd := Some(now))], qrs))
  }

  /**
   * `cancelMeeting`: refused for an active or an ended meeting, so a
   * scheduled or an already cancelled meeting becomes CANCELLED; none of
   * its QR codes stays active.
   */
  function Cancel(st: Store, id: string, now: int): (r: Result<Store, HttpError>)
    ensures r.Ok? <==> id in st.meetings && (st.meetings[id].status == Scheduled || st.meetings[id].status == Cancelled)
    ensures id in st.meetings && st.meetings[id].status == Active ==>
              r == Err(BadRequest("Cannot cancel an active meeting. End it first."))
    ensures id in st.meetings && st.meetings[id].status == Ended ==>
              r == Err(BadRequest("Cannot cancel an ended meeting"))
    ensures r.Ok? ==>
      && r.value.meetings == st.meetings[id := st.meetings[id].(status := Cancelled)]
      && ActiveCount(r.value.qrs, id) == 0
      && (forall k :: k != id ==> ActiveCount(r.value.qrs, k) == ActiveCount(st.qrs, k))
  {
    if id !in st.meetings then Err(NotFound("Meeting with ID \"" + id + "\" not found"))
    else
      var m := st.meetings[id];
      if m.status == Active then Err(BadRequest("Cannot cancel an active meeting. End it first."))
      else if m.status == Ended then Err(BadRequest("Cannot cancel an ended meeting"))
      else
        assert m.status == Scheduled || m.status == Cancelled;
        var qrs := CloseAll(st.qrs, id, now);
        CloseAllCounts(st.qrs, id, now, id);
        assert forall k :: k != id ==> ActiveCount(qrs, k) == ActiveCount(st.qrs, k) by {
          forall k | k != id ensures ActiveCount(qrs, k) == ActiveCount(st.qrs, k) {
            CloseAllCounts(st.qrs, id, now, k);
          }
        }
        Ok(Store(st.meetings[id := m.(status := Cancelled)], qrs))
  }

  lemma CloseAllPreservesValid(st: Store, st': Store, id: string, now: int, status: MeetingStatus)
    requires Valid(st) && id in st.meetings && !Live(status)
    requires st'.meetings == st.meetings[id := st.meetings[id].(status := status)]
             || st'.meetings == st.meetings[id := st.meetings[id].(status := status, actualEnd := Some(now))]
    requires st'.qrs == CloseAll(st.qrs, id, now)
    ensures Valid(st')
  {
    forall k | k in st'.meetings ensures ActiveCount(st'.qrs, k) <= 1 {
      CloseAllCounts(st.qrs, id, now, k);
    }
    assert TokensUnique(st'.qrs) by {
      forall i, j | 0 <= i < |st'.qrs| && 0 <= j < |st'.qrs| && st'.qrs[i].token == st'.qrs[j].token
        ensures i == j
      {
        assert st.qrs[i].token == st'.qrs[i].token && st.qrs[j].token == st'.qrs[j].token;
      }
    }
  }

  lemma EndPreservesValid(st: Store, id: string, now: int)
    requires Valid(st)
    ensures var r := End(st, id, now); r.Ok? ==> Valid(r.value) && Evolves(st, r.value)
  {
    var r := End(st, id, now);
    if r.Ok? {
      CloseAllPreservesValid(st, r.value, id, now, Ended);
    }
  }

  lemma CancelPreservesValid(st: Store, id: string, now: int)
    requires Valid(st)
    ensures var r := Cancel(st, id, now); r.Ok? ==> Valid(r.value) && Evolves(st, r.value)
  {
    var r := Cancel(st, id, now);
    if r.Ok? {
      CloseAllPreservesValid(st, r.value, id, now, Cancelled);
    }
  }

  // ---------------------------------------------------------------------------
  // regenerate

  /** The active QRs of meeting `m` deactivated by `admin` (the update keyed on `meetingId, isActive`). */
  function Invalidate(qrs: seq<QrCode>, m: string, now: int, admin: string): (r: seq<QrCode>)
    ensures |r| == |qrs|
    ensures forall i :: 0 <= i < |qrs| ==>
              r[i] == (if ActiveFor(qrs[i], m)
                       then qrs[i].(isActive := false, invalidatedAt := Some(now), invalidatedBy := Some(admin))
                       else qrs[i])
  {
    seq(|qrs|, i requires 0 <= i < |qrs| =>
          if ActiveFor(qrs[i], m)
          then qrs[i].(isActive := false, invalidatedAt := Some(now), invalidatedBy := Some(admin))
          else qrs[i])
  }

  /**
   * `regenerateQrCode`: refused for an ended or cancelled meeting; otherwise
   * every active QR of the meeting is invalidated by the admin and a fresh
   * active QR is appended, leaving exactly one.
   */
  function Regenerate(st: Store, id: string, adminId: string, now: nat, seed: QrSeed,
                      mac: string -> seq<Base64.Byte>): (r: Result<Store, HttpError>)
    requires id in st.meetings ==> st.meetings[id].id == id && QrToken.IsUuidText(id)
    requires id in st.meetings ==> TokenFree(st.qrs, QrToken.Generate(id, now, seed.random, mac))
    ensures r.Ok? <==> id in st.meetings && Live(st.meetings[id].status)
    ensures id in st.meetings && !Live(st.meetings[id].status) ==>
              r == Err(BadRequest("Cannot regenerate QR for ended or cancelled meeting"))
    ensures r.Ok? ==>
      && r.value.meetings == st.meetings
      && |r.value.qrs| == |st.qrs| + 1
      && ActiveCount(r.value.qrs, id) == 1
      && r.value.qrs[|st.qrs|].isActive && r.value.qrs[|st.qrs|].meetingId == id
      && (forall k :: k != id ==> ActiveCount(r.value.qrs, k) == ActiveCount(st.qrs, k))
      && (forall i :: 0 <= i < |st.qrs| && ActiveFor(st.qrs[i], id) ==>
            !r.value.qrs[i].isActive && r.value.qrs[i].invalidatedBy == Some(adminId))
  {
    if id !in st.meetings then Err(NotFound("Meeting with ID \"" + id + "\" not found"))
    else
      var m := st.meetings[id];
      if !Live(m.status) then Err(BadRequest("Cannot regenerate QR for ended or cancelled meeting"))
      else
        Ok(Store(st.meetings, Reissue(st.qrs, id, now, adminId, NewQr(m, seed, now, mac))))
  }

  /**
   * The QR list after regeneration: the meeting's active QRs invalidated by
   * `admin`, then `q` appended. The meeting is left with exactly one active
   * QR and no other meeting's count changes.
   */
  function Reissue(qrs: seq<QrCode>, id: string, now: int, admin: string, q: QrCode): (r: seq<QrCode>)
    requires q.isActive && q.meetingId == id
    ensures |r| == |qrs| + 1 && r[|qrs|] == q
    ensures ActiveCount(r, id) == 1
    ensures forall k :: k != id ==> ActiveCount(r, k) == ActiveCount(qrs, k)
    ensures forall i :: 0 <= i < |qrs| && ActiveFor(qrs[i], id) ==>
              !r[i].isActive && r[i].invalidatedBy == Some(admin)
    ensures forall i :: 0 <= i < |qrs| ==>
              r[i].token == qrs[i].token && r[i].meetingId == qrs[i].meetingId && (r[i].isActive ==> qrs[i].isActive)
  {
    var closed := Invalidate(qrs, id, now, admin);
    ActiveCountZero(closed, id);
    ActiveCountAppend(closed, q, id);
    forall k | k != id ensures ActiveCount(closed + [q], k) == ActiveCount(qrs, k) {
      ActiveCountAppend(closed, q, k);
      ActiveCountPointwise(qrs, closed, k);
    }
    closed + [q]
  }

  lemma RegeneratePreservesValid(st: Store, id: string, adminId: string, now: nat, seed: QrSeed,
                                 mac: string -> seq<Base64.Byte>)
    requires Valid(st)
    requires id in st.meetings ==> TokenFree(st.qrs, QrToken.Generate(id, now, seed.random, mac))
    ensures var r := Regenerate(st, id, adminId, now, seed, mac); r.Ok? ==> Valid(r.value) && Evolves(st, r.value)
  {
    var r := Regenerate(st, id, adminId, now, seed, mac);
    if r.Ok? {
      var q := NewQr(st.meetings[id], seed, now, mac);
      assert q.token == QrToken.Generate(id, now, seed.random, mac);
      ReissueKeepsValid(st, id, now, adminId, q);
    }
  }

  /** Reissuing a live meeting's QR with an unused token keeps the store valid. */
  lemma ReissueKeepsValid(st: Store, id: string, now: int, admin: string, q: QrCode)
    requires Valid(st) && id in st.meetings && Live(st.meetings[id].status)
    requires q.isActive && q.meetingId == id && TokenFree(st.qrs, q.token)
    ensures Valid(Store(st.meetings, Reissue(st.qrs, id, now, admin, q)))
  {
    var qrs := Reissue(st.qrs, id, now, admin, q);
    var n := |st.qrs|;
    assert TokensUnique(qrs) by {
      forall i, j | 0 <= i < |qrs| && 0 <= j < |qrs| && qrs[i].token == qrs[j].token
        ensures i == j
      {
        if i < n && j < n {
          assert st.qrs[i].token == st.qrs[j].token;
        }
      }
    }
    forall i | 0 <= i < n ensures qrs[i].meetingId in st.meetings {
    }
    forall i | 0 <= i < n && qrs[i].isActive
      ensures Live(st.meetings[qrs[i].meetingId].status)
    {
      assert st.qrs[i].isActive;
    }
  }

  // ---------------------------------------------------------------------------
  // validateQrToken and the scan counter

  datatype Validation = Accepted(meeting: Meeting) | Refused(error: string)

  /** The first active record carrying `token`. */
  function FindActive(qrs: seq<QrCode>, token: string): (o: Option<QrCode>)
    ensures o.Some? ==> o.value in qrs && o.value.token == token && o.value.isActive
    ensures o.None? ==> forall i :: 0 <= i < |qrs| ==> !(qrs[i].token == token && qrs[i].isActive)
    decreases |qrs|
  {
    if |qrs| == 0 then None
    else if qrs[0].token == token && qrs[0].isActive then Some(qrs[0])
    else FindActive(qrs[1..], token)
  }

  /** A QR record that its strategy has used up at time `now`. */
  predicate Exhausted(m: Meeting, q: QrCode, now: int) {
    (m.strategy == TimeBased && q.expiresAt.Some? && now > q.expiresAt.value)
    || (m.strategy == MaxScans && Truthy(q.maxScans) && q.scanCount >= q.maxScans.value)
  }

  /**
   * `validateQrToken`: never throws; each failed check is reported as a
   * refusal. `lookupFails` stands for an exception from the repository,
   * which the catch-all turns into 'Invalid QR token'.
   */
  function Validate(st: Store, token: string, now: int, mac: string -> seq<Base64.Byte>, lookupFails: bool)
    : (v: Validation)
    ensures QrToken.CheckToken(token, mac) == QrToken.BadFormat ==> v == Refused("Invalid QR format")
    ensures QrToken.CheckToken(token, mac) == QrToken.BadSignature ==> v == Refused("Invalid QR signature")
    ensures QrToken.CheckToken(token, mac).Signed? && !lookupFails && FindActive(st.qrs, token).None? ==>
              v == Refused("QR code not found or invalidated")
    ensures v.Accepted? <==>
      && QrToken.CheckToken(token, mac).Signed?
      && !lookupFails
      && FindActive(st.qrs, token).Some?
      && FindActive(st.qrs, token).value.meetingId in st.meetings
      && st.meetings[FindActive(st.qrs, token).value.meetingId].status == Active
      && !Exhausted(st.meetings[FindActive(st.qrs, token).value.meetingId], FindActive(st.qrs, token).value, now)
    ensures v.Accepted? ==> exists i :: 0 <= i < |st.qrs| && st.qrs[i].token == token && st.qrs[i].isActive
                                        && st.qrs[i].meetingId in st.meetings
                                        && st.meetings[st.qrs[i].meetingId] == v.meeting
    ensures v.Accepted? ==> v.meeting.status == Active
  {
    match QrToken.CheckToken(token, mac)
    case BadFormat => Refused("Invalid QR format")
    case BadSignature => Refused("Invalid QR signature")
    case Signed(_) =>
      if lookupFails then Refused("Invalid QR token")
      else
        match FindActive(st.qrs, token)
        case None => Refused("QR code not found or invalidated")
        case Some(q) =>
          if q.meetingId !in st.meetings then Refused("Invalid QR token")
          else
            var m := st.meetings[q.meetingId];
            if m.status != Active then Refused("Meeting is " + StatusName(m.status))
            else if m.strategy == TimeBased && q.expiresAt.Some? && now > q.expiresAt.value then
              Refused("QR code has expired")
            else if m.strategy == MaxScans && Truthy(q.maxScans) && q.scanCount >= q.maxScans.value then
              Refused("QR code max scans reached")
            else
              Accepted(m)
  }

  /** In a valid store the accepted meeting is the one the token's record points at. */
  lemma AcceptedMeetingOwnsToken(st: Store, token: string, now: int, mac: string -> seq<Base64.Byte>, lookupFails: bool)
    requires Valid(st)
    ensures var v := Validate(st, token, now, mac, lookupFails);
      v.Accepted? ==> v.meeting.id in st.meetings && ActiveCount(st.qrs, v.meeting.id) == 1
  {
    var v := Validate(st, token, now, mac, lookupFails);
    if v.Accepted? {
      var q := FindActive(st.qrs, token).value;
      var i :| 0 <= i < |st.qrs| && st.qrs[i] == q;
      ActiveCountZero(st.qrs, q.meetingId);
    }
  }

  /** Right after `create` or `regenerateQrCode`, the new token passes the format and signature checks. */
  lemma FreshQrPassesSignature(m: Meeting, seed: QrSeed, now: nat, mac: string -> seq<Base64.Byte>)
    requires QrToken.IsUuidText(m.id)
    ensures QrToken.CheckToken(NewQr(m, seed, now, mac).token, mac) == QrToken.Signed(m.id)
  {
  }

  /** `incrementQrScanCount`: the record carrying `token` counts one more scan; nothing else changes. */
  function IncrementScans(st: Store, token: string): (r: Store)
    ensures r.meetings == st.meetings && |r.qrs| == |st.qrs|
    ensures forall i :: 0 <= i < |st.qrs| ==>
              r.qrs[i].scanCount == st.qrs[i].scanCount + (if st.qrs[i].token == token then 1 else 0)
              && r.qrs[i] == st.qrs[i].(scanCount := r.qrs[i].scanCount)
  {
    Store(st.meetings, seq(|st.qrs|, i requires 0 <= i < |st.qrs| =>
      if st.qrs[i].token == token then st.qrs[i].(scanCount := st.qrs[i].scanCount + 1) else st.qrs[i]))
  }

  lemma IncrementPreservesValid(st: Store, token: string)
    requires Valid(st)
    ensures Valid(IncrementScans(st, token)) && Evolves(st, IncrementScans(st, token))
  {
    var st' := IncrementScans(st, token);
    forall k | k in st'.meetings ensures ActiveCount(st'.qrs, k) <= 1 {
      ActiveCountPointwise(st.qrs, st'.qrs, k);
    }
    assert TokensUnique(st'.qrs) by {
      forall i, j | 0 <= i < |st'.qrs| && 0 <= j < |st'.qrs| && st'.qrs[i].token == st'.qrs[j].token
        ensures i == j
      {
        assert st.qrs[i].token == st'.qrs[i].token && st.qrs[j].token == st'.qrs[j].token;
      }
    }
  }

  /** Under MAX_SCANS with a limit n, a QR accepts scans until the counter reaches n. */
  lemma MaxScansCutOff(st: Store, token: string, now: int, mac: string -> seq<Base64.Byte>)
    requires QrToken.CheckToken(token, mac).Signed?
    requires FindActive(st.qrs, token).Some?
    requires var q := FindActive(st.qrs, token).value;
      q.meetingId in st.meetings && st.meetings[q.meetingId].status == Active
      && st.meetings[q.meetingId].strategy == MaxScans && Truthy(q.maxScans)
    ensures var q := FindActive(st.qrs, token).value;
      Validate(st, token, now, mac, false).Accepted? <==> q.scanCount < q.maxScans.value
  {
  }
}
