/**
 * Check-in and review (`AttendanceService` of the older backend). A Sonta
 * Head checks in by scanning a meeting's QR code and taking a photo: the
 * QR token, the meeting's status and the geofence are checked in that
 * order, then the photo is matched against the enrolled faces and the
 * match confidence decides between an attendance record (95 and above),
 * a pending verification for an admin (70 to 94) and a refusal. Admins
 * can also check people in by hand and review the pending verifications.
 *
 * The database is a `Db` value; every operation returns the database it
 * leaves behind together with its result, because some failures (an
 * attempt logged before a refusal, a review saved before a conflict)
 * still change it. The clock, the Haversine distance, the camera image,
 * the cipher and the Euclidean distance arrive as inputs.
 */
module Attendance {
  import opened Wrappers
  import Strings
  import Base64
  import Seqs
  import Meetings
  import SontaHeads
  import FaceMatch
  import FaceService
  import FaceDetection

  const AutoApproveThreshold := 95
  const PendingReviewThreshold := 70
  const MaxAttempts := 3
  const MinuteMs := 60000

  datatype CheckInMethod = FacialRecognition | ManualAdmin

  /** `VerificationResult`; `NotRecognised` is stored as 'rejected'. */
  datatype AttemptResult = Success | LowConfidence | NotRecognised | LivenessFailed | OutsideGeofence

  datatype ReviewStatus = Pending | Approved | Rejected

  datatype Record = Record(
    id: string,
    meetingId: string,
    sontaHeadId: string,
    checkInMethod: CheckInMethod,
    confidence: Option<int>,
    isLate: bool,
    at: int,
    latitude: Option<real>,
    longitude: Option<real>,
    deviceInfo: Option<string>,
    checkedInBy: Option<string>,
    notes: Option<string>)

  /** The `checkInTimestamp` column, the key of the attendance orderings. */
  function CheckInTime(a: Record): int {
    a.at
  }

  /** `a.isLate`: the filters that count late arrivals. */
  function Late(a: Record): bool {
    a.isLate
  }

  function OnTime(a: Record): bool {
    !a.isLate
  }

  /** `a.checkInMethod === CheckInMethod.MANUAL_ADMIN`. */
  function Manual(a: Record): bool {
    a.checkInMethod == ManualAdmin
  }

  function Facial(a: Record): bool {
    a.checkInMethod == FacialRecognition
  }

  /** A row of `verification_attempts`. */
  datatype Attempt = Attempt(
    meetingId: string,
    sontaHeadId: Option<string>,
    result: AttemptResult,
    confidence: Option<int>,
    deviceInfo: Option<string>)

  /** A row of `pending_verifications`. */
  datatype Review = Review(
    id: string,
    meetingId: string,
    sontaHeadId: string,
    confidence: nat,
    latitude: real,
    longitude: real,
    deviceInfo: Option<string>,
    status: ReviewStatus,
    reviewedBy: Option<string>,
    reviewedAt: Option<int>,
    reviewNotes: Option<string>,
    createdAt: int)

  datatype Db = Db(
    store: Meetings.Store,
    heads: seq<SontaHeads.SontaHead>,
    records: seq<Record>,
    attempts: seq<Attempt>,
    reviews: seq<Review>)

  /** The database an operation leaves behind, and what it returns or raises. */
  datatype Step<T> = Step(db: Db, result: Result<T, HttpError>)

  // ---------------------------------------------------------------------
  // Shared helpers
  // ---------------------------------------------------------------------

  /** An attendance record exists for the pair (`meetingId`, `headId`). */
  predicate CheckedIn(records: seq<Record>, meetingId: string, headId: string) {
    exists i :: 0 <= i < |records| && records[i].meetingId == meetingId && records[i].sontaHeadId == headId
  }

  /** At most one attendance record per meeting and Sonta Head (`UQ_attendance_meeting_sonta_head`). */
  predicate UniquePairs(records: seq<Record>) {
    Seqs.DistinctBy(records, Pair)
  }

  function Pair(r: Record): (string, string) {
    (r.meetingId, r.sontaHeadId)
  }

  /** Adding a record for a pair that has none keeps the pairs unique. */
  lemma AppendKeepsPairsUnique(records: seq<Record>, r: Record)
    requires UniquePairs(records) && !CheckedIn(records, r.meetingId, r.sontaHeadId)
    ensures UniquePairs(records + [r])
  {
    var rs := records + [r];
    forall i, j | 0 <= i < |rs| && 0 <= j < |rs| && i != j
      ensures Pair(rs[i]) != Pair(rs[j])
    {
      if i < |records| && j < |records| {
        assert rs[i] == records[i] && rs[j] == records[j];
      } else if i < |records| {
        assert rs[i] == records[i];
      } else {
        assert rs[j] == records[j];
      }
    }
  }

  /** The first Sonta Head with the given id (`findOne` by id, and `Array.find`). */
  function FindHead(heads: seq<SontaHeads.SontaHead>, id: string): (o: Option<SontaHeads.SontaHead>)
    ensures o.Some? ==> o.value in heads && o.value.id == id
    ensures o.None? <==> forall h :: h in heads ==> h.id != id
    decreases |heads|
  {
    if |heads| == 0 then None
    else if heads[0].id == id then Some(heads[0])
    else FindHead(heads[1..], id)
  }

  /**
   * How many attempts `count({ where: { meetingId, deviceInfo } })` finds.
   * TypeORM drops a `where` field whose value is `undefined`, so without
   * device information every attempt at the meeting counts.
   */
  function CountForDevice(attempts: seq<Attempt>, meetingId: string, device: Option<string>): (n: nat)
    ensures n <= |attempts|
    decreases |attempts|
  {
    if |attempts| == 0 then 0
    else
      var last := attempts[|attempts| - 1];
      CountForDevice(attempts[..|attempts| - 1], meetingId, device)
        + (if last.meetingId == meetingId && (device.None? || last.deviceInfo == device) then 1 else 0)
  }

  /** How many attempts at the meeting were made by the given Sonta Head. */
  function CountForHead(attempts: seq<Attempt>, meetingId: string, headId: string): (n: nat)
    ensures n <= |attempts|
    decreases |attempts|
  {
    if |attempts| == 0 then 0
    else
      var last := attempts[|attempts| - 1];
      CountForHead(attempts[..|attempts| - 1], meetingId, headId)
        + (if last.meetingId == meetingId && last.sontaHeadId == Some(headId) then 1 else 0)
  }

  /** `Math.max(0, MAX_ATTEMPTS - previousAttempts)`. */
  function Remaining(count: nat): (n: nat)
    ensures n <= MaxAttempts
    ensures n == 0 <==> count >= MaxAttempts
    ensures n > 0 ==> n + count == MaxAttempts
  {
    if count >= MaxAttempts then 0 else MaxAttempts - count
  }

  // ---------------------------------------------------------------------
  // isLateArrival and verifyLocation
  // ---------------------------------------------------------------------

  /**
   * `isLateArrival`: late only when the meeting has a (non-zero) cutoff and
   * an actual start, and `now` is past the start plus the cutoff.
   */
  function IsLate(m: Meetings.Meeting, now: int): (late: bool)
    ensures late ==> Meetings.Truthy(m.lateCutoffMinutes) && m.actualStart.Some?
    ensures Meetings.Truthy(m.lateCutoffMinutes) && m.actualStart.Some? ==>
              (late <==> now - m.actualStart.value > m.lateCutoffMinutes.value * MinuteMs)
  {
    if !Meetings.Truthy(m.lateCutoffMinutes) || m.actualStart.None? then false
    else now > m.actualStart.value + m.lateCutoffMinutes.value * MinuteMs
  }

  /** Lateness only switches on: once late, later check-ins are late too. */
  lemma LatenessIsMonotone(m: Meetings.Meeting, t1: int, t2: int)
    requires t1 <= t2 && IsLate(m, t1)
    ensures IsLate(m, t2)
  {
  }

  /** With a non-negative cutoff, a check-in at the very start is never late. */
  lemma OnTimeAtStart(m: Meetings.Meeting)
    requires m.actualStart.Some?
    requires m.lateCutoffMinutes.Some? ==> m.lateCutoffMinutes.value >= 0
    ensures !IsLate(m, m.actualStart.value)
  {
  }

  datatype Location = Location(valid: bool, distance: int)

  /**
   * `verifyLocation` with the Haversine distance (in metres) as an input:
   * the meeting must exist and be active, and the point is valid exactly
   * when it lies within the geofence radius. The distance is reported
   * rounded to whole metres.
   */
  function VerifyLocation(store: Meetings.Store, meetingId: string, distance: real): (r: Result<Location, HttpError>)
    ensures meetingId !in store.meetings ==> r == Err(NotFound("Meeting not found"))
    ensures r.Ok? <==> meetingId in store.meetings && store.meetings[meetingId].status == Meetings.Active
    ensures r.Ok? ==> (r.value.valid <==> distance <= store.meetings[meetingId].radius as real)
    ensures r.Ok? ==> r.value.distance as real - 0.5 <= distance < r.value.distance as real + 0.5
  {
    if meetingId !in store.meetings then Err(NotFound("Meeting not found"))
    else
      var m := store.meetings[meetingId];
      if m.status != Meetings.Active then
        Err(BadRequest("Meeting is " + Meetings.StatusName(m.status)
                       + ". Check-in only available for active meetings."))
      else Ok(Location(distance <= m.radius as real, FaceMatch.Round(distance)))
  }

  // ---------------------------------------------------------------------
  // performFacialRecognition
  // ---------------------------------------------------------------------

  /** `k` is what decrypting `h`'s stored embedding yields. */
  predicate Decrypts(h: SontaHeads.SontaHead, decrypt: seq<Base64.Byte> -> Option<seq<real>>, k: FaceMatch.Known) {
    h.embedding.Some? && decrypt(h.embedding.value) == Some(k.embedding) && k.sontaHeadId == h.id
  }

  /**
   * The known embeddings: every head with a stored embedding that
   * decrypts, in order; a head whose decryption throws is skipped.
   */
  function Enrolled(heads: seq<SontaHeads.SontaHead>, decrypt: seq<Base64.Byte> -> Option<seq<real>>)
    : (known: seq<FaceMatch.Known>)
    ensures forall k :: k in known ==> exists h :: h in heads && Decrypts(h, decrypt, k)
    ensures forall h :: h in heads && h.embedding.Some? && decrypt(h.embedding.value).Some? ==>
              FaceMatch.Known(h.id, decrypt(h.embedding.value).value) in known
    decreases |heads|
  {
    if |heads| == 0 then []
    else
      var h := heads[0];
      var rest := Enrolled(heads[1..], decrypt);
      assert forall g :: g in heads[1..] ==> g in heads;
      if h.embedding.Some? && decrypt(h.embedding.value).Some? then
        var k := FaceMatch.Known(h.id, decrypt(h.embedding.value).value);
        assert h in heads && Decrypts(h, decrypt, k);
        [k] + rest
      else rest
  }

  datatype Recognition = Recognition(matched: Option<SontaHeads.SontaHead>, confidence: int)

  /**
   * `performFacialRecognition`: the check-in photo's embedding (face-api's
   * `extractEmbedding`) against every active, enrolled Sonta Head. Errors
   * thrown on the way (models not loaded, an embedding that is not
   * 128-dimensional) propagate.
   */
  function Recognize(heads: seq<SontaHeads.SontaHead>, modelsLoaded: bool, scan: FaceService.Scan,
                     decrypt: seq<Base64.Byte> -> Option<seq<real>>,
                     euclid: (seq<real>, seq<real>) -> real): (r: Result<Recognition, string>)
    ensures !modelsLoaded ==> r == Err(FaceDetection.NotLoadedMsg)
    ensures modelsLoaded && !(scan.Faces? && |scan.faces| > 0) ==> r == Ok(Recognition(None, 0))
    ensures r.Ok? ==> 0 <= r.value.confidence <= 100
    ensures r.Ok? && r.value.matched.None? ==> r.value.confidence == 0
    ensures r.Ok? && r.value.matched.Some? ==>
      r.value.matched.value in heads && r.value.matched.value.status == SontaHeads.Active
  {
    match FaceDetection.LocalExtractEmbedding(modelsLoaded, scan)
    case Err(e) => Err(e)
    case Ok(None) => Ok(Recognition(None, 0))
    case Ok(Some(probe)) => Identify(SontaHeads.Filter(heads, SontaHeads.Active), probe, decrypt, euclid)
  }

  /** The part of `performFacialRecognition` after the embedding is in hand; `active` are the active heads. */
  function Identify(active: seq<SontaHeads.SontaHead>, probe: seq<real>,
                    decrypt: seq<Base64.Byte> -> Option<seq<real>>,
                    euclid: (seq<real>, seq<real>) -> real): (r: Result<Recognition, string>)
    ensures r.Ok? ==> 0 <= r.value.confidence <= 100
    ensures r.Ok? && r.value.matched.None? ==> r.value.confidence == 0
    ensures r.Ok? && r.value.matched.Some? ==> r.value.matched.value in active
    ensures r.Err? ==> r == Err(FaceMatch.DimensionMsg)
  {
    if |active| == 0 then Ok(Recognition(None, 0))
    else
      var known := Enrolled(active, decrypt);
      if |known| == 0 then Ok(Recognition(None, 0))
      else
        match FaceMatch.BestMatch(probe, known, FaceMatch.BackendCompare(euclid), FaceMatch.BackendCutoff)
        case Err(e) =>
          var i :| 0 <= i < |known| && FaceMatch.BackendCompare(euclid)(probe, known[i].embedding) == Err(e);
          Err(e)
        case Ok(None) => Ok(Recognition(None, 0))
        case Ok(Some(m)) =>
          var i :| 0 <= i < |known| && known[i].sontaHeadId == m.sontaHeadId;
          assert known[i] in known;
          var h :| h in active && Decrypts(h, decrypt, known[i]);
          var found := FindHead(active, m.sontaHeadId);
          Ok(Recognition(found, m.confidence))
  }

  // ---------------------------------------------------------------------
  // checkIn
  // ---------------------------------------------------------------------

  datatype CheckInRequest = CheckInRequest(qrToken: string, latitude: real, longitude: real, deviceInfo: Option<string>)

  /**
   * What the world contributes to one check-in: the clock, the QR MAC key,
   * whether the QR lookup throws, the Haversine distance to the meeting,
   * the face models' state and what they see in the photo, the cipher's
   * decryption, the Euclidean distance, and the id the new row receives.
   */
  datatype Context = Context(
    now: int,
    mac: string -> seq<Base64.Byte>,
    lookupFails: bool,
    distance: real,
    modelsLoaded: bool,
    scan: FaceService.Scan,
    decrypt: seq<Base64.Byte> -> Option<seq<real>>,
    euclid: (seq<real>, seq<real>) -> real,
    newId: string)

  /** The three answers of `checkIn`: 'approved', 'pending' and 'rejected'. */
  datatype Outcome =
    | CheckedInNow(record: Record, message: string, score: int)
    | AwaitingReview(reviewId: string, message: string, score: int)
    | Refused(message: string, attemptsRemaining: nat, reportedScore: Option<int>)

  const OutsideMsg := "You must be at the meeting location to check in"
  const MaxAttemptsMsg := "Maximum attempts reached. Please see admin for manual check-in."
  const NotRecognisedMsg := "Face not recognized. Please try again."
  const LowConfidenceMsg := "Face recognition confidence too low. Please try again."
  const PendingMsg := "Your check-in is pending admin review."
  const AlreadyCheckedInMsg := "You are already checked in to this meeting"

  /** The success message; only a late check-in says so. */
  function PresentMsg(late: bool): (m: string)
    ensures Strings.StartsWith(m, "Check-in successful! You're marked present")
    ensures late <==> m != "Check-in successful! You're marked present."
  {
    "Check-in successful! You're marked " + (if late then "present (late)" else "present") + "."
  }

  /** `qrValidation.error || 'Invalid QR code'`. */
  function QrError(error: string): (msg: string)
    ensures msg != ""
    ensures error != "" ==> msg == error
  {
    if error == "" then "Invalid QR code" else error
  }

  /**
   * The guards of `checkIn` before the photo is looked at: the QR token,
   * the meeting's status, then the geofence. A point outside the geofence
   * is logged as an attempt; only once it is inside does the QR code's
   * scan counter move.
   */
  function Admit(db: Db, req: CheckInRequest, ctx: Context): (s: Step<Meetings.Meeting>)
    ensures var v := Meetings.Validate(db.store, req.qrToken, ctx.now, ctx.mac, ctx.lookupFails);
      v.Refused? ==> s == Step(db, Err(BadRequest(QrError(v.error))))
    ensures var v := Meetings.Validate(db.store, req.qrToken, ctx.now, ctx.mac, ctx.lookupFails);
      v.Accepted? ==> s == Locate(db, v.meeting.id, req, ctx)
  {
    match Meetings.Validate(db.store, req.qrToken, ctx.now, ctx.mac, ctx.lookupFails)
    case Refused(error) => Step(db, Err(BadRequest(QrError(error))))
    case Accepted(v) => Locate(db, v.id, req, ctx)
  }

  /** The meeting-status and geofence guards of `checkIn`, for the meeting the QR code belongs to. */
  function Locate(db: Db, meetingId: string, req: CheckInRequest, ctx: Context): (s: Step<Meetings.Meeting>)
    ensures s.result.Ok? ==>
      && meetingId in db.store.meetings
      && s.result.value == db.store.meetings[meetingId]
      && s.result.value.status == Meetings.Active
      && ctx.distance <= s.result.value.radius as real
      && s.db == db.(store := Meetings.IncrementScans(db.store, req.qrToken))
    ensures s.result.Err? && s.result.error != Forbidden(OutsideMsg) ==> s == Step(db, s.result)
    ensures s.result == Err(Forbidden(OutsideMsg)) <==>
      meetingId in db.store.meetings && db.store.meetings[meetingId].status == Meetings.Active
      && ctx.distance > db.store.meetings[meetingId].radius as real
    ensures s.result == Err(Forbidden(OutsideMsg)) ==>
      s.db == db.(attempts := db.attempts + [Attempt(db.store.meetings[meetingId].id, None, OutsideGeofence, None,
                                                     req.deviceInfo)])
  {
    if meetingId !in db.store.meetings || db.store.meetings[meetingId].status != Meetings.Active then
      Step(db, Err(BadRequest("Meeting is not active")))
    else
      var m := db.store.meetings[meetingId];
      match VerifyLocation(db.store, meetingId, ctx.distance)
      case Err(e) => Step(db, Err(e))
      case Ok(location) =>
        if !location.valid then
          Step(db.(attempts := db.attempts + [Attempt(m.id, None, OutsideGeofence, None, req.deviceInfo)]),
               Err(Forbidden(OutsideMsg)))
        else
          Step(db.(store := Meetings.IncrementScans(db.store, req.qrToken)), Ok(m))
  }

  /** The count after logging one more attempt. */
  lemma CountAfterAppend(attempts: seq<Attempt>, a: Attempt, meetingId: string, device: Option<string>, headId: string)
    ensures CountForDevice(attempts + [a], meetingId, device) ==
      CountForDevice(attempts, meetingId, device)
        + (if a.meetingId == meetingId && (device.None? || a.deviceInfo == device) then 1 else 0)
    ensures CountForHead(attempts + [a], meetingId, headId) ==
      CountForHead(attempts, meetingId, headId) + (if a.meetingId == meetingId && a.sontaHeadId == Some(headId) then 1 else 0)
  {
    assert (attempts + [a])[..|attempts|] == attempts;
  }

  /**
   * No Sonta Head matched: the attempt is logged as 'rejected', and the
   * attempts at this meeting from this device (the new one included) are
   * what is left of the allowance.
   */
  function Unrecognised(db: Db, m: Meetings.Meeting, confidence: int, req: CheckInRequest): (s: Step<Outcome>)
    ensures s.db == db.(attempts := db.attempts + [Attempt(m.id, None, NotRecognised, Some(confidence), req.deviceInfo)])
    ensures s.result.Ok? && s.result.value.Refused?
    ensures s.result.value.attemptsRemaining < MaxAttempts
    ensures s.result.value.message == MaxAttemptsMsg <==> s.result.value.attemptsRemaining == 0
    ensures s.result.value.attemptsRemaining ==
              Remaining(CountForDevice(db.attempts, m.id, req.deviceInfo) + 1)
  {
    var attempt := Attempt(m.id, None, NotRecognised, Some(confidence), req.deviceInfo);
    var attempts := db.attempts + [attempt];
    CountAfterAppend(db.attempts, attempt, m.id, req.deviceInfo, "");
    var remaining := Remaining(CountForDevice(attempts, m.id, req.deviceInfo));
    if remaining == 0 then Step(db.(attempts := attempts), Ok(Refused(MaxAttemptsMsg, 0, None)))
    else Step(db.(attempts := attempts), Ok(Refused(NotRecognisedMsg, remaining, Some(confidence))))
  }

  /**
   * A Sonta Head matched with `confidence`: a second check-in to the same
   * meeting is a conflict; otherwise the attempt is logged and the
   * confidence decides: 95 and above records attendance, 70 to 94 files a
   * pending verification, and below 70 is refused with the head's
   * remaining attempts.
   */
  function Decide(db: Db, m: Meetings.Meeting, h: SontaHeads.SontaHead, confidence: int,
                  req: CheckInRequest, ctx: Context): (s: Step<Outcome>)
    ensures CheckedIn(db.records, m.id, h.id) ==> s == Step(db, Err(Conflict(AlreadyCheckedInMsg)))
    ensures !CheckedIn(db.records, m.id, h.id) ==> s.result.Ok?
    ensures s.result.Ok? ==>
      && s.db.store == db.store && s.db.heads == db.heads
      && s.db.attempts == db.attempts + [Attempt(m.id, Some(h.id),
           if confidence >= AutoApproveThreshold then Success else LowConfidence,
           Some(confidence), req.deviceInfo)]
    ensures s.result.Ok? && s.result.value.CheckedInNow? <==> s.result.Ok? && confidence >= AutoApproveThreshold
    ensures s.result.Ok? && s.result.value.AwaitingReview? <==>
              s.result.Ok? && PendingReviewThreshold <= confidence < AutoApproveThreshold
    ensures s.result.Ok? && s.result.value.CheckedInNow? ==>
      var r := s.result.value.record;
      && s.db.records == db.records + [r] && s.db.reviews == db.reviews
      && r.meetingId == m.id && r.sontaHeadId == h.id && r.checkInMethod == FacialRecognition
      && r.confidence == Some(confidence) && r.isLate == IsLate(m, ctx.now)
      && s.result.value.message == PresentMsg(r.isLate)
    ensures s.result.Ok? && s.result.value.AwaitingReview? ==>
      && s.db.records == db.records && |s.db.reviews| == |db.reviews| + 1
      && s.db.reviews[..|db.reviews|] == db.reviews
      && s.db.reviews[|db.reviews|].status == Pending
      && s.db.reviews[|db.reviews|].meetingId == m.id && s.db.reviews[|db.reviews|].sontaHeadId == h.id
      && s.db.reviews[|db.reviews|].confidence == confidence
    ensures s.result.Ok? && s.result.value.Refused? ==>
      && s.db.records == db.records && s.db.reviews == db.reviews
      && s.result.value.attemptsRemaining < MaxAttempts
      && (s.result.value.message == MaxAttemptsMsg <==> s.result.value.attemptsRemaining == 0)
  {
    if CheckedIn(db.records, m.id, h.id) then Step(db, Err(Conflict(AlreadyCheckedInMsg)))
    else
      var late := IsLate(m, ctx.now);
      var attempt := Attempt(m.id, Some(h.id), if confidence >= AutoApproveThreshold then Success else LowConfidence,
                             Some(confidence), req.deviceInfo);
      var db1 := db.(attempts := db.attempts + [attempt]);
      if confidence >= AutoApproveThreshold then
        var r := Record(ctx.newId, m.id, h.id, FacialRecognition, Some(confidence), late, ctx.now,
                        Some(req.latitude), Some(req.longitude), req.deviceInfo, None, None);
        Step(db1.(records := db.records + [r]), Ok(CheckedInNow(r, PresentMsg(late), confidence)))
      else if confidence >= PendingReviewThreshold then
        var v := Review(ctx.newId, m.id, h.id, confidence, req.latitude, req.longitude, req.deviceInfo,
                        Pending, None, None, None, ctx.now);
        assert (db.reviews + [v])[..|db.reviews|] == db.reviews;
        Step(db1.(reviews := db.reviews + [v]), Ok(AwaitingReview(ctx.newId, PendingMsg, confidence)))
      else
        CountAfterAppend(db.attempts, attempt, m.id, None, h.id);
        var remaining := Remaining(CountForHead(db1.attempts, m.id, h.id));
        Step(db1, Ok(Refused(if remaining > 0 then LowConfidenceMsg else MaxAttemptsMsg, remaining, Some(confidence))))
  }

  /**
   * `checkIn`: the guards, then recognition, then the decision. The photo
   * itself is saved to disk and the WebSocket events are emitted; neither
   * is modelled.
   */
  function CheckIn(db: Db, req: CheckInRequest, ctx: Context): (s: Step<Outcome>)
    ensures Meetings.Validate(db.store, req.qrToken, ctx.now, ctx.mac, ctx.lookupFails).Refused? ==>
              s.db == db && s.result.Err? && s.result.error.BadRequest?
    ensures s.result == Err(Forbidden(OutsideMsg)) ==> s.db.store == db.store
    ensures s.db.heads == db.heads
    ensures s.result.Ok? ==> s.db.store == Meetings.IncrementScans(db.store, req.qrToken)
    ensures s.result.Err? ==> s.db.records == db.records && s.db.reviews == db.reviews
    ensures s.result.Ok? && s.result.value.CheckedInNow? ==>
      var r := s.result.value.record;
      && s.result.value.score >= AutoApproveThreshold
      && s.db.records == db.records + [r] && s.db.reviews == db.reviews
      && !CheckedIn(db.records, r.meetingId, r.sontaHeadId)
      && r.checkInMethod == FacialRecognition && r.confidence == Some(s.result.value.score)
    ensures s.result.Ok? && s.result.value.AwaitingReview? ==>
      && PendingReviewThreshold <= s.result.value.score < AutoApproveThreshold
      && s.db.records == db.records && |s.db.reviews| == |db.reviews| + 1
    ensures s.result.Ok? && s.result.value.Refused? ==>
      && s.db.records == db.records && s.db.reviews == db.reviews
      && s.result.value.attemptsRemaining < MaxAttempts
      && (s.result.value.message == MaxAttemptsMsg <==> s.result.value.attemptsRemaining == 0)
  {
    var admitted := Admit(db, req, ctx);
    match admitted.result
    case Err(e) => Step(admitted.db, Err(e))
    case Ok(m) =>
      var db1 := admitted.db;
      match Recognize(db1.heads, ctx.modelsLoaded, ctx.scan, ctx.decrypt, ctx.euclid)
      case Err(e) => Step(db1, Err(ServerError(e)))
      case Ok(recognition) =>
        match recognition.matched
        case None => Unrecognised(db1, m, recognition.confidence, req)
        case Some(h) => Decide(db1, m, h, recognition.confidence, req, ctx)
  }

  /**
   * A valid QR code for an active meeting, scanned outside the geofence:
   * the only change is the logged OUTSIDE_GEOFENCE attempt (the scan
   * counter does not move), and the answer is Forbidden.
   */
  lemma OutsideGeofenceRefused(db: Db, req: CheckInRequest, ctx: Context)
    requires Meetings.Validate(db.store, req.qrToken, ctx.now, ctx.mac, ctx.lookupFails).Accepted?
    requires var id := Meetings.Validate(db.store, req.qrToken, ctx.now, ctx.mac, ctx.lookupFails).meeting.id;
      id in db.store.meetings && db.store.meetings[id].status == Meetings.Active
      && ctx.distance > db.store.meetings[id].radius as real
    ensures var id := Meetings.Validate(db.store, req.qrToken, ctx.now, ctx.mac, ctx.lookupFails).meeting.id;
      CheckIn(db, req, ctx) == Step(db.(attempts := db.attempts + [Attempt(db.store.meetings[id].id, None,
                                          OutsideGeofence, None, req.deviceInfo)]),
                                    Err(Forbidden(OutsideMsg)))
  {
  }

  /** Every check-in keeps attendance unique per meeting and Sonta Head. */
  lemma CheckInKeepsPairsUnique(db: Db, req: CheckInRequest, ctx: Context)
    requires UniquePairs(db.records)
    ensures UniquePairs(CheckIn(db, req, ctx).db.records)
  {
    var s := CheckIn(db, req, ctx);
    if s.result.Ok? && s.result.value.CheckedInNow? {
      AppendKeepsPairsUnique(db.records, s.result.value.record);
    }
  }

  /**
   * The confidence alone decides the answer for a recognised Sonta Head
   * who is not yet checked in: approved from 95, pending from 70, refused
   * below.
   */
  lemma ThreeWaySplit(db: Db, req: CheckInRequest, ctx: Context)
    ensures var a := Admit(db, req, ctx);
      var rec := Recognize(a.db.heads, ctx.modelsLoaded, ctx.scan, ctx.decrypt, ctx.euclid);
      a.result.Ok? && rec.Ok? && rec.value.matched.Some?
      && !CheckedIn(db.records, a.result.value.id, rec.value.matched.value.id) ==>
        var c := rec.value.confidence;
        var s := CheckIn(db, req, ctx);
        && s.result.Ok?
        && (s.result.value.CheckedInNow? <==> c >= AutoApproveThreshold)
        && (s.result.value.AwaitingReview? <==> PendingReviewThreshold <= c < AutoApproveThreshold)
        && (s.result.value.Refused? <==> c < PendingReviewThreshold)
  {
  }

  // ---------------------------------------------------------------------
  // manualCheckIn
  // ---------------------------------------------------------------------

  /**
   * `manualCheckIn`: the meeting must exist and be active, the Sonta Head
   * must exist (whatever its status), and the pair must not be checked in
   * yet. The record names the admin who made it.
   */
  function ManualCheckIn(db: Db, meetingId: string, headId: string, adminId: string, notes: Option<string>,
                         now: int, newId: string): (s: Step<Record>)
    ensures s.db.store == db.store && s.db.heads == db.heads && s.db.attempts == db.attempts
            && s.db.reviews == db.reviews
    ensures s.result.Err? ==> s.db == db
    ensures meetingId !in db.store.meetings ==> s.result == Err(NotFound("Meeting not found"))
    ensures s.result.Ok? <==>
      && meetingId in db.store.meetings && db.store.meetings[meetingId].status == Meetings.Active
      && FindHead(db.heads, headId).Some? && !CheckedIn(db.records, meetingId, headId)
    ensures meetingId in db.store.meetings && db.store.meetings[meetingId].status == Meetings.Active
            && FindHead(db.heads, headId).Some? && CheckedIn(db.records, meetingId, headId) ==>
              s.result == Err(Conflict("This person is already checked in"))
    ensures s.result.Ok? ==>
      && s.db.records == db.records + [s.result.value]
      && s.result.value.meetingId == meetingId && s.result.value.sontaHeadId == headId
      && s.result.value.checkInMethod == ManualAdmin && s.result.value.checkedInBy == Some(adminId)
      && s.result.value.id == newId && s.result.value.confidence.None?
      && s.result.value.notes == notes && s.result.value.at == now
      && s.result.value.latitude.None? && s.result.value.longitude.None? && s.result.value.deviceInfo.None?
      && s.result.value.isLate == IsLate(db.store.meetings[meetingId], now)
  {
    if meetingId !in db.store.meetings then Step(db, Err(NotFound("Meeting not found")))
    else
      var m := db.store.meetings[meetingId];
      if m.status != Meetings.Active then
        Step(db, Err(BadRequest("Manual check-in only available for active meetings")))
      else if FindHead(db.heads, headId).None? then Step(db, Err(NotFound("Sonta Head not found")))
      else if CheckedIn(db.records, meetingId, headId) then
        Step(db, Err(Conflict("This person is already checked in")))
      else
        var r := Record(newId, meetingId, headId, ManualAdmin, None, IsLate(m, now), now,
                        None, None, None, Some(adminId), notes);
        Step(db.(records := db.records + [r]), Ok(r))
  }

  lemma ManualCheckInKeepsPairsUnique(db: Db, meetingId: string, headId: string, adminId: string,
                                      notes: Option<string>, now: int, newId: string)
    requires UniquePairs(db.records)
    ensures UniquePairs(ManualCheckIn(db, meetingId, headId, adminId, notes, now, newId).db.records)
  {
    var s := ManualCheckIn(db, meetingId, headId, adminId, notes, now, newId);
    if s.result.Ok? {
      AppendKeepsPairsUnique(db.records, s.result.value);
    }
  }

  /** Once a facial check-in has recorded someone, a manual check-in of the same pair conflicts. */
  lemma NoManualAfterFacial(db: Db, req: CheckInRequest, ctx: Context, adminId: string, notes: Option<string>,
                            now: int, newId: string)
    ensures var s := CheckIn(db, req, ctx);
      s.result.Ok? && s.result.value.CheckedInNow? ==>
        var r := s.result.value.record;
        ManualCheckIn(s.db, r.meetingId, r.sontaHeadId, adminId, notes, now, newId).result.Err?
  {
    var s := CheckIn(db, req, ctx);
    if s.result.Ok? && s.result.value.CheckedInNow? {
      var r := s.result.value.record;
      assert s.db.records[|db.records|] == r;
    }
  }

  // ---------------------------------------------------------------------
  // removeAttendance
  // ---------------------------------------------------------------------

  function RecordKey(r: Record): string {
    r.id
  }

  function IndexOfRecord(records: seq<Record>, id: string): Option<nat> {
    Seqs.Find(records, RecordKey, id)
  }

  /** `removeAttendance`: deletes every record with that id; an unknown id is a 404. */
  function RemoveAttendance(db: Db, id: string): (s: Step<string>)
    ensures IndexOfRecord(db.records, id).None? <==> s.result.Err?
    ensures s.result.Err? ==> s == Step(db, Err(NotFound("Attendance record not found")))
    ensures s.result.Ok? ==>
      && s.result.value == db.records[IndexOfRecord(db.records, id).value].meetingId
      && s.db == db.(records := s.db.records)
      && (forall r :: r in s.db.records <==> r in db.records && r.id != id)
  {
    match IndexOfRecord(db.records, id)
    case None => Step(db, Err(NotFound("Attendance record not found")))
    case Some(i) =>
      Step(db.(records := Seqs.Keep(db.records, (r: Record) => r.id != id)), Ok(db.records[i].meetingId))
  }

  lemma RemoveKeepsPairsUnique(db: Db, id: string)
    requires UniquePairs(db.records)
    ensures UniquePairs(RemoveAttendance(db, id).db.records)
  {
    Seqs.KeepDistinct(db.records, (r: Record) => r.id != id, Pair);
  }

  // ---------------------------------------------------------------------
  // approvePendingVerification and rejectPendingVerification
  // ---------------------------------------------------------------------

  function ReviewKey(r: Review): string {
    r.id
  }

  function IndexOfReview(reviews: seq<Review>, id: string): Option<nat> {
    Seqs.Find(reviews, ReviewKey, id)
  }

  const ReviewNotFoundMsg := "Pending verification not found"
  const AlreadyReviewedMsg := "This verification has already been reviewed"

  /**
   * How PostgreSQL returns a `decimal(5,2)` holding a whole number: with
   * two decimal places.
   */
  function ScoreText(score: int): (t: string)
    ensures |t| >= 4 && t[|t| - 3..] == ".00"
  {
    Strings.Signed(score) + ".00"
  }

  /** `dto.notes || 'Already checked in'`. */
  function NotesOr(notes: Option<string>, fallback: string): (n: string)
    ensures notes.Some? && notes.value != "" ==> n == notes.value
    ensures notes.None? || notes.value == "" ==> n == fallback
  {
    if notes.Some? && notes.value != "" then notes.value else fallback
  }

  /**
   * `approvePendingVerification`. Only a PENDING verification can be
   * reviewed. If the person has checked in meanwhile, the verification is
   * still marked APPROVED before the conflict is raised. Otherwise a
   * facial-recognition record carrying the verification's score and
   * coordinates is created, and the verification is marked APPROVED.
   */
  function Approve(db: Db, id: string, adminId: string, notes: Option<string>, now: int, newId: string)
    : (s: Step<Record>)
    ensures s.db.store == db.store && s.db.heads == db.heads && s.db.attempts == db.attempts
    ensures |s.db.reviews| == |db.reviews|
    ensures IndexOfReview(db.reviews, id).None? ==> s == Step(db, Err(NotFound(ReviewNotFoundMsg)))
    ensures (IndexOfReview(db.reviews, id).Some?
             && db.reviews[IndexOfReview(db.reviews, id).value].status != Pending) ==>
              s == Step(db, Err(BadRequest(AlreadyReviewedMsg)))
    ensures (IndexOfReview(db.reviews, id).Some?
             && db.reviews[IndexOfReview(db.reviews, id).value].status == Pending
             && !CheckedIn(db.records, db.reviews[IndexOfReview(db.reviews, id).value].meetingId,
                           db.reviews[IndexOfReview(db.reviews, id).value].sontaHeadId)
             && db.reviews[IndexOfReview(db.reviews, id).value].meetingId !in db.store.meetings) ==>
              s == Step(db, Err(ServerError("Cannot read properties of null")))
    ensures s.result.Ok? || s.result == Err(Conflict("This person was already checked in")) ==>
      var i := IndexOfReview(db.reviews, id).value;
      var p := db.reviews[i];
      && p.status == Pending
      && s.db.reviews == db.reviews[i := s.db.reviews[i]]
    ensures s.result == Err(Conflict("This person was already checked in")) ==>
      var i := IndexOfReview(db.reviews, id).value;
      var p := db.reviews[i];
      && s.db.records == db.records && CheckedIn(db.records, p.meetingId, p.sontaHeadId)
      && s.db.reviews[i] == p.(status := Approved, reviewedBy := Some(adminId), reviewedAt := Some(now),
                                reviewNotes := Some(NotesOr(notes, "Already checked in")))
    ensures s.result.Ok? <==>
      && IndexOfReview(db.reviews, id).Some?
      && db.reviews[IndexOfReview(db.reviews, id).value].status == Pending
      && !CheckedIn(db.records, db.reviews[IndexOfReview(db.reviews, id).value].meetingId,
                    db.reviews[IndexOfReview(db.reviews, id).value].sontaHeadId)
      && db.reviews[IndexOfReview(db.reviews, id).value].meetingId in db.store.meetings
    ensures s.result.Ok? ==>
      var i := IndexOfReview(db.reviews, id).value;
      var p := db.reviews[i];
      var r := s.result.value;
      && s.db.reviews[i] == p.(status := Approved, reviewedBy := Some(adminId), reviewedAt := Some(now),
                                reviewNotes := notes)
      && s.db.records == db.records + [r]
      && r.id == newId && r.meetingId == p.meetingId && r.sontaHeadId == p.sontaHeadId
      && r.checkInMethod == FacialRecognition && r.checkedInBy.None?
      && r.confidence == Some(p.confidence) && r.latitude == Some(p.latitude) && r.longitude == Some(p.longitude)
      && r.deviceInfo == p.deviceInfo
      && r.at == now && r.isLate == IsLate(db.store.meetings[p.meetingId], now)
      && r.notes == Some("Admin approved (" + ScoreText(p.confidence) + "% confidence)")
  {
    match IndexOfReview(db.reviews, id)
    case None => Step(db, Err(NotFound(ReviewNotFoundMsg)))
    case Some(i) =>
      var p := db.reviews[i];
      if p.status != Pending then Step(db, Err(BadRequest(AlreadyReviewedMsg)))
      else
        var reviewed := p.(status := Approved, reviewedBy := Some(adminId), reviewedAt := Some(now));
        if CheckedIn(db.records, p.meetingId, p.sontaHeadId) then
          Step(db.(reviews := db.reviews[i := reviewed.(reviewNotes := Some(NotesOr(notes, "Already checked in")))]),
               Err(Conflict("This person was already checked in")))
        else if p.meetingId !in db.store.meetings then
          // the verification's meeting relation is missing: reading its cutoff throws
          Step(db, Err(ServerError("Cannot read properties of null")))
        else
          var m := db.store.meetings[p.meetingId];
          var r := Record(newId, p.meetingId, p.sontaHeadId, FacialRecognition, Some(p.confidence),
                          IsLate(m, now), now, Some(p.latitude), Some(p.longitude), p.deviceInfo, None,
                          Some("Admin approved (" + ScoreText(p.confidence) + "% confidence)"));
          Step(db.(records := db.records + [r], reviews := db.reviews[i := reviewed.(reviewNotes := notes)]), Ok(r))
  }

  /** `rejectPendingVerification`: only a PENDING verification; no attendance is created. */
  function Reject(db: Db, id: string, adminId: string, notes: Option<string>, now: int): (s: Step<Review>)
    ensures s.db == db.(reviews := s.db.reviews)
    ensures IndexOfReview(db.reviews, id).None? ==> s == Step(db, Err(NotFound(ReviewNotFoundMsg)))
    ensures (IndexOfReview(db.reviews, id).Some?
             && db.reviews[IndexOfReview(db.reviews, id).value].status != Pending) ==>
              s == Step(db, Err(BadRequest(AlreadyReviewedMsg)))
    ensures s.result.Ok? ==>
      var i := IndexOfReview(db.reviews, id).value;
      && db.reviews[i].status == Pending
      && s.db.reviews == db.reviews[i := s.result.value]
      && s.result.value == db.reviews[i].(status := Rejected, reviewedBy := Some(adminId), reviewedAt := Some(now),
                                           reviewNotes := notes)
  {
    match IndexOfReview(db.reviews, id)
    case None => Step(db, Err(NotFound(ReviewNotFoundMsg)))
    case Some(i) =>
      var p := db.reviews[i];
      if p.status != Pending then Step(db, Err(BadRequest(AlreadyReviewedMsg)))
      else
        var reviewed := p.(status := Rejected, reviewedBy := Some(adminId), reviewedAt := Some(now), reviewNotes := notes);
        Step(db.(reviews := db.reviews[i := reviewed]), Ok(reviewed))
  }

  lemma ApproveKeepsPairsUnique(db: Db, id: string, adminId: string, notes: Option<string>, now: int, newId: string)
    requires UniquePairs(db.records)
    ensures UniquePairs(Approve(db, id, adminId, notes, now, newId).db.records)
  {
    var s := Approve(db, id, adminId, notes, now, newId);
    if s.result.Ok? {
      AppendKeepsPairsUnique(db.records, s.result.value);
    }
  }

  /**
   * A review happens once: after an approval (even one that ended in the
   * conflict) or a rejection, approving or rejecting the same verification
   * again is refused as already reviewed. Review ids are unique.
   */
  lemma ReviewIsOneShot(db: Db, id: string, adminId: string, notes: Option<string>, now: int, newId: string,
                        approve: bool, admin2: string, notes2: Option<string>, now2: int, newId2: string)
    requires forall i, j :: 0 <= i < |db.reviews| && 0 <= j < |db.reviews| && i != j ==>
               db.reviews[i].id != db.reviews[j].id
    requires var s := if approve then Approve(db, id, adminId, notes, now, newId).db
                      else Reject(db, id, adminId, notes, now).db;
             s != db || (approve && Approve(db, id, adminId, notes, now, newId).result.Ok?)
               || (!approve && Reject(db, id, adminId, notes, now).result.Ok?)
    ensures var after := if approve then Approve(db, id, adminId, notes, now, newId).db
                         else Reject(db, id, adminId, notes, now).db;
      && Approve(after, id, admin2, notes2, now2, newId2).result == Err(BadRequest(AlreadyReviewedMsg))
      && Reject(after, id, admin2, notes2, now2).result == Err(BadRequest(AlreadyReviewedMsg))
  {
    var i := IndexOfReview(db.reviews, id);
    var after := if approve then Approve(db, id, adminId, notes, now, newId).db
                 else Reject(db, id, adminId, notes, now).db;
    assert i.Some?;
    var k := i.value;
    assert after.reviews[k].id == id && after.reviews[k].status != Pending;
    var j := IndexOfReview(after.reviews, id);
    assert j.Some?;
  }

  // ---------------------------------------------------------------------
  // getMeetingAttendance
  // ---------------------------------------------------------------------

  datatype Statistics = Statistics(
    totalExpected: int,
    checkedIn: nat,
    notCheckedIn: nat,
    pending: nat,
    lateArrivals: nat,
    manualCheckIns: nat,
    attendanceRate: int)

  datatype Roster = Roster(
    checkedIn: seq<Record>,
    notCheckedIn: seq<SontaHeads.SontaHead>,
    pending: seq<Review>,
    statistics: Statistics)

  /**
   * `Math.round(checked / active * 100)`, or 0 without active heads; the
   * quotient is exact here, where JavaScript rounds it to a double first.
   */
  function AttendanceRate(checked: nat, active: nat): (rate: int)
    ensures active == 0 ==> rate == 0
    ensures active > 0 ==>
      rate as real - 0.5 <= checked as real * 100.0 / active as real < rate as real + 0.5
    ensures checked <= active ==> 0 <= rate <= 100
  {
    if active > 0 then
      var q := checked as real / active as real;
      assert q * 100.0 == checked as real * 100.0 / active as real;
      FaceMatch.DivAtMost(checked as real, active as real, 1.0);
      FaceMatch.Round(q * 100.0)
    else 0
  }

  function ActiveHeads(heads: seq<SontaHeads.SontaHead>): (r: seq<SontaHeads.SontaHead>)
    ensures forall h :: h in r <==> h in heads && h.status == SontaHeads.Active
  {
    Seqs.Keep(heads, (h: SontaHeads.SontaHead) => h.status == SontaHeads.Active)
  }

  function HeadId(r: Record): string {
    r.sontaHeadId
  }

  function MeetingRecords(records: seq<Record>, meetingId: string): (r: seq<Record>)
    ensures forall a :: a in r <==> a in records && a.meetingId == meetingId
  {
    Seqs.Keep(records, (a: Record) => a.meetingId == meetingId)
  }

  /** `checkedInIds.has(sh.id)`, and its negation. */
  function Present(ids: set<string>): SontaHeads.SontaHead -> bool {
    (h: SontaHeads.SontaHead) => h.id in ids
  }

  /** The meeting's PENDING verifications. */
  function PendingReviews(reviews: seq<Review>, meetingId: string): (r: seq<Review>)
    ensures forall v :: v in r <==> v in reviews && v.meetingId == meetingId && v.status == Pending
  {
    Seqs.Keep(reviews, (v: Review) => v.meetingId == meetingId && v.status == Pending)
  }

  /** The `createdAt` column of a verification, the key of `order: { createdAt: 'DESC' }`. */
  function CreatedAt(v: Review): int {
    v.createdAt
  }

  function Absent(ids: set<string>): SontaHeads.SontaHead -> bool {
    (h: SontaHeads.SontaHead) => h.id !in ids
  }

  /** The head ids among the meeting's records are exactly the checked-in ones. */
  lemma CheckedInIds(records: seq<Record>, meetingId: string)
    ensures forall k :: k in Seqs.Keys(MeetingRecords(records, meetingId), HeadId) <==> CheckedIn(records, meetingId, k)
  {
    var ids := Seqs.Keys(MeetingRecords(records, meetingId), HeadId);
    forall k ensures k in ids <==> CheckedIn(records, meetingId, k) {
      if CheckedIn(records, meetingId, k) {
        var i :| 0 <= i < |records| && records[i].meetingId == meetingId && records[i].sontaHeadId == k;
        assert records[i] in MeetingRecords(records, meetingId);
      }
    }
  }

  /**
   * `getMeetingAttendance`: the meeting's records, the active Sonta Heads
   * without one, the meeting's PENDING verifications, and counts over them.
   * The expected total falls back to the number of active heads when the
   * meeting sets none (or sets 0).
   */
  function MeetingAttendance(db: Db, meetingId: string): (r: Result<Roster, HttpError>)
    ensures r.Err? <==> meetingId !in db.store.meetings
    ensures r.Err? ==> r.error == NotFound("Meeting not found")
    ensures r.Ok? ==> multiset(r.value.checkedIn) == multiset(MeetingRecords(db.records, meetingId))
    ensures r.Ok? ==> forall i, j :: 0 <= i < j < |r.value.checkedIn| ==>
                        r.value.checkedIn[i].at <= r.value.checkedIn[j].at
    ensures r.Ok? ==> forall a :: a in r.value.checkedIn <==> a in db.records && a.meetingId == meetingId
    ensures r.Ok? ==> forall h :: h in r.value.notCheckedIn <==>
                        h in db.heads && h.status == SontaHeads.Active && !CheckedIn(db.records, meetingId, h.id)
    ensures r.Ok? ==> multiset(r.value.pending) == multiset(PendingReviews(db.reviews, meetingId))
    ensures r.Ok? ==> forall i, j :: 0 <= i < j < |r.value.pending| ==>
                        r.value.pending[i].createdAt >= r.value.pending[j].createdAt
    ensures r.Ok? ==> forall v :: v in r.value.pending <==> v in db.reviews && v.meetingId == meetingId && v.status == Pending
    ensures r.Ok? ==>
      var st := r.value.statistics;
      && st.checkedIn == |r.value.checkedIn|
      && st.notCheckedIn == |r.value.notCheckedIn|
      && st.pending == |r.value.pending|
    ensures r.Ok? ==>
      var st := r.value.statistics;
      && st.lateArrivals == |Seqs.Keep(r.value.checkedIn, Late)|
      && st.manualCheckIns == |Seqs.Keep(r.value.checkedIn, Manual)|
      && st.lateArrivals <= st.checkedIn && st.manualCheckIns <= st.checkedIn
    ensures r.Ok? ==>
      var st := r.value.statistics;
      && st.attendanceRate == AttendanceRate(st.checkedIn, |ActiveHeads(db.heads)|)
      && (Meetings.Truthy(db.store.meetings[meetingId].expectedAttendees) ==>
            st.totalExpected == db.store.meetings[meetingId].expectedAttendees.value)
      && (!Meetings.Truthy(db.store.meetings[meetingId].expectedAttendees) ==>
            st.totalExpected == |ActiveHeads(db.heads)|)
  {
    if meetingId !in db.store.meetings then Err(NotFound("Meeting not found"))
    else
      var m := db.store.meetings[meetingId];
      var attendance := ArrivalOrder(db.records, meetingId);
      var active := ActiveHeads(db.heads);
      var ids := Seqs.Keys(MeetingRecords(db.records, meetingId), HeadId);
      var notCheckedIn := Seqs.Keep(active, Absent(ids));
      var pending := NewestReviewsFirst(db.reviews, meetingId);
      CheckedInIds(db.records, meetingId);
      var late := |Seqs.Keep(attendance, Late)|;
      var manual := |Seqs.Keep(attendance, Manual)|;
      var expected := if Meetings.Truthy(m.expectedAttendees) then m.expectedAttendees.value else |active|;
      Ok(Roster(attendance, notCheckedIn, pending,
        Statistics(expected, |attendance|, |notCheckedIn|, |pending|, late, manual,
                   AttendanceRate(|attendance|, |active|))))
  }

  /** The meeting's records under `order: { checkInTimestamp: 'ASC' }`. */
  function ArrivalOrder(records: seq<Record>, meetingId: string): (r: seq<Record>)
    ensures multiset(r) == multiset(MeetingRecords(records, meetingId))
    ensures forall i, j :: 0 <= i < j < |r| ==> r[i].at <= r[j].at
    ensures forall a :: a in r <==> a in records && a.meetingId == meetingId
  {
    var kept := MeetingRecords(records, meetingId);
    var r := Seqs.SortAscending(kept, CheckInTime);
    assert forall x :: x in r <==> x in multiset(r);
    assert forall x :: x in kept <==> x in multiset(kept);
    r
  }

  /** The meeting's PENDING verifications under `order: { createdAt: 'DESC' }`. */
  function NewestReviewsFirst(reviews: seq<Review>, meetingId: string): (r: seq<Review>)
    ensures multiset(r) == multiset(PendingReviews(reviews, meetingId))
    ensures forall i, j :: 0 <= i < j < |r| ==> r[i].createdAt >= r[j].createdAt
    ensures forall v :: v in r <==> v in reviews && v.meetingId == meetingId && v.status == Pending
  {
    var waiting := PendingReviews(reviews, meetingId);
    var r := Seqs.SortDescending(waiting, CreatedAt);
    assert forall x :: x in r <==> x in multiset(r);
    assert forall x :: x in waiting <==> x in multiset(waiting);
    r
  }

  /** Every attendance record of the meeting names an active Sonta Head. */
  predicate RecordsOfActiveHeads(db: Db, meetingId: string) {
    forall a :: a in db.records && a.meetingId == meetingId ==>
      exists h :: h in db.heads && h.status == SontaHeads.Active && h.id == a.sontaHeadId
  }

  /** One record per pair makes the heads of a meeting's records distinct. */
  lemma MeetingHeadsDistinct(records: seq<Record>, meetingId: string)
    requires UniquePairs(records)
    ensures |Seqs.Keys(MeetingRecords(records, meetingId), HeadId)| == |MeetingRecords(records, meetingId)|
  {
    var attendance := MeetingRecords(records, meetingId);
    Seqs.KeepDistinct(records, (a: Record) => a.meetingId == meetingId, Pair);
    assert Seqs.DistinctBy(attendance, HeadId) by {
      forall i, j | 0 <= i < |attendance| && 0 <= j < |attendance| && i != j
        ensures HeadId(attendance[i]) != HeadId(attendance[j])
      {
        assert attendance[i] in attendance && attendance[j] in attendance;
        assert Pair(attendance[i]) != Pair(attendance[j]);
      }
    }
    Seqs.DistinctKeysCount(attendance, HeadId);
  }

  /** Heads with distinct ids split into those whose id is in `ids` and the rest; the first part has |ids| heads. */
  lemma ActiveSplit(active: seq<SontaHeads.SontaHead>, ids: set<string>)
    requires Seqs.DistinctBy(active, SontaHeads.HeadKey)
    requires forall k :: k in ids ==> exists h :: h in active && h.id == k
    ensures |ids| + |Seqs.Keep(active, Absent(ids))| == |active|
  {
    Seqs.KeepDistinct(active, Present(ids), SontaHeads.HeadKey);
    var present := Seqs.Keep(active, Present(ids));
    Seqs.DistinctKeysCount(present, SontaHeads.HeadKey);
    assert Seqs.Keys(present, SontaHeads.HeadKey) == ids by {
      forall k | k in ids ensures k in Seqs.Keys(present, SontaHeads.HeadKey) {
        var h :| h in active && h.id == k;
        assert h in present;
      }
    }
    Seqs.KeepSplits(active, Present(ids), Absent(ids));
  }

  /**
   * With unique Sonta Head ids and one record per pair, and while every
   * record of the meeting names an active head, the roster partitions the
   * active heads: checked in plus not checked in is the number of active
   * heads, so the rate is a true percentage.
   */
  lemma RosterPartitionsActiveHeads(db: Db, meetingId: string)
    requires meetingId in db.store.meetings
    requires SontaHeads.Valid(db.heads) && UniquePairs(db.records)
    requires RecordsOfActiveHeads(db, meetingId)
    ensures var st := MeetingAttendance(db, meetingId).value.statistics;
      && st.checkedIn + st.notCheckedIn == |ActiveHeads(db.heads)|
      && 0 <= st.attendanceRate <= 100
  {
    var attendance := MeetingRecords(db.records, meetingId);
    var active := ActiveHeads(db.heads);
    var ids := Seqs.Keys(attendance, HeadId);
    MeetingHeadsDistinct(db.records, meetingId);
    assert Seqs.DistinctBy(db.heads, SontaHeads.HeadKey);
    Seqs.KeepDistinct(db.heads, (h: SontaHeads.SontaHead) => h.status == SontaHeads.Active, SontaHeads.HeadKey);
    assert forall k :: k in ids ==> exists h :: h in active && h.id == k by {
      forall k | k in ids ensures exists h :: h in active && h.id == k {
        var a :| a in attendance && HeadId(a) == k;
        var h :| h in db.heads && h.status == SontaHeads.Active && h.id == a.sontaHeadId;
        assert h in active;
      }
    }
    ActiveSplit(active, ids);
  }
}
