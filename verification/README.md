# Sonta attendance, modelled in Dafny

A model of the logic of a face-recognition attendance system for Sonta
Heads (group leaders) of a church. An admin schedules a meeting. The
meeting carries a signed QR code and a geofence. A Sonta Head checks in by
scanning the code on site and taking a photo. The photo is matched against
the faces enrolled for the Sonta Heads, and the match confidence decides
the outcome: attendance is recorded, an admin must review, or the check-in
is refused.

The model covers these parts of the system:

- the two NestJS backends (`backend/` and `api/backend/`): the meeting
  lifecycle and its QR codes, check-in and review, face matching, magic-link
  and password authentication, the admin and Sonta Head registries, the
  request DTO validators, analytics, CSV and PDF export, and the encryption
  of stored embeddings;
- the Python face service;
- the pure helpers of the Next.js admin application.

The meetings service of `backend/` is not part of this model. The check-in
of `backend/` calls its `validateQrToken`; the model uses the one of
`api/backend/` in its place (`Meetings.Validate`).

Every operation is a pure function over immutable data. Repositories
become values (`Meetings.Store`, `Attendance.Db`, sequences of records).
Each operation returns a `Result` or the state it leaves behind. The
following are parameters:

- the clock, as `now` in milliseconds;
- randomness, as given bytes and ids;
- the cryptographic primitives: HMAC-SHA256, AES-256-GCM, bcrypt and JWT;
- the machine-learning models;
- the Haversine distance.

Modules, one per file:

| module | file | models |
|---|---|---|
| Wrappers | wrappers.dfy | `Option`, `Result` and the HTTP exceptions |
| Strings | strings.dfy | JavaScript `split`, `join`, `startsWith`, `toUpperCase`, `toString`, `replace` |
| Seqs | seqs.dfy | `filter`, key counting, reversal and the `ASC` and `DESC` orderings |
| Paging | paging.dfy | offset paging of the listings |
| ImageStorage | image_storage.dfy | `deleteImageFile` routing |
| Base64 | base64.dfy | sections 4 and 5 of RFC 4648 as Node's `Buffer` writes them |
| QrToken | qr_token.dfy | the signed QR token |
| Meetings | meetings.dfy | `MeetingsService` |
| SontaHeads | sonta_heads.dfy | `SontaHeadsService` |
| FaceMatch | face_match.dfy | distances, confidence and best match of both facial-recognition services |
| FaceDetection | face_detection.dfy | face detection of both services, and the preview controller |
| FaceService | face_service.dfy | the Python face service |
| Attendance | attendance.dfy | `AttendanceService` |
| Auth | auth.dfy | both `AuthService`s |
| Admins, ApiAdmins | admins.dfy | the `AdminService` of each backend |
| Analytics | analytics.dfy | `AnalyticsService` |
| Export | export.dfy | `ExportService` |
| Encryption | encryption.dfy | `EncryptionService` |
| Dtos | dtos.dfy | the meeting and Sonta Head DTO validators |
| Web | web.dfy | breadcrumbs, QR scanning, image URLs, the user menu, the meeting card and the meeting form |

## Model

| member | source | states |
|---|---|---|
| Strings.Split | api/backend/src/modules/meetings/meetings.service.ts:317 | `split(':')` always yields at least one piece, and no piece holds the separator |
| Strings.JoinSplit | api/backend/src/modules/meetings/meetings.service.ts:317 | joining the pieces of a split with the separator gives the original text back |
| Strings.SplitJoin | api/backend/src/modules/meetings/meetings.service.ts:317-323 | splitting a join of separator-free pieces recovers exactly those pieces |
| Strings.SplitAtFirstSeparator | api/backend/src/modules/meetings/meetings.service.ts:317 | the first separator ends the first piece, and the rest is split on its own |
| Strings.UpperChar | web/src/components/layout/header.tsx:38 | `toUpperCase` on one character: only 'a'..'z' change, each to its capital letter |
| Strings.Upper | web/src/components/layout/header.tsx:38 | upper-casing keeps the length and maps each character on its own |
| Strings.Decimal | api/backend/src/modules/meetings/meetings.service.ts:393 | `Date.now().toString()` of a non-negative number is a non-empty run of digits |
| Strings.DecimalRoundTrip | api/backend/src/modules/meetings/meetings.service.ts:393 | reading the decimal digits back gives the number |
| Strings.Signed | api/backend/src/modules/analytics/analytics.service.ts:311 | the text of a number starts with a digit exactly when it is non-negative |
| Strings.SignedInjective | api/backend/src/modules/analytics/analytics.service.ts:311 | different bucket numbers render to different texts |
| Strings.JoinAvoids | api/backend/src/modules/analytics/export.service.ts:70-71 | a joined text holds only characters found in its pieces or in the separator |
| Strings.ReplaceChar | api/backend/src/modules/analytics/export.service.ts:87 | the global replace of ',' leaves no ',' when the replacement has none, and leaves a text without ',' as it is |
| Strings.DropChar | api/backend/src/modules/analytics/export.service.ts:87 | `replace(/"/g, '')` leaves no '"', adds no character, and leaves a text without '"' as it is |
| Strings.ReplaceCharConcat | api/backend/src/modules/analytics/export.service.ts:87 | the global replace works piece by piece over a concatenation |
| Strings.DropCharConcat | api/backend/src/modules/analytics/export.service.ts:87 | removing a character works piece by piece over a concatenation |
| Strings.JoinPrefix | web/src/components/layout/site-header.tsx:49 | the join of the first n segments is a prefix of the join of all of them |
| Seqs.Keep | backend/src/modules/attendance/attendance.service.ts:393 | `filter` keeps exactly the elements that pass, and never adds any |
| Seqs.KeepSplits | backend/src/modules/attendance/attendance.service.ts:393 | a filter and its negation split a list between them |
| Seqs.KeepDistinct | backend/src/modules/attendance/attendance.service.ts:393 | filtering a list with distinct keys keeps them distinct |
| Seqs.Keys | backend/src/modules/attendance/attendance.service.ts:392 | `new Set(list.map(key))` holds the key of every element and nothing else |
| Seqs.DistinctKeysCount | backend/src/modules/attendance/attendance.service.ts:392 | a list with distinct keys has as many keys as elements |
| Seqs.KeepAll | web/src/components/layout/site-header.tsx:21 | `filter(Boolean)` over non-empty segments changes nothing |
| Seqs.Find | api/backend/src/modules/sonta-heads/sonta-heads.service.ts:126-132 | lookup by id: the first position holding the key, or none only when no element has it (used for Sonta Heads, attendance records and pending verifications) |
| Seqs.KeepKeep | api/backend/src/modules/analytics/analytics.service.ts:42-48 | counting the rows that match the period and a second condition is counting that condition among the period's rows |
| Seqs.KeepSame | api/backend/src/modules/analytics/export.service.ts:24-42 | two filters that agree on every element keep the same list |
| Seqs.KeepMultiset | api/backend/src/modules/analytics/analytics.service.ts:41-48 | a filter keeps every copy of a passing value and none of a failing one |
| Seqs.KeepPermutation | api/backend/src/modules/analytics/export.service.ts:24-42 | filtering two orderings of the same rows keeps the same rows, as many of them |
| Seqs.Reverse | api/backend/src/modules/analytics/analytics.service.ts:130-134 | the reversed list holds element `n - 1 - i` at `i`, and the same elements |
| Seqs.ReverseAppend | api/backend/src/modules/sonta-heads/sonta-heads.service.ts:110-111 | read newest first, a row appended last comes first, ahead of the earlier rows in their own order |
| Seqs.KeepAppend | api/backend/src/modules/sonta-heads/sonta-heads.service.ts:97-108 | filtering a table with one row appended is filtering the table, followed by that row exactly when it passes |
| Seqs.InsertDescending | api/backend/src/modules/analytics/analytics.service.ts:80-84 | inserting adds exactly that element, and the head is either it or the old head |
| Seqs.InsertKeepsDescending | api/backend/src/modules/analytics/analytics.service.ts:80-84 | inserting into a list in descending key order keeps it descending |
| Seqs.SortDescending | api/backend/src/modules/analytics/analytics.service.ts:80-84 | a `DESC` ordering: the result is in descending key order and a permutation of the input |
| Seqs.SortAscending | backend/src/modules/attendance/attendance.service.ts:381-385 | an `ASC` ordering: the result is in ascending key order and a permutation of the input |
| Seqs.ReversedDescendingIsAscending | api/backend/src/modules/analytics/analytics.service.ts:130-134 | a list in descending key order read backwards is in ascending order |
| Paging.CeilDiv | api/backend/src/modules/meetings/meetings.service.ts:91 | `Math.ceil(total / limit)` pages cover every row, the last page is not empty, and there are zero pages exactly when there are no rows |
| Paging.Paginate | api/backend/src/modules/meetings/meetings.service.ts:62-91 | page and limit default to 1 and 20; skip is `(page - 1) * limit`; totalPages covers the rows with no empty page |
| Paging.Window | api/backend/src/modules/meetings/meetings.service.ts:82-83 | a page returns at most `limit` rows, the ones that start at `skip`, in order; it is empty exactly when `skip` is past the end; it is full when enough rows follow `skip`, and otherwise holds all the rest |
| Paging.RowPageInRange | api/backend/src/modules/sonta-heads/sonta-heads.service.ts:95-122 | row i lies on page `i / limit + 1`, which is between 1 and totalPages |
| Paging.RowPageUnique | api/backend/src/modules/sonta-heads/sonta-heads.service.ts:95-113 | the window of page q holds row i exactly when q is `i / limit + 1` |
| Paging.RowOnExactlyOnePage | api/backend/src/modules/sonta-heads/sonta-heads.service.ts:94-122 | with the default or any limit, every row lies on exactly one page, within totalPages |
| ImageStorage.RemovalFor | api/backend/src/modules/sonta-heads/sonta-heads.service.ts:246-264 | `deleteImageFile`: an empty path does nothing; a 'sonta-attendance/' prefix goes to Cloudinary; any other path is unlinked locally |
| ImageStorage.StoredImagesRouteBack | api/backend/src/modules/sonta-heads/sonta-heads.service.ts:221-243 | an image uploaded to a Cloudinary folder is deleted in Cloudinary; a local upload is unlinked |
| Base64.EncodeSextets | api/backend/src/modules/meetings/meetings.service.ts:401 | n bytes give 4 sextets per full group of 3 bytes, plus 2 or 3 sextets for a remainder of 1 or 2 bytes |
| Base64.SextetsRoundTrip | api/backend/src/modules/meetings/meetings.service.ts:401 | grouping bytes into sextets and back is the identity |
| Base64.CharsRoundTrip | api/backend/src/modules/meetings/meetings.service.ts:401 | the alphabet maps sextets to characters and back without loss |
| Base64.EncodeUrl | api/backend/src/modules/meetings/meetings.service.ts:401 | `toString('base64url')` writes only characters of the alphabet of section 5 of RFC 4648, without padding |
| Base64.EncodeStd | api/backend/src/services/encryption.service.ts:131 | `toString('base64')` has a length that is a multiple of four and holds only characters of the section 4 alphabet or '=' |
| Base64.FromChars | api/backend/src/modules/meetings/meetings.service.ts:316 | the characters are read exactly when every one is in the alphabet, one sextet each |
| Base64.DecodeSextets | api/backend/src/modules/meetings/meetings.service.ts:316 | sextets decode exactly when their count is not 1 more than a multiple of 4, three bytes per four sextets |
| Base64.DecodeUrl | api/backend/src/modules/meetings/meetings.service.ts:316 | `base64url` text decodes exactly when every character is in the section 5 alphabet and the length is not 1 more than a multiple of 4; four characters carry three bytes |
| Base64.DecodeStd | api/backend/src/services/encryption.service.ts:143-145 | standard Base64 decodes exactly when the length is a multiple of 4 and, with the padding removed, the characters are in the section 4 alphabet in a possible length |
| Base64.UrlRoundTrip | api/backend/src/modules/meetings/meetings.service.ts:316-401 | decoding base64url inverts encoding |
| Base64.StdRoundTrip | api/backend/src/services/encryption.service.ts:131-145 | decoding standard Base64 inverts encoding |
| QrToken.Hex | api/backend/src/modules/meetings/meetings.service.ts:394 | `toString('hex')` writes two lower-case hex digits per byte |
| QrToken.AsciiBytes | api/backend/src/modules/meetings/meetings.service.ts:401 | ASCII text becomes one UTF-8 byte per character |
| QrToken.AsciiText | api/backend/src/modules/meetings/meetings.service.ts:316 | decoding succeeds exactly for all-ASCII bytes and yields one character per byte, with the byte as its code |
| QrToken.AsciiRoundTrip | api/backend/src/modules/meetings/meetings.service.ts:316-401 | decoding the UTF-8 bytes of ASCII text gives the text back |
| QrToken.Text | api/backend/src/modules/meetings/meetings.service.ts:316 | a token reads as text exactly when it decodes as base64url to ASCII bytes; the text is ASCII and three quarters as long as the token |
| QrToken.TokenText | api/backend/src/modules/meetings/meetings.service.ts:393-401 | the token text (meeting id, timestamp, random hex, signature) is ASCII |
| QrToken.Generate | api/backend/src/modules/meetings/meetings.service.ts:401 | a generated token uses only base64url characters |
| QrToken.CheckToken | api/backend/src/modules/meetings/meetings.service.ts:316-332 | a token accepted as signed decodes to three colon-free fields followed by the HMAC of those three (SignedTextIsAccepted is the converse) |
| QrToken.TextOfGenerated | api/backend/src/modules/meetings/meetings.service.ts:316-401 | a generated token decodes back to its token text |
| QrToken.SignedTextIsAccepted | api/backend/src/modules/meetings/meetings.service.ts:317-332 | any token whose text is three colon-free fields plus their signature passes the format and signature checks |
| QrToken.GeneratedTokenIsSigned | api/backend/src/modules/meetings/meetings.service.ts:316-401 | a generated token passes the format and signature checks for its own meeting |
| QrToken.WrongFieldCountIsBadFormat | api/backend/src/modules/meetings/meetings.service.ts:317-321 | a decoded text with other than four fields is refused as malformed |
| Meetings.NewQr | api/backend/src/modules/meetings/meetings.service.ts:391-449 | a new QR record is active with no scans, stores `maxScans` only under MAX_SCANS, and carries a token that passes the signature check for its meeting |
| Meetings.Create | api/backend/src/modules/meetings/meetings.service.ts:30-59 | `create` succeeds exactly when now ≤ start < end, reporting the end-before-start error first. The stored meeting is the one `FromForm` builds, SCHEDULED, with radius defaulting to 100 and strategy to UNTIL_END, and gets one new active QR; other meetings are untouched |
| Meetings.FromForm | api/backend/src/modules/meetings/meetings.service.ts:44-51 | the new meeting copies the form, replaces a falsy radius by 100 and a missing strategy by UNTIL_END, has no actual times, is SCHEDULED and records its creator |
| Meetings.CreatePreservesValid | api/backend/src/modules/meetings/meetings.service.ts:30-59 | `create` keeps the store valid: unique tokens, QRs of stored meetings, at most one active QR per meeting and none for a finished one |
| Meetings.Update | api/backend/src/modules/meetings/meetings.service.ts:108-138 | `update` succeeds exactly for a SCHEDULED meeting whose merged start precedes its merged end; a missing meeting is NotFound; only that meeting changes, and it becomes the stored meeting patched with the request and the merged schedule |
| Meetings.Patch | api/backend/src/modules/meetings/meetings.service.ts:131-135 | `Object.assign`: every field the request gives replaces the stored one, every absent field stays, and id, actual times, status and creator are untouched |
| Meetings.UpdateIdempotent | api/backend/src/modules/meetings/meetings.service.ts:108-138 | sending the same update twice leaves the store as one update does |
| Meetings.UpdatePreservesValid | api/backend/src/modules/meetings/meetings.service.ts:108-138 | `update` keeps the store valid and moves no status |
| Meetings.Remove | api/backend/src/modules/meetings/meetings.service.ts:140-173 | `remove` refuses only an ACTIVE meeting; the meeting and exactly its QR records go |
| Meetings.RemovePreservesValid | api/backend/src/modules/meetings/meetings.service.ts:140-173 | `remove` keeps the store valid |
| Meetings.FirstActive | api/backend/src/modules/meetings/meetings.service.ts:197 | `qrCodes.find(qr => qr.isActive)` finds the first active QR of the meeting, or none exists |
| Meetings.Start | api/backend/src/modules/meetings/meetings.service.ts:175-211 | start succeeds exactly from SCHEDULED and moves to ACTIVE with `actualStart = now`. Only the active QR's expiry can change, and only under TIME_BASED with truthy minutes, to `now + minutes * 60000` |
| Meetings.StartPreservesValid | api/backend/src/modules/meetings/meetings.service.ts:175-211 | start keeps the store valid and makes a permitted status move |
| Meetings.CloseAll | api/backend/src/modules/meetings/meetings.service.ts:233-236 | every QR of the meeting is deactivated and stamped; other QRs are unchanged |
| Meetings.CloseAllCounts | api/backend/src/modules/meetings/meetings.service.ts:228-266 | after closing, the meeting has no active QR and every other meeting keeps its count |
| Meetings.End | api/backend/src/modules/meetings/meetings.service.ts:213-242 | end succeeds exactly from ACTIVE, moves to ENDED with `actualEnd = now`, and leaves the meeting no active QR |
| Meetings.EndPreservesValid | api/backend/src/modules/meetings/meetings.service.ts:213-242 | end keeps the store valid |
| Meetings.Cancel | api/backend/src/modules/meetings/meetings.service.ts:244-272 | cancel is refused from ACTIVE and from ENDED with their own messages. It succeeds from SCHEDULED and from CANCELLED, moves to CANCELLED and leaves no active QR |
| Meetings.CancelPreservesValid | api/backend/src/modules/meetings/meetings.service.ts:244-272 | cancel keeps the store valid |
| Meetings.Invalidate | api/backend/src/modules/meetings/meetings.service.ts:288-291 | the meeting's active QRs are deactivated and stamped with the admin; nothing else changes |
| Meetings.Regenerate | api/backend/src/modules/meetings/meetings.service.ts:274-305 | regeneration is refused for ENDED or CANCELLED. Otherwise every old active QR is invalidated by the admin and one new active QR is appended, leaving exactly one |
| Meetings.RegeneratePreservesValid | api/backend/src/modules/meetings/meetings.service.ts:274-305 | regeneration keeps the store valid |
| Meetings.Reissue | api/backend/src/modules/meetings/meetings.service.ts:287-294 | the meeting's old active QRs are invalidated by the admin and the new one appended, leaving exactly one active; other meetings' counts, and every old QR's token and meeting, are unchanged |
| Meetings.ReissueKeepsValid | api/backend/src/modules/meetings/meetings.service.ts:287-294 | reissuing a live meeting's QR with an unused token keeps the store valid |
| Meetings.FindActive | api/backend/src/modules/meetings/meetings.service.ts:335-338 | the lookup returns an active record carrying the token, or there is none |
| Meetings.Validate | api/backend/src/modules/meetings/meetings.service.ts:313-371 | `validateQrToken` never throws: bad format, bad signature, a missing record, a non-active meeting, expiry and a used-up scan limit are refusals in that order, and acceptance holds exactly when every check passes |
| Meetings.AcceptedMeetingOwnsToken | api/backend/src/modules/meetings/meetings.service.ts:335-349 | in a valid store, the accepted meeting is the one that owns the token's record |
| Meetings.FreshQrPassesSignature | api/backend/src/modules/meetings/meetings.service.ts:316-401 | a freshly generated QR passes the format and signature checks for its meeting |
| Meetings.IncrementScans | api/backend/src/modules/meetings/meetings.service.ts:373-375 | the record carrying the token counts one more scan; nothing else changes |
| Meetings.IncrementPreservesValid | api/backend/src/modules/meetings/meetings.service.ts:373-375 | counting a scan keeps the store valid |
| Meetings.MaxScansCutOff | api/backend/src/modules/meetings/meetings.service.ts:358-362 | under MAX_SCANS with a limit n, the token is accepted exactly while the scan count is below n |
| Attendance.AppendKeepsPairsUnique | backend/src/database/migrations/1700000000000-InitialSchema.ts:179 | adding a record for a pair without one keeps one record per meeting and Sonta Head |
| Attendance.FindHead | backend/src/modules/attendance/attendance.service.ts:307-313 | the lookup by id returns a head with that id, and finds none exactly when no head has it |
| Attendance.CountForDevice | backend/src/modules/attendance/attendance.service.ts:161-166 | the count of attempts for a meeting and device is bounded by the number of attempts |
| Attendance.Remaining | backend/src/modules/attendance/attendance.service.ts:28-168 | `max(0, 3 - attempts)` is at most 3, is 0 exactly when 3 or more attempts were made, and otherwise adds up with the attempts to 3 |
| Attendance.IsLate | backend/src/modules/attendance/attendance.service.ts:587-594 | late only with a truthy cutoff and an actual start; then late exactly when now is past start plus the cutoff in minutes |
| Attendance.LatenessIsMonotone | backend/src/modules/attendance/attendance.service.ts:587-594 | once a check-in is late, every later one is late too |
| Attendance.OnTimeAtStart | backend/src/modules/attendance/attendance.service.ts:587-594 | a check-in at the actual start is not late |
| Attendance.VerifyLocation | backend/src/modules/attendance/attendance.service.ts:49-73 | a missing meeting is NotFound, and the point is checked only for an ACTIVE meeting. It is valid exactly when the distance is within the radius, and the distance is reported rounded |
| Attendance.Enrolled | backend/src/modules/attendance/attendance.service.ts:619-642 | the known embeddings are exactly those of heads whose stored embedding decrypts; a failed decryption is skipped |
| Attendance.Recognize | backend/src/modules/attendance/attendance.service.ts:596-668 | models not loaded is an error; no face gives no match and confidence 0; a match is an active enrolled head, with confidence in [0,100] |
| Attendance.Identify | backend/src/modules/attendance/attendance.service.ts:610-668 | with the probe embedding in hand, a match is one of the active heads, with confidence in [0,100], and no match has confidence 0 |
| Attendance.QrError | backend/src/modules/attendance/attendance.service.ts:89 | the QR error, falling back to 'Invalid QR code', is never empty and keeps a non-empty error |
| Attendance.PresentMsg | backend/src/modules/attendance/attendance.service.ts:237 | the success message starts with 'Check-in successful! You're marked present' and differs from the on-time message exactly for a late check-in |
| Attendance.Admit | backend/src/modules/attendance/attendance.service.ts:86-126 | a refused QR token is a BadRequest carrying its reason and changes nothing; an accepted one goes on to the meeting and geofence checks |
| Attendance.Locate | backend/src/modules/attendance/attendance.service.ts:92-126 | a non-active meeting is refused unchanged; outside the geofence exactly one OUTSIDE_GEOFENCE attempt is logged and the answer is Forbidden; inside, the scan count moves |
| Attendance.CountAfterAppend | backend/src/modules/attendance/attendance.service.ts:148-166 | logging one attempt raises each matching count by exactly one |
| Attendance.Unrecognised | backend/src/modules/attendance/attendance.service.ts:146-184 | an unrecognised face logs a 'rejected' attempt; attempts remaining are below 3 and the maximum-attempts message appears exactly when none remain |
| Attendance.Decide | backend/src/modules/attendance/attendance.service.ts:186-291 | an existing pair is a Conflict with nothing changed. Otherwise 95 and above adds one facial record, 70 to 94 files one pending verification, and below 70 is refused with the head's remaining attempts |
| Attendance.CheckIn | backend/src/modules/attendance/attendance.service.ts:75-292 | the guards run in order (QR, meeting, geofence); failures create no attendance or review; success counts the scan, and each answer carries its one record |
| Attendance.OutsideGeofenceRefused | backend/src/modules/attendance/attendance.service.ts:100-123 | for a valid QR at an active meeting outside the geofence, the only change is the logged attempt, the scan count does not move, and the answer is Forbidden |
| Attendance.CheckInKeepsPairsUnique | backend/src/modules/attendance/attendance.service.ts:189-196 | a check-in never creates a second record for a meeting and Sonta Head |
| Attendance.ThreeWaySplit | backend/src/modules/attendance/attendance.service.ts:215-291 | for a recognised head not yet checked in: 95 and above is approved, 70 to 94 is pending, below 70 is rejected |
| Attendance.ManualCheckIn | backend/src/modules/attendance/attendance.service.ts:294-344 | manual check-in needs an existing ACTIVE meeting, an existing head and no record for the pair. It adds one MANUAL_ADMIN record naming the admin, with the request's notes, no score or coordinates, stamped `now` and late by the meeting's cut-off; any failure changes nothing |
| Attendance.ManualCheckInKeepsPairsUnique | backend/src/modules/attendance/attendance.service.ts:315-322 | manual check-in keeps one record per pair |
| Attendance.NoManualAfterFacial | backend/src/modules/attendance/attendance.service.ts:189-322 | after a facial check-in records someone, a manual check-in of the same pair is a Conflict |
| Attendance.RemoveAttendance | backend/src/modules/attendance/attendance.service.ts:346-364 | an unknown id is NotFound; otherwise the records with that id are deleted and nothing else changes |
| Attendance.RemoveKeepsPairsUnique | backend/src/modules/attendance/attendance.service.ts:346-357 | deleting a record keeps one record per pair |
| Attendance.ScoreText | backend/src/modules/attendance/attendance.service.ts:510 | a whole-number `decimal(5,2)` score prints with two decimal places |
| Attendance.NotesOr | backend/src/modules/attendance/attendance.service.ts:492 | the review notes, falling back to 'Already checked in', keep non-empty notes and otherwise falls back |
| Attendance.Approve | backend/src/modules/attendance/attendance.service.ts:468-529 | only a PENDING review can be approved. With the pair already checked in, the review is saved APPROVED by the admin at `now` with the notes or 'Already checked in', and a Conflict follows. A missing meeting relation is a server error that changes nothing. Otherwise one facial record is added with the review's score, coordinates and device, stamped `now`, late by the meeting's cut-off at approval time and noted 'Admin approved (N% confidence)', and the review is saved APPROVED with the given notes |
| Attendance.Reject | backend/src/modules/attendance/attendance.service.ts:531-549 | only a PENDING review can be rejected; it becomes REJECTED and no record is created |
| Attendance.ApproveKeepsPairsUnique | backend/src/modules/attendance/attendance.service.ts:482-496 | approval never creates a second record for a pair |
| Attendance.ReviewIsOneShot | backend/src/modules/attendance/attendance.service.ts:478-542 | after an approval (even one ending in Conflict) or a rejection, reviewing the same verification again is refused |
| Attendance.AttendanceRate | backend/src/modules/attendance/attendance.service.ts:431-433 | the rate is 0 without active heads, otherwise the nearest whole percentage, and lies in [0,100] when no more are checked in than active |
| Attendance.ActiveHeads | backend/src/modules/attendance/attendance.service.ts:388-390 | exactly the ACTIVE heads |
| Attendance.MeetingRecords | backend/src/modules/attendance/attendance.service.ts:381-385 | exactly the meeting's records |
| Attendance.CheckedInIds | backend/src/modules/attendance/attendance.service.ts:392 | the head ids among the meeting's records are exactly the checked-in heads |
| Attendance.MeetingAttendance | backend/src/modules/attendance/attendance.service.ts:366-436 | a missing meeting is NotFound. `checkedIn` holds the meeting's records oldest first and `pending` its PENDING verifications newest first, each a permutation of those rows; `notCheckedIn` is exactly the active heads without a record. The counts are the lists' lengths and the late and manual records among `checkedIn`; `totalExpected` falls back to the active count |
| Attendance.ArrivalOrder | backend/src/modules/attendance/attendance.service.ts:381-385 | `order: checkInTimestamp ASC`: the meeting's records, each once, oldest first |
| Attendance.PendingReviews | backend/src/modules/attendance/attendance.service.ts:396-397 | exactly the meeting's PENDING verifications |
| Attendance.NewestReviewsFirst | backend/src/modules/attendance/attendance.service.ts:396-400 | `order: createdAt DESC`: the meeting's PENDING verifications, each once, newest first |
| Attendance.MeetingHeadsDistinct | backend/src/database/migrations/1700000000000-InitialSchema.ts:179 | one record per pair makes the checked-in ids as many as the meeting's records |
| Attendance.ActiveSplit | backend/src/modules/attendance/attendance.service.ts:392-393 | active heads with distinct ids split into the checked-in ones and the rest |
| Attendance.RosterPartitionsActiveHeads | backend/src/modules/attendance/attendance.service.ts:392-433 | when every record names an active head, checked in plus not checked in is the number of active heads, and the rate is in [0,100] |
| FaceMatch.Round | api/backend/src/services/facial-recognition.service.ts:178 | `Math.round` gives the integer within half a unit, halves going up |
| FaceMatch.Confidence | api/backend/src/services/facial-recognition.service.ts:173-179 | the confidence is a whole percentage in [0,100]: 100 at distance 0 or less, 0 at the cut-off or beyond |
| FaceMatch.ConfidenceNonIncreasing | backend/src/services/facial-recognition.service.ts:156-167 | a larger distance never gives a larger confidence, for any positive cut-off |
| FaceMatch.ConfidenceThreshold | api/backend/src/services/facial-recognition.service.ts:177-178 | a confidence of at least t (1 to 100) is reached exactly when the distance is at most cutoff times (100.5 - t) / 100, both directions |
| FaceMatch.CosineDistance | api/backend/src/services/facial-recognition.service.ts:147-171 | a second vector shorter than the first makes the distance undefined (NaN) |
| FaceMatch.ToDistance | api/backend/src/services/facial-recognition.service.ts:164-167 | a similarity in [-1,1] maps into [0,1], with similarity 1 at distance 0 |
| FaceMatch.CauchySchwarz | api/backend/src/services/facial-recognition.service.ts:152-162 | the dot product is bounded by the product of the two norms' square roots |
| FaceMatch.DotSymmetric | api/backend/src/services/facial-recognition.service.ts:156-160 | the accumulated dot product does not depend on the order of the two equal-length vectors |
| FaceMatch.SimilarityInUnit | api/backend/src/services/facial-recognition.service.ts:162 | with true non-zero square roots the similarity is defined and lies in [-1,1] |
| FaceMatch.SimilarityOfEqual | api/backend/src/services/facial-recognition.service.ts:162-166 | a dot product equal to the product of the roots is similarity exactly 1 |
| FaceMatch.CosineDistanceInRange | api/backend/src/services/facial-recognition.service.ts:147-171 | whenever the distance is defined and `sqrt` is a true square root, it lies in [0,1] |
| FaceMatch.SameDirectionIsDistanceZero | api/backend/src/services/facial-recognition.service.ts:164-166 | a non-zero vector compared with a positive multiple of itself is at distance exactly 0 |
| FaceMatch.Best | api/backend/src/services/facial-recognition.service.ts:195-207 | reference winner: none exactly when every distance is NaN; otherwise a defined distance no greater than any other and strictly below every earlier one |
| FaceMatch.FirstError | backend/src/services/facial-recognition.service.ts:191-195 | none exactly when no comparison throws; otherwise a candidate whose comparison throws |
| FaceMatch.Distances | api/backend/src/services/facial-recognition.service.ts:197-198 | one distance per candidate, each the comparison's own result |
| FaceMatch.BestMatch | backend/src/services/facial-recognition.service.ts:175-214 | an error exactly when some comparison throws, carrying one thrown message; a match names a candidate at the least defined distance with that distance's confidence; no match exactly when every distance is NaN |
| FaceMatch.FindBestMatch | api/backend/src/services/facial-recognition.service.ts:181-216 | the loop returns no match for no candidates, the FIRST thrown error, or the candidate `Best` picks; it agrees with `BestMatch` on every input |
| FaceMatch.BackendSizeGuard | backend/src/services/facial-recognition.service.ts:130-144 | the older backend's comparison throws the dimension message exactly when either vector is not 128 long, and otherwise yields a number |
| FaceDetection.ApiDetectFace | api/backend/src/services/facial-recognition.service.ts:49-101 | a service that is still loading throws the loading message; otherwise the answer is true exactly when the photo shows one face |
| FaceDetection.ApiExtractEmbedding | api/backend/src/services/facial-recognition.service.ts:103-145 | loading throws; otherwise an embedding exactly when the photo shows one face, and it is that face's embedding |
| FaceDetection.Caught | api/backend/src/modules/facial-recognition/facial-recognition.controller.ts:82-99 | an error mentioning 'multiple faces' becomes a two-face negative preview; any other is a 400 with the failure message |
| FaceDetection.DetectPreview | api/backend/src/modules/facial-recognition/facial-recognition.controller.ts:36-101 | no file is a 400; a preview is positive exactly when it counts one face, with confidence 0.85, and 0 otherwise |
| FaceDetection.PreviewOutcomes | api/backend/src/modules/facial-recognition/facial-recognition.controller.ts:41-99 | a loading service ends in the catch; once it is up the preview is positive exactly for one face and never reports two faces |
| FaceDetection.LocalDetectFace | backend/src/services/facial-recognition.service.ts:46-85 | models not loaded throws; otherwise true exactly for one face scoring at least 0.5 |
| FaceDetection.Strongest | backend/src/services/facial-recognition.service.ts:100-103 | the index of a face scoring at least as high as every other |
| FaceDetection.LocalExtractEmbedding | backend/src/services/facial-recognition.service.ts:92-122 | models not loaded throws; otherwise a descriptor exactly when some face is found, and it belongs to a best-scoring face |
| FaceService.Detect | face-service/app.py:62-97 | an error exactly for an unreadable image (a 500 with its reason); the count is the number of faces; detected exactly for one face, with that face's score as confidence |
| FaceService.Extract | face-service/app.py:99-132 | success exactly for one face, returning its embedding and that embedding's length; other counts are 400s, an unreadable image a 500 |
| FaceService.SimilarityPercent | face-service/app.py:162 | the percentage is in [0,100] exactly when the similarity is in [-1,1], and reaches 70 exactly when the similarity reaches 0.4 |
| FaceService.SimilarityPercentIncreasingOnto | face-service/app.py:162 | the percentage is strictly increasing in the similarity and every value in [0,100] is reached from [-1,1] |
| FaceService.Compare | face-service/app.py:134-175 | unreadable images are 500s; a missing face is reported before several faces; success exactly for one face in each with equal lengths; same person exactly when the similarity reaches 0.4 |
| FaceService.NormedConfidenceInRange | face-service/app.py:158-162 | for unit-length embeddings the comparison's confidence lies in [0,100] |
| Auth.ExpiryMinutes | api/backend/src/modules/auth/auth.service.ts:61-62 | a truthy configured expiry is used as is; an unset or zero one falls back to 10; the result is never 0 |
| Auth.SpendAll | api/backend/src/modules/auth/auth.service.ts:54-57 | the same rows in the same order; exactly the given admin's open rows become used, every other row is unchanged |
| Auth.RequestMagicLink | api/backend/src/modules/auth/auth.service.ts:40-81 | the message is always the same; an unknown or inactive email changes nothing; an active admin's open links are spent and one fresh link expiring after the configured minutes is appended |
| Auth.SpendAllCloses | api/backend/src/modules/auth/auth.service.ts:54-57 | afterwards the admin holds no open link and every other admin's open-link count is unchanged |
| Auth.RequestLeavesOneOpenLink | api/backend/src/modules/auth/auth.service.ts:53-71 | at most one open link per admin is preserved, and an active requester ends with exactly one |
| Auth.FindToken | api/backend/src/modules/auth/auth.service.ts:84-87 | the first row carrying the token, or none exactly when no row carries it |
| Auth.VerifyMagicLink | api/backend/src/modules/auth/auth.service.ts:83-125 | unknown, used, expired and deactivated are refused as Unauthorized in that order; success exactly otherwise, marking that row used at `now`, stamping the admin's last login and returning that admin's id, email, full name and role |
| Auth.ExpiryIsFinal | api/backend/src/modules/auth/auth.service.ts:97 | a link is still good at its expiry instant, and once expired it stays expired |
| Auth.SecondVerifyFails | api/backend/src/modules/auth/auth.service.ts:93-95 | after a successful verify the same link is refused as already used at any later time |
| Auth.CleanupExpiredTokens | api/backend/src/modules/auth/auth.service.ts:169-174 | exactly the rows not expired at `now` survive; admins are untouched |
| Auth.CleanupMatchesVerify | api/backend/src/modules/auth/auth.service.ts:97-98 | a link survives cleanup exactly when verify would not call it expired; on survivors verify answers as before; a link expiring at `now` itself still signs in |
| Auth.RefreshLinkTokens | api/backend/src/modules/auth/auth.service.ts:148-163 | every failure is the one 'Invalid refresh token'; success exactly when the subject is an active admin, who is returned |
| Auth.ValidateUser | backend/src/modules/auth/auth.service.ts:66-79 | a result is an admin matching the login by username or email whose hash accepts the password; a username match is tried before any email match; no match of either kind gives none |
| Auth.UsernameShadowsEmail | backend/src/modules/auth/auth.service.ts:70-73 | when one admin's username is another's email and the first's password fails, the login fails even if the second's would match |
| Auth.Login | backend/src/modules/auth/auth.service.ts:40-64 | bad credentials come before deactivation; success exactly for valid credentials of an active admin, returning that admin's fields and stamping its last login |
| Auth.DeactivatedWrongPasswordIsBadCredentials | backend/src/modules/auth/auth.service.ts:41-48 | a deactivated admin with a wrong password hears only 'Invalid credentials' |
| Auth.RefreshTokens | backend/src/modules/auth/auth.service.ts:102-117 | every failure is the one 'Invalid refresh token'; success exactly when the subject names an active admin |
| Auth.ChangePassword | backend/src/modules/auth/auth.service.ts:119-137 | the evidently intended change (see Findings): unknown user is Unauthorized, a wrong current password BadRequest, success exactly otherwise; only that admin's hash changes, to the hash of the new password, and an empty new password keeps the old hash |
| Auth.ChangePasswordAsWritten | backend/src/modules/auth/auth.service.ts:119-137 | the same refusals as the intended change and success exactly when it succeeds, but success leaves every admin row as it was, because the new password goes to a non-column property the save does not write |
| Auth.ChangedPasswordIsIgnored | backend/src/modules/admin/entities/admin-user.entity.ts:53-62 | after a change as written, the old password still logs the admin in by username and a new password the old hash refuses is refused, where the intended change lets the new one in |
| Auth.ChangedPasswordLogsIn | backend/src/modules/admin/entities/admin-user.entity.ts:56-62 | for the intended change, with a bcrypt that accepts what it hashed, the new password logs the admin in by username and the admin keys stay unique |
| Admins.Sanitize | backend/src/modules/admin/admin.service.ts:109-112 | the view keeps every column of the admin except the password hash |
| Admins.SanitizeHidesHash | backend/src/modules/admin/admin.service.ts:110 | two admins differing only in their hash have the same view |
| Admins.FindBy | backend/src/modules/admin/admin.service.ts:60-66 | the first row holding the key in the column, or none exactly when no row holds it |
| Admins.Create | backend/src/modules/admin/admin.service.ts:18-43 | with the username and password the service reads: a taken username is refused before a taken email; success exactly when neither is taken and the password is non-empty; one row is appended with the username, email and full name, the hashed password, role defaulting to ADMIN, active, and its sanitised view is returned |
| Admins.CreatePreservesValid | backend/src/modules/admin/admin.service.ts:18-43 | with a fresh id, creating keeps id, username and email unique |
| Admins.Lookup | backend/src/modules/admin/admin.service.ts:19-21 | `findOne` with an undefined key matches the first row, so it finds one exactly when the table is not empty; with a key it is the column lookup |
| Admins.CreateAsWritten | backend/src/modules/admin/admin.service.ts:18-43 | with the request the backend declares, creation never succeeds: any stored admin makes it 'Username already exists', and an empty table fails on the missing username |
| Admins.DeclaredDtoNeverCreates | backend/src/modules/admin/admin.service.ts:18-43 | for one stored admin the declared request is refused as a taken username, while the request with a fresh username and a password succeeds |
| Admins.FindAll | backend/src/modules/admin/admin.service.ts:45-50 | `order: createdAt DESC`: one sanitised view per row, the newest (last appended) row first |
| Admins.CreatedAdminListedFirst | backend/src/modules/admin/admin.service.ts:18-50 | after a creation the listing is the new admin followed by the listing as it was |
| Admins.FindOne | backend/src/modules/admin/admin.service.ts:52-58 | NotFound exactly when no row has the id; otherwise the sanitised row with that id |
| Admins.Update | backend/src/modules/admin/admin.service.ts:68-95 | NotFound for a missing id; a changed username held by a row is 'Username already exists', checked before a changed email held by a row, 'Email already exists'; success exactly otherwise; only that row changes, by the patch's fields, keeping its hash and id |
| Admins.UpdateWithOwnValuesNoConflict | backend/src/modules/admin/admin.service.ts:74-83 | sending back the admin's own username and email never conflicts |
| Admins.UpdatePreservesValid | backend/src/modules/admin/admin.service.ts:68-95 | a well-formed patch keeps id, username and email unique |
| Admins.Remove | backend/src/modules/admin/admin.service.ts:97-103 | NotFound exactly for a missing id; otherwise exactly the rows with other ids remain |
| Admins.UpdateLastLogin | backend/src/modules/admin/admin.service.ts:105-107 | the rows with that id get the new last login and nothing else changes; a missing id changes nothing |
| Admins.UpdateLastLoginPreservesValid | backend/src/modules/admin/admin.service.ts:105-107 | stamping the last login keeps the keys unique |
| ApiAdmins.FindById | api/backend/src/modules/admin/admin.service.ts:42 | a row with that id, or none exactly when no row has it |
| ApiAdmins.FindByEmail | api/backend/src/modules/admin/admin.service.ts:49-51 | a row with that email, or none exactly when no row has it |
| ApiAdmins.Create | api/backend/src/modules/admin/admin.service.ts:18-33 | Conflict exactly for a taken email; otherwise one active row is appended with role defaulting to ADMIN |
| ApiAdmins.CreatePreservesValid | api/backend/src/modules/admin/admin.service.ts:18-33 | with a fresh id, creating keeps ids and emails unique |
| ApiAdmins.FindOne | api/backend/src/modules/admin/admin.service.ts:41-47 | NotFound exactly when no row has the id; otherwise a row with that id |
| ApiAdmins.Update | api/backend/src/modules/admin/admin.service.ts:53-70 | NotFound for a missing id; success exactly when a changed email is not held by another row; only that row changes, by the patch |
| ApiAdmins.UpdatePreservesValid | api/backend/src/modules/admin/admin.service.ts:53-70 | a patch without an empty email keeps ids and emails unique |
| ApiAdmins.Remove | api/backend/src/modules/admin/admin.service.ts:72-78 | NotFound exactly for a missing id; otherwise exactly the rows with other ids remain |
| ApiAdmins.UpdateLastLogin | api/backend/src/modules/admin/admin.service.ts:80-82 | the rows with that id get the new last login and nothing else changes |
| SontaHeads.Create | api/backend/src/modules/sonta-heads/sonta-heads.service.ts:51-91 | a taken phone is refused before a missing photo; success exactly when the phone is free and the photo shows a face; one head is appended with the request's name, Sonta name, phone, email and notes, the stored photo's URL and path, the sealed embedding and status defaulting to ACTIVE |
| SontaHeads.CreatePreservesValid | api/backend/src/modules/sonta-heads/sonta-heads.service.ts:55-60 | with a fresh id, creating keeps ids and phone numbers unique |
| SontaHeads.Update | api/backend/src/modules/sonta-heads/sonta-heads.service.ts:138-182 | NotFound for a missing id; a changed phone held by someone is a Conflict; a faceless new photo is refused; on success only that head changes: name, phone, email, notes and status follow the patch where given and stay otherwise, the Sonta name stays, and a new photo replaces URL, path and embedding and routes the old image for deletion |
| SontaHeads.UpdatePreservesValid | api/backend/src/modules/sonta-heads/sonta-heads.service.ts:145-152 | an update with a non-empty phone keeps ids and phone numbers unique |
| SontaHeads.FindOne | api/backend/src/modules/sonta-heads/sonta-heads.service.ts:126-132 | NotFound exactly when no head has the id; otherwise a head with that id |
| SontaHeads.Remove | api/backend/src/modules/sonta-heads/sonta-heads.service.ts:184-193 | NotFound exactly for a missing id; otherwise exactly the heads with other ids remain and the removed head's image is routed for deletion |
| SontaHeads.RemovePreservesValid | api/backend/src/modules/sonta-heads/sonta-heads.service.ts:184-193 | removing keeps ids and phone numbers unique |
| SontaHeads.Filter | api/backend/src/modules/sonta-heads/sonta-heads.service.ts:106-108 | exactly the heads with the status, never more than there were |
| SontaHeads.Selection | api/backend/src/modules/sonta-heads/sonta-heads.service.ts:97-108 | exactly the heads whose name or phone contains a non-empty search, and that have the status when one is given |
| SontaHeads.SelectionWithoutSearch | api/backend/src/modules/sonta-heads/sonta-heads.service.ts:97-108 | without a search, the listing for a status is the status filter, and with an empty search and no status it is every head |
| SontaHeads.NewestFirst | api/backend/src/modules/sonta-heads/sonta-heads.service.ts:110-111 | `createdAt DESC` over a table kept in creation order: the selected heads read backwards, each exactly once |
| SontaHeads.CreatedHeadListedFirst | api/backend/src/modules/sonta-heads/sonta-heads.service.ts:51-91 | after a successful create, the new head comes first in the newest-first listing when the query selects it, ahead of the earlier listing unchanged; otherwise the listing is unchanged |
| SontaHeads.FindAll | api/backend/src/modules/sonta-heads/sonta-heads.service.ts:93-124 | the total counts the heads matching the search and the status; the page numbers follow `Paginate`; the page's rows are exactly the window at `skip` of the selection newest first, at most `limit` of them |
| SontaHeads.FindAllPagesCoverListing | api/backend/src/modules/sonta-heads/sonta-heads.service.ts:93-124 | paging through the newest-first listing shows each selected head exactly once: row i is on page `i / limit + 1`, at place `i - skip`, and on no other page |
| Analytics.Bucket | api/backend/src/modules/analytics/analytics.service.ts:297-299 | the bucket is a multiple of 15 minutes whose quarter hour contains the check-in's offset from the start, flooring toward minus infinity |
| Analytics.Add | api/backend/src/modules/analytics/analytics.service.ts:301 | exactly the bucket's count goes up by one, and the total by one |
| Analytics.AddKeepsAscending | api/backend/src/modules/analytics/analytics.service.ts:301-305 | adding a check-in keeps the entries in strictly ascending bucket order |
| Analytics.AddKeepsOccupied | api/backend/src/modules/analytics/analytics.service.ts:301 | adding a check-in keeps every entry's count at least one |
| Analytics.AddKeepsAbove | api/backend/src/modules/analytics/analytics.service.ts:301 | adding a check-in to a bucket above a bound keeps every entry above that bound |
| Analytics.Tally | api/backend/src/modules/analytics/analytics.service.ts:294-305 | the sorted interval map: ascending distinct occupied buckets whose counts are the multiplicities of the bucket list, totalling its length |
| Analytics.CountInSlot | api/backend/src/modules/analytics/analytics.service.ts:305 | in a sorted map a bucket's count is its own entry's count |
| Analytics.CountInFound | api/backend/src/modules/analytics/analytics.service.ts:301 | a bucket with check-ins has an entry |
| Analytics.LabelInjective | api/backend/src/modules/analytics/analytics.service.ts:311 | different buckets get different `+Nmin` labels |
| Analytics.Label | api/backend/src/modules/analytics/analytics.service.ts:311 | the `time` text is '+', the bucket's minutes, then 'min'; it continues with a digit exactly for a non-negative bucket |
| Analytics.Running | api/backend/src/modules/analytics/analytics.service.ts:306-315 | one line per entry, carrying its bucket and count |
| Analytics.RunningEnds | api/backend/src/modules/analytics/analytics.service.ts:306-315 | the first line's cumulative is the start value plus the first count; the last one's is the start value plus the total |
| Analytics.RunningStep | api/backend/src/modules/analytics/analytics.service.ts:308-313 | each later cumulative is the previous cumulative plus its entry's count |
| Analytics.RunningGrows | api/backend/src/modules/analytics/analytics.service.ts:306-315 | over occupied entries the cumulative strictly increases from any line to any later line |
| Analytics.Buckets | api/backend/src/modules/analytics/analytics.service.ts:296-299 | one bucket per check-in, relative to the actual start |
| Analytics.Timeline | api/backend/src/modules/analytics/analytics.service.ts:287-288 | a meeting that never started has an empty timeline |
| Analytics.SlotCountsItsBucket | api/backend/src/modules/analytics/analytics.service.ts:296-302 | each entry counts exactly the check-ins of its bucket, at least one, and its bucket is a multiple of 15 |
| Analytics.CheckInHasSlot | api/backend/src/modules/analytics/analytics.service.ts:296-302 | every check-in's bucket has an entry |
| Analytics.SlotsShape | api/backend/src/modules/analytics/analytics.service.ts:294-305 | the entries are strictly ascending, each counts exactly its bucket's check-ins, every check-in is covered, and the counts total the check-ins |
| Analytics.TimelineLines | api/backend/src/modules/analytics/analytics.service.ts:287-318 | a started meeting's timeline has one line per entry, with the entry's bucket and count |
| Analytics.TimelineClimbs | api/backend/src/modules/analytics/analytics.service.ts:287-318 | a started meeting's cumulative strictly increases from line to line and ends at the number of check-ins |
| Analytics.RunningClimbs | api/backend/src/modules/analytics/analytics.service.ts:306-315 | from a start of 0 over occupied entries, the cumulative strictly increases and ends at the total |
| Analytics.Percent | api/backend/src/modules/analytics/analytics.service.ts:157-160 | a rate is 0 when the divisor is not positive, non-negative for a non-negative part, and at most 100 when the part is at most the whole |
| Analytics.Expected | api/backend/src/modules/analytics/analytics.service.ts:136 | a truthy expected head count is kept; otherwise 0 |
| Analytics.FindMeeting | api/backend/src/modules/analytics/analytics.service.ts:122-124 | a meeting with that id, or none exactly when no meeting has it |
| Analytics.MeetingAnalytics | api/backend/src/modules/analytics/analytics.service.ts:121-178 | NotFound exactly for an unknown meeting; otherwise the meeting's records ordered by check-in time ascending, their statistics against the meeting's expected attendance, and their timeline |
| Analytics.MeetingStatisticsOf | api/backend/src/modules/analytics/analytics.service.ts:136-163 | actual is the number of check-ins; late, on time, manual and facial are their counts, splitting into on time plus late and manual plus facial; the attendance rate is `actual / expected * 100` and the late rate `late / actual * 100`, 0 for a zero divisor, the late rate in [0,100] |
| Analytics.SortOldestFirst | api/backend/src/modules/analytics/analytics.service.ts:130-134 | `order: checkInTimestamp ASC`: the result is oldest first and a permutation of the input |
| Analytics.MeetingAnalyticsCountsRoster | api/backend/src/modules/analytics/analytics.service.ts:121-178 | the meeting report holds the same check-ins as the attendance roster of that meeting, and its actual, late and manual counts are the roster's |
| Analytics.SortNewestFirst | api/backend/src/modules/analytics/analytics.service.ts:80-84 | the result is newest first and a permutation of the input |
| Analytics.MeetingsCount | api/backend/src/modules/analytics/analytics.service.ts:244-255 | the meetings in the period are never more than all meetings |
| Analytics.HeadStatisticsOf | api/backend/src/modules/analytics/analytics.service.ts:86-106 | attended is the count of check-ins, missed is meetings minus attended, on time plus late is attended; the attendance rate is `attended / meetings * 100` and the late rate `late / attended * 100`, 0 for a zero divisor, the late rate in [0,100] |
| Analytics.Recent | api/backend/src/modules/analytics/analytics.service.ts:107 | at most ten check-ins, drawn from the head's, newest first |
| Analytics.RecentAreNewest | api/backend/src/modules/analytics/analytics.service.ts:83-107 | no check-in left out of the recent ten is newer than one in it |
| Analytics.SontaHeadAnalytics | api/backend/src/modules/analytics/analytics.service.ts:62-119 | NotFound exactly for an unknown head; otherwise the statistics of the head's check-ins in the period against the meetings in the period, and the newest ten |
| Analytics.MissedCanBeNegative | api/backend/src/modules/analytics/analytics.service.ts:101 | one check-in and no meetings in the period gives missed = -1 |
| Analytics.MeetingRate | api/backend/src/modules/analytics/analytics.service.ts:275-281 | a meeting's rate is non-negative and 0 without a positive expected count |
| Analytics.SumRates | api/backend/src/modules/analytics/analytics.service.ts:273-282 | the summed rates are non-negative |
| Analytics.MeanRate | api/backend/src/modules/analytics/analytics.service.ts:271-284 | no meetings give 0; otherwise the mean is non-negative |
| Analytics.AverageAttendanceRate | api/backend/src/modules/analytics/analytics.service.ts:257-285 | no meeting in the period gives 0; the average is never negative |
| Analytics.UnexpectedMeetingDilutes | api/backend/src/modules/analytics/analytics.service.ts:278-284 | a meeting without an expected count adds nothing to the sum but still counts in the divisor |
| Analytics.AverageAtMostHundred | api/backend/src/modules/analytics/analytics.service.ts:271-284 | when no meeting has more check-ins than expected, the average is at most 100 |
| Analytics.GetOverview | api/backend/src/modules/analytics/analytics.service.ts:20-60 | the period's meeting and check-in counts, the active heads, the late and the manual check-ins among the period's, each rate that count over the check-ins times 100 (0 for none, within [0,100]), and the average rate rounded to the nearest integer |
| Export.Fetch | api/backend/src/modules/analytics/export.service.ts:20-42 | exactly the rows matching every given filter, newest first, a permutation of the selected rows |
| Export.OverviewCountsExportRows | api/backend/src/modules/analytics/export.service.ts:20-42 | for the same period and no meeting or head filter, the overview's total, late and manual counts are the exported rows, their late rows and their manual rows |
| Export.EmptyQueryExportsAll | api/backend/src/modules/analytics/export.service.ts:21-36 | with no filter every attendance row is exported |
| Export.HalfPeriodIgnored | api/backend/src/modules/analytics/export.service.ts:31-36 | a single or empty date bound filters nothing |
| Export.Cells | api/backend/src/modules/analytics/export.service.ts:57-66 | eight cells: name, phone, title, local time, 'Present'; 'Manual' exactly for manual check-ins, else 'Facial Recognition'; 'N/A' exactly for a missing or zero score, else the score with one decimal and '%'; 'Yes' exactly for late, else 'No' |
| Export.ZeroScoreIsNotAvailable | api/backend/src/modules/analytics/export.service.ts:64 | with the score read as a number, a confidence score of 0 is shown as 'N/A' |
| Export.ScoreCellAsWritten | api/backend/src/modules/analytics/export.service.ts:64 | with the score as the decimal column's text, the cell is 'N/A' exactly for a missing score, and any stored score throws because a string has no `toFixed` |
| Export.CsvAsWritten | api/backend/src/modules/analytics/export.service.ts:20-74 | with the score as text, the export fails exactly when a selected row has a score, and otherwise is the corrected CSV |
| Export.ScoredRowBreaksExport | api/backend/src/modules/analytics/export.service.ts:64 | one selected row with a stored score of 0 makes the export as written fail, where the corrected cell reads 'N/A' |
| Export.Body | api/backend/src/modules/analytics/export.service.ts:57 | one row of cells per fetched attendance row |
| Export.Quoted | api/backend/src/modules/analytics/export.service.ts:70 | every cell wrapped in '"' |
| Export.LineOne | api/backend/src/modules/analytics/export.service.ts:70 | a one-cell line is that cell quoted |
| Export.LineCons | api/backend/src/modules/analytics/export.service.ts:70 | a line is its first quoted cell, ',' and the line of the rest |
| Export.Lines | api/backend/src/modules/analytics/export.service.ts:69-70 | one line per grid row |
| Export.QuoteAvoids | api/backend/src/modules/analytics/export.service.ts:70 | quoting adds no character other than '"' |
| Export.LineAvoids | api/backend/src/modules/analytics/export.service.ts:70 | a line holds no character, other than '"' and ',', that its cells lack |
| Export.RenderSplits | api/backend/src/modules/analytics/export.service.ts:69-71 | without line breaks in the cells, splitting the CSV on newlines gives back one line per row |
| Export.ExportAvoids | api/backend/src/modules/analytics/export.service.ts:45-66 | the export's grid avoids a character when the header and every selected row do |
| Export.HeaderAvoids | api/backend/src/modules/analytics/export.service.ts:45-54 | the header holds no newline, ',' or '"' |
| Export.CsvLines | api/backend/src/modules/analytics/export.service.ts:20-74 | the CSV has one line more than the fetched rows: the header line first, then line i+1 is the i-th row newest first |
| Export.Csv | api/backend/src/modules/analytics/export.service.ts:20-74 | the CSV opens with the header line; with no selected row it is the header line alone, and otherwise the header line is followed by a line break and the newest row's line |
| Export.RenderOpens | api/backend/src/modules/analytics/export.service.ts:69-71 | a rendered grid opens with its first line, then a line break and the second line when there is one |
| Export.QuoteAt | api/backend/src/modules/analytics/export.service.ts:70 | the position of the first '"', or the length when there is none |
| Export.UnquoteLast | api/backend/src/modules/analytics/export.service.ts:70 | a quoted cell without '"' reads back as that single cell |
| Export.UnquoteStep | api/backend/src/modules/analytics/export.service.ts:70 | reading a quoted cell, ',' and a tail gives the cell followed by the tail's cells |
| Export.UnquoteLine | api/backend/src/modules/analytics/export.service.ts:70 | cells without '"' are read back exactly from their line, commas included |
| Export.EmbeddedQuoteIsAmbiguous | api/backend/src/modules/analytics/export.service.ts:70 | the one cell `a","b` and the two cells `a` and `b` give the same line |
| Export.Table | api/backend/src/modules/analytics/export.service.ts:87 | the text table has no ',' and no '"' |
| Export.TableConcat | api/backend/src/modules/analytics/export.service.ts:87 | the replacement distributes over concatenation |
| Export.TableQuote | api/backend/src/modules/analytics/export.service.ts:87 | a quoted plain cell comes back as the cell |
| Export.TableLine | api/backend/src/modules/analytics/export.service.ts:70-87 | a CSV line of plain cells becomes the cells separated by ' pipe ' (space, vertical bar, space) |
| Export.SpacedLines | api/backend/src/modules/analytics/export.service.ts:87 | one separated line per grid row |
| Export.TableRender | api/backend/src/modules/analytics/export.service.ts:69-87 | the table of a plain rendered grid is its separated rows joined by newlines |
| Export.Period | api/backend/src/modules/analytics/export.service.ts:85 | 'All Time' exactly when the two dates are not both given, else 'Period: start to end' |
| Export.ReportTable | api/backend/src/modules/analytics/export.service.ts:76-94 | with plain cells the report's table is the header and then one separated line per fetched row |
| Export.TableSplits | api/backend/src/modules/analytics/export.service.ts:87 | splitting the table of a plain grid on newlines gives its separated rows |
| Export.SpacedAvoids | api/backend/src/modules/analytics/export.service.ts:87 | separating cells adds only spaces and the bar |
| Export.Report | api/backend/src/modules/analytics/export.service.ts:76-93 | the report opens with the title, the generation time and the period line, and closes with the 'End of Report' footer |
| Encryption.CharBytes | api/backend/src/services/encryption.service.ts:21 | a character's UTF-8 encoding is 1 to 4 bytes, exactly one for ASCII |
| Encryption.Utf8 | api/backend/src/services/encryption.service.ts:21 | the encoding is at least as long as the text, and exactly as long precisely when the text is ASCII |
| Encryption.KeyBytesAsWritten | api/backend/src/services/encryption.service.ts:20-21 | the encoding of the first 32 characters has at least 32 bytes |
| Encryption.KeyBytes | api/backend/src/services/encryption.service.ts:20 | the first 32 bytes of the key's encoding |
| Encryption.AccentedKeyIsTooLong | api/backend/src/services/encryption.service.ts:14-21 | a key of 32 copies of U+00E9 passes the length check and yields 64 key bytes as written |
| Encryption.Utf8Length | api/backend/src/services/encryption.service.ts:21 | characters of one encoded width w encode to w times as many bytes |
| Encryption.AsciiKeysAgree | api/backend/src/services/encryption.service.ts:20-21 | for an ASCII key both readings give the same 32 bytes |
| Encryption.Utf8Prefix | api/backend/src/services/encryption.service.ts:21 | for ASCII text the encoding of a prefix is the prefix of the encoding |
| Encryption.Construct | api/backend/src/services/encryption.service.ts:11-23 | accepted exactly when a key of at least 32 characters is configured, giving 32 key bytes; otherwise the length message |
| Encryption.ConstructAsWritten | api/backend/src/services/encryption.service.ts:11-23 | accepted exactly as above, but with at least 32 key bytes |
| Encryption.BytesOf | api/backend/src/services/encryption.service.ts:43 | four bytes per float |
| Encryption.FloatsOf | api/backend/src/services/encryption.service.ts:95-99 | the whole floats the bytes hold, each its own four bytes, a trailing remainder dropped |
| Encryption.FloatsRoundTrip | api/backend/src/services/encryption.service.ts:43-99 | reading an embedding's bytes back gives the embedding |
| Encryption.Frame | api/backend/src/services/encryption.service.ts:55 | the buffer is the 12-byte IV, the 16-byte tag and the data, at those offsets |
| Encryption.Unframe | api/backend/src/services/encryption.service.ts:76-78 | the three slices concatenate back to the buffer, with IV and tag at full length when it is long enough |
| Encryption.FrameRoundTrip | api/backend/src/services/encryption.service.ts:55-78 | slicing a framed buffer gives back IV, tag and data |
| Encryption.Encrypt | api/backend/src/services/encryption.service.ts:30-66 | success exactly when the key is 32 bytes and the cipher's tag is 16 bytes; any failure is 'Encryption failed'; the result starts with the IV |
| Encryption.Decrypt | api/backend/src/services/encryption.service.ts:73-110 | any failure is the one corruption message; success needs a 32-byte key and a tag the cipher accepts |
| Encryption.EmbeddingRoundTrip | api/backend/src/services/encryption.service.ts:30-110 | with a sound cipher and a 32-byte key an embedding encrypts and decrypts back to itself |
| Encryption.ConstructedKeyEncrypts | api/backend/src/services/encryption.service.ts:11-66 | every key the corrected constructor accepts can encrypt |
| Encryption.AccentedKeyCannotEncrypt | api/backend/src/services/encryption.service.ts:14-64 | as written, the accented key is accepted yet every encryption fails with 'Encryption failed' |
| Encryption.ColonNotInBase64 | api/backend/src/services/encryption.service.ts:131 | standard Base64 text never holds ':' |
| Encryption.EncryptString | api/backend/src/services/encryption.service.ts:115-132 | success exactly for a 32-byte key, giving three ':'-separated fields; otherwise the cipher's key error escapes |
| Encryption.DecryptString | api/backend/src/services/encryption.service.ts:137-157 | anything but three fields is the format error; success needs a 32-byte key and fields that decode and authenticate |
| Encryption.StringRoundTrip | api/backend/src/services/encryption.service.ts:115-157 | a string encrypted under a key decrypts to itself under the same key |
| Dtos.Length | backend/src/modules/sonta-heads/dto/create-sonta-head.dto.ts:17 | the measured length never exceeds the character count, and equals it when no variation selector occurs |
| Dtos.MatchPhone | backend/src/modules/sonta-heads/dto/create-sonta-head.dto.ts:29-31 | the one-pass matcher accepts exactly an optional '+' followed by 10 to 15 ASCII digits |
| Dtos.PlaceErrors | backend/src/modules/meetings/dto/create-meeting.dto.ts:16-53 | title and location name must be non-empty strings, description and address strings when present, latitude in [-90,90], longitude in [-180,180], a present radius in [10,1000]; each field fails exactly when its check does |
| Dtos.TimeErrors | backend/src/modules/meetings/dto/create-meeting.dto.ts:55-68 | both times must be ISO date strings, a present late cut-off a number in [1,120], a present expected count a number of at least 1 |
| Dtos.QrErrors | backend/src/modules/meetings/dto/create-meeting.dto.ts:70-91 | a present strategy must be one of the three values; the expiry minutes are checked only under the time-based strategy and the scan limit only under max scans, each at least 1 when present |
| Dtos.MeetingErrors | backend/src/modules/meetings/dto/create-meeting.dto.ts:15-98 | a meeting request is valid exactly when the place, time and QR checks all pass |
| Dtos.ExpiryMinutesIgnored | backend/src/modules/meetings/dto/create-meeting.dto.ts:83 | outside the time-based strategy any value of the expiry minutes leaves the errors unchanged |
| Dtos.MaxScansIgnored | backend/src/modules/meetings/dto/create-meeting.dto.ts:90 | outside the max-scans strategy any value of the scan limit leaves the errors unchanged |
| Dtos.ExpiryMinutesStillOptional | backend/src/modules/meetings/dto/create-meeting.dto.ts:81-83 | under the time-based strategy the expiry minutes may still be left out |
| Dtos.MinimalMeetingAccepted | backend/src/modules/meetings/dto/create-meeting.dto.ts:15-98 | a request with only the required fields, well formed, has no errors |
| Dtos.ParseStatus | backend/src/modules/sonta-heads/entities/sonta-head.entity.ts:9-13 | a status string is accepted exactly when it is one of the three values, and names that value |
| Dtos.StatusRoundTrip | backend/src/modules/sonta-heads/entities/sonta-head.entity.ts:9-13 | every status parses back from its database value |
| Dtos.CreateHeadErrors | backend/src/modules/sonta-heads/dto/create-sonta-head.dto.ts:13-52 | the name must be a non-empty string of at most 255, the phone must match the pattern, and sonta name, email, notes and status are checked only when present; each field fails exactly when its check does |
| Dtos.UpdateHeadErrors | backend/src/modules/sonta-heads/dto/update-sonta-head.dto.ts:12-44 | every property is optional and checked only when present, and the update has no sonta name |
| Dtos.EmptyUpdateValid | backend/src/modules/sonta-heads/dto/update-sonta-head.dto.ts:12-44 | an empty update has no errors |
| Dtos.CreateValidUpdateValid | backend/src/modules/sonta-heads/dto/update-sonta-head.dto.ts:12-44 | whatever a valid new Sonta Head carries, an update may carry too |
| Dtos.UpdateMayBlankName | backend/src/modules/sonta-heads/dto/update-sonta-head.dto.ts:13-17 | an update may set the name to '' while a new Sonta Head may not have it |
| Dtos.OptionalText | backend/src/modules/sonta-heads/dto/create-sonta-head.dto.ts:34-42 | a value exactly when the optional property is present |
| Dtos.HeadFormOf | backend/src/modules/sonta-heads/dto/create-sonta-head.dto.ts:13-52 | a valid request gives a form with a non-empty name of at most 255, a Sonta name of at most 255 exactly when one was sent, a phone matching the pattern, an accepted email when present, and the status it named |
| Web.Segments | web/src/components/layout/site-header.tsx:21 | every segment of a path is non-empty and holds no '/' |
| Web.Capitalize | web/src/components/layout/site-header.tsx:42 | same length, the first character upper-cased and the rest kept |
| Web.Label | web/src/components/layout/site-header.tsx:28-42 | a mapped segment gets its fixed label, any other its capitalised self; a non-empty segment never gets an empty label |
| Web.Breadcrumbs | web/src/components/layout/site-header.tsx:20-55 | Dashboard first, then one crumb per segment after the first, labelled; exactly the last crumb has no link, the others link to the path up to their segment |
| Web.SegmentsOfPath | web/src/components/layout/site-header.tsx:21-49 | splitting a path built from segments gives back those segments |
| Web.CrumbLinksAreAncestors | web/src/components/layout/site-header.tsx:38-52 | every link in a page's trail is a prefix of the page's path |
| Web.Run | web/src/components/check-in/qr-scanner.tsx:43 | the longest prefix of token characters: all of them are, and the next character is not |
| Web.FirstMatch | web/src/components/check-in/qr-scanner.tsx:43 | the leftmost position of the pattern at or after k, or none when there is none |
| Web.Extract | web/src/components/check-in/qr-scanner.tsx:40-47 | no match leaves the text; otherwise the token is the maximal non-empty run of token characters right after the first match |
| Web.NoMatchBeforeMarker | web/src/components/check-in/qr-scanner.tsx:43 | a URL base without '-' holds no match before the check-in marker |
| Web.ExtractFromUrl | web/src/components/check-in/qr-scanner.tsx:42-46 | a token of token characters after a '-'-free base and the marker is read back exactly |
| Web.Base64UrlCharsAreTokenChars | web/src/components/check-in/qr-scanner.tsx:43 | every base64url character is a token character |
| Web.ScannedUrlGivesToken | api/backend/src/modules/meetings/meetings.service.ts:404 | scanning the check-in URL of a generated QR token hands the scanner exactly that token |
| Web.ImageUrl | web/src/lib/utils.ts:8-13 | no or empty URL gives ''; a URL starting with 'http' is kept; any other gets the API base, or nothing, in front |
| Web.StartsWithConcat | web/src/lib/utils.ts:10 | appending keeps a prefix |
| Web.ImageUrlIdempotent | web/src/lib/utils.ts:8-13 | with an absolute API base, resolving a resolved URL changes nothing |
| Web.RelativeBaseDoubles | web/src/lib/utils.ts:10-12 | with the relative base '/api', resolving twice gives '/api/api/f.jpg' |
| Web.Firsts | web/src/components/layout/header.tsx:35-37 | at most one character per piece |
| Web.Initials | web/src/components/layout/header.tsx:32-40 | at most two letters, and 'AD' for a missing or empty name |
| Web.FirstsOfTwo | web/src/components/layout/header.tsx:36-37 | two leading non-empty pieces give their first characters first |
| Web.InitialsOfWords | web/src/components/layout/nav-user.tsx:40-48 | a name of two or more words gets the upper-cased first letters of the first two |
| Web.BlankNameHasNoInitials | web/src/components/layout/header.tsx:33-39 | a name of spaces only gets no letters rather than 'AD' |
| Web.RoleBadge | web/src/components/layout/nav-user.tsx:50-68 | no badge exactly without a role; 'Super Admin' exactly for a super admin, else 'Admin' |
| Web.ShortName | web/src/components/layout/header.tsx:98 | there is a greeting only for a signed-in user |
| Web.ShortNameIsFirstWord | web/src/components/layout/header.tsx:98 | a full name of words greets with its first word |
| Web.ShortNameFallsBackToEmail | web/src/components/layout/header.tsx:98 | without a full name the greeting is the e-mail's local part |
| Web.MenuName | web/src/components/layout/nav-user.tsx:90 | a non-empty full name is shown, else the e-mail |
| Web.NavUser | web/src/components/layout/nav-user.tsx:70-90 | no menu exactly without a user; otherwise its initials, name and badge |
| Web.Actions | web/src/components/meetings/meeting-card.tsx:166-220 | View always; edit, start and cancel exactly when scheduled; end exactly when active; delete exactly when scheduled or cancelled |
| Web.StatusLabelsDistinct | web/src/components/meetings/meeting-card.tsx:29-65 | two statuses share a label exactly when they are the same |
| Web.StatusLabel | web/src/components/meetings/meeting-card.tsx:29-65 | a status's label is its database spelling with the first letter capitalised |
| Web.OfferedActionsPass | web/src/components/meetings/meeting-card.tsx:174-220 | every action the card offers passes the server's status checks; an offered edit fails only on its dates |
| Web.CardStricterThanServer | web/src/components/meetings/meeting-card.tsx:200-220 | the server would delete an ended meeting and cancel a cancelled one again, but the card offers neither |
| Web.Defaults | web/src/components/meetings/meeting-form.tsx:84-96 | a new form starts until-end, radius 100, from 09:00 to 11:00 |
| Web.Number | web/src/components/meetings/meeting-form.tsx:141-142 | a string reads as a number exactly when it is all digits: '' as 0 and a digit string as its value |
| Web.Clock | web/src/components/meetings/meeting-form.tsx:141-142 | a time reads as hours and minutes exactly when splitting on ':' gives at least two pieces and the first two are all digits; such a time holds ':' |
| Web.TwoDigits | web/src/components/meetings/meeting-form.tsx:113-114 | two digits |
| Web.TwoDigitsValue | web/src/components/meetings/meeting-form.tsx:113-114 | the two digits read back as the number |
| Web.ClockRoundTrip | web/src/components/meetings/meeting-form.tsx:113-142 | a time the edit form writes as 'HH:mm' is read back by submit as the same hours and minutes |
| Web.Submit | web/src/components/meetings/meeting-form.tsx:140-168 | a payload exactly when both times read; the expiry minutes only under time-based, the scan limit only under max scans; the times set on the chosen date; the other fields copied |
| Web.Body | web/src/components/meetings/meeting-form.tsx:150-168 | the request body carries the title, place, times and strategy, and carries each optional field exactly when the payload has it |
| Web.AcceptedFormPassesServer | web/src/components/meetings/meeting-form.tsx:45-168 | a form the schema accepts submits a body the server's create validation accepts |

## Left out

- Numbers: distances, similarities and confidences are exact reals. The services compute them in IEEE doubles, and the face service in Float32. Rounding (`Math.round`, `toFixed`) is modelled on the exact value.
- Analytics.Timeline: a line keeps its bucket in minutes instead of the `+Nmin` text. The text is `Analytics.Label`, and Analytics.LabelInjective shows that no two buckets share a text.
- Attendance.AttendanceRate: states the bound on the exact quotient `checked * 100 / active`, not on the double JavaScript rounds it to first.
- Geofence: the Haversine distance arrives as a parameter; the trigonometry is not modelled.
- Clock and calendar: `Date.now()` is the parameter `now` in milliseconds. `setHours`, local-time formatting (`toLocaleString`), ISO 8601 parsing and daylight-saving shifts arrive as functions; their results are taken as given.
- Attendance.IsLate: the cut-off is the actual start plus the minutes in plain milliseconds. The service adds them with local-time `setMinutes`, which moves the cut-off by an hour when a daylight-saving change falls between the start and the cut-off; that shift is not modelled.
- Photos and images: saving uploads to disk, resizing with Sharp, the Cloudinary upload and the QR image rendering are left out. `deleteImageFile` is kept only as the routing of which store a path belongs to.
- Face models: face detection and embedding extraction are not modelled. The detector's output (the number of faces, the box, the descriptor) and the decoded image are inputs. In the API service, `ensureReady`'s model loading and health check are reduced to a `ready` flag.
- The error text numpy produces for mismatched embedding lengths in the face service is replaced by a fixed message.
- WebSocket events emitted after check-ins and status changes are left out. They carry no result back to the caller.
- Concurrency: two requests racing on the same meeting or head are not modelled. Each operation runs alone against a repository value.
- `getPendingVerifications` in the attendance service, and `getActiveCount` and `getAllActive` in the Sonta Heads service, are plain queries used by no modelled operation; they are left out.
- SontaHeads.Selection: `ILIKE` is modelled as case-sensitive substring containment, with a '%' or '_' in the search taken literally rather than as a wildcard.
- SontaHeads.FindAll: inherits the `ILIKE` approximation of SontaHeads.Selection; `createdAt DESC` is modelled as the reverse of the table's creation order, so heads created within the same millisecond keep that order rather than the database's.
- SontaHeads.Update: the update DTO declares no `sontaName`, so the patch carries none and the Sonta name never changes on update.
- Base64.UrlRoundTrip, Base64.DecodeUrl, Base64.DecodeStd: decoding is strict. Node's decoder skips characters outside the alphabet and ignores misplaced padding; here such text is rejected, so a token with such characters reads as 'Invalid QR format'.
- QrToken.AsciiText: a byte of 128 or more makes decoding fail, where Node's `toString('utf-8')` substitutes U+FFFD for an invalid sequence and decodes valid multi-byte UTF-8. The tokens the service generates are ASCII, so only a token it did not issue is affected, and such a token is refused either way; the error text may differ.
- QrToken.Text: inherits the strict Base64 and ASCII decoding above; a token Node would decode leniently is refused here.
- Encryption.DecryptString: inherits the strict standard Base64 decoding; a stored field with characters outside the alphabet fails here where Node would skip them.
- Cryptography: HMAC-SHA256, JWT signing and verification, bcrypt (as the pair `hash` and `matches`) and AES-256-GCM are parameters. `crypto.randomBytes` is given bytes. Sending the magic-link email is left out.
- Fresh ids and random tokens are preconditions, not error paths: the caller passes an id that is not in use.
- Admins.Create: models the request the service reads (with `username` and `password`), not the `CreateAdminDto` the backend declares; Admins.CreateAsWritten models the declared one, see Findings.
- Auth: `getProfile`, which only reads the admin back, is left out.
- Analytics: `getAttendanceTrends` and `getAttendanceHistory` group by calendar day through the database's date functions. They are left out.
- Export.Report: the PDF is modelled as the text it would hold. Page layout, fonts and the PDF byte format are left out. Rows with equal timestamps keep the repository order.
- Export.Quoted: cells are wrapped in '"' without doubling an embedded '"', as the export service does. Export.EmbeddedQuoteIsAmbiguous shows the consequence; the read-back lemmas only cover cells without '"'.
- Encryption: the GCM cipher is an abstract pair of functions. `decryptString` is modelled as returning the plaintext bytes. The `Float32Array` buffer alignment and byte order are taken as given by the word encoding.
- Encryption.Construct: the key length counts characters, where JavaScript's `key.length` counts UTF-16 code units. The two agree below U+10000.
- Dtos: `isEmail` and `isISO8601` are predicates given as parameters.
- Dtos and Web: zod's `max(255)` is modelled as counting characters, where JavaScript counts UTF-16 code units.
- Web: upper-casing is ASCII-only. A breadcrumb segment that names a property of `Object.prototype` would read from the prototype in `labelMap`; the model looks up only the map's own keys.
- Web: `Number()` is modelled only for the empty string and strings of digits, the inputs the form's fields produce.
- Web.ScannedUrlGivesToken: requires a frontend base without '-'. A base that itself contains a check-in path segment would be captured first by the scanner's pattern.
- Web.ImageUrlIdempotent: holds only for an API base starting with "http". Web.RelativeBaseDoubles shows the doubling of a relative base.
- Auth.ChangedPasswordLogsIn: assumes a bcrypt whose `matches` accepts what `hash` produced, rather than modelling bcrypt itself.

## Findings

| source | as written | input that shows it | evidently intended | confidence | as-written member | corrected member |
|---|---|---|---|---|---|---|
| api/backend/src/services/encryption.service.ts:20-21 | the key is cut to its first 32 characters and then encoded as UTF-8 | a key of 32 copies of 'é' gives 64 bytes, so AES-256 refuses the key and every encryption fails with 'Encryption failed' | a key of exactly 32 bytes: cut the encoded bytes, not the characters | not executed | Encryption.AccentedKeyCannotEncrypt | Encryption.ConstructedKeyEncrypts |
| backend/src/modules/admin/admin.service.ts:18-43 | `create` reads `username` and `password`, which the backend `CreateAdminDto` does not declare; the username lookup then has an undefined key, which TypeORM drops, so it matches any row | an empty table: the insert fails on the NOT NULL `username` column; one stored admin: every request is 'Username already exists' | the DTO declares `username` and `password`, so a fresh username with a password creates the admin | not executed | Admins.CreateAsWritten | Admins.Create |
| backend/src/modules/auth/auth.service.ts:135-136 | the new password is assigned to the entity's `password` property, which has no `@Column`, and the admin is saved; the save compares only columns, finds none changed, issues no update and so never runs the `@BeforeUpdate` hook that hashes `password` into `passwordHash` | an admin with hash `h`, the right current password and new password 'n': the call succeeds, the stored hash stays `h`, the old password still signs in and 'n' does not | the hook runs (or the service hashes the password itself), so the new password's hash is stored | not executed | Auth.ChangePasswordAsWritten | Auth.ChangePassword |
| api/backend/src/modules/analytics/export.service.ts:64 | the confidence cell calls `toFixed` on `facialConfidenceScore`, a decimal column that the Postgres driver returns as a string | one selected check-in with a stored score, even '0.00': the string is truthy and has no `toFixed`, so the export throws | read the score as a number, showing one decimal and '%', or 'N/A' for a missing or zero score | not executed | Export.CsvAsWritten | Export.Cells |
