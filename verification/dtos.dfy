/**
 * Request validation for meetings and Sonta Heads (the `class-validator`
 * decorators of the older backend's DTOs). A request body is a record of
 * JSON values; validation yields the set of properties that fail.
 *
 * The decorators behave as in `class-validator`: `@IsOptional()` switches
 * a property's checks off when its value is `null` or missing,
 * `@ValidateIf(cond)` switches them off when `cond` is false, and a
 * property that is checked passes only when every constraint on it holds.
 * ISO 8601 dates and e-mail addresses are recognised by predicates given
 * as parameters.
 */
module Dtos {
  import opened Wrappers
  import Strings
  import SontaHeads

  /** A property of a JSON request body. */
  datatype Json = Absent | Null | Num(n: real) | Str(s: string) | Bool(b: bool)

  /** The condition `@IsOptional()` adds: the value is neither `null` nor missing. */
  predicate Present(v: Json) {
    !v.Absent? && !v.Null?
  }

  /** `@IsString() @IsNotEmpty()`. */
  predicate Text(v: Json) {
    v.Str? && v.s != ""
  }

  /** `@IsNumber() @Min(lo) @Max(hi)`. */
  predicate Between(v: Json, lo: real, hi: real) {
    v.Num? && lo <= v.n <= hi
  }

  /** `@IsNumber() @Min(lo)`. */
  predicate AtLeast(v: Json, lo: real) {
    v.Num? && lo <= v.n
  }

  /**
   * The length `@MaxLength` measures: characters, not counting the
   * variation selectors U+FE0E and U+FE0F.
   */
  function Length(s: string): (n: nat)
    ensures n <= |s|
    ensures (forall i :: 0 <= i < |s| ==> s[i] as int != 0xFE0E && s[i] as int != 0xFE0F) ==> n == |s|
    decreases |s|
  {
    if |s| == 0 then 0
    else
      var rest := Length(s[1..]);
      assert forall i :: 1 <= i < |s| ==> s[1..][i - 1] == s[i];
      (if s[0] as int == 0xFE0E || s[0] as int == 0xFE0F then 0 else 1) + rest
  }

  /** `@IsString() @MaxLength(k)`. */
  predicate Short(v: Json, k: nat) {
    v.Str? && Length(v.s) <= k
  }

  /** `@IsEnum(E)` for a string enum: one of its values. */
  predicate OneOf(v: Json, values: seq<string>) {
    v.Str? && v.s in values
  }

  /** A string accepted by a validator given as a predicate (`@IsDateString()`, `@IsEmail()`). */
  predicate Satisfies(v: Json, p: string -> bool) {
    v.Str? && p(v.s)
  }

  /** A property fails when its checks are switched on and do not all hold. */
  function Fails<F>(field: F, checked: bool, holds: bool): set<F> {
    if checked && !holds then {field} else {}
  }

  // ---------------------------------------------------------------------
  // The phone number pattern
  // ---------------------------------------------------------------------

  /** Between 10 and 15 ASCII digits. */
  predicate Digits(t: string) {
    10 <= |t| <= 15 && Strings.AllDigits(t)
  }

  /** `^\+?[0-9]{10,15}$`: 10 to 15 digits, or '+' followed by them. */
  predicate PhonePattern(s: string) {
    Digits(s) || (|s| > 0 && s[0] == '+' && Digits(s[1..]))
  }

  /** One left-to-right pass over the number: an optional '+', then a run of digits to the end. */
  method MatchPhone(s: string) returns (ok: bool)
    ensures ok <==> PhonePattern(s)
  {
    var start := if |s| > 0 && s[0] == '+' then 1 else 0;
    var i := start;
    while i < |s| && Strings.IsDigit(s[i])
      invariant start <= i <= |s|
      invariant Strings.AllDigits(s[start..i])
    {
      assert s[start..i + 1] == s[start..i] + [s[i]];
      i := i + 1;
    }
    ok := i == |s| && 10 <= i - start <= 15;
    if start == 1 {
      assert !Digits(s) by {
        assert !Strings.IsDigit(s[0]);
      }
      assert forall k :: 1 <= k < |s| ==> s[1..][k - 1] == s[k];
    } else {
      assert s[start..] == s;
    }
  }

  // ---------------------------------------------------------------------
  // CreateMeetingDto
  // ---------------------------------------------------------------------

  datatype MeetingField = Title | Description | LocationName | LocationAddress | Latitude | Longitude
                        | Radius | ScheduledStart | ScheduledEnd | LateCutoff | Strategy
                        | ExpiryMinutes | MaxScans | ExpectedAttendees

  datatype CreateMeetingDto = CreateMeetingDto(
    title: Json,
    description: Json,
    locationName: Json,
    locationAddress: Json,
    locationLatitude: Json,
    locationLongitude: Json,
    geofenceRadiusMeters: Json,
    scheduledStart: Json,
    scheduledEnd: Json,
    lateArrivalCutoffMinutes: Json,
    qrExpiryStrategy: Json,
    qrExpiryMinutes: Json,
    qrMaxScans: Json,
    expectedAttendees: Json)

  const Strategies: seq<string> := ["until_end", "max_scans", "time_based"]

  /** The checks on the meeting's place and title. */
  function PlaceErrors(d: CreateMeetingDto): (r: set<MeetingField>)
    ensures r <= {Title, Description, LocationName, LocationAddress, Latitude, Longitude, Radius}
    ensures Title !in r <==> d.title.Str? && d.title.s != ""
    ensures LocationName !in r <==> d.locationName.Str? && d.locationName.s != ""
    ensures Description !in r <==> d.description.Absent? || d.description.Null? || d.description.Str?
    ensures LocationAddress !in r <==> d.locationAddress.Absent? || d.locationAddress.Null? || d.locationAddress.Str?
    ensures Latitude !in r <==> d.locationLatitude.Num? && -90.0 <= d.locationLatitude.n <= 90.0
    ensures Longitude !in r <==> d.locationLongitude.Num? && -180.0 <= d.locationLongitude.n <= 180.0
    ensures Radius !in r <==> !Present(d.geofenceRadiusMeters) ||
                              (d.geofenceRadiusMeters.Num? && 10.0 <= d.geofenceRadiusMeters.n <= 1000.0)
  {
    Fails(Title, true, Text(d.title))
    + Fails(Description, Present(d.description), d.description.Str?)
    + Fails(LocationName, true, Text(d.locationName))
    + Fails(LocationAddress, Present(d.locationAddress), d.locationAddress.Str?)
    + Fails(Latitude, true, Between(d.locationLatitude, -90.0, 90.0))
    + Fails(Longitude, true, Between(d.locationLongitude, -180.0, 180.0))
    + Fails(Radius, Present(d.geofenceRadiusMeters), Between(d.geofenceRadiusMeters, 10.0, 1000.0))
  }

  /** The checks on the meeting's times and attendance. */
  function TimeErrors(d: CreateMeetingDto, iso: string -> bool): (r: set<MeetingField>)
    ensures r <= {ScheduledStart, ScheduledEnd, LateCutoff, ExpectedAttendees}
    ensures ScheduledStart !in r <==> d.scheduledStart.Str? && iso(d.scheduledStart.s)
    ensures ScheduledEnd !in r <==> d.scheduledEnd.Str? && iso(d.scheduledEnd.s)
    ensures LateCutoff !in r <==> !Present(d.lateArrivalCutoffMinutes) ||
                                  (d.lateArrivalCutoffMinutes.Num? && 1.0 <= d.lateArrivalCutoffMinutes.n <= 120.0)
    ensures ExpectedAttendees !in r <==> !Present(d.expectedAttendees) ||
                                         (d.expectedAttendees.Num? && d.expectedAttendees.n >= 1.0)
  {
    Fails(ScheduledStart, true, Satisfies(d.scheduledStart, iso))
    + Fails(ScheduledEnd, true, Satisfies(d.scheduledEnd, iso))
    + Fails(LateCutoff, Present(d.lateArrivalCutoffMinutes), Between(d.lateArrivalCutoffMinutes, 1.0, 120.0))
    + Fails(ExpectedAttendees, Present(d.expectedAttendees), AtLeast(d.expectedAttendees, 1.0))
  }

  /**
   * The checks on the QR expiry settings: `qrExpiryMinutes` and
   * `qrMaxScans` are checked only under the strategy they belong to.
   */
  function QrErrors(d: CreateMeetingDto): (r: set<MeetingField>)
    ensures r <= {Strategy, ExpiryMinutes, MaxScans}
    ensures Strategy !in r <==> !Present(d.qrExpiryStrategy) || (d.qrExpiryStrategy.Str? && d.qrExpiryStrategy.s in Strategies)
    ensures ExpiryMinutes in r <==> d.qrExpiryStrategy == Str("time_based") && Present(d.qrExpiryMinutes)
                                    && !(d.qrExpiryMinutes.Num? && d.qrExpiryMinutes.n >= 1.0)
    ensures MaxScans in r <==> d.qrExpiryStrategy == Str("max_scans") && Present(d.qrMaxScans)
                               && !(d.qrMaxScans.Num? && d.qrMaxScans.n >= 1.0)
  {
    Fails(Strategy, Present(d.qrExpiryStrategy), OneOf(d.qrExpiryStrategy, Strategies))
    + Fails(ExpiryMinutes, Present(d.qrExpiryMinutes) && d.qrExpiryStrategy == Str("time_based"),
            AtLeast(d.qrExpiryMinutes, 1.0))
    + Fails(MaxScans, Present(d.qrMaxScans) && d.qrExpiryStrategy == Str("max_scans"), AtLeast(d.qrMaxScans, 1.0))
  }

  /** The properties of a meeting request that fail validation. */
  function MeetingErrors(d: CreateMeetingDto, iso: string -> bool): (r: set<MeetingField>)
    ensures r == {} <==> PlaceErrors(d) == {} && TimeErrors(d, iso) == {} && QrErrors(d) == {}
  {
    PlaceErrors(d) + TimeErrors(d, iso) + QrErrors(d)
  }

  /** Unless the strategy is time-based, `qrExpiryMinutes` is not looked at, whatever it holds. */
  lemma ExpiryMinutesIgnored(d: CreateMeetingDto, iso: string -> bool, v: Json)
    requires d.qrExpiryStrategy != Str("time_based")
    ensures MeetingErrors(d.(qrExpiryMinutes := v), iso) == MeetingErrors(d, iso)
  {
  }

  /** Unless the strategy is max-scans, `qrMaxScans` is not looked at, whatever it holds. */
  lemma MaxScansIgnored(d: CreateMeetingDto, iso: string -> bool, v: Json)
    requires d.qrExpiryStrategy != Str("max_scans")
    ensures MeetingErrors(d.(qrMaxScans := v), iso) == MeetingErrors(d, iso)
  {
  }

  /** A time-based strategy still lets `qrExpiryMinutes` be left out. */
  lemma ExpiryMinutesStillOptional(d: CreateMeetingDto, iso: string -> bool)
    requires d.qrExpiryStrategy == Str("time_based") && d.qrExpiryMinutes.Absent?
    ensures ExpiryMinutes !in MeetingErrors(d, iso)
  {
    assert ExpiryMinutes !in PlaceErrors(d);
    assert ExpiryMinutes !in TimeErrors(d, iso);
    assert ExpiryMinutes !in QrErrors(d);
  }

  /** A request with only the required fields, all well formed, is accepted. */
  lemma MinimalMeetingAccepted(iso: string -> bool, start: string, end: string)
    requires iso(start) && iso(end)
    ensures MeetingErrors(CreateMeetingDto(Str("Service"), Absent, Str("Hall"), Absent, Num(5.6), Num(-0.2), Absent,
                                           Str(start), Str(end), Absent, Absent, Absent, Absent, Absent), iso) == {}
  {
  }

  // ---------------------------------------------------------------------
  // CreateSontaHeadDto and UpdateSontaHeadDto
  // ---------------------------------------------------------------------

  datatype HeadField = Name | SontaName | Phone | Email | Notes | Status

  datatype CreateHeadDto = CreateHeadDto(name: Json, sontaName: Json, phone: Json, email: Json, notes: Json, status: Json)

  datatype UpdateHeadDto = UpdateHeadDto(name: Json, phone: Json, email: Json, notes: Json, status: Json)

  const MaxNameLength := 255
  const PhoneFormatMsg := "Phone number must be a valid format (10-15 digits)"

  /** The database values of `SontaHeadStatus`. */
  function StatusValue(s: SontaHeads.HeadStatus): string {
    match s
    case Active => "active"
    case Inactive => "inactive"
    case Suspended => "suspended"
  }

  const Statuses: seq<string> := ["active", "inactive", "suspended"]

  function ParseStatus(v: string): (r: Option<SontaHeads.HeadStatus>)
    ensures r.Some? <==> v in Statuses
    ensures r.Some? ==> StatusValue(r.value) == v
  {
    if v == "active" then Some(SontaHeads.Active)
    else if v == "inactive" then Some(SontaHeads.Inactive)
    else if v == "suspended" then Some(SontaHeads.Suspended)
    else None
  }

  lemma StatusRoundTrip(s: SontaHeads.HeadStatus)
    ensures ParseStatus(StatusValue(s)) == Some(s)
  {
  }

  predicate PhoneText(v: Json) {
    v.Str? && PhonePattern(v.s)
  }

  /** The properties of a new Sonta Head that fail validation. */
  function CreateHeadErrors(d: CreateHeadDto, isEmail: string -> bool): (r: set<HeadField>)
    ensures Name !in r <==> d.name.Str? && d.name.s != "" && Length(d.name.s) <= MaxNameLength
    ensures SontaName !in r <==> !Present(d.sontaName) || (d.sontaName.Str? && Length(d.sontaName.s) <= MaxNameLength)
    ensures Phone !in r <==> d.phone.Str? && PhonePattern(d.phone.s)
    ensures Email !in r <==> !Present(d.email) || (d.email.Str? && isEmail(d.email.s))
    ensures Notes !in r <==> !Present(d.notes) || d.notes.Str?
    ensures Status !in r <==> !Present(d.status) || (d.status.Str? && d.status.s in Statuses)
  {
    Fails(Name, true, Text(d.name) && Short(d.name, MaxNameLength))
    + Fails(SontaName, Present(d.sontaName), Short(d.sontaName, MaxNameLength))
    + Fails(Phone, true, Text(d.phone) && PhoneText(d.phone))
    + Fails(Email, Present(d.email), Satisfies(d.email, isEmail))
    + Fails(Notes, Present(d.notes), d.notes.Str?)
    + Fails(Status, Present(d.status), OneOf(d.status, Statuses))
  }

  /** The properties of a Sonta Head update that fail validation: every property is optional. */
  function UpdateHeadErrors(d: UpdateHeadDto, isEmail: string -> bool): (r: set<HeadField>)
    ensures SontaName !in r
    ensures Name !in r <==> !Present(d.name) || (d.name.Str? && Length(d.name.s) <= MaxNameLength)
    ensures Phone !in r <==> !Present(d.phone) || (d.phone.Str? && PhonePattern(d.phone.s))
    ensures Email !in r <==> !Present(d.email) || (d.email.Str? && isEmail(d.email.s))
    ensures Notes !in r <==> !Present(d.notes) || d.notes.Str?
    ensures Status !in r <==> !Present(d.status) || (d.status.Str? && d.status.s in Statuses)
  {
    Fails(Name, Present(d.name), Short(d.name, MaxNameLength))
    + Fails(Phone, Present(d.phone), PhoneText(d.phone))
    + Fails(Email, Present(d.email), Satisfies(d.email, isEmail))
    + Fails(Notes, Present(d.notes), d.notes.Str?)
    + Fails(Status, Present(d.status), OneOf(d.status, Statuses))
  }

  /** An empty update is valid. */
  lemma EmptyUpdateValid(isEmail: string -> bool)
    ensures UpdateHeadErrors(UpdateHeadDto(Absent, Absent, Absent, Absent, Absent), isEmail) == {}
  {
  }

  /** Whatever a new Sonta Head may carry, an update may carry too. */
  lemma CreateValidUpdateValid(d: CreateHeadDto, isEmail: string -> bool)
    requires CreateHeadErrors(d, isEmail) == {}
    ensures UpdateHeadErrors(UpdateHeadDto(d.name, d.phone, d.email, d.notes, d.status), isEmail) == {}
  {
    assert Name !in CreateHeadErrors(d, isEmail);
    assert Phone !in CreateHeadErrors(d, isEmail);
    assert Email !in CreateHeadErrors(d, isEmail);
    assert Notes !in CreateHeadErrors(d, isEmail);
    assert Status !in CreateHeadErrors(d, isEmail);
  }

  /** An update may blank the name, which a new Sonta Head may not have. */
  lemma UpdateMayBlankName(isEmail: string -> bool)
    ensures Name !in UpdateHeadErrors(UpdateHeadDto(Str(""), Absent, Absent, Absent, Absent), isEmail)
    ensures Name in CreateHeadErrors(CreateHeadDto(Str(""), Absent, Absent, Absent, Absent, Absent), isEmail)
  {
  }

  /** The value of an optional string property. */
  function OptionalText(v: Json): (o: Option<string>)
    requires !Present(v) || v.Str?
    ensures o.Some? <==> Present(v)
  {
    if Present(v) then Some(v.s) else None
  }

  /** The form a valid request hands to the Sonta Head service. */
  function HeadFormOf(d: CreateHeadDto, isEmail: string -> bool): (f: SontaHeads.HeadForm)
    requires CreateHeadErrors(d, isEmail) == {}
    ensures f.name != "" && Length(f.name) <= MaxNameLength
    ensures PhonePattern(f.phone)
    ensures f.email.Some? ==> isEmail(f.email.value)
    ensures f.sontaName.Some? <==> Present(d.sontaName)
    ensures f.sontaName.Some? ==> Length(f.sontaName.value) <= MaxNameLength
    ensures f.status.Some? <==> Present(d.status)
    ensures f.status.Some? ==> StatusValue(f.status.value) == d.status.s
  {
    assert Name !in CreateHeadErrors(d, isEmail);
    assert SontaName !in CreateHeadErrors(d, isEmail);
    assert Phone !in CreateHeadErrors(d, isEmail);
    assert Email !in CreateHeadErrors(d, isEmail);
    assert Notes !in CreateHeadErrors(d, isEmail);
    assert Status !in CreateHeadErrors(d, isEmail);
    var status := if Present(d.status) then ParseStatus(d.status.s) else None;
    SontaHeads.HeadForm(d.name.s, OptionalText(d.sontaName), d.phone.s, OptionalText(d.email), OptionalText(d.notes), status)
  }
}
