/**
 * Pure helpers of the admin web application: the breadcrumb trail built
 * from the current path, the token taken from a scanned QR code, image
 * URLs, the signed-in admin's initials, name and role badge, the actions a
 * meeting card offers, and the payload the meeting form submits.
 *
 * Letter case follows `Strings.UpperChar` (ASCII letters only). The local
 * clock used to set hours and minutes on a date, and ISO formatting, are
 * parameters.
 */
module Web {
  import opened Wrappers
  import opened Strings
  import Seqs
  import Base64
  import QrToken
  import Admins
  import Meetings
  import Dtos

  // ---------------------------------------------------------------------
  // Breadcrumbs (site header)
  // ---------------------------------------------------------------------

  datatype Crumb = Crumb(title: string, href: Option<string>)

  predicate Filled(s: string) {
    s != ""
  }

  /** `pathname.split('/').filter(Boolean)`. */
  function Segments(pathname: string): (segs: seq<string>)
    ensures forall i :: 0 <= i < |segs| ==> segs[i] != "" && '/' !in segs[i]
  {
    var pieces := Split(pathname, '/');
    var segs := Seqs.Keep(pieces, Filled);
    assert forall i :: 0 <= i < |segs| ==> segs[i] in segs;
    assert forall x :: x in pieces ==> '/' !in x;
    segs
  }

  const LabelMap: map<string, string> := map[
    "sonta-heads" := "Sonta Heads",
    "meetings" := "Meetings",
    "analytics" := "Analytics",
    "admins" := "Admin Users",
    "settings" := "Settings",
    "profile" := "Profile"]

  /** The segment with its first character upper-cased. */
  function Capitalize(seg: string): (r: string)
    ensures |r| == |seg|
    ensures |seg| > 0 ==> r[0] == UpperChar(seg[0]) && r[1..] == seg[1..]
  {
    if |seg| == 0 then "" else [UpperChar(seg[0])] + seg[1..]
  }

  /** The readable name of a segment: from the fixed map, or the segment capitalised. */
  function Label(seg: string): (l: string)
    ensures seg in LabelMap ==> l == LabelMap[seg]
    ensures seg !in LabelMap ==> l == Capitalize(seg)
    ensures seg != "" ==> l != ""
  {
    if seg in LabelMap then LabelMap[seg] else Capitalize(seg)
  }

  function CrumbAt(segs: seq<string>, i: nat): (c: Crumb)
    requires 1 <= i < |segs|
    ensures c.title == Label(segs[i])
    ensures c.href.None? <==> i == |segs| - 1
    ensures c.href.Some? ==> c.href.value == "/" + Join(segs[..i + 1], '/')
  {
    Crumb(Label(segs[i]), if i == |segs| - 1 then None else Some("/" + Join(segs[..i + 1], '/')))
  }

  /**
   * `generateBreadcrumbs`: Dashboard first, then one crumb per segment
   * after the first (the first is skipped whatever it is); the last crumb
   * is the current page and has no link.
   */
  function Breadcrumbs(pathname: string): (r: seq<Crumb>)
    ensures var segs := Segments(pathname);
            && |r| == (if |segs| <= 1 then 1 else |segs|)
            && r[0] == Crumb("Dashboard", Some("/dashboard"))
            && (forall i :: 1 <= i < |r| ==> r[i].title == Label(segs[i]))
            && (forall i :: 1 <= i < |r| ==> (r[i].href.None? <==> i == |segs| - 1))
            && (forall i :: 1 <= i < |r| && r[i].href.Some? ==> r[i].href.value == "/" + Join(segs[..i + 1], '/'))
  {
    var segs := Segments(pathname);
    var n := if |segs| <= 1 then 0 else |segs| - 1;
    var r := [Crumb("Dashboard", Some("/dashboard"))] + seq(n, j requires 0 <= j < n => CrumbAt(segs, j + 1));
    assert forall i :: 1 <= i < |r| ==> r[i] == CrumbAt(segs, i);
    r
  }

  /** The path of a page, built from its segments. */
  function PathOf(segs: seq<string>): string
    requires |segs| >= 1
  {
    "/" + Join(segs, '/')
  }

  /** The segments of a path built from segments are those segments. */
  lemma SegmentsOfPath(segs: seq<string>)
    requires |segs| >= 1
    requires forall i :: 0 <= i < |segs| ==> segs[i] != "" && '/' !in segs[i]
    ensures Segments(PathOf(segs)) == segs
  {
    var j := Join(segs, '/');
    assert PathOf(segs) == "" + ['/'] + j;
    SplitAtFirstSeparator("", '/', j);
    SplitJoin(segs, '/');
    var parts := [""] + segs;
    assert parts[1..] == segs;
    Seqs.KeepAll(segs, Filled);
  }

  /** Every link in the trail of a page leads to an ancestor of that page. */
  lemma CrumbLinksAreAncestors(segs: seq<string>, i: nat)
    requires |segs| >= 1
    requires forall k :: 0 <= k < |segs| ==> segs[k] != "" && '/' !in segs[k]
    requires 1 <= i < |Breadcrumbs(PathOf(segs))|
    requires Breadcrumbs(PathOf(segs))[i].href.Some?
    ensures StartsWith(PathOf(segs), Breadcrumbs(PathOf(segs))[i].href.value)
  {
    SegmentsOfPath(segs);
    JoinPrefix(segs, i + 1, '/');
  }

  // ---------------------------------------------------------------------
  // QR scanner
  // ---------------------------------------------------------------------

  const Marker := "/check-in/"

  /** `[a-zA-Z0-9_-]`. */
  predicate TokenChar(ch: char) {
    'a' <= ch <= 'z' || 'A' <= ch <= 'Z' || '0' <= ch <= '9' || ch == '_' || ch == '-'
  }

  /** The length of the longest prefix of token characters. */
  function Run(s: string): (n: nat)
    ensures n <= |s|
    ensures forall i :: 0 <= i < n ==> TokenChar(s[i])
    ensures n < |s| ==> !TokenChar(s[n])
    decreases |s|
  {
    if |s| == 0 || !TokenChar(s[0]) then 0 else 1 + Run(s[1..])
  }

  /** The pattern `/check-in/([a-zA-Z0-9_-]+)` matches at position `k`. */
  predicate MatchAt(text: string, k: nat) {
    k + |Marker| < |text| && text[k..k + |Marker|] == Marker && TokenChar(text[k + |Marker|])
  }

  /** The leftmost match at or after `k`. */
  function FirstMatch(text: string, k: nat): (o: Option<nat>)
    ensures o.Some? ==> k <= o.value && MatchAt(text, o.value)
    ensures o.Some? ==> forall j :: k <= j < o.value ==> !MatchAt(text, j)
    ensures o.None? ==> forall j :: k <= j ==> !MatchAt(text, j)
    decreases |text| - k
  {
    if k + |Marker| >= |text| then None
    else if MatchAt(text, k) then Some(k)
    else FirstMatch(text, k + 1)
  }

  /**
   * The token handed to `onScan`: the run of token characters after the
   * first match, or the decoded text unchanged when nothing matches.
   */
  function Extract(text: string): (token: string)
    ensures FirstMatch(text, 0).None? ==> token == text
    ensures FirstMatch(text, 0).Some? ==>
              var at := FirstMatch(text, 0).value + |Marker|;
              && token != ""
              && at + |token| <= |text|
              && (forall i :: 0 <= i < |token| ==> TokenChar(token[i]))
              && text[at..at + |token|] == token
              && (at + |token| < |text| ==> !TokenChar(text[at + |token|]))
  {
    match FirstMatch(text, 0)
    case None => text
    case Some(k) =>
      var rest := text[k + |Marker|..];
      var n := Run(rest);
      assert rest[0] == text[k + |Marker|];
      assert forall i :: 0 <= i < n ==> rest[..n][i] == rest[i];
      rest[..n]
  }

  /** `${FRONTEND_URL || 'http://localhost:3001'}/check-in/${qrToken}`. */
  function CheckInUrl(frontend: Option<string>, token: string): string {
    (if frontend.Some? && frontend.value != "" then frontend.value else "http://localhost:3001") + Marker + token
  }

  /** A base without '-' cannot hold a match, not even one overlapping the marker after it. */
  lemma NoMatchBeforeMarker(base: string, token: string, k: nat)
    requires '-' !in base
    requires k < |base|
    ensures !MatchAt(base + Marker + token, k)
  {
    var text := base + Marker + token;
    if k + |Marker| < |text| {
      var w := text[k..k + |Marker|];
      if k + 6 < |base| {
        assert w[6] == base[k + 6];
        assert base[k + 6] in base;
        assert w != Marker by {
          assert Marker[6] == '-';
        }
      } else {
        var d := |base| - k;
        assert w[d] == '/';
        assert w != Marker by {
          assert forall e :: 1 <= e <= 6 ==> Marker[e] != '/';
        }
      }
    }
  }

  /** The token of a check-in URL whose base has no '-' is read back exactly. */
  lemma ExtractFromUrl(base: string, token: string)
    requires '-' !in base
    requires |token| >= 1 && forall i :: 0 <= i < |token| ==> TokenChar(token[i])
    ensures Extract(base + Marker + token) == token
  {
    var text := base + Marker + token;
    forall k: nat | k < |base| ensures !MatchAt(text, k) {
      NoMatchBeforeMarker(base, token, k);
    }
    assert text[|base|..|base| + |Marker|] == Marker;
    assert text[|base| + |Marker|] == token[0];
    assert MatchAt(text, |base|);
    var k := FirstMatch(text, 0).value;
    assert k == |base|;
    var rest := text[k + |Marker|..];
    assert rest == token;
  }

  lemma Base64UrlCharsAreTokenChars(ch: char)
    requires Base64.InAlphabet(ch, true)
    ensures TokenChar(ch)
  {
  }

  /** Scanning the QR code of a meeting gives the scanner the meeting's token. */
  lemma ScannedUrlGivesToken(frontend: Option<string>, meetingId: string, timestamp: nat, random: seq<Base64.Byte>,
                             mac: string -> seq<Base64.Byte>)
    requires QrToken.IsUuidText(meetingId)
    requires frontend.Some? ==> '-' !in frontend.value
    ensures var token := QrToken.Generate(meetingId, timestamp, random, mac);
            Extract(CheckInUrl(frontend, token)) == token
  {
    var token := QrToken.Generate(meetingId, timestamp, random, mac);
    var text := QrToken.TokenText(meetingId, timestamp, random, mac);
    assert |text| >= 1 by {
      assert text == QrToken.Payload(meetingId, Decimal(timestamp), QrToken.Hex(random)) + ":"
                     + QrToken.Signature(mac, QrToken.Payload(meetingId, Decimal(timestamp), QrToken.Hex(random)));
    }
    assert |token| >= 1 by {
      var b := QrToken.AsciiBytes(text);
      assert |Base64.EncodeSextets(b)| >= 2;
    }
    forall i | 0 <= i < |token| ensures TokenChar(token[i]) {
      Base64UrlCharsAreTokenChars(token[i]);
    }
    var base := if frontend.Some? && frontend.value != "" then frontend.value else "http://localhost:3001";
    assert '-' !in base;
    ExtractFromUrl(base, token);
  }

  // ---------------------------------------------------------------------
  // Image URLs
  // ---------------------------------------------------------------------

  /** `getImageUrl`: absolute URLs stay, relative ones get the API base (or nothing) in front. */
  function ImageUrl(url: Option<string>, apiBase: Option<string>): (r: string)
    ensures url.None? || url.value == "" ==> r == ""
    ensures url.Some? && StartsWith(url.value, "http") ==> r == url.value
    ensures url.Some? && url.value != "" && !StartsWith(url.value, "http") ==>
              r == apiBase.GetOr("") + url.value
  {
    if url.None? || url.value == "" then ""
    else if StartsWith(url.value, "http") then url.value
    else apiBase.GetOr("") + url.value
  }

  lemma StartsWithConcat(a: string, b: string, p: string)
    requires StartsWith(a, p)
    ensures StartsWith(a + b, p)
  {
    assert (a + b)[..|p|] == a[..|p|];
  }

  /** With an absolute API base, resolving a resolved URL changes nothing. */
  lemma ImageUrlIdempotent(url: Option<string>, apiBase: Option<string>)
    requires apiBase.Some? && StartsWith(apiBase.value, "http")
    ensures ImageUrl(Some(ImageUrl(url, apiBase)), apiBase) == ImageUrl(url, apiBase)
  {
    if url.Some? && url.value != "" && !StartsWith(url.value, "http") {
      StartsWithConcat(apiBase.value, url.value, "http");
    }
  }

  /** With a relative API base, resolving twice puts the base in twice. */
  lemma RelativeBaseDoubles()
    ensures ImageUrl(Some(ImageUrl(Some("/f.jpg"), Some("/api"))), Some("/api")) == "/api/api/f.jpg"
  {
    assert !StartsWith("/f.jpg", "http") by {
      assert "/f.jpg"[0] != "http"[0];
    }
    var once := ImageUrl(Some("/f.jpg"), Some("/api"));
    assert once == "/api" + "/f.jpg" == "/api/f.jpg";
    assert !StartsWith(once, "http") by {
      assert once[0] != "http"[0];
    }
    assert ImageUrl(Some(once), Some("/api")) == "/api" + once == "/api/api/f.jpg";
  }

  // ---------------------------------------------------------------------
  // The signed-in admin (header and user menu)
  // ---------------------------------------------------------------------

  /** What the web app holds about the signed-in admin. */
  datatype User = User(fullName: Option<string>, email: Option<string>, role: Option<Admins.Role>)

  /** The first character of every non-empty piece. */
  function Firsts(pieces: seq<string>): (r: string)
    ensures |r| <= |pieces|
    decreases |pieces|
  {
    if |pieces| == 0 then ""
    else (if pieces[0] == "" then "" else [pieces[0][0]]) + Firsts(pieces[1..])
  }

  /** `getInitials`: 'AD' without a name, else the upper-cased first letters of the words, at most two. */
  function Initials(name: Option<string>): (r: string)
    ensures |r| <= 2
    ensures name.None? || name.value == "" ==> r == "AD"
  {
    if name.None? || name.value == "" then "AD"
    else
      var letters := Upper(Firsts(Split(name.value, ' ')));
      if |letters| <= 2 then letters else letters[..2]
  }

  /** The first two letters collected from two leading non-empty pieces. */
  lemma FirstsOfTwo(pieces: seq<string>)
    requires |pieces| >= 2 && pieces[0] != "" && pieces[1] != ""
    ensures |Firsts(pieces)| >= 2
    ensures Firsts(pieces)[0] == pieces[0][0] && Firsts(pieces)[1] == pieces[1][0]
  {
    assert pieces[1..][1..] == pieces[2..];
    assert Firsts(pieces[1..]) == [pieces[1][0]] + Firsts(pieces[2..]);
    assert Firsts(pieces) == [pieces[0][0]] + Firsts(pieces[1..]);
  }

  /** A join whose first piece is non-empty is non-empty. */
  lemma JoinFilled(words: seq<string>, c: char)
    requires |words| >= 1 && words[0] != ""
    ensures Join(words, c) != ""
  {
    if |words| > 1 {
      assert Join(words, c) == words[0] + [c] + Join(words[1..], c);
    }
  }

  /** The initials of a name of two or more words are the first letters of the first two. */
  lemma InitialsOfWords(words: seq<string>)
    requires |words| >= 2
    requires forall i :: 0 <= i < |words| ==> words[i] != "" && ' ' !in words[i]
    ensures Initials(Some(Join(words, ' '))) == [UpperChar(words[0][0]), UpperChar(words[1][0])]
  {
    var name := Join(words, ' ');
    JoinFilled(words, ' ');
    SplitJoin(words, ' ');
    FirstsOfTwo(words);
    InitialsOfPieces(name, words);
  }

  /** The initials of a non-empty name whose words start with two letters. */
  lemma InitialsOfPieces(name: string, words: seq<string>)
    requires name != "" && Split(name, ' ') == words
    requires |Firsts(words)| >= 2
    ensures Initials(Some(name)) == [UpperChar(Firsts(words)[0]), UpperChar(Firsts(words)[1])]
  {
    var letters := Upper(Firsts(words));
    assert letters[..2] == [UpperChar(Firsts(words)[0]), UpperChar(Firsts(words)[1])];
  }

  /** A name of spaces only is not empty, so it gets no letters rather than 'AD'. */
  lemma BlankNameHasNoInitials()
    ensures Initials(Some("  ")) == ""
  {
    assert Split("  ", ' ') == ["", "", ""] by {
      SplitAtFirstSeparator("", ' ', " ");
      SplitAtFirstSeparator("", ' ', "");
      assert "" + [' '] + " " == "  ";
      assert "" + [' '] + "" == " ";
    }
  }

  /** `getRoleBadge`: nothing without a role. */
  function RoleBadge(role: Option<Admins.Role>): (b: Option<string>)
    ensures b.None? <==> role.None?
    ensures b == Some("Super Admin") <==> role == Some(Admins.SuperAdmin)
    ensures b.Some? ==> b.value == "Super Admin" || b.value == "Admin"
  {
    if role.None? then None
    else if role.value == Admins.SuperAdmin then Some("Super Admin")
    else Some("Admin")
  }

  /** The header's greeting: the first word of the full name, else the e-mail's local part. */
  function ShortName(user: Option<User>): (r: Option<string>)
    ensures r.Some? ==> user.Some?
  {
    var first := if user.Some? && user.value.fullName.Some? then Some(Split(user.value.fullName.value, ' ')[0]) else None;
    if first.Some? && first.value != "" then first
    else if user.Some? && user.value.email.Some? then Some(Split(user.value.email.value, '@')[0])
    else None
  }

  /** A full name of words greets with its first word. */
  lemma ShortNameIsFirstWord(words: seq<string>, email: Option<string>, role: Option<Admins.Role>)
    requires |words| >= 1
    requires forall i :: 0 <= i < |words| ==> words[i] != "" && ' ' !in words[i]
    ensures ShortName(Some(User(Some(Join(words, ' ')), email, role))) == Some(words[0])
  {
    SplitJoin(words, ' ');
  }

  /** Without a usable full name the greeting is the e-mail's local part. */
  lemma ShortNameFallsBackToEmail(local: string, domain: string, role: Option<Admins.Role>)
    requires '@' !in local
    ensures ShortName(Some(User(None, Some(local + "@" + domain), role))) == Some(local)
  {
    assert local + "@" + domain == local + ['@'] + domain;
    SplitAtFirstSeparator(local, '@', domain);
  }

  /** `fullName || email`. */
  function MenuName(u: User): (r: Option<string>)
    ensures u.fullName.Some? && u.fullName.value != "" ==> r == u.fullName
    ensures !(u.fullName.Some? && u.fullName.value != "") ==> r == u.email
  {
    if u.fullName.Some? && u.fullName.value != "" then u.fullName else u.email
  }

  datatype UserMenu = UserMenu(initials: string, name: Option<string>, email: Option<string>, badge: Option<string>)

  /** `NavUser`: nothing at all without a signed-in user. */
  function NavUser(user: Option<User>): (r: Option<UserMenu>)
    ensures r.None? <==> user.None?
    ensures r.Some? ==> r.value.initials == Initials(user.value.fullName)
                        && r.value.name == MenuName(user.value)
                        && r.value.badge == RoleBadge(user.value.role)
  {
    match user
    case None => None
    case Some(u) => Some(UserMenu(Initials(u.fullName), MenuName(u), u.email, RoleBadge(u.role)))
  }

  // ---------------------------------------------------------------------
  // Meeting card
  // ---------------------------------------------------------------------

  datatype Action = View | Edit | StartMeeting | EndMeeting | CancelMeeting | Delete

  /** The actions the card's menu offers for a meeting in a given status. */
  function Actions(s: Meetings.MeetingStatus): (r: set<Action>)
    ensures View in r
    ensures Edit in r <==> s == Meetings.Scheduled
    ensures StartMeeting in r <==> s == Meetings.Scheduled
    ensures CancelMeeting in r <==> s == Meetings.Scheduled
    ensures EndMeeting in r <==> s == Meetings.Active
    ensures Delete in r <==> s == Meetings.Scheduled || s == Meetings.Cancelled
  {
    {View}
    + (if s == Meetings.Scheduled then {Edit, StartMeeting, CancelMeeting} else {})
    + (if s == Meetings.Active then {EndMeeting} else {})
    + (if s == Meetings.Scheduled || s == Meetings.Cancelled then {Delete} else {})
  }

  /** `getStatusConfig(...).label`. */
  function StatusLabel(s: Meetings.MeetingStatus): (l: string)
    ensures l == Capitalize(Meetings.StatusName(s))
  {
    match s
    case Scheduled => "Scheduled"
    case Active => "Active"
    case Ended => "Ended"
    case Cancelled => "Cancelled"
  }

  /** Each status has its own label. */
  lemma StatusLabelsDistinct(a: Meetings.MeetingStatus, b: Meetings.MeetingStatus)
    ensures StatusLabel(a) == StatusLabel(b) <==> a == b
  {
  }

  /**
   * Every action the card offers passes the server's status check: start,
   * end, cancel and delete succeed, and an edit can fail only on its dates.
   */
  lemma OfferedActionsPass(st: Meetings.Store, id: string, now: int, p: Meetings.MeetingPatch)
    requires id in st.meetings
    ensures Edit in Actions(st.meetings[id].status) ==>
              (Meetings.Update(st, id, p).Ok? <==>
                 p.scheduledStart.GetOr(st.meetings[id].scheduledStart) < p.scheduledEnd.GetOr(st.meetings[id].scheduledEnd))
    ensures StartMeeting in Actions(st.meetings[id].status) ==> Meetings.Start(st, id, now).Ok?
    ensures EndMeeting in Actions(st.meetings[id].status) ==> Meetings.End(st, id, now).Ok?
    ensures CancelMeeting in Actions(st.meetings[id].status) ==> Meetings.Cancel(st, id, now).Ok?
    ensures Delete in Actions(st.meetings[id].status) ==> Meetings.Remove(st, id).Ok?
  {
  }

  /** The server would also delete an ended meeting and re-cancel a cancelled one; the card offers neither. */
  lemma CardStricterThanServer(st: Meetings.Store, id: string, now: int)
    requires id in st.meetings
    ensures st.meetings[id].status == Meetings.Ended ==>
              Meetings.Remove(st, id).Ok? && Delete !in Actions(st.meetings[id].status)
    ensures st.meetings[id].status == Meetings.Cancelled ==>
              Meetings.Cancel(st, id, now).Ok? && CancelMeeting !in Actions(st.meetings[id].status)
  {
  }

  // ---------------------------------------------------------------------
  // Meeting form
  // ---------------------------------------------------------------------

  /** The form's values after the schema's type checks. */
  datatype FormValues = FormValues(
    title: string,
    description: Option<string>,
    locationName: string,
    locationAddress: Option<string>,
    latitude: real,
    longitude: real,
    radius: real,
    scheduledDate: int,
    startTime: string,
    endTime: string,
    lateCutoffMinutes: Option<real>,
    strategy: Meetings.QrExpiryStrategy,
    qrExpiryMinutes: Option<real>,
    qrMaxScans: Option<real>,
    expectedAttendees: Option<real>)

  predicate AtLeastOne(v: Option<real>) {
    v.None? || v.value >= 1.0
  }

  /** `formSchema`'s bounds. */
  predicate SchemaAccepts(v: FormValues) {
    && 1 <= |v.title| <= 255
    && |v.locationName| >= 1
    && -90.0 <= v.latitude <= 90.0
    && -180.0 <= v.longitude <= 180.0
    && 10.0 <= v.radius <= 1000.0
    && |v.startTime| >= 1 && |v.endTime| >= 1
    && (v.lateCutoffMinutes.None? || 1.0 <= v.lateCutoffMinutes.value <= 120.0)
    && AtLeastOne(v.qrExpiryMinutes) && AtLeastOne(v.qrMaxScans) && AtLeastOne(v.expectedAttendees)
  }

  /** The values a new meeting's form starts from. */
  function Defaults(today: int): (v: FormValues)
    ensures v.strategy == Meetings.UntilEnd && v.radius == 100.0
    ensures v.startTime == "09:00" && v.endTime == "11:00"
  {
    FormValues("", Some(""), "", Some(""), 5.6037, -0.1870, 100.0, today, "09:00", "11:00",
               None, Meetings.UntilEnd, None, None, None)
  }

  /** `Number(s)` for the strings a time input holds: '' is 0, digits are their value, anything else is NaN. */
  function Number(s: string): (n: Option<nat>)
    ensures n.Some? <==> AllDigits(s)
    ensures s == "" ==> n == Some(0)
    ensures s != "" && AllDigits(s) ==> n == Some(DigitsValue(s))
  {
    if s == "" then Some(0) else if AllDigits(s) then Some(DigitsValue(s)) else None
  }

  /** Hours and minutes of an 'HH:mm' string; a missing or non-numeric part makes the date invalid. */
  function Clock(t: string): (c: Option<(nat, nat)>)
    ensures c.Some? ==> ':' in t
    ensures c.Some? <==> var parts := Split(t, ':'); |parts| >= 2 && AllDigits(parts[0]) && AllDigits(parts[1])
  {
    var parts := Split(t, ':');
    assert ':' !in t ==> |parts| == 1 by {
      if ':' !in t {
        SplitWithoutSeparator(t, ':');
      }
    }
    if |parts| < 2 then None
    else
      match (Number(parts[0]), Number(parts[1]))
      case (Some(h), Some(m)) => Some((h, m))
      case _ => None
  }

  /** `format(date, 'HH:mm')` for one field: two digits. */
  function TwoDigits(n: nat): (s: string)
    requires n < 100
    ensures |s| == 2 && AllDigits(s)
  {
    [DigitChar(n / 10), DigitChar(n % 10)]
  }

  lemma TwoDigitsValue(n: nat)
    requires n < 100
    ensures DigitsValue(TwoDigits(n)) == n
  {
    var s := TwoDigits(n);
    assert s[..1] == [DigitChar(n / 10)];
    assert s[..1][..0] == [];
    assert DigitChar(n / 10) as int - '0' as int == n / 10;
    assert DigitChar(n % 10) as int - '0' as int == n % 10;
    assert DigitsValue(s[..1]) == n / 10;
  }

  /** A time the edit form wrote with 'HH:mm' is read back as the same hours and minutes. */
  lemma ClockRoundTrip(h: nat, m: nat)
    requires h < 24 && m < 60
    ensures Clock(TwoDigits(h) + ":" + TwoDigits(m)) == Some((h, m))
  {
    var a := TwoDigits(h);
    var b := TwoDigits(m);
    assert ':' !in a by {
      assert forall i :: 0 <= i < |a| ==> IsDigit(a[i]);
    }
    assert ':' !in b by {
      assert forall i :: 0 <= i < |b| ==> IsDigit(b[i]);
    }
    assert a + ":" + b == a + [':'] + b;
    SplitAtFirstSeparator(a, ':', b);
    SplitWithoutSeparator(b, ':');
    TwoDigitsValue(h);
    TwoDigitsValue(m);
  }

  /** What `handleSubmit` sends. */
  datatype Payload = Payload(
    title: string,
    description: Option<string>,
    locationName: string,
    locationAddress: Option<string>,
    latitude: real,
    longitude: real,
    radius: real,
    scheduledStart: string,
    scheduledEnd: string,
    lateCutoffMinutes: Option<real>,
    strategy: Meetings.QrExpiryStrategy,
    qrExpiryMinutes: Option<real>,
    qrMaxScans: Option<real>,
    expectedAttendees: Option<real>)

  /**
   * `handleSubmit`: the times are set on the chosen date (seconds and
   * milliseconds zero) through the local clock `setHours`, then written
   * with `iso`; an unreadable time makes an invalid date, which cannot be
   * written. The expiry minutes travel only with a time-based strategy,
   * the maximum scans only with a max-scans one.
   */
  function Submit(v: FormValues, setHours: (int, nat, nat) -> int, iso: int -> string): (r: Option<Payload>)
    ensures r.Some? <==> Clock(v.startTime).Some? && Clock(v.endTime).Some?
    ensures r.Some? ==> r.value.qrExpiryMinutes == (if v.strategy == Meetings.TimeBased then v.qrExpiryMinutes else None)
    ensures r.Some? ==> r.value.qrMaxScans == (if v.strategy == Meetings.MaxScans then v.qrMaxScans else None)
    ensures r.Some? ==> r.value.scheduledStart == iso(setHours(v.scheduledDate, Clock(v.startTime).value.0, Clock(v.startTime).value.1))
    ensures r.Some? ==> r.value.scheduledEnd == iso(setHours(v.scheduledDate, Clock(v.endTime).value.0, Clock(v.endTime).value.1))
    ensures r.Some? ==> && r.value.title == v.title && r.value.description == v.description
                        && r.value.locationName == v.locationName && r.value.locationAddress == v.locationAddress
                        && r.value.latitude == v.latitude && r.value.longitude == v.longitude
                        && r.value.radius == v.radius && r.value.lateCutoffMinutes == v.lateCutoffMinutes
                        && r.value.strategy == v.strategy && r.value.expectedAttendees == v.expectedAttendees
  {
    match (Clock(v.startTime), Clock(v.endTime))
    case (Some((sh, sm)), Some((eh, em))) =>
      Some(Payload(v.title, v.description, v.locationName, v.locationAddress, v.latitude, v.longitude, v.radius,
                   iso(setHours(v.scheduledDate, sh, sm)), iso(setHours(v.scheduledDate, eh, em)),
                   v.lateCutoffMinutes, v.strategy,
                   if v.strategy == Meetings.TimeBased then v.qrExpiryMinutes else None,
                   if v.strategy == Meetings.MaxScans then v.qrMaxScans else None,
                   v.expectedAttendees))
    case _ => None
  }

  /** The wire value of a strategy. */
  function StrategyValue(s: Meetings.QrExpiryStrategy): string {
    match s
    case UntilEnd => "until_end"
    case MaxScans => "max_scans"
    case TimeBased => "time_based"
  }

  function TextField(v: Option<string>): Dtos.Json {
    if v.Some? then Dtos.Str(v.value) else Dtos.Absent
  }

  function NumberField(v: Option<real>): Dtos.Json {
    if v.Some? then Dtos.Num(v.value) else Dtos.Absent
  }

  /** The JSON body of a payload; `undefined` properties are left out. */
  function Body(p: Payload): (d: Dtos.CreateMeetingDto)
    ensures d.title == Dtos.Str(p.title) && d.locationName == Dtos.Str(p.locationName)
    ensures d.scheduledStart == Dtos.Str(p.scheduledStart) && d.scheduledEnd == Dtos.Str(p.scheduledEnd)
    ensures d.qrExpiryStrategy == Dtos.Str(StrategyValue(p.strategy))
    ensures Dtos.Present(d.description) <==> p.description.Some?
    ensures Dtos.Present(d.locationAddress) <==> p.locationAddress.Some?
    ensures Dtos.Present(d.lateArrivalCutoffMinutes) <==> p.lateCutoffMinutes.Some?
    ensures Dtos.Present(d.qrExpiryMinutes) <==> p.qrExpiryMinutes.Some?
    ensures Dtos.Present(d.qrMaxScans) <==> p.qrMaxScans.Some?
    ensures Dtos.Present(d.expectedAttendees) <==> p.expectedAttendees.Some?
  {
    Dtos.CreateMeetingDto(
      Dtos.Str(p.title), TextField(p.description), Dtos.Str(p.locationName), TextField(p.locationAddress),
      Dtos.Num(p.latitude), Dtos.Num(p.longitude), Dtos.Num(p.radius),
      Dtos.Str(p.scheduledStart), Dtos.Str(p.scheduledEnd), NumberField(p.lateCutoffMinutes),
      Dtos.Str(StrategyValue(p.strategy)), NumberField(p.qrExpiryMinutes), NumberField(p.qrMaxScans),
      NumberField(p.expectedAttendees))
  }

  /** A form the schema accepts submits a body the server's validation accepts. */
  lemma AcceptedFormPassesServer(v: FormValues, setHours: (int, nat, nat) -> int, iso: int -> string,
                                 isIso: string -> bool)
    requires SchemaAccepts(v)
    requires Submit(v, setHours, iso).Some?
    requires forall t :: isIso(iso(t))
    ensures Dtos.MeetingErrors(Body(Submit(v, setHours, iso).value), isIso) == {}
  {
    var p := Submit(v, setHours, iso).value;
    var d := Body(p);
    var (sh, sm) := Clock(v.startTime).value;
    var (eh, em) := Clock(v.endTime).value;
    var ts, te := setHours(v.scheduledDate, sh, sm), setHours(v.scheduledDate, eh, em);
    assert isIso(iso(ts)) && isIso(iso(te));
    assert p.scheduledStart == iso(ts) && p.scheduledEnd == iso(te);
    assert isIso(p.scheduledStart) && isIso(p.scheduledEnd);
    assert Dtos.PlaceErrors(d) == {};
    assert Dtos.TimeErrors(d, isIso) == {};
    assert Dtos.QrErrors(d) == {};
  }
}
