/**
 * The signed check-in token of a meeting QR code:
 *   base64url( meetingId ":" timestamp ":" hex(random) ":" hex(HMAC(meetingId ":" timestamp ":" hex(random))) )
 * and the format and signature steps that `validateQrToken` applies to it.
 * HMAC-SHA256 is a parameter `mac` from the signed text to the digest bytes.
 */
module QrToken {
  import opened Wrappers
  import opened Strings
  import opened Base64

  function HexDigit(v: int): (ch: char)
    requires 0 <= v < 16
    ensures IsLowerHexDigit(ch)
  {
    if v < 10 then ('0' as int + v) as char else ('a' as int + (v - 10)) as char
  }

  /** `buffer.toString('hex')`: two lower-case hex digits per byte. */
  function Hex(b: seq<Byte>): (s: string)
    ensures |s| == 2 * |b|
    ensures AllLowerHex(s)
  {
    if |b| == 0 then [] else [HexDigit(b[0] / 16), HexDigit(b[0] % 16)] + Hex(b[1..])
  }

  /** A UUID as the database renders it: hex digits and dashes. */
  predicate IsUuidText(s: string) {
    forall i :: 0 <= i < |s| ==> IsLowerHexDigit(s[i]) || s[i] == '-'
  }

  /** Text made of ASCII characters encodes to one byte per character under UTF-8. */
  function AsciiBytes(s: string): (b: seq<Byte>)
    requires IsAscii(s)
    ensures |b| == |s|
  {
    seq(|s|, i requires 0 <= i < |s| => s[i] as int)
  }

  /** UTF-8 decoding restricted to ASCII bytes; any other byte is refused. */
  function AsciiText(b: seq<Byte>): (o: Option<string>)
    ensures o.Some? <==> forall i :: 0 <= i < |b| ==> b[i] < 128
    ensures o.Some? ==> |o.value| == |b| && IsAscii(o.value)
    ensures o.Some? ==> forall i :: 0 <= i < |b| ==> o.value[i] as int == b[i]
  {
    if forall i :: 0 <= i < |b| ==> b[i] < 128
    then Some(seq(|b|, i requires 0 <= i < |b| => b[i] as char))
    else None
  }

  lemma AsciiRoundTrip(s: string)
    requires IsAscii(s)
    ensures AsciiText(AsciiBytes(s)) == Some(s)
  {
    var b := AsciiBytes(s);
    assert forall i :: 0 <= i < |b| ==> b[i] < 128;
    assert seq(|b|, i requires 0 <= i < |b| => b[i] as char) == s;
  }

  /** The signed part `meetingId:timestamp:randomHex`. */
  function Payload(meetingId: string, timestamp: string, random: string): string {
    meetingId + ":" + timestamp + ":" + random
  }

  function Signature(mac: string -> seq<Byte>, payload: string): string {
    Hex(mac(payload))
  }

  lemma HexIsAscii(s: string)
    requires AllLowerHex(s)
    ensures IsAscii(s) && ':' !in s
  {
    assert forall i :: 0 <= i < |s| ==> s[i] != ':';
  }

  lemma UuidIsAscii(s: string)
    requires IsUuidText(s)
    ensures IsAscii(s) && ':' !in s
  {
    assert forall i :: 0 <= i < |s| ==> s[i] != ':';
  }

  lemma DigitsAreAscii(s: string)
    requires AllDigits(s)
    ensures IsAscii(s) && ':' !in s
  {
    assert forall i :: 0 <= i < |s| ==> s[i] != ':';
  }

  /** The plain text of a generated token, as four ':'-separated fields. */
  function TokenText(meetingId: string, timestamp: nat, random: seq<Byte>, mac: string -> seq<Byte>): (t: string)
    requires IsUuidText(meetingId)
    ensures IsAscii(t)
  {
    var payload := Payload(meetingId, Decimal(timestamp), Hex(random));
    UuidIsAscii(meetingId);
    DigitsAreAscii(Decimal(timestamp));
    HexIsAscii(Hex(random));
    HexIsAscii(Signature(mac, payload));
    payload + ":" + Signature(mac, payload)
  }

  /** `generateQrCode`'s token: the base64url encoding of the token text. */
  function Generate(meetingId: string, timestamp: nat, random: seq<Byte>, mac: string -> seq<Byte>): (token: string)
    requires IsUuidText(meetingId)
    ensures forall i :: 0 <= i < |token| ==> InAlphabet(token[i], true)
  {
    EncodeUrl(AsciiBytes(TokenText(meetingId, timestamp, random, mac)))
  }

  /** What the first two steps of `validateQrToken` conclude about a token. */
  datatype Check = BadFormat | BadSignature | Signed(meetingId: string)

  function CheckToken(token: string, mac: string -> seq<Byte>): (c: Check)
    ensures c.Signed? ==>
      (exists ts, rnd :: ':' !in c.meetingId && ':' !in ts && ':' !in rnd &&
        Text(token) == Some(Payload(c.meetingId, ts, rnd) + ":" + Signature(mac, Payload(c.meetingId, ts, rnd))))
  {
    match Text(token)
    case None => BadFormat
    case Some(text) =>
      var parts := Split(text, ':');
      if |parts| != 4 then BadFormat
      else if parts[3] != Signature(mac, Payload(parts[0], parts[1], parts[2])) then BadSignature
      else
        JoinSplit(text, ':');
        JoinFour(parts, ':');
        Signed(parts[0])
  }

  /** `Buffer.from(token, 'base64url').toString('utf-8')`, strictly. */
  function Text(token: string): (o: Option<string>)
    ensures o.Some? <==> DecodeUrl(token).Some? && forall i :: 0 <= i < |DecodeUrl(token).value| ==> DecodeUrl(token).value[i] < 128
    ensures o.Some? ==> |o.value| == |token| * 3 / 4 && IsAscii(o.value)
  {
    match DecodeUrl(token)
    case None => None
    case Some(bytes) => AsciiText(bytes)
  }

  lemma TextOfGenerated(meetingId: string, timestamp: nat, random: seq<Byte>, mac: string -> seq<Byte>)
    requires IsUuidText(meetingId)
    ensures Text(Generate(meetingId, timestamp, random, mac)) == Some(TokenText(meetingId, timestamp, random, mac))
  {
    var text := TokenText(meetingId, timestamp, random, mac);
    UrlRoundTrip(AsciiBytes(text));
    AsciiRoundTrip(text);
  }

  /** Conversely, any token whose text is three colon-free fields followed by their signature is accepted. */
  lemma SignedTextIsAccepted(token: string, meetingId: string, ts: string, rnd: string, mac: string -> seq<Byte>)
    requires ':' !in meetingId && ':' !in ts && ':' !in rnd
    requires Text(token) == Some(Payload(meetingId, ts, rnd) + ":" + Signature(mac, Payload(meetingId, ts, rnd)))
    ensures CheckToken(token, mac) == Signed(meetingId)
  {
    var sig := Signature(mac, Payload(meetingId, ts, rnd));
    HexIsAscii(sig);
    var parts := [meetingId, ts, rnd, sig];
    JoinFour(parts, ':');
    SplitJoin(parts, ':');
  }

  /** A generated token decodes to four fields and passes the signature check. */
  lemma GeneratedTokenIsSigned(meetingId: string, timestamp: nat, random: seq<Byte>, mac: string -> seq<Byte>)
    requires IsUuidText(meetingId)
    ensures CheckToken(Generate(meetingId, timestamp, random, mac), mac) == Signed(meetingId)
  {
    TextOfGenerated(meetingId, timestamp, random, mac);
    UuidIsAscii(meetingId);
    DigitsAreAscii(Decimal(timestamp));
    HexIsAscii(Hex(random));
    SignedTextIsAccepted(Generate(meetingId, timestamp, random, mac), meetingId, Decimal(timestamp), Hex(random), mac);
  }

  /** Any token whose decoded text does not split into four fields is refused as malformed. */
  lemma WrongFieldCountIsBadFormat(token: string, mac: string -> seq<Byte>)
    requires Text(token).Some? && |Split(Text(token).value, ':')| != 4
    ensures CheckToken(token, mac) == BadFormat
  {
  }
}
