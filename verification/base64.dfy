/**
 * Base64 as Node's `Buffer` produces it: the standard alphabet with '='
 * padding (section 4 of RFC 4648) and the URL- and filename-safe alphabet
 * without padding (section 5 of RFC 4648). Decoding is strict: it accepts
 * exactly the lengths and characters an encoder can produce.
 */
module Base64 {
  import opened Wrappers

  type Byte = x: int | 0 <= x < 256
  type Sextet = x: int | 0 <= x < 64

  /** The 64-character alphabet; `url` selects section 5 ('-', '_') over section 4 ('+', '/'). */
  function Char(v: Sextet, url: bool): char {
    if v < 26 then ('A' as int + v) as char
    else if v < 52 then ('a' as int + (v - 26)) as char
    else if v < 62 then ('0' as int + (v - 52)) as char
    else if v == 62 then (if url then '-' else '+')
    else (if url then '_' else '/')
  }

  function Value(ch: char, url: bool): Option<Sextet> {
    if 'A' <= ch <= 'Z' then Some(ch as int - 'A' as int)
    else if 'a' <= ch <= 'z' then Some(ch as int - 'a' as int + 26)
    else if '0' <= ch <= '9' then Some(ch as int - '0' as int + 52)
    else if ch == (if url then '-' else '+') then Some(62)
    else if ch == (if url then '_' else '/') then Some(63)
    else None
  }

  predicate InAlphabet(ch: char, url: bool) {
    Value(ch, url).Some?
  }

  lemma ValueOfChar(v: Sextet, url: bool)
    ensures Value(Char(v, url), url) == Some(v)
  {
  }

  /** Three bytes become four sextets. */
  function Group(x: Byte, y: Byte, z: Byte): (g: seq<Sextet>)
    ensures |g| == 4
  {
    [x / 4, (x % 4) * 16 + y / 16, (y % 16) * 4 + z / 64, z % 64]
  }

  /** A final one or two bytes become two or three sextets. */
  function Tail(b: seq<Byte>): (t: seq<Sextet>)
    requires 1 <= |b| <= 2
    ensures |t| == |b| + 1
  {
    if |b| == 1 then [b[0] / 4, (b[0] % 4) * 16]
    else [b[0] / 4, (b[0] % 4) * 16 + b[1] / 16, (b[1] % 16) * 4]
  }

  function EncodeSextets(b: seq<Byte>): (s: seq<Sextet>)
    ensures |s| == (|b| / 3) * 4 + (if |b| % 3 == 0 then 0 else |b| % 3 + 1)
    decreases |b|
  {
    if |b| == 0 then []
    else if |b| < 3 then Tail(b)
    else Group(b[0], b[1], b[2]) + EncodeSextets(b[3..])
  }

  function Byte1(a: Sextet, b: Sextet): Byte {
    (a as int) * 4 + (b as int) / 16
  }

  function Byte2(b: Sextet, c: Sextet): Byte {
    ((b as int) % 16) * 16 + (c as int) / 4
  }

  function Byte3(c: Sextet, d: Sextet): Byte {
    ((c as int) % 4) * 64 + (d as int)
  }

  /** Four sextets become three bytes; a final two or three become one or two; a lone one is malformed. */
  function DecodeSextets(s: seq<Sextet>): (o: Option<seq<Byte>>)
    ensures o.Some? <==> |s| % 4 != 1
    ensures o.Some? ==> |o.value| == |s| * 3 / 4
    decreases |s|
  {
    if |s| == 0 then Some([])
    else if |s| == 1 then None
    else if |s| == 2 then Some([Byte1(s[0], s[1])])
    else if |s| == 3 then Some([Byte1(s[0], s[1]), Byte2(s[1], s[2])])
    else
      match DecodeSextets(s[4..])
      case None => None
      case Some(rest) => Some([Byte1(s[0], s[1]), Byte2(s[1], s[2]), Byte3(s[2], s[3])] + rest)
  }

  /** One full group of three bytes survives the trip through four sextets. */
  lemma GroupRoundTrip(x: Byte, y: Byte, z: Byte)
    ensures var g := Group(x, y, z);
      Byte1(g[0], g[1]) == x && Byte2(g[1], g[2]) == y && Byte3(g[2], g[3]) == z
  {
  }

  lemma TailRoundTrip(b: seq<Byte>)
    requires 1 <= |b| <= 2
    ensures DecodeSextets(Tail(b)) == Some(b)
  {
    var t := Tail(b);
    if |b| == 1 {
      assert Byte1(t[0], t[1]) == b[0];
      assert b == [b[0]];
    } else {
      assert Byte1(t[0], t[1]) == b[0];
      assert Byte2(t[1], t[2]) == b[1];
      assert b == [b[0], b[1]];
    }
  }

  lemma {:induction false} SextetsRoundTrip(b: seq<Byte>)
    ensures DecodeSextets(EncodeSextets(b)) == Some(b)
    decreases |b|
  {
    if 1 <= |b| < 3 {
      TailRoundTrip(b);
    } else if |b| >= 3 {
      var g := Group(b[0], b[1], b[2]);
      var rest := EncodeSextets(b[3..]);
      var s := g + rest;
      assert EncodeSextets(b) == s;
      SextetsRoundTrip(b[3..]);
      GroupRoundTrip(b[0], b[1], b[2]);
      assert s[4..] == rest;
      assert s[0] == g[0] && s[1] == g[1] && s[2] == g[2] && s[3] == g[3];
      assert b == [b[0], b[1], b[2]] + b[3..];
    }
  }

  function ToChars(s: seq<Sextet>, url: bool): (r: string)
    ensures |r| == |s|
    ensures forall i :: 0 <= i < |s| ==> r[i] == Char(s[i], url)
  {
    seq(|s|, i requires 0 <= i < |s| => Char(s[i], url))
  }

  function FromChars(r: string, url: bool): (o: Option<seq<Sextet>>)
    ensures o.Some? <==> forall i :: 0 <= i < |r| ==> InAlphabet(r[i], url)
    ensures o.Some? ==> |o.value| == |r|
    decreases |r|
  {
    if |r| == 0 then Some([])
    else
      match Value(r[0], url)
      case None => None
      case Some(v) =>
        match FromChars(r[1..], url)
        case None => None
        case Some(rest) => Some([v] + rest)
  }

  lemma {:induction false} CharsRoundTrip(s: seq<Sextet>, url: bool)
    ensures FromChars(ToChars(s, url), url) == Some(s)
    decreases |s|
  {
    if |s| > 0 {
      var r := ToChars(s, url);
      assert r[1..] == ToChars(s[1..], url);
      CharsRoundTrip(s[1..], url);
      ValueOfChar(s[0], url);
      assert s == [s[0]] + s[1..];
    }
  }

  function Padding(n: nat): string {
    if n % 4 == 0 then "" else seq(4 - n % 4, _ => '=')
  }

  /** `buffer.toString('base64url')`: unpadded, alphabet of section 5. */
  function EncodeUrl(b: seq<Byte>): (r: string)
    ensures forall i :: 0 <= i < |r| ==> InAlphabet(r[i], true)
  {
    var s := EncodeSextets(b);
    var r := ToChars(s, true);
    forall i | 0 <= i < |r| ensures InAlphabet(r[i], true) {
      ValueOfChar(s[i], true);
    }
    r
  }

  /**
   * `Buffer.from(r, 'base64url')`, strictly: every character must be in the
   * alphabet of section 5, and the length must be one a complete encoding
   * can have; each four characters carry three bytes.
   */
  function DecodeUrl(r: string): (o: Option<seq<Byte>>)
    ensures o.Some? <==> (forall i :: 0 <= i < |r| ==> InAlphabet(r[i], true)) && |r| % 4 != 1
    ensures o.Some? ==> |o.value| == |r| * 3 / 4
  {
    match FromChars(r, true)
    case None => None
    case Some(s) => DecodeSextets(s)
  }

  /** `buffer.toString('base64')`: padded to a multiple of four, alphabet of section 4. */
  function EncodeStd(b: seq<Byte>): (r: string)
    ensures |r| % 4 == 0
    ensures forall i :: 0 <= i < |r| ==> InAlphabet(r[i], false) || r[i] == '='
  {
    var s := EncodeSextets(b);
    var body := ToChars(s, false);
    forall i | 0 <= i < |body| ensures InAlphabet(body[i], false) {
      ValueOfChar(s[i], false);
    }
    body + Padding(|body|)
  }

  function StripPadding(r: string): string {
    if |r| >= 2 && r[|r| - 2..] == "==" then r[..|r| - 2]
    else if |r| >= 1 && r[|r| - 1] == '=' then r[..|r| - 1]
    else r
  }

  /**
   * `Buffer.from(r, 'base64')`, strictly: a multiple of four characters,
   * and once the padding is removed, characters of the alphabet of section
   * 4 in a length a complete encoding can have.
   */
  function DecodeStd(r: string): (o: Option<seq<Byte>>)
    ensures o.Some? <==> |r| % 4 == 0 && |StripPadding(r)| % 4 != 1
                         && forall i :: 0 <= i < |StripPadding(r)| ==> InAlphabet(StripPadding(r)[i], false)
    ensures o.Some? ==> |o.value| == |StripPadding(r)| * 3 / 4
  {
    if |r| % 4 != 0 then None
    else
      match FromChars(StripPadding(r), false)
      case None => None
      case Some(s) => DecodeSextets(s)
  }

  /** Decoding inverts the unpadded URL-safe encoding. */
  lemma UrlRoundTrip(b: seq<Byte>)
    ensures DecodeUrl(EncodeUrl(b)) == Some(b)
  {
    CharsRoundTrip(EncodeSextets(b), true);
    SextetsRoundTrip(b);
  }

  /** Removing the padding of a padded body gives the body back. */
  lemma StripPaddingOfPadded(body: string)
    requires |body| % 4 != 1
    requires forall i :: 0 <= i < |body| ==> body[i] != '='
    ensures StripPadding(body + Padding(|body|)) == body
  {
    var r := body + Padding(|body|);
    if |body| % 4 == 2 {
      assert r[|r| - 2..] == "==";
      assert r[..|r| - 2] == body;
    } else if |body| % 4 == 3 {
      assert r[|r| - 2] == body[|body| - 1];
      assert r[|r| - 2..] != "==" by {
        assert r[|r| - 2..][0] == body[|body| - 1];
      }
      assert r[..|r| - 1] == body;
    } else {
      assert r == body;
      if |body| >= 2 {
        assert r[|r| - 2..][1] == body[|body| - 1];
      }
    }
  }

  /** Decoding inverts the padded standard encoding. */
  lemma StdRoundTrip(b: seq<Byte>)
    ensures DecodeStd(EncodeStd(b)) == Some(b)
  {
    var s := EncodeSextets(b);
    var body := ToChars(s, false);
    StripPaddingOfPadded(body);
    CharsRoundTrip(s, false);
    SextetsRoundTrip(b);
  }
}
