/**
 * Encryption of stored face embeddings (`EncryptionService` of the newer
 * backend). The service holds a 32-byte AES-256-GCM key taken from its
 * configuration. An embedding is sealed under a random 12-byte IV and
 * stored as IV ‖ tag ‖ ciphertext; a string is sealed the same way and
 * written as three standard Base64 fields (section 4 of RFC 4648) joined
 * by ':'.
 *
 * AES-GCM itself is a parameter: a `Cipher` whose `seal` produces a tag
 * and a ciphertext and whose `open` checks the tag and gives the
 * plaintext back. `Sound` states what GCM guarantees and what the
 * round trips below rely on. The random IV is a parameter too.
 */
module Encryption {
  import opened Wrappers
  import Strings
  import Base64

  type Byte = Base64.Byte

  const KeyLength := 32
  const IvLength := 12
  const TagLength := 16
  const FloatBytes := 4

  const KeyTooShortMsg := "EMBEDDING_ENCRYPTION_KEY must be at least 32 characters long"
  const EncryptFailedMsg := "Encryption failed"
  const DecryptFailedMsg := "Decryption failed - data may be corrupted"
  const FormatMsg := "Invalid encrypted string format"
  /** What Node's cipher reports for a key that is not 32 bytes long. */
  const InvalidKeyMsg := "Invalid key length"
  /** What Node's decipher reports when the tag does not authenticate the data. */
  const AuthFailedMsg := "Unsupported state or unable to authenticate data"

  // ---------------------------------------------------------------------
  // UTF-8 and the key
  // ---------------------------------------------------------------------

  /** The UTF-8 encoding of one character (section 3 of RFC 3629). */
  function CharBytes(ch: char): (b: seq<Byte>)
    ensures 1 <= |b| <= 4
    ensures |b| == 1 <==> (ch as int) < 0x80
  {
    var n := ch as int;
    if n < 0x80 then [n]
    else if n < 0x800 then [0xC0 + n / 64, 0x80 + n % 64]
    else if n < 0x10000 then [0xE0 + n / 4096, 0x80 + (n / 64) % 64, 0x80 + n % 64]
    else [0xF0 + n / 262144, 0x80 + (n / 4096) % 64, 0x80 + (n / 64) % 64, 0x80 + n % 64]
  }

  /** `Buffer.from(s, 'utf8')`. */
  function Utf8(s: string): (b: seq<Byte>)
    ensures |b| >= |s|
    ensures |b| == |s| <==> forall i :: 0 <= i < |s| ==> (s[i] as int) < 0x80
    decreases |s|
  {
    if |s| == 0 then []
    else
      var rest := Utf8(s[1..]);
      assert forall i :: 1 <= i < |s| ==> s[i] == s[1..][i - 1];
      CharBytes(s[0]) + rest
  }

  /**
   * The key bytes as the constructor computes them: the first 32
   * characters, encoded. A character outside ASCII takes more than one
   * byte, so the result can be longer than the 32 bytes AES-256 needs.
   */
  function KeyBytesAsWritten(key: string): (b: seq<Byte>)
    requires |key| >= KeyLength
    ensures |b| >= KeyLength
  {
    Utf8(key[..KeyLength])
  }

  /** The first 32 bytes of the encoded key. */
  function KeyBytes(key: string): (b: seq<Byte>)
    requires |key| >= KeyLength
    ensures |b| == KeyLength
    ensures b == Utf8(key)[..KeyLength]
  {
    Utf8(key)[..KeyLength]
  }

  /** A key of 32 copies of 'é' (U+00E9) yields 64 key bytes as written. */
  lemma AccentedKeyIsTooLong()
    ensures var key := seq(KeyLength, _ => 0xE9 as char);
            |KeyBytesAsWritten(key)| == 2 * KeyLength
  {
    var key := seq(KeyLength, _ => 0xE9 as char);
    assert key[..KeyLength] == key;
    Utf8Length(key, 2);
  }

  lemma {:induction false} Utf8Length(s: string, w: nat)
    requires forall i :: 0 <= i < |s| ==> |CharBytes(s[i])| == w
    ensures |Utf8(s)| == w * |s|
    decreases |s|
  {
    if |s| > 0 {
      assert forall i :: 0 <= i < |s| - 1 ==> s[1..][i] == s[i + 1];
      Utf8Length(s[1..], w);
      assert |Utf8(s)| == |CharBytes(s[0])| + |Utf8(s[1..])|;
      assert w * |s| == w + w * (|s| - 1);
    }
  }

  /** For an ASCII key both readings give the same 32 bytes. */
  lemma {:induction false} AsciiKeysAgree(key: string)
    requires |key| >= KeyLength
    requires forall i :: 0 <= i < |key| ==> (key[i] as int) < 0x80
    ensures KeyBytesAsWritten(key) == KeyBytes(key)
  {
    Utf8Prefix(key, KeyLength);
  }

  lemma {:induction false} Utf8Prefix(s: string, n: nat)
    requires n <= |s|
    requires forall i :: 0 <= i < |s| ==> (s[i] as int) < 0x80
    ensures |Utf8(s[..n])| == n
    ensures Utf8(s)[..n] == Utf8(s[..n])
    decreases n
  {
    if n > 0 {
      assert s[..n][1..] == s[1..][..n - 1];
      assert forall i :: 0 <= i < |s| - 1 ==> s[1..][i] == s[i + 1];
      Utf8Prefix(s[1..], n - 1);
      assert |Utf8(s[..n])| == n by {
        assert forall i :: 0 <= i < n ==> s[..n][i] == s[i];
      }
    }
  }

  /** The constructor: a key of at least 32 characters, of which the first 32 bytes are used. */
  function Construct(configured: Option<string>): (r: Result<seq<Byte>, string>)
    ensures r.Ok? <==> configured.Some? && |configured.value| >= KeyLength
    ensures r.Ok? ==> |r.value| == KeyLength
    ensures r.Err? ==> r.error == KeyTooShortMsg
  {
    if configured.None? || configured.value == "" || |configured.value| < KeyLength then Err(KeyTooShortMsg)
    else Ok(KeyBytes(configured.value))
  }

  /** The constructor as written: it accepts keys its cipher will later refuse. */
  function ConstructAsWritten(configured: Option<string>): (r: Result<seq<Byte>, string>)
    ensures r.Ok? <==> configured.Some? && |configured.value| >= KeyLength
    ensures r.Ok? ==> |r.value| >= KeyLength
    ensures r.Err? ==> r.error == KeyTooShortMsg
  {
    if configured.None? || configured.value == "" || |configured.value| < KeyLength then Err(KeyTooShortMsg)
    else Ok(KeyBytesAsWritten(configured.value))
  }

  // ---------------------------------------------------------------------
  // The cipher
  // ---------------------------------------------------------------------

  datatype Sealed = Sealed(tag: seq<Byte>, data: seq<Byte>)

  /** AES-256-GCM: `seal(key, iv, plaintext)` and `open(key, iv, tag, ciphertext)`. */
  datatype Cipher = Cipher(seal: (seq<Byte>, seq<Byte>, seq<Byte>) -> Sealed,
                           open: (seq<Byte>, seq<Byte>, seq<Byte>, seq<Byte>) -> Option<seq<Byte>>)

  /** GCM's guarantees: a 16-byte tag, a ciphertext as long as the plaintext, and opening undoes sealing. */
  ghost predicate Sound(c: Cipher) {
    && (forall k, iv, p :: |c.seal(k, iv, p).tag| == TagLength && |c.seal(k, iv, p).data| == |p|)
    && (forall k, iv, p :: c.open(k, iv, c.seal(k, iv, p).tag, c.seal(k, iv, p).data) == Some(p))
  }

  // ---------------------------------------------------------------------
  // Embeddings
  // ---------------------------------------------------------------------

  /** A float32 as its four bytes in memory order. */
  type Word = b: seq<Byte> | |b| == FloatBytes witness [0, 0, 0, 0]

  /** `Buffer.from(floats.buffer)`. */
  function BytesOf(floats: seq<Word>): (b: seq<Byte>)
    ensures |b| == FloatBytes * |floats|
  {
    if |floats| == 0 then [] else floats[0] + BytesOf(floats[1..])
  }

  /** `new Float32Array(buffer, offset, length / 4)`: the length is truncated to whole floats. */
  function FloatsOf(b: seq<Byte>): (f: seq<Word>)
    ensures |f| == |b| / FloatBytes
    ensures forall i :: 0 <= i < |f| ==> f[i] == b[FloatBytes * i..FloatBytes * i + FloatBytes]
    decreases |b|
  {
    if |b| < FloatBytes then []
    else
      var rest := FloatsOf(b[FloatBytes..]);
      assert forall i :: 0 <= i < |rest| ==> b[FloatBytes..][FloatBytes * i..FloatBytes * i + FloatBytes]
                                              == b[FloatBytes * (i + 1)..FloatBytes * (i + 1) + FloatBytes];
      [b[..FloatBytes]] + rest
  }

  /** Reading the bytes of an embedding back gives the embedding. */
  lemma {:induction false} FloatsRoundTrip(floats: seq<Word>)
    ensures FloatsOf(BytesOf(floats)) == floats
    decreases |floats|
  {
    if |floats| > 0 {
      var b := BytesOf(floats);
      assert b[FloatBytes..] == BytesOf(floats[1..]);
      assert b[..FloatBytes] == floats[0];
      FloatsRoundTrip(floats[1..]);
      assert [floats[0]] + floats[1..] == floats;
    }
  }

  /** IV ‖ tag ‖ ciphertext. */
  function Frame(iv: seq<Byte>, tag: seq<Byte>, data: seq<Byte>): (buf: seq<Byte>)
    requires |iv| == IvLength && |tag| == TagLength
    ensures |buf| == IvLength + TagLength + |data|
    ensures buf[..IvLength] == iv
    ensures buf[IvLength..IvLength + TagLength] == tag
    ensures buf[IvLength + TagLength..] == data
  {
    iv + tag + data
  }

  /** `slice(0, 12)`, `slice(12, 28)` and `slice(28)`; a slice past the end is empty. */
  function Unframe(buf: seq<Byte>): (parts: (seq<Byte>, seq<Byte>, seq<Byte>))
    ensures parts.0 + parts.1 + parts.2 == buf
    ensures |buf| >= IvLength + TagLength ==> |parts.0| == IvLength && |parts.1| == TagLength
  {
    var a := if |buf| < IvLength then |buf| else IvLength;
    var b := if |buf| < IvLength + TagLength then |buf| else IvLength + TagLength;
    assert buf[..a] + buf[a..b] + buf[b..] == buf;
    (buf[..a], buf[a..b], buf[b..])
  }

  lemma FrameRoundTrip(iv: seq<Byte>, tag: seq<Byte>, data: seq<Byte>)
    requires |iv| == IvLength && |tag| == TagLength
    ensures Unframe(Frame(iv, tag, data)) == (iv, tag, data)
  {
  }

  /**
   * `encrypt`: any failure of the cipher, such as a key of the wrong
   * length, is reported as 'Encryption failed'.
   */
  function Encrypt(key: seq<Byte>, c: Cipher, iv: seq<Byte>, floats: seq<Word>): (r: Result<seq<Byte>, string>)
    requires |iv| == IvLength
    ensures r.Ok? <==> |key| == KeyLength && |c.seal(key, iv, BytesOf(floats)).tag| == TagLength
    ensures r.Err? ==> r.error == EncryptFailedMsg
    ensures r.Ok? ==> |r.value| == IvLength + TagLength + |c.seal(key, iv, BytesOf(floats)).data|
    ensures r.Ok? ==> r.value[..IvLength] == iv
  {
    var sealed := c.seal(key, iv, BytesOf(floats));
    if |key| != KeyLength || |sealed.tag| != TagLength then Err(EncryptFailedMsg)
    else Ok(Frame(iv, sealed.tag, sealed.data))
  }

  /** `decrypt`: any failure is reported as 'Decryption failed - data may be corrupted'. */
  function Decrypt(key: seq<Byte>, c: Cipher, buf: seq<Byte>): (r: Result<seq<Word>, string>)
    ensures r.Err? ==> r.error == DecryptFailedMsg
    ensures r.Ok? ==> |key| == KeyLength
    ensures r.Ok? ==> var (iv, tag, data) := Unframe(buf);
                      c.open(key, iv, tag, data).Some?
                      && r.value == FloatsOf(c.open(key, iv, tag, data).value)
  {
    var (iv, tag, data) := Unframe(buf);
    if |key| != KeyLength then Err(DecryptFailedMsg)
    else
      match c.open(key, iv, tag, data)
      case None => Err(DecryptFailedMsg)
      case Some(plain) => Ok(FloatsOf(plain))
  }

  /** A stored embedding decrypts to the embedding that was encrypted. */
  lemma EmbeddingRoundTrip(key: seq<Byte>, c: Cipher, iv: seq<Byte>, floats: seq<Word>)
    requires Sound(c) && |key| == KeyLength && |iv| == IvLength
    ensures Encrypt(key, c, iv, floats).Ok?
    ensures Decrypt(key, c, Encrypt(key, c, iv, floats).value) == Ok(floats)
  {
    var sealed := c.seal(key, iv, BytesOf(floats));
    FrameRoundTrip(iv, sealed.tag, sealed.data);
    FloatsRoundTrip(floats);
  }

  /** Every key the constructor accepts can encrypt, once the key bytes are the first 32 of the encoding. */
  lemma ConstructedKeyEncrypts(configured: Option<string>, c: Cipher, iv: seq<Byte>, floats: seq<Word>)
    requires Sound(c) && |iv| == IvLength
    requires Construct(configured).Ok?
    ensures Encrypt(Construct(configured).value, c, iv, floats).Ok?
  {
  }

  /** As written, an accepted key of 32 accented characters makes every encryption fail. */
  lemma AccentedKeyCannotEncrypt(c: Cipher, iv: seq<Byte>, floats: seq<Word>)
    requires |iv| == IvLength
    ensures var configured := Some(seq(KeyLength, _ => 0xE9 as char));
            && ConstructAsWritten(configured).Ok?
            && Encrypt(ConstructAsWritten(configured).value, c, iv, floats) == Err(EncryptFailedMsg)
  {
    AccentedKeyIsTooLong();
  }

  // ---------------------------------------------------------------------
  // Strings
  // ---------------------------------------------------------------------

  lemma ColonNotInBase64(b: seq<Byte>)
    ensures ':' !in Base64.EncodeStd(b)
  {
    var r := Base64.EncodeStd(b);
    forall i | 0 <= i < |r| ensures r[i] != ':' {
      assert Base64.InAlphabet(r[i], false) || r[i] == '=';
    }
  }

  /**
   * `encryptString`: IV, tag and ciphertext in standard Base64, joined by
   * ':'. It has no handler, so the cipher's own error escapes.
   */
  function EncryptString(key: seq<Byte>, c: Cipher, iv: seq<Byte>, plain: seq<Byte>): (r: Result<string, string>)
    requires |iv| == IvLength
    ensures r.Ok? <==> |key| == KeyLength
    ensures r.Err? ==> r.error == InvalidKeyMsg
    ensures r.Ok? ==> |Strings.Split(r.value, ':')| == 3
  {
    if |key| != KeyLength then Err(InvalidKeyMsg)
    else
      var sealed := c.seal(key, iv, plain);
      var fields := [Base64.EncodeStd(iv), Base64.EncodeStd(sealed.tag), Base64.EncodeStd(sealed.data)];
      ColonNotInBase64(iv);
      ColonNotInBase64(sealed.tag);
      ColonNotInBase64(sealed.data);
      Strings.SplitJoin(fields, ':');
      Ok(Strings.Join(fields, ':'))
  }

  /**
   * `decryptString`: exactly three ':'-separated fields, each Base64,
   * then the decipher. Fields are decoded strictly here; a field that
   * does not decode, a key of the wrong length and a tag that does not
   * authenticate are all errors.
   */
  function DecryptString(key: seq<Byte>, c: Cipher, text: string): (r: Result<seq<Byte>, string>)
    ensures |Strings.Split(text, ':')| != 3 ==> r == Err(FormatMsg)
    ensures r.Ok? ==> |key| == KeyLength
    ensures r.Ok? ==> var parts := Strings.Split(text, ':');
                      && Base64.DecodeStd(parts[0]).Some?
                      && Base64.DecodeStd(parts[1]).Some?
                      && Base64.DecodeStd(parts[2]).Some?
                      && c.open(key, Base64.DecodeStd(parts[0]).value, Base64.DecodeStd(parts[1]).value,
                                Base64.DecodeStd(parts[2]).value) == Some(r.value)
  {
    var parts := Strings.Split(text, ':');
    if |parts| != 3 then Err(FormatMsg)
    else if |key| != KeyLength then Err(InvalidKeyMsg)
    else
      match (Base64.DecodeStd(parts[0]), Base64.DecodeStd(parts[1]), Base64.DecodeStd(parts[2]))
      case (Some(iv), Some(tag), Some(data)) =>
        (match c.open(key, iv, tag, data)
         case None => Err(AuthFailedMsg)
         case Some(plain) => Ok(plain))
      case _ => Err(AuthFailedMsg)
  }

  /** A string encrypted under a key decrypts to itself under the same key. */
  lemma StringRoundTrip(key: seq<Byte>, c: Cipher, iv: seq<Byte>, plain: seq<Byte>)
    requires Sound(c) && |key| == KeyLength && |iv| == IvLength
    ensures EncryptString(key, c, iv, plain).Ok?
    ensures DecryptString(key, c, EncryptString(key, c, iv, plain).value) == Ok(plain)
  {
    var sealed := c.seal(key, iv, plain);
    var fields := [Base64.EncodeStd(iv), Base64.EncodeStd(sealed.tag), Base64.EncodeStd(sealed.data)];
    ColonNotInBase64(iv);
    ColonNotInBase64(sealed.tag);
    ColonNotInBase64(sealed.data);
    Strings.SplitJoin(fields, ':');
    Base64.StdRoundTrip(iv);
    Base64.StdRoundTrip(sealed.tag);
    Base64.StdRoundTrip(sealed.data);
  }
}
