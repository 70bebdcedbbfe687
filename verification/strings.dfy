/**
 * String helpers with JavaScript semantics: `split` on one separator
 * character, `join`, `startsWith`, ASCII upper-casing and decimal
 * rendering of a natural number.
 */
module Strings {

  predicate IsDigit(ch: char) {
    '0' <= ch <= '9'
  }

  predicate IsLowerHexDigit(ch: char) {
    IsDigit(ch) || 'a' <= ch <= 'f'
  }

  predicate IsAscii(s: string) {
    forall i :: 0 <= i < |s| ==> s[i] as int < 128
  }

  predicate AllDigits(s: string) {
    forall i :: 0 <= i < |s| ==> IsDigit(s[i])
  }

  predicate AllLowerHex(s: string) {
    forall i :: 0 <= i < |s| ==> IsLowerHexDigit(s[i])
  }

  predicate StartsWith(s: string, prefix: string) {
    |prefix| <= |s| && s[..|prefix|] == prefix
  }

  /** `part` occurs in `s` at index `i`. */
  predicate OccursAt(s: string, part: string, i: int) {
    0 <= i && i + |part| <= |s| && s[i..i + |part|] == part
  }

  /** `s.includes(part)`. */
  predicate Contains(s: string, part: string) {
    exists i :: 0 <= i <= |s| - |part| && OccursAt(s, part, i)
  }

  /** `s.split(c)`: always at least one piece, and no piece holds `c`. */
  function Split(s: string, c: char): (r: seq<string>)
    ensures |r| >= 1
    ensures forall i :: 0 <= i < |r| ==> c !in r[i]
    decreases |s|
  {
    if |s| == 0 then [""]
    else
      var rest := Split(s[1..], c);
      if s[0] == c then [""] + rest
      else [[s[0]] + rest[0]] + rest[1..]
  }

  /** `pieces.join(c)` for a non-empty array of pieces. */
  function Join(pieces: seq<string>, c: char): string
    requires |pieces| >= 1
  {
    if |pieces| == 1 then pieces[0]
    else pieces[0] + [c] + Join(pieces[1..], c)
  }

  /** Joining the pieces of a split gives back the original string. */
  lemma {:induction false} JoinSplit(s: string, c: char)
    ensures Join(Split(s, c), c) == s
    decreases |s|
  {
    if |s| > 0 {
      var rest := Split(s[1..], c);
      JoinSplit(s[1..], c);
      if s[0] == c {
        assert Split(s, c) == [""] + rest;
        assert ([""] + rest)[1..] == rest;
      } else {
        var r := Split(s, c);
        assert r == [[s[0]] + rest[0]] + rest[1..];
        if |rest| == 1 {
          assert Join(r, c) == [s[0]] + rest[0];
        } else {
          assert r[1..] == rest[1..];
          assert Join(r, c) == [s[0]] + rest[0] + [c] + Join(rest[1..], c);
        }
        assert s == [s[0]] + s[1..];
      }
    }
  }

  /** A string without the separator splits into itself. */
  lemma {:induction false} SplitWithoutSeparator(p: string, c: char)
    requires c !in p
    ensures Split(p, c) == [p]
    decreases |p|
  {
    if |p| > 0 {
      assert c !in p[1..];
      SplitWithoutSeparator(p[1..], c);
      assert p == [p[0]] + p[1..];
    }
  }

  /** The first separator of `p + [c] + t` ends the first piece. */
  lemma {:induction false} SplitAtFirstSeparator(p: string, c: char, t: string)
    requires c !in p
    ensures Split(p + [c] + t, c) == [p] + Split(t, c)
    decreases |p|
  {
    var s := p + [c] + t;
    if |p| == 0 {
      assert s == [c] + t;
      assert s[1..] == t;
    } else {
      assert c !in p[1..];
      SplitAtFirstSeparator(p[1..], c, t);
      assert s[1..] == p[1..] + [c] + t;
      assert s[0] == p[0];
      assert p == [p[0]] + p[1..];
    }
  }

  /** Splitting a join recovers the pieces when no piece holds the separator. */
  lemma {:induction false} SplitJoin(pieces: seq<string>, c: char)
    requires |pieces| >= 1
    requires forall i :: 0 <= i < |pieces| ==> c !in pieces[i]
    ensures Split(Join(pieces, c), c) == pieces
    decreases |pieces|
  {
    if |pieces| == 1 {
      SplitWithoutSeparator(pieces[0], c);
    } else {
      SplitJoin(pieces[1..], c);
      SplitAtFirstSeparator(pieces[0], c, Join(pieces[1..], c));
      assert pieces == [pieces[0]] + pieces[1..];
    }
  }

  /** Four pieces joined: the three separators sit between them. */
  lemma JoinFour(pieces: seq<string>, c: char)
    requires |pieces| == 4
    ensures Join(pieces, c) == pieces[0] + [c] + pieces[1] + [c] + pieces[2] + [c] + pieces[3]
  {
    var p := pieces;
    assert p[1..][1..][1..] == [p[3]];
    assert Join(p[1..][1..], c) == p[2] + [c] + p[3];
    assert Join(p[1..], c) == p[1] + [c] + (p[2] + [c] + p[3]);
  }

  /** `ch.toUpperCase()` restricted to ASCII: only 'a'..'z' change. */
  function UpperChar(ch: char): (u: char)
    ensures 'a' <= ch <= 'z' ==> 'A' <= u <= 'Z' && u as int == ch as int - 32
    ensures !('a' <= ch <= 'z') ==> u == ch
  {
    if 'a' <= ch <= 'z' then (ch as int - 32) as char else ch
  }

  function Upper(s: string): (u: string)
    ensures |u| == |s|
    ensures forall i :: 0 <= i < |s| ==> u[i] == UpperChar(s[i])
  {
    seq(|s|, i requires 0 <= i < |s| => UpperChar(s[i]))
  }

  function DigitChar(d: nat): (ch: char)
    requires d < 10
    ensures IsDigit(ch)
  {
    ('0' as int + d) as char
  }

  /** `n.toString()`: a non-empty run of decimal digits. */
  function Decimal(n: nat): (s: string)
    ensures |s| >= 1 && AllDigits(s)
  {
    if n < 10 then [DigitChar(n)] else Decimal(n / 10) + [DigitChar(n % 10)]
  }

  /** Reading the digits back gives the number. */
  function DigitsValue(s: string): nat
    requires AllDigits(s)
  {
    if |s| == 0 then 0
    else 10 * DigitsValue(s[..|s| - 1]) + (s[|s| - 1] as int - '0' as int)
  }

  lemma {:induction false} DecimalRoundTrip(n: nat)
    ensures DigitsValue(Decimal(n)) == n
  {
    var s := Decimal(n);
    if n >= 10 {
      DecimalRoundTrip(n / 10);
      assert s[..|s| - 1] == Decimal(n / 10);
    }
  }

  /** `${n}` for any integer: a negative number is its magnitude behind a minus sign. */
  function Signed(n: int): (s: string)
    ensures |s| >= 1
    ensures n >= 0 <==> IsDigit(s[0])
  {
    if n >= 0 then Decimal(n) else "-" + Decimal(-n)
  }

  /** Different integers render differently. */
  lemma SignedInjective(a: int, b: int)
    requires Signed(a) == Signed(b)
    ensures a == b
  {
    if a >= 0 && b >= 0 {
      DecimalRoundTrip(a);
      DecimalRoundTrip(b);
    } else if a < 0 && b < 0 {
      assert Decimal(-a) == Signed(a)[1..] == Signed(b)[1..] == Decimal(-b);
      DecimalRoundTrip(-a);
      DecimalRoundTrip(-b);
    }
  }

  /** A joined string holds a character only if a piece or the separator does. */
  lemma {:induction false} JoinAvoids(pieces: seq<string>, c: char, x: char)
    requires |pieces| >= 1 && x != c
    requires forall i :: 0 <= i < |pieces| ==> x !in pieces[i]
    ensures x !in Join(pieces, c)
    decreases |pieces|
  {
    if |pieces| > 1 {
      JoinAvoids(pieces[1..], c, x);
    }
  }

  /** `s.replace(/c/g, rep)`. */
  function ReplaceChar(s: string, c: char, rep: string): (r: string)
    ensures c !in rep ==> c !in r
    ensures c !in s ==> r == s
    decreases |s|
  {
    if |s| == 0 then ""
    else (if s[0] == c then rep else [s[0]]) + ReplaceChar(s[1..], c, rep)
  }

  /** `s.replace(/c/g, '')`. */
  function DropChar(s: string, c: char): (r: string)
    ensures c !in r
    ensures |r| <= |s|
    ensures forall x :: x in r ==> x in s
    ensures c !in s ==> r == s
    decreases |s|
  {
    if |s| == 0 then ""
    else (if s[0] == c then "" else [s[0]]) + DropChar(s[1..], c)
  }

  lemma {:induction false} ReplaceCharConcat(a: string, b: string, c: char, rep: string)
    ensures ReplaceChar(a + b, c, rep) == ReplaceChar(a, c, rep) + ReplaceChar(b, c, rep)
    decreases |a|
  {
    if |a| > 0 {
      assert (a + b)[1..] == a[1..] + b;
      ReplaceCharConcat(a[1..], b, c, rep);
    } else {
      assert a + b == b;
    }
  }

  lemma {:induction false} DropCharConcat(a: string, b: string, c: char)
    ensures DropChar(a + b, c) == DropChar(a, c) + DropChar(b, c)
    decreases |a|
  {
    if |a| > 0 {
      var head := if a[0] == c then "" else [a[0]];
      assert (a + b)[0] == a[0];
      assert (a + b)[1..] == a[1..] + b;
      assert DropChar(a + b, c) == head + DropChar(a[1..] + b, c);
      assert DropChar(a, c) == head + DropChar(a[1..], c);
      DropCharConcat(a[1..], b, c);
    } else {
      assert a + b == b;
    }
  }

  /** Joining the first `n` pieces gives a prefix of joining them all. */
  lemma {:induction false} JoinPrefix(pieces: seq<string>, n: nat, c: char)
    requires 1 <= n <= |pieces|
    ensures StartsWith(Join(pieces, c), Join(pieces[..n], c))
    decreases n
  {
    if n == |pieces| {
      assert pieces[..n] == pieces;
    } else if n == 1 {
      assert pieces[..1] == [pieces[0]];
    } else {
      assert pieces[..n][1..] == pieces[1..][..n - 1];
      JoinPrefix(pieces[1..], n - 1, c);
    }
  }
}
