/** UTF-8 as Python's `str.encode("utf-8")` and strict `bytes.decode()` use it:
    the well-formed byte sequences of Table 3-7 of the Unicode Standard
    (RFC 3629), with overlong forms, surrogates and code points above
    U+10FFFF rejected. */
module Utf8 {
  import opened Base

  predicate IsContinuation(b: byte) { 0x80 <= b < 0xC0 }

  /** Number of bytes UTF-8 spends on one code point. */
  function Width(c: char): (w: nat)
    ensures 1 <= w <= 4
  {
    var n := c as int;
    if n < 0x80 then 1 else if n < 0x800 then 2 else if n < 0x10000 then 3 else 4
  }

  function EncodeChar(c: char): (r: bytes)
    ensures |r| == Width(c)
    ensures Width(c) == 1 <==> r[0] < 0x80
  {
    var n := c as int;
    if n < 0x80 then [n]
    else if n < 0x800 then [0xC0 + n / 64, 0x80 + n % 64]
    else if n < 0x10000 then [0xE0 + n / 4096, 0x80 + (n / 64) % 64, 0x80 + n % 64]
    else [0xF0 + n / 262144, 0x80 + (n / 4096) % 64, 0x80 + (n / 64) % 64, 0x80 + n % 64]
  }

  /** Python's `s.encode("utf-8")`. */
  function Encode(s: string): (r: bytes)
    ensures |r| >= |s|
    ensures s == [] <==> r == []
  {
    if s == [] then [] else EncodeChar(s[0]) + Encode(s[1..])
  }

  /** The number of bytes of `Encode(s)`: the sum of the widths. */
  function EncodedLength(s: string): nat {
    if s == [] then 0 else Width(s[0]) + EncodedLength(s[1..])
  }

  /** The code point the first well-formed sequence of `b` stands for, with
      that sequence's length; `None` when `b` does not start with one. */
  function DecodeOne(b: bytes): (r: Option<(char, nat)>)
    requires |b| >= 1
    ensures r.Some? ==> 1 <= r.value.1 <= |b|
  {
    var b0 := b[0] as int;
    if b0 < 0x80 then Some((b0 as char, 1))
    else if 0xC2 <= b0 <= 0xDF then
      if |b| >= 2 && IsContinuation(b[1]) then
        Some((((b0 - 0xC0) * 64 + (b[1] as int - 0x80)) as char, 2))
      else None
    else if 0xE0 <= b0 <= 0xEF then
      var lo := if b0 == 0xE0 then 0xA0 else 0x80;
      var hi := if b0 == 0xED then 0x9F else 0xBF;
      if |b| >= 3 && lo <= b[1] <= hi && IsContinuation(b[2]) then
        var n := (b0 - 0xE0) * 4096 + (b[1] as int - 0x80) * 64 + (b[2] as int - 0x80);
        Some((n as char, 3))
      else None
    else if 0xF0 <= b0 <= 0xF4 then
      var lo := if b0 == 0xF0 then 0x90 else 0x80;
      var hi := if b0 == 0xF4 then 0x8F else 0xBF;
      if |b| >= 4 && lo <= b[1] <= hi && IsContinuation(b[2]) && IsContinuation(b[3]) then
        var n := (b0 - 0xF0) * 262144 + (b[1] as int - 0x80) * 4096 + (b[2] as int - 0x80) * 64 + (b[3] as int - 0x80);
        Some((n as char, 4))
      else None
    else None
  }

  /** Python's strict `b.decode("utf-8")`: `None` where Python raises
      `UnicodeDecodeError`. */
  function Decode(b: bytes): Option<string>
    decreases |b|
  {
    if b == [] then Some([])
    else match DecodeOne(b)
      case None => None
      case Some((c, k)) =>
        match Decode(b[k..])
        case None => None
        case Some(rest) => Some([c] + rest)
  }

  lemma EncodedLengthIsLength(s: string)
    ensures |Encode(s)| == EncodedLength(s)
  {
  }

  /** The decoder reads back exactly the bytes the encoder wrote for one code point. */
  lemma DecodeOneOfEncodeChar(c: char, rest: bytes)
    ensures DecodeOne(EncodeChar(c) + rest) == Some((c, Width(c)))
  {
    var n := c as int;
    if n < 0x80 {
    } else if n < 0x800 {
      DecodeTwo(c, rest);
    } else if n < 0x10000 {
      DecodeThree(c, rest);
    } else {
      DecodeFour(c, rest);
    }
  }

  lemma DecodeTwo(c: char, rest: bytes)
    requires 0x80 <= c as int < 0x800
    ensures DecodeOne(EncodeChar(c) + rest) == Some((c, 2))
  {
    var n := c as int;
    var b := EncodeChar(c) + rest;
    assert b[0] == 0xC0 + n / 64 && b[1] == 0x80 + n % 64;
  }

  lemma DecodeThree(c: char, rest: bytes)
    requires 0x800 <= c as int < 0x10000
    ensures DecodeOne(EncodeChar(c) + rest) == Some((c, 3))
  {
    var n := c as int;
    var b := EncodeChar(c) + rest;
    assert b[0] == 0xE0 + n / 4096 && b[1] == 0x80 + (n / 64) % 64 && b[2] == 0x80 + n % 64;
    Recompose3(n);
  }

  lemma DecodeFour(c: char, rest: bytes)
    requires 0x10000 <= c as int
    ensures DecodeOne(EncodeChar(c) + rest) == Some((c, 4))
  {
    var n := c as int;
    var b := EncodeChar(c) + rest;
    assert b[0] == 0xF0 + n / 262144 && b[1] == 0x80 + (n / 4096) % 64;
    assert b[2] == 0x80 + (n / 64) % 64 && b[3] == 0x80 + n % 64;
    Recompose4(n);
  }

  lemma Recompose3(n: int)
    requires 0x800 <= n < 0x10000
    ensures (n / 4096) * 4096 + ((n / 64) % 64) * 64 + n % 64 == n
  {
    var q := n / 64;
    assert q * 64 + n % 64 == n;
    assert (q / 64) * 64 + q % 64 == q;
    assert q / 64 == n / 4096;
  }

  lemma Recompose4(n: int)
    requires 0x10000 <= n < 0x110000
    ensures (n / 262144) * 262144 + ((n / 4096) % 64) * 4096 + ((n / 64) % 64) * 64 + n % 64 == n
  {
    var q := n / 64;
    var q2 := q / 64;
    assert q * 64 + n % 64 == n;
    assert q2 * 64 + q % 64 == q;
    assert (q2 / 64) * 64 + q2 % 64 == q2;
    assert q2 == n / 4096;
    assert q2 / 64 == n / 262144;
  }

  /** Round trip: decoding the encoding of any string gives the string back. */
  lemma {:induction false} DecodeEncode(s: string)
    ensures Decode(Encode(s)) == Some(s)
  {
    if s != [] {
      var b := Encode(s);
      assert b == EncodeChar(s[0]) + Encode(s[1..]);
      DecodeOneOfEncodeChar(s[0], Encode(s[1..]));
      assert b[Width(s[0])..] == Encode(s[1..]);
      DecodeEncode(s[1..]);
      assert [s[0]] + s[1..] == s;
    }
  }

  /** The decoder accepts only the encoder's own output: the bytes that make up
      one decoded code point are the encoding of that code point. */
  lemma DecodeOneCanonical(b: bytes)
    requires |b| >= 1 && DecodeOne(b).Some?
    ensures EncodeChar(DecodeOne(b).value.0) == b[..DecodeOne(b).value.1]
  {
    var k := DecodeOne(b).value.1;
    if k == 2 {
      CanonicalTwo(b);
    } else if k == 3 {
      CanonicalThree(b);
    } else if k == 4 {
      CanonicalFour(b);
    }
  }

  lemma CanonicalTwo(b: bytes)
    requires |b| >= 1 && DecodeOne(b).Some? && DecodeOne(b).value.1 == 2
    ensures EncodeChar(DecodeOne(b).value.0) == b[..2]
  {
    var n := DecodeOne(b).value.0 as int;
    Split64(n, b[0] as int - 0xC0, b[1] as int - 0x80);
  }

  lemma CanonicalThree(b: bytes)
    requires |b| >= 1 && DecodeOne(b).Some? && DecodeOne(b).value.1 == 3
    ensures EncodeChar(DecodeOne(b).value.0) == b[..3]
  {
    var n := DecodeOne(b).value.0 as int;
    var q := (b[0] as int - 0xE0) * 64 + (b[1] as int - 0x80);
    Split64(n, q, b[2] as int - 0x80);
    Split64(q, b[0] as int - 0xE0, b[1] as int - 0x80);
    assert n / 4096 == q / 64;
  }

  lemma CanonicalFour(b: bytes)
    requires |b| >= 1 && DecodeOne(b).Some? && DecodeOne(b).value.1 == 4
    ensures EncodeChar(DecodeOne(b).value.0) == b[..4]
  {
    var n := DecodeOne(b).value.0 as int;
    var q2 := (b[0] as int - 0xF0) * 64 + (b[1] as int - 0x80);
    var q := q2 * 64 + (b[2] as int - 0x80);
    Split64(n, q, b[3] as int - 0x80);
    Split64(q, q2, b[2] as int - 0x80);
    Split64(q2, b[0] as int - 0xF0, b[1] as int - 0x80);
    assert n / 4096 == q / 64;
    assert n / 262144 == q2 / 64;
  }

  /** Division by 64 undoes the shift that built `n` from `q` and `r`. */
  lemma Split64(n: int, q: int, r: int)
    requires n == q * 64 + r && 0 <= r < 64
    ensures n / 64 == q && n % 64 == r
  {
  }

  /** The other direction of the round trip: whatever decodes re-encodes to the
      same bytes, so no two byte strings decode to one text. */
  lemma {:induction false} EncodeDecode(b: bytes)
    requires Decode(b).Some?
    ensures Encode(Decode(b).value) == b
    decreases |b|
  {
    if b != [] {
      var c := DecodeOne(b).value.0;
      var k := DecodeOne(b).value.1;
      var tail := Decode(b[k..]).value;
      assert Decode(b).value == [c] + tail;
      assert EncodeChar(c) == b[..k] by {
        DecodeOneCanonical(b);
      }
      assert Encode(tail) == b[k..] by {
        EncodeDecode(b[k..]);
      }
      assert Encode([c] + tail) == EncodeChar(c) + Encode(tail) by {
        assert ([c] + tail)[1..] == tail;
      }
      assert b == b[..k] + b[k..];
    }
  }
}
