/** Python's `str.encode()` and strict `bytes.decode()` with the default
    codec, UTF-8 (RFC 3629): a Dafny `char` is a Unicode scalar value, so
    every string has an encoding, and decoding rejects overlong forms,
    surrogates, code points above U+10FFFF, stray continuation bytes and
    truncated sequences. */
module Utf8 {
  import opened Builtins

  newtype byte = b: int | 0 <= b < 256

  const CR: byte := 13
  const LF: byte := 10

  predicate IsContinuation(b: byte) { 0x80 <= b < 0xC0 }

  predicate IsAscii(c: char) { c as int < 0x80 }

  /** The one to four bytes that encode one scalar value. */
  function EncodeChar(c: char): (b: seq<byte>)
    ensures 1 <= |b| <= 4
    ensures IsAscii(c) <==> |b| == 1
    ensures IsAscii(c) ==> b[0] as int == c as int
    ensures !IsAscii(c) ==> b[0] >= 0xC0 && forall i :: 1 <= i < |b| ==> IsContinuation(b[i])
  {
    var cp := c as int;
    if cp < 0x80 then [cp as byte]
    else if cp < 0x800 then
      [(0xC0 + cp / 64) as byte, (0x80 + cp % 64) as byte]
    else if cp < 0x10000 then
      [(0xE0 + cp / 4096) as byte, (0x80 + (cp / 64) % 64) as byte, (0x80 + cp % 64) as byte]
    else
      [(0xF0 + cp / 262144) as byte, (0x80 + (cp / 4096) % 64) as byte,
       (0x80 + (cp / 64) % 64) as byte, (0x80 + cp % 64) as byte]
  }

  /** `s.encode()`. */
  function Encode(s: string): (b: seq<byte>)
    ensures |b| >= |s|
  {
    if s == [] then [] else EncodeChar(s[0]) + Encode(s[1..])
  }

  /** The scalar value at the front of `b` and the number of bytes it takes,
      or None when `b` does not start with a well-formed sequence. */
  function DecodeFirst(b: seq<byte>): (r: Option<(char, nat)>)
    requires |b| > 0
    ensures r.Some? ==> 1 <= r.value.1 <= |b| && r.value.1 <= 4
  {
    var b0 := b[0] as int;
    if b0 < 0x80 then Some((b0 as char, 1))
    else if 0xC2 <= b0 < 0xE0 then
      if 2 <= |b| && IsContinuation(b[1]) then
        Some((((b0 - 0xC0) * 64 + (b[1] as int - 0x80)) as char, 2))
      else None
    else if 0xE0 <= b0 < 0xF0 then
      if 3 <= |b| && IsContinuation(b[1]) && IsContinuation(b[2])
         && (b0 == 0xE0 ==> b[1] >= 0xA0) && (b0 == 0xED ==> b[1] < 0xA0) then
        Some((((b0 - 0xE0) * 4096 + (b[1] as int - 0x80) * 64 + (b[2] as int - 0x80)) as char, 3))
      else None
    else if 0xF0 <= b0 < 0xF5 then
      if 4 <= |b| && IsContinuation(b[1]) && IsContinuation(b[2]) && IsContinuation(b[3])
         && (b0 == 0xF0 ==> b[1] >= 0x90) && (b0 == 0xF4 ==> b[1] < 0x90) then
        Some((((b0 - 0xF0) * 262144 + (b[1] as int - 0x80) * 4096
               + (b[2] as int - 0x80) * 64 + (b[3] as int - 0x80)) as char, 4))
      else None
    else None
  }

  /** `b.decode()`: the decoded text, or UnicodeDecodeError. */
  function Decode(b: seq<byte>): (r: Outcome<string>)
    ensures r.Normal? ==> |r.value| <= |b|
    ensures r.Raised? ==> r == Raised(UnicodeDecodeError)
    decreases |b|
  {
    if b == [] then Normal("")
    else match DecodeFirst(b)
      case None => Raised(UnicodeDecodeError)
      case Some((c, n)) =>
        match Decode(b[n..])
        case Raised(e) => Raised(e)
        case Normal(rest) => Normal([c] + rest)
  }

  lemma DecodeFirstOfEncodeChar(c: char, rest: seq<byte>)
    ensures DecodeFirst(EncodeChar(c) + rest) == Some((c, |EncodeChar(c)|))
  {
    var cp := c as int;
    if cp < 0x80 {
    } else if cp < 0x800 {
      DecodeTwo(c, rest);
    } else if cp < 0x10000 {
      DecodeThree(c, rest);
    } else {
      DecodeFour(c, rest);
    }
  }

  lemma DecodeTwo(c: char, rest: seq<byte>)
    requires 0x80 <= c as int < 0x800
    ensures DecodeFirst(EncodeChar(c) + rest) == Some((c, 2))
  {
    var cp := c as int;
    var hi, lo := cp / 64, cp % 64;
    assert cp == hi * 64 + lo;
    var b := EncodeChar(c) + rest;
    assert b[0] as int == 0xC0 + hi && b[1] as int == 0x80 + lo;
    assert (b[0] as int - 0xC0) * 64 + (b[1] as int - 0x80) == cp;
  }

  lemma DecodeThree(c: char, rest: seq<byte>)
    requires 0x800 <= c as int < 0x10000
    ensures DecodeFirst(EncodeChar(c) + rest) == Some((c, 3))
  {
    var cp := c as int;
    var x2, x1, x0 := cp / 4096, (cp / 64) % 64, cp % 64;
    assert cp / 64 == x2 * 64 + x1;
    assert cp == x2 * 4096 + x1 * 64 + x0;
    var b := EncodeChar(c) + rest;
    assert b[0] as int == 0xE0 + x2 && b[1] as int == 0x80 + x1 && b[2] as int == 0x80 + x0;
    assert (b[0] as int - 0xE0) * 4096 + (b[1] as int - 0x80) * 64 + (b[2] as int - 0x80) == cp;
  }

  lemma DecodeFour(c: char, rest: seq<byte>)
    requires 0x10000 <= c as int
    ensures DecodeFirst(EncodeChar(c) + rest) == Some((c, 4))
  {
    var cp := c as int;
    var x3, x2, x1, x0 := cp / 262144, (cp / 4096) % 64, (cp / 64) % 64, cp % 64;
    assert cp / 4096 == x3 * 64 + x2;
    assert cp / 64 == (cp / 4096) * 64 + x1;
    assert cp == x3 * 262144 + x2 * 4096 + x1 * 64 + x0;
    var b := EncodeChar(c) + rest;
    assert b[0] as int == 0xF0 + x3 && b[1] as int == 0x80 + x2;
    assert b[2] as int == 0x80 + x1 && b[3] as int == 0x80 + x0;
    assert (b[0] as int - 0xF0) * 262144 + (b[1] as int - 0x80) * 4096
           + (b[2] as int - 0x80) * 64 + (b[3] as int - 0x80) == cp;
  }

  lemma {:induction false} EncodeAppend(s: string, t: string)
    ensures Encode(s + t) == Encode(s) + Encode(t)
  {
    if s == [] {
      assert s + t == t;
    } else {
      assert (s + t)[1..] == s[1..] + t;
      EncodeAppend(s[1..], t);
    }
  }

  /** Decoding undoes encoding: `s.encode().decode() == s`. */
  lemma {:induction false} DecodeEncode(s: string)
    ensures Decode(Encode(s)) == Normal(s)
  {
    if s != [] {
      var e := EncodeChar(s[0]);
      var b := Encode(s);
      assert b == e + Encode(s[1..]);
      DecodeFirstOfEncodeChar(s[0], Encode(s[1..]));
      assert b[|e|..] == Encode(s[1..]);
      DecodeEncode(s[1..]);
      assert Decode(b) == Normal([s[0]] + s[1..]);
      assert [s[0]] + s[1..] == s;
    }
  }

  /** An ASCII string encodes byte for byte. */
  lemma {:induction false} EncodeAscii(s: string)
    requires forall i :: 0 <= i < |s| ==> IsAscii(s[i])
    ensures |Encode(s)| == |s|
    ensures forall i :: 0 <= i < |s| ==> Encode(s)[i] as int == s[i] as int
  {
    if s != [] {
      EncodeAscii(s[1..]);
    }
  }
}
