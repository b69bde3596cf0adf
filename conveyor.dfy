/** `PLCClient` (`scripts/conveyor_control.py`): one-shot ASCII exchanges
    with the conveyor PLC. The socket exchange is a parameter: given the
    bytes sent it answers with the reply text, or fails with the text of
    the exception it raised. */
module Conveyor {
  import opened Builtins

  datatype Exchange = Reply(text: string) | Failed(message: string)

  /** A PLC connection as `send_cmd` uses it: the exchange for a frame of
      ASCII bytes, and the text of the error `str.encode("ascii")` raises
      for a frame that is not ASCII. */
  datatype Link = Link(exchange: seq<int> -> Exchange, encodeError: string -> string)

  const ErrPrefix: string := "ERR: "

  predicate AllAscii(s: string) {
    forall i :: 0 <= i < |s| ==> s[i] as int < 128
  }

  /** `(cmd + "\r").encode("ascii")`, or None where that raises. */
  function Frame(cmd: string): (r: Option<seq<int>>)
    ensures r.None? <==> !AllAscii(cmd)
    ensures r.Some? ==>
      |r.value| == |cmd| + 1 && r.value[|cmd|] == 13 &&
      forall i :: 0 <= i < |cmd| ==> r.value[i] == cmd[i] as int
  {
    var frame := cmd + "\r";
    assert forall i :: 0 <= i < |cmd| ==> frame[i] == cmd[i];
    assert AllAscii(frame) <==> AllAscii(cmd) by {
      if AllAscii(cmd) {
        assert frame[|cmd|] == '\r';
      }
    }
    if AllAscii(frame) then Some(seq(|frame|, i requires 0 <= i < |frame| => frame[i] as int))
    else None
  }

  /** `send_cmd(cmd)`: the stripped reply, or `"ERR: "` and the message of
      whatever was raised. */
  function SendCmd(link: Link, cmd: string): (r: string)
    ensures Frame(cmd).None? ==> r == ErrPrefix + link.encodeError(cmd + "\r")
    ensures Frame(cmd).Some? && link.exchange(Frame(cmd).value).Failed? ==>
      r == ErrPrefix + link.exchange(Frame(cmd).value).message
    ensures Frame(cmd).Some? && link.exchange(Frame(cmd).value).Reply? ==>
      r == Strip(link.exchange(Frame(cmd).value).text) &&
      Trimmed(r) && |r| <= |link.exchange(Frame(cmd).value).text|
  {
    match Frame(cmd)
    case None => ErrPrefix + link.encodeError(cmd + "\r")
    case Some(bytes) =>
      match link.exchange(bytes)
      case Failed(m) => ErrPrefix + m
      case Reply(text) => Strip(text)
  }

  /** `"0" * n`. */
  function Zeros(n: nat): (r: string)
    ensures |r| == n && AllDigits(r) && DigitsValue(r) == 0
  {
    if n == 0 then "" else Zeros(n - 1) + "0"
  }

  lemma {:induction false} ZerosPrefix(z: nat, d: string)
    requires AllDigits(d)
    ensures AllDigits(Zeros(z) + d) && DigitsValue(Zeros(z) + d) == DigitsValue(d)
    decreases |d|
  {
    if d == [] {
      assert Zeros(z) + d == Zeros(z);
    } else {
      var s := Zeros(z) + d;
      assert s[..|s| - 1] == Zeros(z) + d[..|d| - 1];
      ZerosPrefix(z, d[..|d| - 1]);
    }
  }

  lemma AsciiConcat(a: string, b: string)
    ensures AllAscii(a + b) <==> AllAscii(a) && AllAscii(b)
  {
    assert forall i :: 0 <= i < |a| ==> (a + b)[i] == a[i];
    assert forall i :: 0 <= i < |b| ==> (a + b)[|a| + i] == b[i];
  }

  /** `s` padded on the left with zeros to width `w`. */
  function PadZeros(s: string, w: nat): (r: string)
    ensures |r| == if |s| < w then w else |s|
    ensures AllDigits(s) ==> AllDigits(r)
  {
    if |s| < w then
      var z := Zeros(w - |s|);
      assert forall i :: |z| <= i < |z| + |s| ==> (z + s)[i] == s[i - |z|];
      z + s
    else s
  }

  /** `f"{value:04d}"`: width four including a minus sign, zeros between
      the sign and the digits, never truncated. */
  function Format04(value: int): (r: string)
    ensures |r| >= 4
    ensures value < 0 ==> r[0] == '-' && AllDigits(r[1..])
    ensures value >= 0 ==> AllDigits(r)
  {
    if value < 0 then
      var p := PadZeros(NatToString(-value), 3);
      assert ("-" + p)[1..] == p;
      "-" + p
    else PadZeros(NatToString(value), 4)
  }

  function WriteRegCommand(reg: string, value: int): string {
    "WR " + reg + " " + Format04(value)
  }

  function ReadRegCommand(reg: string): string {
    "RD " + reg
  }

  /** The write command is ASCII whenever the register name is. */
  lemma WriteRegAscii(reg: string, value: int)
    ensures AllAscii(reg) ==> AllAscii(WriteRegCommand(reg, value))
  {
    var f := Format04(value);
    if value < 0 {
      AsciiConcat("-", f[1..]);
      assert f == "-" + f[1..];
    }
    AsciiConcat("WR " + reg, " ");
    AsciiConcat("WR " + reg + " ", f);
    AsciiConcat("WR ", reg);
  }

  /** `write_reg(reg, value)`: the PLC's answer to the write command. */
  function WriteReg(link: Link, reg: string, value: int): (r: string)
    ensures r == SendCmd(link, WriteRegCommand(reg, value))
    ensures AllAscii(reg) ==> Frame(WriteRegCommand(reg, value)).Some?
  {
    WriteRegAscii(reg, value);
    SendCmd(link, "WR " + reg + " " + Format04(value))
  }

  /** `"".join(c for c in s if c.isdigit())`, over ASCII digits. */
  function DigitsOf(s: string): (r: string)
    ensures AllDigits(r) && |r| <= |s|
  {
    if s == [] then ""
    else DigitsOf(s[..|s| - 1]) + (if IsDigit(s[|s| - 1]) then [s[|s| - 1]] else "")
  }

  /** The filter is empty exactly when no character is a digit. */
  lemma {:induction false} DigitsOfEmpty(s: string)
    ensures DigitsOf(s) == [] <==> forall i :: 0 <= i < |s| ==> !IsDigit(s[i])
  {
    if s != [] {
      var p := s[..|s| - 1];
      DigitsOfEmpty(p);
      assert forall i :: 0 <= i < |p| ==> p[i] == s[i];
    }
  }

  /** The value `read_reg` reads from a reply: -1 without digits, else
      `int(digits[-4:])`. */
  function RegisterValue(resp: string): (r: int)
    ensures r == -1 <==> forall i :: 0 <= i < |resp| ==> !IsDigit(resp[i])
    ensures -1 <= r <= 9999
  {
    var digits := DigitsOf(resp);
    DigitsOfEmpty(resp);
    if digits != [] then
      var last := Slice(digits, -4, |digits|);
      assert last == digits[|digits| - (if |digits| < 4 then |digits| else 4)..];
      DigitsValueBound(last);
      Pow10Monotone(4, |last|);
      assert Pow10(4) == 10000;
      DigitsValue(last)
    else -1
  }

  /** `read_reg(reg)`. */
  function ReadReg(link: Link, reg: string): (r: int)
    ensures r == RegisterValue(SendCmd(link, ReadRegCommand(reg)))
    ensures -1 <= r <= 9999
  {
    RegisterValue(SendCmd(link, "RD " + reg))
  }

  // ---------------------------------------------------------------------
  // Properties

  /** The command is sent with a single CR after it. */
  lemma SendsOneCarriageReturn(cmd: string)
    requires AllAscii(cmd)
    ensures Frame(cmd).Some? && Frame(cmd).value[..|cmd|] == seq(|cmd|, i requires 0 <= i < |cmd| => cmd[i] as int)
    ensures Frame(cmd).value[|cmd|..] == [13]
  {
    assert AllAscii(cmd + "\r");
  }

  /** A register value in 0..9999 is written as exactly four digits that
      read back as the value. */
  lemma Format04Digits(value: int)
    requires 0 <= value <= 9999
    ensures |Format04(value)| == 4 && AllDigits(Format04(value))
    ensures DigitsValue(Format04(value)) == value
  {
    var d := NatToString(value);
    NatToStringValue(value);
    DigitsValueBound(d);
    assert |d| <= 4 by {
      if |d| > 4 {
        Pow10Monotone(|d| - 1, 4);
        NoLeadingZeroBound(d);
      }
    }
    ZerosPrefix(4 - |d|, d);
  }

  lemma {:induction false} Pow10Monotone(a: nat, b: nat)
    requires b <= a
    ensures Pow10(b) <= Pow10(a)
    decreases a
  {
    if b < a {
      Pow10Monotone(a - 1, b);
    }
  }

  /** A numeral with a non-zero first digit is at least `10^(|d| - 1)`. */
  lemma {:induction false} NoLeadingZeroBound(d: string)
    requires AllDigits(d) && |d| > 0 && d[0] != '0'
    ensures DigitsValue(d) >= Pow10(|d| - 1)
    decreases |d|
  {
    if |d| > 1 {
      var p := d[..|d| - 1];
      assert p[0] == d[0];
      NoLeadingZeroBound(p);
    }
  }

  /** Negative values keep their sign inside the width, and wider values
      are never cut. */
  lemma Format04Edges()
    ensures Format04(-1) == "-001"
  {
    assert NatToString(1) == "1";
    assert Zeros(2) == "00";
  }

  /** A value of five or more digits is written in full. */
  lemma Format04Wide(value: int)
    requires value >= 10000
    ensures Format04(value) == NatToString(value)
  {
    var d := NatToString(value);
    NatToStringValue(value);
    DigitsValueBound(d);
    if |d| < 4 {
      Pow10Monotone(3, |d|);
    }
  }

  lemma {:induction false} DigitsOfDigits(s: string)
    requires AllDigits(s)
    ensures DigitsOf(s) == s
  {
    if s != [] {
      DigitsOfDigits(s[..|s| - 1]);
    }
  }

  lemma {:induction false} DigitsOfAppend(s: string, t: string)
    ensures DigitsOf(s + t) == DigitsOf(s) + DigitsOf(t)
    decreases |t|
  {
    if t == [] {
      assert s + t == s;
    } else {
      var st := s + t;
      var tl := t[..|t| - 1];
      assert st[..|st| - 1] == s + tl && st[|st| - 1] == t[|t| - 1];
      DigitsOfAppend(s, tl);
      var tail := if IsDigit(t[|t| - 1]) then [t[|t| - 1]] else "";
      assert DigitsOf(st) == DigitsOf(s + tl) + tail;
      assert DigitsOf(t) == DigitsOf(tl) + tail;
    }
  }

  /** A reply of up to four digits, however padded, reads back as its
      value; with `Format04Digits` a written register value reads back. */
  lemma ReadBack(pre: string, d: string, post: string)
    requires AllSpace(pre) && AllSpace(post)
    requires AllDigits(d) && 0 < |d| <= 4
    ensures RegisterValue(pre + d + post) == DigitsValue(d)
  {
    DigitsOfAppend(pre + d, post);
    DigitsOfAppend(pre, d);
    DigitsOfDigits(d);
    NoDigitsInSpace(pre);
    NoDigitsInSpace(post);
    var all := pre + d + post;
    var pd := DigitsOf(pre + d);
    assert pd == DigitsOf(pre) + DigitsOf(d);
    assert pd == d by {
      assert [] + d == d;
    }
    assert DigitsOf(all) == pd + DigitsOf(post);
    assert pd + [] == d;
    assert Slice(d, -4, |d|) == d;
  }

  lemma NoDigitsInSpace(w: string)
    requires AllSpace(w)
    ensures DigitsOf(w) == []
  {
    assert forall i :: 0 <= i < |w| ==> IsSpace(w[i]) && !IsDigit(w[i]);
    DigitsOfEmpty(w);
  }

  /** Only the last four digits count: a longer numeral loses its leading
      digits. */
  lemma ReadRegKeepsLastFour(d: string)
    requires AllDigits(d) && |d| >= 4
    ensures RegisterValue(d) == DigitsValue(d[|d| - 4..])
  {
    DigitsOfDigits(d);
    assert Slice(d, -4, |d|) == d[|d| - 4..];
  }

  /** A failure reply is `"ERR: "` and the message; the prefix holds no
      digit, so `read_reg` reports -1 exactly when the message holds none,
      and otherwise reads digits of the message as a register value. */
  lemma ReadRegOfFailure(link: Link, reg: string)
    requires AllAscii(ReadRegCommand(reg))
    requires link.exchange(Frame(ReadRegCommand(reg)).value).Failed?
    ensures var m := link.exchange(Frame(ReadRegCommand(reg)).value).message;
      (ReadReg(link, reg) == -1 <==> forall i :: 0 <= i < |m| ==> !IsDigit(m[i])) &&
      DigitsOf(SendCmd(link, ReadRegCommand(reg))) == DigitsOf(m)
  {
    var m := link.exchange(Frame(ReadRegCommand(reg)).value).message;
    DigitsOfAppend(ErrPrefix, m);
    assert DigitsOf(ErrPrefix) == [] by {
      assert forall i :: 0 <= i < |ErrPrefix| ==> !IsDigit(ErrPrefix[i]);
      DigitsOfEmpty(ErrPrefix);
    }
    DigitsOfEmpty(m);
    DigitsOfEmpty(SendCmd(link, ReadRegCommand(reg)));
    assert [] + DigitsOf(m) == DigitsOf(m);
  }
}
