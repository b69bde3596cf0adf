/** The few Python built-ins the modelled client code relies on, with the
    semantics CPython gives them: `str.strip`, `str(int)`, `int(digits)`,
    list slicing and indexing with negative positions, floor division `//`,
    and `str.join`. Exceptions a built-in raises become `Outcome.Raised`. */
module Builtins {

  datatype Option<+T> = None | Some(value: T)

  /** The Python exceptions the modelled code can raise. */
  datatype Error =
    | TypeError          // e.g. `len(None)`
    | ValueError         // e.g. `raise ValueError("Bad action")`
    | IndexError         // list index out of range
    | ZeroDivisionError  // `//` or `%` by zero
    | UnicodeDecodeError // `bytes.decode('utf-8')` on malformed input
    | CameraError        // an OpenCV call on a missing frame

  /** What a Python call does: return a value, or raise. */
  datatype Outcome<+T> = Normal(value: T) | Raised(error: Error)

  // ---------------------------------------------------------------------
  // Whitespace and str.strip()

  /** `str.isspace()` for one character: the characters CPython treats as
      whitespace (bidirectional class WS, B or S, or category Zs). */
  predicate IsSpace(c: char) {
    ('\U{9}' <= c <= '\U{D}') || ('\U{1C}' <= c <= ' ') ||
    c == '\U{85}' || c == '\U{A0}' || c == '\U{1680}' ||
    ('\U{2000}' <= c <= '\U{200A}') || c == '\U{2028}' || c == '\U{2029}' ||
    c == '\U{202F}' || c == '\U{205F}' || c == '\U{3000}'
  }

  predicate AllSpace(s: string) {
    forall i :: 0 <= i < |s| ==> IsSpace(s[i])
  }

  /** No whitespace at either end. */
  predicate Trimmed(s: string) {
    s == [] || (!IsSpace(s[0]) && !IsSpace(s[|s| - 1]))
  }

  function StripLeft(s: string): (r: string)
    ensures |r| <= |s| && r == s[|s| - |r|..]
    ensures AllSpace(s[..|s| - |r|])
    ensures r != [] ==> !IsSpace(r[0])
  {
    if |s| > 0 && IsSpace(s[0]) then
      var t := StripLeft(s[1..]);
      assert s[1..][..|s| - 1 - |t|] == s[1..|s| - |t|];
      t
    else s
  }

  function StripRight(s: string): (r: string)
    ensures |r| <= |s| && r == s[..|r|]
    ensures AllSpace(s[|r|..])
    ensures r != [] ==> !IsSpace(r[|r| - 1])
  {
    if |s| > 0 && IsSpace(s[|s| - 1]) then
      var t := StripRight(s[..|s| - 1]);
      assert s[|t|..] == s[..|s| - 1][|t|..] + [s[|s| - 1]];
      t
    else s
  }

  /** `str.strip()` with no argument: drop leading and trailing whitespace. */
  function Strip(s: string): (r: string)
    ensures Trimmed(r)
    ensures |r| <= |s|
  {
    var l := StripLeft(s);
    var r := StripRight(l);
    assert r != [] ==> r[0] == l[0];
    r
  }

  lemma {:induction false} StripLeftTrimmed(s: string)
    requires s == [] || !IsSpace(s[0])
    ensures StripLeft(s) == s
  {
  }

  lemma {:induction false} StripRightOfPadding(s: string, w: string)
    requires AllSpace(w)
    ensures StripRight(s + w) == StripRight(s)
    decreases |w|
  {
    if w != [] {
      var sw := s + w;
      assert sw[..|sw| - 1] == s + w[..|w| - 1];
      StripRightOfPadding(s, w[..|w| - 1]);
    } else {
      assert s + w == s;
    }
  }

  lemma {:induction false} StripLeftOfPadded(s: string, w: string)
    requires AllSpace(w)
    requires s == [] || !IsSpace(s[0]) || AllSpace(s)
    ensures StripLeft(s + w) == (if AllSpace(s) then [] else StripLeft(s) + w)
    decreases |s|
  {
    if s == [] {
      StripLeftAllSpace(w);
      assert s + w == w;
    } else if IsSpace(s[0]) {
      assert (s + w)[1..] == s[1..] + w;
      assert AllSpace(s[1..]);
      StripLeftOfPadded(s[1..], w);
    } else {
      assert !AllSpace(s);
    }
  }

  lemma {:induction false} StripLeftAllSpace(w: string)
    requires AllSpace(w)
    ensures StripLeft(w) == []
    decreases |w|
  {
    if w != [] {
      StripLeftAllSpace(w[1..]);
    }
  }

  /** Appending whitespace (such as a line terminator) never changes what
      `strip()` returns. */
  lemma StripOfPadding(s: string, w: string)
    requires AllSpace(w)
    ensures Strip(s + w) == Strip(s)
  {
    if AllSpace(s) {
      assert AllSpace(s + w);
      StripLeftAllSpace(s + w);
      StripLeftAllSpace(s);
    } else {
      StripLeftOfPaddingNonBlank(s, w);
      StripRightOfPadding(StripLeft(s), w);
    }
  }

  lemma StripLeftOfPaddingNonBlank(s: string, w: string)
    requires AllSpace(w) && !AllSpace(s)
    ensures StripLeft(s + w) == StripLeft(s) + w
  {
    var l := StripLeft(s);
    var k := |s| - |l|;
    assert l != [];
    assert s == s[..k] + l;
    assert s + w == s[..k] + (l + w);
    assert (l + w)[0] == l[0];
    StripLeftSkip(s[..k], l + w);
    StripLeftSkip(s[..k], l);
  }

  lemma {:induction false} StripLeftSkip(p: string, t: string)
    requires AllSpace(p)
    requires t == [] || !IsSpace(t[0])
    ensures StripLeft(p + t) == t
    decreases |p|
  {
    if p == [] {
      assert p + t == t;
    } else {
      assert (p + t)[1..] == p[1..] + t;
      StripLeftSkip(p[1..], t);
    }
  }

  /** A string without whitespace at its ends is its own `strip()`. */
  lemma StripTrimmed(s: string)
    requires Trimmed(s)
    ensures Strip(s) == s
  {
    StripLeftTrimmed(s);
  }

  // ---------------------------------------------------------------------
  // Decimal digits: str(int) and int(str)

  predicate IsDigit(c: char) { '0' <= c <= '9' }

  predicate AllDigits(s: string) {
    forall i :: 0 <= i < |s| ==> IsDigit(s[i])
  }

  function DigitChar(d: nat): (c: char)
    requires d < 10
    ensures IsDigit(c) && c as int - '0' as int == d
  {
    ('0' as int + d) as char
  }

  /** The decimal numeral of a non-negative number, without leading zeros. */
  function NatToString(n: nat): (s: string)
    ensures |s| > 0 && AllDigits(s)
    ensures s[0] == '0' ==> n == 0 && s == "0"
  {
    if n < 10 then [DigitChar(n)]
    else NatToString(n / 10) + [DigitChar(n % 10)]
  }

  /** `int(s)` for a string of ASCII digits; `int("")` raises in Python, so
      callers only use it on non-empty strings, where it is this value. */
  function DigitsValue(s: string): (v: nat)
    requires AllDigits(s)
  {
    if s == [] then 0
    else DigitsValue(s[..|s| - 1]) * 10 + (s[|s| - 1] as int - '0' as int)
  }

  lemma {:induction false} DigitsValueBound(s: string)
    requires AllDigits(s)
    ensures DigitsValue(s) < Pow10(|s|)
  {
    if s != [] {
      DigitsValueBound(s[..|s| - 1]);
    }
  }

  function Pow10(k: nat): (p: nat)
    ensures p >= 1
  {
    if k == 0 then 1 else 10 * Pow10(k - 1)
  }

  /** `int(str(n)) == n`. */
  lemma {:induction false} NatToStringValue(n: nat)
    ensures DigitsValue(NatToString(n)) == n
  {
    if n >= 10 {
      var s := NatToString(n);
      assert s[..|s| - 1] == NatToString(n / 10);
      NatToStringValue(n / 10);
    }
  }

  /** `str(n)` for a Python int: a minus sign for negative numbers. */
  function IntToString(n: int): (s: string)
    ensures |s| > 0 && (s[0] == '-' <==> n < 0)
  {
    if n < 0 then "-" + NatToString(-n) else NatToString(n)
  }

  // ---------------------------------------------------------------------
  // Lists

  /** A Python slice bound: negative bounds count from the end, and every
      bound is clamped into [0, n]. */
  function SliceBound(i: int, n: nat): (r: nat)
    ensures r <= n
    ensures 0 <= i <= n ==> r == i
  {
    if i < 0 then (if i + n < 0 then 0 else i + n)
    else if i > n then n
    else i
  }

  /** `s[start:stop]`, which never raises. */
  function Slice<T>(s: seq<T>, start: int, stop: int): (r: seq<T>)
    ensures |r| <= |s|
    ensures 0 <= start <= stop <= |s| ==> r == s[start..stop]
    ensures 0 <= stop <= start ==> r == []
  {
    var a := SliceBound(start, |s|);
    var b := SliceBound(stop, |s|);
    if a < b then s[a..b] else []
  }

  /** `s[i]`: negative positions count from the end; out of range raises. */
  function Index<T>(s: seq<T>, i: int): (r: Outcome<T>)
    ensures 0 <= i < |s| ==> r == Normal(s[i])
    ensures -|s| <= i < 0 ==> r == Normal(s[|s| + i])
    ensures r.Raised? <==> (i < -|s| || |s| <= i)
  {
    if 0 <= i < |s| then Normal(s[i])
    else if -|s| <= i < 0 then Normal(s[|s| + i])
    else Raised(IndexError)
  }

  /** `[x for group in groups for x in group]`. */
  function Flatten<T>(groups: seq<seq<T>>): (r: seq<T>)
  {
    if groups == [] then [] else groups[0] + Flatten(groups[1..])
  }

  lemma {:induction false} FlattenAppend<T>(a: seq<seq<T>>, b: seq<seq<T>>)
    ensures Flatten(a + b) == Flatten(a) + Flatten(b)
  {
    if a == [] {
      assert a + b == b;
    } else {
      assert (a + b)[1..] == a[1..] + b;
      FlattenAppend(a[1..], b);
    }
  }

  lemma FlattenSnoc<T>(a: seq<seq<T>>, x: seq<T>)
    ensures Flatten(a + [x]) == Flatten(a) + x
  {
    FlattenAppend(a, [x]);
    FlattenSingle(x);
  }

  /** Adding an element to the last group adds it to the end of the
      flattening. */
  lemma FlattenJoinLast<T>(g: seq<seq<T>>, y: T)
    requires g != []
    ensures Flatten(g[..|g| - 1] + [g[|g| - 1] + [y]]) == Flatten(g) + [y]
  {
    var init, last := g[..|g| - 1], g[|g| - 1];
    SplitLast(g);
    FlattenSnoc(init, last);
    FlattenSnoc(init, last + [y]);
    AppendAssoc(Flatten(init), last, [y]);
  }

  lemma SplitLast<T>(s: seq<T>)
    requires s != []
    ensures s == s[..|s| - 1] + [s[|s| - 1]]
  {
  }

  lemma DropAppended<T>(a: seq<T>, x: T)
    ensures (a + [x])[..|a|] == a
  {
  }

  lemma AppendAssoc<T>(a: seq<T>, b: seq<T>, c: seq<T>)
    ensures a + (b + c) == (a + b) + c
  {
  }

  lemma FlattenSingle<T>(x: seq<T>)
    ensures Flatten([x]) == x
  {
    assert [x][1..] == [];
  }

  lemma {:induction false} FlattenMember<T>(groups: seq<seq<T>>, k: nat, x: T)
    requires k < |groups| && x in groups[k]
    ensures x in Flatten(groups)
  {
    if k > 0 {
      FlattenMember(groups[1..], k - 1, x);
    }
  }

  /** `sep.join(parts)`. */
  function Join(sep: string, parts: seq<string>): (r: string)
    ensures parts == [] ==> r == ""
    ensures |parts| == 1 ==> r == parts[0]
  {
    if parts == [] then ""
    else if |parts| == 1 then parts[0]
    else parts[0] + sep + Join(sep, parts[1..])
  }

  // ---------------------------------------------------------------------
  // Integers

  /** Python's `a // b`: the quotient rounded towards negative infinity
      (Dafny's `/` rounds so that the remainder is non-negative, which
      agrees only for a positive divisor). */
  function FloorDiv(a: int, b: int): (q: int)
    requires b != 0
    ensures b > 0 ==> b * q <= a < b * q + b
    ensures b < 0 ==> b * q + b < a <= b * q
  {
    if b > 0 then a / b else (-a) / (-b)
  }

  function Abs(a: int): (r: nat)
    ensures r == a || r == -a
  {
    if a < 0 then -a else a
  }
}
