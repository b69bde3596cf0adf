/** `RobotCommandProtocol` (`models/robot_socket_v2.py`): the text protocol
    spoken to the robot controller. A command is its name followed by its
    comma-separated arguments, sent as UTF-8 with a CRLF terminator; a
    response is a UTF-8 line with surrounding whitespace removed, and three
    responses have a meaning of their own. */
module RobotProtocol {
  import opened Builtins
  import opened Utf8

  const AckResponse: string := "ack"
  const TaskDoneResponse: string := "taskdone"
  const TaskFailedResponse: string := "taskfailed"
  const LineEnding: string := "\r\n"

  /** A command argument as Python sees it. A float is given by `cents`,
      its value rounded to two decimals and multiplied by 100. */
  datatype Arg =
    | FloatArg(cents: int)
    | IntArg(i: int)
    | BoolArg(b: bool)
    | StrArg(s: string)

  /** Two decimal digits of `n % 100`. */
  function TwoDigits(n: nat): (r: string)
    ensures |r| == 2 && AllDigits(r) && DigitsValue(r) == n % 100
  {
    var m := n % 100;
    var r := [DigitChar(m / 10), DigitChar(m % 10)];
    assert r[..1] == [r[0]] && r[..1][..0] == [];
    assert DigitsValue(r[..1]) == m / 10;
    assert DigitsValue(r) == (m / 10) * 10 + m % 10;
    r
  }

  /** `f"{x:.2f}"` for a float `x` with `cents` hundredths. */
  function FloatString(cents: int): (r: string)
    ensures |r| >= 4 && r[|r| - 3] == '.' && AllDigits(r[|r| - 2..])
    ensures r[0] == '-' <==> cents < 0
  {
    var a := Abs(cents);
    (if cents < 0 then "-" else "") + NatToString(a / 100) + "." + TwoDigits(a)
  }

  /** An argument as `format_command` renders it: floats with two
      decimals, everything else through `str`. */
  function Render(a: Arg): string {
    match a
    case FloatArg(c) => FloatString(c)
    case IntArg(i) => IntToString(i)
    case BoolArg(b) => if b then "True" else "False"
    case StrArg(s) => s
  }

  function Renders(args: seq<Arg>): (r: seq<string>)
    ensures |r| == |args| && forall i :: 0 <= i < |args| ==> r[i] == Render(args[i])
  {
    seq(|args|, i requires 0 <= i < |args| => Render(args[i]))
  }

  /** `format_command(command, *args)`. */
  function FormatCommand(command: string, args: seq<Arg>): (r: string)
    ensures args == [] ==> r == command
    ensures args != [] ==> |r| > |command| && r[..|command| + 1] == command + ","
  {
    if args == [] then command
    else command + "," + Join(",", Renders(args))
  }

  /** `encode_command(command)`: the command's bytes, then CR LF. */
  function EncodeCommand(command: string): (r: seq<byte>)
    ensures r == Encode(command) + [CR, LF]
  {
    var r := Encode(command + LineEnding);
    EncodeAppend(command, LineEnding);
    assert Encode(LineEnding) == [CR, LF] by {
      assert LineEnding[1..][1..] == [];
    }
    r
  }

  /** `decode_response(data)`: strict UTF-8, then `strip()`. */
  function DecodeResponse(data: seq<byte>): (r: Outcome<string>)
    ensures r.Normal? ==> Trimmed(r.value)
    ensures r.Raised? <==> Decode(data).Raised?
  {
    match Decode(data)
    case Raised(e) => Raised(e)
    case Normal(text) => Normal(Strip(text))
  }

  predicate IsAck(response: string)
    ensures IsAck(response) ==> Trimmed(response) && response != TaskDoneResponse && response != TaskFailedResponse
  {
    response == AckResponse
  }

  predicate IsTaskDone(response: string)
    ensures IsTaskDone(response) ==> Trimmed(response) && response != AckResponse && response != TaskFailedResponse
  {
    response == TaskDoneResponse
  }

  predicate IsTaskFailed(response: string)
    ensures IsTaskFailed(response) ==> Trimmed(response) && response != AckResponse && response != TaskDoneResponse
  {
    response == TaskFailedResponse
  }

  // ---------------------------------------------------------------------
  // Fields: what `str.split(",")` recovers from a formatted command

  function Split(s: string, sep: char): (r: seq<string>)
    ensures |r| >= 1
  {
    if s == [] then [""]
    else
      var rest := Split(s[1..], sep);
      if s[0] == sep then [""] + rest else [[s[0]] + rest[0]] + rest[1..]
  }

  lemma {:induction false} SplitNoSep(p: string, t: string, sep: char)
    requires sep !in p
    ensures Split(p + t, sep) == [p + Split(t, sep)[0]] + Split(t, sep)[1..]
    decreases |p|
  {
    if p == [] {
      assert p + t == t;
      assert p + Split(t, sep)[0] == Split(t, sep)[0];
      assert [Split(t, sep)[0]] + Split(t, sep)[1..] == Split(t, sep);
    } else {
      assert (p + t)[1..] == p[1..] + t;
      SplitNoSep(p[1..], t, sep);
      assert [p[0]] + (p[1..] + Split(t, sep)[0]) == p + Split(t, sep)[0];
    }
  }

  /** Splitting a join recovers the parts when no part holds the separator. */
  lemma {:induction false} SplitJoin(parts: seq<string>, sep: char)
    requires |parts| >= 1
    requires forall i :: 0 <= i < |parts| ==> sep !in parts[i]
    ensures Split(Join([sep], parts), sep) == parts
  {
    if |parts| == 1 {
      SplitNoSep(parts[0], "", sep);
      assert parts[0] + "" == parts[0];
    } else {
      var rest := Join([sep], parts[1..]);
      assert Join([sep], parts) == parts[0] + ([sep] + rest);
      SplitJoin(parts[1..], sep);
      SplitNoSep(parts[0], [sep] + rest, sep);
      assert ([sep] + rest)[1..] == rest;
      assert Split([sep] + rest, sep) == [""] + parts[1..];
      assert parts[0] + "" == parts[0];
      assert [parts[0]] + parts[1..] == parts;
    }
  }

  lemma JoinCons(sep: string, a: string, rest: seq<string>)
    requires rest != []
    ensures Join(sep, [a] + rest) == a + sep + Join(sep, rest)
  {
    assert ([a] + rest)[1..] == rest;
  }

  /** A formatted command splits into the command and one field per
      argument, each the argument's rendering, whenever none of them holds
      a comma. */
  lemma FormatCommandFields(command: string, args: seq<Arg>)
    requires ',' !in command
    requires forall i :: 0 <= i < |args| ==> ',' !in Render(args[i])
    ensures Split(FormatCommand(command, args), ',') == [command] + Renders(args)
    ensures |Split(FormatCommand(command, args), ',')| == 1 + |args|
  {
    var parts := [command] + Renders(args);
    if args == [] {
      SplitJoin([command], ',');
    } else {
      JoinCons(",", command, Renders(args));
      forall i | 0 <= i < |parts| ensures ',' !in parts[i] {
        if i > 0 {
          assert parts[i] == Render(args[i - 1]);
        }
      }
      SplitJoin(parts, ',');
    }
  }

  lemma NoCommaInDigits(s: string)
    requires AllDigits(s)
    ensures ',' !in s
  {
    assert forall i :: 0 <= i < |s| ==> s[i] != ',';
  }

  /** Only a string argument can bring a comma into a command. */
  lemma RenderHasNoComma(a: Arg)
    requires !a.StrArg?
    ensures ',' !in Render(a)
  {
    match a
    case FloatArg(c) =>
      var x := Abs(c);
      NoCommaInDigits(NatToString(x / 100));
      NoCommaInDigits(TwoDigits(x));
      assert FloatString(c) == (if c < 0 then "-" else "") + NatToString(x / 100) + ("." + TwoDigits(x));
    case IntArg(i) =>
      if i < 0 {
        NoCommaInDigits(NatToString(-i));
      } else {
        NoCommaInDigits(NatToString(i));
      }
    case BoolArg(b) =>
  }

  /** The rendering of a float reads back as its value: an optional sign,
      the whole part, a point and exactly two decimals. */
  lemma FloatStringValue(cents: int)
    ensures var s := FloatString(cents);
      var sign := if cents < 0 then "-" else "";
      exists w, f ::
        s == sign + w + "." + f && AllDigits(w) && AllDigits(f) && |f| == 2 &&
        DigitsValue(w) * 100 + DigitsValue(f) == Abs(cents)
  {
    var a := Abs(cents);
    var w := NatToString(a / 100);
    NatToStringValue(a / 100);
    var f := TwoDigits(a);
    assert FloatString(cents) == (if cents < 0 then "-" else "") + w + "." + f;
  }

  // ---------------------------------------------------------------------
  // Responses

  /** A response survives the line terminator and any whitespace padding:
      `decode_response` of the padded line is the response itself. */
  lemma {:induction false} DecodePadded(pre: string, c: string, post: string)
    requires AllSpace(pre) && AllSpace(post) && Trimmed(c)
    ensures DecodeResponse(Encode(pre + c + post)) == Normal(c)
  {
    DecodeEncode(pre + c + post);
    StripOfPadding(pre + c, post);
    StripLeftSkip(pre, c);
    StripTrimmed(c);
  }

  /** `decode_response(encode_command(c)) == c` for any command without
      whitespace at its ends. */
  lemma EncodeDecode(c: string)
    requires Trimmed(c)
    ensures DecodeResponse(EncodeCommand(c)) == Normal(c)
  {
    EncodeAppend(c, LineEnding);
    assert "" + c + LineEnding == c + LineEnding;
    DecodePadded("", c, LineEnding);
  }

  /** The three recognised responses are distinct, so a response is at
      most one of them. */
  lemma StatusExclusive(response: string)
    ensures !(IsAck(response) && IsTaskDone(response))
    ensures !(IsAck(response) && IsTaskFailed(response))
    ensures !(IsTaskDone(response) && IsTaskFailed(response))
  {
  }

  /** Each recognised response is recognised through its line ending. */
  lemma StatusLines()
    ensures DecodeResponse(EncodeCommand(AckResponse)) == Normal(AckResponse)
    ensures DecodeResponse(EncodeCommand(TaskDoneResponse)) == Normal(TaskDoneResponse)
    ensures DecodeResponse(EncodeCommand(TaskFailedResponse)) == Normal(TaskFailedResponse)
  {
    assert Trimmed(AckResponse) && Trimmed(TaskDoneResponse) && Trimmed(TaskFailedResponse);
    EncodeDecode(AckResponse);
    EncodeDecode(TaskDoneResponse);
    EncodeDecode(TaskFailedResponse);
  }
}
