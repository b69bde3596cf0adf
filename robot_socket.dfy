/** `RobotSocketClient` (`robot.py`): the Qt socket client of the robot.
    Incoming bytes collect in a buffer, and each read hands on at most one
    CRLF-terminated response. The socket itself is reduced to its state
    (connected or not) and the bytes written to it. */
module RobotSocket {
  import opened Builtins
  import opened Utf8

  /** CR LF starts at position `i` of `b`. */
  predicate CrlfAt(b: seq<byte>, i: int) {
    0 <= i && i + 1 < |b| && b[i] == CR && b[i + 1] == LF
  }

  /** `b'\r\n' in b`. */
  predicate ContainsCrlf(b: seq<byte>) {
    exists i :: 0 <= i < |b| && CrlfAt(b, i)
  }

  /** The first CR LF at or after position `k`. */
  function FirstCrlfFrom(b: seq<byte>, k: nat): (r: Option<nat>)
    requires k <= |b|
    ensures r.None? <==> forall j :: k <= j < |b| ==> !CrlfAt(b, j)
    ensures r.Some? ==> k <= r.value && CrlfAt(b, r.value) && forall j :: k <= j < r.value ==> !CrlfAt(b, j)
    decreases |b| - k
  {
    if k + 1 >= |b| then None
    else if CrlfAt(b, k) then Some(k)
    else FirstCrlfFrom(b, k + 1)
  }

  /** Where `bytes.split(b'\r\n', 1)` cuts: the first CR LF. */
  function FirstCrlf(b: seq<byte>): (r: Option<nat>)
    ensures r.None? <==> !ContainsCrlf(b)
    ensures r.Some? ==> CrlfAt(b, r.value) && forall j :: 0 <= j < r.value ==> !CrlfAt(b, j)
  {
    FirstCrlfFrom(b, 0)
  }

  /** A CR LF with none before it is the first one. */
  lemma FirstCrlfAt(b: seq<byte>, v: nat)
    requires CrlfAt(b, v) && forall j :: 0 <= j < v ==> !CrlfAt(b, j)
    ensures FirstCrlf(b) == Some(v)
  {
    assert ContainsCrlf(b);
  }

  /** What one read leaves: the message it cut off, if any, and the new
      buffer. */
  datatype Framed = Framed(message: Option<seq<byte>>, rest: seq<byte>)

  /** The buffer after appending `data`, split at its first CR LF. */
  function Frame(buffer: seq<byte>, data: seq<byte>): Framed {
    var all := buffer + data;
    match FirstCrlf(all)
    case None => Framed(None, all)
    case Some(i) => Framed(Some(all[..i]), all[i + 2..])
  }

  /** Without a complete line nothing is cut off and everything waits. */
  lemma FrameIncomplete(buffer: seq<byte>, data: seq<byte>)
    requires !ContainsCrlf(buffer + data)
    ensures Frame(buffer, data) == Framed(None, buffer + data)
  {
  }

  /** With a complete line, the message, the terminator and the new buffer
      make up exactly the old buffer and the new data, and the message
      holds no CR LF. */
  lemma FrameComplete(buffer: seq<byte>, data: seq<byte>)
    requires ContainsCrlf(buffer + data)
    ensures var f := Frame(buffer, data);
      f.message.Some? && buffer + data == f.message.value + [CR, LF] + f.rest &&
      !ContainsCrlf(f.message.value)
  {
    var all := buffer + data;
    var i := FirstCrlf(all).value;
    assert all == all[..i] + [CR, LF] + all[i + 2..];
    forall j | CrlfAt(all[..i], j) ensures false {
      assert CrlfAt(all, j);
    }
  }

  /** Two lines arriving together come out one read at a time: the second
      stays in the buffer. */
  lemma OneLinePerRead()
    ensures Frame([], TwoLines()) == Framed(Some([0x61]), [0x62, CR, LF])
    ensures ContainsCrlf(Frame([], TwoLines()).rest)
  {
    var all := TwoLines();
    assert [] + all == all;
    TwoLinesCut();
    assert all[..1] == [0x61] && all[3..] == [0x62, CR, LF];
    OneLineLeft();
  }

  /** `b"a\r\nb\r\n"`. */
  function TwoLines(): seq<byte> {
    [0x61, CR, LF, 0x62, CR, LF]
  }

  lemma TwoLinesCut()
    ensures FirstCrlf(TwoLines()) == Some(1)
  {
    var all := TwoLines();
    assert !CrlfAt(all, 0) && CrlfAt(all, 1);
    FirstCrlfAt(all, 1);
  }

  lemma OneLineLeft()
    ensures ContainsCrlf([0x62, CR, LF])
  {
    var rest: seq<byte> := [0x62, CR, LF];
    assert CrlfAt(rest, 1);
  }

  /** A message written by `send_message` is cut off whole by one read
      when it holds no CR LF, and then decodes to the text sent
      (`Utf8.DecodeEncode`). */
  lemma SendThenRead(m: string)
    requires !ContainsCrlf(Encode(m))
    ensures Frame([], Encode(m) + [CR, LF]) == Framed(Some(Encode(m)), [])
  {
    FrameOfLine(Encode(m));
  }

  /** A line without CR LF, then CR LF, is cut off whole. */
  lemma FrameOfLine(e: seq<byte>)
    requires !ContainsCrlf(e)
    ensures Frame([], e + [CR, LF]) == Framed(Some(e), [])
  {
    var all := e + [CR, LF];
    assert [] + all == all;
    TerminatorIsFirst(e);
    assert all[..|e|] == e && all[|e| + 2..] == [];
  }

  lemma TerminatorIsFirst(e: seq<byte>)
    requires !ContainsCrlf(e)
    ensures FirstCrlf(e + [CR, LF]) == Some(|e|)
  {
    var all := e + [CR, LF];
    forall j | 0 <= j < |e| ensures !CrlfAt(all, j) {
      if j + 1 < |e| {
        assert CrlfAt(all, j) ==> CrlfAt(e, j);
      } else {
        assert all[j + 1] == CR;
      }
    }
    FirstCrlfAt(all, |e|);
  }

  class RobotSocketClient {
    /** Whether the socket is in the connected state; the socket sets it. */
    var connected: bool
    /** Bytes received and not yet handed on. */
    var buffer: seq<byte>
    /** Every byte written to the socket. */
    var written: seq<byte>
    /** The values `message_sent` and `response_received` emitted. */
    ghost var sentSignals: seq<string>
    ghost var responseSignals: seq<string>

    constructor ()
      ensures !connected && buffer == [] && written == []
      ensures sentSignals == [] && responseSignals == []
    {
      connected := false;
      buffer := [];
      written := [];
      sentSignals := [];
      responseSignals := [];
    }

    /** `send_message(message)`: framed with CR LF and announced, but only
      while connected. */
    method SendMessage(message: string)
      modifies this`written, this`sentSignals
      ensures connected ==>
        written == old(written) + Encode(message) + [CR, LF] && sentSignals == old(sentSignals) + [message]
      ensures !connected ==> written == old(written) && sentSignals == old(sentSignals)
    {
      if connected {
        written := written + Encode(message) + [CR, LF];
        sentSignals := sentSignals + [message];
      }
    }

    /** `on_ready_read()` with the bytes `readAll` returned: at most one
      response is cut from the buffer and decoded; a malformed one raises
      after the buffer has been updated. */
    method OnReadyRead(data: seq<byte>) returns (r: Outcome<()>)
      modifies this`buffer, this`responseSignals
      ensures buffer == Frame(old(buffer), data).rest
      ensures Frame(old(buffer), data).message.None? ==>
        r == Normal(()) && responseSignals == old(responseSignals)
      ensures Frame(old(buffer), data).message.Some? ==>
        var decoded := Decode(Frame(old(buffer), data).message.value);
        (decoded.Normal? ==> r == Normal(()) && responseSignals == old(responseSignals) + [decoded.value]) &&
        (decoded.Raised? ==> r == Raised(UnicodeDecodeError) && responseSignals == old(responseSignals))
    {
      buffer := buffer + data;
      var cut := FirstCrlf(buffer);
      if cut.Some? {
        var message := buffer[..cut.value];
        buffer := buffer[cut.value + 2..];
        var response := Decode(message);
        if response.Raised? {
          return Raised(UnicodeDecodeError);
        }
        responseSignals := responseSignals + [response.value];
      }
      return Normal(());
    }
  }
}
