/** The robot and the camera as the controllers see them. Every call the
    controller makes is a request appended to one log; what the robot or
    the vision side answers to it, and which spots the vision side holds
    after it, are fixed functions of the log up to and including that
    request. Nothing is assumed about those answers. */
module Hardware {
  import opened Geometry

  /** A robot target `(x, y, z, u)`. */
  datatype Pose = Pose(x: real, y: real, z: real, u: real)

  datatype Request =
    | Jump(pose: Pose)                // robot.jump(x, y, z, u)
    | Insert(pose: Pose)              // robot.insert(x, y, z, u)
    | Move(pose: Pose)                // robot.move(x, y, z, u)
    | Capture                         // VisionModel.capture_and_process()
    | CaptureWith(process: bool)      // VisionManager.capture_and_process(process)

  class Rig {
    /** The answer to the last request of a log. */
    const reply: seq<Request> -> bool
    /** The spots the vision side holds once the last request of a log is done. */
    const spots: seq<Request> -> seq<Point>
    var log: seq<Request>

    constructor (reply: seq<Request> -> bool, spots: seq<Request> -> seq<Point>)
      ensures this.reply == reply && this.spots == spots && log == []
    {
      this.reply := reply;
      this.spots := spots;
      log := [];
    }

    /** Issue one request and return the answer to it. */
    method Send(r: Request) returns (ok: bool)
      modifies this`log
      ensures log == old(log) + [r] && ok == reply(log)
    {
      log := log + [r];
      ok := reply(log);
    }
  }

  /** Request number `k` of the log was answered with success. */
  predicate AcceptedAt(reply: seq<Request> -> bool, log: seq<Request>, k: nat)
    requires k < |log|
  {
    reply(log[..k + 1])
  }

  /** Every request in `log[lo..hi]` was answered with success. */
  predicate AllAccepted(reply: seq<Request> -> bool, log: seq<Request>, lo: nat, hi: nat)
    requires lo <= hi <= |log|
  {
    forall k :: lo <= k < hi ==> AcceptedAt(reply, log, k)
  }

  /** Later requests do not change the answers to earlier ones. */
  lemma AllAcceptedExtend(reply: seq<Request> -> bool, log: seq<Request>, r: Request, lo: nat, hi: nat)
    requires lo <= hi <= |log| && AllAccepted(reply, log, lo, hi)
    ensures AllAccepted(reply, log + [r], lo, hi)
  {
    forall k | lo <= k < hi ensures AcceptedAt(reply, log + [r], k) {
      assert AcceptedAt(reply, log, k);
      assert (log + [r])[..k + 1] == log[..k + 1];
    }
  }

  /** What a cell action asks of the robot. */
  datatype Action = InsertAction | JumpAction

  /** The request for one cell: its image point through the homography, at
      the insertion height, with `u = 0`. */
  function CellRequest(action: Action, toRobot: Point -> RobotXY, z: real, p: Point): Request {
    var xy := toRobot(p);
    var pose := Pose(xy.x, xy.y, z, 0.0);
    if action == InsertAction then Insert(pose) else Jump(pose)
  }

  /** The requests for cells `lo .. hi - 1`, in order. */
  function CellRequests(action: Action, toRobot: Point -> RobotXY, z: real, cells: seq<Point>, lo: nat, hi: nat)
    : (r: seq<Request>)
    requires lo <= hi <= |cells|
    ensures |r| == hi - lo
    ensures forall k :: 0 <= k < |r| ==> (r[k] == CellRequest(action, toRobot, z, cells[lo + k]))
    decreases hi - lo
  {
    if lo == hi then []
    else CellRequests(action, toRobot, z, cells, lo, hi - 1) + [CellRequest(action, toRobot, z, cells[hi - 1])]
  }

  /** One more cell of a walk over `cells` from `c0 + 1`: the log grows by
      the request for cell `k`, and every earlier request stays accepted. */
  lemma CellStep(reply: seq<Request> -> bool, action: Action, toRobot: Point -> RobotXY, z: real,
                 cells: seq<Point>, log0: seq<Request>, c0: int, k: nat, logBefore: seq<Request>, log: seq<Request>)
    requires -1 <= c0 < k < |cells|
    requires k == c0 + 1 ==> logBefore == log0
    requires k > c0 + 1 ==>
      logBefore == log0 + CellRequests(action, toRobot, z, cells, c0 + 1, k) &&
      AllAccepted(reply, logBefore, |log0|, |logBefore|)
    requires log == logBefore + [CellRequest(action, toRobot, z, cells[k])]
    ensures log == log0 + CellRequests(action, toRobot, z, cells, c0 + 1, k + 1)
    ensures AllAccepted(reply, log, |log0|, |log| - 1)
    ensures reply(log) ==> AllAccepted(reply, log, |log0|, |log|)
    ensures AcceptedAt(reply, log, |log| - 1) == reply(log)
  {
    AllAcceptedExtend(reply, logBefore, CellRequest(action, toRobot, z, cells[k]), |log0|, |logBefore|);
    assert log[..|log|] == log;
  }

  /** `[a, a + 1, ..., b - 1]`: the indices a cursor passes through. */
  function Range(a: int, b: int): (r: seq<int>)
    requires a <= b
    ensures |r| == b - a && forall k :: 0 <= k < |r| ==> r[k] == a + k
    decreases b - a
  {
    if a == b then [] else Range(a, b - 1) + [b - 1]
  }

  /** `k` capture requests in a row. */
  function Captures(k: nat): (r: seq<Request>)
    ensures |r| == k && forall i :: 0 <= i < k ==> r[i] == Capture
  {
    if k == 0 then [] else Captures(k - 1) + [Capture]
  }
}
