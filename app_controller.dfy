/** `controllers/app_controller.py`: the controller that captures the spots
    of one region, then walks a cursor over them and asks the robot to
    insert a screw at each. The robot and the camera are the request log of
    `Hardware.Rig`; the homography, the capture positions and the insertion
    height come from the configuration and are fixed at construction. */
module AppControl {
  import opened Builtins
  import opened Geometry
  import opened Hardware

  /** The height the robot drops to after a successful capture. */
  const LowZ: real := -18.0

  /** The largest cell index announced after a capture (0 for no cells). */
  function MaxIndex(cells: seq<Point>): int {
    if cells != [] then |cells| - 1 else 0
  }

  /** The view states the display can ask for. */
  const ViewStates: set<string> := {"live", "paused orig", "paused thres", "paused contours"}

  /** `get_frame_for_display(view_state)` over the four frames the vision
      side keeps: live, stored, threshold and contour. */
  function FrameForDisplay<F>(viewState: string, live: F, stored: F, threshold: F, contour: F): (r: Option<F>)
    ensures viewState == "live" ==> r == Some(live)
    ensures viewState == "paused orig" ==> r == Some(stored)
    ensures viewState == "paused thres" ==> r == Some(threshold)
    ensures viewState == "paused contours" ==> r == Some(contour)
    ensures r.None? <==> viewState !in ViewStates
  {
    if viewState == "live" then Some(live)
    else if viewState == "paused orig" then Some(stored)
    else if viewState == "paused thres" then Some(threshold)
    else if viewState == "paused contours" then Some(contour)
    else None
  }

  /** Each of the four frames is reachable, and by its own name only: with
      four distinct frames, the frame returned identifies the view state. */
  lemma FrameForDisplayInjective<F>(v: string, w: string, live: F, stored: F, threshold: F, contour: F)
    requires live != stored && live != threshold && live != contour
    requires stored != threshold && stored != contour && threshold != contour
    requires v in ViewStates && w in ViewStates
    requires FrameForDisplay(v, live, stored, threshold, contour) == FrameForDisplay(w, live, stored, threshold, contour)
    ensures v == w
  {
  }

  class AppController {
    const rig: Rig
    const toRobot: Point -> RobotXY
    const capturePositions: seq<Pose>
    const zInsert: real
    /** `capture_position_idx`, which this file never changes. */
    const capturePositionIdx: int

    var cellsImgXY: Option<seq<Point>>
    var cellIndex: int
    var pauseInsert: bool
    var crossCamXY: Point
    var crossRoboXY: Option<RobotXY>
    /** The values `cell_index_changed` and `cell_max_changed` emitted. */
    ghost var indexSignals: seq<int>
    ghost var maxSignals: seq<int>

    constructor (rig: Rig, toRobot: Point -> RobotXY, capturePositions: seq<Pose>, zInsert: real)
      ensures this.rig == rig && this.toRobot == toRobot
      ensures this.capturePositions == capturePositions && this.zInsert == zInsert
      ensures capturePositionIdx == 0
      ensures cellsImgXY == None && cellIndex == -1 && !pauseInsert
      ensures crossCamXY == Point(1, 1) && crossRoboXY == None
      ensures indexSignals == [] && maxSignals == []
    {
      this.rig := rig;
      this.toRobot := toRobot;
      this.capturePositions := capturePositions;
      this.zInsert := zInsert;
      capturePositionIdx := 0;
      cellsImgXY := None;
      cellIndex := -1;
      pauseInsert := false;
      crossCamXY := Point(1, 1);
      crossRoboXY := None;
      indexSignals := [];
      maxSignals := [];
    }

    /** `set_cell_index(index)`: store and announce. */
    method SetCellIndex(index: int)
      modifies this`cellIndex, this`indexSignals
      ensures cellIndex == index && indexSignals == old(indexSignals) + [index]
    {
      cellIndex := index;
      indexSignals := indexSignals + [index];
    }

    /** `capture_and_process()`: on success the new spots replace the cells
      and the cursor goes back before the first cell; on failure nothing
      changes. */
    method CaptureAndProcess() returns (ok: bool)
      modifies rig`log, this`cellsImgXY, this`cellIndex, this`indexSignals, this`maxSignals
      ensures rig.log == old(rig.log) + [Capture] && ok == rig.reply(rig.log)
      ensures ok ==>
        cellsImgXY == Some(rig.spots(rig.log)) && cellIndex == -1 &&
        indexSignals == old(indexSignals) + [-1] &&
        maxSignals == old(maxSignals) + [MaxIndex(rig.spots(rig.log))]
      ensures !ok ==>
        cellsImgXY == old(cellsImgXY) && cellIndex == old(cellIndex) &&
        indexSignals == old(indexSignals) && maxSignals == old(maxSignals)
    {
      ok := rig.Send(Capture);
      if ok {
        var cells := rig.spots(rig.log);
        cellsImgXY := Some(cells);
        SetCellIndex(-1);
        maxSignals := maxSignals + [MaxIndex(cells)];
      }
    }

    /** `cell_action(action)`: a negative cursor answers False without
      looking at the cells, since `or` stops at its first operand; then
      with no cells `len(None)` raises; a cursor past the cells answers
      False without calling the robot; otherwise the cell under the cursor
      is sent as an insert or a jump, and any other action raises
      ValueError. */
    method CellAction(action: string) returns (r: Outcome<bool>)
      modifies rig`log
      ensures cellIndex < 0 ==> r == Normal(false) && rig.log == old(rig.log)
      ensures cellIndex >= 0 && cellsImgXY.None? ==> r == Raised(TypeError) && rig.log == old(rig.log)
      ensures cellsImgXY.Some? && cellIndex >= |cellsImgXY.value| ==>
        r == Normal(false) && rig.log == old(rig.log)
      ensures cellsImgXY.Some? && 0 <= cellIndex < |cellsImgXY.value| && action == "insert" ==>
        rig.log == old(rig.log) + [CellRequest(InsertAction, toRobot, zInsert, cellsImgXY.value[cellIndex])] &&
        r == Normal(rig.reply(rig.log))
      ensures cellsImgXY.Some? && 0 <= cellIndex < |cellsImgXY.value| && action == "jump" ==>
        rig.log == old(rig.log) + [CellRequest(JumpAction, toRobot, zInsert, cellsImgXY.value[cellIndex])] &&
        r == Normal(rig.reply(rig.log))
      ensures cellsImgXY.Some? && 0 <= cellIndex < |cellsImgXY.value| && action != "insert" && action != "jump" ==>
        r == Raised(ValueError) && rig.log == old(rig.log)
    {
      if cellIndex < 0 {
        return Normal(false);
      }
      if cellsImgXY.None? {
        return Raised(TypeError);
      }
      var cells := cellsImgXY.value;
      if cellIndex >= |cells| {
        return Normal(false);
      }
      var p := cells[cellIndex];
      var success;
      if action == "insert" {
        success := rig.Send(CellRequest(InsertAction, toRobot, zInsert, p));
      } else if action == "jump" {
        success := rig.Send(CellRequest(JumpAction, toRobot, zInsert, p));
      } else {
        return Raised(ValueError);
      }
      if !success {
        return Normal(false);
      }
      return Normal(success);
    }

    /** `insert_all_in_view()`: from the cursor on, advance one cell and
      insert there, until the last cell is done, the pause flag is seen, or
      an insertion fails, which returns False with the cursor on the
      failed cell. */
    method InsertAllInView() returns (r: Outcome<bool>)
      modifies rig`log, this`cellIndex, this`indexSignals
      ensures cellsImgXY.None? ==>
        r == Raised(TypeError) && cellIndex == old(cellIndex) && rig.log == old(rig.log) &&
        indexSignals == old(indexSignals)
      ensures cellsImgXY.Some? && (old(cellIndex) >= |cellsImgXY.value| - 1 || pauseInsert) ==>
        r == Normal(true) && cellIndex == old(cellIndex) && rig.log == old(rig.log) &&
        indexSignals == old(indexSignals)
      ensures cellsImgXY.Some? && old(cellIndex) < |cellsImgXY.value| - 1 && !pauseInsert && old(cellIndex) < -1 ==>
        r == Normal(false) && cellIndex == old(cellIndex) + 1 && rig.log == old(rig.log) &&
        indexSignals == old(indexSignals) + [cellIndex]
      ensures cellsImgXY.Some? && -1 <= old(cellIndex) < |cellsImgXY.value| - 1 && !pauseInsert ==>
        r.Normal? && old(cellIndex) < cellIndex <= |cellsImgXY.value| - 1 &&
        rig.log == old(rig.log) + CellRequests(InsertAction, toRobot, zInsert, cellsImgXY.value, old(cellIndex) + 1, cellIndex + 1) &&
        indexSignals == old(indexSignals) + Range(old(cellIndex) + 1, cellIndex + 1) &&
        AllAccepted(rig.reply, rig.log, |old(rig.log)|, |rig.log| - 1) &&
        (r.value <==> AcceptedAt(rig.reply, rig.log, |rig.log| - 1)) &&
        (r.value ==> cellIndex == |cellsImgXY.value| - 1)
    {
      if cellsImgXY.None? {
        return Raised(TypeError);
      }
      var cells := cellsImgXY.value;
      ghost var c0 := cellIndex;
      ghost var log0 := rig.log;
      ghost var signals0 := indexSignals;
      while cellIndex < |cells| - 1
        invariant c0 <= cellIndex && (c0 < |cells| - 1 ==> cellIndex <= |cells| - 1)
        invariant cellIndex > c0 ==> -1 <= c0 && cellIndex <= |cells| - 1
        invariant indexSignals == signals0 + Range(c0 + 1, cellIndex + 1)
        invariant cellIndex == c0 ==> rig.log == log0
        invariant cellIndex > c0 ==>
          rig.log == log0 + CellRequests(InsertAction, toRobot, zInsert, cells, c0 + 1, cellIndex + 1) &&
          AllAccepted(rig.reply, rig.log, |log0|, |rig.log|)
        invariant pauseInsert ==> cellIndex == c0
      {
        if pauseInsert {
          break;
        }
        ghost var logBefore := rig.log;
        SetCellIndex(cellIndex + 1);
        assert Range(c0 + 1, cellIndex + 1) == Range(c0 + 1, cellIndex) + [cellIndex];
        var ok := CellAction("insert");
        if cellIndex >= 0 {
          CellStep(rig.reply, InsertAction, toRobot, zInsert, cells, log0, c0, cellIndex, logBefore, rig.log);
        }
        if !ok.value {
          return Normal(false);
        }
      }
      return Normal(true);
    }

    /** `position_and_capture(idx)`: jump to the capture position (the
      configured default when `idx` is None), try the capture up to three
      times, stopping at the first success, and only then drop to the
      working height. */
    method PositionAndCapture(idx: Option<int>) returns (r: Outcome<bool>, attempts: nat)
      modifies rig`log, this`cellsImgXY, this`cellIndex, this`indexSignals, this`maxSignals
      ensures var i := if idx.None? then capturePositionIdx else idx.value;
        Index(capturePositions, i).Raised? ==>
          r == Raised(IndexError) && rig.log == old(rig.log) &&
          cellsImgXY == old(cellsImgXY) && cellIndex == old(cellIndex) &&
          indexSignals == old(indexSignals) && maxSignals == old(maxSignals)
      ensures var i := if idx.None? then capturePositionIdx else idx.value;
        Index(capturePositions, i).Normal? ==>
          var p := Index(capturePositions, i).value;
          var log1 := old(rig.log) + [Jump(Pose(p.x, p.y, p.z, 0.0))];
          r.Normal? && 1 <= attempts <= 3 &&
          (forall a :: 1 <= a < attempts ==> !rig.reply(log1 + Captures(a))) &&
          (r.value <==> rig.reply(log1 + Captures(attempts))) &&
          (!r.value ==> attempts == 3) &&
          rig.log == log1 + Captures(attempts) + (if r.value then [Jump(Pose(p.x, p.y, LowZ, 0.0))] else []) &&
          (r.value ==>
            cellsImgXY == Some(rig.spots(log1 + Captures(attempts))) && cellIndex == -1 &&
            indexSignals == old(indexSignals) + [-1] &&
            maxSignals == old(maxSignals) + [MaxIndex(rig.spots(log1 + Captures(attempts)))]) &&
          (!r.value ==>
            cellsImgXY == old(cellsImgXY) && cellIndex == old(cellIndex) &&
            indexSignals == old(indexSignals) && maxSignals == old(maxSignals))
    {
      attempts := 0;
      var i := if idx.None? then capturePositionIdx else idx.value;
      var position := Index(capturePositions, i);
      if position.Raised? {
        return Raised(IndexError), attempts;
      }
      var p := position.value;
      var _ := rig.Send(Jump(Pose(p.x, p.y, p.z, 0.0)));
      ghost var log1 := rig.log;
      var captured := false;
      while attempts < 3 && !captured
        invariant 0 <= attempts <= 3 && rig.log == log1 + Captures(attempts)
        invariant forall a :: 1 <= a < attempts ==> !rig.reply(log1 + Captures(a))
        invariant captured ==>
          attempts >= 1 && rig.reply(rig.log) &&
          cellsImgXY == Some(rig.spots(rig.log)) && cellIndex == -1 &&
          indexSignals == old(indexSignals) + [-1] &&
          maxSignals == old(maxSignals) + [MaxIndex(rig.spots(rig.log))]
        invariant !captured ==>
          (attempts >= 1 ==> !rig.reply(rig.log)) &&
          cellsImgXY == old(cellsImgXY) && cellIndex == old(cellIndex) &&
          indexSignals == old(indexSignals) && maxSignals == old(maxSignals)
      {
        captured := CaptureAndProcess();
        attempts := attempts + 1;
      }
      if !captured {
        return Normal(false), attempts;
      }
      var _ := rig.Send(Jump(Pose(p.x, p.y, LowZ, 0.0)));
      return Normal(true), attempts;
    }

    /** `insert_batch(capture_idx)`: capture, then insert every cell; True
      only when both stages succeed. `attempts` is the number of captures
      `position_and_capture` took. */
    method InsertBatch(captureIdx: int) returns (r: Outcome<bool>, ghost attempts: nat)
      modifies rig`log, this`cellsImgXY, this`cellIndex, this`indexSignals, this`maxSignals
      ensures Index(capturePositions, captureIdx).Raised? ==>
        r == Raised(IndexError) && rig.log == old(rig.log) &&
        cellsImgXY == old(cellsImgXY) && cellIndex == old(cellIndex) &&
        indexSignals == old(indexSignals) && maxSignals == old(maxSignals)
      ensures Index(capturePositions, captureIdx).Normal? ==>
        var p := Index(capturePositions, captureIdx).value;
        var log1 := old(rig.log) + [Jump(Pose(p.x, p.y, p.z, 0.0))];
        var shot := log1 + Captures(attempts);
        1 <= attempts <= 3 && (forall a :: 1 <= a < attempts ==> !rig.reply(log1 + Captures(a))) &&
        (!rig.reply(shot) ==>
          attempts == 3 && r == Normal(false) && rig.log == shot &&
          cellsImgXY == old(cellsImgXY) && cellIndex == old(cellIndex) &&
          indexSignals == old(indexSignals) && maxSignals == old(maxSignals))
      ensures Index(capturePositions, captureIdx).Normal? ==>
        var p := Index(capturePositions, captureIdx).value;
        var shot := old(rig.log) + [Jump(Pose(p.x, p.y, p.z, 0.0))] + Captures(attempts);
        var log2 := shot + [Jump(Pose(p.x, p.y, LowZ, 0.0))];
        var cells := rig.spots(shot);
        rig.reply(shot) ==>
          r.Normal? && cellsImgXY == Some(cells) && maxSignals == old(maxSignals) + [MaxIndex(cells)] &&
          -1 <= cellIndex <= |cells| - 1 && indexSignals == old(indexSignals) + [-1] + Range(0, cellIndex + 1) &&
          (cells == [] || pauseInsert ==> r == Normal(true) && cellIndex == -1 && rig.log == log2) &&
          (cells != [] && !pauseInsert ==>
            0 <= cellIndex <= |cells| - 1 &&
            rig.log == log2 + CellRequests(InsertAction, toRobot, zInsert, cells, 0, cellIndex + 1) &&
            AllAccepted(rig.reply, rig.log, |log2|, |rig.log| - 1) &&
            (r.value <==> AcceptedAt(rig.reply, rig.log, |rig.log| - 1)) &&
            (r.value ==> cellIndex == |cells| - 1))
    {
      var c, a := PositionAndCapture(Some(captureIdx));
      attempts := a;
      if c.Raised? {
        return c, attempts;
      }
      if !c.value {
        return Normal(false), attempts;
      }
      assert Range(0, 0) == [];
      var ins := InsertAllInView();
      if !ins.value {
        return Normal(false), attempts;
      }
      return Normal(true), attempts;
    }

    /** `toggle_pause_insert()`; toggling twice restores the flag. */
    method TogglePauseInsert()
      modifies this`pauseInsert
      ensures pauseInsert == !old(pauseInsert)
    {
      pauseInsert := !pauseInsert;
    }

    /** `shift_cross(dx, dy)`: move the cross in camera pixels and map the
      new position to the robot frame. */
    method ShiftCross(dx: int, dy: int)
      modifies this`crossCamXY, this`crossRoboXY
      ensures crossCamXY == Point(old(crossCamXY).x + dx, old(crossCamXY).y + dy)
      ensures crossRoboXY == Some(toRobot(crossCamXY))
    {
      crossCamXY := Point(crossCamXY.x + dx, crossCamXY.y + dy);
      crossRoboXY := Some(toRobot(crossCamXY));
    }
  }
}
