/** `app_manager.py`: the earlier coordinator of robot, camera and display.
    Like `AppControl.AppController` it keeps the detected cells and a
    cursor over them, but its cell action jumps, answers None instead of
    raising, and its batch neither retries nor reports success. The robot
    and camera are `Hardware.Rig`. The robot object this file builds has no
    `move`, `insert` or `jump`; here they are requests to the rig like the
    controller's, `insert`/`jump` recorded with `u = 0`. */
module AppManaging {
  import opened Builtins
  import opened Geometry
  import opened Hardware

  class AppManager {
    const rig: Rig
    const toRobot: Point -> RobotXY
    const capturePositions: seq<Pose>
    const zInsert: real

    var cellsImgXY: Option<seq<Point>>
    var cellIndex: int
    var pauseInsert: bool
    var crossCamXY: Point
    var crossRoboXY: Option<RobotXY>
    /** The values `cell_index_changed` emitted. */
    ghost var indexSignals: seq<int>

    constructor (rig: Rig, toRobot: Point -> RobotXY, capturePositions: seq<Pose>, zInsert: real)
      ensures this.rig == rig && this.toRobot == toRobot
      ensures this.capturePositions == capturePositions && this.zInsert == zInsert
      ensures cellsImgXY == None && cellIndex == -1 && !pauseInsert
      ensures crossCamXY == Point(1, 1) && crossRoboXY == None
      ensures indexSignals == []
    {
      this.rig := rig;
      this.toRobot := toRobot;
      this.capturePositions := capturePositions;
      this.zInsert := zInsert;
      cellsImgXY := None;
      cellIndex := -1;
      pauseInsert := false;
      crossCamXY := Point(1, 1);
      crossRoboXY := None;
      indexSignals := [];
    }

    /** `set_cell_index(index)`: store and announce. */
    method SetCellIndex(index: int)
      modifies this`cellIndex, this`indexSignals
      ensures cellIndex == index && indexSignals == old(indexSignals) + [index]
    {
      cellIndex := index;
      indexSignals := indexSignals + [index];
    }

    /** `move_to_capture_position(idx)`: one move to the configured pose;
      an index outside the list raises before anything is sent. */
    method MoveToCapturePosition(idx: int) returns (r: Outcome<()>)
      modifies rig`log
      ensures Index(capturePositions, idx).Raised? ==> r == Raised(IndexError) && rig.log == old(rig.log)
      ensures Index(capturePositions, idx).Normal? ==>
        r == Normal(()) && rig.log == old(rig.log) + [Move(Index(capturePositions, idx).value)]
    {
      var position := Index(capturePositions, idx);
      if position.Raised? {
        return Raised(IndexError);
      }
      var p := position.value;
      var _ := rig.Send(Move(Pose(p.x, p.y, p.z, p.u)));
      return Normal(());
    }

    /** `capture_and_process(process)`: always asks the vision side; only
      with `process` are the cells replaced and the cursor reset. */
    method CaptureAndProcess(process: bool)
      modifies rig`log, this`cellsImgXY, this`cellIndex, this`indexSignals
      ensures rig.log == old(rig.log) + [CaptureWith(process)]
      ensures process ==>
        cellsImgXY == Some(rig.spots(rig.log)) && cellIndex == -1 &&
        indexSignals == old(indexSignals) + [-1]
      ensures !process ==>
        cellsImgXY == old(cellsImgXY) && cellIndex == old(cellIndex) && indexSignals == old(indexSignals)
    {
      var _ := rig.Send(CaptureWith(process));
      if process {
        cellsImgXY := Some(rig.spots(rig.log));
        SetCellIndex(-1);
      }
    }

    /** `cell_action(action)`: a negative cursor answers None without
      looking at the cells, since `or` stops at its first operand; then
      `len(None)` raises when there are no cells; a cursor past the cells
      or an unknown action answers None without calling the robot;
      otherwise the robot's answer. */
    method CellAction(action: string) returns (r: Outcome<Option<bool>>)
      modifies rig`log
      ensures cellIndex < 0 ==> r == Normal(None) && rig.log == old(rig.log)
      ensures cellIndex >= 0 && cellsImgXY.None? ==> r == Raised(TypeError) && rig.log == old(rig.log)
      ensures cellsImgXY.Some? && cellIndex >= |cellsImgXY.value| ==>
        r == Normal(None) && rig.log == old(rig.log)
      ensures cellsImgXY.Some? && 0 <= cellIndex < |cellsImgXY.value| && action == "insert" ==>
        rig.log == old(rig.log) + [CellRequest(InsertAction, toRobot, zInsert, cellsImgXY.value[cellIndex])] &&
        r == Normal(Some(rig.reply(rig.log)))
      ensures cellsImgXY.Some? && 0 <= cellIndex < |cellsImgXY.value| && action == "jump" ==>
        rig.log == old(rig.log) + [CellRequest(JumpAction, toRobot, zInsert, cellsImgXY.value[cellIndex])] &&
        r == Normal(Some(rig.reply(rig.log)))
      ensures cellsImgXY.Some? && 0 <= cellIndex < |cellsImgXY.value| && action != "insert" && action != "jump" ==>
        r == Normal(None) && rig.log == old(rig.log)
    {
      if cellIndex < 0 {
        return Normal(None);
      }
      if cellsImgXY.None? {
        return Raised(TypeError);
      }
      var cells := cellsImgXY.value;
      if cellIndex >= |cells| {
        return Normal(None);
      }
      var p := cells[cellIndex];
      if action == "insert" {
        var ok := rig.Send(CellRequest(InsertAction, toRobot, zInsert, p));
        return Normal(Some(ok));
      } else if action == "jump" {
        var ok := rig.Send(CellRequest(JumpAction, toRobot, zInsert, p));
        return Normal(Some(ok));
      }
      return Normal(None);
    }

    /** `insert_all_in_view()`: from the cursor on, advance one cell and
      jump there, until the last cell, the pause flag, or the first answer
      that is not True; the cursor stays on the cell that failed. */
    method InsertAllInView() returns (r: Outcome<()>)
      modifies rig`log, this`cellIndex, this`indexSignals
      ensures cellsImgXY.None? ==>
        r == Raised(TypeError) && cellIndex == old(cellIndex) && rig.log == old(rig.log) &&
        indexSignals == old(indexSignals)
      ensures cellsImgXY.Some? ==> r == Normal(())
      ensures cellsImgXY.Some? && (old(cellIndex) >= |cellsImgXY.value| - 1 || pauseInsert) ==>
        cellIndex == old(cellIndex) && rig.log == old(rig.log) && indexSignals == old(indexSignals)
      ensures cellsImgXY.Some? && old(cellIndex) < |cellsImgXY.value| - 1 && !pauseInsert && old(cellIndex) < -1 ==>
        cellIndex == old(cellIndex) + 1 && rig.log == old(rig.log) && indexSignals == old(indexSignals) + [cellIndex]
      ensures cellsImgXY.Some? && -1 <= old(cellIndex) < |cellsImgXY.value| - 1 && !pauseInsert ==>
        old(cellIndex) < cellIndex <= |cellsImgXY.value| - 1 &&
        rig.log == old(rig.log) + CellRequests(JumpAction, toRobot, zInsert, cellsImgXY.value, old(cellIndex) + 1, cellIndex + 1) &&
        indexSignals == old(indexSignals) + Range(old(cellIndex) + 1, cellIndex + 1) &&
        AllAccepted(rig.reply, rig.log, |old(rig.log)|, |rig.log| - 1) &&
        (cellIndex < |cellsImgXY.value| - 1 ==> !AcceptedAt(rig.reply, rig.log, |rig.log| - 1))
    {
      if cellsImgXY.None? {
        return Raised(TypeError);
      }
      var cells := cellsImgXY.value;
      ghost var c0 := cellIndex;
      ghost var log0 := rig.log;
      ghost var signals0 := indexSignals;
      while cellIndex < |cells| - 1
        invariant c0 <= cellIndex && (c0 < |cells| - 1 ==> cellIndex <= |cells| - 1)
        invariant cellIndex > c0 ==> -1 <= c0 && cellIndex <= |cells| - 1
        invariant indexSignals == signals0 + Range(c0 + 1, cellIndex + 1)
        invariant cellIndex == c0 ==> rig.log == log0
        invariant cellIndex > c0 ==>
          rig.log == log0 + CellRequests(JumpAction, toRobot, zInsert, cells, c0 + 1, cellIndex + 1) &&
          AllAccepted(rig.reply, rig.log, |log0|, |rig.log|)
        invariant pauseInsert ==> cellIndex == c0
      {
        if pauseInsert {
          break;
        }
        ghost var logBefore := rig.log;
        SetCellIndex(cellIndex + 1);
        assert Range(c0 + 1, cellIndex + 1) == Range(c0 + 1, cellIndex) + [cellIndex];
        assert |"jump"| != |"insert"|;
        var answer := CellAction("jump");
        if cellIndex >= 0 {
          CellStep(rig.reply, JumpAction, toRobot, zInsert, cells, log0, c0, cellIndex, logBefore, rig.log);
        }
        if answer.value != Some(true) {
          break;
        }
      }
      return Normal(());
    }

    /** `insert_batch(capture_idx)`: move to the capture pose, capture with
      processing, then jump through every cell, in that order. */
    method InsertBatch(captureIdx: int) returns (r: Outcome<()>)
      modifies rig`log, this`cellsImgXY, this`cellIndex, this`indexSignals
      ensures Index(capturePositions, captureIdx).Raised? ==>
        r == Raised(IndexError) && rig.log == old(rig.log) &&
        cellsImgXY == old(cellsImgXY) && cellIndex == old(cellIndex) && indexSignals == old(indexSignals)
      ensures Index(capturePositions, captureIdx).Normal? ==>
        var log2 := old(rig.log) + [Move(Index(capturePositions, captureIdx).value), CaptureWith(true)];
        var cells := rig.spots(log2);
        r == Normal(()) && cellsImgXY == Some(cells) &&
        -1 <= cellIndex <= |cells| - 1 && (cellIndex == -1 <==> cells == [] || pauseInsert) &&
        rig.log == log2 + CellRequests(JumpAction, toRobot, zInsert, cells, 0, cellIndex + 1) &&
        indexSignals == old(indexSignals) + [-1] + Range(0, cellIndex + 1) &&
        (cellIndex >= 0 ==> AllAccepted(rig.reply, rig.log, |log2|, |rig.log| - 1)) &&
        (-1 < cellIndex < |cells| - 1 ==> !AcceptedAt(rig.reply, rig.log, |rig.log| - 1))
    {
      var moved := MoveToCapturePosition(captureIdx);
      if moved.Raised? {
        return moved;
      }
      CaptureAndProcess(true);
      assert rig.log == old(rig.log) + [Move(Index(capturePositions, captureIdx).value), CaptureWith(true)];
      r := InsertAllInView();
    }

    /** `toggle_pause_insert()`; toggling twice restores the flag. */
    method TogglePauseInsert()
      modifies this`pauseInsert
      ensures pauseInsert == !old(pauseInsert)
    {
      pauseInsert := !pauseInsert;
    }

    /** `shift_cross(dx, dy)`: move the cross in camera pixels and map the
      new position to the robot frame. */
    method ShiftCross(dx: int, dy: int)
      modifies this`crossCamXY, this`crossRoboXY
      ensures crossCamXY == Point(old(crossCamXY).x + dx, old(crossCamXY).y + dy)
      ensures crossRoboXY == Some(toRobot(crossCamXY))
    {
      crossCamXY := Point(crossCamXY.x + dx, crossCamXY.y + dy);
      crossRoboXY := Some(toRobot(crossCamXY));
    }
  }
}
