# Screw-insertion cell, client side, in Dafny

This project models the operator and vision client of a screw-insertion cell. A camera finds screw-hole spots on a part, and a centroid manager orders them into rows. A controller walks a cursor over the cells and asks an Epson-style robot to jump to or insert at each cell. Small line protocols talk to the robot controller and to the conveyor PLC, and a monitor keeps an online/offline map of the network devices.

The Python code is modelled file by file:

- `utils/centroid.py` becomes `centroid.dfy`. Module `Centroids` holds the pure specification: boundary filter, neighbour links, row walk, subsampling, 3 x 3 test filter and row slices. Module `CentroidManager` holds the loops and the `Manager` class.
- `utils/tools.py` becomes module `Tools` in `utils_tools.dfy`. Its `sort_centroids` sorts the caller's list in place, so it takes an `array`.
- `tools.py` and `image_processing.py` become module `LegacyTools` in `legacy_tools.dfy`. The two files have the same `draw_points`, `determine_bound` and `sort_centroids`.
- `determine_bound` is one function, `Geometry.DetermineBound`, because the code is the same in all three revisions.
- `controllers/app_controller.py` becomes class `AppControl.AppController`.
- `app_manager.py` becomes class `AppManaging.AppManager`.
- `models/robot_socket_v2.py` `RobotCommandProtocol` becomes module `RobotProtocol`.
- `robot.py` `RobotSocketClient` becomes class `RobotSocket.RobotSocketClient`.
- `scripts/conveyor_control.py` `PLCClient` becomes module `Conveyor`.
- `utils/network_monitor.py` `NetworkMonitor` becomes class `NetworkMonitoring.NetworkMonitor`.

Some Python behaviour is written out explicitly:

- Python semantics live in `Builtins`:
  - exceptions are the `Raised` case of `Outcome`;
  - negative indices and clamped slices are `Index` and `Slice`;
  - `str.strip()` is `Strip`;
  - `//` is `FloorDiv`;
  - `str(int)` is `IntToString`.
- Strict UTF-8 is in `Utf8`.
- `sorted` and `list.sort` are the stable insertion sort of `StableSort`. It is characterised as the unique stable ordering by the key.
- The robot and the camera are `Hardware.Rig`. Every call is a request appended to one log. The robot's answer and the spots the vision side holds afterwards are fixed but arbitrary functions of that log. Every property of the controllers therefore holds whatever the hardware answers.
- The homography from image pixels to robot millimetres is a function parameter.
- The configuration (boundary, capture positions, insertion height) is given at construction.
- Qt signals are recorded as ghost sequences of the values emitted.

Where the code and its description disagree, the model follows the code:

- `process_centroids` with no detections leaves the row table and the cursor as they were.
- `_sort_centroids` can lose a spot (`Centroids.WalkCanDropSpot`). Visited flags only promise that no spot is emitted twice.
- The docstring of the `tools.py` `sort_centroids` describes grouping by similar x. The code instead buckets x into fixed columns of width `x_tolerance`, so two points one pixel apart can land in different columns (`LegacyTools.ColumnEdge`).

## Model

| member | source | states |
|---|---|---|
| Centroids.ToCentroids | utils/centroid.py:61-64 | raw `(x, y)` detections become one default centroid each; centroid objects are kept as they are |
| Centroids.FilterBoundary | utils/centroid.py:140-141 | a centroid is kept exactly when it was in the input and lies strictly inside the boundary box; never more centroids than were given |
| Centroids.FilterBoundaryAppend | utils/centroid.py:140-141 | the boundary filter keeps input order: it distributes over concatenation |
| Centroids.CandidateSides | utils/centroid.py:252-279 | a right candidate has 0 <= dx <= 500 and abs(dy) <= 15; a left candidate has the same dy window, 0 <= -dx <= 500, and is not a right candidate; no spot is both, and no spot is its own candidate |
| Centroids.NearestUnique | utils/centroid.py:262-279 | the neighbour the search keeps on each side is uniquely determined: the first candidate with the smallest distance |
| Centroids.LeftmostHasNoLeft | utils/centroid.py:276-279 | a spot with the smallest x never gets a left neighbour |
| Centroids.LeftmostIndex | utils/centroid.py:282 | every non-empty list has a spot whose x is minimal |
| Centroids.Leaders | utils/centroid.py:282 | the leading indices are exactly the spots without a left neighbour, in increasing index order |
| Centroids.RowStarts | utils/centroid.py:296 | the row-start table has positions inside the list, begins with 0 for a non-empty list, and has no more entries than the list |
| Centroids.RowStartsCharacterized | utils/centroid.py:291-306 | the row-start table is strictly increasing, contains 0 for non-empty input, and contains a later position exactly when that element's row differs from the previous one |
| Centroids.WalkedShape | utils/centroid.py:289-318 | every emitted centroid copies the input spot its `idx` names, no spot is emitted twice, `idx_final` is the output position, row numbers never decrease along the output, every row starts with its leader, each next element of a row is the right neighbour of the one before, and a row ends only where the walk stops |
| Centroids.WalkedAppend | utils/centroid.py:301-330 | a walk extended by one element is a walk exactly when the element is a legal next step |
| Centroids.StepDetermined | utils/centroid.py:288-330 | at most one spot can come next: an unemitted right neighbour of the last spot must be emitted, and otherwise only the first leader not yet emitted can open a row |
| Centroids.WalkedPrefix | utils/centroid.py:288-330 | every proper prefix of a walk is a walk, followed by a legal step |
| Centroids.FinishedHasNoStep | utils/centroid.py:288-330 | once every leader is dealt with and the last row has stopped, nothing can be emitted |
| Centroids.FinishedWalkUnique | utils/centroid.py:288-330 | the walk over a given leader order has exactly one finished result |
| Centroids.NeighboursUnique | utils/centroid.py:252-279 | the neighbour links of a list are determined by the list |
| Centroids.SortedIntoRowsUnique | utils/centroid.py:228-332 | `_sort_centroids` is a function of its input: the links and the ordering that fit it are unique |
| Centroids.StoppedAtEmitted | utils/centroid.py:321-323 | a walk cannot stop while the last spot's right neighbour is still unemitted |
| Centroids.BeginRow | utils/centroid.py:291-296 | emitting an unvisited leader opens a new row and appends the current output length to the row table |
| Centroids.EmitInRow | utils/centroid.py:321-330 | following an unvisited right link keeps the row open and leaves the row table unchanged |
| Centroids.EndRow | utils/centroid.py:321-330 | a row whose walk has stopped is closed, and the next leader is up |
| Centroids.SkipLeader | utils/centroid.py:291-293 | a leader already emitted by an earlier row is skipped, but its row number is used up |
| Centroids.StopsAtEmitted | utils/centroid.py:321-330 | a walk that reaches an already emitted spot ends there |
| Centroids.RowsTopToBottom | utils/centroid.py:285 | rows are opened in order of their leaders' image y: a later row's first spot is never above an earlier row's first spot |
| Centroids.SortedNonEmpty | utils/centroid.py:282-296 | a non-empty input always yields a non-empty ordering, because its leftmost spot is a leader |
| Centroids.WalkCanDropSpot | utils/centroid.py:301-330 | as written, the walk can lose a spot: in the three-spot example the middle spot has a left neighbour and is nobody's right neighbour, so it is never emitted |
| Centroids.NeitherLeaderNorLinked | utils/centroid.py:288-330 | a spot that is no leader and no spot's right neighbour is never emitted |
| Centroids.EveryNthCharacterized | utils/centroid.py:159 | the j-th subsampled element is the element at position j * interval, and the result covers the whole list, so its length is ceil(n / interval) |
| Centroids.EveryNthKeeps | utils/centroid.py:159 | every position divisible by the interval is kept, at position i / interval |
| Centroids.EveryNth | utils/centroid.py:159 | the subsample is never longer than its input and always keeps the first element |
| Centroids.RecalculatedStarts | utils/centroid.py:162-169 | every entry of the rebuilt row table is a position in the subsampled list, and the table is no longer than the list |
| Centroids.RecalculatedIsRowStarts | utils/centroid.py:162-169 | with non-negative row numbers, the rebuilt row table is exactly the row-start table of the subsampled list |
| Centroids.RecalculatedAppend | utils/centroid.py:165-169 | one more element adds its position to the rebuilt table exactly when its row differs from the previous element's row, or from -1 for the first element |
| Centroids.RowStartsSameRows | utils/centroid.py:61-64 | the row table depends only on the row numbers, so converting to robot coordinates keeps it valid |
| Centroids.RowsNonNegative | utils/centroid.py:315 | the walk numbers rows from zero upwards |
| Centroids.ClosestIsNearest | utils/centroid.py:205-220 | the scan of one grid cell finds nothing exactly when no centroid is in the cell; otherwise it picks an in-cell centroid no farther from the cell centre than any other in-cell centroid, and the first such one |
| Centroids.Picks | utils/centroid.py:199-224 | the cells scanned so far contribute at most one centroid each |
| Centroids.FilterTestBounds | utils/centroid.py:183-224 | fewer than nine centroids come back unchanged; otherwise at most nine come back, each an input centroid inside its grid cell |
| Centroids.PicksMembers | utils/centroid.py:211-224 | every centroid the test filter keeps is an input centroid in one of the grid cells |
| Centroids.RowSliceIsRow | utils/centroid.py:92-101 | with a consistent table, a row slice is non-empty, lies inside the list, has one row number throughout, and is followed by a different row or by the end |
| CentroidManager.FindNeighbours | utils/centroid.py:255-279 | the double loop sets, for every spot, exactly the nearest right and nearest left neighbour that the specification determines |
| CentroidManager.WalkRow | utils/centroid.py:321-330 | following right links extends the open row by unvisited spots only, stops where the next link is missing or already visited, keeps the visited flags in step with the output, and leaves the row table unchanged |
| CentroidManager.TraverseRows | utils/centroid.py:288-330 | the loop over the ordered leaders produces the finished walk (the only one, by `Centroids.FinishedWalkUnique`), and the returned table is its row-start table |
| CentroidManager.RecalculateRowIndices | utils/centroid.py:162-169 | the row loop of subsampling computes the rebuilt row table |
| CentroidManager.ConvertToRobotCoords | utils/centroid.py:334-356 | every centroid keeps its other fields and receives the robot coordinates of its image point, in order |
| CentroidManager.Manager.constructor | utils/centroid.py:34-40 | a new manager has no centroids, an empty row table and the cursor on row 0 |
| CentroidManager.Manager.FilterBoundaryCentroids | utils/centroid.py:120-141 | keeps a centroid exactly when it is in the input and strictly inside the configured boundary, and never returns more than it was given |
| CentroidManager.Manager.SortCentroids | utils/centroid.py:228-332 | empty input returns empty and leaves the row table alone; otherwise the links are the nearest neighbours, the result is the row walk over the leaders sorted by y, which `Centroids.SortedIntoRowsUnique` shows to be the only such list, and the row table is its row-start table |
| CentroidManager.Manager.SubsampleCentroids | utils/centroid.py:143-171 | empty input gives an empty list and an empty table; a zero interval raises ZeroDivisionError before the table changes; otherwise every interval-th element, with the table rebuilt from it |
| CentroidManager.Manager.FilterTestCentroids | utils/centroid.py:173-226 | the nested cell loops compute the 3 x 3 test filter |
| CentroidManager.Manager.ProcessCentroids | utils/centroid.py:42-82 | no detections, or none at all, clear the centroids and keep the row table and cursor; otherwise the stored list is every fifth spot of the row ordering of the in-boundary spots, converted to robot coordinates, the table describes its rows, and the cursor is back at row 0 |
| CentroidManager.Manager.GetRow | utils/centroid.py:84-101 | a cursor outside the table gives the empty row; otherwise the slice from the row's start to the next row's start or to the end of the list |
| CentroidManager.Manager.NextRow | utils/centroid.py:104-108 | the cursor moves on by one, with no bounds check |
| CentroidManager.Manager.GetNumRows | utils/centroid.py:110-111 | the number of rows is the length of the row table |
| CentroidManager.Manager.RowUnderCursor | utils/centroid.py:84-101 | with a consistent table and an in-range cursor, the row is a non-empty maximal run of one row number starting at the row's start |
| CentroidManager.Manager.NoCentroidsNoRow | utils/centroid.py:56-58 | after clearing, every row is empty, even though the row table is stale |
| CentroidManager.Manager.NumRowsBounds | utils/centroid.py:110-111 | a consistent table has at least one row for a non-empty list and never more rows than centroids |
| Geometry.DetermineBound | utils/tools.py:60-68 | no crop region, or an empty one, accepts every point; a region of four values accepts exactly the points strictly inside it; a region of any other length raises ValueError when it is unpacked |
| Geometry.DetermineBoundExcludesBorder | utils/tools.py:66 | points on the border of the crop region are rejected |
| Tools.PointColour | utils/tools.py:41-48 | the colour is (0,125,255) exactly for points before the current one, (0,255,0) exactly for the current one, and (255,0,0) exactly for later ones |
| Tools.PointColourNeverBlack | utils/tools.py:42 | the initial black is never used |
| Tools.PointColourClassifies | utils/tools.py:41-48 | two points share a colour exactly when they stand in the same relation to the current index |
| Tools.DrawPoints | utils/tools.py:32-51 | no points returns the image unchanged; otherwise one circle of the given size per point is added after what was drawn, in order, in the point's colour |
| Tools.GapGroupsFlatten | utils/tools.py:90-103 | the groups partition the x-sorted list: concatenated, they give it back |
| Tools.GapGroupsMembers | utils/tools.py:90-100 | every member of a group is a member of the list |
| Tools.GapGroupsWithin | utils/tools.py:94-95 | inside a group, neighbouring points are at most `x_tolerance` apart in x |
| Tools.GapGroupsBetween | utils/tools.py:96-98 | between neighbouring groups the gap in x is wider than `x_tolerance`, so the groups are maximal runs |
| Tools.GapGroupsOrdered | utils/tools.py:87-98 | on the x-sorted list, no point of an earlier group lies right of a point of a later group |
| Tools.GapGroups | utils/tools.py:89-100 | a non-empty list gives at least one group, and no group is empty |
| Tools.SortEach | utils/tools.py:97-100 | one sorted group for every group |
| Tools.SortInPlaceByX | utils/tools.py:87 | the array now holds its old contents sorted stably by x |
| Tools.SortCentroids | utils/tools.py:70-103 | an empty list returns empty and is left alone; otherwise the caller's list is left sorted by x in place, and the result is the gap groups of that list, each sorted by y, concatenated |
| Tools.GroupByGaps | utils/tools.py:89-103 | the grouping loop, sorting each group by y when it closes, computes the concatenation of the y-sorted gap groups |
| Tools.SortEachAt | utils/tools.py:97 | group k of the result is group k of the input, sorted by y |
| Tools.SortCentroidsLayout | utils/tools.py:84-103 | the result is a permutation of the input, each group is ordered by y and is a permutation of its gap group, and the groups run left to right |
| Tools.SortEachPermutes | utils/tools.py:97-103 | sorting each group keeps the multiset of all points |
| LegacyTools.PointColour | tools.py:36-43 | the colour is (255,0,0) exactly before the current index, (255,0,255) exactly at it, and (0,0,255) exactly after it |
| LegacyTools.DrawPoints | tools.py:32-45 | no points draws nothing; otherwise one circle of radius 4 per point is drawn after what was there, in order, in the point's colour |
| LegacyTools.SortCentroids | tools.py:64-78 | a zero tolerance raises ZeroDivisionError exactly when there is something to sort; otherwise a new list that is a permutation of the input, ordered by (x // tolerance, y) |
| LegacyTools.SortCentroidsStable | tools.py:77 | points with equal (column, y) keys keep their input order |
| LegacyTools.SortCentroidsUnique | tools.py:77 | any ordering by the key that keeps equal keys in input order is the result |
| LegacyTools.SortCentroidsColumns | image_processing.py:77 | for a positive tolerance, a point in a column further left comes first, points in one column run top to bottom, and column k holds the x in [k * tol, (k + 1) * tol) |
| LegacyTools.ColumnEdge | image_processing.py:77 | two points one pixel apart across a column edge land in different columns, so the lower one can come first |
| LegacyTools.ColumnKey | tools.py:77 | the key keeps y; for a positive tolerance its column is the one whose interval of width `x_tolerance` holds x, rounding down |
| AppControl.FrameForDisplay | controllers/app_controller.py:176-188 | the four view names select the live, stored, threshold and contour frames; any other name gives None |
| AppControl.FrameForDisplayInjective | controllers/app_controller.py:176-188 | with four distinct frames, the frame returned identifies the view name |
| AppControl.AppController.constructor | controllers/app_controller.py:24-44 | no cells, cursor at -1, not paused, cross at (1, 1) with no robot position, capture position 0 |
| AppControl.AppController.SetCellIndex | controllers/app_controller.py:164-167 | stores the index and announces it |
| AppControl.AppController.CaptureAndProcess | controllers/app_controller.py:87-99 | asks for one capture; on success the cells are the vision side's spots, the cursor is -1 and the maximum index is announced (len - 1, or 0 for no cells); on failure nothing changes |
| AppControl.AppController.CellAction | controllers/app_controller.py:117-135 | a negative cursor answers False and sends nothing, with or without cells, because `or` stops at its first operand; otherwise no cells raises TypeError; a cursor past the cells answers False and sends nothing; insert or jump sends the cell's pose and returns the robot's answer; any other action raises ValueError and sends nothing |
| AppControl.AppController.InsertAllInView | controllers/app_controller.py:104-115 | the cursor moves one cell at a time and each cell gets an insert, in index order, never past the last cell; it returns False at the first refused insert with the cursor on that cell; a pause at entry returns True with nothing changed; a True return from a cursor at -1 or above leaves the cursor on the last cell |
| AppControl.AppController.PositionAndCapture | controllers/app_controller.py:63-85 | an index outside the positions raises IndexError before anything is sent; otherwise one jump, then one to three captures, stopping at the first success; False only after three failures and then without the second jump; True ends with a jump to z = -18 |
| AppControl.AppController.InsertBatch | controllers/app_controller.py:46-61 | a bad capture index raises IndexError and sends nothing; otherwise the robot jumps to the capture pose and captures up to three times; after three failed captures it returns False with nothing else sent; after a successful capture it lowers z, stores the new cells, and then inserts into the cells in order. With no cells, or when paused, it returns True with the cursor at -1. Otherwise every insert before the last one sent was accepted, and it returns True exactly when the last one was, which leaves the cursor on the last cell |
| AppControl.AppController.TogglePauseInsert | controllers/app_controller.py:169-170 | negates the pause flag, so toggling twice restores it |
| AppControl.AppController.ShiftCross | controllers/app_controller.py:144-152 | the cross moves by (dx, dy) in camera pixels and its robot position is the mapped new position |
| AppManaging.AppManager.constructor | app_manager.py:25-47 | no cells, cursor at -1, not paused, cross at (1, 1) with no robot position |
| AppManaging.AppManager.SetCellIndex | app_manager.py:140-143 | stores the index and announces it |
| AppManaging.AppManager.MoveToCapturePosition | app_manager.py:59-64 | an index outside the positions raises IndexError before anything is sent; otherwise exactly one move to that pose |
| AppManaging.AppManager.CaptureAndProcess | app_manager.py:66-73 | always asks for a capture; only with `process` are the cells replaced and the cursor reset to -1 and announced |
| AppManaging.AppManager.CellAction | app_manager.py:94-107 | a negative cursor answers None and sends nothing, with or without cells, because `or` stops at its first operand; otherwise no cells raises TypeError; a cursor past the cells or an unknown action answers None and sends nothing; insert or jump sends the cell's pose and returns the robot's answer |
| AppManaging.AppManager.InsertAllInView | app_manager.py:75-92 | the cursor moves one cell at a time and each cell gets a jump, never past the last cell; it stops at the first jump that is not accepted, with the cursor on that cell; a pause at entry changes nothing |
| AppManaging.AppManager.InsertBatch | app_manager.py:49-57 | a bad capture index raises IndexError and sends nothing; otherwise a move to the capture pose, then a capture with processing, then jumps through the new cells in order from cell 0. The cursor stays at -1 exactly when there are no cells or insertion is paused, so otherwise at least one jump is sent; every jump before the last was accepted, and stopping before the last cell means the last jump was refused |
| AppManaging.AppManager.TogglePauseInsert | app_manager.py:145-146 | negates the pause flag, so toggling twice restores it |
| AppManaging.AppManager.ShiftCross | app_manager.py:116-125 | the cross moves by (dx, dy) in camera pixels and its robot position is the mapped new position |
| RobotProtocol.TwoDigits | models/robot_socket_v2.py:35 | two decimal digits whose value is n mod 100 |
| RobotProtocol.Renders | models/robot_socket_v2.py:35 | each argument rendered in turn: floats with two decimals, everything else through `str` |
| RobotProtocol.FormatCommand | models/robot_socket_v2.py:32-37 | no arguments returns the command unchanged; with arguments the result starts with the command and a comma |
| RobotProtocol.FormatCommandFields | models/robot_socket_v2.py:35-36 | when neither the command nor a rendered argument holds a comma, splitting at commas gives back the command and the renderings, 1 + len(args) fields |
| RobotProtocol.RenderHasNoComma | models/robot_socket_v2.py:35 | only a string argument can bring a comma into a command |
| RobotProtocol.FloatStringValue | models/robot_socket_v2.py:35 | a rendered float is an optional sign, the whole part, a point and exactly two decimals whose value is the float to two places |
| RobotProtocol.FloatString | models/robot_socket_v2.py:35 | at least four characters ending in a point and two digits, with a leading minus exactly for a negative value |
| RobotProtocol.IsAck | models/robot_socket_v2.py:47-49 | an acknowledgement has no surrounding whitespace and is neither of the other two status words |
| RobotProtocol.IsTaskDone | models/robot_socket_v2.py:51-53 | a task-done answer has no surrounding whitespace and is neither of the other two status words |
| RobotProtocol.IsTaskFailed | models/robot_socket_v2.py:55-57 | a task-failed answer has no surrounding whitespace and is neither of the other two status words |
| RobotProtocol.EncodeCommand | models/robot_socket_v2.py:39-41 | the command's UTF-8 bytes followed by exactly CR LF |
| RobotProtocol.DecodeResponse | models/robot_socket_v2.py:43-45 | decoding raises exactly when the bytes are not valid UTF-8; otherwise the text has no whitespace at either end |
| RobotProtocol.DecodePadded | models/robot_socket_v2.py:45 | a response padded with whitespace on both sides decodes to the response |
| RobotProtocol.EncodeDecode | models/robot_socket_v2.py:39-45 | decoding an encoded command gives it back whenever it has no whitespace at its ends |
| RobotProtocol.StatusExclusive | models/robot_socket_v2.py:47-57 | no response is more than one of ack, taskdone and taskfailed |
| RobotProtocol.StatusLines | models/robot_socket_v2.py:26-30 | each of the three status words survives encoding and decoding |
| RobotSocket.FirstCrlf | robot.py:55-56 | finds the first CR LF of the buffer, or reports that there is none |
| RobotSocket.FrameIncomplete | robot.py:54-55 | without a CR LF nothing is handed on and the buffer is the old buffer plus the new data |
| RobotSocket.FrameComplete | robot.py:55-57 | with a CR LF the old buffer plus the data is exactly the message, CR LF and the new buffer, and the message holds no CR LF |
| RobotSocket.OneLinePerRead | robot.py:55-59 | two complete lines arriving together come out one per read; the second stays buffered |
| RobotSocket.SendThenRead | robot.py:33-36 | a message without CR LF that is sent is cut off whole by one read |
| RobotSocket.RobotSocketClient.constructor | robot.py:24 | the buffer starts empty, nothing written, nothing announced |
| RobotSocket.RobotSocketClient.SendMessage | robot.py:31-38 | while connected, the message's bytes and CR LF are written and the message is announced; otherwise nothing is written or announced |
| RobotSocket.RobotSocketClient.OnReadyRead | robot.py:52-59 | the buffer becomes what follows the first CR LF of buffer plus data, or all of it; at most one response is decoded and announced, and a malformed one raises UnicodeDecodeError after the buffer is updated |
| Conveyor.Frame | scripts/conveyor_control.py:25 | encoding fails exactly when the command is not ASCII; otherwise the bytes are the command's bytes followed by a single CR |
| Conveyor.SendCmd | scripts/conveyor_control.py:22-31 | an encoding error or a failed exchange gives "ERR: " and the error text; a reply is returned as `Strip` of its text, so it has no surrounding whitespace and is no longer than the reply |
| Conveyor.SendsOneCarriageReturn | scripts/conveyor_control.py:25 | an ASCII command is sent as its bytes followed by exactly one CR |
| Conveyor.WriteReg | scripts/conveyor_control.py:33-34 | the PLC's answer to "WR reg value" with the value formatted to width four; for an ASCII register name the command always encodes, whatever the value |
| Conveyor.WriteRegAscii | scripts/conveyor_control.py:34 | the write command is ASCII whenever the register name is, since the formatted value is digits with an optional sign |
| Conveyor.Format04 | scripts/conveyor_control.py:34 | at least four characters; a negative value has a leading minus and then only digits, and any other value is all digits |
| Conveyor.Format04Digits | scripts/conveyor_control.py:34 | a value in 0..9999 is written as exactly four digits that read back as the value |
| Conveyor.Format04Edges | scripts/conveyor_control.py:34 | -1 is written "-001": the sign counts towards the width |
| Conveyor.Format04Wide | scripts/conveyor_control.py:34 | a value of five or more digits is written in full |
| Conveyor.DigitsOfEmpty | scripts/conveyor_control.py:38 | the digit filter is empty exactly when the reply has no digit |
| Conveyor.RegisterValue | scripts/conveyor_control.py:38-41 | -1 exactly when the reply has no digit; otherwise the value of the last up to four digits, so always in -1..9999 |
| Conveyor.ReadReg | scripts/conveyor_control.py:36-41 | the register value of the PLC's answer to "RD reg", always between -1 and 9999 |
| Conveyor.DigitsOf | scripts/conveyor_control.py:38 | only digits, and never longer than the reply |
| Conveyor.ReadBack | scripts/conveyor_control.py:38-40 | a reply of one to four digits, however padded with whitespace, reads back as its value |
| Conveyor.ReadRegKeepsLastFour | scripts/conveyor_control.py:40 | a reply of four or more digits reads as its last four |
| Conveyor.ReadRegOfFailure | scripts/conveyor_control.py:30-41 | a failed exchange reads as -1 exactly when the error message has no digit; otherwise the message's digits are read as a register value |
| NetworkMonitoring.IsOnline | utils/network_monitor.py:57-61 | offline exactly when the ping returned None or raised |
| NetworkMonitoring.FalseCountsOnline | utils/network_monitor.py:59 | a ping returning False counts as online, because only None is offline |
| NetworkMonitoring.InitialStatus | utils/network_monitor.py:33 | one entry per configured device, each offline |
| NetworkMonitoring.NetworkMonitor.constructor | utils/network_monitor.py:29-33 | every configured device starts offline, and nothing has been announced |
| NetworkMonitoring.NetworkMonitor.GetStatus | utils/network_monitor.py:68-70 | the stored status, and False for an unknown device |
| NetworkMonitoring.NetworkMonitor.GetAllStatuses | utils/network_monitor.py:72-74 | a value copy with the same devices, each with the status `GetStatus` reports |
| NetworkMonitoring.NetworkMonitor.CheckDevice | utils/network_monitor.py:55-66 | the device's entry becomes the new result and every other entry is unchanged; the change is announced exactly when the stored value differed, which includes a device not yet in the map |
| Builtins.Strip | models/robot_socket_v2.py:45 | `str.strip()`: no whitespace at either end, never longer than the input |
| Builtins.StripOfPadding | models/robot_socket_v2.py:45 | trailing whitespace does not change the stripped text |
| Builtins.StripTrimmed | models/robot_socket_v2.py:45 | text with no whitespace at its ends strips to itself |
| Builtins.Index | controllers/app_controller.py:72 | Python indexing: negative indices count from the end, anything outside raises IndexError |
| Builtins.Slice | scripts/conveyor_control.py:40 | Python slicing with clamped bounds, which is the ordinary slice when the bounds are in range |
| Builtins.NatToStringValue | scripts/conveyor_control.py:34 | the decimal numeral of n reads back as n |
| Builtins.IntToString | models/robot_socket_v2.py:35 | `str(int)`: a minus sign exactly for negative numbers |
| Builtins.FloorDiv | tools.py:77 | Python's `//`: the quotient rounded towards minus infinity |
| Builtins.FlattenAppend | utils/tools.py:103 | flattening distributes over concatenation of group lists |
| Utf8.DecodeEncode | models/robot_socket_v2.py:41-45 | strict UTF-8 decoding of an encoded text gives the text back |
| Utf8.EncodeAppend | models/robot_socket_v2.py:41 | encoding distributes over concatenation |
| Utf8.EncodeChar | models/robot_socket_v2.py:41 | one to four bytes per character: one byte with the same value for ASCII, otherwise a lead byte and continuation bytes |
| Utf8.EncodeAscii | scripts/conveyor_control.py:25 | ASCII text encodes to one byte per character with the same value |
| Utf8.Encode | models/robot_socket_v2.py:41 | at least one byte per character |
| Utf8.Decode | models/robot_socket_v2.py:45 | the only error is UnicodeDecodeError; decoded text has at most one character per byte |
| StableSort.Sort | utils/tools.py:87 | the result is ordered by the key and is a permutation of the input |
| StableSort.SortIsStable | tools.py:77 | elements with equal keys keep their input order |
| StableSort.SortCharacterized | tools.py:77 | the sort is the only ordering by the key that keeps equal keys in input order |

## Left out

- I/O: socket connections, timeouts, `recv` sizes, logging, and the OpenCV drawing itself. An image is the list of circles drawn on it.
- The grayscale-to-colour conversion in `draw_points` of `utils/tools.py` is left out because it is pixel work.
- The homography (`map_image_to_robot`, `_convert_to_robot_coords`'s matrix product) is floating-point matrix maths. It is a function given to the model, so robot coordinates are exact reals.
- Distances are compared squared in the neighbour search and the test filter instead of through `sqrt`. This orders spots exactly as the square-rooted distances do.
- The left/right links are returned as index sequences rather than set on the input objects, so aliasing of the caller's centroid objects is not modelled.
- `process_centroids` is given either only `(x, y)` pairs or only centroid objects, not a list mixing both.
- `is_centroid_updated_recently` and `time.sleep` depend on the wall clock.
- The pause flag is toggled by a GUI click. That handler runs on the same thread, inside the nested Qt event loop that waits for each robot reply (models/robot_socket.py:90), so in the program the flag can change in the middle of `insert_all_in_view`, between two robot calls. Here it can only change between method calls.
- Image coordinates of centroids are integers here. The dataclass declares `img_x` and `img_y` as floats (utils/centroid.py:15-16), and a float position is not modelled: the boundary, neighbour and grid tests are taken over integer pixel positions.
- The Qt signals are ghost sequences of the values emitted. Receivers are not modelled.
- Configuration (`config.yml`) is read at import time in the program. Here it is passed in.
- `read_reg` counts only ASCII digits. Python's `isdigit` also accepts other Unicode digits.
- `send_cmd` decodes the reply with `errors="ignore"`. The exchange here already returns text, so the decoding is not modelled.
- RobotProtocol.FloatString: a float argument is given by its value in hundredths, so IEEE rounding of `:.2f` and the rendering "-0.00" of a small negative float are not modelled.
- AppManaging.AppManager.CellAction, AppManaging.AppManager.MoveToCapturePosition, AppManaging.AppManager.InsertBatch: the `RobotManager` that `app_manager.py` builds (robot_manager.py:8-42) has only `echo`, `jump_xy`, `insert_single`, `insert_all` and `close`. In the program, `self.robot.move`, `self.robot.insert` and `self.robot.jump` therefore raise AttributeError, so every `insert_batch` with a valid index raises at the move (app_manager.py:64). The model instead treats all three as requests to the robot of `Hardware.Rig`, like the controller's: a move is recorded with its full pose, an insert or jump with `u = 0`, and each answer is a boolean.
- Centroids.InCell, Centroids.CellDist2: the grid edges `x_min + i * x_step` and cell centres are exact rationals here. The source computes `(x_max - x_min) / 3` and the edges in floating point (utils/centroid.py:192-212), so a spot lying exactly on a computed edge may fall into a different cell there.
- Tools.DrawPoints, Tools.SortCentroids, LegacyTools.SortCentroids: the default arguments (`size=5`, `x_tolerance=30`) are not modelled; callers always pass the size and the tolerance.
- `RobotCommunicator` (futures, reconnects), the per-device ping threads and the `DEVICES` table are left out. The table's keys are a sequence of addresses.
- Centroids.EveryNthCharacterized: proved for a positive interval only. A negative interval selects the same positions, by Python's `%`, but the lemma does not state that.
- CentroidManager.Manager.ProcessCentroids: it does not promise that every spot in the boundary ends up in the ordering, because the walk can drop one (`Centroids.WalkCanDropSpot`).
