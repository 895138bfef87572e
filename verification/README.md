# Mouse-in-maze grid tracker: a Dafny model of the tracking core

The tracker takes a video of a mouse in a maze drawn as a 5×5 grid. It
produces a log of the grid cells the mouse enters. Two neural detectors do
the vision work: one finds the grid's cells, the other finds the mouse. This
project models the logic around them in `tracker.py`, the class
`MouseTracker`:

- **Calibration** (`find_squares_in_video`). Frames are tried from the middle
  of the video back to frame 0, then from just after the middle to the end.
  The first frame that can be read and shows exactly 25 cells gives the grid.
  The capture is then rewound to frame 0.
- **Grid canonicalisation** (`find_squares`). The 25 boxes are stably sorted
  on centre Y and cut into five rows of five. Each row is stably sorted on
  centre X.
- **Point-in-cell lookup** (`get_center`, `find_square`). It returns the first
  cell containing a point, with inclusive bounds, or -1.
- **Chess notation** (`get_chess_notation`). A cell is named by a letter A–E
  and a digit 1–5.
- **The occupancy log** (`process_frame`, `finalize_log`). Each frame bumps
  the frame counter. An entry is logged only when the located cell changes.
  The session starts from the reset in `start_tracking` in
  `ui/video_player.py`.

The model is functional. The tracker's fields form an immutable
`TrackerState`, and every call returns the next state. Both detectors are
parameters. The grid detector is a function `detect: F -> seq<seq<Box>>`
from an abstract frame type `F` to the detector's list of results, each a
list of boxes. The mouse detector's output for a frame is passed straight to
`ProcessFrame`. The video capture is a `Capture`: the frame count it reports,
the outcome of reading each position (`None` for a failed read) and the read
position.

Modules, one file each: `Wrappers` (Option), `Geometry` (boxes, centres,
lookup), `Sorting` (the stable sort and its facts), `Grid` (find_squares),
`Calibration` (find_squares_in_video), `Notation`, `Tracker`.

The main results:

- `Grid.CanonicalRecoversGrid`: take any ordering of the cells of a grid
  whose rows are strictly separated vertically and whose cells are strictly
  ordered left-to-right. Canonicalisation returns exactly that grid in
  row-major order. So cell 0 is the top-left cell and cell 24 the
  bottom-right one, whatever order the detector reported them in.
- `Calibration.FindSquaresInVideo`: the result is the grid of the first
  qualifying frame in search order. There is none exactly when no frame
  qualifies.
- `Tracker.SessionValid`: take a session from the reset through any sequence
  of frames. Consecutive entries name different cells, frame indices
  strictly increase, and the last entry is the previous cell.
  `Tracker.FinalizeNoOpWhenValid` follows: in such a state `finalize_log`
  appends nothing.

Three facts about the code shape the model:

- `process_frame`'s `break` leaves only the inner loop, so the cell comes
  from the first box of the *last* result that has a box
  (`Tracker.ObserveFrom`).
- `process_frame` logs a cell when the mouse enters it and makes it the
  previous cell, so `finalize_log` appends nothing in any reachable state
  (`Tracker.FinalizeNoOpWhenValid`, `Tracker.LastCellScenario`).
- `if squares:` holds exactly when 25 boxes were detected, because
  `find_squares` is non-empty exactly then (`Grid.FindSquares`).

## Model

| member | source | states |
|---|---|---|
| Geometry.Center | tracker.py:75-77 | each centre coordinate is the floor of the midpoint of the box's edges; a well-formed box contains its own centre |
| Geometry.FindSquare | tracker.py:79-84 | the result is -1 exactly when no box contains the point (inclusive bounds); otherwise it is an index in range whose box contains the point and no earlier box does |
| Geometry.FindSquareFrom | tracker.py:81-84 | the same as FindSquare, for the scan resumed at index i |
| Geometry.CenterLocatesAtOrBefore | tracker.py:76-84 | the centre of a well-formed cell i is located at an index between 0 and i |
| Geometry.CenterLocatesToOwnCell | tracker.py:76-84 | in a grid whose cells have pairwise disjoint interiors (neighbours may share an edge coordinate), the centre of each cell at least two units wide and high is located at that cell's own index |
| Geometry.ContainedCenterMeets | tracker.py:76-84 | a box that contains (inclusive bounds) the centre of a box at least two units wide and high meets that box's interior |
| Sorting.SortBy | tracker.py:58 | the sort's output is a permutation of its input, has the same length, and its keys never decrease |
| Sorting.Insert | tracker.py:58 | inserting adds exactly the new box to the multiset and keeps a sorted sequence sorted |
| Sorting.SortByStable | tracker.py:58-62 | for every key value, the boxes with that key come out of the sort in the order they went in (the sort is stable, like Python's list.sort) |
| Sorting.SortedUnique | tracker.py:58-62 | two sorted permutations of a sequence in which no two different boxes share a key are equal |
| Sorting.SortByRecovers | tracker.py:62 | sorting any permutation of a strictly sorted row gives that row back |
| Grid.Boxes | tracker.py:45-55 | every detector result's boxes are all among the collected boxes, counted with multiplicity |
| Grid.BoxesSingle | tracker.py:47-55 | one result contributes exactly its boxes, in the detector's order |
| Grid.BoxesConcat | tracker.py:47-55 | the boxes of earlier results come before those of later ones: collecting two runs of results is collecting each and concatenating |
| Grid.SortRowsFrom | tracker.py:59-63 | the rows sorted and concatenated from row `row` on have 5 cells per remaining row and hold exactly the cells of those rows |
| Grid.RowOfSortRowsFrom | tracker.py:60-63 | each 5-cell slice of the concatenated output is the X-sorted version of the matching row of the Y-sorted cells |
| Grid.Canonical | tracker.py:57-65 | a count other than 25 gives []; 25 boxes give 25 boxes that are a permutation of the input, with centre Y non-decreasing from each row to every later row and centre X non-decreasing within each row |
| Grid.CanonicalOrdered | tracker.py:58-63 | cutting the Y-sorted cells into rows and sorting each row on X gives the row-major order |
| Grid.FindSquares | tracker.py:43-65 | the boxes of all results are collected; the result is non-empty exactly when there are 25 of them, and it is then their row-major permutation |
| Grid.CanonicalOrderIndependent | tracker.py:58-63 | when no two different boxes share a centre Y, the output does not depend on the order the boxes arrive in |
| Grid.CanonicalRecoversGrid | tracker.py:57-64 | any ordering of the cells of a strictly row-major 5x5 grid canonicalises to that grid, so cell 0 is top-left and cell 24 bottom-right |
| Grid.PrefixRows | tracker.py:58-61 | after the Y sort of a permuted grid, the first k rows hold exactly the cells of the grid's first k rows |
| Grid.RowPermutation | tracker.py:60-61 | each 5-cell row cut from the Y-sorted cells of a permuted grid is a permutation of that row of the grid |
| Calibration.Down | tracker.py:29 | `range(m, -1, -1)` has m+1 elements, m, m-1, ..., 0, and none for negative m |
| Calibration.Up | tracker.py:29 | `range(a, b)` has b-a elements a, a+1, ..., b-1, and none when a >= b |
| Calibration.SearchOrder | tracker.py:24-29 | a count of 0 or less gives no candidates; otherwise there are n candidates, n/2 down to 0 at positions 0..n/2, then k at position k up to n-1 |
| Calibration.SearchOrderPermutation | tracker.py:28-29 | for n > 0 the order lists every frame 0..n-1 exactly once and nothing else |
| Calibration.TryCandidate | tracker.py:32-38 | a candidate gives a grid exactly when its frame reads and shows exactly 25 boxes, and the grid is find_squares of that frame |
| Calibration.FindSquaresInVideo | tracker.py:23-41 | no grid exactly when no candidate qualifies; otherwise the grid is find_squares of the first qualifying candidate in search order, it is row-major, and the position is rewound to 0; on failure the position is the last candidate, or untouched if there was none; the frames are never changed |
| Calibration.FirstQualifyingUnique | tracker.py:31-40 | only one candidate can be the first that qualifies, so the chosen grid is determined |
| Calibration.OnlyQualifyingFrameWins | tracker.py:28-40 | if exactly one frame of the video reads and shows 25 boxes, calibration selects that frame |
| Notation.ChessNotation | tracker.py:88-93 | indices 0..24 get a two-character name, a letter from A-E and a digit from 1-5; every other integer gets "Unknown" |
| Notation.ParseNotation | tracker.py:88-93 | a name parses to an index in 0..24 or to nothing |
| Notation.NotationOfCell | tracker.py:88-93 | the cell in row r and column c is named by the c-th letter and the r-th digit |
| Notation.NotationRoundTrip | tracker.py:88-93 | parsing the name of cell i gives i back |
| Notation.ParseRoundTrip | tracker.py:88-93 | every string that parses is the name of the index it parses to |
| Notation.NotationInjective | tracker.py:88-93 | distinct cells have distinct names |
| Notation.UnknownIsNoCell | tracker.py:88-93 | no cell is named "Unknown" |
| Tracker.StartTracking | ui/video_player.py:71-76 | the reset gives an empty log and a zero counter, keeps the cells, and is a valid state |
| Tracker.ObserveFrom | tracker.py:108-115 | with no box in any result the cell is unchanged; otherwise it is the lookup of the centre of the first box of the last result that has a box |
| Tracker.Observed | tracker.py:107-115 | the located cell is -1 or a cell index; it is -1 when no result has a box, and otherwise the lookup of the centre of the first box of the last result with a box |
| Tracker.Step | tracker.py:117-127 | the counter goes up by one; an entry (old counter, cell) is appended and becomes the previous cell exactly when the cell is not -1 and differs from the previous cell; otherwise log and previous cell are unchanged |
| Tracker.ProcessFrame | tracker.py:106-128 | it returns the located cell and advances the counter by one; at most one entry is appended, exactly when that cell is not -1 and not the previous cell; it is (old counter, cell) and becomes the previous cell; otherwise nothing else changes |
| Tracker.StepPreservesValid | tracker.py:117-127 | a frame step keeps the session invariant: valid cell indices, different cells in consecutive entries, strictly increasing frames below the counter, and the last entry being the previous cell |
| Tracker.ProcessFramePreservesValid | tracker.py:106-128 | process_frame keeps the session invariant |
| Tracker.Replay | tracker.py:117-127 | replaying located cells advances the counter by the number of frames, keeps the cells, and only extends the log |
| Tracker.ReplayPreservesValid | tracker.py:117-127 | any run of frames keeps the session invariant |
| Tracker.SteadyRunLogsAtMostOnce | tracker.py:117-125 | while the located cell stays c, with frames without a cell in between, at most one entry is logged, it names c, and none is logged if c was already the previous cell |
| Tracker.IdleFrames | tracker.py:117-127 | frames in which no cell is located only advance the counter |
| Tracker.ReplayConcat | tracker.py:117-127 | replaying two runs one after the other is replaying their concatenation |
| Tracker.TrackFrames | ui/video_player.py:88-91 | feeding frames to process_frame keeps the cells and advances the counter by the number of frames |
| Tracker.Observations | tracker.py:107-115 | the cell list has one located cell per frame, each -1 or a cell index |
| Tracker.TrackFramesIsReplay | tracker.py:106-128 | processing a sequence of frames is replaying the cells located in them |
| Tracker.SessionValid | ui/video_player.py:71-91 | every session started by start_tracking and fed any frames through process_frame satisfies the session invariant |
| Tracker.Finalize | tracker.py:130-138 | the counter, cells and previous cell are kept and the log only grows; an entry (counter-1, previous cell) is appended exactly when the previous cell is not -1 and the log is empty or ends with another cell |
| Tracker.FinalizeIdempotent | tracker.py:130-138 | finalizing twice gives the same state as finalizing once |
| Tracker.FinalizeNoOpWhenValid | tracker.py:130-138 | in every state a session can reach, finalize_log appends nothing |
| Tracker.LoggedCellsHaveNames | tracker.py:88-93 | with a 25-cell grid, every logged cell has a two-character chess name, never "Unknown" |
| Tracker.SteadyCellScenario | tracker.py:117-127 | cell 3 located in frames 0 to 5 gives the single entry (0, 3) |
| Tracker.LastCellScenario | tracker.py:117-138 | no cell in frames 0-9 and cell 7 in frames 10-14 give the single entry (10, 7), the counter 15, and no extra entry from finalize_log |

## Left out

- The two YOLO detectors (tracker.py:8-9, 44, 107) are opaque neural networks. They are parameters: a function from frames to results for the grid detector, and the results themselves for the mouse detector. The truncating `int(...)` of their float coordinates (tracker.py:49, 112) belongs to them: the model's boxes are already integers.
- OpenCV's capture is reduced to the reported frame count, one read outcome per position, and the position set by `cap.set` (tracker.py:24, 32-33, 39). OpenCV's advance of the position after a read is not visible in the source and is not modelled. `release` (tracker.py:102-104) and `open_video` (tracker.py:17-20), which only stores the calibration result, are left out.
- Elapsed time. `frame_count / fps` (tracker.py:119, 133) is floating point, so log entries keep only the frame index and the cell. `get_timestamp` (tracker.py:68-72) is unused. The HH:MM:SS:mmm formatting and the file writing of the export (ui/video_player.py:111-145) are floating point and I/O.
- Tracker.ProcessFrame: assumes the capture reports a non-zero frame rate. When it reports 0.0, `self.frame_count / fps` (tracker.py:119) raises ZeroDivisionError on every cell change, before the append, the `prev_square` update and `frame_count += 1`; the model logs and advances instead. The frame rate is a property of the opened file that the model does not carry, and the failure is an exception leaving the tracker, not a tracking rule.
- Tracker.Finalize: assumes the same non-zero frame rate. With 0.0, `finalize_log` raises at tracker.py:133 before its append whenever it would append; the model appends. Under Valid it never appends (`Tracker.FinalizeNoOpWhenValid`), so this matters only for states no session reaches.
- `MouseTracker.export_log` (tracker.py:95-100) is dead code and would fail on the tuple entries it reads. It is not modelled.
- The Qt widgets, timers, signals and dialogs (ui/video_player.py, ui/main_window.py, main.py) are GUI plumbing. The model borrows only the reset in `start_tracking` and the per-frame call of `process_frame`.
