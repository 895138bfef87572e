/** The occupancy tracker (process_frame and finalize_log in tracker.py):
    a state machine over the frame counter, the previously logged cell and
    the log, which gains an entry only when the located cell changes. */
module Tracker {
  import opened Geometry
  import opened Notation

  /** One log entry: the frame at which a cell was entered, and the cell.
      The elapsed time the source stores beside it is frame / fps and is
      left out. */
  datatype Entry = Entry(frame: int, square: int)

  /** The tracker's fields: the calibrated cells, the frame counter, the
      previously logged cell (-1 for none) and the log. */
  datatype TrackerState = TrackerState(squares: seq<Box>, frameCount: int, prevSquare: int, log: seq<Entry>)

  /** The reset done when tracking starts (start_tracking in
      ui/video_player.py): empty log, counter 0, no previous cell. */
  function StartTracking(st: TrackerState): (r: TrackerState)
    ensures r.squares == st.squares
    ensures Valid(r) && r.log == [] && r.frameCount == 0
  {
    st.(log := [], frameCount := 0, prevSquare := -1)
  }

  /** What a session started by StartTracking and driven by Step keeps:
      logged cells are cell indices, consecutive entries name different
      cells, frames strictly increase and are all before the counter, and
      the last entry names the previous cell, which is -1 exactly when
      nothing has been logged. */
  predicate Valid(st: TrackerState) {
    && 0 <= st.frameCount
    && (forall k :: 0 <= k < |st.log| ==> 0 <= st.log[k].square < |st.squares|)
    && (forall k :: 0 <= k < |st.log| ==> 0 <= st.log[k].frame < st.frameCount)
    && (forall k :: 0 < k < |st.log| ==> st.log[k - 1].square != st.log[k].square)
    && (forall i, j :: 0 <= i < j < |st.log| ==> st.log[i].frame < st.log[j].frame)
    && (|st.log| == 0 <==> st.prevSquare == -1)
    && (|st.log| > 0 ==> st.log[|st.log| - 1].square == st.prevSquare)
  }

  /** The cell located from the detector results of one frame, scanning
      them from `current` on as the source's loop does: every result with
      a box overwrites the cell with the one found for its first box (the
      `break` leaves only the inner loop). */
  function ObserveFrom(results: seq<seq<Box>>, squares: seq<Box>, current: int): (c: int)
    ensures -1 <= current < |squares| ==> -1 <= c < |squares|
    ensures (forall k :: 0 <= k < |results| ==> results[k] == []) ==> c == current
    ensures forall k :: 0 <= k < |results| && results[k] != []
                        && (forall j :: k < j < |results| ==> results[j] == [])
                     ==> c == FindSquare(Center(results[k][0]), squares)
  {
    if |results| == 0 then current
    else
      var next := if results[0] != [] then FindSquare(Center(results[0][0]), squares) else current;
      var c := ObserveFrom(results[1..], squares, next);
      assert forall k :: 1 <= k < |results| ==> results[k] == results[1..][k - 1];
      c
  }

  /** The cell the object occupies in a frame: the first box of the last
      result that has any, located among the cells; -1 when no result has
      a box or the box's centre is in no cell. */
  function Observed(results: seq<seq<Box>>, squares: seq<Box>): (c: int)
    ensures -1 <= c < |squares|
    ensures (forall k :: 0 <= k < |results| ==> results[k] == []) ==> c == -1
    ensures forall k :: 0 <= k < |results| && results[k] != []
                        && (forall j :: k < j < |results| ==> results[j] == [])
                     ==> c == FindSquare(Center(results[k][0]), squares)
  {
    ObserveFrom(results, squares, -1)
  }

  /** The transition of one frame whose located cell is `current`. */
  function Step(st: TrackerState, current: int): (r: TrackerState)
    requires -1 <= current < |st.squares|
    ensures r.squares == st.squares && r.frameCount == st.frameCount + 1
    ensures current != -1 && current != st.prevSquare ==>
      r.log == st.log + [Entry(st.frameCount, current)] && r.prevSquare == current
    ensures current == -1 || current == st.prevSquare ==>
      r.log == st.log && r.prevSquare == st.prevSquare
  {
    var st' := if current != -1 && current != st.prevSquare
               then st.(log := st.log + [Entry(st.frameCount, current)], prevSquare := current)
               else st;
    st'.(frameCount := st.frameCount + 1)
  }

  /** process_frame, with the object detector's results for the frame as
      the parameter: the new state and the located cell it returns. */
  function ProcessFrame(st: TrackerState, results: seq<seq<Box>>): (r: (TrackerState, int))
    ensures r.1 == Observed(results, st.squares)
    ensures r.0.squares == st.squares && r.0.frameCount == st.frameCount + 1
    ensures |r.0.log| <= |st.log| + 1
    ensures |r.0.log| == |st.log| + 1 <==> r.1 != -1 && r.1 != st.prevSquare
    ensures |r.0.log| == |st.log| + 1 ==>
      r.0.log == st.log + [Entry(st.frameCount, r.1)] && r.0.prevSquare == r.1
    ensures |r.0.log| == |st.log| ==> r.0.log == st.log && r.0.prevSquare == st.prevSquare
  {
    var current := Observed(results, st.squares);
    (Step(st, current), current)
  }

  lemma StepPreservesValid(st: TrackerState, current: int)
    requires Valid(st) && -1 <= current < |st.squares|
    ensures Valid(Step(st, current))
  {
    var r := Step(st, current);
    if current != -1 && current != st.prevSquare {
      assert r.log[|st.log|] == Entry(st.frameCount, current);
      assert forall k :: 0 <= k < |st.log| ==> r.log[k] == st.log[k];
    }
  }

  lemma ProcessFramePreservesValid(st: TrackerState, results: seq<seq<Box>>)
    requires Valid(st)
    ensures Valid(ProcessFrame(st, results).0)
  {
    StepPreservesValid(st, Observed(results, st.squares));
  }

  /** Cells located in a run of frames are all cell indices. */
  predicate CellsIn(cells: seq<int>, squares: seq<Box>) {
    forall k :: 0 <= k < |cells| ==> -1 <= cells[k] < |squares|
  }

  /** The state after frames whose located cells are `cells`, in order. */
  function Replay(st: TrackerState, cells: seq<int>): (r: TrackerState)
    requires CellsIn(cells, st.squares)
    ensures r.squares == st.squares && r.frameCount == st.frameCount + |cells|
    ensures |st.log| <= |r.log| && r.log[..|st.log|] == st.log
    decreases |cells|
  {
    if |cells| == 0 then st else Replay(Step(st, cells[0]), cells[1..])
  }

  lemma {:induction false} ReplayPreservesValid(st: TrackerState, cells: seq<int>)
    requires Valid(st) && CellsIn(cells, st.squares)
    ensures Valid(Replay(st, cells))
    decreases |cells|
  {
    if |cells| > 0 {
      StepPreservesValid(st, cells[0]);
      ReplayPreservesValid(Step(st, cells[0]), cells[1..]);
    }
  }

  /** Deduplication: while the located cell stays `c` (frames with no
      located cell may come in between), at most one entry is logged, it
      names `c`, and nothing at all is logged if `c` was already the
      previous cell. */
  lemma {:induction false} SteadyRunLogsAtMostOnce(st: TrackerState, cells: seq<int>, c: int)
    requires 0 <= c < |st.squares| && CellsIn(cells, st.squares)
    requires forall k :: 0 <= k < |cells| ==> cells[k] == c || cells[k] == -1
    ensures |Replay(st, cells).log| <= |st.log| + 1
    ensures forall k :: |st.log| <= k < |Replay(st, cells).log| ==> Replay(st, cells).log[k].square == c
    ensures st.prevSquare == c ==> Replay(st, cells).log == st.log
    ensures Replay(st, cells).prevSquare == st.prevSquare || Replay(st, cells).prevSquare == c
    decreases |cells|
  {
    if |cells| > 0 {
      var st' := Step(st, cells[0]);
      SteadyRunLogsAtMostOnce(st', cells[1..], c);
      var r := Replay(st', cells[1..]);
      assert r == Replay(st, cells);
      if cells[0] == c && st.prevSquare != c {
        assert st'.prevSquare == c;
        assert r.log == st'.log;
        assert r.log[|st.log|] == Entry(st.frameCount, c);
      }
    }
  }

  /** The states passed through by feeding a sequence of frames' detector
      results to process_frame one after the other. */
  function TrackFrames(st: TrackerState, frames: seq<seq<seq<Box>>>): (r: TrackerState)
    ensures r.squares == st.squares && r.frameCount == st.frameCount + |frames|
    decreases |frames|
  {
    if |frames| == 0 then st else TrackFrames(ProcessFrame(st, frames[0]).0, frames[1..])
  }

  /** The cells located in each of a sequence of frames. */
  function Observations(frames: seq<seq<seq<Box>>>, squares: seq<Box>): (cells: seq<int>)
    ensures |cells| == |frames| && CellsIn(cells, squares)
    ensures forall k :: 0 <= k < |frames| ==> cells[k] == Observed(frames[k], squares)
  {
    seq(|frames|, k requires 0 <= k < |frames| => Observed(frames[k], squares))
  }

  /** Tracking frames is replaying the cells located in them. */
  lemma {:induction false} TrackFramesIsReplay(st: TrackerState, frames: seq<seq<seq<Box>>>)
    ensures TrackFrames(st, frames) == Replay(st, Observations(frames, st.squares))
    decreases |frames|
  {
    var cells := Observations(frames, st.squares);
    if |frames| > 0 {
      var st' := ProcessFrame(st, frames[0]).0;
      TrackFramesIsReplay(st', frames[1..]);
      assert Observations(frames[1..], st'.squares) == cells[1..];
    }
  }

  /** A whole session, from the reset through any frames, keeps Valid. */
  lemma SessionValid(st: TrackerState, frames: seq<seq<seq<Box>>>)
    ensures Valid(TrackFrames(StartTracking(st), frames))
  {
    var st0 := StartTracking(st);
    TrackFramesIsReplay(st0, frames);
    ReplayPreservesValid(st0, Observations(frames, st0.squares));
  }

  /** finalize_log: appends the previous cell at the last frame unless no
      cell was ever located or it is already the last entry. */
  function Finalize(st: TrackerState): (r: TrackerState)
    ensures r.squares == st.squares && r.frameCount == st.frameCount && r.prevSquare == st.prevSquare
    ensures |st.log| <= |r.log| <= |st.log| + 1 && r.log[..|st.log|] == st.log
    ensures |r.log| == |st.log| + 1 <==>
      st.prevSquare != -1 && (|st.log| == 0 || st.log[|st.log| - 1].square != st.prevSquare)
    ensures |r.log| == |st.log| + 1 ==> r.log[|st.log|] == Entry(st.frameCount - 1, st.prevSquare)
  {
    if st.prevSquare != -1 && (|st.log| == 0 || st.log[|st.log| - 1].square != st.prevSquare) then
      st.(log := st.log + [Entry(st.frameCount - 1, st.prevSquare)])
    else
      st
  }

  /** Finalizing twice is finalizing once. */
  lemma FinalizeIdempotent(st: TrackerState)
    ensures Finalize(Finalize(st)) == Finalize(st)
  {
  }

  /** In every state a session can reach, finalizing appends nothing: the
      previous cell was logged when it was entered. */
  lemma FinalizeNoOpWhenValid(st: TrackerState)
    requires Valid(st)
    ensures Finalize(st) == st
  {
  }

  /** Every logged cell of a 25-cell grid has a chess name. */
  lemma LoggedCellsHaveNames(st: TrackerState, k: int)
    requires Valid(st) && |st.squares| == 25 && 0 <= k < |st.log|
    ensures ChessNotation(st.log[k].square) != "Unknown"
    ensures |ChessNotation(st.log[k].square)| == 2
  {
  }

  /** The object sits in cell 3 for frames 0 to 5: one entry, at frame 0. */
  lemma SteadyCellScenario(st: TrackerState)
    requires |st.squares| == 25
    ensures Replay(StartTracking(st), [3, 3, 3, 3, 3, 3]).log == [Entry(0, 3)]
  {
    var s0 := StartTracking(st);
    var s1 := Step(s0, 3);
    assert s1.log == [Entry(0, 3)] && s1.prevSquare == 3;
    SteadyRunLogsAtMostOnce(s1, [3, 3, 3, 3, 3], 3);
    assert Replay(s0, [3, 3, 3, 3, 3, 3]) == Replay(s1, [3, 3, 3, 3, 3]);
  }

  lemma {:induction false} ReplayConcat(st: TrackerState, a: seq<int>, b: seq<int>)
    requires CellsIn(a + b, st.squares)
    ensures CellsIn(a, st.squares) && CellsIn(b, st.squares)
    ensures Replay(st, a + b) == Replay(Replay(st, a), b)
    decreases |a|
  {
    assert forall k :: 0 <= k < |a| ==> a[k] == (a + b)[k];
    assert forall k :: 0 <= k < |b| ==> b[k] == (a + b)[|a| + k];
    if |a| == 0 {
      assert a + b == b;
    } else {
      assert (a + b)[1..] == a[1..] + b;
      ReplayConcat(Step(st, a[0]), a[1..], b);
    }
  }

  /** Frames in which no cell is located only advance the counter. */
  lemma {:induction false} IdleFrames(st: TrackerState, cells: seq<int>)
    requires forall k :: 0 <= k < |cells| ==> cells[k] == -1
    ensures CellsIn(cells, st.squares)
    ensures Replay(st, cells) == st.(frameCount := st.frameCount + |cells|)
    decreases |cells|
  {
    if |cells| > 0 {
      IdleFrames(Step(st, -1), cells[1..]);
    }
  }

  /** Cell 7 is entered at frame 10 and kept until the video ends after
      frame 14: the entry is made at frame 10 and finalizing adds nothing. */
  lemma LastCellScenario(st: TrackerState)
    requires |st.squares| == 25
    ensures var r := Replay(StartTracking(st), seq(10, _ => -1) + seq(5, _ => 7));
            r.log == [Entry(10, 7)] && r.frameCount == 15 && Finalize(r) == r
  {
    var s0 := StartTracking(st);
    var idle: seq<int> := seq(10, _ => -1);
    var busy: seq<int> := seq(5, _ => 7);
    assert CellsIn(idle + busy, s0.squares);
    ReplayConcat(s0, idle, busy);
    IdleFrames(s0, idle);
    var s10 := Replay(s0, idle);
    assert s10.log == [] && s10.prevSquare == -1 && s10.frameCount == 10;
    var s11 := Step(s10, 7);
    assert s11.log == [Entry(10, 7)] && s11.prevSquare == 7;
    assert busy[1..] == seq(4, _ => 7);
    SteadyRunLogsAtMostOnce(s11, busy[1..], 7);
    assert Replay(s10, busy) == Replay(s11, busy[1..]);
  }
}
