/**
 * The MJPEG video recorder of components/camera/camera_ov2640.c: a record task that appends every
 * camera frame carrying JPEG start- and end-of-image markers (ITU-T T.81 Annex B, Table B.1) to a
 * file while the recorder is recording, writes a black placeholder frame instead while it is
 * paused, drops and counts frames without the markers and makes the file durable every 4 MiB; and
 * the guard around the one record task handle.
 *
 * The recording and pause flags and the frame buffers are inputs: one `VideoTick` per pass of the
 * loop. The loop is specified by `VideoStep` and `VideoRun`; `Recorder.RecordTask` is proved to
 * leave the file as `VideoRun` says, and the lemmas relate `VideoRun` to the list of frames kept.
 */
module Camera {
  import opened Common
  import opened Files

  /** `VIDEO_FLUSH_BYTES`. */
  const FlushBytes: nat := 4 * 1024 * 1024
  /** The size of the record task's path buffer, `char path[64]`. */
  const TaskPathSize: nat := 64

  /** A JPEG marker is 0xFF followed by the marker code; SOI is 0xD8 and EOI is 0xD9. */
  const MarkerPrefix: byte := 0xFF
  const StartOfImage: byte := 0xD8
  const EndOfImage: byte := 0xD9

  /** The frame check of the record loop: at least 4 bytes, starting with SOI, ending with EOI. */
  predicate IsJpegFrame(b: seq<byte>)
  {
    && |b| >= 4
    && b[0] == MarkerPrefix && b[1] == StartOfImage
    && b[|b| - 2] == MarkerPrefix && b[|b| - 1] == EndOfImage
  }

  /** The frame check accepts exactly the frames that start with SOI and end with EOI. */
  lemma JpegFrameMarkers(b: seq<byte>)
    ensures IsJpegFrame(b) <==>
      |b| >= 4 && b[..2] == [MarkerPrefix, StartOfImage] && b[|b| - 2..] == [MarkerPrefix, EndOfImage]
  {
    if |b| >= 4 && b[..2] == [MarkerPrefix, StartOfImage] && b[|b| - 2..] == [MarkerPrefix, EndOfImage] {
      assert b[0] == b[..2][0] && b[1] == b[..2][1];
      assert b[|b| - 2] == b[|b| - 2..][0] && b[|b| - 1] == b[|b| - 2..][1];
    }
  }

  /**
   * What one pass of the loop observes: the recording and pause flags and the frame buffer
   * `esp_camera_fb_get` returned (`None` when it returned NULL).
   */
  datatype VideoTick = VideoTick(recording: bool, paused: bool, frame: Option<seq<byte>>)

  /**
   * The record loop's state: the file's bytes, what the last `fsync` made durable, the bytes written
   * since then and the bad and good frame counts.
   */
  datatype Video = Video(data: seq<byte>, synced: seq<byte>, sinceFlush: nat, bad: nat, good: nat)

  /** Whether a pass writes the placeholder: paused, with a non-empty black frame. */
  predicate WritesPlaceholder(black: seq<byte>, t: VideoTick)
  {
    t.paused && |black| > 0
  }

  /** Whether a pass drops a frame: one was delivered, the placeholder is not due, it fails the check. */
  predicate DropsFrame(black: seq<byte>, t: VideoTick)
  {
    t.frame.Some? && !WritesPlaceholder(black, t) && !IsJpegFrame(t.frame.value)
  }

  /** The bytes one pass appends to the file: the placeholder, a valid frame, or nothing. */
  function Appended(black: seq<byte>, t: VideoTick): (r: seq<byte>)
    ensures r != [] ==> t.frame.Some?
  {
    if t.frame.None? then []
    else if WritesPlaceholder(black, t) then black
    else if IsJpegFrame(t.frame.value) then t.frame.value
    else []
  }

  /** Makes the file durable once 4 MiB have been written since the last time. */
  function FlushIfDue(v: Video): Video
  {
    if v.sinceFlush >= FlushBytes then v.(synced := v.data, sinceFlush := 0) else v
  }

  /** One pass of the record loop (one that sees the recording flag set). */
  function VideoStep(v: Video, black: seq<byte>, t: VideoTick): Video
  {
    if t.frame.None? then v
    else if WritesPlaceholder(black, t) then
      FlushIfDue(v.(data := v.data + black, sinceFlush := v.sinceFlush + |black|))
    else if !IsJpegFrame(t.frame.value) then v.(bad := v.bad + 1)
    else
      var frame := t.frame.value;
      FlushIfDue(v.(data := v.data + frame, sinceFlush := v.sinceFlush + |frame|, good := v.good + 1))
  }

  /** The loop over the passes `ticks`: it ends at the first pass that sees recording off. */
  function VideoRun(v: Video, black: seq<byte>, ticks: seq<VideoTick>): Video
    decreases |ticks|
  {
    if ticks == [] || !ticks[0].recording then v
    else VideoRun(VideoStep(v, black, ticks[0]), black, ticks[1..])
  }

  // ---------------------------------------------------------------------------------------------
  // Reference definitions: the passes that run, what they append, what they drop

  /** The passes the loop runs: those before the first one that sees recording off. */
  function Recorded(ticks: seq<VideoTick>): (r: seq<VideoTick>)
    ensures |r| <= |ticks| && r == ticks[..|r|]
    ensures forall i :: 0 <= i < |r| ==> r[i].recording
    ensures |r| < |ticks| ==> !ticks[|r|].recording
  {
    if ticks == [] || !ticks[0].recording then []
    else
      var rest := Recorded(ticks[1..]);
      assert ticks[..|rest| + 1] == [ticks[0]] + ticks[1..][..|rest|];
      [ticks[0]] + rest
  }

  /** The bytes appended by the passes `ts`, in order. */
  function Written(black: seq<byte>, ts: seq<VideoTick>): seq<byte>
    decreases |ts|
  {
    if ts == [] then [] else Appended(black, ts[0]) + Written(black, ts[1..])
  }

  /** The number of passes in `ts` that drop their frame. */
  function Dropped(black: seq<byte>, ts: seq<VideoTick>): nat
    decreases |ts|
  {
    if ts == [] then 0 else (if DropsFrame(black, ts[0]) then 1 else 0) + Dropped(black, ts[1..])
  }

  /** The number of passes in `ts` that write a live frame. */
  function Kept(black: seq<byte>, ts: seq<VideoTick>): nat
    decreases |ts|
  {
    if ts == [] then 0
    else
      var t := ts[0];
      (if t.frame.Some? && !WritesPlaceholder(black, t) && IsJpegFrame(t.frame.value) then 1 else 0)
      + Kept(black, ts[1..])
  }

  // ---------------------------------------------------------------------------------------------
  // Properties of one pass and of the loop

  /**
   * One pass appends `Appended` and counts a dropped frame exactly when it drops one and a good one
   * exactly when it writes a live frame; a dropped or missing frame writes nothing.
   */
  lemma StepEffect(v: Video, black: seq<byte>, t: VideoTick)
    ensures var r := VideoStep(v, black, t);
      && r.data == v.data + Appended(black, t)
      && r.bad == v.bad + (if DropsFrame(black, t) then 1 else 0)
      && r.good == v.good + (if t.frame.Some? && !WritesPlaceholder(black, t)
           && IsJpegFrame(t.frame.value) then 1 else 0)
      && (Appended(black, t) == [] ==> r.synced == v.synced && r.sinceFlush == v.sinceFlush)
  {
    if t.frame.None? || (!WritesPlaceholder(black, t) && !IsJpegFrame(t.frame.value)) {
      assert Appended(black, t) == [];
    }
  }

  /**
   * While paused with a placeholder, a delivered frame is replaced by the placeholder whatever it
   * holds; while paused without one, the live frame is checked and kept as when recording.
   */
  lemma PausedFrames(v: Video, black: seq<byte>, t: VideoTick)
    requires t.paused && t.frame.Some?
    ensures |black| > 0 ==> VideoStep(v, black, t).data == v.data + black
    ensures |black| == 0 ==>
      VideoStep(v, black, t).data == v.data + (if IsJpegFrame(t.frame.value) then t.frame.value else [])
  {
  }

  /**
   * What the loop keeps between passes: the durable image is a prefix of the file, the bytes past it
   * are those written since the last flush, and there are fewer than 4 MiB of them.
   */
  predicate VideoInv(v: Video)
  {
    && |v.synced| <= |v.data| && v.synced == v.data[..|v.synced|]
    && v.sinceFlush == |v.data| - |v.synced|
    && v.sinceFlush < FlushBytes
  }

  lemma StepInv(v: Video, black: seq<byte>, t: VideoTick)
    requires VideoInv(v)
    ensures VideoInv(VideoStep(v, black, t))
  {
    var r := VideoStep(v, black, t);
    StepEffect(v, black, t);
    if Appended(black, t) != [] && r.sinceFlush != 0 {
      assert r.data[..|r.synced|] == v.data[..|v.synced|];
    }
  }

  /**
   * The file the loop leaves is the file it started with followed by the placeholders and valid
   * frames of the passes that ran, in order; the counters grow by the frames dropped and kept.
   */
  lemma {:induction false} RunWrites(v: Video, black: seq<byte>, ticks: seq<VideoTick>)
    ensures var r := VideoRun(v, black, ticks);
      && r.data == v.data + Written(black, Recorded(ticks))
      && r.bad == v.bad + Dropped(black, Recorded(ticks))
      && r.good == v.good + Kept(black, Recorded(ticks))
    decreases |ticks|
  {
    if ticks != [] && ticks[0].recording {
      var s := VideoStep(v, black, ticks[0]);
      StepEffect(v, black, ticks[0]);
      RunWrites(s, black, ticks[1..]);
      assert Recorded(ticks)[1..] == Recorded(ticks[1..]);
      assert v.data + Appended(black, ticks[0]) + Written(black, Recorded(ticks[1..]))
        == v.data + Written(black, Recorded(ticks));
    }
  }

  /** Every pass keeps the durable image a prefix and fewer than 4 MiB unflushed. */
  lemma {:induction false} RunInv(v: Video, black: seq<byte>, ticks: seq<VideoTick>)
    requires VideoInv(v)
    ensures VideoInv(VideoRun(v, black, ticks))
    decreases |ticks|
  {
    if ticks != [] && ticks[0].recording {
      StepInv(v, black, ticks[0]);
      RunInv(VideoStep(v, black, ticks[0]), black, ticks[1..]);
    }
  }

  /** Only the recording flag ends the loop: missing and dropped frames do not. */
  lemma {:induction false} OnlyRecordingEndsLoop(ticks: seq<VideoTick>)
    requires forall i :: 0 <= i < |ticks| ==> ticks[i].recording
    ensures Recorded(ticks) == ticks
    decreases |ticks|
  {
    if ticks != [] {
      OnlyRecordingEndsLoop(ticks[1..]);
    }
  }

  // ---------------------------------------------------------------------------------------------
  // Frame size

  /** The camera frame sizes the firmware names; only VGA is used. */
  datatype FrameSize = Vga | OtherSize(code: nat)

  /**
   * `s_frame_size_to_dim`: every frame size maps to 640 x 480, so the black frame's size check
   * (`width <= 0 || height <= 0`) never fails.
   */
  function FrameSizeToDim(size: FrameSize): (dim: (int, int))
    ensures dim.0 > 0 && dim.1 > 0
  {
    match size
    case Vga => (640, 480)
    case OtherSize(_) => (640, 480)
  }

  /** The frame size asked for does not change the dimensions. */
  lemma FrameSizeIgnored(a: FrameSize, b: FrameSize)
    ensures FrameSizeToDim(a) == FrameSizeToDim(b)
  {
  }

  // ---------------------------------------------------------------------------------------------
  // The record task and its handle

  /** The path the record task opens: what `strncpy` into `char path[64]` keeps, at most 63 characters. */
  function TaskPath(path: string): (r: string)
    ensures |r| < TaskPathSize && |r| <= |path| && r == path[..|r|]
    ensures |path| < TaskPathSize ==> r == path
  {
    if |path| < TaskPathSize then path else path[..TaskPathSize - 1]
  }

  /**
   * The camera's global state: whether it was initialised, the running record task (by the path it
   * records to), and the black placeholder frame (empty when there is none).
   */
  class Recorder {
    var ready: bool
    var task: Option<string>
    const black: seq<byte>

    /** The state `camera_app_init` leaves, with no record task running. */
    constructor (ready: bool, black: seq<byte>)
      ensures this.ready == ready && this.black == black && task.None?
    {
      this.ready := ready;
      this.black := black;
      task := None;
    }

    /** `camera_app_is_recording`: a record task is running. */
    method IsRecording() returns (r: bool)
      ensures r <==> task.Some?
    {
      r := task.Some?;
    }

    /**
     * `camera_app_start_record(path)`: refuses when the camera is not ready or a task is running;
     * otherwise, given the argument allocation and task creation results, starts the record task
     * for `path`. Only success leaves a task running.
     */
    method StartRecord(path: string, allocOk: bool, createOk: bool) returns (err: int)
      modifies this`task
      ensures !ready || old(task).Some? ==> err == EspErrInvalidState && task == old(task)
      ensures ready && old(task).None? ==>
        && err == (if !allocOk then EspErrNoMem else if !createOk then EspFail else EspOk)
        && (err == EspOk <==> task == Some(TaskPath(path)))
        && (err != EspOk ==> task.None?)
    {
      if !ready || task.Some? {
        return EspErrInvalidState;
      }
      if !allocOk {
        return EspErrNoMem;
      }
      if !createOk {
        task := None;
        return EspFail;
      }
      task := Some(TaskPath(path));
      return EspOk;
    }

    /**
     * `s_camera_record_task`, run to its end: opens its file (`openOk` is the result of
     * `fopen`), runs the loop over `ticks`, makes the file durable, closes it and clears the
     * handle. The file is `null` when it could not be opened.
     */
    method RecordTask(openOk: bool, ticks: seq<VideoTick>) returns (f: File?, bad: nat, good: nat)
      requires task.Some?
      modifies this`task
      ensures task.None?
      ensures !openOk ==> f == null && bad == 0 && good == 0
      ensures openOk ==> f != null && fresh(f)
      ensures openOk ==> (f != null &&
        var r := VideoRun(Video([], [], 0, 0, 0), black, ticks);
        f.data == r.data && f.synced == f.data && bad == r.bad && good == r.good)
    {
      if !openOk {
        task := None;
        return null, 0, 0;
      }
      f := new File();
      var sinceFlush: nat := 0;
      bad, good := 0, 0;
      var i := 0;
      while i < |ticks| && ticks[i].recording
        invariant 0 <= i <= |ticks| && f.Valid() && f.pos == |f.data| && fresh(f)
        invariant VideoRun(Video([], [], 0, 0, 0), black, ticks)
          == VideoRun(Video(f.data, f.synced, sinceFlush, bad, good), black, ticks[i..])
        decreases |ticks| - i
      {
        var t := ticks[i];
        assert ticks[i..][0] == t && ticks[i..][1..] == ticks[i + 1..];
        ghost var next := VideoStep(Video(f.data, f.synced, sinceFlush, bad, good), black, t);
        i := i + 1;
        if t.frame.None? {
          continue;
        }
        var frame := t.frame.value;
        if t.paused && |black| > 0 {
          OverwriteAtEnd(f.data, black);
          f.Write(black);
          sinceFlush := sinceFlush + |black|;
        } else {
          if |frame| < 4 || frame[0] != MarkerPrefix || frame[1] != StartOfImage
            || frame[|frame| - 2] != MarkerPrefix || frame[|frame| - 1] != EndOfImage
          {
            bad := bad + 1;
            continue;
          }
          OverwriteAtEnd(f.data, frame);
          f.Write(frame);
          sinceFlush := sinceFlush + |frame|;
          good := good + 1;
        }
        if sinceFlush >= FlushBytes {
          f.Sync();
          sinceFlush := 0;
        }
        assert Video(f.data, f.synced, sinceFlush, bad, good) == next;
      }
      f.Sync();
      task := None;
    }

    /**
     * `camera_app_wait_for_stop`: returns once the handle is clear. Without concurrency, a running
     * task is run to its end here (the only way its handle clears), with its file's open result
     * and its passes as inputs; the recorded file is returned when one was written.
     */
    method WaitForStop(openOk: bool, ticks: seq<VideoTick>) returns (video: Option<seq<byte>>)
      modifies this`task
      ensures task.None?
      ensures old(task).None? ==> video.None?
      ensures old(task).Some? ==>
        video == (if openOk then Some(VideoRun(Video([], [], 0, 0, 0), black, ticks).data) else None)
    {
      video := None;
      if task.Some? {
        var f, _, _ := RecordTask(openOk, ticks);
        if f != null {
          video := Some(f.data);
        }
      }
    }
  }

  /**
   * The video a record task leaves: the placeholders and valid frames of the passes before the
   * first one that sees recording off, in order, all of it durable.
   */
  lemma RecordedVideo(black: seq<byte>, ticks: seq<VideoTick>)
    ensures var r := VideoRun(Video([], [], 0, 0, 0), black, ticks);
      && r.data == Written(black, Recorded(ticks))
      && r.bad == Dropped(black, Recorded(ticks)) && r.good == Kept(black, Recorded(ticks))
      && VideoInv(r)
  {
    RunWrites(Video([], [], 0, 0, 0), black, ticks);
    RunInv(Video([], [], 0, 0, 0), black, ticks);
  }
}
