/**
 * The blocking microphone capture `mic_capture_to_file` (components/mic/mic_capture.c): 16 kHz
 * mono 32-bit samples read in chunks of at most 512, zeroed while the recorder is paused, appended
 * to the file behind a WAV header that is rewritten in place about once a second and once more at
 * the end.
 *
 * The I2S driver, the recording and pause flags and the reads are inputs: one `MicTick` per pass of
 * the loop. The loop is specified by `Step` (one pass) and `Run` (the passes in order), and the
 * method `CaptureToFile` is proved to leave the file exactly as `CaptureSpec` says. The loop's
 * specification takes the header writer as a parameter (`Loop.header`); the capture uses
 * `RecorderHeader`, and `RecorderHeadersSafe` is the one fact about it the loop's proofs need.
 *
 * The loop computes its sample budget and its checkpoint test in 32-bit arithmetic, as the target
 * does (`TotalSamplesAsWritten`, `CheckpointDueAsWritten`); the corrected forms `TotalSamples` and
 * `CheckpointDue` are stated beside them with what they would guarantee.
 */
module MicCapture {
  import opened Common
  import opened Files
  import opened Wav

  const SamplesPerChunk: nat := 512
  const FlushIntervalMs: nat := 1000
  /** `SIZE_MAX` of the 32-bit target, the sample budget when the capture runs until stopped. */
  const SizeMax: nat := Uint32Modulus - 1

  /** The hardware and allocation results before the loop starts. */
  datatype Setup = Setup(channelErr: int, initErr: int, enableErr: int, openOk: bool, allocOk: bool)

  /**
   * What one pass of the loop observes: the recording flag (looked at only when the capture stops
   * on the button), the result code and bytes of `i2s_channel_read`, and the pause flag.
   */
  datatype MicTick = MicTick(recording: bool, readCode: int, readData: seq<byte>, paused: bool)

  /**
   * The loop's state: the file's bytes, what the last `fsync` made durable, the samples counted, the
   * next checkpoint time, the code to return and whether the loop has been left by a `break`.
   */
  datatype Capture = Capture(data: seq<byte>, synced: seq<byte>, captured: nat, nextFlushMs: nat,
    ret: int, stopped: bool)

  /**
   * What stays fixed during the loop: whether the file is a WAV file, whether the button stops it,
   * the sample budget and the header written for a given number of samples.
   */
  datatype Loop = Loop(wav: bool, stopOnButton: bool, total: nat, header: nat -> seq<byte>)

  function HeaderLen(wav: bool): nat
  {
    if wav then HeaderBytes else 0
  }

  /** The samples to capture: 16000 per second asked for, or `SIZE_MAX` when `seconds <= 0`. */
  function TotalSamples(seconds: int): nat
  {
    if seconds <= 0 then SizeMax else SampleRateHz * seconds
  }

  /** The same budget as the 32-bit target computes it: `16000 * seconds` wraps at 2^32. */
  function TotalSamplesAsWritten(seconds: int): nat
  {
    if seconds <= 0 then SizeMax else (SampleRateHz * seconds) % Uint32Modulus
  }

  /** The samples one read asks for: a chunk, or what is left of the budget if that is less. */
  function RequestedSamples(captured: nat, total: nat): (n: nat)
    requires captured <= total
    ensures n <= SamplesPerChunk && captured + n <= total
    ensures captured < total ==> n > 0
  {
    Min(SamplesPerChunk, total - captured)
  }

  /** Checkpoint test: the audio captured, in milliseconds, has reached the next checkpoint. */
  predicate CheckpointDue(captured: nat, nextFlushMs: nat)
  {
    captured * 1000 / SampleRateHz >= nextFlushMs
  }

  /** The same test as the 32-bit target evaluates it: `captured * 1000` wraps at 2^32. */
  predicate CheckpointDueAsWritten(captured: nat, nextFlushMs: nat)
  {
    (captured * 1000) % Uint32Modulus / SampleRateHz >= nextFlushMs
  }

  /** The bytes written for a chunk that was read: zeros while paused, the samples otherwise. */
  function ChunkBytes(got: seq<byte>, paused: bool): (r: seq<byte>)
    ensures |r| == |got|
  {
    if paused then Zeros(|got|) else got
  }

  /** The bytes a read delivers: what the driver returned, never more than was asked for. */
  function Got(c: Capture, cfg: Loop, t: MicTick): (got: seq<byte>)
    requires c.captured <= cfg.total
    ensures |got| <= SamplesPerChunk * BytesPerSample
    ensures c.captured + |got| / BytesPerSample <= cfg.total
  {
    Take(t.readData, RequestedSamples(c.captured, cfg.total) * BytesPerSample)
  }

  /** Whether a pass stops on the button. */
  predicate StopRequested(cfg: Loop, t: MicTick)
  {
    cfg.stopOnButton && !t.recording
  }

  /** The state a capture starts its loop in: the file holds a header declaring no data, if any. */
  function Start(cfg: Loop): Capture
  {
    Capture(if cfg.wav then cfg.header(0) else [], [], 0, FlushIntervalMs, EspOk, false)
  }

  /** One pass of the capture loop. */
  function Step(c: Capture, cfg: Loop, t: MicTick): Capture
    requires c.captured <= cfg.total
  {
    if StopRequested(cfg, t) then c.(stopped := true)
    else if t.readCode != EspOk then c.(ret := t.readCode, stopped := true)
    else
      var got := Got(c, cfg, t);
      var data := c.data + ChunkBytes(got, t.paused);
      var captured := c.captured + |got| / BytesPerSample;
      if cfg.wav && CheckpointDueAsWritten(captured, c.nextFlushMs) then
        Capture(Overwrite(data, 0, cfg.header(captured)), data, captured,
          c.nextFlushMs + FlushIntervalMs, c.ret, false)
      else
        Capture(data, c.synced, captured, c.nextFlushMs, c.ret, false)
  }

  /** Whether the loop goes round again. */
  predicate Running(c: Capture, total: nat)
  {
    !c.stopped && c.captured < total
  }

  /** The loop over the passes `ticks`; running out of them ends it where it is. */
  function Run(c: Capture, cfg: Loop, ticks: seq<MicTick>): (r: Capture)
    requires c.captured <= cfg.total
    ensures c.captured <= r.captured <= cfg.total && |r.data| >= |c.data|
    decreases |ticks|
  {
    if !Running(c, cfg.total) || ticks == [] then c
    else
      StepGrows(c, cfg, ticks[0]);
      Run(Step(c, cfg, ticks[0]), cfg, ticks[1..])
  }

  /** The final header rewrite, then `fclose`, which commits the file. */
  function Finish(c: Capture, cfg: Loop): Capture
  {
    var data := if cfg.wav then Overwrite(c.data, 0, cfg.header(c.captured)) else c.data;
    c.(data := data, synced := data)
  }

  /** The loop as `mic_capture_to_file` sets it up for `path` and `seconds`. */
  function CaptureLoop(path: string, seconds: int): Loop
  {
    Loop(HasWavExtension(path), seconds <= 0, TotalSamplesAsWritten(seconds), RecorderHeader)
  }

  /** What `mic_capture_to_file` returns and leaves: the code, the file (if created), the samples. */
  datatype Outcome = Outcome(ret: int, file: Option<seq<byte>>, captured: nat)

  function CaptureSpec(path: string, seconds: int, setup: Setup, ticks: seq<MicTick>): Outcome
  {
    if setup.channelErr != EspOk then Outcome(setup.channelErr, None, 0)
    else if setup.initErr != EspOk then Outcome(setup.initErr, None, 0)
    else if setup.enableErr != EspOk then Outcome(setup.enableErr, None, 0)
    else if !setup.openOk then Outcome(EspFail, None, 0)
    else if !setup.allocOk then Outcome(EspErrNoMem, Some([]), 0)
    else
      var cfg := CaptureLoop(path, seconds);
      var r := Run(Start(cfg), cfg, ticks);
      Outcome(r.ret, Some(Finish(r, cfg).data), r.captured)
  }

  // ---------------------------------------------------------------------------------------------
  // Properties of one pass

  lemma StepGrows(c: Capture, cfg: Loop, t: MicTick)
    requires c.captured <= cfg.total
    ensures var r := Step(c, cfg, t);
      c.captured <= r.captured <= cfg.total && |r.data| >= |c.data|
  {
  }

  /** Every header the writer produces is 44 bytes long. */
  ghost predicate HeadersSized(header: nat -> seq<byte>)
  {
    forall n: nat :: |header(n)| == HeaderBytes
  }

  /**
   * A pass that reads appends exactly the bytes read (up to the request), all zero while paused,
   * counts a sample per four bytes, and leaves every audio byte already in the file as it was.
   */
  lemma StepAppends(c: Capture, cfg: Loop, t: MicTick)
    requires c.captured <= cfg.total && |c.data| >= HeaderLen(cfg.wav) && HeadersSized(cfg.header)
    requires !StopRequested(cfg, t) && t.readCode == EspOk
    ensures Got(c, cfg, t) == Take(t.readData, RequestedSamples(c.captured, cfg.total) * BytesPerSample)
    ensures |Got(c, cfg, t)| <= SamplesPerChunk * BytesPerSample
    ensures |Step(c, cfg, t).data| == |c.data| + |Got(c, cfg, t)|
    ensures Step(c, cfg, t).data[|c.data|..] == ChunkBytes(Got(c, cfg, t), t.paused)
    ensures Step(c, cfg, t).data[HeaderLen(cfg.wav)..|c.data|] == c.data[HeaderLen(cfg.wav)..]
    ensures Step(c, cfg, t).captured == c.captured + |Got(c, cfg, t)| / BytesPerSample
    ensures !Step(c, cfg, t).stopped && Step(c, cfg, t).ret == c.ret
  {
    var got := Got(c, cfg, t);
    var data := c.data + ChunkBytes(got, t.paused);
    var captured := c.captured + |got| / BytesPerSample;
    assert data[|c.data|..] == ChunkBytes(got, t.paused);
    assert data[HeaderLen(cfg.wav)..|c.data|] == c.data[HeaderLen(cfg.wav)..];
    if cfg.wav && CheckpointDueAsWritten(captured, c.nextFlushMs) {
      var h := cfg.header(captured);
      assert |h| == HeaderBytes;
      var r := Overwrite(data, 0, h);
      assert Step(c, cfg, t).data == r;
      SameFrom(r, data, HeaderBytes, |c.data|);
    } else {
      assert Step(c, cfg, t).data == data;
    }
  }

  /** Two sequences of one length that agree from `k` on agree on every part from `k` on. */
  lemma SameFrom(x: seq<byte>, y: seq<byte>, k: nat, m: nat)
    requires |x| == |y| && k <= m <= |x| && x[k..] == y[k..]
    ensures x[m..] == y[m..] && x[k..m] == y[k..m]
  {
    assert x[m..] == x[k..][m - k..];
    assert y[m..] == y[k..][m - k..];
    assert x[k..m] == x[k..][..m - k];
    assert y[k..m] == y[k..][..m - k];
  }

  /**
   * A checkpoint, taken exactly when the WAV file's checkpoint test as the 32-bit target evaluates
   * it holds, makes the file durable as it stands, then rewrites the header for the samples counted
   * so far and moves the next checkpoint one second on; without one, the header and the durable
   * image stay as they were.
   */
  lemma StepCheckpoint(c: Capture, cfg: Loop, t: MicTick)
    requires c.captured <= cfg.total && |c.data| >= HeaderLen(cfg.wav) && HeadersSized(cfg.header)
    requires !StopRequested(cfg, t) && t.readCode == EspOk
    ensures var r := Step(c, cfg, t);
      if cfg.wav && CheckpointDueAsWritten(r.captured, c.nextFlushMs) then
        && r.data[..HeaderBytes] == cfg.header(r.captured)
        && |r.synced| == |r.data| && r.synced[HeaderBytes..] == r.data[HeaderBytes..]
        && r.synced[..HeaderBytes] == c.data[..HeaderBytes]
        && r.nextFlushMs == c.nextFlushMs + FlushIntervalMs
      else
        && r.data[..HeaderLen(cfg.wav)] == c.data[..HeaderLen(cfg.wav)]
        && r.synced == c.synced && r.nextFlushMs == c.nextFlushMs
  {
    var got := Got(c, cfg, t);
    var data := c.data + ChunkBytes(got, t.paused);
    var r := Step(c, cfg, t);
    assert data[..HeaderLen(cfg.wav)] == c.data[..HeaderLen(cfg.wav)];
    if cfg.wav && CheckpointDueAsWritten(r.captured, c.nextFlushMs) {
      assert r.synced == data;
    }
  }

  /** A pass that stops keeps the file, the count and the code, except for a failed read's code. */
  lemma StepStops(c: Capture, cfg: Loop, t: MicTick)
    requires c.captured <= cfg.total
    ensures var r := Step(c, cfg, t);
      && (r.stopped <==> StopRequested(cfg, t) || t.readCode != EspOk)
      && (r.stopped ==> r.data == c.data && r.synced == c.synced && r.captured == c.captured)
      && r.ret == (if !StopRequested(cfg, t) && t.readCode != EspOk then t.readCode else c.ret)
  {
  }

  // ---------------------------------------------------------------------------------------------
  // Invariants of the loop

  /**
   * Crash safety of a file image: it holds a well-formed header whose declared data size does not
   * exceed the bytes that follow it.
   */
  ghost predicate CrashSafe(image: seq<byte>)
  {
    && |image| >= HeaderBytes
    && ParseHeader(image[..HeaderBytes]).Some?
    && ParseHeader(image[..HeaderBytes]).value.dataBytes <= |image| - HeaderBytes
  }

  /** Every header the writer produces is 44 bytes, parses, and declares at most 4 bytes a sample. */
  ghost predicate HeadersSafe(header: nat -> seq<byte>)
  {
    forall n: nat :: |header(n)| == HeaderBytes && ParseHeader(header(n)).Some?
      && ParseHeader(header(n)).value.dataBytes <= BytesPerSample * n
  }

  /** The recorder's header writer is safe: it declares `DataBytes(n)`, at most `4 * n`. */
  lemma RecorderHeadersSafe()
    ensures HeadersSafe(RecorderHeader)
  {
    forall n: nat
      ensures |RecorderHeader(n)| == HeaderBytes && ParseHeader(RecorderHeader(n)).Some?
        && ParseHeader(RecorderHeader(n)).value.dataBytes <= BytesPerSample * n
    {
      HeaderRoundTrip(RecorderFormat(n));
    }
  }

  /**
   * What every pass keeps: the count within the budget, at least four bytes in the file for every
   * sample counted, and for a WAV file both the file and its last durable image crash-safe.
   */
  ghost predicate Inv(c: Capture, cfg: Loop)
  {
    && c.captured <= cfg.total
    && |c.data| >= HeaderLen(cfg.wav) + BytesPerSample * c.captured
    && (cfg.wav ==> CrashSafe(c.data) && (c.synced == [] || CrashSafe(c.synced)))
  }

  lemma HeaderIsCrashSafe(header: nat -> seq<byte>, captured: nat, image: seq<byte>)
    requires HeadersSafe(header)
    requires |image| >= HeaderBytes + BytesPerSample * captured
    requires image[..HeaderBytes] == header(captured)
    ensures CrashSafe(image)
  {
  }

  lemma StartInv(cfg: Loop)
    requires HeadersSafe(cfg.header)
    ensures Inv(Start(cfg), cfg)
  {
    if cfg.wav {
      HeaderIsCrashSafe(cfg.header, 0, cfg.header(0));
    }
  }

  /** An image that keeps a crash-safe image's header and only grows stays crash-safe. */
  lemma CrashSafeGrows(a: seq<byte>, b: seq<byte>)
    requires CrashSafe(a) && |b| >= |a| && b[..HeaderBytes] == a[..HeaderBytes]
    ensures CrashSafe(b)
  {
  }

  lemma StepInv(c: Capture, cfg: Loop, t: MicTick)
    requires Inv(c, cfg) && HeadersSafe(cfg.header)
    ensures Inv(Step(c, cfg, t), cfg)
  {
    var r := Step(c, cfg, t);
    StepStops(c, cfg, t);
    StepGrows(c, cfg, t);
    if !StopRequested(cfg, t) && t.readCode == EspOk {
      StepAppends(c, cfg, t);
      StepCheckpoint(c, cfg, t);
      var n := |r.data| - |c.data|;
      assert BytesPerSample * (n / BytesPerSample) <= n;
      assert |r.data| >= HeaderLen(cfg.wav) + BytesPerSample * r.captured;
      if cfg.wav {
        if CheckpointDueAsWritten(r.captured, c.nextFlushMs) {
          HeaderIsCrashSafe(cfg.header, r.captured, r.data);
          CrashSafeGrows(c.data, r.synced);
        } else {
          CrashSafeGrows(c.data, r.data);
        }
      }
    }
  }

  /**
   * `Run` keeps the invariant: the count never passes the budget and, for a WAV file, a crash at
   * any point leaves a durable image whose header does not claim more audio than it holds.
   */
  lemma {:induction false} RunInv(c: Capture, cfg: Loop, ticks: seq<MicTick>)
    requires Inv(c, cfg) && HeadersSafe(cfg.header)
    ensures Inv(Run(c, cfg, ticks), cfg)
    decreases |ticks|
  {
    if Running(c, cfg.total) && ticks != [] {
      StepInv(c, cfg, ticks[0]);
      RunInv(Step(c, cfg, ticks[0]), cfg, ticks[1..]);
    }
  }

  /** Every read returned a whole number of samples. */
  predicate AlignedReads(ticks: seq<MicTick>)
  {
    forall i :: 0 <= i < |ticks| ==> |ticks[i].readData| % BytesPerSample == 0
  }

  /** With whole-sample reads the audio in the file is exactly four bytes per sample counted. */
  lemma {:induction false} RunAligned(c: Capture, cfg: Loop, ticks: seq<MicTick>)
    requires c.captured <= cfg.total && |c.data| == HeaderLen(cfg.wav) + BytesPerSample * c.captured
    requires HeadersSized(cfg.header) && AlignedReads(ticks)
    ensures var r := Run(c, cfg, ticks);
      |r.data| == HeaderLen(cfg.wav) + BytesPerSample * r.captured
    decreases |ticks|
  {
    if Running(c, cfg.total) && ticks != [] {
      var t := ticks[0];
      if !StopRequested(cfg, t) && t.readCode == EspOk {
        StepAppends(c, cfg, t);
      }
      StepGrows(c, cfg, t);
      RunAligned(Step(c, cfg, t), cfg, ticks[1..]);
    }
  }

  /** Audio kept from `c` to `s` and from `s` to `r` is kept from `c` to `r`. */
  lemma KeptTwice(c: seq<byte>, s: seq<byte>, r: seq<byte>, k: nat)
    requires k <= |c| <= |s| <= |r|
    requires r[k..|s|] == s[k..] && s[k..|c|] == c[k..]
    ensures r[k..|c|] == c[k..]
  {
    forall i | k <= i < |c|
      ensures r[i] == c[i]
    {
      assert r[i] == r[k..|s|][i - k] == s[i];
      assert s[i] == s[k..|c|][i - k] == c[i];
    }
  }

  /** One pass never alters audio already written. */
  lemma StepKeepsAudio(c: Capture, cfg: Loop, t: MicTick)
    requires c.captured <= cfg.total && |c.data| >= HeaderLen(cfg.wav) && HeadersSized(cfg.header)
    ensures var s := Step(c, cfg, t);
      |s.data| >= |c.data| && s.data[HeaderLen(cfg.wav)..|c.data|] == c.data[HeaderLen(cfg.wav)..]
  {
    if !StopRequested(cfg, t) && t.readCode == EspOk {
      StepAppends(c, cfg, t);
    }
  }

  /** The loop never alters audio already written: it only appends after it. */
  lemma {:induction false} RunKeepsAudio(c: Capture, cfg: Loop, ticks: seq<MicTick>)
    requires c.captured <= cfg.total && |c.data| >= HeaderLen(cfg.wav) && HeadersSized(cfg.header)
    ensures var r := Run(c, cfg, ticks);
      r.data[HeaderLen(cfg.wav)..|c.data|] == c.data[HeaderLen(cfg.wav)..]
    decreases |ticks|
  {
    if Running(c, cfg.total) && ticks != [] {
      var s := Step(c, cfg, ticks[0]);
      StepKeepsAudio(c, cfg, ticks[0]);
      StepGrows(c, cfg, ticks[0]);
      RunKeepsAudio(s, cfg, ticks[1..]);
      KeptTwice(c.data, s.data, Run(s, cfg, ticks[1..]).data, HeaderLen(cfg.wav));
    }
  }

  /**
   * The code the loop ends with: OK, unless a read failed, in which case it is that read's code and
   * the loop stopped there.
   */
  lemma {:induction false} RunRet(c: Capture, cfg: Loop, ticks: seq<MicTick>)
    requires c.captured <= cfg.total
    ensures var r := Run(c, cfg, ticks);
      r.ret == c.ret || (r.stopped && r.ret != EspOk
        && exists i :: 0 <= i < |ticks| && ticks[i].readCode == r.ret)
    decreases |ticks|
  {
    if Running(c, cfg.total) && ticks != [] {
      var t := ticks[0];
      var s := Step(c, cfg, t);
      StepStops(c, cfg, t);
      StepGrows(c, cfg, t);
      RunRet(s, cfg, ticks[1..]);
      var r := Run(c, cfg, ticks);
      if r.ret != c.ret && r.ret != s.ret {
        var i :| 0 <= i < |ticks[1..]| && ticks[1..][i].readCode == r.ret;
        assert ticks[i + 1].readCode == r.ret;
      }
    }
  }

  // ---------------------------------------------------------------------------------------------
  // The outcome

  /**
   * After a capture into a ".wav" file, the final header parses and declares four bytes per sample
   * counted (cut to 32 bits), and the count stays within the budget as the 32-bit target computes
   * it, which is never more than 16000 samples per second asked for.
   */
  lemma OutcomeHeader(path: string, seconds: int, setup: Setup, ticks: seq<MicTick>)
    requires setup.channelErr == EspOk && setup.initErr == EspOk && setup.enableErr == EspOk
    requires setup.openOk && setup.allocOk
    ensures var o := CaptureSpec(path, seconds, setup, ticks);
      && o.file.Some?
      && o.captured <= TotalSamplesAsWritten(seconds) <= TotalSamples(seconds)
      && (HasWavExtension(path) ==>
        && |o.file.value| >= HeaderBytes + BytesPerSample * o.captured
        && ParseHeader(o.file.value[..HeaderBytes]) == Some(RecorderFormat(o.captured))
        && RecorderFormat(o.captured).dataBytes == DataBytes(o.captured))
  {
    var cfg := CaptureLoop(path, seconds);
    TotalSamplesAsWrittenBounded(seconds);
    RecorderHeadersSafe();
    StartInv(cfg);
    RunInv(Start(cfg), cfg, ticks);
    var r := Run(Start(cfg), cfg, ticks);
    if cfg.wav {
      HeaderRoundTrip(RecorderFormat(r.captured));
      assert Finish(r, cfg).data[..HeaderBytes] == RecorderHeader(r.captured);
    }
  }

  /**
   * With whole-sample reads, the data size the final header declares is exactly the audio in the
   * file, as long as that is below 4 GiB.
   */
  lemma OutcomeDeclaresAudio(path: string, seconds: int, setup: Setup, ticks: seq<MicTick>)
    requires setup.channelErr == EspOk && setup.initErr == EspOk && setup.enableErr == EspOk
    requires setup.openOk && setup.allocOk && HasWavExtension(path) && AlignedReads(ticks)
    ensures var o := CaptureSpec(path, seconds, setup, ticks);
      && o.file.Some? && |o.file.value| == HeaderBytes + BytesPerSample * o.captured
      && (BytesPerSample * o.captured < Uint32Modulus ==>
        DataBytes(o.captured) == |o.file.value| - HeaderBytes)
  {
    var cfg := CaptureLoop(path, seconds);
    RecorderHeadersSafe();
    var r := Run(Start(cfg), cfg, ticks);
    RunAligned(Start(cfg), cfg, ticks);
    var o := CaptureSpec(path, seconds, setup, ticks);
    assert o.file.value == Finish(r, cfg).data && o.captured == r.captured;
  }

  /** A capture that got going returns OK unless a read failed, and then that read's code. */
  lemma OutcomeRet(path: string, seconds: int, setup: Setup, ticks: seq<MicTick>)
    requires setup.channelErr == EspOk && setup.initErr == EspOk && setup.enableErr == EspOk
    requires setup.openOk && setup.allocOk
    ensures var o := CaptureSpec(path, seconds, setup, ticks);
      o.ret == EspOk || exists i :: 0 <= i < |ticks| && ticks[i].readCode == o.ret
  {
    var cfg := CaptureLoop(path, seconds);
    RunRet(Start(cfg), cfg, ticks);
  }

  // ---------------------------------------------------------------------------------------------
  // 32-bit arithmetic in the source

  /**
   * On the 32-bit target `captured * 1000` wraps once 4294968 samples (about 268 s) are counted:
   * at 269 s of audio the checkpoint is due but the test as written does not see it, and no value
   * the wrapped product can take reaches that checkpoint again.
   */
  lemma CheckpointWraps()
    ensures CheckpointDue(4304000, 269000) && !CheckpointDueAsWritten(4304000, 269000)
    ensures forall captured: nat :: !CheckpointDueAsWritten(captured, 269000)
  {
    forall captured: nat
      ensures !CheckpointDueAsWritten(captured, 269000)
    {
      var m := (captured * 1000) % Uint32Modulus;
      assert m < Uint32Modulus;
      assert m / SampleRateHz <= 268435;
    }
  }

  /** The test as written never holds for a checkpoint at 269 s or later. */
  lemma NoLateCheckpoint(captured: nat, nextFlushMs: nat)
    requires nextFlushMs >= 269000
    ensures !CheckpointDueAsWritten(captured, nextFlushMs)
  {
    assert (captured * 1000) % Uint32Modulus / SampleRateHz <= 268435;
  }

  /**
   * The loop as written takes no checkpoint once the next one is due at 269 s or later: for the
   * rest of the capture the header stays as it is, the durable image stays as it is, and the next
   * checkpoint stays where it is.
   */
  lemma {:induction false} RunSkipsLateCheckpoints(c: Capture, cfg: Loop, ticks: seq<MicTick>)
    requires c.captured <= cfg.total && |c.data| >= HeaderLen(cfg.wav) && HeadersSized(cfg.header)
    requires c.nextFlushMs >= 269000
    ensures var r := Run(c, cfg, ticks);
      && r.data[..HeaderLen(cfg.wav)] == c.data[..HeaderLen(cfg.wav)]
      && r.synced == c.synced && r.nextFlushMs == c.nextFlushMs
    decreases |ticks|
  {
    if Running(c, cfg.total) && ticks != [] {
      var t := ticks[0];
      var s := Step(c, cfg, t);
      StepGrows(c, cfg, t);
      if !StopRequested(cfg, t) && t.readCode == EspOk {
        NoLateCheckpoint(s.captured, c.nextFlushMs);
        StepCheckpoint(c, cfg, t);
      } else {
        StepStops(c, cfg, t);
      }
      RunSkipsLateCheckpoints(s, cfg, ticks[1..]);
      var r := Run(s, cfg, ticks[1..]);
      assert r.data[..HeaderLen(cfg.wav)] == s.data[..HeaderLen(cfg.wav)];
    }
  }

  /** Below the wrap the two tests agree. */
  lemma CheckpointAgreesBelowWrap(captured: nat, nextFlushMs: nat)
    requires captured * 1000 < Uint32Modulus
    ensures CheckpointDue(captured, nextFlushMs) == CheckpointDueAsWritten(captured, nextFlushMs)
  {
  }

  /** The corrected test fires at every whole second of audio, however long the capture. */
  lemma CheckpointDueEverySecond(seconds: nat)
    ensures CheckpointDue(SampleRateHz * seconds, 1000 * seconds)
    ensures seconds > 0 ==> !CheckpointDue(SampleRateHz * seconds - 1, 1000 * seconds)
  {
  }

  /**
   * `16000 * seconds` wraps too, for durations from 268436 s on: 268436 s asks for 8704 samples,
   * about half a second; the corrected budget is 16000 samples for every second asked for.
   */
  lemma TotalSamplesWraps()
    ensures TotalSamplesAsWritten(268436) == 8704
    ensures TotalSamples(268436) == 16000 * 268436
  {
  }

  /**
   * The corrected budget is exactly the duration asked for: 16000 samples a second, which the
   * reported `captured_samples / 16000` reads back as that many seconds.
   */
  lemma TotalSamplesPerSecond(seconds: int)
    requires seconds > 0
    ensures TotalSamples(seconds) == SampleRateHz * seconds
    ensures TotalSamples(seconds) / SampleRateHz == seconds
  {
  }

  /**
   * The request as the 32-bit target computes it: `captured_samples + samples_to_read` wraps at
   * 2^32, and a wrapped sum never exceeds the budget.
   */
  function RequestedSamplesAsWritten(captured: nat, total: nat): nat
    requires captured <= total
  {
    if (captured + SamplesPerChunk) % Uint32Modulus > total then total - captured
    else SamplesPerChunk
  }

  /**
   * The two requests agree until the count comes within a chunk of 2^32 samples. Past that, with
   * the button's `SIZE_MAX` budget, the request as written asks for a whole chunk although fewer
   * samples are left.
   */
  lemma RequestedAgreesBelowWrap(captured: nat, total: nat)
    requires captured <= total
    ensures captured + SamplesPerChunk < Uint32Modulus ==>
      RequestedSamplesAsWritten(captured, total) == RequestedSamples(captured, total)
    ensures RequestedSamplesAsWritten(SizeMax - 100, SizeMax) == SamplesPerChunk
      && RequestedSamples(SizeMax - 100, SizeMax) == 100
  {
  }

  /** The budget as written never exceeds the corrected one. */
  lemma TotalSamplesAsWrittenBounded(seconds: int)
    ensures TotalSamplesAsWritten(seconds) <= TotalSamples(seconds)
  {
  }

  /** Below the wrap the two budgets agree. */
  lemma TotalSamplesAgreeBelowWrap(seconds: int)
    requires SampleRateHz * seconds < Uint32Modulus
    ensures TotalSamples(seconds) == TotalSamplesAsWritten(seconds)
  {
  }

  // ---------------------------------------------------------------------------------------------
  // The capture routine

  /**
   * One pass of the loop in `mic_capture_to_file` on the open file: the stop check, the read, the
   * write (zeroed while paused) and the checkpoint. `stop` is set where the source breaks out.
   */
  method Pass(f: File, cfg: Loop, captured: nat, nextFlushMs: nat, t: MicTick)
    returns (stop: bool, ret: int, captured': nat, nextFlushMs': nat)
    requires f.Valid() && f.pos == |f.data| && captured <= cfg.total
    modifies f
    ensures f.Valid() && f.pos == |f.data|
    ensures Capture(f.data, f.synced, captured', nextFlushMs', ret, stop)
      == Step(Capture(old(f.data), old(f.synced), captured, nextFlushMs, EspOk, false), cfg, t)
  {
    ghost var c := Capture(f.data, f.synced, captured, nextFlushMs, EspOk, false);
    captured', nextFlushMs' := captured, nextFlushMs;
    if cfg.stopOnButton && !t.recording {
      return true, EspOk, captured', nextFlushMs';
    }
    var bytesToRead := RequestedSamples(captured, cfg.total) * BytesPerSample;
    ret := t.readCode;
    if ret != EspOk {
      return true, ret, captured', nextFlushMs';
    }
    stop := false;
    var got := Take(t.readData, bytesToRead);
    assert got == Got(c, cfg, t);
    var samples := WriteChunk(f, got, t.paused);
    captured' := captured + samples;
    if cfg.wav && CheckpointDueAsWritten(captured', nextFlushMs) {
      Checkpoint(f, cfg.header(captured'));
      nextFlushMs' := nextFlushMs + FlushIntervalMs;
    }
  }

  /**
   * The write of one read: when bytes were read, they are appended (zeroed while paused) and
   * `samples` is the number of whole samples they hold.
   */
  method WriteChunk(f: File, got: seq<byte>, paused: bool) returns (samples: nat)
    requires f.Valid() && f.pos == |f.data|
    modifies f
    ensures f.Valid() && f.pos == |f.data|
    ensures f.data == old(f.data) + ChunkBytes(got, paused) && f.synced == old(f.synced)
    ensures samples == |got| / BytesPerSample
  {
    samples := 0;
    if |got| > 0 {
      var buffer := got;
      if paused {
        buffer := Zeros(|got|);
      }
      OverwriteAtEnd(f.data, buffer);
      f.Write(buffer);
      samples := |got| / BytesPerSample;
    } else {
      assert old(f.data) + ChunkBytes(got, paused) == f.data;
    }
  }

  /**
   * A checkpoint: flush and sync what is written, rewrite the header in place, and go back to the
   * end of the file.
   */
  method Checkpoint(f: File, header: seq<byte>)
    requires f.Valid() && f.pos == |f.data|
    modifies f
    ensures f.Valid() && f.pos == |f.data|
    ensures f.synced == old(f.data) && f.data == Overwrite(old(f.data), 0, header)
  {
    f.Sync();
    f.Rewind();
    f.Write(header);
    f.SeekEnd();
  }

  /**
   * The `while` loop of `mic_capture_to_file`, on the file holding the initial header: it runs the
   * passes until the samples asked for are captured, the button stops it or a read fails.
   */
  method RunLoop(f: File, cfg: Loop, ticks: seq<MicTick>) returns (ret: int, captured: nat)
    requires f.Valid() && f.pos == |f.data|
    requires f.data == Start(cfg).data && f.synced == Start(cfg).synced
    modifies f
    ensures f.Valid() && f.pos == |f.data|
    ensures var r := Run(Start(cfg), cfg, ticks);
      f.data == r.data && f.synced == r.synced && captured == r.captured && ret == r.ret
  {
    var nextFlushMs: nat := FlushIntervalMs;
    captured := 0;
    ret := EspOk;
    ghost var start := Start(cfg);
    var stop := false;
    var i := 0;
    while captured < cfg.total && i < |ticks|
      invariant f.Valid() && f.pos == |f.data|
      invariant 0 <= i <= |ticks| && captured <= cfg.total && ret == EspOk
      invariant Run(start, cfg, ticks)
        == Run(Capture(f.data, f.synced, captured, nextFlushMs, ret, false), cfg, ticks[i..])
      decreases |ticks| - i
    {
      assert ticks[i..][0] == ticks[i] && ticks[i..][1..] == ticks[i + 1..];
      stop, ret, captured, nextFlushMs := Pass(f, cfg, captured, nextFlushMs, ticks[i]);
      i := i + 1;
      if stop {
        break;
      }
    }
    assert Run(start, cfg, ticks) == Capture(f.data, f.synced, captured, nextFlushMs, ret, stop);
  }

  /** `mic_capture_to_file`, from the I2S set-up to the closed file. */
  method CaptureToFile(path: string, seconds: int, setup: Setup, ticks: seq<MicTick>)
    returns (ret: int, capturedSeconds: nat, f: File?)
    ensures var o := CaptureSpec(path, seconds, setup, ticks);
      && ret == o.ret && capturedSeconds == o.captured / SampleRateHz
      && (f == null <==> o.file.None?)
      && (f != null ==> fresh(f) && f.data == o.file.value && f.synced == f.data)
  {
    if setup.channelErr != EspOk {
      return setup.channelErr, 0, null;
    }
    if setup.initErr != EspOk {
      return setup.initErr, 0, null;
    }
    if setup.enableErr != EspOk {
      return setup.enableErr, 0, null;
    }
    if !setup.openOk {
      return EspFail, 0, null;
    }
    f := new File();
    var cfg := CaptureLoop(path, seconds);
    if !setup.allocOk {
      f.Sync();
      return EspErrNoMem, 0, f;
    }
    if cfg.wav {
      f.Write(cfg.header(0));
    }
    var captured;
    ret, captured := RunLoop(f, cfg, ticks);
    if cfg.wav {
      f.Rewind();
      f.Write(cfg.header(captured));
    }
    f.Sync();
    capturedSeconds := captured / SampleRateHz;
  }
}
