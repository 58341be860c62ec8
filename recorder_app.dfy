/**
 * The recorder's orchestration in main/sd_card_example_main.c: the SD card is exposed over USB mass
 * storage until a recording starts; then USB is stopped, the card is mounted for the firmware, the
 * video record task is started and the audio is captured into files numbered by a running index,
 * and once the video task has finished the card goes back to USB.
 *
 * The TinyUSB calls, `stat` and the inputs of the capture loops are oracle values; one
 * `SessionInput` holds what one recording session observes.
 */
module RecorderApp {
  import opened Common
  import opened Wav
  import MicCapture
  import Camera

  const MountPoint: string := "/sdcard"
  const MountStepMs: int := 50
  const MountTimeoutMs: int := 2000

  // ---------------------------------------------------------------------------------------------
  // Waiting for the mount

  /** The number of `stat` polls `s_wait_for_mount` makes before giving up. */
  function Polls(timeoutMs: int): nat
  {
    if timeoutMs <= 0 then 0 else (timeoutMs + MountStepMs - 1) / MountStepMs
  }

  /** The polls cover the timeout: the last one starts before it and one more would start after it. */
  lemma PollsCoverTimeout(timeoutMs: int)
    requires timeoutMs > 0
    ensures MountStepMs * (Polls(timeoutMs) - 1) < timeoutMs <= MountStepMs * Polls(timeoutMs)
  {
  }

  /** Whether poll `i` finds the mount point; polls past the observed ones fail. */
  predicate StatOk(stats: seq<bool>, i: nat)
  {
    i < |stats| && stats[i]
  }

  /**
   * `s_wait_for_mount`: polls the mount point every 50 ms until a poll succeeds or `timeoutMs` have
   * been waited. `stats` are the results of the successive `stat` calls; `polls` the calls made.
   */
  method WaitForMount(timeoutMs: int, stats: seq<bool>) returns (mounted: bool, polls: nat)
    ensures mounted <==> exists i :: 0 <= i < Polls(timeoutMs) && StatOk(stats, i)
    ensures mounted ==> 0 < polls <= Polls(timeoutMs) && StatOk(stats, polls - 1)
    ensures !mounted ==> polls == Polls(timeoutMs)
    ensures forall i :: 0 <= i < polls - 1 ==> !StatOk(stats, i)
  {
    var waited := 0;
    polls := 0;
    while waited < timeoutMs
      invariant waited == MountStepMs * polls
      invariant polls <= Polls(timeoutMs)
      invariant waited < timeoutMs ==> polls < Polls(timeoutMs)
      invariant waited >= timeoutMs ==> polls == Polls(timeoutMs)
      invariant forall i :: 0 <= i < polls ==> !StatOk(stats, i)
      decreases timeoutMs - waited
    {
      polls := polls + 1;
      if StatOk(stats, polls - 1) {
        return true, polls;
      }
      waited := waited + MountStepMs;
    }
    mounted := false;
  }

  /** With the 2000 ms timeout the firmware uses, the mount point is polled 40 times. */
  lemma MountPolls()
    ensures Polls(MountTimeoutMs) == 40
  {
  }

  // ---------------------------------------------------------------------------------------------
  // USB mass storage

  /** The USB mass-storage driver as `s_usb_start` and `s_usb_stop` drive it. */
  class Usb {
    var active: bool
    /** How often the driver was installed and uninstalled. */
    ghost var installs: nat
    ghost var uninstalls: nat

    constructor ()
      ensures !active && installs == 0 && uninstalls == 0
    {
      active := false;
      installs, uninstalls := 0, 0;
    }

    /**
     * `s_usb_start`: when the driver is active, returns OK without installing it again; otherwise
     * installs it (`installErr` is the result) and is active exactly when that succeeded.
     */
    method Start(installErr: int) returns (err: int)
      modifies this
      ensures old(active) ==> err == EspOk && active && installs == old(installs)
      ensures !old(active) ==>
        err == installErr && (active <==> installErr == EspOk) && installs == old(installs) + 1
      ensures uninstalls == old(uninstalls)
    {
      if active {
        return EspOk;
      }
      err := installErr;
      installs := installs + 1;
      if err == EspOk {
        active := true;
      }
    }

    /**
     * `s_usb_stop`: does nothing when the driver is inactive; otherwise uninstalls it
     * (`uninstallErr` is the result) and stays active when that failed.
     */
    method Stop(uninstallErr: int)
      modifies this
      ensures !old(active) ==> !active && uninstalls == old(uninstalls)
      ensures old(active) ==> (active <==> uninstallErr != EspOk) && uninstalls == old(uninstalls) + 1
      ensures installs == old(installs)
    {
      if !active {
        return;
      }
      uninstalls := uninstalls + 1;
      if uninstallErr != EspOk {
        return;
      }
      active := false;
    }
  }

  // ---------------------------------------------------------------------------------------------
  // File names

  function DigitChar(d: nat): (c: char)
    requires d < 10
    ensures '0' <= c <= '9'
  {
    ('0' as int + d) as char
  }

  predicate IsDigit(c: char)
  {
    '0' <= c <= '9'
  }

  predicate AllDigits(s: string)
  {
    forall i :: 0 <= i < |s| ==> IsDigit(s[i])
  }

  /** The decimal digits of `n`, as `%u` prints them. */
  function Decimal(n: nat): (s: string)
    ensures 1 <= |s| && AllDigits(s)
    decreases n
  {
    if n < 10 then [DigitChar(n)] else Decimal(n / 10) + [DigitChar(n % 10)]
  }

  function Repeat(c: char, k: nat): (s: string)
    ensures |s| == k && forall i :: 0 <= i < k ==> s[i] == c
  {
    seq(k, _ => c)
  }

  /** `%04u`: the decimal digits of `n`, zero-padded on the left to at least 4 characters. */
  function Pad4(n: nat): (s: string)
    ensures |s| >= 4 && AllDigits(s)
  {
    var d := Decimal(n);
    if |d| >= 4 then d else Repeat('0', 4 - |d|) + d
  }

  /** The number a string of decimal digits denotes. */
  function DecimalValue(s: string): nat
    requires AllDigits(s)
    decreases |s|
  {
    if s == [] then 0
    else DecimalValue(s[..|s| - 1]) * 10 + (s[|s| - 1] as int - '0' as int)
  }

  lemma {:induction false} DecimalRoundTrip(n: nat)
    ensures DecimalValue(Decimal(n)) == n
    decreases n
  {
    if n >= 10 {
      DecimalRoundTrip(n / 10);
      var s := Decimal(n);
      assert s[..|s| - 1] == Decimal(n / 10);
    }
  }

  lemma {:induction false} LeadingZeros(k: nat, s: string)
    requires AllDigits(s)
    ensures AllDigits(Repeat('0', k) + s) && DecimalValue(Repeat('0', k) + s) == DecimalValue(s)
    decreases |s|
  {
    var z := Repeat('0', k);
    assert AllDigits(z + s);
    if s == [] {
      ZerosValue(k);
      assert z + s == z;
    } else {
      LeadingZeros(k, s[..|s| - 1]);
      assert (z + s)[..|z + s| - 1] == z + s[..|s| - 1];
    }
  }

  lemma {:induction false} ZerosValue(k: nat)
    ensures DecimalValue(Repeat('0', k)) == 0
    decreases k
  {
    if k > 0 {
      ZerosValue(k - 1);
      assert Repeat('0', k)[..k - 1] == Repeat('0', k - 1);
    }
  }

  /** Zero padding loses nothing: the padded digits still denote `n`. */
  lemma Pad4RoundTrip(n: nat)
    ensures DecimalValue(Pad4(n)) == n
  {
    DecimalRoundTrip(n);
    var d := Decimal(n);
    if |d| < 4 {
      LeadingZeros(4 - |d|, d);
    }
  }

  /** `MOUNT_POINT "/mic_%04u.wav"`. */
  function MicPath(index: nat): string
  {
    MountPoint + "/mic_" + Pad4(index) + ".wav"
  }

  /** `MOUNT_POINT "/VID%04u.MJP"`. */
  function VideoPath(index: nat): string
  {
    MountPoint + "/VID" + Pad4(index) + ".MJP"
  }

  /** The audio file is a WAV file: the capture writes a header into it. */
  lemma MicPathIsWav(index: nat)
    ensures HasWavExtension(MicPath(index))
  {
    var p := MicPath(index);
    assert p[|p| - 4..] == ".wav";
    WavExtensionIsSuffix(p);
  }

  /** Different indices name different audio files and different video files. */
  lemma PathsDistinct(i: nat, j: nat)
    requires i != j
    ensures MicPath(i) != MicPath(j) && VideoPath(i) != VideoPath(j)
  {
    Pad4RoundTrip(i);
    Pad4RoundTrip(j);
    var a, b := MicPath(i), MicPath(j);
    assert a[12..|a| - 4] == Pad4(i) && b[12..|b| - 4] == Pad4(j);
    var c, d := VideoPath(i), VideoPath(j);
    assert c[11..|c| - 4] == Pad4(i) && d[11..|d| - 4] == Pad4(j);
  }

  /** The powers of ten. */
  function Pow10(k: nat): nat
  {
    if k == 0 then 1 else 10 * Pow10(k - 1)
  }

  lemma {:induction false} DecimalLength(n: nat, k: nat)
    requires 1 <= k && n < Pow10(k)
    ensures |Decimal(n)| <= k
    decreases k
  {
    if n >= 10 {
      assert k > 1;
      DecimalLength(n / 10, k - 1);
    }
  }

  /** A 32-bit index has at most 10 digits, so the video path always fits the record task's path buffer. */
  lemma VideoPathFits(index: nat)
    requires index < Uint32Modulus
    ensures |VideoPath(index)| < Camera.TaskPathSize
    ensures Camera.TaskPath(VideoPath(index)) == VideoPath(index)
  {
    assert Pow10(10) == 10000000000;
    DecimalLength(index, 10);
  }

  /** The file index after a recording: one more, wrapping at 2^32 as the firmware's `uint32_t` does. */
  function NextIndex(index: nat): nat
  {
    (index + 1) % Uint32Modulus
  }

  /** The name shown after a recording: what follows the last '/', or the whole path without one. */
  function BaseName(path: string): (r: string)
    ensures '/' !in r
    ensures |r| <= |path| && r == path[|path| - |r|..]
    ensures '/' !in path ==> r == path
    ensures '/' in path ==> |r| < |path| && path[|path| - |r| - 1] == '/'
  {
    match LastIndexOf(path, '/')
    case None => path
    case Some(i) => path[i + 1..]
  }

  /** The file name of a microphone recording holds no directory separator. */
  lemma MicNameHasNoSlash(index: nat)
    ensures '/' !in "mic_" + Pad4(index) + ".wav"
  {
    var name := "mic_" + Pad4(index) + ".wav";
    forall k | 0 <= k < |name|
      ensures name[k] != '/'
    {
      if 4 <= k < |name| - 4 {
        assert name[k] == Pad4(index)[k - 4];
      }
    }
  }

  /** The audio file's name is the "mic_" part of its path. */
  lemma MicBaseName(index: nat)
    ensures BaseName(MicPath(index)) == "mic_" + Pad4(index) + ".wav"
  {
    var p := MicPath(index);
    var name := "mic_" + Pad4(index) + ".wav";
    assert p == "/sdcard/" + name;
    MicNameHasNoSlash(index);
    var r := LastIndexOf(p, '/');
    assert p[7] == '/';
    assert r.Some?;
    assert p[8..] == name;
  }

  // ---------------------------------------------------------------------------------------------
  // The record/USB loop of `app_main`

  datatype MountMode = MountUsb | MountApp

  /** What one recording session observes, in the order the session consults it. */
  datatype SessionInput = SessionInput(
    uninstallErr: int, switchAppErr: int, stats: seq<bool>,
    spawnAllocOk: bool, spawnCreateOk: bool,
    mic: MicCapture.Setup, micTicks: seq<MicCapture.MicTick>,
    videoOpenOk: bool, videoTicks: seq<Camera.VideoTick>,
    switchUsbErr: int, installErr: int)

  /**
   * What the video task of a session leaves in its file: the frames of `s.videoTicks` when the task
   * was spawned and opened its file, nothing otherwise.
   */
  function SessionVideo(spawned: bool, s: SessionInput, black: seq<byte>): Option<seq<byte>>
  {
    if spawned && s.videoOpenOk then Some(Camera.VideoRun(Camera.Video([], [], 0, 0, 0), black, s.videoTicks).data)
    else None
  }

  /**
   * The steps of a session, as the firmware takes them. Each step records what it observed: whether
   * the USB driver was still active after the stop, the path the video task was started with,
   * whether the card was mounted for the application while the audio was captured, and whether a
   * video task was running when the card went back to USB.
   */
  datatype Event =
    | UsbStopped(usbActive: bool)
    | AppMountFailed
    | AppMounted
    | CameraSpawned(videoPath: string)
    | AudioCaptured(micPath: string, ret: int, mountedForApp: bool)
    | CameraIdle
    | UsbMounted(cameraRecording: bool)
    | UsbRestarted

  /** The position of each kind of step in a session. */
  function Rank(e: Event): nat
  {
    match e
    case UsbStopped(_) => 0
    case AppMountFailed => 1
    case AppMounted => 1
    case CameraSpawned(_) => 2
    case AudioCaptured(_, _, _) => 3
    case CameraIdle => 4
    case UsbMounted(_) => 5
    case UsbRestarted => 6
  }

  /** A session's steps come in the firmware's order, each at most once. */
  ghost predicate InOrder(events: seq<Event>)
  {
    forall i, j :: 0 <= i < j < |events| ==> Rank(events[i]) < Rank(events[j])
  }

  /** Whether a session started the video task. */
  ghost predicate Spawned(events: seq<Event>)
  {
    exists k :: 0 <= k < |events| && events[k].CameraSpawned?
  }

  /** Every video task a session started records to `path`. */
  ghost predicate SpawnedFor(events: seq<Event>, path: string)
  {
    forall k :: 0 <= k < |events| && events[k].CameraSpawned? ==> events[k].videoPath == path
  }

  /** Every time a session handed the card back to USB, no video task was running. */
  ghost predicate UsbAfterVideo(events: seq<Event>)
  {
    forall k :: 0 <= k < |events| && events[k].UsbMounted? ==> !events[k].cameraRecording
  }

  /**
   * What a session logs between the mount for the application and the hand-back to USB: the video
   * task (when one started) recording to `spawn`, the audio capture with the card mounted for the
   * application, and the video task's stop.
   */
  ghost function CaptureLog(spawn: Option<string>, micPath: string, ret: int): seq<Event>
  {
    (if spawn.Some? then [CameraSpawned(spawn.value)] else [])
      + [AudioCaptured(micPath, ret, true), CameraIdle]
  }

  /** Two logs in order, the second ranked after the first, concatenate to a log in order. */
  lemma ConcatInOrder(a: seq<Event>, b: seq<Event>)
    requires InOrder(a) && InOrder(b)
    requires a == [] || b == [] || Rank(a[|a| - 1]) < Rank(b[0])
    ensures InOrder(a + b)
  {
    var r := a + b;
    forall i, j | 0 <= i < j < |r|
      ensures Rank(r[i]) < Rank(r[j])
    {
      if i < |a| <= j {
        assert Rank(r[i]) <= Rank(a[|a| - 1]) by {
          if i < |a| - 1 {
            assert Rank(a[i]) < Rank(a[|a| - 1]);
          }
        }
        assert Rank(b[0]) <= Rank(r[j]) by {
          if 0 < j - |a| {
            assert Rank(b[0]) < Rank(b[j - |a|]);
          }
        }
      }
    }
  }

  /** A concatenation started the video task exactly when one of its parts did. */
  lemma ConcatSpawned(a: seq<Event>, b: seq<Event>)
    ensures Spawned(a + b) <==> Spawned(a) || Spawned(b)
  {
    var r := a + b;
    if Spawned(r) {
      var k :| 0 <= k < |r| && r[k].CameraSpawned?;
      if k < |a| {
        assert a[k].CameraSpawned?;
      } else {
        assert b[k - |a|].CameraSpawned?;
      }
    }
    if Spawned(a) {
      var k :| 0 <= k < |a| && a[k].CameraSpawned?;
      assert r[k].CameraSpawned?;
    }
    if Spawned(b) {
      var k :| 0 <= k < |b| && b[k].CameraSpawned?;
      assert r[|a| + k].CameraSpawned?;
    }
  }

  /** A concatenation started the video task only for `path` exactly when both its parts did. */
  lemma ConcatSpawnedFor(a: seq<Event>, b: seq<Event>, path: string)
    ensures SpawnedFor(a + b, path) <==> SpawnedFor(a, path) && SpawnedFor(b, path)
  {
    var r := a + b;
    if SpawnedFor(r, path) {
      forall k | 0 <= k < |a| && a[k].CameraSpawned?
        ensures a[k].videoPath == path
      {
        assert r[k] == a[k];
      }
      forall k | 0 <= k < |b| && b[k].CameraSpawned?
        ensures b[k].videoPath == path
      {
        assert r[|a| + k] == b[k];
      }
    }
  }

  /** A concatenation handed the card back only with no video task exactly when both parts did. */
  lemma ConcatUsbAfterVideo(a: seq<Event>, b: seq<Event>)
    ensures UsbAfterVideo(a + b) <==> UsbAfterVideo(a) && UsbAfterVideo(b)
  {
    var r := a + b;
    if UsbAfterVideo(r) {
      forall k | 0 <= k < |a| && a[k].UsbMounted?
        ensures !a[k].cameraRecording
      {
        assert r[k] == a[k];
      }
      forall k | 0 <= k < |b| && b[k].UsbMounted?
        ensures !b[k].cameraRecording
      {
        assert r[|a| + k] == b[k];
      }
    }
  }

  /** The facts about two consecutive parts of a log that a whole session's log needs. */
  lemma Concat(a: seq<Event>, b: seq<Event>, path: string)
    requires InOrder(a) && InOrder(b)
    requires a == [] || b == [] || Rank(a[|a| - 1]) < Rank(b[0])
    ensures InOrder(a + b)
    ensures Spawned(a + b) <==> Spawned(a) || Spawned(b)
    ensures SpawnedFor(a + b, path) <==> SpawnedFor(a, path) && SpawnedFor(b, path)
    ensures UsbAfterVideo(a + b) <==> UsbAfterVideo(a) && UsbAfterVideo(b)
  {
    ConcatInOrder(a, b);
    ConcatSpawned(a, b);
    ConcatSpawnedFor(a, b, path);
    ConcatUsbAfterVideo(a, b);
  }

  /** The steps of a session up to the video task: the mount for the application and the spawn. */
  lemma PrefixFacts(usbActive: bool, spawn: Option<string>, videoPath: string)
    ensures var e := [UsbStopped(usbActive), AppMounted]
        + (if spawn.Some? then [CameraSpawned(spawn.value)] else []);
      && InOrder(e) && Rank(e[|e| - 1]) <= 2
      && (Spawned(e) <==> spawn.Some?)
      && (SpawnedFor(e, videoPath) <==> (spawn.Some? ==> spawn.value == videoPath))
      && UsbAfterVideo(e)
  {
    if spawn.Some? {
      var e := [UsbStopped(usbActive), AppMounted, CameraSpawned(spawn.value)];
      assert [UsbStopped(usbActive), AppMounted] + [CameraSpawned(spawn.value)] == e;
      forall i, j | 0 <= i < j < 3
        ensures Rank(e[i]) < Rank(e[j])
      {
      }
      assert e[2].CameraSpawned?;
    } else {
      var e := [UsbStopped(usbActive), AppMounted];
      assert [UsbStopped(usbActive), AppMounted] + [] == e;
      forall i, j | 0 <= i < j < 2
        ensures Rank(e[i]) < Rank(e[j])
      {
      }
    }
  }

  /** What a session logs when it hands the card back to USB with no video task running. */
  ghost function HandBackLog(switchUsbErr: int, aborted: bool): seq<Event>
  {
    if switchUsbErr != EspOk then [] else [UsbMounted(false)] + (if aborted then [] else [UsbRestarted])
  }

  /** The steps of a session after the video task: the capture, the video task's stop, the hand-back. */
  lemma SuffixFacts(micPath: string, ret: int, tail: seq<Event>, videoPath: string)
    requires tail == [] || tail == [UsbMounted(false)] || tail == [UsbMounted(false), UsbRestarted]
    ensures var e := [AudioCaptured(micPath, ret, true), CameraIdle] + tail;
      && InOrder(e) && e[0] == AudioCaptured(micPath, ret, true)
      && !Spawned(e) && SpawnedFor(e, videoPath) && UsbAfterVideo(e)
  {
    var e := [AudioCaptured(micPath, ret, true), CameraIdle] + tail;
    forall i, j | 0 <= i < j < |e|
      ensures Rank(e[i]) < Rank(e[j])
    {
    }
  }

  /**
   * The facts a whole session's log states, once the card was mounted for the application: the
   * USB stop and the mount, the capture part, then `tail`, the hand-back to USB with no video task
   * running.
   */
  lemma SessionLogFacts(usbActive: bool, spawn: Option<string>, micPath: string, ret: int,
    switchUsbErr: int, aborted: bool, videoPath: string)
    ensures var events := [UsbStopped(usbActive)]
        + ([AppMounted] + CaptureLog(spawn, micPath, ret) + HandBackLog(switchUsbErr, aborted));
      && InOrder(events) && events[0] == UsbStopped(usbActive)
      && AudioCaptured(micPath, ret, true) in events
      && (Spawned(events) <==> spawn.Some?)
      && (SpawnedFor(events, videoPath) <==> (spawn.Some? ==> spawn.value == videoPath))
      && UsbAfterVideo(events)
      && (switchUsbErr == EspOk && !aborted ==> events[|events| - 1] == UsbRestarted)
  {
    var tail := HandBackLog(switchUsbErr, aborted);
    var p := [UsbStopped(usbActive), AppMounted]
      + (if spawn.Some? then [CameraSpawned(spawn.value)] else []);
    var q := [AudioCaptured(micPath, ret, true), CameraIdle] + tail;
    PrefixFacts(usbActive, spawn, videoPath);
    SuffixFacts(micPath, ret, tail, videoPath);
    Concat(p, q, videoPath);
    assert [UsbStopped(usbActive)] + ([AppMounted] + CaptureLog(spawn, micPath, ret) + tail) == p + q;
    assert (p + q)[|p|] == AudioCaptured(micPath, ret, true);
  }

  /** The state `app_main` enters its loop with and that the loop keeps. */
  class App {
    const usb: Usb
    const camera: Camera.Recorder
    var mount: MountMode
    var fileIndex: nat
    /** What the idle screen was last asked to show: the seconds recorded and the file name. */
    var display: Option<(int, string)>
    ghost var log: seq<Event>

    ghost predicate Valid()
      reads this, camera
    {
      fileIndex < Uint32Modulus && camera.task.None?
    }

    /** After start-up: USB active and mounted for the host, the index at 1, no video task. */
    constructor (cameraReady: bool, black: seq<byte>)
      ensures Valid() && fresh(usb) && fresh(camera)
      ensures usb.active && mount == MountUsb && fileIndex == 1 && display.None? && log == []
      ensures camera.ready == cameraReady && camera.black == black
    {
      usb := new Usb();
      camera := new Camera.Recorder(cameraReady, black);
      mount, fileIndex, display, log := MountUsb, 1, None, [];
      new;
      var _ := usb.Start(EspOk);
    }

    /**
     * The recording part of a session, with the card mounted for the firmware: the video task is
     * started for `videoPath` if the camera is ready and idle, the audio is captured into `micPath`
     * until the button stops it, the index moves on (wrapping at 2^32) and the idle screen shows
     * the recording when the capture returned OK, and then the video task is waited for.
     * `videoTask` is the path the video task was started with, if one was; `events` logs each of
     * these steps as it is taken.
     */
    method Record(micPath: string, videoPath: string, s: SessionInput)
      returns (ret: int, audio: Option<seq<byte>>, video: Option<seq<byte>>, videoTask: Option<string>,
        ghost events: seq<Event>)
      requires Valid() && mount == MountApp
      modifies this`fileIndex, this`display, camera`task
      ensures Valid()
      ensures events == CaptureLog(videoTask, micPath, ret)
      ensures videoTask.Some? <==> camera.ready && s.spawnAllocOk && s.spawnCreateOk
      ensures videoTask.Some? ==> videoTask.value == Camera.TaskPath(videoPath)
      ensures var o := MicCapture.CaptureSpec(micPath, 0, s.mic, s.micTicks);
        ret == o.ret && audio == o.file
      ensures fileIndex == (if ret == EspOk then NextIndex(old(fileIndex)) else old(fileIndex))
      ensures display == (if ret == EspOk
        then Some((MicCapture.CaptureSpec(micPath, 0, s.mic, s.micTicks).captured / SampleRateHz, BaseName(micPath)))
        else old(display))
      ensures video == SessionVideo(videoTask.Some?, s, camera.black)
      ensures videoTask.None? ==> video.None?
      ensures videoTask.Some? ==>
        video == (if s.videoOpenOk then Some(Camera.VideoRun(Camera.Video([], [], 0, 0, 0), camera.black,
          s.videoTicks).data) else None)
    {
      videoTask, events := StartVideo(videoPath, s);
      ret, audio := CaptureAudio(micPath, s);
      events := events + [AudioCaptured(micPath, ret, mount == MountApp)];
      video := camera.WaitForStop(s.videoOpenOk, s.videoTicks);
      events := events + [CameraIdle];
    }

    /**
     * The start of the video task for a session, when the camera is ready and no task runs.
     * `videoTask` is the path the video task was started with, if it was; `events` logs the start.
     */
    method StartVideo(videoPath: string, s: SessionInput) returns (videoTask: Option<string>,
      ghost events: seq<Event>)
      requires Valid()
      modifies camera`task
      ensures camera.task == videoTask
      ensures videoTask.Some? <==> camera.ready && s.spawnAllocOk && s.spawnCreateOk
      ensures videoTask.Some? ==> videoTask.value == Camera.TaskPath(videoPath)
      ensures events == (if videoTask.Some? then [CameraSpawned(videoTask.value)] else [])
    {
      events := [];
      videoTask := None;
      if camera.ready && camera.task.None? {
        var _ := camera.StartRecord(videoPath, s.spawnAllocOk, s.spawnCreateOk);
        if camera.task.Some? {
          events := events + [CameraSpawned(camera.task.value)];
        }
        videoTask := camera.task;
      }
    }

    /**
     * The audio part of a session: capture into `micPath` until the button stops it; when the
     * capture returned OK, show the recording on the idle screen and move the index on, wrapping
     * at 2^32.
     */
    method CaptureAudio(micPath: string, s: SessionInput) returns (ret: int, audio: Option<seq<byte>>)
      requires fileIndex < Uint32Modulus
      modifies this`fileIndex, this`display
      ensures fileIndex < Uint32Modulus
      ensures var o := MicCapture.CaptureSpec(micPath, 0, s.mic, s.micTicks);
        ret == o.ret && audio == o.file
      ensures fileIndex == (if ret == EspOk then NextIndex(old(fileIndex)) else old(fileIndex))
      ensures display == (if ret == EspOk
        then Some((MicCapture.CaptureSpec(micPath, 0, s.mic, s.micTicks).captured / SampleRateHz,
                   BaseName(micPath)))
        else old(display))
    {
      var capturedSeconds, f;
      ret, capturedSeconds, f := MicCapture.CaptureToFile(micPath, 0, s.mic, s.micTicks);
      ghost var o := MicCapture.CaptureSpec(micPath, 0, s.mic, s.micTicks);
      assert ret == o.ret && capturedSeconds == o.captured / SampleRateHz;
      audio := if f != null then Some(f.data) else None;
      assert audio == o.file;
      if ret == EspOk {
        ShowRecorded(capturedSeconds, BaseName(micPath));
      }
    }

    /**
     * After a capture that returned OK: the idle screen shows the seconds recorded and the file
     * name, and the index moves on, wrapping at 2^32.
     */
    method ShowRecorded(seconds: int, name: string)
      requires fileIndex < Uint32Modulus
      modifies this`fileIndex, this`display
      ensures display == Some((seconds, name)) && fileIndex == NextIndex(old(fileIndex))
      ensures fileIndex < Uint32Modulus
    {
      display := Some((seconds, name));
      fileIndex := NextIndex(fileIndex);
    }

    /**
     * One pass of the `app_main` loop once recording has started. `aborted` is set where an
     * `ESP_ERROR_CHECK` fails, which ends the firmware; `audio` and `video` are the files written
     * and `events` the steps taken, in order.
     */
    method Session(s: SessionInput) returns (aborted: bool, ret: int, audio: Option<seq<byte>>,
      video: Option<seq<byte>>, ghost events: seq<Event>)
      requires Valid()
      modifies this, usb, camera`task
      ensures Valid() && log == old(log) + events
      ensures |events| > 0 && InOrder(events)
      ensures events[0] == UsbStopped(old(usb.active) && s.uninstallErr != EspOk)
      ensures s.switchAppErr != EspOk ==>
        && events == [UsbStopped(old(usb.active) && s.uninstallErr != EspOk), AppMountFailed]
        && !aborted && audio.None? && video.None?
        && fileIndex == old(fileIndex) && display == old(display) && mount == old(mount)
        && (usb.active <==> old(usb.active) && s.uninstallErr != EspOk)
      ensures s.switchAppErr == EspOk ==>
        var o := MicCapture.CaptureSpec(MicPath(old(fileIndex)), 0, s.mic, s.micTicks);
        && ret == o.ret && audio == o.file
        && display == (if ret == EspOk then Some((o.captured / SampleRateHz, BaseName(MicPath(old(fileIndex)))))
                       else old(display))
        && video == SessionVideo(camera.ready && s.spawnAllocOk && s.spawnCreateOk, s, camera.black)
      ensures s.switchAppErr == EspOk ==>
        && AudioCaptured(MicPath(old(fileIndex)), ret, true) in events
        && fileIndex == (if ret == EspOk then NextIndex(old(fileIndex)) else old(fileIndex))
        && (Spawned(events) <==> camera.ready && s.spawnAllocOk && s.spawnCreateOk)
        && SpawnedFor(events, VideoPath(old(fileIndex)))
        && (video.Some? ==> camera.ready && s.spawnAllocOk && s.spawnCreateOk && s.videoOpenOk)
        && UsbAfterVideo(events)
        && (!aborted <==>
              s.switchUsbErr == EspOk && ((old(usb.active) && s.uninstallErr != EspOk) || s.installErr == EspOk))
        && (!aborted ==> mount == MountUsb && usb.active && events[|events| - 1] == UsbRestarted)
    {
      usb.Stop(s.uninstallErr);
      ghost var usbActive := usb.active;
      events := [UsbStopped(usb.active)];
      aborted, ret, audio, video := false, EspOk, None, None;
      if s.switchAppErr != EspOk {
        events := events + [AppMountFailed];
      } else {
        ghost var rest;
        aborted, ret, audio, video, rest := MountedSession(s);
        events := events + rest;
        ghost var spawn := if camera.ready && s.spawnAllocOk && s.spawnCreateOk
          then Some(VideoPath(old(fileIndex))) else None;
        SessionLogFacts(usbActive, spawn, MicPath(old(fileIndex)), ret, s.switchUsbErr, aborted,
          VideoPath(old(fileIndex)));
      }
      log := log + events;
    }

    /**
     * A session once the card is mounted for the application: the recording, then the hand-back to
     * USB. `events` logs the mount and each later step as it is taken.
     */
    method MountedSession(s: SessionInput) returns (aborted: bool, ret: int, audio: Option<seq<byte>>,
      video: Option<seq<byte>>, ghost events: seq<Event>)
      requires Valid()
      modifies this`mount, this`fileIndex, this`display, usb, camera`task
      ensures Valid()
      ensures events == [AppMounted]
        + CaptureLog(if camera.ready && s.spawnAllocOk && s.spawnCreateOk then Some(VideoPath(old(fileIndex)))
                     else None, MicPath(old(fileIndex)), ret)
        + HandBackLog(s.switchUsbErr, aborted)
      ensures var o := MicCapture.CaptureSpec(MicPath(old(fileIndex)), 0, s.mic, s.micTicks);
        ret == o.ret && audio == o.file
      ensures fileIndex == (if ret == EspOk then NextIndex(old(fileIndex)) else old(fileIndex))
      ensures display == (if ret == EspOk
        then Some((MicCapture.CaptureSpec(MicPath(old(fileIndex)), 0, s.mic, s.micTicks).captured / SampleRateHz,
                   BaseName(MicPath(old(fileIndex)))))
        else old(display))
      ensures video == SessionVideo(camera.ready && s.spawnAllocOk && s.spawnCreateOk, s, camera.black)
      ensures video.Some? ==> camera.ready && s.spawnAllocOk && s.spawnCreateOk && s.videoOpenOk
      ensures !aborted <==> s.switchUsbErr == EspOk && (old(usb.active) || s.installErr == EspOk)
      ensures mount == (if s.switchUsbErr != EspOk then MountApp else MountUsb)
      ensures usb.active <==> old(usb.active) || (s.switchUsbErr == EspOk && s.installErr == EspOk)
    {
      mount := MountApp;
      events := [AppMounted];
      VideoPathFits(fileIndex);
      ghost var middle, tail;
      ret, audio, video, middle := Capture(MicPath(fileIndex), VideoPath(fileIndex), s);
      events := events + middle;
      aborted, tail := HandBack(s);
      events := events + tail;
    }

    /**
     * The middle of a session, once the card is mounted for the application: wait for the mount,
     * start the video task, capture the audio file, wait for the video task to stop.
     * `events` is what the session logs for these steps.
     */
    method Capture(micPath: string, videoPath: string, s: SessionInput)
      returns (ret: int, audio: Option<seq<byte>>, video: Option<seq<byte>>, ghost events: seq<Event>)
      requires Valid() && mount == MountApp && |videoPath| < Camera.TaskPathSize
      modifies this`fileIndex, this`display, camera`task
      ensures Valid()
      ensures events == CaptureLog(
        if camera.ready && s.spawnAllocOk && s.spawnCreateOk then Some(videoPath) else None, micPath, ret)
      ensures var o := MicCapture.CaptureSpec(micPath, 0, s.mic, s.micTicks);
        ret == o.ret && audio == o.file
      ensures fileIndex == (if ret == EspOk then NextIndex(old(fileIndex)) else old(fileIndex))
      ensures display == (if ret == EspOk
        then Some((MicCapture.CaptureSpec(micPath, 0, s.mic, s.micTicks).captured / SampleRateHz, BaseName(micPath)))
        else old(display))
      ensures video == SessionVideo(camera.ready && s.spawnAllocOk && s.spawnCreateOk, s, camera.black)
      ensures video.Some? ==> camera.ready && s.spawnAllocOk && s.spawnCreateOk && s.videoOpenOk
    {
      AwaitMount(s.stats);
      var videoTask;
      ret, audio, video, videoTask, events := Record(micPath, videoPath, s);
      ghost var spawn := if camera.ready && s.spawnAllocOk && s.spawnCreateOk then Some(videoPath) else None;
      assert videoTask == spawn;
      assert events == CaptureLog(spawn, micPath, ret);
    }

    /**
     * The session's wait for the mount point, for at most two seconds. Its outcome is only logged:
     * the session goes on either way.
     */
    method AwaitMount(stats: seq<bool>)
    {
      var mounted, _ := WaitForMount(MountTimeoutMs, stats);
    }

    /**
     * The end of a session: switch the card back to USB mass storage and reinstall the USB stack.
     * `aborted` is set where an `ESP_ERROR_CHECK` fails; `tail` is what the session logs for it.
     */
    method HandBack(s: SessionInput) returns (aborted: bool, ghost tail: seq<Event>)
      requires Valid()
      modifies this`mount, usb
      ensures Valid()
      ensures tail == (if s.switchUsbErr != EspOk then []
                       else [UsbMounted(camera.task.Some?)] + (if aborted then [] else [UsbRestarted]))
      ensures !aborted <==> s.switchUsbErr == EspOk && (old(usb.active) || s.installErr == EspOk)
      ensures mount == (if s.switchUsbErr != EspOk then old(mount) else MountUsb)
      ensures usb.active <==> old(usb.active) || (s.switchUsbErr == EspOk && s.installErr == EspOk)
    {
      tail := [];
      aborted := false;
      if s.switchUsbErr != EspOk {
        aborted := true;
      } else {
        mount := MountUsb;
        tail := [UsbMounted(camera.task.Some?)];
        var err := usb.Start(s.installErr);
        if err != EspOk {
          aborted := true;
        } else {
          tail := tail + [UsbRestarted];
        }
      }
    }

    /**
     * The endless loop of `app_main` over the sessions `inputs`, until an `ESP_ERROR_CHECK` fails;
     * `sessions` is the number of sessions run.
     */
    method Run(inputs: seq<SessionInput>) returns (sessions: nat, aborted: bool)
      requires Valid()
      modifies this, usb, camera
      ensures Valid() && sessions <= |inputs|
      ensures !aborted ==> sessions == |inputs|
      ensures aborted ==> sessions > 0
    {
      sessions, aborted := 0, false;
      while sessions < |inputs|
        invariant Valid() && sessions <= |inputs|
        decreases |inputs| - sessions
      {
        var stop, _, _, _, _ := Session(inputs[sessions]);
        sessions := sessions + 1;
        if stop {
          return sessions, true;
        }
      }
    }
  }
}
