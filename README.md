# Audio/video recorder firmware, modelled in Dafny

This project models the control logic of an ESP32 recorder. The recorder captures audio from an
I2S microphone into a WAV file and MJPEG video from an OV2640 camera onto an SD card. A push
button, or a Bluetooth LE advertisement, starts, pauses and stops recording. Between recordings
the card is exposed to a host computer over USB mass storage.

The model has one module per C source file, plus two shared modules:

- `Common` (`common.dfy`): the `byte` newtype, `Option`, and the `esp_err_t` codes used.
- `Files` (`files.dfy`): a file seen as a byte sequence, with a position and a durable image.
  Writing overwrites and then extends; `Sync` makes the current bytes durable, as
  `fflush` + `fsync` or `fclose` do.
- `Button` (`button.dfy`): the button task of `components/button/button.c`. It is a class whose
  `Step` is one pass of the debounce/classify/toggle loop, over the recorder state table
  Idle/Recording/Paused.
- `BleTrigger` (`ble_trigger.dfy`): `main/ble_trigger.c`.
  - The hexadecimal digit classifier.
  - The UUID text parser. It reads the text form of section 3 of RFC 4122 and reverses the
    bytes into the little-endian order that section 1.1 of Part A of the Bluetooth Core
    Specification Supplement uses for 128-bit UUIDs in advertising data.
  - The 500 ms trigger debounce.
  - The long-over-short selection among the advertised UUIDs.
- `Wav` (`wav.dfy`): the little-endian writers and the 44-byte PCM header of the RIFF WAVE form.
  The header is laid out as in the Microsoft/IBM Multimedia Programming Interface and Data
  Specifications 1.0. A parser proves the header is byte-exact. This module also holds the
  `.wav` extension check.
- `MicCapture` (`mic_capture.dfy`): `mic_capture_to_file`.
  - The capture loop is specified by a pure one-pass function `Step` and its fold `Run`. The
    method `CaptureToFile` is proved to leave the file and the return code as `CaptureSpec` says.
  - Lemmas prove the properties of `Run`:
    - sample accounting within the budget;
    - zero fill while paused;
    - audio never rewritten;
    - the checkpoint header rewrite;
    - crash safety of the durable image;
    - the final header;
    - the return code.
- `Camera` (`camera.dfy`): the record task of `components/camera/camera_ov2640.c` and the guard
  around its task handle.
  - The record task validates JPEG SOI/EOI markers (ITU-T T.81 Annex B, Table B.1), drops and counts
    bad frames, and writes a placeholder frame while paused. It makes the file durable every
    4 MiB.
  - `Recorder.RecordTask` is proved against `VideoRun`. `VideoRun` is proved equal to the
    concatenation of the frames kept.
- `RecorderApp` (`recorder_app.dfy`): the orchestration in `main/sd_card_example_main.c`.
  - The bounded mount polling.
  - The USB start/stop flag.
  - The `%04u` file names.
  - The record/USB session loop of `app_main`. Each step of a session appends an event to a
    ghost log as it is taken, with what it observed: stop USB, mount for the application, start
    the video task, capture audio, wait for the video task, give the card back to USB.

Hardware results, flags, `stat` results and TinyUSB results are inputs. Each loop takes one
oracle value per pass: a `MicTick`, a `VideoTick`, a button `Sample`, or a `SessionInput`.

Some of the firmware's behaviour may be surprising. The model keeps it as the C code has it:

- Remote triggers are 128-bit service UUIDs in advertisements. There is no packed-BCD command
  payload.
- The file index is a 32-bit counter. It starts at 1, moves on only when the audio capture
  returns OK, and wraps at 2^32. It does not strictly increase per session.
- At a checkpoint the file is synced *before* the header is rewritten. The durable image
  therefore carries the previous header, which declares no more audio than the image holds
  (`MicCapture.RunInv`). It does not necessarily declare all of it.
- When the audio buffer cannot be allocated, the file is left empty, without a header.
- The capture loops run one after the other: the video task runs to its end when the session
  waits for it.
- The audio capture loop evaluates its sample budget (`16000 * seconds`) and its checkpoint test
  (`captured_samples * 1000`) in the target's 32-bit `size_t`, so both wrap. The corrected forms
  are stated and proved beside them (see "## Findings").

## Model

| member | source | states |
|---|---|---|
| Button.Apply | components/button/button.c:35-47 | On valid flags, a classified release moves the flags exactly as the state table `Next` does (Idle⇄Recording on long presses, Recording⇄Paused on short ones, a long press from Paused stops). A long press toggles recording and clears pause when recording stops. A short press never changes recording, and changes nothing while idle. |
| Button.Held | components/button/button.c:35 | The held time is `now - pressTick` in 32-bit tick arithmetic. It is the plain difference when the counter did not wrap, and the difference plus 2^32 when it did. |
| Button.Classify | components/button/button.c:36 | A release is a long press if and only if it was held at least the long-press threshold. |
| Button.ButtonTask.constructor | components/button/button.c:16-23 | Both flags start false, the last level is released (high) and the press tick is 0. The long-press threshold is 500 ms in ticks. |
| Button.ButtonTask.Step | components/button/button.c:26-49 | If either sample equals the last level, nothing changes. Otherwise the last level becomes the resampled level. A press (low) records the tick and leaves both flags. A release leaves the press tick and applies `Apply` to the flags, with the press classified from the held ticks. `paused ⇒ recording` is preserved. |
| Button.ButtonTask.Run | components/button/button.c:25-52 | Over any sequence of samples the button task keeps its invariant: paused implies recording. |
| Button.ButtonTask.IsPaused | components/button/button.c:69-72 | Returns the pause flag and changes nothing. |
| Button.ButtonTask.IsRecording | components/button/button.c:74-77 | Returns the recording flag and changes nothing. |
| BleTrigger.HexVal | main/ble_trigger.c:33-45 | The result is a digit value 0..15, or -1. |
| BleTrigger.HexValOnlyDigits | main/ble_trigger.c:33-45 | A character that gets a value is that hexadecimal digit, in lower or upper case. |
| BleTrigger.HexValOfDigits | main/ble_trigger.c:35-43 | Every digit character of either case gets its own digit value. |
| BleTrigger.ReadUuidBytes | main/ble_trigger.c:49-74 | The byte-reading loop succeeds exactly when the text reads as 16 bytes (`UuidLe` defined). On success its buffer holds those bytes in text order. |
| BleTrigger.ParseUuid128Le | main/ble_trigger.c:47-79 | Success is equivalent to the text being exactly 16 hexadecimal byte pairs, with '-' skipped only where a pair starts. On success the output is the reversal of the bytes read. On failure the output array is unchanged. |
| BleTrigger.WrongLength | main/ble_trigger.c:72-74 | A text that reads as fewer or more than 16 bytes is rejected. |
| BleTrigger.Rejected | main/ble_trigger.c:55-66 | A non-hexadecimal character where a pair starts, or an odd trailing digit, makes the whole text fail. |
| BleTrigger.TooManyBytes | main/ble_trigger.c:67-69 | A seventeenth byte makes the whole text fail. |
| BleTrigger.HexStringParses | main/ble_trigger.c:51-71 | Parsing the hexadecimal text of any bytes gives back those bytes, followed by what the rest of the text gives. |
| BleTrigger.FormatParses | main/ble_trigger.c:47-79 | The 8-4-4-4-12 text form of any 16 bytes parses back to those bytes, reversed (round trip). |
| BleTrigger.ShortUuidLe | main/ble_trigger.c:170-176 | The short-press UUID text parses to the reversal of its big-endian bytes 00…01. |
| BleTrigger.LongUuidLe | main/ble_trigger.c:170-178 | The long-press UUID text parses to the reversal of its big-endian bytes 00…02. |
| BleTrigger.TriggerUuidBytes | main/ble_trigger.c:168-178 | Little-endian, the short UUID is 0x01 followed by fifteen zeros, and the long UUID is 0x02 followed by fifteen zeros. |
| BleTrigger.Debounced | main/ble_trigger.c:86-92 | The triggers taken from a run are in order. Each is at least 500 ms after the one taken before it, the first at least 500 ms after the starting time. |
| BleTrigger.DebouncedSnoc | main/ble_trigger.c:89-92 | One more trigger extends the taken list by itself exactly when it is at least 500 ms after the last one taken. |
| BleTrigger.EarlyTriggersDropped | main/ble_trigger.c:89 | Since the last trigger time starts at 0, every trigger before 500 ms of uptime is dropped. |
| BleTrigger.Trigger.Init | main/ble_trigger.c:127-191 | Once storage is up, the stored UUIDs are the parsed short and long UUIDs, little-endian. Before that, the UUIDs keep their zero initial value. The scan runs exactly when storage and the host stack came up and `ble_gap_disc`, called from the host's sync callback, returned 0; a failed scan start is only logged. The last trigger time is 0. |
| BleTrigger.Trigger.HandleTrigger | main/ble_trigger.c:86-98 | A trigger at least 500 ms after the last one taken records its time and yields exactly one press of its kind. One that comes sooner yields nothing and leaves the time unchanged. |
| BleTrigger.Trigger.HandleTriggers | main/ble_trigger.c:86-98 | Over a run of triggers, the presses produced are one per debounced time, and the stored time is the last one taken. |
| BleTrigger.Trigger.OnAdvertisement | main/ble_trigger.c:108-122 | An advertisement fires the trigger `Choose` selects, subject to the debounce. It fires nothing and changes nothing when it lists neither UUID. |
| BleTrigger.SelectTrigger | main/ble_trigger.c:108-122 | The scan over the advertised UUIDs returns long if the long UUID is listed, else short if the short UUID is listed, else nothing. |
| BleTrigger.LongWins | main/ble_trigger.c:118-122 | Listing the long UUID always selects long. Nothing is selected if and only if neither UUID is listed. Short is selected if and only if only the short UUID is listed. |
| Wav.Le16 | components/mic/mic_capture.c:21-25 | Two bytes, least significant first, that decode back to the value. |
| Wav.Le32 | components/mic/mic_capture.c:27-36 | Four bytes, least significant first, that decode back to the value. |
| Wav.LeOfDecode | components/mic/mic_capture.c:21-36 | Encoding the value that any 2- or 4-byte string decodes to gives the string back (the other round trip). |
| Wav.WavHeader | components/mic/mic_capture.c:44-64 | The header written is exactly 44 bytes. |
| Wav.HeaderFields | components/mic/mic_capture.c:47-63 | Every header field sits at its offset: "RIFF", 36+data size (mod 2^32), "WAVE", "fmt ", 16, 1, channels, sample rate, byte rate = rate·channels·(bits/8) (mod 2^32), block align = channels·(bits/8) (mod 2^16), bits, "data", data size. |
| Wav.HeaderRoundTrip | components/mic/mic_capture.c:44-64 | Parsing a written header gives back the parameters it was written from. |
| Wav.ParsedHeaderIsWritten | components/mic/mic_capture.c:44-64 | Any 44 bytes that parse are exactly the header written from the parsed parameters, so the writer produces every well-formed header. |
| Wav.RecorderHeaderRates | components/mic/mic_capture.c:47-48 | The recorder's header (16 kHz, 32-bit, mono) declares 64000 bytes per second and 4-byte blocks. |
| Wav.DataBytes | components/mic/mic_capture.c:175-186 | The declared data size is 4·samples cut to 32 bits. It is below 2^32, at most 4·samples, and equal to it when that fits. |
| Wav.LastIndexOf | components/mic/mic_capture.c:40 | Like `strrchr`: the index found holds the character and none follows it; no index means the character is absent. |
| Wav.WavExtensionIsSuffix | components/mic/mic_capture.c:38-42 | The extension test holds if and only if the path ends in ".wav". |
| MicCapture.RequestedSamples | components/mic/mic_capture.c:155-158 | A read asks for at most 512 samples, never past the budget, and for at least one while the budget is not reached. |
| MicCapture.Got | components/mic/mic_capture.c:159-161 | The bytes a read delivers never exceed one chunk, nor the remaining budget in whole samples. |
| MicCapture.Run | components/mic/mic_capture.c:149-183 | The loop never lowers the sample count, never passes the budget, and never shrinks the file. |
| MicCapture.StepAppends | components/mic/mic_capture.c:154-172 | A pass that reads appends exactly the bytes read (up to the request), all zero while paused. It counts one sample per four bytes and leaves the audio already written untouched. |
| MicCapture.StepCheckpoint | components/mic/mic_capture.c:174-182 | A checkpoint is taken exactly when the file is a WAV file and the checkpoint test holds as the 32-bit target evaluates it: `(captured·1000 mod 2^32) / 16000 ≥ next`. It makes the file as it stood durable, rewrites the header for the samples counted, and moves the next checkpoint one second on. Without a checkpoint, the header, the durable image and the next checkpoint are unchanged. |
| MicCapture.StepStops | components/mic/mic_capture.c:150-165 | A pass stops if and only if the button stop is requested or the read fails. A pass that stops leaves the file and the count. A failed read's code becomes the result. |
| MicCapture.RecorderHeadersSafe | components/mic/mic_capture.c:174-189 | Every header the recorder writes is 44 bytes, parses, and declares at most 4 bytes per sample counted. |
| MicCapture.StepInv | components/mic/mic_capture.c:149-183 | One pass keeps the loop invariant `Inv`. |
| MicCapture.RunInv | components/mic/mic_capture.c:149-183 | The loop keeps `Inv`: the count stays within the budget and the file holds at least 4 bytes per sample. For a WAV file, both the file and its last durable image hold a well-formed header that declares no more audio than follows it (crash safety). |
| MicCapture.RunAligned | components/mic/mic_capture.c:166-171 | If every read returns whole samples, the audio in the file is exactly 4 bytes per sample counted. |
| MicCapture.RunKeepsAudio | components/mic/mic_capture.c:166-182 | The loop never alters audio already written; it only appends after it. |
| MicCapture.RunRet | components/mic/mic_capture.c:161-165 | The loop ends with the code it started with, or with the failing read's code, in which case it stopped. |
| MicCapture.OutcomeHeader | components/mic/mic_capture.c:144-189 | After a capture that got going, the count stays within the budget as the 32-bit target computes it (`16000·seconds mod 2^32`, or `SIZE_MAX` when `seconds ≤ 0`), which is never more than 16000 samples per requested second. For a ".wav" path, the final header parses to 16 kHz/32-bit/mono with data size 4·samples (cut to 32 bits), and the file holds at least that much audio. |
| MicCapture.OutcomeDeclaresAudio | components/mic/mic_capture.c:166-189 | With whole-sample reads, the file is the header plus exactly 4 bytes per sample. The declared data size equals the audio bytes whenever that is below 4 GiB. |
| MicCapture.OutcomeRet | components/mic/mic_capture.c:161-198 | A capture that got going returns OK, or the code of a read that failed. |
| MicCapture.CheckpointWraps | components/mic/mic_capture.c:174 | As written on the 32-bit target, the checkpoint due at 269 s is missed, and no sample count ever reaches it. |
| MicCapture.NoLateCheckpoint | components/mic/mic_capture.c:174 | The 32-bit checkpoint test never holds for a checkpoint due at 269 s or later, whatever the count. |
| MicCapture.RunSkipsLateCheckpoints | components/mic/mic_capture.c:149-183 | In the loop as written, once the next checkpoint is due at 269 s or later, the header, the durable image and the next checkpoint stay as they are for the rest of the capture. |
| MicCapture.CheckpointAgreesBelowWrap | components/mic/mic_capture.c:174 | Below 2^32 for `captured·1000`, the corrected and the as-written checkpoint tests agree. |
| MicCapture.CheckpointDueEverySecond | components/mic/mic_capture.c:174-181 | The corrected test fires at every whole second of audio, and not one sample earlier, however long the capture. |
| MicCapture.TotalSamplesWraps | components/mic/mic_capture.c:144 | As written on the 32-bit target, asking for 268436 s budgets only 8704 samples. The corrected budget is 16000 per second. |
| MicCapture.TotalSamplesPerSecond | components/mic/mic_capture.c:144 | The corrected budget is 16000 samples for every second asked for, which reads back as exactly that many seconds. |
| MicCapture.TotalSamplesAgreeBelowWrap | components/mic/mic_capture.c:144 | Below 2^32 samples the corrected and the as-written budgets agree. |
| MicCapture.TotalSamplesAsWrittenBounded | components/mic/mic_capture.c:144 | The 32-bit budget never exceeds the corrected one. |
| MicCapture.RequestedAgreesBelowWrap | components/mic/mic_capture.c:155-158 | The request as the 32-bit target computes it equals the unbounded one until the count comes within 512 samples of 2^32. Past that, with the `SIZE_MAX` budget, it asks for a whole chunk although only 100 samples are left. |
| MicCapture.WriteChunk | components/mic/mic_capture.c:166-172 | The file gains exactly the bytes read (zeros while paused), its durable image is unchanged, and the count grows by the whole samples read. |
| MicCapture.Checkpoint | components/mic/mic_capture.c:176-180 | The durable image becomes the file as it stood, the header is overwritten in place at offset 0, and the position is back at the end. |
| MicCapture.Pass | components/mic/mic_capture.c:150-182 | One pass of the loop on the open file leaves the file, the durable image, the count, the next checkpoint and the stop/return code exactly as `Step` says, whose checkpoint test is the 32-bit one. |
| MicCapture.RunLoop | components/mic/mic_capture.c:149-183 | The `while` loop leaves the file, its durable image, the count and the code exactly as `Run` says, with the budget and the checkpoint test computed in 32 bits. |
| MicCapture.CaptureToFile | components/mic/mic_capture.c:66-198 | The whole capture returns the code and leaves the closed file exactly as `CaptureSpec` says. That covers the channel/init/enable errors, ESP_FAIL with no file when open fails, and ESP_ERR_NO_MEM with an empty file. The reported seconds are samples/16000. |
| Camera.JpegFrameMarkers | components/camera/camera_ov2640.c:145-146 | A frame is accepted if and only if it has at least 4 bytes, starts with FF D8 and ends with FF D9. |
| Camera.Recorded | components/camera/camera_ov2640.c:133 | The passes the loop runs are the longest prefix that sees recording on; the pass after it, if any, sees it off. |
| Camera.StepEffect | components/camera/camera_ov2640.c:134-169 | One pass appends the placeholder or the valid frame, or nothing. It counts a bad frame exactly when it drops one, and a good frame exactly when it writes a live one. A pass that writes nothing leaves the flush state. |
| Camera.PausedFrames | components/camera/camera_ov2640.c:141-160 | While paused with a placeholder, the placeholder is written whatever the live frame holds. Without one, the live frame is validated and written only if valid. |
| Camera.StepInv | components/camera/camera_ov2640.c:165-169 | One pass keeps the durable image a prefix of the file, with fewer than 4 MiB written since it. |
| Camera.RunWrites | components/camera/camera_ov2640.c:133-170 | The file is the initial file followed by the placeholders and valid frames of the passes run, in order. The counters grow by the frames dropped and kept. |
| Camera.RunInv | components/camera/camera_ov2640.c:142-169 | After every pass the durable image is a prefix of the file and fewer than 4 MiB are unflushed. |
| Camera.OnlyRecordingEndsLoop | components/camera/camera_ov2640.c:133-139 | While recording stays on, every pass runs: missing and dropped frames never end the loop. |
| Camera.RecordedVideo | components/camera/camera_ov2640.c:130-174 | A record task's file is the concatenation of the placeholders and valid frames written before recording went off, with the counts of frames dropped and kept. That the file is durable once closed is stated by `Camera.Recorder.RecordTask` (`f.synced == f.data`). |
| Camera.FrameSizeToDim | main/sd_card_example_main.c:292-304 | Every frame size maps to positive dimensions, so the black frame's size check never fails. |
| Camera.FrameSizeIgnored | main/sd_card_example_main.c:292-304 | The frame size asked for does not change the dimensions (always 640×480). |
| Camera.TaskPath | components/camera/camera_ov2640.c:309-310 | The copied path is a prefix of at most 63 characters, equal to the whole path when it fits. |
| Camera.Recorder.constructor | components/camera/camera_ov2640.c:56-59 | The recorder starts with no task handle and the given readiness and placeholder. |
| Camera.Recorder.IsRecording | components/camera/camera_ov2640.c:294-297 | Reports a running record task if and only if the handle is set. |
| Camera.Recorder.StartRecord | components/camera/camera_ov2640.c:299-319 | Returns ESP_ERR_INVALID_STATE and leaves the handle when the camera is not ready or a task runs. Otherwise it returns ESP_ERR_NO_MEM, ESP_FAIL or OK for the allocation and creation results, and only OK leaves a task running, for the truncated path. |
| Camera.Recorder.RecordTask | components/camera/camera_ov2640.c:117-178 | If the file cannot be opened, nothing is written and the handle is cleared. Otherwise the closed file and the counts are exactly `VideoRun`'s, the file is durable, and the handle is cleared after the file is closed. |
| Camera.Recorder.WaitForStop | components/camera/camera_ov2640.c:321-326 | Returns with the handle clear, returning the running task's file when there was one and it opened. |
| RecorderApp.WaitForMount | main/sd_card_example_main.c:506-519 | Succeeds if and only if one of the first `Polls(timeout)` stats succeeds. It stops at the first success, and after all polls otherwise; every earlier poll failed. |
| RecorderApp.PollsCoverTimeout | main/sd_card_example_main.c:509-517 | The polls in 50 ms steps cover the timeout: the last starts before it, and one more would start at or after it. |
| RecorderApp.MountPolls | main/sd_card_example_main.c:650 | With the 2000 ms timeout the mount point is polled 40 times. |
| RecorderApp.Usb.constructor | main/sd_card_example_main.c:147 | The USB driver starts inactive. |
| RecorderApp.Usb.Start | main/sd_card_example_main.c:528-539 | Idempotent: when active, returns OK and installs nothing. Otherwise it installs once and is active exactly when that succeeded. |
| RecorderApp.Usb.Stop | main/sd_card_example_main.c:542-554 | Does nothing when inactive. Otherwise it uninstalls once and stays active exactly when that failed. |
| RecorderApp.Decimal | main/sd_card_example_main.c:646-648 | `%u` prints at least one character, all decimal digits. |
| RecorderApp.Pad4 | main/sd_card_example_main.c:646-648 | `%04u` prints at least four characters, all decimal digits. |
| RecorderApp.Pad4RoundTrip | main/sd_card_example_main.c:646-648 | The zero-padded digits denote the index they were printed from. |
| RecorderApp.PathsDistinct | main/sd_card_example_main.c:646-648 | Different indices name different audio files and different video files. |
| RecorderApp.MicPathIsWav | main/sd_card_example_main.c:646 | The audio path has the ".wav" extension, so the capture writes a WAV header. |
| RecorderApp.VideoPathFits | main/sd_card_example_main.c:648-658 | For any 32-bit index the video path is shorter than the 64-byte task buffer, so it is copied whole. |
| RecorderApp.BaseName | main/sd_card_example_main.c:670-675 | The name shown is a '/'-free suffix of the path, and the whole path when it has no '/'. When the path has a '/', the name is exactly what follows the last one: the character just before it is a '/'. |
| RecorderApp.MicBaseName | main/sd_card_example_main.c:646-675 | The name shown for the audio file is "mic_" + the padded index + ".wav". |
| RecorderApp.SessionLogFacts | main/sd_card_example_main.c:636-686 | A session that mounted for the application logs its steps in the firmware's order. It starts with the USB stop, recording whether the driver stayed active. It includes the audio capture, made with the card mounted for the application. It started the video task if and only if a spawn succeeded, and only for the session's video path. It hands the card back to USB only with no video task running, and ends with the USB restart when it did not abort. |
| RecorderApp.App.constructor | main/sd_card_example_main.c:625-629 | After start-up USB is active, the card is mounted for the host, the index is 1, and no video task runs. |
| RecorderApp.App.Record | main/sd_card_example_main.c:654-684 | The video task starts for the (truncated) video path if and only if the camera is ready and idle and the spawn succeeds. The audio result is `CaptureSpec`'s, with no duration. The index moves on (mod 2^32) and the idle display shows the seconds and the file name only on OK. The video file is the video task's `VideoRun` output when the task was spawned and opened its file, and there is none otherwise (`SessionVideo`). Each step is logged as it is taken (the spawn with the running task's path, the capture with whether the card was mounted for the application, the video task's stop), giving `CaptureLog` for the spawn that happened. |
| RecorderApp.App.StartVideo | main/sd_card_example_main.c:654-663 | The video task starts, and its start is logged with its path, if and only if the camera is ready and the allocation and the `xTaskCreate` call succeed; its path is the video path cut to the video task's buffer. Otherwise no task runs and nothing is logged. |
| RecorderApp.App.CaptureAudio | main/sd_card_example_main.c:664-679 | The capture result is `CaptureSpec`'s for the path with no duration. The index moves on (mod 2^32) and the display is updated exactly when it returned OK, so a failed session reuses its index. |
| RecorderApp.App.ShowRecorded | main/sd_card_example_main.c:668-678 | After a capture that returned OK, the idle screen shows the seconds recorded and the file name, and the index moves on, wrapping at 2^32. |
| RecorderApp.App.Capture | main/sd_card_example_main.c:650-684 | The steps it logs, in the order taken, are `CaptureLog` for the spawn that happened: the video task for the session's video path when the camera is ready and the spawn succeeds, then the audio capture with the card mounted for the application, then the video task's stop. The audio result and file are `CaptureSpec`'s for the path with no duration. The index moves on, and the display shows the seconds captured and the file name, only on OK. The video file is `VideoRun`'s output exactly when the spawn and its open succeeded, and there is none otherwise. |
| RecorderApp.App.HandBack | main/sd_card_example_main.c:685-686 | The card goes back to USB when the switch succeeds, and USB is reinstalled unless already active. The firmware aborts exactly when the switch or the reinstall fails. |
| RecorderApp.App.MountedSession | main/sd_card_example_main.c:637-686 | Once the switch to the application succeeded, the session logs the mount, then `CaptureLog` for the spawn that happened, then the hand-back with no video task running, each as it is taken. The audio result and file are `CaptureSpec`'s for the session's audio path, the video file is `VideoRun`'s exactly when the spawn and its open succeeded, and the index and the display move on only on OK. The firmware aborts exactly when the switch back or the USB reinstall fails, and the card is mounted for USB unless the switch back failed. |
| RecorderApp.App.Session | main/sd_card_example_main.c:635-686 | USB is stopped first, and the first event records that the driver stays active only when it was active and its uninstall failed. If mounting for the application fails, the log is that stop and the failed mount, nothing is captured, and the index, the display and the mount stay as they were. Otherwise the steps come in order: mount, spawn, capture, wait for video, back to USB. The audio result and file are `CaptureSpec`'s for the session's audio path, and the video file is `VideoRun`'s exactly when the spawn and its open succeeded. The index and the display move on only on OK, the video task records to the session's path, and USB is remounted only with no video task running. The session ends with USB active unless an `ESP_ERROR_CHECK` aborts. |
| RecorderApp.App.Run | main/sd_card_example_main.c:630-687 | The loop keeps the application invariant (32-bit index, no video task between sessions). It runs every session unless one aborts, and then stops after it. |

## Left out

- The wait for a long press at mic_capture.c:110-113 and at sd_card_example_main.c:631-633: sessions start with recording already on.
- I2S, NimBLE, NVS, TinyUSB and camera sensor internals are foreign libraries. Their results are inputs.
- The SD card's files are modelled by `Files.File`, whose writes, flushes, syncs, seeks and closes always succeed. The firmware ignores the results of these calls.
- `ble_hs_adv_parse_fields` and `ble_uuid_cmp` are not modelled. The advertised 128-bit UUIDs are given as a list, compared by byte equality.
- The black placeholder frame comes from the foreign JPEG encoder. It is an opaque, possibly empty byte sequence.
- Camera and board bring-up (`camera_app_init`, `s_camera_init`, pin maps, warm-up frames, GPIO reset, I2C bus) is hardware configuration.
- `components/i2c_bus/i2c_bus.c` exists only for cross-task locking, and concurrency is not modelled.
- Tasks, `vTaskDelay` and the `volatile` flags shared between tasks are not modelled. Each loop runs sequentially over per-pass inputs.
- A loop whose input sequence runs out ends where it is. This covers a finite prefix of the firmware's endless loops.
- Functions called but not defined in the shown sources are not modelled:
  - `button_trigger_long_press` / `button_trigger_short_press` (the BLE model returns the press instead);
  - `button_set_idle_display` (the model records its arguments in `App.display`);
  - `ble_trigger_get_timestamp`;
  - `mic_capture_start`, `mic_capture_is_running`, `mic_capture_wait`;
  - the OLED driver.
- The header mic_capture.h:7 and the caller at sd_card_example_main.c:665 pass a third `out_seconds` argument, but the definition at mic_capture.c:66 takes two. `MicCapture.CaptureToFile` reports `captured_samples / 16000` seconds (mic_capture.c:196) as a result.
- The clamp at mic_capture.c:126-128 can never change `seconds`, so it is not modelled.
- `s_example_write_file` / `s_example_read_file` are unused helpers.
- The 32-bit frame counters of the record task never wrap in the model. They only feed log messages.
- The log messages and the every-50th-frame reports are not modelled.
- The record task at sd_card_example_main.c:442-503 duplicates the one in camera_ov2640.c:117-178 and is modelled once, as `Camera.Recorder.RecordTask`.
- The inline video task spawn at sd_card_example_main.c:654-663 has the same guard, path copy and effect as `camera_app_start_record`, so the session uses `Camera.Recorder.StartRecord` and ignores its code.
- RecorderApp.App.Record: the video task runs to its end inside the wait (`Camera.Recorder.WaitForStop`), not alongside the audio capture. The video and audio inputs are independent.
- RecorderApp.WaitForMount: does not take the path; the `stat` results are inputs. The wait's result is ignored by the session, as in the firmware.
- MicCapture.RequestedSamples: does not model the 32-bit wrap of `captured_samples + samples_to_read` (mic_capture.c:156) and of `captured_samples += …` (mic_capture.c:171); the count is unbounded. The two differ only once a button-stopped capture comes within 512 samples of 2^32 (about 74.5 hours, 16 GiB of audio, past FAT32's 4 GiB file limit). `MicCapture.RequestedAgreesBelowWrap` proves they agree below that point and shows the over-long request past it.
- MicCapture.RunInv: assumes every `fwrite`, `fflush`, `fsync` and `fseek` succeeds. The firmware ignores their results (mic_capture.c:24-62 and 166-189), so a short write on a full card is not captured.
- MicCapture.OutcomeHeader: assumes the writes of the headers and of the audio, and the final `fclose`, succeed. The firmware ignores their results (mic_capture.c:24-62 and 166-192).
- MicCapture.OutcomeDeclaresAudio: assumes every write, sync and the final `fclose` succeed. The firmware ignores their results (mic_capture.c:24-62 and 166-192).
- Camera.RunInv: assumes every `fwrite`, `fflush` and `fsync` of the record task succeeds. The firmware ignores their results (camera_ov2640.c:142-169).
- Camera.RecordedVideo: assumes every write, sync and the final `fclose` of the record task succeed. The firmware ignores their results (camera_ov2640.c:142-174).
- BleTrigger.Trigger.Init: the storage erase-and-retry at ble_trigger.c:158-162 is folded into the one storage result passed in. The UUID format failure at 170-174 cannot happen, since both constants parse, and is proved unreachable. The host task and its sync callback are folded into `Init`: the scan-start result is an input, and the `ble_hs_id_infer_auto` result is ignored, as in the firmware.
- Button.ButtonTask.Run: states only the invariant `paused ⇒ recording` over the whole run. The effect of each pass is stated by `Button.ButtonTask.Step`.
- RecorderApp.App.Run: states the invariant and the number of sessions run. The effect of each session is stated by `RecorderApp.App.Session`.
- The ghost event log (`RecorderApp.Event`) records the order of the session's steps. It is not state the firmware keeps.

## Findings

| source | as written | input that shows it | evidently intended | confidence | as-written member | corrected member |
|---|---|---|---|---|---|---|
| components/mic/mic_capture.c:174 | `captured_samples * 1000` is computed in the 32-bit `size_t`, so it wraps once 4294968 samples (about 268.4 s) are counted; the capture loop `MicCapture.Step` uses this test | a capture longer than 268.4 s: at 4304000 samples the checkpoint due at 269000 ms is not taken, and no later count takes it, so the header is never rewritten again before the end (`MicCapture.RunSkipsLateCheckpoints`) | a checkpoint at every whole second of audio, whatever the length | not executed | MicCapture.CheckpointWraps | MicCapture.CheckpointDueEverySecond |
| components/mic/mic_capture.c:144 | `16000 * seconds` is computed in the 32-bit `size_t`, so it wraps for durations of 268436 s and more; the capture's budget `MicCapture.CaptureLoop` uses this product | `seconds = 268436` budgets 8704 samples, about half a second (latent: the firmware itself passes `seconds = 0`) | 16000 samples for every second asked for | not executed | MicCapture.TotalSamplesWraps | MicCapture.TotalSamplesPerSecond |
