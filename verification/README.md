# Oboe audio bridge: playback cursor and capture handoff

This project models the two pieces of self-contained logic in a small native
bridge. The bridge exposes beep playback and microphone capture over the
Oboe low-latency audio library to a managed caller through C functions.

- **Beep playback** (`src/oboe_player.cpp`). The static `OboePlayer` holds a
  reference to a caller-owned buffer of 16-bit samples (`beep_data`), the size
  the caller declared for it (`beep_data_size`) and a read cursor (`pos`).
  - `load_beep_data` replaces the buffer reference and the size.
  - `playBeep` rewinds the cursor, then opens and starts an output stream.
  - The stream's data callback, `MyCallback::onAudioReady`, copies samples
    from the cursor into the buffer it is handed. For each frame it first
    takes the cursor and increments it. It then copies the sample, or returns
    `Stop` if the taken position is not below the size.
- **Microphone capture** (`src/oboe_recorder.cpp`). The static `OboeRecorder`
  holds the caller's consumer function and one input stream.
  - Each data callback allocates a buffer of `numFrames` floats and copies
    the delivered frames into it. It hands the buffer to the consumer and
    always returns `Continue`.
  - When the allocation fails, the callback skips the consumer.
  - `startRecording` and `stopRecording` turn the library's answers into the
    status codes 0 (success) and 1 (failure).
  - `start_recording` installs the consumer before starting.
  - `stop_recording` forwards to `stopRecording`.

Files:
- `oboe_api.dfy` (module `OboeApi`): the library's vocabulary. It holds the
  request outcome (`Ok` or `Error`), the data callback's verdict
  (`Continue`/`Stop`) and the requests the bridge makes.
- `beep_player.dfy` (module `BeepPlayer`): the player state and its three
  operations. The callback is a loop (`OnAudioReady`) proved equal to a
  closed-form definition (`Serve`).
- `beep_drain.dfy` (module `BeepDrain`): playback over a sequence of callbacks
  until the first `Stop`, and the properties of that sequence.
- `recorder.dfy` (module `Recorder`): the capture callback, the control
  functions with their status codes, and sequences of calls and deliveries.

The Oboe library is not modelled. Each answer it gives enters as a parameter:
the result of `openStream`, `requestStart` and `requestStop`, and whether
`malloc` succeeded. Control calls also return the list of requests made to the
library, in order. This lets the model state that no start is attempted after
a failed open.

The output and input buffers are values (`seq`). The data callbacks return the
filled buffer or the handed-off copy instead of writing through a pointer.
The cursor is an unbounded integer that is never negative.

One detail of the source is kept on purpose. The cursor is incremented before
the bounds check, so on the frame that stops playback the cursor ends one
past that frame. Each later callback moves it one further. `OnAudioReady` and
`ExhaustedStopsAgain` state this overshoot.

## Model

| member | source | states |
|---|---|---|
| BeepPlayer.OnAudioReady | src/oboe_player.cpp:20-43 | The callback returns Continue exactly when numFrames <= 0 or pos + numFrames <= size. It then writes output[i] == data[pos+i] for every requested frame and advances the cursor by exactly the frames requested. Otherwise it writes the k = max(0, size - pos) remaining samples in order into output[0..k), leaves output[k..] untouched, returns Stop and leaves the cursor at pos + k + 1. The buffer and size never change, and the loop equals the closed form Serve. |
| BeepPlayer.PlayBeep | src/oboe_player.cpp:60-88 | playBeep rewinds the cursor to 0 whatever the library answers and keeps the buffer and size. The stream runs exactly when open and start both succeed. A failed open makes no start request. A refused start ends the call after the start request, and nothing is reported to the caller. |
| BeepPlayer.LoadBeepData | src/oboe_player.cpp:137-140 | load_beep_data replaces the buffer reference and the size and leaves the cursor where it was. The new state is valid exactly when the new buffer holds the declared size. |
| BeepDrain.ServeStep | src/oboe_player.cpp:32-42 | One callback writes exactly the next Written samples from the cursor at the front of its output, leaves the cursor one past every attempted frame (Next), and returns Stop exactly when more frames are requested than are left. |
| BeepDrain.Run | src/oboe_player.cpp:32-42 | Serving callbacks until the first Stop never changes the buffer or the size, keeps the state valid, and writes no more samples than were requested. |
| BeepDrain.PlayIsRun | src/oboe_player.cpp:32-42 | What the callbacks write over a session, whether it stopped and where the cursor ends depend only on the frame counts requested, not on the contents of the buffers the stream hands in. |
| BeepDrain.DrainFrom | src/oboe_player.cpp:32-42 | From any cursor inside the loaded samples, a sequence of callbacks stops exactly when more frames are requested in total than are left. A stopped session has written every remaining sample once, in order, with the cursor one past the end. A session still running has written exactly the requested frames and advanced the cursor by that many. |
| BeepDrain.DrainDeliversBuffer | src/oboe_player.cpp:32-42 | From cursor 0, the concatenated samples written by successive callbacks are data[0..size) followed by a Stop, once the requests exceed the size. Before that, they are the first samples of the buffer, as many as were requested in total. |
| BeepDrain.ReplayDeliversBuffer | src/oboe_player.cpp:62 | After playBeep, enough callbacks play the whole loaded buffer again, however far an earlier session had got. |
| BeepDrain.ExhaustedStopsAgain | src/oboe_player.cpp:32-39 | Once the cursor is at or past the size, a callback asking for frames writes nothing, returns Stop and moves the cursor one further, so Stop repeats. A callback asking for no frame changes nothing and returns Continue. |
| BeepDrain.ExhaustedStopsForever | src/oboe_player.cpp:32-42 | Once the cursor is at or past the size, Stop is idempotent over any number of further calls. Each call asking for a frame returns Stop and each asking for none returns Continue. No output buffer is touched, and the cursor ends one further per call that asked for a frame. |
| BeepDrain.ReadsOnlyBelowSize | src/oboe_player.cpp:33-35 | Two buffers that agree below the declared size give the same output, verdict and cursor, so nothing at or beyond the size is read. |
| BeepDrain.EmptyBufferStopsAtOnce | src/oboe_player.cpp:32-38 | The player before any load (size 0, cursor 0) stops on the first callback that asks for a frame and writes nothing. |
| BeepDrain.LoadWithoutRewindStops | src/oboe_player.cpp:137-140 | Loading a buffer no longer than the cursor, without playBeep, makes the next callback that asks for a frame stop and write nothing, because loading keeps the cursor. |
| BeepDrain.LoadThenPlayDeliversNewBuffer | src/oboe_player.cpp:137-140 | Loading a buffer, then playBeep, then enough callbacks plays exactly the new buffer from its start, whatever the cursor was before the load. |
| Recorder.OnAudioReady | src/oboe_recorder.cpp:68-95 | The capture callback always returns Continue. It invokes the installed consumer exactly when the allocation succeeds. The consumer gets count numFrames and a fresh buffer of numFrames samples equal to the input's first numFrames samples. |
| Recorder.StartRecording | src/oboe_recorder.cpp:17-45 | startRecording returns 0 or 1, and 0 exactly when open and start both succeed. A failed open returns 1 after the open request alone, without attempting a start. Otherwise it makes both requests and leaves the stream open, running exactly when start succeeded. The consumer is unchanged. |
| Recorder.StopRecording | src/oboe_recorder.cpp:47-54 | For an open stream, stopRecording makes one stop request and returns 0 exactly when it reports OK, 1 otherwise. The stream stops running only on success, and the consumer is unchanged. |
| Recorder.ExportStartRecording | src/oboe_recorder.cpp:102-105 | start_recording stores the pointer it is given, null included, before starting, so it stays stored even when the start fails. The stream it leaves open is wired exactly when that pointer is not null. It returns 0 exactly when open and start succeed. |
| Recorder.ExportStopRecording | src/oboe_recorder.cpp:107-109 | stop_recording returns 0 exactly when the stop succeeds. It keeps the consumer and the open handle, so a wired recorder stays wired. |
| Recorder.ExecKeepsWired | src/oboe_recorder.cpp:99-109 | Over any sequence of start_recording and stop_recording calls from a wired recorder, every status returned is 0 or 1. If every start_recording passes a non-null consumer, a consumer is installed whenever a stream is open. |
| Recorder.NullConsumerUnwired | src/oboe_recorder.cpp:102-105 | start_recording with a null consumer and a successful open leaves an open stream with no consumer, so its data callback would call through the null pointer. |
| Recorder.CyclesSucceed | src/oboe_recorder.cpp:102-109 | Repeated start_recording/stop_recording rounds that the library accepts each return 0, whatever an earlier round left. The recorder ends with the consumer installed and the stream open but stopped. |
| Recorder.StopWithoutStreamUndefined | src/oboe_recorder.cpp:47-48 | stop_recording before any stream was opened has no modelled outcome, because the source dereferences the handle unguarded. |
| Recorder.InitialWired | src/oboe_recorder.cpp:99 | From the static recorder's initial state (no consumer, no stream), if every start_recording passes a non-null consumer, every reachable recorder with an open stream has a consumer installed. |
| Recorder.CaptureInOrder | src/oboe_recorder.cpp:72-89 | Over any sequence of deliveries, there is one consumer invocation per successful allocation, always to the installed consumer, with a count equal to the buffer length. The concatenated received samples are exactly the frames of the successful deliveries, in order. |
| Recorder.CaptureLossless | src/oboe_recorder.cpp:72-89 | When every allocation succeeds, there is one invocation per delivery and the consumer receives every delivered frame, in order. |

## Left out

- Oboe itself is not modelled: builder configuration (direction, performance mode, sharing mode, format, channel count, the fixed 4000 Hz capture rate), `getFormat`, `getSampleRate`, `calculateLatencyMillis` and `getFramesPerDataCallback`. The answers to `openStream`, `requestStart` and `requestStop` are parameters.
- BeepPlayer.PlayBeep: after a failed `openStream` the source goes on to call `getFormat` and `requestStart` through the empty stream handle, which is undefined behaviour. The model ends the call there with the outcome `OpenFailed` and only the open request.
- Stream lifetime is not modelled. The stream in `playBeep` is a local shared pointer released when the function returns. The `MyCallback` allocated per call is never freed.
- Recorder.StartRecording: the state of the handle after a failed `openStream` belongs to the library; the model treats it as no usable stream (`NoStream`).
- BeepPlayer.LoadBeepData: the source stores only a pointer to the caller's samples, so writes the caller makes into that memory later are played too. The model holds the buffer's contents at load time. Changed contents are modelled as a new `LoadBeepData` with the same size, which keeps the cursor as the source does; the "loaded buffer" in `ReplayDeliversBuffer` means the contents current at `playBeep`.
- Memory management (`malloc`, `memcpy`, handing ownership to the consumer) is modelled only as a fresh sequence plus an allocation-success flag. Freeing the buffer is the consumer's business.
- Recorder.OnAudioReady: requires 0 <= numFrames <= the input length, which the library promises its callbacks. It also requires a consumer to be installed. The source calls through the function pointer unchecked. `ExecKeepsWired` shows every open stream has one as long as start_recording is never given a null pointer; `NullConsumerUnwired` shows the case where it is.
- BeepPlayer.OnAudioReady: requires the buffer to hold the declared size and the output buffer to hold `numFrames` frames. Both are the callers' obligations in the source, which cannot check them.
- The error callbacks (`onError`, `onErrorBeforeClose`, `onErrorAfterClose`) only log. The `bool onError` bodies have no return statement.
- Logging (`LOGI`, `LOGE`, `src/debug_log.h`) is Android log output.
- Concurrency is not modelled. The data callbacks run on the audio thread and the control calls on the caller's thread; the model treats each call as one sequential step.
- The commented-out white-noise generator in `src/oboe_player.cpp` is dead code. The floating-point content of captured samples is never inspected (the sample type is a parameter).
- `oboe_options` is declared in `src/oboe_recorder.h` but has no definition here. The `OboePlayer` data and error callback overrides are declared in `src/oboe_player.h` but never defined.
- Start and end timestamp events, device-id and frames-per-callback options, and guards against starting twice do not exist in this source and are not modelled.
- The cursor is an unbounded integer. C `int` overflow of `pos`, after about 2^31 callbacks past the end, is not modelled.
