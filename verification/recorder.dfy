/**
 Microphone capture (src/oboe_recorder.cpp). The recorder remembers the
 caller's consumer function and one input stream. Each data callback copies
 the delivered frames into a fresh buffer and hands that buffer to the
 consumer; `startRecording` and `stopRecording` turn the library's answers
 into the status codes 0 (success) and 1 (failure).

 Samples are floats that are only ever copied, so their type is a parameter
 `F` here. The consumer is a C function pointer; the model identifies it by
 a number, writes a possibly null pointer as `Option<Consumer>`, and records
 each invocation as a `Handoff`.
 */
module Recorder {
  import opened OboeApi

  /** The identity of a caller-supplied `void (*)(float *, int)` consumer. */
  type Consumer = nat

  /** The recorder's stream handle: none usable, or open and possibly started. */
  datatype Stream = NoStream | Open(running: bool)

  /** The state of the static `oboeRecorder`: its `callback` field (null until
      `start_recording` sets it) and its `mStream`. */
  datatype Recorder = Recorder(consumer: Option<Consumer>, stream: Stream)

  /** The static recorder before any call. */
  const Initial: Recorder := Recorder(None, NoStream)

  /** A recorder whose stream can deliver data only has a consumer to deliver
      it to: this is what makes the data callback's use of `callback` safe. */
  predicate Wired(r: Recorder)
  {
    r.stream.Open? ==> r.consumer.Some?
  }

  /** One invocation of the consumer: which consumer, the buffer it now owns,
      and the frame count passed alongside. */
  datatype Handoff<F> = Handoff(consumer: Consumer, buffer: seq<F>, count: int)

  /** One data callback in closed form: the invocation it makes, if any. */
  function Handle<F>(r: Recorder, input: seq<F>, numFrames: int, allocOk: bool): Option<Handoff<F>>
    requires r.consumer.Some?
    requires 0 <= numFrames <= |input|
  {
    if allocOk then Some(Handoff(r.consumer.value, input[..numFrames], numFrames)) else None
  }

  /** `OboeRecorder::onAudioReady`: allocate `numFrames` floats (`allocOk` is
      whether `malloc` succeeded), copy the delivered frames into them and
      hand them to the consumer. `input` is the stream's buffer of
      `numFrames` frames. The recorder is not changed: the callback returns no
      new state, and the copy is handed off with no reference kept. */
  method OnAudioReady<F>(r: Recorder, input: seq<F>, numFrames: int, allocOk: bool)
    returns (handoff: Option<Handoff<F>>, result: DataCallbackResult)
    requires r.consumer.Some?
    requires 0 <= numFrames <= |input|
    ensures result == Continue
    ensures handoff.Some? <==> allocOk
    ensures handoff.Some? ==>
              && handoff.value.consumer == r.consumer.value
              && handoff.value.count == numFrames
              && |handoff.value.buffer| == numFrames
              && forall i :: 0 <= i < numFrames ==> handoff.value.buffer[i] == input[i]
    ensures handoff == Handle(r, input, numFrames, allocOk)
  {
    if !allocOk {
      return None, Continue;
    }
    var copy: seq<F> := [];
    var i := 0;
    while i < numFrames
      invariant 0 <= i <= numFrames
      invariant copy == input[..i]
    {
      copy := copy + [input[i]];
      i := i + 1;
    }
    handoff := Some(Handoff(r.consumer.value, copy, numFrames));
    result := Continue;
  }

  /** The effect of a control call: the recorder afterwards, the status code
      returned to the caller, and the requests made to the library. */
  datatype Control = Control(recorder: Recorder, status: int, requests: seq<Request>)

  /** `OboeRecorder::startRecording` with the library's answers to
      `openStream` and `requestStart` as parameters. A failed open returns 1
      at once, without asking to start; a failed start returns 1; only an open
      and a start that both succeed return 0. */
  function StartRecording(r: Recorder, open: Result, start: Result): (c: Control)
    ensures c.status == 0 || c.status == 1
    ensures c.status == 0 <==> open.Ok? && start.Ok?
    ensures !open.Ok? ==> c.requests == [OpenStream] && c.recorder.stream == NoStream
    ensures open.Ok? ==> c.requests == [OpenStream, RequestStart] && c.recorder.stream == Open(start.Ok?)
    ensures c.recorder.consumer == r.consumer
  {
    if !open.Ok? then
      Control(r.(stream := NoStream), 1, [OpenStream])
    else if !start.Ok? then
      Control(r.(stream := Open(false)), 1, [OpenStream, RequestStart])
    else
      Control(r.(stream := Open(true)), 0, [OpenStream, RequestStart])
  }

  /** `OboeRecorder::stopRecording` with the library's answer to `requestStop`
      as a parameter. The source does not check that a stream was ever
      opened, so that is the caller's obligation here. */
  function StopRecording(r: Recorder, stop: Result): (c: Control)
    requires r.stream.Open?
    ensures c.status == 0 || c.status == 1
    ensures c.status == 0 <==> stop.Ok?
    ensures c.requests == [RequestStop]
    ensures c.recorder.consumer == r.consumer
    ensures stop.Ok? ==> c.recorder.stream == Open(false)
    ensures !stop.Ok? ==> c.recorder.stream == r.stream
  {
    if stop.Ok? then Control(r.(stream := Open(false)), 0, [RequestStop])
    else Control(r, 1, [RequestStop])
  }

  /** `start_recording`: store the pointer it is given, null included
      (`None`), then start. The pointer stays stored whatever the start
      returns; the stream the call leaves open is wired exactly when the
      pointer is not null. */
  function ExportStartRecording(r: Recorder, consumer: Option<Consumer>, open: Result, start: Result): (c: Control)
    ensures c.recorder.consumer == consumer
    ensures Wired(c.recorder) <==> consumer.Some? || !open.Ok?
    ensures c.status == 0 <==> open.Ok? && start.Ok?
    ensures c.status == 0 ==> c.recorder.stream == Open(true)
    ensures !open.Ok? ==> c.requests == [OpenStream]
  {
    StartRecording(r.(consumer := consumer), open, start)
  }

  /** `stop_recording`: forwards to `stopRecording`. Stopping never removes
      the consumer, so a wired recorder stays wired. */
  function ExportStopRecording(r: Recorder, stop: Result): (c: Control)
    requires r.stream.Open?
    ensures Wired(r) ==> Wired(c.recorder)
    ensures c.status == 0 <==> stop.Ok?
    ensures c.recorder.stream.Open? && c.recorder.consumer == r.consumer
  {
    StopRecording(r, stop)
  }

  /** A call the managed caller makes through the exported functions. */
  datatype Command = Start(consumer: Option<Consumer>, open: Result, start: Result) | Halt(stop: Result)

  /** Every `start_recording` in the sequence passes a non-null consumer. */
  predicate NonNull(cmds: seq<Command>)
  {
    forall i :: 0 <= i < |cmds| && cmds[i].Start? ==> cmds[i].consumer.Some?
  }

  /** The recorder after a sequence of calls, with the status each returned;
      None when a stop is issued with no stream, which the source does not
      guard against. */
  function Exec(r: Recorder, cmds: seq<Command>): Option<(Recorder, seq<int>)>
    decreases |cmds|
  {
    if |cmds| == 0 then Some((r, []))
    else
      var step: Option<Control> :=
        match cmds[0]
        case Start(consumer, open, start) => Some(ExportStartRecording(r, consumer, open, start))
        case Halt(stop) => if r.stream.Open? then Some(ExportStopRecording(r, stop)) else None;
      if step.None? then None
      else
        match Exec(step.value.recorder, cmds[1..])
        case None => None
        case Some((r', statuses)) => Some((r', [step.value.status] + statuses))
  }

  /** Over any sequence of exported calls from a wired recorder in which
      every `start_recording` passes a non-null consumer, every status
      returned is 0 or 1, and whenever a stream is open a consumer is
      installed. */
  lemma {:induction false} ExecKeepsWired(r: Recorder, cmds: seq<Command>)
    requires Wired(r)
    requires NonNull(cmds)
    ensures Exec(r, cmds).Some? ==> Wired(Exec(r, cmds).value.0)
    ensures Exec(r, cmds).Some? ==>
              forall i :: 0 <= i < |Exec(r, cmds).value.1| ==> Exec(r, cmds).value.1[i] in {0, 1}
    decreases |cmds|
  {
    if |cmds| == 0 {
      return;
    }
    var step: Option<Control> :=
      match cmds[0]
      case Start(consumer, open, start) => Some(ExportStartRecording(r, consumer, open, start))
      case Halt(stop) => if r.stream.Open? then Some(ExportStopRecording(r, stop)) else None;
    if step.Some? {
      var c := step.value;
      assert c.status in {0, 1} by {
        match cmds[0]
        case Start(consumer, open, start) =>
          assert StartRecording(r.(consumer := consumer), open, start) == c;
        case Halt(stop) =>
          assert StopRecording(r, stop) == c;
      }
      assert NonNull(cmds[1..]) by {
        forall i | 0 <= i < |cmds[1..]| && cmds[1..][i].Start?
          ensures cmds[1..][i].consumer.Some?
        {
          assert cmds[1..][i] == cmds[i + 1];
        }
      }
      ExecKeepsWired(c.recorder, cmds[1..]);
    }
  }

  /** The initial recorder is wired (it has no stream), so the invariant holds
      from the first call on. */
  lemma InitialWired(cmds: seq<Command>)
    requires NonNull(cmds)
    ensures Exec(Initial, cmds).Some? ==> Wired(Exec(Initial, cmds).value.0)
  {
    ExecKeepsWired(Initial, cmds);
  }

  /** The source does not check the pointer `start_recording` is given: a
      null consumer with an open that succeeds leaves an open stream with no
      consumer, whose data callback would call through the null pointer. */
  lemma NullConsumerUnwired(r: Recorder, start: Result)
    ensures Exec(r, [Start(None, Ok, start)]).Some?
    ensures !Wired(Exec(r, [Start(None, Ok, start)]).value.0)
    ensures Exec(r, [Start(None, Ok, start)]).value.0.stream == Open(start.Ok?)
  {
  }

  /** `n` rounds of `start_recording` followed by `stop_recording`, with the
      library accepting every request. */
  function Cycles(consumer: Consumer, n: nat): seq<Command>
  {
    if n == 0 then [] else [Start(Some(consumer), Ok, Ok), Halt(Ok)] + Cycles(consumer, n - 1)
  }

  /** Start/stop cycles are independent: from any recorder, every round
      succeeds (each call returns 0), whatever an earlier round left behind,
      and the recorder ends with the consumer installed and the stream open
      but stopped. */
  lemma {:induction false} CyclesSucceed(r: Recorder, consumer: Consumer, n: nat)
    ensures Exec(r, Cycles(consumer, n)).Some?
    ensures |Exec(r, Cycles(consumer, n)).value.1| == 2 * n
    ensures forall i :: 0 <= i < 2 * n ==> Exec(r, Cycles(consumer, n)).value.1[i] == 0
    ensures n > 0 ==> Exec(r, Cycles(consumer, n)).value.0 == Recorder(Some(consumer), Open(false))
    decreases n
  {
    if n > 0 {
      var cmds := Cycles(consumer, n);
      var rest := Cycles(consumer, n - 1);
      var started := Recorder(Some(consumer), Open(true));
      var stopped := Recorder(Some(consumer), Open(false));
      assert cmds[0] == Start(Some(consumer), Ok, Ok);
      assert cmds[1..][0] == Halt(Ok) && cmds[1..][1..] == rest;
      CyclesSucceed(stopped, consumer, n - 1);
      var tail := Exec(stopped, rest).value;
      assert Exec(started, cmds[1..]) == Some((tail.0, [0] + tail.1));
      assert Exec(r, cmds) == Some((tail.0, [0] + ([0] + tail.1)));
      if n == 1 {
        assert rest == [];
      }
    }
  }

  /** `stop_recording` before any successful open is the source's unguarded
      case: the model has no outcome for it. */
  lemma StopWithoutStreamUndefined(stop: Result)
    ensures Exec(Initial, [Halt(stop)]).None?
  {
  }

  /** One hardware delivery to the data callback: the input buffer, the frame
      count, and whether the allocation for the copy succeeds. */
  datatype Delivery<F> = Delivery(input: seq<F>, numFrames: int, allocOk: bool)

  /** Every delivery's buffer holds the frames it announces. */
  predicate Proper<F>(ds: seq<Delivery<F>>)
  {
    forall i :: 0 <= i < |ds| ==> 0 <= ds[i].numFrames <= |ds[i].input|
  }

  /** The consumer invocations over a sequence of deliveries. The callback
      always answers Continue, so the stream keeps delivering. */
  function Capture<F>(r: Recorder, ds: seq<Delivery<F>>): seq<Handoff<F>>
    requires r.consumer.Some?
    requires Proper(ds)
    decreases |ds|
  {
    if |ds| == 0 then []
    else
      var h := Handle(r, ds[0].input, ds[0].numFrames, ds[0].allocOk);
      assert Proper(ds[1..]) by {
        forall i | 0 <= i < |ds[1..]|
          ensures 0 <= ds[1..][i].numFrames <= |ds[1..][i].input|
        {
          assert ds[1..][i] == ds[i + 1];
        }
      }
      (if h.Some? then [h.value] else []) + Capture(r, ds[1..])
  }

  /** The deliveries whose allocation succeeded. */
  function Succeeded<F>(ds: seq<Delivery<F>>): seq<Delivery<F>>
  {
    if |ds| == 0 then [] else (if ds[0].allocOk then [ds[0]] else []) + Succeeded(ds[1..])
  }

  /** The frames the hardware delivered, in order. */
  function Sent<F>(ds: seq<Delivery<F>>): seq<F>
    requires Proper(ds)
  {
    if |ds| == 0 then [] else ds[0].input[..ds[0].numFrames] + Sent(ds[1..])
  }

  /** The samples the consumer received, in order. */
  function Received<F>(hs: seq<Handoff<F>>): seq<F>
  {
    if |hs| == 0 then [] else hs[0].buffer + Received(hs[1..])
  }

  /** Filtering keeps the buffers' promise of holding their frames. */
  lemma {:induction false} SucceededProper<F>(ds: seq<Delivery<F>>)
    requires Proper(ds)
    ensures Proper(Succeeded(ds))
    ensures |Succeeded(ds)| <= |ds|
    decreases |ds|
  {
    if |ds| > 0 {
      assert Proper(ds[1..]) by {
        forall i | 0 <= i < |ds[1..]|
          ensures 0 <= ds[1..][i].numFrames <= |ds[1..][i].input|
        {
          assert ds[1..][i] == ds[i + 1];
        }
      }
      SucceededProper(ds[1..]);
    }
  }

  /** Over any sequence of deliveries, the consumer is invoked once per
      successful allocation, always the installed consumer, with a count equal
      to its buffer's length; and the samples it receives are exactly the
      frames of the successful deliveries, in order. A failed allocation
      drops its frames and nothing else. */
  lemma {:induction false} CaptureInOrder<F>(r: Recorder, ds: seq<Delivery<F>>)
    requires r.consumer.Some?
    requires Proper(ds)
    ensures Proper(Succeeded(ds))
    ensures |Capture(r, ds)| == |Succeeded(ds)|
    ensures forall i :: 0 <= i < |Capture(r, ds)| ==>
              Capture(r, ds)[i].consumer == r.consumer.value
              && Capture(r, ds)[i].count == |Capture(r, ds)[i].buffer|
    ensures Received(Capture(r, ds)) == Sent(Succeeded(ds))
    decreases |ds|
  {
    SucceededProper(ds);
    if |ds| == 0 {
      return;
    }
    assert Proper(ds[1..]) by {
      forall i | 0 <= i < |ds[1..]|
        ensures 0 <= ds[1..][i].numFrames <= |ds[1..][i].input|
      {
        assert ds[1..][i] == ds[i + 1];
      }
    }
    CaptureInOrder(r, ds[1..]);
    var h := Handle(r, ds[0].input, ds[0].numFrames, ds[0].allocOk);
    var head: seq<Handoff<F>> := if h.Some? then [h.value] else [];
    var tail := Capture(r, ds[1..]);
    assert Capture(r, ds) == head + tail;
    ReceivedAppend(head, tail);
    SucceededProper(ds[1..]);
    if ds[0].allocOk {
      assert Succeeded(ds) == [ds[0]] + Succeeded(ds[1..]);
      assert ([ds[0]] + Succeeded(ds[1..]))[1..] == Succeeded(ds[1..]);
      assert Received(head) == ds[0].input[..ds[0].numFrames];
    } else {
      assert Succeeded(ds) == Succeeded(ds[1..]);
    }
  }

  /** The samples received over two runs of invocations are those of the
      first followed by those of the second. */
  lemma {:induction false} ReceivedAppend<F>(a: seq<Handoff<F>>, b: seq<Handoff<F>>)
    ensures Received(a + b) == Received(a) + Received(b)
    decreases |a|
  {
    if |a| == 0 {
      assert a + b == b;
    } else {
      assert (a + b)[1..] == a[1..] + b;
      ReceivedAppend(a[1..], b);
    }
  }

  /** When every allocation succeeds, capture is lossless: one invocation per
      delivery and the consumer receives every frame the hardware sent, in
      order. */
  lemma CaptureLossless<F>(r: Recorder, ds: seq<Delivery<F>>)
    requires r.consumer.Some?
    requires Proper(ds)
    requires forall i :: 0 <= i < |ds| ==> ds[i].allocOk
    ensures |Capture(r, ds)| == |ds|
    ensures Received(Capture(r, ds)) == Sent(ds)
  {
    AllSucceeded(ds);
    CaptureInOrder(r, ds);
  }

  /** Filtering deliveries that all succeeded keeps them all. */
  lemma {:induction false} AllSucceeded<F>(ds: seq<Delivery<F>>)
    requires forall i :: 0 <= i < |ds| ==> ds[i].allocOk
    ensures Succeeded(ds) == ds
    decreases |ds|
  {
    if |ds| > 0 {
      AllSucceeded(ds[1..]);
      assert [ds[0]] + ds[1..] == ds;
    }
  }
}
