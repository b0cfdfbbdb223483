/**
 Playback over many data callbacks. The stream keeps calling the data
 callback until the callback returns Stop; these definitions follow the
 player through such a sequence of calls and prove that, from a rewound
 cursor, the samples written are exactly the loaded buffer, in order.
 */
module BeepDrain {
  import opened OboeApi
  import opened BeepPlayer

  /** One invocation of the data callback by the stream: the buffer to fill
      and the number of frames asked for. */
  datatype Call = Call(output: seq<Int16>, numFrames: int)

  /** Every call's buffer holds the frames it asks for. */
  predicate Fits(calls: seq<Call>)
  {
    forall i :: 0 <= i < |calls| ==> calls[i].numFrames <= |calls[i].output|
  }

  /** Dropping the first call keeps the remaining calls fitting. */
  lemma FitsTail(calls: seq<Call>)
    requires Fits(calls) && |calls| > 0
    ensures Fits(calls[1..])
  {
  }

  /** The frame counts the calls ask for, in order. */
  function Requests(calls: seq<Call>): (frames: seq<int>)
    ensures |frames| == |calls|
    ensures forall i :: 0 <= i < |calls| ==> frames[i] == calls[i].numFrames
  {
    if |calls| == 0 then [] else [calls[0].numFrames] + Requests(calls[1..])
  }

  /** The number of frames asked for over a sequence of requests. */
  function Total(frames: seq<int>): nat
  {
    if |frames| == 0 then 0 else Frames(frames[0]) + Total(frames[1..])
  }

  /** The samples the caller loaded: `data[0..size)`, or nothing when the
      declared size is not positive. */
  function End(p: Player): nat
  {
    if p.size < 0 then 0 else p.size
  }

  /** Whether a callback asking for `numFrames` returns Stop. */
  predicate Stops(p: Player, numFrames: int)
  {
    Frames(numFrames) > Avail(p)
  }

  /** The player after a callback asking for `numFrames`: the cursor moves
      past every frame attempted, including the one that fails. */
  function Next(p: Player, numFrames: int): Player
  {
    if Stops(p, numFrames) then p.(pos := p.pos + Avail(p) + 1)
    else p.(pos := p.pos + Frames(numFrames))
  }

  /** What one data callback does, in the pieces the session definitions
      use: it writes `Ahead(p, Written(p, numFrames))` at the front of its
      output, leaves the player at `Next(p, numFrames)`, and stops exactly
      when `Stops(p, numFrames)`. */
  lemma ServeStep(p: Player, output: seq<Int16>, numFrames: int)
    requires Valid(p)
    requires numFrames <= |output|
    ensures Serve(p, output, numFrames).output[..Written(p, numFrames)] == Ahead(p, Written(p, numFrames))
    ensures Serve(p, output, numFrames).player == Next(p, numFrames)
    ensures Serve(p, output, numFrames).result == Stop <==> Stops(p, numFrames)
  {
  }

  /** What a playback session produces: the samples written, in the order the
      stream received them, whether the callback has returned Stop, and the
      player afterwards. */
  datatype Session = Session(delivered: seq<Int16>, stopped: bool, player: Player)

  /** The stream calling the data callback with the given buffers until a
      call returns Stop (it makes no further calls after that); `delivered`
      collects the samples each call wrote at the front of its buffer. */
  function Play(p: Player, calls: seq<Call>): Session
    requires Valid(p)
    requires Fits(calls)
    decreases |calls|
  {
    if |calls| == 0 then
      Session([], false, p)
    else
      var o := Serve(p, calls[0].output, calls[0].numFrames);
      var written := o.output[..Written(p, calls[0].numFrames)];
      if o.result == Stop then
        Session(written, true, o.player)
      else
        var rest := Play(o.player, calls[1..]);
        Session(written + rest.delivered, rest.stopped, rest.player)
  }

  /** The same session in terms of the frame counts alone: what is written
      does not depend on the buffers handed in. */
  function Run(p: Player, frames: seq<int>): (s: Session)
    requires Valid(p)
    ensures Valid(s.player) && s.player.data == p.data && s.player.size == p.size
    ensures |s.delivered| <= Total(frames)
    decreases |frames|
  {
    if |frames| == 0 then
      Session([], false, p)
    else
      var written := Ahead(p, Written(p, frames[0]));
      if Stops(p, frames[0]) then
        Session(written, true, Next(p, frames[0]))
      else
        var rest := Run(Next(p, frames[0]), frames[1..]);
        Session(written + rest.delivered, rest.stopped, rest.player)
  }

  /** Playing the calls is running their frame counts. */
  lemma {:induction false} PlayIsRun(p: Player, calls: seq<Call>)
    requires Valid(p)
    requires Fits(calls)
    ensures Play(p, calls) == Run(p, Requests(calls))
    decreases |calls|
  {
    if |calls| > 0 {
      ServeStep(p, calls[0].output, calls[0].numFrames);
      var frames := Requests(calls);
      assert frames[0] == calls[0].numFrames && frames[1..] == Requests(calls[1..]);
      if !Stops(p, calls[0].numFrames) {
        FitsTail(calls);
        PlayIsRun(Next(p, calls[0].numFrames), calls[1..]);
      }
    }
  }

  /** What a session from a cursor inside the loaded samples, asked for
      `total` frames, must produce: the callback stops exactly when more
      frames are asked for than are left; a stopped session has written every
      remaining sample once, in order, and left the cursor one past the end;
      a session still going has written exactly the frames asked for. */
  ghost predicate Drained(p: Player, total: nat, s: Session)
    requires Valid(p)
    requires p.pos <= End(p)
  {
    && (s.stopped <==> total > End(p) - p.pos)
    && (s.stopped ==> s.delivered == p.data[p.pos .. End(p)] && s.player.pos == End(p) + 1)
    && (!s.stopped ==> s.delivered == p.data[p.pos .. p.pos + total] && s.player.pos == p.pos + total)
  }

  /** Splitting a slice of the buffer at an inner index. */
  lemma SplitSlice(d: seq<Int16>, a: int, b: int, c: int)
    requires 0 <= a <= b <= c <= |d|
    ensures d[a..c] == d[a..b] + d[b..c]
  {
  }

  /** A callback that stops, within a session asking for `total` frames,
      drains the rest of the loaded samples. */
  lemma DrainAtStop(p: Player, numFrames: int, total: nat)
    requires Valid(p)
    requires p.pos <= End(p)
    requires Stops(p, numFrames) && Frames(numFrames) <= total
    ensures Drained(p, total, Session(Ahead(p, Avail(p)), true, Next(p, numFrames)))
  {
  }

  /** Serving `f` frames without stopping, then a session that drains from the
      new cursor, drains from the old one. */
  lemma DrainAfterContinue(p: Player, f: nat, restTotal: nat, rest: Session)
    requires Valid(p)
    requires p.pos <= End(p)
    requires f <= Avail(p)
    requires Drained(p.(pos := p.pos + f), restTotal, rest)
    ensures Drained(p, f + restTotal, Session(Ahead(p, f) + rest.delivered, rest.stopped, rest.player))
  {
    if rest.stopped {
      SplitSlice(p.data, p.pos, p.pos + f, End(p));
    } else {
      SplitSlice(p.data, p.pos, p.pos + f, p.pos + f + restTotal);
    }
  }

  /** Every session from a cursor inside the loaded samples drains. */
  lemma {:induction false} DrainFrom(p: Player, frames: seq<int>)
    requires Valid(p)
    requires p.pos <= End(p)
    ensures Drained(p, Total(frames), Run(p, frames))
    decreases |frames|
  {
    if |frames| == 0 {
      return;
    }
    var n := frames[0];
    assert Total(frames) == Frames(n) + Total(frames[1..]);
    if Stops(p, n) {
      assert Run(p, frames) == Session(Ahead(p, Avail(p)), true, Next(p, n));
      DrainAtStop(p, n, Total(frames));
    } else {
      var q := Next(p, n);
      assert q == p.(pos := p.pos + Frames(n));
      DrainFrom(q, frames[1..]);
      var rest := Run(q, frames[1..]);
      assert Run(p, frames) == Session(Ahead(p, Frames(n)) + rest.delivered, rest.stopped, rest.player);
      DrainAfterContinue(p, Frames(n), Total(frames[1..]), rest);
    }
  }

  /** From a rewound cursor, the samples the callbacks write, concatenated,
      are the start of the loaded buffer; the stream is stopped exactly when
      more frames have been asked for than the buffer holds, and then they
      are the whole buffer, `data[0..size)`, each sample once and in order. */
  lemma DrainDeliversBuffer(p: Player, calls: seq<Call>)
    requires Valid(p)
    requires Fits(calls)
    requires p.pos == 0
    ensures Play(p, calls).stopped <==> Total(Requests(calls)) > End(p)
    ensures Play(p, calls).stopped ==> Play(p, calls).delivered == p.data[..End(p)]
    ensures !Play(p, calls).stopped ==> Play(p, calls).delivered == p.data[..Total(Requests(calls))]
  {
    PlayIsRun(p, calls);
    DrainFrom(p, Requests(calls));
  }

  /** `playBeep` followed by enough callbacks plays the whole loaded buffer
      again, however far an earlier session had got: the rewind isolates
      sessions from each other. */
  lemma ReplayDeliversBuffer(p: Player, open: Result, start: Result, calls: seq<Call>)
    requires Valid(p)
    requires Fits(calls)
    requires Total(Requests(calls)) > End(p)
    ensures Play(PlayBeep(p, open, start).player, calls).stopped
    ensures Play(PlayBeep(p, open, start).player, calls).delivered == p.data[..End(p)]
  {
    DrainDeliversBuffer(PlayBeep(p, open, start).player, calls);
  }

  /** Once the cursor is at or past the size, every call that asks for a frame
      writes nothing, returns Stop and leaves the cursor still past the size,
      so Stop repeats on every later call; a call asking for no frame changes
      nothing and returns Continue. */
  lemma ExhaustedStopsAgain(p: Player, output: seq<Int16>, numFrames: int)
    requires Valid(p)
    requires numFrames <= |output|
    requires p.pos >= p.size
    ensures var o := Serve(p, output, numFrames);
            && o.output == output
            && (numFrames > 0 ==> o.result == Stop && o.player.pos == p.pos + 1)
            && (numFrames <= 0 ==> o.result == Continue && o.player == p)
            && Valid(o.player) && o.player.pos >= o.player.size
  {
  }

  /** What the player would answer if the stream went on calling after a
      Stop: every call is served, whatever the previous verdict. */
  datatype Trace = Trace(results: seq<DataCallbackResult>, outputs: seq<seq<Int16>>, player: Player)

  function Sweep(p: Player, calls: seq<Call>): Trace
    requires Valid(p)
    requires Fits(calls)
    decreases |calls|
  {
    if |calls| == 0 then
      Trace([], [], p)
    else
      var o := Serve(p, calls[0].output, calls[0].numFrames);
      var rest := Sweep(o.player, calls[1..]);
      Trace([o.result] + rest.results, [o.output] + rest.outputs, rest.player)
  }

  /** The number of calls that ask for at least one frame. */
  function Asking(calls: seq<Call>): nat
  {
    if |calls| == 0 then 0 else (if calls[0].numFrames > 0 then 1 else 0) + Asking(calls[1..])
  }

  /** Once the cursor is at or past the size, Stop is idempotent over any
      number of further calls: each call that asks for a frame returns Stop,
      each that asks for none returns Continue, no output buffer is touched,
      and the cursor moves one further per Stop. */
  lemma {:induction false} ExhaustedStopsForever(p: Player, calls: seq<Call>)
    requires Valid(p)
    requires Fits(calls)
    requires p.pos >= p.size
    ensures |Sweep(p, calls).results| == |calls| && |Sweep(p, calls).outputs| == |calls|
    ensures forall i :: 0 <= i < |calls| ==>
              Sweep(p, calls).results[i] == (if calls[i].numFrames > 0 then Stop else Continue)
    ensures forall i :: 0 <= i < |calls| ==> Sweep(p, calls).outputs[i] == calls[i].output
    ensures Sweep(p, calls).player == p.(pos := p.pos + Asking(calls))
    decreases |calls|
  {
    if |calls| > 0 {
      var o := Serve(p, calls[0].output, calls[0].numFrames);
      ExhaustedStopsAgain(p, calls[0].output, calls[0].numFrames);
      FitsTail(calls);
      ExhaustedStopsForever(o.player, calls[1..]);
      var t := Sweep(p, calls);
      var rest := Sweep(o.player, calls[1..]);
      forall i | 0 <= i < |calls|
        ensures t.results[i] == (if calls[i].numFrames > 0 then Stop else Continue)
        ensures t.outputs[i] == calls[i].output
      {
        if i > 0 {
          assert t.results[i] == rest.results[i - 1];
          assert t.outputs[i] == rest.outputs[i - 1];
          assert calls[1..][i - 1] == calls[i];
        }
      }
    }
  }

  /** The samples the callback writes depend on the buffer only below the
      declared size: two buffers that agree there give the same output, the
      same verdict and the same cursor, so nothing at or beyond the size is
      read. */
  lemma ReadsOnlyBelowSize(p: Player, q: Player, output: seq<Int16>, numFrames: int)
    requires Valid(p) && Valid(q)
    requires p.pos == q.pos && p.size == q.size
    requires forall j :: 0 <= j < p.size ==> p.data[j] == q.data[j]
    requires numFrames <= |output|
    ensures Serve(p, output, numFrames).output == Serve(q, output, numFrames).output
    ensures Serve(p, output, numFrames).result == Serve(q, output, numFrames).result
    ensures Serve(p, output, numFrames).player.pos == Serve(q, output, numFrames).player.pos
  {
  }

  /** The static player before any buffer is loaded stops on the first call
      that asks for a frame, having written nothing. */
  lemma EmptyBufferStopsAtOnce(output: seq<Int16>, numFrames: int)
    requires 0 < numFrames <= |output|
    ensures Serve(Initial, output, numFrames).result == Stop
    ensures Serve(Initial, output, numFrames).output == output
  {
  }

  /** Loading a buffer and then calling `playBeep` plays the new buffer from
      its start, whatever the cursor was before. */
  lemma LoadThenPlayDeliversNewBuffer(p: Player, data: seq<Int16>, size: int,
                                      open: Result, start: Result, calls: seq<Call>)
    requires 0 <= p.pos
    requires size <= |data|
    requires Fits(calls)
    requires Total(Requests(calls)) > End(Player(data, size, 0))
    ensures var q := PlayBeep(LoadBeepData(p, data, size), open, start).player;
            Play(q, calls).stopped && Play(q, calls).delivered == data[..End(q)]
  {
    var q := PlayBeep(LoadBeepData(p, data, size), open, start).player;
    DrainDeliversBuffer(q, calls);
  }

  /** Loading a new buffer keeps the cursor, so a buffer no longer than the
      cursor is not played until `playBeep` rewinds: the next call that asks
      for a frame stops without writing. */
  lemma LoadWithoutRewindStops(p: Player, data: seq<Int16>, size: int, output: seq<Int16>, numFrames: int)
    requires Valid(p)
    requires size <= |data| && size <= p.pos
    requires 0 < numFrames <= |output|
    ensures var o := Serve(LoadBeepData(p, data, size), output, numFrames);
            o.result == Stop && o.output == output
  {
  }
}
