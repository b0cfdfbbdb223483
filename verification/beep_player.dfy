/**
 Beep playback (src/oboe_player.cpp). The player holds a reference to a
 caller-owned buffer of 16-bit samples, the size the caller declared for it,
 and a read cursor. The output stream's data callback copies samples from the
 cursor into the buffer the stream wants filled, and asks the stream to stop
 on the first frame it cannot fill.
 */
module BeepPlayer {
  import opened OboeApi

  /** A 16-bit signed PCM sample (`int16_t`). Samples are only copied. */
  newtype Int16 = x: int | -0x8000 <= x < 0x8000

  /** The fields `beep_data`, `beep_data_size` and `pos` of `OboePlayer`.
      `size` is the caller's declared length, kept apart from the buffer
      because the source keeps it apart; it may even be negative. */
  datatype Player = Player(data: seq<Int16>, size: int, pos: int)

  /** What every callback relies on: the cursor, which starts at 0, is only
      incremented by callbacks and rewound to 0 by `playBeep`, is not
      negative; and the buffer really holds `size` samples (the caller's
      obligation when it hands over the pointer). */
  predicate Valid(p: Player)
  {
    0 <= p.pos && p.size <= |p.data|
  }

  /** The static `oboePlayer` before any call: null buffer, size 0, cursor 0. */
  const Initial: Player := Player([], 0, 0)

  /** The number of frames a callback is asked for, counting a non-positive
      request as none (the copy loop then does not run). */
  function Frames(numFrames: int): nat
  {
    if numFrames < 0 then 0 else numFrames
  }

  /** The number of samples still to be played from the cursor. */
  function Avail(p: Player): nat
  {
    if p.pos < p.size then p.size - p.pos else 0
  }

  /** The number of samples one callback writes: the request, or what is
      left when that is less. */
  function Written(p: Player, numFrames: int): nat
  {
    if Frames(numFrames) <= Avail(p) then Frames(numFrames) else Avail(p)
  }

  /** The next `k` samples from the cursor. When nothing is left the cursor may
      already be past the end of the buffer, so no slice is taken then. */
  function Ahead(p: Player, k: nat): seq<Int16>
    requires Valid(p)
    requires k <= Avail(p)
  {
    if k == 0 then [] else p.data[p.pos .. p.pos + k]
  }

  /** The effect of one data callback: the player afterwards, the output
      buffer as the stream receives it, and the callback's verdict. */
  datatype Outcome = Outcome(player: Player, output: seq<Int16>, result: DataCallbackResult)

  /** One data callback in closed form: a request that fits in what is left
      is served completely; otherwise what is left is written, the rest of
      the output keeps its old contents, and the cursor ends one past the
      frame that failed. */
  function Serve(p: Player, output: seq<Int16>, numFrames: int): Outcome
    requires Valid(p)
    requires numFrames <= |output|
  {
    var k := Written(p, numFrames);
    var written := Ahead(p, k) + output[k..];
    if Frames(numFrames) <= Avail(p) then
      Outcome(p.(pos := p.pos + k), written, Continue)
    else
      Outcome(p.(pos := p.pos + k + 1), written, Stop)
  }

  /** What one data callback must do, in the source's terms: return Continue
      exactly when the request fits in what is left; write the samples from
      the cursor, in order, into the front of the output (all requested
      frames, or the `Avail(p)` that are left on Stop) and leave the rest of
      the output alone; advance the cursor once per attempted frame, so on
      Stop it ends one past the frame that failed; change nothing else. */
  ghost predicate Meets(p: Player, output: seq<Int16>, numFrames: int, o: Outcome)
    requires Valid(p)
    requires numFrames <= |output|
  {
    && Valid(o.player) && o.player.data == p.data && o.player.size == p.size
    && |o.output| == |output|
    && (o.result == Continue <==> numFrames <= 0 || p.pos + numFrames <= p.size)
    && (o.result == Continue ==> o.player.pos == p.pos + Frames(numFrames))
    && (o.result == Stop ==> o.player.pos == p.pos + Avail(p) + 1)
    && var k := if o.result == Continue then Frames(numFrames) else Avail(p);
       && (forall i :: 0 <= i < k ==> o.output[i] == p.data[p.pos + i])
       && (forall i :: k <= i < |output| ==> o.output[i] == output[i])
  }

  /** The closed form does what a data callback must do. */
  lemma ServeMeaning(p: Player, output: seq<Int16>, numFrames: int, o: Outcome)
    requires Valid(p)
    requires numFrames <= |output|
    requires o == Serve(p, output, numFrames)
    ensures Meets(p, output, numFrames, o)
  {
  }

  /** Copying one more sample extends the written prefix by one. */
  lemma AheadExtend(p: Player, output: seq<Int16>, i: nat)
    requires Valid(p)
    requires i < Avail(p) && i < |output|
    ensures (Ahead(p, i) + output[i..])[i := p.data[p.pos + i]] == Ahead(p, i + 1) + output[i + 1..]
  {
  }

  /** `MyCallback::onAudioReady`: for each requested frame, take the cursor and
      increment it, then copy the sample if the taken position is below the
      size, or return Stop if it is not. `output` is the buffer of at least
      `numFrames` frames the stream asks to have filled. */
  method OnAudioReady(p: Player, output: seq<Int16>, numFrames: int) returns (o: Outcome)
    requires Valid(p)
    requires numFrames <= |output|
    ensures o == Serve(p, output, numFrames)
    ensures Meets(p, output, numFrames, o)
  {
    var pos := p.pos;
    var out := output;
    var i := 0;
    while i < numFrames
      invariant 0 <= i <= Frames(numFrames) && i <= Avail(p)
      invariant pos == p.pos + i
      invariant out == Ahead(p, i) + output[i..]
    {
      var taken := pos;
      pos := pos + 1;
      if taken < p.size {
        AheadExtend(p, output, i);
        out := out[i := p.data[taken]];
      } else {
        assert i == Avail(p) < Frames(numFrames);
        assert Written(p, numFrames) == i;
        o := Outcome(p.(pos := pos), out, Stop);
        ServeMeaning(p, output, numFrames, o);
        return;
      }
      i := i + 1;
    }
    assert i == Frames(numFrames) <= Avail(p);
    assert Written(p, numFrames) == i;
    o := Outcome(p.(pos := pos), out, Continue);
    ServeMeaning(p, output, numFrames, o);
  }

  /** Whether playback got going, as far as the library's answers show. */
  datatype Playback =
    | Running       // opened and started: callbacks will drain the buffer
    | StartFailed   // opened, but `requestStart` was refused
    | OpenFailed    // `openStream` failed; see the README on what follows

  /** The effect of `playBeep`: the player, the stream's fate and the requests
      made to the library, in order. Nothing is reported to the caller. */
  datatype BeepOutcome = BeepOutcome(player: Player, stream: Playback, requests: seq<Request>)

  /** `OboePlayer::playBeep` with the library's answers to `openStream` and
      `requestStart` as parameters. The cursor is rewound before anything is
      opened, so it is rewound whatever the library answers. */
  function PlayBeep(p: Player, open: Result, start: Result): (b: BeepOutcome)
    ensures b.player.pos == 0 && b.player.data == p.data && b.player.size == p.size
    ensures Valid(b.player) <==> p.size <= |p.data|
    ensures b.stream == Running <==> open.Ok? && start.Ok?
    ensures b.stream == OpenFailed <==> !open.Ok?
    ensures open.Ok? ==> b.requests == [OpenStream, RequestStart]
    ensures !open.Ok? ==> b.requests == [OpenStream]
  {
    var rewound := p.(pos := 0);
    if !open.Ok? then
      BeepOutcome(rewound, OpenFailed, [OpenStream])
    else if !start.Ok? then
      BeepOutcome(rewound, StartFailed, [OpenStream, RequestStart])
    else
      BeepOutcome(rewound, Running, [OpenStream, RequestStart])
  }

  /** `load_beep_data`: replace the buffer reference and its size. The cursor
      is left where it was; only `playBeep` rewinds it. */
  function LoadBeepData(p: Player, data: seq<Int16>, size: int): (q: Player)
    ensures q.data == data && q.size == size
    ensures q.pos == p.pos
    ensures Valid(q) <==> 0 <= p.pos && size <= |data|
  {
    Player(data, size, p.pos)
  }
}
