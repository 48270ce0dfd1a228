/** loopsoft/looper.c as the program runs it: tracks are objects whose
    flags are updated in place and whose bodies are arrays written cell by
    cell, and main's loops are the loops of the methods below.  Each method
    is proved against the matching function of LooperSpec, so the
    properties proved there hold of this code. */
module Looper {
  import opened CInt
  import opened Wrappers
  import S = LooperSpec

  /** `struct recordingloop`. */
  class Track {
    const body: array<int>
    var resetpoint: int
    var recording: bool
    var muted: bool

    /** main's setup of one track: a fresh buffer of BUFLEN cells holding
        whatever malloc leaves in it, not recording, no reset pending.
        The source never assigns `muted`, so it is whatever it happens to
        be; here the caller supplies it. */
    constructor (muted: bool)
      ensures fresh(body) && body.Length == S.BUFLEN
      ensures resetpoint == S.NO_RESET && !recording && this.muted == muted
    {
      body := new int[S.BUFLEN];
      resetpoint := S.NO_RESET;
      recording := false;
      this.muted := muted;
    }

    /** The track as a value. */
    ghost function View(): (r: S.Track)
      reads this, body
    {
      S.Track(body[..], resetpoint, recording, muted)
    }
  }

  ghost function Tracks(ts: seq<Track>): (r: set<Track>) {
    set x | 0 <= x < |ts| :: ts[x]
  }

  ghost function Bodies(ts: seq<Track>): (r: set<array<int>>) {
    set x | 0 <= x < |ts| :: ts[x].body
  }

  /** No two tracks are the same object or share a buffer. */
  ghost predicate Separate(ts: seq<Track>) {
    forall x, y :: 0 <= x < |ts| && 0 <= y < |ts| && x != y ==> ts[x] != ts[y] && ts[x].body != ts[y].body
  }

  /** The tracks as values. */
  ghost function Views(ts: seq<Track>): (r: seq<S.Track>)
    reads Tracks(ts), Bodies(ts)
    ensures |r| == |ts|
  {
    seq(|ts|, x requires 0 <= x < |ts| reads Tracks(ts), Bodies(ts) => ts[x].View())
  }

  /** doInput: for every track, the recording flag becomes "reset pin
      released and recording pin pressed", and a pressed reset pin makes
      `currenttime` the reset point.  The pin levels are the values
      digitalRead returns. */
  method DoInput(subloops: seq<Track>, pins: S.Pins, currenttime: int)
    requires |pins.reset| == |subloops| && |pins.record| == |subloops|
    requires Separate(subloops)
    modifies Tracks(subloops)
    ensures Views(subloops) == S.ApplyInput(old(Views(subloops)), pins, currenttime)
  {
    var i := 0;
    while i < |subloops|
      invariant 0 <= i <= |subloops|
      invariant forall x :: 0 <= x < i ==>
        subloops[x].View() == S.PollTrack(old(subloops[x].View()), pins.reset[x], pins.record[x], currenttime)
      invariant forall x :: i <= x < |subloops| ==> subloops[x].View() == old(subloops[x].View())
    {
      var t := subloops[i];
      var rst := pins.reset[i];
      t.recording := S.PASSIVE_POSITION == rst && S.ACTIVE_POSITION == pins.record[i];
      if S.ACTIVE_POSITION == rst {
        t.resetpoint := currenttime;
      }
      i := i + 1;
    }
    assert forall x :: 0 <= x < |subloops| ==>
      Views(subloops)[x] == S.ApplyInput(old(Views(subloops)), pins, currenttime)[x];
  }

  /** anyRecording: true exactly when some track is recording. */
  method AnyRecording(subloops: seq<Track>) returns (r: bool)
    ensures r == S.SomeRecording(Views(subloops))
  {
    var i := 0;
    while i < |subloops|
      invariant 0 <= i <= |subloops|
      invariant forall x :: 0 <= x < i ==> !subloops[x].recording
    {
      if subloops[i].recording {
        assert Views(subloops)[i].recording;
        return true;
      }
      i := i + 1;
    }
    assert forall x :: 0 <= x < |subloops| ==> !Views(subloops)[x].recording;
    return false;
  }

  /** anyReset: true exactly when some track has a reset pending. */
  method AnyReset(subloops: seq<Track>) returns (r: bool)
    ensures r == S.SomeReset(Views(subloops))
  {
    var i := 0;
    while i < |subloops|
      invariant 0 <= i <= |subloops|
      invariant forall x :: 0 <= x < i ==> subloops[x].resetpoint == S.NO_RESET
    {
      if subloops[i].resetpoint != S.NO_RESET {
        assert Views(subloops)[i].resetpoint != S.NO_RESET;
        return true;
      }
      i := i + 1;
    }
    assert forall x :: 0 <= x < |subloops| ==> Views(subloops)[x].resetpoint == S.NO_RESET;
    return false;
  }

  /** handleReadin: sample `i` of the block goes to cell
      `(head + i - latency) % looplenn` (C's remainder, moved into range
      when negative) of every track, by that track's absorb rule.  Only the
      bodies change. */
  method HandleReadin(subloops: seq<Track>, inbuf: array<int>, latency: int, looplenn: int, head: int)
    requires 0 < looplenn && S.FRAMESIZE <= inbuf.Length
    requires forall x :: 0 <= x < |subloops| ==> looplenn <= subloops[x].body.Length
    requires Separate(subloops) && inbuf !in Bodies(subloops)
    modifies Bodies(subloops)
    ensures Views(subloops) == S.Absorb(old(Views(subloops)), inbuf[..], latency, looplenn, head)
  {
    ghost var before := Views(subloops);
    S.AbsorbUpToStart(before, inbuf[..], latency, looplenn, head);
    var i := 0;
    while i < S.FRAMESIZE
      invariant 0 <= i <= S.FRAMESIZE
      invariant Views(subloops) == S.AbsorbUpTo(before, inbuf[..], latency, looplenn, head, i)
    {
      var addr := S.WriteAddr(head, i, latency, looplenn);
      AbsorbSample(subloops, addr, inbuf[i]);
      S.AbsorbUpToStep(before, inbuf[..], latency, looplenn, head, i);
      i := i + 1;
    }
    S.AbsorbUpToEnd(before, inbuf[..], latency, looplenn, head);
  }

  /** The inner loop of handleReadin: one sample written to cell `addr` of
      every track, by each track's absorb rule. */
  method AbsorbSample(subloops: seq<Track>, addr: int, sample: int)
    requires forall x :: 0 <= x < |subloops| ==> 0 <= addr < subloops[x].body.Length
    requires Separate(subloops)
    modifies Bodies(subloops)
    ensures Views(subloops) == S.WriteCell(old(Views(subloops)), addr, sample)
  {
    ghost var ts := Views(subloops);
    assert forall x :: 0 <= x < |ts| ==> ts[x] == subloops[x].View();
    var x := 0;
    while x < |subloops|
      invariant 0 <= x <= |subloops|
      invariant forall y :: 0 <= y < x ==> subloops[y].View() == S.WriteTrack(ts[y], addr, sample)
      invariant forall y :: x <= y < |subloops| ==> subloops[y].View() == ts[y]
    {
      WriteSample(subloops[x], addr, sample);
      x := x + 1;
    }
    assert forall y :: 0 <= y < |subloops| ==> Views(subloops)[y] == S.WriteCell(ts, addr, sample)[y];
  }

  /** The body of handleReadin's inner loop for one track. */
  method WriteSample(t: Track, addr: int, sample: int)
    requires 0 <= addr < t.body.Length
    modifies t.body
    ensures t.View() == S.WriteTrack(old(t.View()), addr, sample)
  {
    if t.recording {
      if t.resetpoint == S.NO_RESET {
        t.body[addr] := t.body[addr] + sample;
      } else {
        t.body[addr] := sample;
      }
    } else if t.resetpoint != S.NO_RESET {
      t.body[addr] := 0;
    }
  }

  /** pa_simple_read succeeding: the device fills the input buffer with
      the captured block. */
  method Capture(inbuf: array<int>, block: seq<int>)
    requires |block| == inbuf.Length
    modifies inbuf
    ensures inbuf[..] == block
  {
    forall i | 0 <= i < inbuf.Length {
      inbuf[i] := block[i];
    }
  }

  /** main's mixdown loop: every cell of the block at `head` of the master
      loop becomes the sum of that cell over the tracks that are neither
      resetting nor muted. */
  method MixBlock(subloops: seq<Track>, masterloop: array<int>, head: int)
    requires 0 <= head && head + S.FRAMESIZE <= masterloop.Length
    requires forall x :: 0 <= x < |subloops| ==> head + S.FRAMESIZE <= subloops[x].body.Length
    requires masterloop !in Bodies(subloops)
    modifies masterloop
    ensures masterloop[..] == S.Mixdown(old(masterloop[..]), Views(subloops), head)
  {
    ghost var ts := Views(subloops);
    var i := head;
    while i < head + S.FRAMESIZE
      invariant head <= i <= head + S.FRAMESIZE
      invariant Views(subloops) == ts
      invariant forall j :: 0 <= j < masterloop.Length ==>
        masterloop[j] == if head <= j < i then S.MixSum(ts, j, |ts|) else old(masterloop[j])
    {
      var sum := 0;
      var x := 0;
      while x < |subloops|
        invariant 0 <= x <= |subloops|
        invariant sum == S.MixSum(ts, i, x)
      {
        if subloops[x].resetpoint == S.NO_RESET && !subloops[x].muted {
          sum := sum + subloops[x].body[i];
        }
        x := x + 1;
      }
      masterloop[i] := sum;
      i := i + 1;
    }
  }

  /** main's loop after the advance: every track whose reset point is the
      new block counter has finished its reset. */
  method FinishResets(subloops: seq<Track>, count: int)
    requires Separate(subloops)
    modifies Tracks(subloops)
    ensures Views(subloops) == S.FinaliseResets(old(Views(subloops)), count)
  {
    var i := 0;
    while i < |subloops|
      invariant 0 <= i <= |subloops|
      invariant forall x :: 0 <= x < i ==>
        subloops[x].View() == (if old(subloops[x].resetpoint) == count
                               then old(subloops[x].View()).(resetpoint := S.NO_RESET)
                               else old(subloops[x].View()))
      invariant forall x :: i <= x < |subloops| ==> subloops[x].View() == old(subloops[x].View())
    {
      if subloops[i].resetpoint == count {
        subloops[i].resetpoint := S.NO_RESET;
      }
      i := i + 1;
    }
    assert forall x :: 0 <= x < |subloops| ==>
      Views(subloops)[x] == S.FinaliseResets(old(Views(subloops)), count)[x];
  }

  /** main's buffers: NUM_LOOPS tracks with separate BUFLEN-cell bodies,
      a BUFLEN-cell master loop and a FRAMESIZE-cell input buffer, no two
      of them the same array. */
  ghost predicate Buffers(subloops: seq<Track>, inbuf: array<int>, masterloop: array<int>) {
    && |subloops| == S.NUM_LOOPS
    && Separate(subloops)
    && (forall x :: 0 <= x < |subloops| ==> subloops[x].body.Length == S.BUFLEN)
    && masterloop.Length == S.BUFLEN && inbuf.Length == S.FRAMESIZE
    && masterloop != inbuf && masterloop !in Bodies(subloops) && inbuf !in Bodies(subloops)
  }

  /** main's state as a value: where its control flow is, the heap it
      owns, and its locals `looplen`, `count` and `latency`. */
  ghost function Current(phase: S.Phase, subloops: seq<Track>, inbuf: array<int>, masterloop: array<int>,
                         looplen: int, count: int, latency: int): S.Session
    reads Tracks(subloops), Bodies(subloops), inbuf, masterloop
  {
    S.Session(phase, Views(subloops), inbuf[..], masterloop[..], looplen, count, latency)
  }

  /** main's setup: the buffers are allocated (their contents are
      whatever malloc leaves) and no track records or resets.  `muted` is
      each track's never-assigned flag. */
  method Setup(muted: seq<bool>, ghost latency: int) returns (subloops: seq<Track>, inbuf: array<int>, masterloop: array<int>)
    requires |muted| == S.NUM_LOOPS
    ensures Buffers(subloops, inbuf, masterloop)
    ensures fresh(inbuf) && fresh(masterloop) && fresh(Tracks(subloops)) && fresh(Bodies(subloops))
    ensures S.Initial(Current(S.Waiting, subloops, inbuf, masterloop, 0, 0, latency))
    ensures forall x :: 0 <= x < S.NUM_LOOPS ==> subloops[x].muted == muted[x]
  {
    masterloop := new int[S.BUFLEN];
    inbuf := new int[S.FRAMESIZE];
    var t0 := new Track(muted[0]);
    var t1 := new Track(muted[1]);
    var t2 := new Track(muted[2]);
    subloops := [t0, t1, t2];
  }

  /** One poll while waiting for the first recording: `doInput(subloops,
      -1)` and the `anyRecording` test of main's waiting loop. */
  method Wait(subloops: seq<Track>, inbuf: array<int>, masterloop: array<int>, pins: S.Pins, ghost latency: int)
    returns (recording: bool)
    requires Buffers(subloops, inbuf, masterloop) && S.PinsFit(pins)
    requires S.Wellformed(Current(S.Waiting, subloops, inbuf, masterloop, 0, 0, latency))
    modifies Tracks(subloops)
    ensures Current(if recording then S.InitialRecording else S.Waiting, subloops, inbuf, masterloop, 0, 0, latency)
         == S.WaitStep(old(Current(S.Waiting, subloops, inbuf, masterloop, 0, 0, latency)), pins)
  {
    DoInput(subloops, pins, -1);
    recording := AnyRecording(subloops);
  }

  /** One iteration of the initial-recording loop: read a block (a failed
      read ends the program), absorb it at head `looplen * FRAMESIZE`
      without latency compensation, poll with time `looplen`, and stop
      recording when no track records or MAXNUMFRAMES blocks are taken. */
  method Record(subloops: seq<Track>, inbuf: array<int>, masterloop: array<int>, looplen: int,
                block: Option<seq<int>>, pins: S.Pins, ghost latency: int)
    returns (phase: S.Phase, looplen': int)
    requires Buffers(subloops, inbuf, masterloop) && S.BlockFits(block) && S.PinsFit(pins)
    requires S.Wellformed(Current(S.InitialRecording, subloops, inbuf, masterloop, looplen, 0, latency))
    modifies Bodies(subloops), Tracks(subloops), inbuf
    ensures Current(phase, subloops, inbuf, masterloop, looplen', 0, latency)
         == S.RecordStep(old(Current(S.InitialRecording, subloops, inbuf, masterloop, looplen, 0, latency)), block, pins)
  {
    if block.None? {
      return S.Finished, looplen;
    }
    Capture(inbuf, block.value);
    HandleReadin(subloops, inbuf, 0, S.BUFLEN, looplen * S.FRAMESIZE);
    DoInput(subloops, pins, looplen);
    var recording := AnyRecording(subloops);
    if !recording {
      // main's `break`
      phase, looplen' := S.Looping, looplen;
    } else if looplen + 1 == S.MAXNUMFRAMES {
      // the for loop's own end
      phase, looplen' := S.Looping, S.MAXNUMFRAMES;
    } else {
      phase, looplen' := S.InitialRecording, looplen + 1;
    }
  }

  /** The first half of a main-loop cycle at block `count`: doInput with
      time `count`, then handleReadin at head `count * FRAMESIZE` when
      some track is recording or resetting. */
  method PollAndAbsorb(subloops: seq<Track>, inbuf: array<int>, pins: S.Pins, latency: int, looplenn: int, count: int)
    requires |pins.reset| == |subloops| && |pins.record| == |subloops|
    requires 0 < looplenn && S.FRAMESIZE <= inbuf.Length
    requires forall x :: 0 <= x < |subloops| ==> looplenn <= subloops[x].body.Length
    requires Separate(subloops) && inbuf !in Bodies(subloops)
    modifies Tracks(subloops), Bodies(subloops)
    ensures Views(subloops) == S.Prepare(old(Views(subloops)), pins, inbuf[..], latency, looplenn, count)
  {
    ghost var ts := Views(subloops);
    DoInput(subloops, pins, count);
    ghost var polled := Views(subloops);
    assert polled == S.ApplyInput(ts, pins, count);
    var guard := AnyRecording(subloops);
    if !guard {
      guard := AnyReset(subloops);
    }
    assert guard == (S.SomeRecording(polled) || S.SomeReset(polled));
    if guard {
      HandleReadin(subloops, inbuf, latency, looplenn, count * S.FRAMESIZE);
    }
  }

  /** One cycle of the main loop; `played` is the block handed to
      pa_simple_write (none when the read fails). */
  method Cycle(subloops: seq<Track>, inbuf: array<int>, masterloop: array<int>, latency: int,
               looplen: int, count: int, c: S.Cycle)
    returns (phase: S.Phase, count': int, played: seq<int>)
    requires Buffers(subloops, inbuf, masterloop) && S.CycleFits(c)
    requires S.Running(Current(S.Looping, subloops, inbuf, masterloop, looplen, count, latency))
    modifies Bodies(subloops), Tracks(subloops), inbuf, masterloop
    ensures Current(phase, subloops, inbuf, masterloop, looplen, count', latency)
         == S.LoopStep(old(Current(S.Looping, subloops, inbuf, masterloop, looplen, count, latency)), c)
    ensures c.block.Some? ==> played == masterloop[count * S.FRAMESIZE..count * S.FRAMESIZE + S.FRAMESIZE]
    ensures played == S.Written(old(Current(S.Looping, subloops, inbuf, masterloop, looplen, count, latency)), c)
  {
    ghost var s0 := Current(S.Looping, subloops, inbuf, masterloop, looplen, count, latency);
    S.HeadInLoop(s0);
    if c.block.None? {
      return S.Finished, count, [];
    }
    Capture(inbuf, c.block.value);
    PollAndAbsorb(subloops, inbuf, c.pins, latency, looplen * S.FRAMESIZE, count);
    ghost var prepared := Views(subloops);
    assert prepared == S.Prepared(s0, c);
    var currentHead := count * S.FRAMESIZE;
    MixBlock(subloops, masterloop, currentHead);
    ghost var master := masterloop[..];
    assert master == S.Mixdown(s0.master, prepared, currentHead);
    played := masterloop[currentHead..currentHead + S.FRAMESIZE];
    assert played == S.Played(s0, c);
    if !c.writeOk {
      assert S.LoopStep(s0, c) == s0.(phase := S.Finished, tracks := prepared, inbuf := c.block.value, master := master);
      return S.Finished, count, played;
    }
    phase, count' := S.Looping, (count + 1) % looplen;
    SuccIsMod(count, looplen);
    FinishResets(subloops, count');
    assert S.LoopStep(s0, c)
        == s0.(tracks := S.FinaliseResets(prepared, count'), inbuf := c.block.value, master := master, count := count');
  }

  /** main's `while(1)` loop over the cycles `cs`, one Cycle each, until
      a device fails (finish() ends the program) or the cycles run out;
      `played` are the blocks it writes out. */
  method MainLoop(subloops: seq<Track>, inbuf: array<int>, masterloop: array<int>, latency: int,
                  looplen: int, count: int, cs: seq<S.Cycle>)
    returns (phase: S.Phase, count': int, played: seq<seq<int>>)
    requires Buffers(subloops, inbuf, masterloop) && S.AllFit(cs)
    requires S.Running(Current(S.Looping, subloops, inbuf, masterloop, looplen, count, latency))
    modifies Bodies(subloops), Tracks(subloops), inbuf, masterloop
    ensures Current(phase, subloops, inbuf, masterloop, looplen, count', latency)
         == S.Run(old(Current(S.Looping, subloops, inbuf, masterloop, looplen, count, latency)), cs)
    ensures played == S.Output(old(Current(S.Looping, subloops, inbuf, masterloop, looplen, count, latency)), cs)
  {
    ghost var s0 := Current(S.Looping, subloops, inbuf, masterloop, looplen, count, latency);
    assert cs[..0] == [];
    phase, count', played := S.Looping, count, [];
    var k := 0;
    while k < |cs| && phase == S.Looping
      invariant 0 <= k <= |cs| && S.AllFit(cs[..k]) && played == S.Output(s0, cs[..k])
      invariant Current(phase, subloops, inbuf, masterloop, looplen, count', latency) == S.Run(s0, cs[..k])
    {
      S.RunSnoc(s0, cs, k);
      var block;
      phase, count', block := Cycle(subloops, inbuf, masterloop, latency, looplen, count', cs[k]);
      played := played + [block];
      k := k + 1;
    }
    if k < |cs| {
      S.RunAfterFinish(s0, cs, k);
    } else {
      assert cs[..k] == cs;
    }
  }

  /** main's waiting loop: `doInput(subloops, -1)` and the `anyRecording`
      test for each of the polls `ps`, until one of them starts a
      recording. */
  method WaitLoop(subloops: seq<Track>, inbuf: array<int>, masterloop: array<int>, ps: seq<S.Pins>, ghost latency: int)
    returns (recording: bool)
    requires Buffers(subloops, inbuf, masterloop) && S.PollsFit(ps)
    requires S.Wellformed(Current(S.Waiting, subloops, inbuf, masterloop, 0, 0, latency))
    modifies Tracks(subloops)
    ensures Current(if recording then S.InitialRecording else S.Waiting, subloops, inbuf, masterloop, 0, 0, latency)
         == S.WaitRun(old(Current(S.Waiting, subloops, inbuf, masterloop, 0, 0, latency)), ps)
  {
    ghost var s0 := Current(S.Waiting, subloops, inbuf, masterloop, 0, 0, latency);
    assert ps[..0] == [];
    recording := false;
    var k := 0;
    while k < |ps| && !recording
      invariant 0 <= k <= |ps| && S.PollsFit(ps[..k])
      invariant Current(if recording then S.InitialRecording else S.Waiting, subloops, inbuf, masterloop, 0, 0, latency)
             == S.WaitRun(s0, ps[..k])
    {
      S.WaitRunSnoc(s0, ps, k);
      recording := Wait(subloops, inbuf, masterloop, ps[k], latency);
      k := k + 1;
    }
    if k < |ps| {
      S.WaitRunAfterStart(s0, ps, k);
    } else {
      assert ps[..k] == ps;
    }
  }

  /** main's initial-recording `for` loop from `looplen = 0`, one Record
      for each of the takes `ts`, until the recording stops or a read
      fails. */
  method RecordLoop(subloops: seq<Track>, inbuf: array<int>, masterloop: array<int>, ts: seq<S.Take>, ghost latency: int)
    returns (phase: S.Phase, looplen: int)
    requires Buffers(subloops, inbuf, masterloop) && S.TakesFit(ts)
    requires S.Wellformed(Current(S.InitialRecording, subloops, inbuf, masterloop, 0, 0, latency))
    modifies Bodies(subloops), Tracks(subloops), inbuf
    ensures Current(phase, subloops, inbuf, masterloop, looplen, 0, latency)
         == S.RecordRun(old(Current(S.InitialRecording, subloops, inbuf, masterloop, 0, 0, latency)), ts)
  {
    ghost var s0 := Current(S.InitialRecording, subloops, inbuf, masterloop, 0, 0, latency);
    assert ts[..0] == [];
    phase, looplen := S.InitialRecording, 0;
    var k := 0;
    while k < |ts| && phase == S.InitialRecording
      invariant 0 <= k <= |ts| && S.TakesFit(ts[..k])
      invariant Current(phase, subloops, inbuf, masterloop, looplen, 0, latency) == S.RecordRun(s0, ts[..k])
    {
      S.RecordRunSnoc(s0, ts, k);
      phase, looplen := Record(subloops, inbuf, masterloop, looplen, ts[k].block, ts[k].pins, latency);
      k := k + 1;
    }
    if k < |ts| {
      S.RecordRunAfterEnd(s0, ts, k);
    } else {
      assert ts[..k] == ts;
    }
  }

  /** main from setup to the end of its input: `ps` are the polls of the
      waiting loop, `ts` the takes of the initial recording and `cs` the
      cycles of the main loop.  `start` is the state after setup. */
  method RunLooper(muted: seq<bool>, latency: int, ps: seq<S.Pins>, ts: seq<S.Take>, cs: seq<S.Cycle>)
    returns (ghost start: S.Session, subloops: seq<Track>, inbuf: array<int>, masterloop: array<int>,
             phase: S.Phase, looplen: int, count: int, played: seq<seq<int>>)
    requires |muted| == S.NUM_LOOPS && S.PollsFit(ps) && S.TakesFit(ts) && S.AllFit(cs)
    ensures Buffers(subloops, inbuf, masterloop)
    ensures S.Initial(start) && start.latency == latency
    ensures forall x :: 0 <= x < S.NUM_LOOPS ==> start.tracks[x].muted == muted[x]
    ensures Current(phase, subloops, inbuf, masterloop, looplen, count, latency) == S.Program(start, ps, ts, cs)
    ensures played == S.ProgramOutput(start, ps, ts, cs)
  {
    subloops, inbuf, masterloop := Setup(muted, latency);
    start := Current(S.Waiting, subloops, inbuf, masterloop, 0, 0, latency);
    S.InitialIsWellformed(start);
    var recording := WaitLoop(subloops, inbuf, masterloop, ps, latency);
    looplen, count, played := 0, 0, [];
    if !recording {
      phase := S.Waiting;
      return;
    }
    phase, looplen := RecordLoop(subloops, inbuf, masterloop, ts, latency);
    if phase == S.Looping && looplen >= 1 {
      phase, count, played := MainLoop(subloops, inbuf, masterloop, latency, looplen, 0, cs);
    }
  }
}
