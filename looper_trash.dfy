/** loopsoft/looper_trash.c as the program runs it: the recording control
    is an object whose toggle isRecording updates in place, and the loop,
    its snapshot and the block buffer are arrays.  Each method is proved
    against the matching function of TrashSpec. */
module LooperTrash {
  import opened CInt
  import opened Wrappers
  import S = TrashSpec

  /** The globals behind isRecording: the joystick (opened or not, fixed at
      start-up) and the keyboard toggle `keyrecording`. */
  class Controller {
    const joystick: bool
    var keyrecording: bool

    /** The globals as main finds them: `keyrecording` is
        zero-initialised, and a joystick is used when one was found. */
    constructor (joystick: bool)
      ensures this.joystick == joystick && !keyrecording
    {
      this.joystick := joystick;
      keyrecording := false;
    }

    ghost function View(): (r: S.Control)
      reads this
    {
      S.Control(joystick, keyrecording)
    }

    /** isRecording: `sense` is what getkey() and the joystick deliver at
        this call. */
    method IsRecording(sense: S.Sense) returns (r: bool)
      modifies this
      ensures S.Reading(View(), r) == S.Poll(old(View()), sense)
    {
      if !joystick {
        if sense.key {
          keyrecording := !keyrecording;
        }
        return keyrecording;
      } else {
        return sense.button;
      }
    }
  }

  /** main's buffers: a BUFLEN-cell loop and snapshot and a FRAMESIZE-cell
      block buffer, three different arrays. */
  ghost predicate Buffers(loop: array<int>, loopbuf: array<int>, buf: array<int>) {
    && loop.Length == S.BUFLEN && loopbuf.Length == S.BUFLEN && buf.Length == S.FRAMESIZE
    && loop != loopbuf && loop != buf && loopbuf != buf
  }

  /** main's state as a value. */
  ghost function Current(phase: S.Phase, ctl: Controller, loop: array<int>, loopbuf: array<int>, buf: array<int>,
                         looplen: int, count: int, oldrecording: bool): S.Session
    reads ctl, loop, loopbuf, buf
  {
    S.Session(phase, ctl.View(), loop[..], loopbuf[..], buf[..], looplen, count, oldrecording)
  }

  /** main's setup: the three buffers (of whatever content malloc leaves)
      and the control. */
  method Setup(joystick: bool) returns (ctl: Controller, loop: array<int>, loopbuf: array<int>, buf: array<int>)
    ensures Buffers(loop, loopbuf, buf) && fresh(ctl) && fresh(loop) && fresh(loopbuf) && fresh(buf)
    ensures ctl.joystick == joystick
    ensures S.Initial(Current(S.Waiting, ctl, loop, loopbuf, buf, 0, 0, false))
  {
    loop := new int[S.BUFLEN];
    loopbuf := new int[S.BUFLEN];
    buf := new int[S.FRAMESIZE];
    ctl := new Controller(joystick);
  }

  /** pa_simple_read succeeding: the device writes `block` into `a` from
      cell `at`. */
  method ReadInto(a: array<int>, at: int, block: seq<int>)
    requires 0 <= at && at + |block| <= a.Length
    modifies a
    ensures a[..] == S.Stored(old(a[..]), at, block)
  {
    forall j | at <= j < at + |block| {
      a[j] := block[j - at];
    }
  }

  /** The waiting loop over the calls `ss`: `while(!isRecording())`. */
  method WaitLoop(ctl: Controller, loop: array<int>, loopbuf: array<int>, buf: array<int>, ss: seq<S.Sense>)
    returns (recording: bool)
    requires Buffers(loop, loopbuf, buf)
    requires S.Wellformed(Current(S.Waiting, ctl, loop, loopbuf, buf, 0, 0, false))
    modifies ctl
    ensures Current(if recording then S.InitialRecording else S.Waiting, ctl, loop, loopbuf, buf, 0, 0, false)
         == S.WaitRun(old(Current(S.Waiting, ctl, loop, loopbuf, buf, 0, 0, false)), ss)
  {
    ghost var s0 := Current(S.Waiting, ctl, loop, loopbuf, buf, 0, 0, false);
    assert ss[..0] == [];
    recording := false;
    var k := 0;
    while k < |ss| && !recording
      invariant 0 <= k <= |ss|
      invariant Current(if recording then S.InitialRecording else S.Waiting, ctl, loop, loopbuf, buf, 0, 0, false)
             == S.WaitRun(s0, ss[..k])
    {
      S.WaitRunSnoc(s0, ss, k);
      recording := ctl.IsRecording(ss[k]);
      k := k + 1;
    }
    if k < |ss| {
      S.WaitRunAfterStart(s0, ss, k);
    } else {
      assert ss[..k] == ss;
    }
  }

  /** One iteration of the initial-recording `for` loop: read block
      `looplen` into the loop (a failed read ends the program), then
      `break` when the control reads off; the loop's own end comes at
      MAXNUMFRAMES blocks. */
  method Record(ctl: Controller, loop: array<int>, loopbuf: array<int>, buf: array<int>, looplen: int,
                block: Option<seq<int>>, sense: S.Sense)
    returns (phase: S.Phase, looplen': int)
    requires Buffers(loop, loopbuf, buf) && S.BlockFits(block)
    requires S.Wellformed(Current(S.InitialRecording, ctl, loop, loopbuf, buf, looplen, 0, false))
    modifies ctl, loop
    ensures Current(phase, ctl, loop, loopbuf, buf, looplen', 0, false)
         == S.RecordStep(old(Current(S.InitialRecording, ctl, loop, loopbuf, buf, looplen, 0, false)), block, sense)
  {
    if block.None? {
      return S.Finished, looplen;
    }
    ReadInto(loop, looplen * S.FRAMESIZE, block.value);
    var recording := ctl.IsRecording(sense);
    if !recording {
      phase, looplen' := S.Recorded, looplen;
    } else if looplen + 1 == S.MAXNUMFRAMES {
      phase, looplen' := S.Recorded, S.MAXNUMFRAMES;
    } else {
      phase, looplen' := S.InitialRecording, looplen + 1;
    }
  }

  /** The initial recording from `looplen = 0` over the takes `ts`. */
  method RecordLoop(ctl: Controller, loop: array<int>, loopbuf: array<int>, buf: array<int>, ts: seq<S.Take>)
    returns (phase: S.Phase, looplen: int)
    requires Buffers(loop, loopbuf, buf) && S.TakesFit(ts)
    requires S.Wellformed(Current(S.InitialRecording, ctl, loop, loopbuf, buf, 0, 0, false))
    modifies ctl, loop
    ensures Current(phase, ctl, loop, loopbuf, buf, looplen, 0, false)
         == S.RecordRun(old(Current(S.InitialRecording, ctl, loop, loopbuf, buf, 0, 0, false)), ts)
  {
    ghost var s0 := Current(S.InitialRecording, ctl, loop, loopbuf, buf, 0, 0, false);
    assert ts[..0] == [];
    phase, looplen := S.InitialRecording, 0;
    var k := 0;
    while k < |ts| && phase == S.InitialRecording
      invariant 0 <= k <= |ts| && S.TakesFit(ts[..k])
      invariant Current(phase, ctl, loop, loopbuf, buf, looplen, 0, false) == S.RecordRun(s0, ts[..k])
    {
      S.RecordRunSnoc(s0, ts, k);
      phase, looplen := Record(ctl, loop, loopbuf, buf, looplen, ts[k].block, ts[k].sense);
      k := k + 1;
    }
    if k < |ts| {
      S.RecordRunAfterEnd(s0, ts, k);
    } else {
      assert ts[..k] == ts;
    }
  }

  /** `int oldrecording = isRecording();` after the initial recording. */
  method Settle(ctl: Controller, loop: array<int>, loopbuf: array<int>, buf: array<int>, looplen: int, sense: S.Sense)
    returns (oldrecording: bool)
    requires Buffers(loop, loopbuf, buf)
    requires S.Wellformed(Current(S.Recorded, ctl, loop, loopbuf, buf, looplen, 0, false))
    modifies ctl
    ensures Current(S.Looping, ctl, loop, loopbuf, buf, looplen, 0, oldrecording)
         == S.Settle(old(Current(S.Recorded, ctl, loop, loopbuf, buf, looplen, 0, false)), sense)
  {
    oldrecording := ctl.IsRecording(sense);
  }

  /** The overdub loop of main: every sample of `buf` is added into the
      loop at its address, computed with the source's wrap-around branches. */
  method Overdub(loop: array<int>, buf: array<int>, looplen: int, count: int)
    requires buf.Length == S.FRAMESIZE && loop != buf
    requires 0 <= count < looplen && looplen * S.FRAMESIZE <= loop.Length
    modifies loop
    ensures loop[..] == S.Overdub(old(loop[..]), buf[..], count * S.FRAMESIZE)
  {
    var looplenn := looplen * S.FRAMESIZE;
    var i := 0;
    while i < S.FRAMESIZE
      invariant 0 <= i <= S.FRAMESIZE
      invariant forall j :: 0 <= j < loop.Length ==>
        loop[j] == if count * S.FRAMESIZE <= j < count * S.FRAMESIZE + i
                   then old(loop[j]) + buf[j - count * S.FRAMESIZE] else old(loop[j])
    {
      S.TrashAddrInLoop(count, i, looplen);
      var addr := S.TrashAddr(count * S.FRAMESIZE + i, looplenn);
      loop[addr] := loop[addr] + buf[i];
      i := i + 1;
    }
    assert forall j :: 0 <= j < loop.Length ==> loop[..][j] == S.Overdub(old(loop[..]), buf[..], count * S.FRAMESIZE)[j];
  }

  /** `memcpy(loopbuf, loop, LOOPLENN)`: LOOPLENN bytes, that is the first
      LOOPLENN / INT_BYTES cells. */
  method Refresh(loopbuf: array<int>, loop: array<int>, looplenn: int)
    requires loopbuf != loop && loopbuf.Length == loop.Length && 0 <= looplenn / S.INT_BYTES <= loop.Length
    modifies loopbuf
    ensures loopbuf[..] == S.Refresh(old(loopbuf[..]), loop[..], looplenn)
  {
    forall j | 0 <= j < looplenn / S.INT_BYTES {
      loopbuf[j] := loop[j];
    }
  }

  /** One iteration of main's `while(1)`; `played` is the block handed to
      pa_simple_write (none when the read fails). */
  method Cycle(ctl: Controller, loop: array<int>, loopbuf: array<int>, buf: array<int>,
               looplen: int, count: int, oldrecording: bool, c: S.Cycle)
    returns (phase: S.Phase, count': int, oldrecording': bool, played: seq<int>)
    requires Buffers(loop, loopbuf, buf) && S.CycleFits(c)
    requires S.Running(Current(S.Looping, ctl, loop, loopbuf, buf, looplen, count, oldrecording))
    modifies ctl, loop, loopbuf, buf
    ensures Current(phase, ctl, loop, loopbuf, buf, looplen, count', oldrecording')
         == S.LoopStep(old(Current(S.Looping, ctl, loop, loopbuf, buf, looplen, count, oldrecording)), c)
    ensures played == S.Written(old(Current(S.Looping, ctl, loop, loopbuf, buf, looplen, count, oldrecording)), c)
  {
    ghost var s0 := Current(S.Looping, ctl, loop, loopbuf, buf, looplen, count, oldrecording);
    if c.block.None? {
      return S.Finished, count, oldrecording, [];
    }
    ReadInto(buf, 0, c.block.value);
    assert buf[..] == c.block.value;
    var recording := ctl.IsRecording(c.first);
    if recording {
      Overdub(loop, buf, looplen, count);
    }
    ghost var overdubbed := loop[..];
    var now := ctl.IsRecording(c.second);
    oldrecording' := oldrecording;
    if oldrecording != now {
      oldrecording' := !oldrecording;
    }
    played := loopbuf[count * S.FRAMESIZE..count * S.FRAMESIZE + S.FRAMESIZE];
    if !c.writeOk {
      return S.Finished, count, oldrecording', played;
    }
    count' := (count + 1) % looplen;
    SuccIsMod(count, looplen);
    if count' == 0 {
      Refresh(loopbuf, loop, looplen * S.FRAMESIZE);
    }
    phase := S.Looping;
    assert S.LoopStep(s0, c)
        == s0.(control := ctl.View(), loop := overdubbed, loopbuf := loopbuf[..], buf := c.block.value,
               count := count', oldrecording := oldrecording');
  }

  /** main's `while(1)` over the cycles `cs`, until a device fails or the
      cycles run out. */
  method MainLoop(ctl: Controller, loop: array<int>, loopbuf: array<int>, buf: array<int>,
                  looplen: int, count: int, oldrecording: bool, cs: seq<S.Cycle>)
    returns (phase: S.Phase, count': int, oldrecording': bool, played: seq<seq<int>>)
    requires Buffers(loop, loopbuf, buf) && S.AllFit(cs)
    requires S.Running(Current(S.Looping, ctl, loop, loopbuf, buf, looplen, count, oldrecording))
    modifies ctl, loop, loopbuf, buf
    ensures Current(phase, ctl, loop, loopbuf, buf, looplen, count', oldrecording')
         == S.Run(old(Current(S.Looping, ctl, loop, loopbuf, buf, looplen, count, oldrecording)), cs)
    ensures played == S.Output(old(Current(S.Looping, ctl, loop, loopbuf, buf, looplen, count, oldrecording)), cs)
  {
    ghost var s0 := Current(S.Looping, ctl, loop, loopbuf, buf, looplen, count, oldrecording);
    assert cs[..0] == [];
    phase, count', oldrecording', played := S.Looping, count, oldrecording, [];
    var k := 0;
    while k < |cs| && phase == S.Looping
      invariant 0 <= k <= |cs| && S.AllFit(cs[..k]) && played == S.Output(s0, cs[..k])
      invariant Current(phase, ctl, loop, loopbuf, buf, looplen, count', oldrecording') == S.Run(s0, cs[..k])
    {
      S.RunSnoc(s0, cs, k);
      var block;
      phase, count', oldrecording', block := Cycle(ctl, loop, loopbuf, buf, looplen, count', oldrecording', cs[k]);
      played := played + [block];
      k := k + 1;
    }
    if k < |cs| {
      S.RunAfterFinish(s0, cs, k);
    } else {
      assert cs[..k] == cs;
    }
  }

  /** main from setup to the end of its input: `ss` are the calls of the
      waiting loop, `ts` the takes of the initial recording, `settle` the
      call that sets `oldrecording`, and `cs` the main loop's cycles. */
  method RunTrash(joystick: bool, ss: seq<S.Sense>, ts: seq<S.Take>, settle: S.Sense, cs: seq<S.Cycle>)
    returns (ghost start: S.Session, ctl: Controller, loop: array<int>, loopbuf: array<int>, buf: array<int>,
             phase: S.Phase, looplen: int, count: int, oldrecording: bool, played: seq<seq<int>>)
    requires S.TakesFit(ts) && S.AllFit(cs)
    ensures Buffers(loop, loopbuf, buf)
    ensures S.Initial(start) && start.control.joystick == joystick
    ensures Current(phase, ctl, loop, loopbuf, buf, looplen, count, oldrecording) == S.Program(start, ss, ts, settle, cs)
    ensures played == S.ProgramOutput(start, ss, ts, settle, cs)
  {
    ctl, loop, loopbuf, buf := Setup(joystick);
    start := Current(S.Waiting, ctl, loop, loopbuf, buf, 0, 0, false);
    S.InitialIsWellformed(start);
    var recording := WaitLoop(ctl, loop, loopbuf, buf, ss);
    looplen, count, oldrecording, played := 0, 0, false, [];
    if !recording {
      phase := S.Waiting;
      return;
    }
    phase, looplen := RecordLoop(ctl, loop, loopbuf, buf, ts);
    if phase != S.Recorded {
      return;
    }
    oldrecording := Settle(ctl, loop, loopbuf, buf, looplen, settle);
    phase := S.Looping;
    if looplen >= 1 {
      phase, count, oldrecording, played := MainLoop(ctl, loop, loopbuf, buf, looplen, 0, oldrecording, cs);
    }
  }
}
