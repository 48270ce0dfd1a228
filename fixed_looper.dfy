/** looper.c as the program runs it: the loop and the block buffer are
    arrays, and main's zero-fill, copy and advance are the loops below,
    each proved against FixedSpec. */
module FixedLooper {
  import opened CInt
  import opened Wrappers
  import S = FixedSpec

  ghost function Current(phase: S.Phase, loop: array<int>, buf: array<int>, count: int): (r: S.Session)
    reads loop, buf
  {
    S.Session(phase, loop[..], buf[..], count)
  }

  /** main's allocation and its zero-fill loop: every cell of the loop is
      0; the block buffer holds whatever malloc left. */
  method Setup() returns (loop: array<int>, buf: array<int>)
    ensures fresh(loop) && fresh(buf) && loop != buf
    ensures S.Initial(Current(S.Looping, loop, buf, 0))
  {
    loop := new int[S.BUFLEN];
    buf := new int[S.FRAMESIZE];
    var i := 0;
    while i < S.BUFLEN
      invariant 0 <= i <= S.BUFLEN
      invariant forall j :: 0 <= j < i ==> loop[j] == 0
    {
      loop[i] := 0;
      i := i + 1;
    }
  }

  /** pa_simple_read succeeding: the device fills the block buffer. */
  method Capture(buf: array<int>, block: seq<int>)
    requires |block| == buf.Length
    modifies buf
    ensures buf[..] == block
  {
    forall i | 0 <= i < buf.Length {
      buf[i] := block[i];
    }
  }

  /** main's copy loop: every sample of the block is added into the loop
      100 samples early. */
  method AddBlock(loop: array<int>, buf: array<int>, count: int)
    requires loop.Length == S.BUFLEN && buf.Length == S.FRAMESIZE && loop != buf
    requires 0 <= count < S.NUMFRAMES
    modifies loop
    ensures loop[..] == S.Added(old(loop[..]), buf[..], count, S.FRAMESIZE)
  {
    var i := 0;
    while i < S.FRAMESIZE
      invariant 0 <= i <= S.FRAMESIZE
      invariant loop[..] == S.Added(old(loop[..]), buf[..], count, i)
    {
      var addr := count * S.FRAMESIZE + i - S.LATENCY;
      if addr < 0 {
        addr := S.BUFLEN + addr;
      }
      S.FixedAddrIsMod(count, i);
      loop[addr] := loop[addr] + buf[i];
      i := i + 1;
    }
  }

  /** One iteration of main's `while(1)`; `played` is the block handed to
      pa_simple_write (none when the read fails). */
  method Cycle(loop: array<int>, buf: array<int>, count: int, c: S.Cycle)
    returns (phase: S.Phase, count': int, played: seq<int>)
    requires loop.Length == S.BUFLEN && buf.Length == S.FRAMESIZE && loop != buf && S.CycleFits(c)
    requires S.Wellformed(Current(S.Looping, loop, buf, count))
    modifies loop, buf
    ensures Current(phase, loop, buf, count') == S.LoopStep(old(Current(S.Looping, loop, buf, count)), c)
    ensures played == S.Written(old(Current(S.Looping, loop, buf, count)), c)
  {
    if c.block.None? {
      return S.Finished, count, [];
    }
    Capture(buf, c.block.value);
    AddBlock(loop, buf, count);
    played := loop[count * S.FRAMESIZE..count * S.FRAMESIZE + S.FRAMESIZE];
    if !c.writeOk {
      return S.Finished, count, played;
    }
    phase, count' := S.Looping, (count + 1) % S.NUMFRAMES;
    SuccIsMod(count, S.NUMFRAMES);
  }

  /** main's `while(1)` over the cycles `cs`, until a device fails or the
      cycles run out. */
  method MainLoop(loop: array<int>, buf: array<int>, count: int, cs: seq<S.Cycle>)
    returns (phase: S.Phase, count': int, played: seq<seq<int>>)
    requires loop.Length == S.BUFLEN && buf.Length == S.FRAMESIZE && loop != buf && S.AllFit(cs)
    requires S.Wellformed(Current(S.Looping, loop, buf, count))
    modifies loop, buf
    ensures Current(phase, loop, buf, count') == S.Run(old(Current(S.Looping, loop, buf, count)), cs)
    ensures played == S.Output(old(Current(S.Looping, loop, buf, count)), cs)
  {
    ghost var s0 := Current(S.Looping, loop, buf, count);
    assert cs[..0] == [];
    phase, count', played := S.Looping, count, [];
    var k := 0;
    while k < |cs| && phase == S.Looping
      invariant 0 <= k <= |cs| && S.AllFit(cs[..k]) && played == S.Output(s0, cs[..k])
      invariant Current(phase, loop, buf, count') == S.Run(s0, cs[..k])
    {
      S.RunSnoc(s0, cs, k);
      var block;
      phase, count', block := Cycle(loop, buf, count', cs[k]);
      played := played + [block];
      k := k + 1;
    }
    if k < |cs| {
      S.RunAfterFinish(s0, cs, k);
    } else {
      assert cs[..k] == cs;
    }
  }

  /** main from its zero-fill to the end of its input. */
  method RunFixed(cs: seq<S.Cycle>) returns (ghost start: S.Session, loop: array<int>, buf: array<int>,
                                             phase: S.Phase, count: int, played: seq<seq<int>>)
    requires S.AllFit(cs)
    ensures S.Initial(start)
    ensures Current(phase, loop, buf, count) == S.Run(start, cs)
    ensures played == S.Output(start, cs)
  {
    loop, buf := Setup();
    start := Current(S.Looping, loop, buf, 0);
    phase, count, played := MainLoop(loop, buf, 0, cs);
  }
}
