/** looper.c, the first prototype of the looper, as values: a loop of a
    fixed NUMFRAMES blocks, zero at the start, into which every block read
    is added 100 samples early (a constant latency offset), and out of
    which the block at the head is played right after. */
module FixedSpec {
  import opened CInt
  import opened Wrappers

  const FRAMESIZE: int := 1024
  const NUMFRAMES: int := 1000
  const BUFLEN: int := FRAMESIZE * NUMFRAMES
  /** `netlatency_buf`: the offset main writes with, in samples. */
  const LATENCY: int := 100

  /** The cell sample `i` of the block read at block `count` is added to:
      `count * FRAMESIZE + i - 100`, moved up by BUFLEN when negative. */
  function FixedAddr(count: int, i: int): (r: int)
    ensures (r - (count * FRAMESIZE + i - LATENCY)) % BUFLEN == 0
    ensures count * FRAMESIZE + i - LATENCY >= -BUFLEN ==> r >= 0
  {
    var addr := count * FRAMESIZE + i - LATENCY;
    if addr < 0 then BUFLEN + addr else addr
  }

  /** For a head inside the loop and a sample of the block, the address is
      a cell of the loop and is the mathematical residue of
      `count * FRAMESIZE + i - 100` modulo BUFLEN. */
  lemma FixedAddrIsMod(count: int, i: int)
    requires 0 <= count < NUMFRAMES && 0 <= i < FRAMESIZE
    ensures 0 <= FixedAddr(count, i) < BUFLEN
    ensures FixedAddr(count, i) == (count * FRAMESIZE + i - LATENCY) % BUFLEN
  {
    var addr := count * FRAMESIZE + i - LATENCY;
    if addr < 0 {
      EuclidUnique(addr, BUFLEN, -1, BUFLEN + addr);
    } else {
      EuclidUnique(addr, BUFLEN, 0, addr);
    }
  }

  /** The sample of the block read at block `count` that lands on cell
      `j`, when it is below FRAMESIZE. */
  function Offset(j: int, count: int): (r: int) {
    (j - (count * FRAMESIZE - LATENCY)) % BUFLEN
  }

  /** Sample `i` lands on cell `j` exactly when `i` is the offset of `j`;
      so the FRAMESIZE samples of a block land on FRAMESIZE different
      cells. */
  lemma FixedAddrHits(count: int, i: int, j: int)
    requires 0 <= count < NUMFRAMES && 0 <= i < FRAMESIZE && 0 <= j < BUFLEN
    ensures FixedAddr(count, i) == j <==> i == Offset(j, count)
  {
    FixedAddrIsMod(count, i);
    assert count * FRAMESIZE + i - LATENCY == (count * FRAMESIZE - LATENCY) + i;
    ResidueOffset(count * FRAMESIZE - LATENCY, i, j, BUFLEN);
  }

  /** The loop after the first `n` samples of `buf` have been added, one
      after the other, as main's copy loop does. */
  function Added(loop: seq<int>, buf: seq<int>, count: int, n: nat): (r: seq<int>)
    requires |loop| == BUFLEN && 0 <= count < NUMFRAMES && n <= |buf| && n <= FRAMESIZE
    ensures |r| == BUFLEN
    decreases n
  {
    if n == 0 then
      loop
    else
      var prev := Added(loop, buf, count, n - 1);
      FixedAddrIsMod(count, n - 1);
      var a := FixedAddr(count, n - 1);
      prev[a := prev[a] + buf[n - 1]]
  }

  /** The copy loop cell by cell: a cell hit by one of the first `n`
      samples holds its old value plus that sample, every other cell keeps
      its value. */
  lemma {:induction false} AddedCells(loop: seq<int>, buf: seq<int>, count: int, n: nat)
    requires |loop| == BUFLEN && 0 <= count < NUMFRAMES && n <= |buf| && n <= FRAMESIZE
    ensures forall j :: 0 <= j < BUFLEN ==>
      Added(loop, buf, count, n)[j]
      == if Offset(j, count) < n then loop[j] + buf[Offset(j, count)] else loop[j]
  {
    if n > 0 {
      AddedCells(loop, buf, count, n - 1);
      var a := FixedAddr(count, n - 1);
      FixedAddrHits(count, n - 1, a);
      forall j | 0 <= j < BUFLEN
        ensures j != a ==> Offset(j, count) != n - 1
      {
        FixedAddrHits(count, n - 1, j);
      }
    }
  }

  /** Where main is: in its `while(1)`, or ended by a failed read or write. */
  datatype Phase = Looping | Finished

  /** main's state: the loop, the block buffer and the head `count`. */
  datatype Session = Session(phase: Phase, loop: seq<int>, buf: seq<int>, count: int)

  predicate Wellformed(s: Session) {
    |s.loop| == BUFLEN && |s.buf| == FRAMESIZE && 0 <= s.count < NUMFRAMES
  }

  /** main after its zero-fill loop: every cell of the loop is 0 and the
      head is at block 0; the block buffer holds whatever malloc left. */
  predicate Initial(s: Session) {
    && s.phase == Looping && s.count == 0 && |s.buf| == FRAMESIZE
    && |s.loop| == BUFLEN && forall j :: 0 <= j < |s.loop| ==> s.loop[j] == 0
  }

  /** What one iteration of the loop meets: the block read (none when the
      read fails) and whether the write succeeds. */
  datatype Cycle = Cycle(block: Option<seq<int>>, writeOk: bool)

  predicate CycleFits(c: Cycle) {
    c.block.Some? ==> |c.block.value| == FRAMESIZE
  }

  predicate Clean(c: Cycle) {
    c.block.Some? && c.writeOk
  }

  /** One iteration of main's `while(1)` at block `count`: read a block (a
      failed read ends the program), add it into the loop 100 samples
      early, play the loop's block at the head (a failed write ends the
      program), and advance the head modulo NUMFRAMES. */
  function LoopStep(s: Session, c: Cycle): (r: Session)
    requires Wellformed(s) && s.phase == Looping && CycleFits(c)
    ensures Wellformed(r)
    ensures Clean(c) ==> r.phase == Looping && r.count == Succ(s.count, NUMFRAMES)
    ensures !Clean(c) ==> r.phase == Finished && r.count == s.count
  {
    if c.block.None? then
      s.(phase := Finished)
    else
      var loop := Added(s.loop, c.block.value, s.count, FRAMESIZE);
      if !c.writeOk then
        s.(phase := Finished, loop := loop, buf := c.block.value)
      else
        s.(loop := loop, buf := c.block.value, count := Succ(s.count, NUMFRAMES))
  }

  /** The block an iteration plays: the loop's block at the head, read
      after the same iteration's addition. */
  function Played(s: Session, c: Cycle): (r: seq<int>)
    requires Wellformed(s) && s.phase == Looping && CycleFits(c) && c.block.Some?
    ensures |r| == FRAMESIZE
  {
    var loop := Added(s.loop, c.block.value, s.count, FRAMESIZE);
    loop[s.count * FRAMESIZE..s.count * FRAMESIZE + FRAMESIZE]
  }

  /** A cycle that reads a block adds every sample of it to exactly one
      cell: cell `j` gains the sample at its offset when that offset is
      inside the block, and every other cell keeps its value. */
  lemma LoopStepAdds(s: Session, c: Cycle, j: int)
    requires Wellformed(s) && s.phase == Looping && CycleFits(c) && c.block.Some? && 0 <= j < BUFLEN
    ensures LoopStep(s, c).loop[j]
         == if Offset(j, s.count) < FRAMESIZE then s.loop[j] + c.block.value[Offset(j, s.count)] else s.loop[j]
  {
    AddedCells(s.loop, c.block.value, s.count, FRAMESIZE);
  }

  /** The block played at the head is the loop there plus the block just
      read, shifted by the latency: sample `i` of the output gains sample
      `i + 100` of the input, and the last 100 output samples gain
      nothing from it. */
  lemma PlayedAfterAdd(s: Session, c: Cycle, i: int)
    requires Wellformed(s) && s.phase == Looping && CycleFits(c) && c.block.Some? && 0 <= i < FRAMESIZE
    ensures Played(s, c)[i]
         == s.loop[s.count * FRAMESIZE + i] + (if i + LATENCY < FRAMESIZE then c.block.value[i + LATENCY] else 0)
  {
    var j := s.count * FRAMESIZE + i;
    AddedCells(s.loop, c.block.value, s.count, FRAMESIZE);
    assert j - (s.count * FRAMESIZE - LATENCY) == i + LATENCY;
    EuclidUnique(i + LATENCY, BUFLEN, 0, i + LATENCY);
  }

  predicate AllFit(cs: seq<Cycle>) {
    forall k :: 0 <= k < |cs| ==> CycleFits(cs[k])
  }

  predicate AllClean(cs: seq<Cycle>) {
    forall k :: 0 <= k < |cs| ==> Clean(cs[k])
  }

  /** The state after the cycles `cs`, in order; once the program has
      ended, later cycles have no effect. */
  function Run(s: Session, cs: seq<Cycle>): (r: Session)
    requires Wellformed(s) && s.phase == Looping && AllFit(cs)
    ensures Wellformed(r)
    decreases |cs|
  {
    if |cs| == 0 then
      s
    else
      var prefix := cs[..|cs| - 1];
      assert forall k :: 0 <= k < |prefix| ==> prefix[k] == cs[k];
      var p := Run(s, prefix);
      if p.phase == Looping then LoopStep(p, cs[|cs| - 1]) else p
  }

  /** Without device failures the program keeps looping, and every cycle
      advances the head by one block: after `n` cycles from block `count`
      it is at `Advance(count, n, NUMFRAMES)`, which is `(count + n) %
      NUMFRAMES` (AdvanceIsMod), so it stays in `[0, NUMFRAMES)`. */
  lemma {:induction false} RunAdvances(s: Session, cs: seq<Cycle>)
    requires Wellformed(s) && s.phase == Looping && AllFit(cs) && AllClean(cs)
    ensures Run(s, cs).phase == Looping
    ensures Run(s, cs).count == Advance(s.count, |cs|, NUMFRAMES)
    decreases |cs|
  {
    if |cs| > 0 {
      var prefix := cs[..|cs| - 1];
      assert forall k :: 0 <= k < |prefix| ==> prefix[k] == cs[k];
      RunAdvances(s, prefix);
      var p := Run(s, prefix);
      var last := cs[|cs| - 1];
      assert Clean(last);
      assert Run(s, cs) == LoopStep(p, last);
      assert Advance(s.count, |cs|, NUMFRAMES) == Succ(Advance(s.count, |prefix|, NUMFRAMES), NUMFRAMES);
    }
  }

  /** The block a main-loop iteration hands to pa_simple_write: the loop's block at the head after this iteration's addition,
      none when the read fails. */
  function Written(s: Session, c: Cycle): (r: seq<int>)
    requires Wellformed(s) && s.phase == Looping && CycleFits(c)
  {
    if c.block.Some? then Played(s, c) else []
  }

  /** The blocks main's loop hands to pa_simple_write over the cycles
      `cs` from `s`, in order: one for each iteration the loop runs (none
      for one whose read fails), and none after a device has failed. */
  function Output(s: Session, cs: seq<Cycle>): (r: seq<seq<int>>)
    requires Wellformed(s) && s.phase == Looping && AllFit(cs)
    ensures |r| <= |cs|
    ensures Run(s, cs).phase == Looping ==> |r| == |cs|
    decreases |cs|
  {
    if |cs| == 0 then
      []
    else
      var prefix := cs[..|cs| - 1];
      assert forall k :: 0 <= k < |prefix| ==> prefix[k] == cs[k];
      var p := Run(s, prefix);
      if p.phase == Looping then Output(s, prefix) + [Written(p, cs[|cs| - 1])] else Output(s, prefix)
  }

  /** Block k of the output is what iteration k writes from the state the
      first k iterations leave, which is still looping: the loop wrote
      nothing after a failure. */
  lemma {:induction false} OutputAt(s: Session, cs: seq<Cycle>, k: nat)
    requires Wellformed(s) && s.phase == Looping && AllFit(cs) && k < |Output(s, cs)|
    ensures AllFit(cs[..k]) && Run(s, cs[..k]).phase == Looping
    ensures Output(s, cs)[k] == Written(Run(s, cs[..k]), cs[k])
    decreases |cs|
  {
    var prefix := cs[..|cs| - 1];
    assert forall j :: 0 <= j < |prefix| ==> prefix[j] == cs[j];
    if k < |Output(s, prefix)| {
      OutputAt(s, prefix, k);
      assert prefix[..k] == cs[..k];
    } else {
      OutputLast(s, cs);
    }
  }

  /** The last block of the output, when the last iteration wrote one. */
  lemma OutputLast(s: Session, cs: seq<Cycle>)
    requires Wellformed(s) && s.phase == Looping && AllFit(cs) && 0 < |cs|
    requires |Output(s, cs[..|cs| - 1])| < |Output(s, cs)|
    ensures AllFit(cs[..|cs| - 1]) && Run(s, cs[..|cs| - 1]).phase == Looping
    ensures |Output(s, cs[..|cs| - 1])| == |cs| - 1
    ensures Output(s, cs)[|cs| - 1] == Written(Run(s, cs[..|cs| - 1]), cs[|cs| - 1])
  {
  }

  lemma RunSnoc(s: Session, cs: seq<Cycle>, k: nat)
    requires Wellformed(s) && s.phase == Looping && AllFit(cs) && k < |cs|
    ensures AllFit(cs[..k]) && AllFit(cs[..k + 1])
    ensures Run(s, cs[..k + 1])
         == if Run(s, cs[..k]).phase == Looping then LoopStep(Run(s, cs[..k]), cs[k]) else Run(s, cs[..k])
    ensures Output(s, cs[..k + 1])
         == if Run(s, cs[..k]).phase == Looping
            then Output(s, cs[..k]) + [Written(Run(s, cs[..k]), cs[k])] else Output(s, cs[..k])
  {
    assert cs[..k + 1][..k] == cs[..k];
  }

  lemma {:induction false} RunAfterFinish(s: Session, cs: seq<Cycle>, k: nat)
    requires Wellformed(s) && s.phase == Looping && AllFit(cs) && k <= |cs|
    requires AllFit(cs[..k]) && Run(s, cs[..k]).phase != Looping
    ensures Run(s, cs) == Run(s, cs[..k]) && Output(s, cs) == Output(s, cs[..k])
    decreases |cs|
  {
    if k < |cs| {
      var prefix := cs[..|cs| - 1];
      assert forall j :: 0 <= j < |prefix| ==> prefix[j] == cs[j];
      assert prefix[..k] == cs[..k];
      RunAfterFinish(s, prefix, k);
    } else {
      assert cs[..k] == cs;
    }
  }
}
