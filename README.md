# pi-looper in Dafny

pi-looper is a live audio looper for a Raspberry Pi. It captures blocks of
samples from a PulseAudio input and adds them ("overdubs") into loops held in
memory. It plays the loop back one block at a time, and the head wraps at
the end of the loop. This project models the three looper programs of the
repository. Each is written twice: as imperative Dafny over arrays, and as a
pure step function that the imperative code is proved against.

- **The three-track looper** (`loopsoft/looper.c`).
  - Module `LooperSpec` holds the values and lemmas; module `Looper` holds
    the engine over arrays.
  - There are three tracks, each with a body, a reset point, a recording flag
    and a mute flag.
  - GPIO pins record and reset each track; `doInput` polls them.
  - `handleReadin` absorbs a block into every track that records or resets,
    using latency-compensated addresses. There are three per-track rules:
    additive overdub, destructive overwrite during a reset, and silence
    during a reset without recording.
  - At the head, the audible tracks are mixed into the master loop.
  - A reset stays pending until the head comes back to the block at which it
    was pressed.
- **The single-loop prototype** (`loopsoft/looper_trash.c`).
  - Module `TrashSpec` holds the values and lemmas; module `LooperTrash`
    holds the engine.
  - Recording is controlled by a keyboard toggle or joystick button 0
    (`isRecording`). The class `LooperTrash.Controller` holds the toggle.
  - While the control is on, each block read is added into the loop.
  - The program plays a snapshot (`loopbuf`), which is refreshed each time
    the head wraps to block 0.
- **The first prototype** (top-level `looper.c`).
  - Module `FixedSpec` holds the values and lemmas; module `FixedLooper`
    holds the engine.
  - The loop has a fixed length of 1000 blocks and starts zero-filled.
  - Every block is added into it 100 samples early, then the block at the
    head is played.

Module `CInt` models C's truncating `%` (`CRem`). It also holds the integer
facts used by the address computations and the block counters.

Each program's `main` is a method (`Looper.RunLooper`, `LooperTrash.RunTrash`,
`FixedLooper.RunFixed`). Its result is proved equal to a pure function of the
inputs (`LooperSpec.Program`, `TrashSpec.Program`, `FixedSpec.Run`), and so
is the sequence of blocks it hands to `pa_simple_write`
(`LooperSpec.ProgramOutput`, `TrashSpec.ProgramOutput`, `FixedSpec.Output`;
`OutputAt` says which cycle wrote each block). Each loop
of `main` is its own method, with the invariant "state so far = run of the
step function over the inputs so far". Everything the hardware supplies is
given as an input sequence, one element per loop iteration:

- the block that `pa_simple_read` returns, or none when the read fails;
- whether `pa_simple_write` succeeds;
- the pin levels;
- the key presses or the button level.

The initial-recording and main loops end when a device fails. Every loop
also ends when its input sequence runs out, which stands in for `while(1)`.

Some behaviours of the source, as the lemmas state them:

- **Stale reset point.** In `loopsoft/looper.c`, a reset pin held on the
  block on which the initial recording stops because no track records any
  more (the `break`) sets that track's reset point to `looplen`. This is one block past the last block the head visits. That
  reset never completes unless that track's reset pin is pressed again;
  until then the track stays out of the mix. See
  `ResetOnLastInitialBlock` and `StaleResetPersists`.
- **A completed reset rebuilds the track.** Over the revolution that starts
  with a press, every cell of the loop is written by exactly one cycle: with
  that cycle's sample when the track records then, with silence otherwise.
  The old take leaves nothing behind (`ResetRebuildsTrack`), and the track
  is out of the mix until the reset completes (`ResetMutesTrack`).
- **The last block read is dropped.** The block read in the iteration where
  the control is found released is written to the buffer, but it lies
  beyond the loop. See `RecordRunReleased` and `TrashSpec.RecordStep`.
- **Only a quarter of the snapshot is refreshed.** In
  `loopsoft/looper_trash.c`, `memcpy(loopbuf, loop, LOOPLENN)` counts bytes.
  It therefore refreshes only the first quarter of the snapshot's cells
  (`RefreshCopiesQuarter`).
- **The wrap-around branches never run.** The same file's address computation
  has wrap-around branches, but they are never taken while the head is
  inside the loop (`TrashAddrInLoop`).

## Model

| member | source | states |
|---|---|---|
| CInt.CRem | loopsoft/looper.c:135-137 | C's truncating remainder: it takes the dividend's sign and lies strictly within the divisor in magnitude; it is the Euclidean remainder when not negative, and that remainder minus the divisor when negative |
| CInt.SuccIsMod | loopsoft/looper.c:323 | advancing a block counter inside the loop by Succ is `(count + 1) % looplen` |
| CInt.AdvanceIsMod | loopsoft/looper.c:323 | advancing a block counter n times is `(count + n) % looplen` |
| CInt.AdvanceWithin | loopsoft/looper.c:323 | within one revolution, n advances add n to the counter and wrap at most once |
| CInt.AdvanceReaches | loopsoft/looper.c:323 | within one revolution from block c0, the counter is at block b after exactly StepsTo(c0, b) advances and after no other count |
| LooperSpec.WriteAddr | loopsoft/looper.c:133-138 | the write address of every sample is a cell of the loop, `0 <= addr < LOOPLENN`, for any latency |
| LooperSpec.WriteAddrIsMod | loopsoft/looper.c:135-138 | the address is the mathematical residue of `head + i - latency` modulo LOOPLENN, whatever the sign of latency |
| LooperSpec.WriteAddrConsecutive | loopsoft/looper.c:133-138 | consecutive samples go to consecutive cells, modulo the loop length |
| LooperSpec.WriteAddrInjective | loopsoft/looper.c:133-138 | two different samples of one block never share a cell while the block fits in the loop |
| LooperSpec.WriteAddrHits | loopsoft/looper.c:133-138 | sample i lands on cell j if and only if i is j's block offset |
| LooperSpec.AbsorbCell | loopsoft/looper.c:140-155 | during a pending reset the old cell is discarded: the result is the sample when recording and 0 otherwise; a track neither recording nor resetting keeps the cell |
| LooperSpec.AbsorbedCells | loopsoft/looper.c:133-156 | after absorbing, each cell hit by a sample follows the track's rule (add while recording with no reset, overwrite while recording during a reset, zero while resetting only) applied to its old value and that sample; every other cell keeps its value |
| LooperSpec.AbsorbedIdle | loopsoft/looper.c:140-155 | a track that neither records nor resets keeps its body |
| LooperSpec.Absorb | loopsoft/looper.c:125-157 | handleReadin changes only bodies: every track keeps its body length, recording flag, reset point and mute flag |
| LooperSpec.GuardSkipsNothing | loopsoft/looper.c:301-303 | skipping handleReadin when no track records or resets changes nothing: the call would return the tracks unchanged |
| LooperSpec.PollTrack | loopsoft/looper.c:76-83 | a held reset pin wins: the track stops recording and takes the current time as reset point; a released one keeps the reset point; body and mute flag are untouched |
| LooperSpec.ApplyInput | loopsoft/looper.c:73-84 | doInput keeps every track's body and mute flag |
| LooperSpec.ApplyInputMeaning | loopsoft/looper.c:73-84 | a held reset pin stops recording and makes the current time the reset point; a released one keeps the reset point; the recording flag depends on the pins alone; bodies are untouched |
| LooperSpec.PollStartsRecording | loopsoft/looper.c:73-94 | after a poll some track records exactly when some track has record held and reset released |
| LooperSpec.Mixdown | loopsoft/looper.c:305-313 | the master loop keeps its length (its cells are the MixSum of the audible tracks at the head: see LoopStepMix) |
| LooperSpec.MixIgnoresInaudible | loopsoft/looper.c:305-313 | a resetting or muted track's body does not affect the mix |
| LooperSpec.MixSilent | loopsoft/looper.c:305-313 | with no audible track the mix is silence |
| LooperSpec.MixOfSoleTrack | loopsoft/looper.c:305-313 | with exactly one audible track the mix is that track's content |
| LooperSpec.FinaliseResets | loopsoft/looper.c:326-331 | after the advance no reset is pending at the new count; every other reset point, and every body and flag, is kept |
| LooperSpec.Prepare | loopsoft/looper.c:299-303 | after the poll and the guarded absorb each track's reset point is the current block when its reset pin is held and the old one otherwise, it records exactly when the reset pin is released and the recording pin held, and body length and mute flag are kept |
| LooperSpec.Prepared | loopsoft/looper.c:299-303 | the same for the engine's tracks at the cycle's block, with every body of BUFLEN cells |
| LooperSpec.WaitStep | loopsoft/looper.c:257-264 | one poll while waiting: no reset can be pending (time -1) and the recording starts exactly when some track records |
| LooperSpec.WaitRun | loopsoft/looper.c:257-264 | the waiting loop keeps the state well-formed with looplen 0, and ends either still waiting or recording |
| LooperSpec.WaitRunStarts | loopsoft/looper.c:257-264 | the waiting loop ends exactly when some poll has a record pin held with its reset pin released |
| LooperSpec.RecordStep | loopsoft/looper.c:268-285 | the initial recording never makes looplen exceed MAXNUMFRAMES, so LOOPLENN never exceeds BUFLEN; looping starts at count 0 with looplen MAXNUMFRAMES (for loop ran out) or the blocks taken so far (break) |
| LooperSpec.RecordRun | loopsoft/looper.c:268-285 | the initial recording keeps the state well-formed and never shrinks the loop; while it goes on, each take adds exactly one block |
| LooperSpec.RecordStepOutcome | loopsoft/looper.c:270-283 | one block of the initial recording continues the recording exactly while a recording pin stays held below MAXNUMFRAMES, and grows the loop exactly when one is held |
| LooperSpec.RecordRunHeld | loopsoft/looper.c:270-283 | with a recording pin held throughout, the loop grows by one block per take up to MAXNUMFRAMES, where the recording ends by itself |
| LooperSpec.RecordRunReleased | loopsoft/looper.c:270-283 | a take with no recording pin held ends the recording without counting its block |
| LooperSpec.InitialAbsorb | loopsoft/looper.c:270-277 | absorbing with head `k*FRAMESIZE`, zero latency and the whole buffer as loop puts sample i into cell `k*FRAMESIZE+i` by each track's rule; the cells outside that range keep their values |
| LooperSpec.InitialBlockPlacement | loopsoft/looper.c:270-279 | one iteration of the initial recording (RecordStep) places block `looplen` at cells `[looplen*FRAMESIZE, looplen*FRAMESIZE+FRAMESIZE)` of every track by that track's rule; every other cell keeps its value |
| LooperSpec.InitialOffset | loopsoft/looper.c:277 | with zero latency over the whole buffer, the block offset of a cell is its distance from the head, wrapped once |
| LooperSpec.LoopStep | loopsoft/looper.c:290-331 | a clean cycle keeps the engine looping and advances count by one block modulo looplen; a failed read or write ends it; each reset point moves by NextResetPoint (pressed → count, cleared when the new count reaches it) |
| LooperSpec.HeadInLoop | loopsoft/looper.c:288-317 | the head's block lies within the first LOOPLENN cells, which fit the buffers |
| LooperSpec.LoopStepBody | loopsoft/looper.c:299-303 | after a cycle that reads a block, each cell of a track that the block reaches follows AbsorbCell with the flags just polled (reset point = count when the pin is held), applied to the old cell and the sample landing on it; every other cell keeps its value |
| LooperSpec.LoopStepMix | loopsoft/looper.c:305-314 | after a clean cycle the master loop's block at the head is the sum over audible tracks after absorbing; every other master cell is unchanged |
| LooperSpec.RunAdvances | loopsoft/looper.c:290-336 | without device failure the engine keeps running and count advances one block per cycle |
| LooperSpec.RunCount | loopsoft/looper.c:323 | after k clean cycles the count is `(count + k) % looplen` |
| LooperSpec.ReturnsAfterRevolution | loopsoft/looper.c:323-331 | advancing 1..looplen blocks returns to the start block exactly after looplen blocks |
| LooperSpec.RunResetTrace | loopsoft/looper.c:299-331 | over clean cycles each track's reset point follows the per-track reference trace ResetTrace |
| LooperSpec.PressLastsOneRevolution | loopsoft/looper.c:323-331 | after a single press, the reset point stays at the pressed block for under looplen cycles and is cleared at exactly looplen |
| LooperSpec.ResetLastsOneRevolution | loopsoft/looper.c:299-331 | a reset pressed at block c and not pressed again stays pending until the head returns to c and is complete exactly then |
| LooperSpec.ResetMutesTrack | loopsoft/looper.c:305-313 | in every cycle of the revolution that follows a press, the tracks that cycle mixes have the pressed track inaudible |
| LooperSpec.BlockOffsetHit | loopsoft/looper.c:133-138 | in a loop of looplen blocks, the block of the cycle at head block c reaches cell j exactly when c is HitBlock(j), and then with sample HitSample(j) |
| LooperSpec.ResetRewrites | loopsoft/looper.c:140-155 | after the first n cycles of a reset's revolution, each loop cell whose cycle has come holds that cycle's sample if it recorded and 0 otherwise; the other cells still hold the old take |
| LooperSpec.ResetRebuildsTrack | loopsoft/looper.c:140-155 | after a full revolution from a press with no further press, the reset is complete and every loop cell holds the sample of the one cycle reaching it when that cycle recorded, 0 otherwise (always 0 for the press cycle), whatever the track held before; cells beyond the loop are kept |
| LooperSpec.StaleResetPersists | loopsoft/looper.c:326-331 | a reset point at or beyond looplen is never cleared by a cycle without a press |
| LooperSpec.ResetOnLastInitialBlock | loopsoft/looper.c:277-283 | a reset held on the block that ends the initial recording leaves a reset point equal to looplen |
| LooperSpec.Program | loopsoft/looper.c:257-336 | every state main reaches is well-formed |
| LooperSpec.Played | loopsoft/looper.c:305-317 | each sample of the block handed to pa_simple_write is the sum, over the tracks audible after this cycle's poll and absorb, of their cells at the head |
| LooperSpec.Output | loopsoft/looper.c:288-336 | the main loop writes at most one block per cycle, and exactly one per cycle while no device has failed |
| LooperSpec.OutputAt | loopsoft/looper.c:288-336 | block k written by the main loop is what cycle k plays from the state the first k cycles leave, which is still looping: nothing is written after a failure |
| LooperSpec.ProgramOutput | loopsoft/looper.c:257-336 | main writes nothing before its main loop, which it reaches only with a loop of at least one block, and at most one block per cycle |
| Looper.Track.constructor | loopsoft/looper.c:251-255 | a fresh body of BUFLEN cells, not recording, no reset pending |
| Looper.DoInput | loopsoft/looper.c:73-84 | the tracks become ApplyInput of the pin levels and current time |
| Looper.AnyRecording | loopsoft/looper.c:86-94 | returns true if and only if some track records |
| Looper.AnyReset | loopsoft/looper.c:96-104 | returns true if and only if some track has a reset pending |
| Looper.HandleReadin | loopsoft/looper.c:125-157 | the tracks become Absorb of the block at the head (see AbsorbedCells) |
| Looper.WriteSample | loopsoft/looper.c:141-154 | one track's cell `addr` follows the track's absorb rule; every other cell is kept |
| Looper.AbsorbSample | loopsoft/looper.c:140-155 | one sample is written to one cell of every track by its rule |
| Looper.Capture | loopsoft/looper.c:294 | a successful read leaves the input buffer holding the captured block |
| Looper.MixBlock | loopsoft/looper.c:305-314 | the master loop becomes Mixdown at the head (see LoopStepMix) |
| Looper.FinishResets | loopsoft/looper.c:326-331 | every reset point equal to the new count is cleared, others kept |
| Looper.Setup | loopsoft/looper.c:245-255 | fresh, separate buffers of the C sizes and an Initial state |
| Looper.Wait | loopsoft/looper.c:257-264 | one poll of the waiting loop is WaitStep |
| Looper.WaitLoop | loopsoft/looper.c:257-264 | the waiting loop is WaitRun over the polls |
| Looper.Record | loopsoft/looper.c:270-283 | one iteration of the initial recording is RecordStep |
| Looper.RecordLoop | loopsoft/looper.c:268-285 | the initial recording is RecordRun over the takes |
| Looper.PollAndAbsorb | loopsoft/looper.c:299-303 | the poll and guarded absorb are Prepare |
| Looper.Cycle | loopsoft/looper.c:290-331 | one iteration of the main loop is LoopStep, and the block it writes is the master loop's block at the head after the mixdown (Played) |
| Looper.MainLoop | loopsoft/looper.c:288-336 | the main loop is Run over the cycles, and the blocks it writes are Output |
| Looper.RunLooper | loopsoft/looper.c:245-336 | main from setup on is Program of its inputs, from an Initial state, and writes ProgramOutput |
| TrashSpec.Poll | loopsoft/looper_trash.c:63-73 | keyboard mode: the toggle flips exactly on a key and the call returns the toggle; joystick mode: returns the button and changes nothing |
| TrashSpec.PollsToggle | loopsoft/looper_trash.c:63-68 | after many calls the keyboard toggle is on exactly when its start value and the parity of the key count agree; joystick mode leaves the control alone |
| TrashSpec.Stored | loopsoft/looper_trash.c:167 | the read puts the block at `loop[at..]` and leaves the cells before and after it as they were |
| TrashSpec.Overdub | loopsoft/looper_trash.c:202-219 | sample i of the block is added to cell `head+i`; the cells before and after the block are kept |
| TrashSpec.Refresh | loopsoft/looper_trash.c:239 | the byte-counted memcpy makes the first `LOOPLENN/4` snapshot cells equal to the loop's and leaves the others as they were |
| TrashSpec.RefreshCopiesQuarter | loopsoft/looper_trash.c:237-240 | the refresh copies the first `looplen*FRAMESIZE/4` cells of the loop and leaves every other snapshot cell unchanged |
| TrashSpec.TrashAddr | loopsoft/looper_trash.c:202-208 | the address as written lies in `[0, LOOPLENN]` (LOOPLENN itself is not excluded) and is congruent to the raw address modulo LOOPLENN; an address already in `[0, LOOPLENN]` is kept |
| TrashSpec.TrashAddrInLoop | loopsoft/looper_trash.c:202-208 | with the head inside the loop, the address is `count*FRAMESIZE+i`, inside the loop, and neither wrap-around branch is taken |
| TrashSpec.WaitStep | loopsoft/looper_trash.c:151-160 | waiting ends exactly when isRecording reads on; the loop buffers are untouched |
| TrashSpec.WaitRunKeyboard | loopsoft/looper_trash.c:151-160 | in keyboard mode main is still waiting exactly when no call found a key |
| TrashSpec.RecordStep | loopsoft/looper_trash.c:164-175 | block looplen is read into `loop[looplen*FRAMESIZE..]`, other cells untouched; the recording ends with looplen MAXNUMFRAMES or the blocks counted so far |
| TrashSpec.RecordRunStores | loopsoft/looper_trash.c:164-174 | block k of the initial recording ends up at `(looplen+k)*FRAMESIZE`, and later blocks never overwrite it |
| TrashSpec.Settle | loopsoft/looper_trash.c:179-191 | oldrecording is the control's current reading, and the head starts at block 0 |
| TrashSpec.FollowControl | loopsoft/looper_trash.c:222-229 | after negating on a mismatch, oldrecording equals the reading it was compared with |
| TrashSpec.Played | loopsoft/looper_trash.c:232 | the block played is the snapshot's block at the head, not the loop's |
| TrashSpec.LoopStep | loopsoft/looper_trash.c:192-241 | a clean cycle keeps main looping and advances count by one block modulo looplen; a failed read or write ends it |
| TrashSpec.LoopStepOverdub | loopsoft/looper_trash.c:200-219 | the block is added to the loop at the head exactly when the first reading is on; every other cell keeps its value |
| TrashSpec.Run | loopsoft/looper_trash.c:191-241 | the main loop keeps the state well-formed and never changes looplen |
| TrashSpec.WaitRun | loopsoft/looper_trash.c:151-160 | the waiting loop keeps the state well-formed with looplen 0 and never touches the loop buffers |
| TrashSpec.RecordRun | loopsoft/looper_trash.c:164-175 | the initial recording keeps the state well-formed, never shrinks the loop and never returns to waiting; while it goes on, each take adds exactly one block |
| TrashSpec.Program | loopsoft/looper_trash.c:130-241 | every state main reaches is well-formed |
| TrashSpec.Output | loopsoft/looper_trash.c:191-241 | the main loop writes at most one block per iteration, and exactly one per iteration while no device has failed |
| TrashSpec.OutputAt | loopsoft/looper_trash.c:191-241 | block k written by the main loop is the snapshot block iteration k plays from the state the first k iterations leave, which is still looping |
| TrashSpec.ProgramOutput | loopsoft/looper_trash.c:130-241 | main writes nothing before its main loop, which it reaches only with a loop of at least one block, and at most one block per iteration |
| TrashSpec.LoopStepSnapshot | loopsoft/looper_trash.c:222-240 | after a clean cycle oldrecording is the second reading, count is `(count+1) % looplen`, and the snapshot is refreshed exactly when count wraps to 0 |
| LooperTrash.Controller.constructor | loopsoft/looper_trash.c:37-38 | the mode is fixed at start-up and the keyboard toggle starts off |
| LooperTrash.Controller.IsRecording | loopsoft/looper_trash.c:63-73 | the call returns Poll's reading and leaves the toggle as Poll does |
| LooperTrash.Setup | loopsoft/looper_trash.c:130-132 | three fresh, distinct arrays with the C sizes |
| LooperTrash.WaitLoop | loopsoft/looper_trash.c:151-160 | the waiting loop is WaitRun over the calls |
| LooperTrash.Record | loopsoft/looper_trash.c:166-174 | one iteration of the initial recording is RecordStep |
| LooperTrash.RecordLoop | loopsoft/looper_trash.c:164-175 | the initial recording is RecordRun over the takes |
| LooperTrash.Settle | loopsoft/looper_trash.c:179-191 | the read of oldrecording is Settle |
| LooperTrash.ReadInto | loopsoft/looper_trash.c:167 | a successful read into the loop is Stored at the given cell |
| LooperTrash.Overdub | loopsoft/looper_trash.c:202-219 | the copy loop adds the block into the loop at the head |
| LooperTrash.Refresh | loopsoft/looper_trash.c:239 | the memcpy is Refresh of LOOPLENN bytes |
| LooperTrash.Cycle | loopsoft/looper_trash.c:192-241 | one iteration of the main loop is LoopStep, and it plays Played |
| LooperTrash.MainLoop | loopsoft/looper_trash.c:191-241 | the main loop is Run over the cycles, and the blocks it writes are Output |
| LooperTrash.RunTrash | loopsoft/looper_trash.c:130-241 | main from its allocations on is Program of its inputs, from an Initial state, and writes ProgramOutput |
| FixedSpec.FixedAddr | looper.c:111-115 | the address differs from `count*FRAMESIZE + i - 100` by a multiple of BUFLEN, and is not negative when that sum is at least -BUFLEN |
| FixedSpec.FixedAddrIsMod | looper.c:111-115 | the address is a cell of the loop and equals `(count*FRAMESIZE + i - 100) % BUFLEN` |
| FixedSpec.FixedAddrHits | looper.c:111-115 | sample i lands on cell j if and only if i is j's offset, so a block's samples land on distinct cells |
| FixedSpec.AddedCells | looper.c:111-117 | after the copy loop every cell hit by a sample holds its old value plus that sample; the rest are unchanged |
| FixedSpec.Added | looper.c:111-117 | the copy loop keeps the loop's BUFLEN cells (AddedCells states each cell) |
| FixedSpec.LoopStep | looper.c:103-125 | a clean iteration keeps looping and advances count modulo NUMFRAMES; a failed read or write ends it with count unchanged |
| FixedSpec.LoopStepAdds | looper.c:110-117 | a cycle that reads a block adds each sample of it to exactly one cell of the loop |
| FixedSpec.Played | looper.c:120 | the block written out has FRAMESIZE samples (PlayedAfterAdd states each) |
| FixedSpec.PlayedAfterAdd | looper.c:110-123 | the played sample i is the loop's old cell plus input sample i+100 when that exists: the last 100 output samples gain nothing from this block |
| FixedSpec.Run | looper.c:103-125 | the main loop keeps the state well-formed |
| FixedSpec.Output | looper.c:103-125 | the main loop writes at most one block per iteration, and exactly one per iteration while no device has failed |
| FixedSpec.OutputAt | looper.c:103-125 | block k written by the main loop is the block iteration k plays (PlayedAfterAdd) from the state the first k iterations leave, which is still looping |
| FixedSpec.RunAdvances | looper.c:101-125 | without device failure main keeps looping and count advances one block per iteration |
| FixedLooper.Setup | looper.c:92-99 | the loop is zero-filled and the head is at block 0 |
| FixedLooper.Capture | looper.c:105 | a successful read leaves the block buffer holding the captured block |
| FixedLooper.AddBlock | looper.c:111-117 | the copy loop is Added over the whole block |
| FixedLooper.Cycle | looper.c:103-124 | one iteration is LoopStep, and it plays Played |
| FixedLooper.MainLoop | looper.c:103-125 | the loop is Run over the cycles, and the blocks it writes are Output |
| FixedLooper.RunFixed | looper.c:92-125 | main from its zero-fill on is Run of its inputs from an Initial state, and writes Output |

## Left out

- Device I/O.
  - PulseAudio, SDL, wiringPi, termios and `getkey`/`fgetc` are left out. Their results (blocks, read and write success, pin levels, key presses, button levels) are inputs.
  - `pa_simple_read` and `pa_simple_write` take a byte count, but the program passes FRAMESIZE, a sample count. The model treats one call as moving FRAMESIZE ints.
  - `printf`, `fflush` and the `finish` clean-up are output only.
- In `loopsoft/looper.c`, the latency comes from `pa_simple_get_latency` (lines 239-243). It is a parameter of `Looper.RunLooper`. The address lemmas hold for any value.
- In `loopsoft/looper_trash.c`, the unused `netlatency` is left out. So is the printed latency in `looper.c`.
- The reads in the waiting loops (`loopsoft/looper.c:263`, `loopsoft/looper_trash.c:159`) only clear the device. Their buffer is overwritten before it is used again, so they are not modelled.
  - The first `doInput(subloops, -1)` (line 257) is the first poll of `WaitLoop`.
- A loop of zero blocks is not modelled. This happens when the control is released on the first block. Both loopers then compute `% 0`, which C leaves undefined, and the model stops in the `Looping` phase.
- C integer widths are not modelled.
  - `int` overflow of samples and sums: samples are unbounded integers.
  - The `short` reset point is only shown to stay within `[-1, MAXNUMFRAMES)` (`ResetPointsFit`).
  - The `short`/`int` truthiness of flags: flags are booleans.
- `muted` is never assigned in `loopsoft/looper.c`, so it is an input of `Setup`.
- The contents of `malloc`ed buffers are arbitrary. This includes `loopbuf` in `loopsoft/looper_trash.c` before its first refresh.
- `while(1)` is modelled as a finite sequence of loop iterations.
- Compile errors in `loopsoft/looper.c` are ignored: the empty `#define` at line 19, the array assignments `recording_pins = {…}` and `reset_pins = {…}` at lines 174-175, the undeclared `joy` at line 234, and the keyboard controls it announces. The model follows the evident meaning: the pin arrays hold RECORDING_0..2 and RESET_0..2.
- `test.c` and `loopsoft/wiring.c` (pin tests) are not part of this model.
- FixedSpec.LoopStep: states the advance as `Succ(count, NUMFRAMES)`. `CInt.SuccIsMod` proves Succ equal to `(count + 1) % NUMFRAMES`. This keeps the literal modulus out of the step's contract.
- FixedSpec.RunAdvances: states the count after n cycles as `Advance(count, n, NUMFRAMES)`. `CInt.AdvanceIsMod` proves that equal to `(count + n) % NUMFRAMES`. It is not stated directly, for the same reason.
