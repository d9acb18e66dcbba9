/** The PSF1 machine's audio queue, device deferral and clock around an abstract deterministic step. */
module Ps1Machine {
  import opened Machine
  import opened Wrappers
  import opened Clock

  const CPU_HZ: u64 := 33_868_800
  const SAMPLE_RATE: u64 := 44_100
  const DEVICE_SYNC_CYCLES := 256
  const AUDIO_CHUNK_FRAMES := 256

  datatype MachineError = ClockOverflow | OutputSize | DeviceFailure(code: int)

  type Sample = int

  /**
   * Everything below the audio queue as deterministic functions of the device state. `execute`
   * runs one CPU, HLE or callback boundary and reports its cycles and whether devices must catch up.
   */
  datatype Devices<!W> = Devices(
    execute: (W, u64) -> Result<(W, u32, bool), MachineError>,
    schedulerDue: (W, u64) -> bool,
    advance: (W, u64, u64) -> Result<W, MachineError>,
    synthesize: (W, nat) -> Result<(W, seq<Sample>), MachineError>,
    settle: W -> Result<W, MachineError>)

  /** Every boundary takes time, and synthesis fills exactly the frames it is asked for. */
  ghost predicate Lawful<W(!new)>(d: Devices<W>)
  {
    && (forall w, now :: d.execute(w, now).Ok? ==> d.execute(w, now).value.1 >= 1)
    && (forall w, frames: nat :: d.synthesize(w, frames).Ok? ==> |d.synthesize(w, frames).value.1| == 2 * frames)
  }

  /** The machine without its queue and discard count. */
  datatype Core<W> = Core(world: W, now: u64, deferred: u64, remainder: u64) {
    predicate Ok() { deferred < DEVICE_SYNC_CYCLES && remainder < CPU_HZ }

    /** Progress towards the next frame still missing; bounds the steps that produce no audio. */
    function Slack(): int { CPU_HZ + SAMPLE_RATE * DEVICE_SYNC_CYCLES - (remainder + SAMPLE_RATE * deferred) }
  }

  /** Frames generated in chunks of the audio buffer's size. */
  function Chunks<W>(d: Devices<W>, world: W, frames: nat): Result<(W, seq<Sample>), MachineError>
  {
    if frames == 0 then Ok((world, []))
    else
      var chunk := Min(frames, AUDIO_CHUNK_FRAMES);
      match d.synthesize(world, chunk)
      case Err(e) => Err(e)
      case Ok((next, samples)) =>
        match Chunks(d, next, frames - chunk)
        case Err(e) => Err(e)
        case Ok((last, rest)) => Ok((last, samples + rest))
  }

  /** Devices catch up with all deferred ticks. */
  function FlushCore<W>(d: Devices<W>, world: W, now: u64, ticks: u64,
                        remainder: u64): Result<(Core<W>, seq<Sample>), MachineError>
  {
    match d.advance(world, ticks, now)
    case Err(e) => Err(e)
    case Ok(advanced) =>
      TotalFits(ticks, SAMPLE_RATE, remainder);
      var total := Total(ticks, SAMPLE_RATE, remainder);
      if total / CPU_HZ >= U64_LIMIT then Err(ClockOverflow)
      else
        match Chunks(d, advanced, total / CPU_HZ)
        case Err(e) => Err(e)
        case Ok((rendered, samples)) =>
          match d.settle(rendered)
          case Err(e) => Err(e)
          case Ok(settled) => Ok((Core(settled, now, 0, total % CPU_HZ), samples))
  }

  /** The core after `cycles` have passed. */
  function Elapsed<W>(d: Devices<W>, c: Core<W>, cycles: u32,
                      synchronize: bool): Result<(Core<W>, seq<Sample>), MachineError>
    requires c.Ok()
  {
    if c.now + cycles >= U64_LIMIT then Err(ClockOverflow)
    else
      var now, deferred := c.now + cycles, c.deferred + cycles;
      if !synchronize && !d.schedulerDue(c.world, now) && deferred < DEVICE_SYNC_CYCLES then
        Ok((Core(c.world, now, deferred, c.remainder), []))
      else FlushCore(d, c.world, now, deferred, c.remainder)
  }

  /** One machine step: the new core and the samples it generated. */
  function StepCore<W>(d: Devices<W>, c: Core<W>): Result<(Core<W>, seq<Sample>), MachineError>
    requires c.Ok()
  {
    match d.execute(c.world, c.now)
    case Err(e) => Err(e)
    case Ok((world, cycles, synchronize)) =>
      Elapsed(d, c.(world := world), cycles, synchronize)
  }

  // ----- What catching up means

  /** Samples of `frames` frames, made 256 at a time, each piece from the state the one before left. */
  ghost predicate InChunks<W>(d: Devices<W>, worlds: seq<W>, pieces: seq<seq<Sample>>, frames: nat)
  {
    && |worlds| == |pieces| + 1
    && 256 * |pieces| < frames + 256 && frames <= 256 * |pieces|
    && forall k :: 0 <= k < |pieces| ==>
         d.synthesize(worlds[k], Min(256, frames - 256 * k)) == Ok((worlds[k + 1], pieces[k]))
  }

  function Joined(pieces: seq<seq<Sample>>): seq<Sample>
  {
    if pieces == [] then [] else pieces[0] + Joined(pieces[1..])
  }

  ghost predicate Synthesizes<W(!new)>(d: Devices<W>, before: W, frames: nat, after: W, samples: seq<Sample>)
  {
    exists worlds, pieces ::
      && InChunks(d, worlds, pieces, frames) && |worlds| == |pieces| + 1
      && worlds[0] == before && worlds[|pieces|] == after && Joined(pieces) == samples
  }

  /**
   * The devices were advanced by all `ticks` to the time `now`, then made the frames that the sample clock owes, then
   * settled; the clock keeps what is left of the division.
   */
  ghost predicate CaughtUp<W(!new)>(d: Devices<W>, before: W, ticks: u64, now: u64, remainder: nat, after: W,
                                    remainder': nat, samples: seq<Sample>)
  {
    && remainder' == (ticks * 44_100 + remainder) % 33_868_800
    && exists advanced, rendered ::
         && d.advance(before, ticks, now) == Ok(advanced)
         && Synthesizes(d, advanced, (ticks * 44_100 + remainder) / 33_868_800, rendered, samples)
         && d.settle(rendered) == Ok(after)
  }

  /**
   * `cycles` pass: the devices catch up at once if asked to, if an event is due by then, or if 256 ticks have
   * gathered; otherwise nothing but time moves.
   */
  ghost predicate Passes<W(!new)>(d: Devices<W>, c: Core<W>, cycles: u32, synchronize: bool, next: Core<W>,
                                  samples: seq<Sample>)
  {
    && next.now == c.now + cycles
    && if synchronize || d.schedulerDue(c.world, next.now) || c.deferred + cycles >= 256 then
         && next.deferred == 0 && c.deferred + cycles < U64_LIMIT
         && CaughtUp(d, c.world, c.deferred + cycles, next.now, c.remainder, next.world, next.remainder, samples)
       else
         next.world == c.world && next.deferred == c.deferred + cycles && next.remainder == c.remainder && samples == []
  }

  lemma {:induction false} ChunksSpell<W(!new)>(d: Devices<W>, world: W, frames: nat)
    requires Chunks(d, world, frames).Ok?
    ensures Synthesizes(d, world, frames, Chunks(d, world, frames).value.0, Chunks(d, world, frames).value.1)
  {
    var (last, samples) := Chunks(d, world, frames).value;
    if frames == 0 {
      var none: seq<seq<Sample>> := [];
      assert InChunks(d, [world], none, 0) && [world][0] == world && [world][|none|] == last && Joined(none) == samples;
    } else {
      var chunk := Min(frames, AUDIO_CHUNK_FRAMES);
      var (next, piece) := d.synthesize(world, chunk).value;
      ChunksSpell(d, next, frames - chunk);
      var worlds, pieces :|
        && InChunks(d, worlds, pieces, frames - chunk) && worlds[0] == next && worlds[|pieces|] == last
        && Joined(pieces) == Chunks(d, next, frames - chunk).value.1;
      FirstChunk(d, world, piece, worlds, pieces, frames);
    }
  }

  lemma FirstChunk<W(!new)>(d: Devices<W>, world: W, piece: seq<Sample>, worlds: seq<W>, pieces: seq<seq<Sample>>,
                            frames: nat)
    requires frames > 0 && InChunks(d, worlds, pieces, frames - Min(frames, 256))
    requires d.synthesize(world, Min(frames, 256)) == Ok((worlds[0], piece))
    ensures InChunks(d, [world] + worlds, [piece] + pieces, frames)
    ensures Joined([piece] + pieces) == piece + Joined(pieces)
    ensures ([world] + worlds)[|pieces| + 1] == worlds[|pieces|]
  {
    var ws, ps := [world] + worlds, [piece] + pieces;
    assert ps[1..] == pieces;
    forall k | 0 <= k < |ps|
      ensures d.synthesize(ws[k], Min(256, frames - 256 * k)) == Ok((ws[k + 1], ps[k]))
    {
      if k > 0 {
        assert d.synthesize(worlds[k - 1], Min(256, frames - 256 - 256 * (k - 1))) == Ok((worlds[k], pieces[k - 1]));
      }
    }
  }

  lemma {:induction false} ChunksOnly<W(!new)>(d: Devices<W>, worlds: seq<W>, pieces: seq<seq<Sample>>, frames: nat)
    requires InChunks(d, worlds, pieces, frames)
    ensures Chunks(d, worlds[0], frames) == Ok((worlds[|pieces|], Joined(pieces)))
    decreases |pieces|
  {
    if pieces != [] {
      var ws, ps, rest := worlds[1..], pieces[1..], frames - Min(frames, 256);
      assert d.synthesize(worlds[0], Min(256, frames - 256 * 0)) == Ok((worlds[1], pieces[0]));
      forall k | 0 <= k < |ps|
        ensures d.synthesize(ws[k], Min(256, rest - 256 * k)) == Ok((ws[k + 1], ps[k]))
      {
        assert d.synthesize(worlds[k + 1], Min(256, frames - 256 * (k + 1))) == Ok((worlds[k + 2], pieces[k + 1]));
      }
      ChunksOnly(d, ws, ps, rest);
    }
  }

  /** The step of time, as the machine computes it, is that relation and no more. */
  lemma ElapsedPasses<W(!new)>(d: Devices<W>, c: Core<W>, cycles: u32, synchronize: bool)
    requires c.Ok()
    ensures Elapsed(d, c, cycles, synchronize).Ok? ==>
              var (next, samples) := Elapsed(d, c, cycles, synchronize).value;
              Passes(d, c, cycles, synchronize, next, samples)
  {
    hide Chunks, Total, Synthesizes;
    if Elapsed(d, c, cycles, synchronize).Ok? {
      var now, ticks := c.now + cycles, c.deferred + cycles;
      if synchronize || d.schedulerDue(c.world, now) || ticks >= 256 {
        Flushed(d, c.world, now, ticks, c.remainder);
      }
    }
  }

  lemma Flushed<W(!new)>(d: Devices<W>, world: W, now: u64, ticks: u64, remainder: u64)
    requires FlushCore(d, world, now, ticks, remainder).Ok?
    ensures var (next, samples) := FlushCore(d, world, now, ticks, remainder).value;
            && next.now == now && next.deferred == 0
            && CaughtUp(d, world, ticks, now, remainder, next.world, next.remainder, samples)
  {
    hide Chunks, Synthesizes;
    var frames := (ticks * 44_100 + remainder) / 33_868_800;
    ChunksSpell(d, d.advance(world, ticks, now).value, frames);
  }

  /** Whoever passes time that way gets what the machine computes. */
  lemma PassesOnly<W(!new)>(d: Devices<W>, c: Core<W>, cycles: u32, synchronize: bool, next: Core<W>,
                            samples: seq<Sample>)
    requires c.Ok() && Passes(d, c, cycles, synchronize, next, samples)
    ensures Elapsed(d, c, cycles, synchronize) == Ok((next, samples))
  {
    hide FlushCore, CaughtUp;
    if synchronize || d.schedulerDue(c.world, next.now) || c.deferred + cycles >= 256 {
      CaughtUpOnly(d, c.world, c.deferred + cycles, next.now, c.remainder, next.world, next.remainder, samples);
    }
  }

  lemma CaughtUpOnly<W(!new)>(d: Devices<W>, before: W, ticks: u64, now: u64, remainder: u64, after: W, remainder': u64,
                              samples: seq<Sample>)
    requires CaughtUp(d, before, ticks, now, remainder, after, remainder', samples)
    requires ticks < 0x1_0000_0100 && remainder < CPU_HZ
    ensures FlushCore(d, before, now, ticks, remainder) == Ok((Core(after, now, 0, remainder'), samples))
  {
    hide Chunks, InChunks, Joined;
    var frames := (ticks * 44_100 + remainder) / 33_868_800;
    var advanced, rendered :| d.advance(before, ticks, now) == Ok(advanced)
                              && Synthesizes(d, advanced, frames, rendered, samples) && d.settle(rendered) == Ok(after);
    var worlds, pieces :| && InChunks(d, worlds, pieces, frames) && |worlds| == |pieces| + 1
                          && worlds[0] == advanced && worlds[|pieces|] == rendered && Joined(pieces) == samples;
    ChunksOnly(d, worlds, pieces, frames);
  }

  /** One step: the boundary runs at the present time, and the time it takes passes. */
  ghost predicate Steps<W(!new)>(d: Devices<W>, c: Core<W>, next: Core<W>, samples: seq<Sample>)
  {
    exists world, cycles, synchronize ::
      && d.execute(c.world, c.now) == Ok((world, cycles, synchronize))
      && Passes(d, c.(world := world), cycles, synchronize, next, samples)
  }

  lemma StepSteps<W(!new)>(d: Devices<W>, c: Core<W>)
    requires c.Ok() && StepCore(d, c).Ok?
    ensures Steps(d, c, StepCore(d, c).value.0, StepCore(d, c).value.1)
  {
    hide Elapsed, Passes;
    var (world, cycles, synchronize) := d.execute(c.world, c.now).value;
    ElapsedPasses(d, c.(world := world), cycles, synchronize);
  }

  /** No event waits: while ticks are deferred none is due, and fewer than 256 are. */
  ghost predicate Prompt<W>(d: Devices<W>, c: Core<W>)
  {
    c.deferred < 256 && (c.deferred > 0 ==> !d.schedulerDue(c.world, c.now))
  }

  lemma StepPrompt<W(!new)>(d: Devices<W>, c: Core<W>)
    requires c.Ok() && StepCore(d, c).Ok?
    ensures Prompt(d, StepCore(d, c).value.0)
  {
    hide CaughtUp;
    StepSteps(d, c);
  }

  /** At no boundary of a run does a due event wait behind deferred ticks. */
  lemma {:induction false} RunPrompt<W(!new)>(d: Devices<W>, c: Core<W>, queue: seq<Sample>, need: nat)
    requires Lawful(d) && c.Ok() && Prompt(d, c) && RunUntil(d, c, queue, need).Ok?
    ensures RunUntil(d, c, queue, need).value.0.Ok() && Prompt(d, RunUntil(d, c, queue, need).value.0)
    decreases need - |queue|, c.Slack()
  {
    hide Lawful, StepCore, Prompt;
    if |queue| < need {
      StepsOn(d, c, queue, need);
      StepPrompt(d, c);
      var (next, samples) := StepCore(d, c).value;
      RunPrompt(d, next, queue + samples, need);
    }
  }

  lemma {:induction false} ChunksLength<W(!new)>(d: Devices<W>, world: W, frames: nat)
    requires Lawful(d)
    ensures Chunks(d, world, frames).Ok? ==> |Chunks(d, world, frames).value.1| == 2 * frames
  {
    if frames > 0 {
      var chunk := Min(frames, AUDIO_CHUNK_FRAMES);
      if d.synthesize(world, chunk).Ok? {
        ChunksLength(d, d.synthesize(world, chunk).value.0, frames - chunk);
      }
    }
  }

  /** A step that generates nothing has come closer to the next frame; whole frames come in pairs of samples. */
  lemma StepProgress<W(!new)>(d: Devices<W>, c: Core<W>)
    requires Lawful(d) && c.Ok() && StepCore(d, c).Ok?
    ensures StepCore(d, c).value.0.Ok()
    ensures |StepCore(d, c).value.1| % 2 == 0
    ensures StepCore(d, c).value.1 == [] ==> StepCore(d, c).value.0.Slack() < c.Slack()
    ensures c.Slack() > 0
  {
    var (world, cycles, synchronize) := d.execute(c.world, c.now).value;
    assert cycles >= 1;
    var now, deferred := c.now + cycles, c.deferred + cycles;
    if synchronize || d.schedulerDue(world, now) || deferred >= DEVICE_SYNC_CYCLES {
      var total := Total(deferred, SAMPLE_RATE, c.remainder);
      ChunksLength(d, d.advance(world, deferred, now).value, total / CPU_HZ);
    }
  }

  /** Steps until `need` samples are queued. */
  ghost function RunUntil<W(!new)>(d: Devices<W>, c: Core<W>, queue: seq<Sample>, need: nat)
    : Result<(Core<W>, seq<Sample>), MachineError>
    requires Lawful(d) && c.Ok()
    decreases need - |queue|, c.Slack()
  {
    if |queue| >= need then Ok((c, queue))
    else
      match StepCore(d, c)
      case Err(e) => Err(e)
      case Ok((next, samples)) =>
        StepProgress(d, c);
        RunUntil(d, next, queue + samples, need)
  }

  /** What of a batch of samples survives when the first `discard` frames are dropped. */
  function Kept(samples: seq<Sample>, discard: nat): seq<Sample>
  {
    samples[Min(2 * discard, |samples|)..]
  }

  class Ps1Machine<W(!new)> {
    const devices: Devices<W>
    const sampleClock: RateConverter
    var world: W
    var now: u64
    var deferred: u64
    var pending: seq<Sample>
    var discard: u64
    /** Frames synthesized so far. */
    ghost var generated: nat

    ghost predicate Shape()
      reads this, sampleClock
    {
      && Lawful(devices)
      && sampleClock.Valid() && sampleClock.sourceHz == CPU_HZ && sampleClock.targetHz == SAMPLE_RATE
      && View().Ok()
    }

    /** Between calls the queue holds whole frames. */
    ghost predicate Valid()
      reads this, sampleClock
    {
      Shape() && |pending| % 2 == 0
    }

    ghost function View(): Core<W>
      reads this, sampleClock
    {
      Core(world, now, deferred, sampleClock.remainder)
    }

    /** The clocks agree: time is flushed plus deferred ticks, and every due frame has been synthesized. */
    ghost predicate InStep()
      reads this, sampleClock
    {
      now == sampleClock.elapsed + deferred && generated == sampleClock.delivered
    }

    constructor (devices: Devices<W>, world: W)
      requires Lawful(devices)
      ensures Valid() && InStep() && fresh(sampleClock)
      ensures this.devices == devices && View() == Core(world, 0, 0, 0)
      ensures pending == [] && discard == 0
    {
      this.devices, this.world := devices, world;
      var clock := new RateConverter(CPU_HZ, SAMPLE_RATE);
      sampleClock := clock;
      now, deferred, pending, discard := 0, 0, [], 0;
      generated := 0;
    }

    /** Restores the snapshot taken after loading. */
    method Reset(snapshot: W)
      requires Valid()
      modifies this, sampleClock
      ensures Valid() && InStep() && View() == Core(snapshot, 0, 0, 0) && pending == [] && discard == 0
    {
      world := snapshot;
      sampleClock.Reset();
      now, deferred, pending, discard := 0, 0, [], 0;
      generated := 0;
    }

    /** Synthesizes due frames chunk by chunk, dropping those still to be discarded. */
    method RenderDueFrames(frames: u64) returns (r: Result<(), MachineError>)
      requires Lawful(devices)
      modifies this`world, this`pending, this`discard, this`generated
      ensures r.Err? ==> Chunks(devices, old(world), frames) == Err(r.error)
      ensures r.Ok? ==> Chunks(devices, old(world), frames).Ok?
      ensures r.Ok? ==>
                var (next, samples) := Chunks(devices, old(world), frames).value;
                && world == next && pending == old(pending) + Kept(samples, old(discard))
                && discard == old(discard) - Min(old(discard), frames)
      ensures r.Ok? ==> generated == old(generated) + frames
      ensures |old(pending)| % 2 == 0 ==> |pending| % 2 == 0
      ensures discard <= old(discard)
    {
      hide Lawful, Resumes, Kept, Chunks;
      var left: nat := frames;
      ghost var made: seq<Sample> := [];
      ResumesStart(devices, world, frames);
      KeptNone(pending, discard);
      while left != 0
        invariant 0 <= left <= frames && |made| == 2 * (frames - left)
        invariant Resumes(devices, old(world), frames, world, left, made)
        invariant pending == old(pending) + Kept(made, old(discard))
        invariant discard == old(discard) - Min(old(discard), frames - left)
        invariant generated == old(generated) + (frames - left)
        invariant |old(pending)| % 2 == 0 ==> |pending| % 2 == 0
      {
        var chunk := Min(left, AUDIO_CHUNK_FRAMES);
        ResumesStep(devices, old(world), frames, world, left, made);
        var rendered := devices.synthesize(world, chunk);
        if rendered.Err? {
          return Err(rendered.error);
        }
        var (next, samples) := rendered.value;
        world := next;
        var discarded := Min(Min(left, discard), chunk);
        KeptStep(made, samples, old(discard), discarded);
        KeptPairs(made + samples, old(discard));
        discard := discard - discarded;
        pending := pending + samples[2 * discarded..];
        left := left - chunk;
        made := made + samples;
        generated := generated + chunk;
      }
      ResumesEnd(devices, old(world), frames, world, made);
      return Ok(());
    }

    /** Accounts for elapsed cycles; devices catch up when asked, when an event is due, or every 256 ticks. */
    method AdvanceDevices(cycles: u32, synchronize: bool) returns (r: Result<(), MachineError>)
      requires Valid()
      modifies this`world, this`now, this`deferred, this`pending, this`discard, this`generated, sampleClock
      ensures Valid()
      ensures r.Err? ==> Elapsed(devices, old(View()), cycles, synchronize) == Err(r.error)
      ensures r.Ok? ==> Elapsed(devices, old(View()), cycles, synchronize).Ok?
      ensures r.Ok? ==>
                var (next, samples) := Elapsed(devices, old(View()), cycles, synchronize).value;
                && View() == next && pending == old(pending) + Kept(samples, old(discard))
                && discard == old(discard) - Min(old(discard), |samples| / 2)
      ensures r.Ok? ==>
                var due := synchronize || devices.schedulerDue(old(world), now) || old(deferred) + cycles >= 256;
                && now == old(now) + cycles
                && (deferred == 0 <==> due || old(deferred) + cycles == 0)
                && (!due ==> world == old(world) && deferred == old(deferred) + cycles && pending == old(pending))
      ensures r.Ok? ==>
                exists samples :: Passes(devices, old(View()), cycles, synchronize, View(), samples)
                                  && pending == old(pending) + Kept(samples, old(discard))
      ensures r.Ok? && old(InStep()) ==> InStep()
      ensures discard <= old(discard)
    {
      hide Lawful, Chunks, Kept, Balanced, CaughtUp, FlushCore;
      ElapsedPasses(devices, View(), cycles, synchronize);
      if now + cycles >= U64_LIMIT {
        return Err(ClockOverflow);
      }
      now := now + cycles;
      deferred := deferred + cycles;
      var due := devices.schedulerDue(world, now);
      if !synchronize && !due && deferred < DEVICE_SYNC_CYCLES {
        KeptNone(pending, discard);
        return Ok(());
      }
      ghost var start, elapsed := old(View()), Elapsed(devices, old(View()), cycles, synchronize);
      r := Synchronize();
      if r.Ok? {
        assert Passes(devices, start, cycles, synchronize, View(), elapsed.value.1);
      }
    }

    method Synchronize() returns (r: Result<(), MachineError>)
      requires Lawful(devices) && sampleClock.Valid() && sampleClock.sourceHz == CPU_HZ
               && sampleClock.targetHz == SAMPLE_RATE
      requires |pending| % 2 == 0
      modifies this`world, this`deferred, this`pending, this`discard, this`generated, sampleClock
      ensures Valid()
      ensures r.Err? ==> FlushCore(devices, old(world), now, old(deferred), old(sampleClock.remainder)) == Err(r.error)
      ensures r.Ok? ==> FlushCore(devices, old(world), now, old(deferred), old(sampleClock.remainder)).Ok?
      ensures r.Ok? ==>
                var (next, samples) := FlushCore(devices, old(world), now, old(deferred),
                                                 old(sampleClock.remainder)).value;
                && View() == next && pending == old(pending) + Kept(samples, old(discard))
                && discard == old(discard) - Min(old(discard), |samples| / 2)
      ensures r.Ok? && old(InStep()) ==> InStep()
      ensures discard <= old(discard)
    {
      hide Lawful, Chunks, Kept, Total;
      var ticks := deferred;
      deferred := 0;
      ghost var before := sampleClock.remainder;
      var advanced := devices.advance(world, ticks, now);
      if advanced.Err? {
        return Err(advanced.error);
      }
      world := advanced.value;
      var due := sampleClock.Advance(ticks);
      if due.Err? {
        return Err(ClockOverflow);
      }
      ChunksLength(devices, world, due.value);
      if due.value != 0 {
        var rendered := RenderDueFrames(due.value);
        if rendered.Err? {
          return Err(rendered.error);
        }
      } else {
        NoChunks(devices, world);
        KeptNone(pending, discard);
      }
      var settled := devices.settle(world);
      if settled.Err? {
        return Err(settled.error);
      }
      world := settled.value;
      return Ok(());
    }

    /** One CPU, HLE or callback boundary followed by device advancement. */
    method StepInner() returns (r: Result<(), MachineError>)
      requires Valid()
      modifies this`world, this`now, this`deferred, this`pending, this`discard, this`generated, sampleClock
      ensures Valid()
      ensures r.Err? ==> StepCore(devices, old(View())) == Err(r.error)
      ensures r.Ok? ==> StepCore(devices, old(View())).Ok?
      ensures r.Ok? ==>
                var (next, samples) := StepCore(devices, old(View())).value;
                && View() == next && pending == old(pending) + Kept(samples, old(discard))
                && discard == old(discard) - Min(old(discard), |samples| / 2)
      ensures r.Ok? && old(InStep()) ==> InStep()
      ensures discard <= old(discard)
    {
      hide Lawful, FlushCore, Kept, Balanced;
      var outcome := devices.execute(world, now);
      if outcome.Err? {
        return Err(outcome.error);
      }
      world := outcome.value.0;
      r := AdvanceDevices(outcome.value.1, outcome.value.2);
    }

    /** Steps until the queue holds something; `shown` is what has been taken from it before. */
    method AwaitAudio(ghost shown: seq<Sample>, ghost need: nat) returns (r: Result<(), MachineError>)
      requires Shape() && discard == 0 && |shown| < need
      modifies this`world, this`now, this`deferred, this`pending, this`discard, this`generated, sampleClock
      ensures Shape() && discard == 0 && |pending| % 2 == |old(pending)| % 2 && (old(InStep()) && r.Ok? ==> InStep())
      ensures r.Err? ==>
                old(pending) == [] && RunUntil(devices, old(View()), shown + old(pending), need) == Err(r.error)
      ensures r.Ok? ==>
                && pending != []
                && RunUntil(devices, old(View()), shown + old(pending), need)
                     == RunUntil(devices, View(), shown + pending, need)
    {
      hide Lawful, StepCore, Balanced, Kept, RunUntil;
      while pending == []
        invariant Shape() && discard == 0 && |pending| % 2 == |old(pending)| % 2 && (old(InStep()) ==> InStep())
        invariant RunUntil(devices, old(View()), shown + old(pending), need)
                    == RunUntil(devices, View(), shown + pending, need)
        invariant old(pending) != [] ==> pending == old(pending)
        decreases pending == [], View().Slack()
      {
        ghost var core := View();
        assert shown + pending == shown;
        var stepped := StepInner();
        StepsOn(devices, core, shown, need);
        if stepped.Err? {
          return Err(stepped.error);
        }
        KeptAll(StepCore(devices, core).value.1);
        assert pending == StepCore(devices, core).value.1;
      }
      return Ok(());
    }

    /** Removes the oldest queued sample, stepping while there is none. */
    method TakeSample(ghost shown: seq<Sample>, ghost need: nat) returns (r: Result<Sample, MachineError>)
      requires Shape() && discard == 0 && |shown| < need
      modifies this`world, this`now, this`deferred, this`pending, this`discard, this`generated, sampleClock
      ensures Shape() && discard == 0 && (old(InStep()) && r.Ok? ==> InStep())
      ensures |pending| % 2 == (|old(pending)| + if r.Ok? then 1 else 0) % 2
      ensures r.Err? ==>
                old(pending) == [] && RunUntil(devices, old(View()), shown + old(pending), need) == Err(r.error)
      ensures r.Ok? ==>
                RunUntil(devices, old(View()), shown + old(pending), need)
                == RunUntil(devices, View(), shown + [r.value] + pending, need)
    {
      hide Lawful, StepCore, Balanced, RunUntil;
      var awaited := AwaitAudio(shown, need);
      if awaited.Err? {
        return Err(awaited.error);
      }
      r := Ok(pending[0]);
      TakeOne(shown, pending);
      pending := pending[1..];
    }

    /** Fills the buffer with exactly `frames` frames, stepping only when the queue is empty. */
    method Render(frames: u64, output: array<Sample>) returns (r: Result<(), MachineError>)
      requires Valid() && discard == 0
      modifies this`world, this`now, this`deferred, this`pending, this`discard, this`generated, sampleClock, output
      ensures Valid() && discard == 0
      ensures r == Err(OutputSize) <== 2 * frames >= U64_LIMIT || output.Length != 2 * frames
      ensures 2 * frames < U64_LIMIT && output.Length == 2 * frames ==>
                match RunUntil(devices, old(View()), old(pending), 2 * frames)
                case Err(e) => r == Err(e)
                case Ok((core, queue)) =>
                  && r.Ok? && View() == core && |queue| >= 2 * frames
                  && output[..] == queue[..2 * frames] && pending == queue[2 * frames..]
      ensures r.Ok? && old(InStep()) ==> InStep()
    {
      hide Lawful, StepCore, RateConverter.Valid, RunUntil, Kept;
      if 2 * frames >= U64_LIMIT || output.Length != 2 * frames {
        return Err(OutputSize);
      }
      ghost var start, first := View(), pending;
      assert output[..0] + pending == pending;
      for i := 0 to output.Length
        invariant Shape() && discard == 0 && (i + |pending|) % 2 == 0 && (old(InStep()) ==> InStep())
        invariant RunUntil(devices, start, first, 2 * frames)
                    == RunUntil(devices, View(), output[..i] + pending, 2 * frames)
      {
        ghost var shown := output[..i];
        var sample := TakeSample(shown, 2 * frames);
        if sample.Err? {
          return Err(sample.error);
        }
        output[i] := sample.value;
        assert output[..i + 1] == shown + [sample.value];
      }
      assert output[..output.Length] == output[..];
      RunEnds(devices, View(), output[..] + pending, 2 * frames);
      Halves(output[..], pending);
      return Ok(());
    }

    /** Advances `frames` frames without retaining output. */
    method Advance(frames: u64) returns (r: Result<(), MachineError>)
      requires Valid() && discard == 0
      modifies this`world, this`now, this`deferred, this`pending, this`discard, this`generated, sampleClock
      ensures Valid() && discard == 0
      ensures match RunUntil(devices, old(View()), old(pending), 2 * frames)
              case Err(e) => r == Err(e)
              case Ok((core, queue)) =>
                r.Ok? && View() == core && |queue| >= 2 * frames && pending == queue[2 * frames..]
      ensures r.Ok? && old(InStep()) ==> InStep()
    {
      hide Lawful, StepCore, RateConverter.Valid, RunUntil, Kept;
      ghost var start, first, virtual_ := View(), pending, pending;
      var queued := Min(|pending| / 2, frames);
      KeptFront(pending, frames);
      pending := pending[2 * queued..];
      var remaining := frames - queued;
      if remaining == 0 {
        RunEnds(devices, start, first, 2 * frames);
        return Ok(());
      }
      discard := remaining;
      while discard != 0
        invariant Valid() && (old(InStep()) ==> InStep())
        invariant RunUntil(devices, start, first, 2 * frames) == RunUntil(devices, View(), virtual_, 2 * frames)
        invariant |virtual_| % 2 == 0 && pending == Kept(virtual_, frames)
        invariant discard == frames - Min(frames, |virtual_| / 2)
        decreases discard, View().Slack()
      {
        ghost var core, dropping := View(), discard;
        var stepped := StepInner();
        StepsOn(devices, core, virtual_, 2 * frames);
        if stepped.Err? {
          discard := 0;
          return Err(stepped.error);
        }
        KeptOn(virtual_, StepCore(devices, core).value.1, frames, dropping);
        virtual_ := virtual_ + StepCore(devices, core).value.1;
      }
      KeptFront(virtual_, frames);
      RunEnds(devices, View(), virtual_, 2 * frames);
      return Ok(());
    }
  }

  lemma KeptFront(queue: seq<Sample>, frames: nat)
    requires |queue| % 2 == 0
    ensures Kept(queue, frames) == queue[2 * Min(|queue| / 2, frames)..]
  {
  }

  lemma KeptOn(queue: seq<Sample>, samples: seq<Sample>, frames: nat, dropping: nat)
    requires |queue| % 2 == 0 && |samples| % 2 == 0 && dropping == frames - Min(frames, |queue| / 2)
    ensures Kept(queue + samples, frames) == Kept(queue, frames) + Kept(samples, dropping)
  {
  }

  /** One unfolding of the reference run. */
  lemma StepsOn<W(!new)>(d: Devices<W>, c: Core<W>, queue: seq<Sample>, need: nat)
    requires Lawful(d) && c.Ok() && |queue| < need
    ensures StepCore(d, c).Err? ==> RunUntil(d, c, queue, need) == Err(StepCore(d, c).error)
    ensures StepCore(d, c).Ok? ==>
              var (next, samples) := StepCore(d, c).value;
              && next.Ok() && |samples| % 2 == 0
              && RunUntil(d, c, queue, need) == RunUntil(d, next, queue + samples, need)
              && (samples == [] ==> next.Slack() < c.Slack())
    ensures c.Slack() > 0
  {
    if StepCore(d, c).Ok? {
      StepProgress(d, c);
    }
  }

  lemma RunEnds<W(!new)>(d: Devices<W>, c: Core<W>, queue: seq<Sample>, need: nat)
    requires Lawful(d) && c.Ok() && |queue| >= need
    ensures RunUntil(d, c, queue, need) == Ok((c, queue))
  {
  }

  lemma Halves(a: seq<Sample>, b: seq<Sample>)
    ensures (a + b)[..|a|] == a && (a + b)[|a|..] == b
  {
  }

  lemma TakeOne(shown: seq<Sample>, queue: seq<Sample>)
    requires queue != []
    ensures (shown + [queue[0]]) + queue[1..] == shown + queue
  {
  }

  lemma KeptAll(samples: seq<Sample>)
    ensures Kept(samples, 0) == samples
  {
  }

  lemma NoChunks<W>(d: Devices<W>, world: W)
    ensures Chunks(d, world, 0) == Ok((world, []))
  {
  }

  /** Synthesis of all `frames` amounts to what was made so far plus the rest from here. */
  ghost predicate Resumes<W>(d: Devices<W>, start: W, frames: nat, world: W, left: nat, made: seq<Sample>)
  {
    Chunks(d, start, frames) ==
      match Chunks(d, world, left)
      case Err(e) => Err(e)
      case Ok((last, rest)) => Ok((last, made + rest))
  }

  lemma ResumesStart<W>(d: Devices<W>, start: W, frames: nat)
    ensures Resumes(d, start, frames, start, frames, [])
  {
    if Chunks(d, start, frames).Ok? {
      var rest := Chunks(d, start, frames).value.1;
      assert [] + rest == rest;
    }
  }

  lemma ResumesEnd<W>(d: Devices<W>, start: W, frames: nat, world: W, made: seq<Sample>)
    requires Resumes(d, start, frames, world, 0, made)
    ensures Chunks(d, start, frames) == Ok((world, made))
  {
    assert made + [] == made;
  }

  lemma ResumesStep<W(!new)>(d: Devices<W>, start: W, frames: nat, world: W, left: nat, made: seq<Sample>)
    requires Lawful(d) && left > 0 && Resumes(d, start, frames, world, left, made)
    ensures var r := d.synthesize(world, Min(left, AUDIO_CHUNK_FRAMES));
            && (r.Err? ==> Chunks(d, start, frames) == Err(r.error))
            && (r.Ok? ==>
                  && |r.value.1| == 2 * Min(left, AUDIO_CHUNK_FRAMES)
                  && Resumes(d, start, frames, r.value.0, left - Min(left, AUDIO_CHUNK_FRAMES), made + r.value.1))
  {
    var chunk := Min(left, AUDIO_CHUNK_FRAMES);
    var r := d.synthesize(world, chunk);
    if r.Ok? && Chunks(d, r.value.0, left - chunk).Ok? {
      var rest := Chunks(d, r.value.0, left - chunk).value.1;
      assert made + (r.value.1 + rest) == (made + r.value.1) + rest;
    }
  }

  lemma KeptNone(queue: seq<Sample>, discard: nat)
    ensures queue + Kept([], discard) == queue
  {
  }

  /** Dropping frames keeps samples in pairs. */
  lemma KeptPairs(samples: seq<Sample>, discard: nat)
    requires |samples| % 2 == 0
    ensures |Kept(samples, discard)| % 2 == 0
  {
  }

  lemma KeptStep(made: seq<Sample>, samples: seq<Sample>, discard: nat, discarded: nat)
    requires |made| % 2 == 0 && |samples| % 2 == 0
    requires discarded == Min(|samples| / 2, discard - Min(discard, |made| / 2))
    ensures Kept(made + samples, discard) == Kept(made, discard) + samples[2 * discarded..]
  {
  }

  // ----- Main results

  /** Samples already taken only shift the run. */
  lemma {:induction false} RunShift<W(!new)>(d: Devices<W>, c: Core<W>, taken: seq<Sample>, queue: seq<Sample>,
                                             need: nat)
    requires Lawful(d) && c.Ok()
    ensures RunUntil(d, c, taken + queue, |taken| + need) ==
            match RunUntil(d, c, queue, need)
            case Err(e) => Err(e)
            case Ok((core, q)) => Ok((core, taken + q))
    decreases need - |queue|, c.Slack()
  {
    hide Lawful, StepCore;
    if |queue| < need {
      StepsOn(d, c, queue, need);
      StepsOn(d, c, taken + queue, |taken| + need);
      if StepCore(d, c).Ok? {
        var (next, samples) := StepCore(d, c).value;
        RunShift(d, next, taken, queue + samples, need);
        assert (taken + queue) + samples == taken + (queue + samples);
      }
    }
  }

  /** Asking for less first is a stop on the way. */
  lemma {:induction false} RunStops<W(!new)>(d: Devices<W>, c: Core<W>, queue: seq<Sample>, first: nat, need: nat)
    requires Lawful(d) && c.Ok() && first <= need
    ensures match RunUntil(d, c, queue, first)
            case Err(e) => RunUntil(d, c, queue, need) == Err(e)
            case Ok((core, q)) => core.Ok() && |q| >= first && RunUntil(d, c, queue, need) == RunUntil(d, core, q, need)
    decreases first - |queue|, c.Slack()
  {
    hide Lawful, StepCore;
    if |queue| < first {
      StepsOn(d, c, queue, first);
      StepsOn(d, c, queue, need);
      if StepCore(d, c).Ok? {
        var (next, samples) := StepCore(d, c).value;
        RunStops(d, next, queue + samples, first, need);
      }
    }
  }

  /** Rendering `m` and then `n` samples is rendering `m + n`: same core, same output, same queue. */
  lemma RenderInParts<W(!new)>(d: Devices<W>, c: Core<W>, queue: seq<Sample>, m: nat, n: nat)
    requires Lawful(d) && c.Ok() && RunUntil(d, c, queue, m).Ok?
    ensures var (core, q) := RunUntil(d, c, queue, m).value;
            && core.Ok() && |q| >= m
            && RunUntil(d, c, queue, m + n) ==
               match RunUntil(d, core, q[m..], n)
               case Err(e) => Err(e)
               case Ok((core', q')) => Ok((core', q[..m] + q'))
  {
    hide Lawful, RunUntil;
    RunStops(d, c, queue, m, m + n);
    var (core, q) := RunUntil(d, c, queue, m).value;
    RunShift(d, core, q[..m], q[m..], n);
    assert q[..m] + q[m..] == q;
  }

  /** Advancing is rendering with the output thrown away: same result, same state, pending queue included. */
  method AdvanceIsRender<W(!new)>(a: Ps1Machine<W>, b: Ps1Machine<W>, frames: u64, output: array<Sample>)
    returns (advanced: Result<(), MachineError>, rendered: Result<(), MachineError>)
    requires a.Valid() && b.Valid() && a != b && a.sampleClock != b.sampleClock
    requires a.devices == b.devices && a.View() == b.View() && a.pending == b.pending && a.discard == b.discard == 0
    requires 2 * frames < U64_LIMIT && output.Length == 2 * frames
    modifies a, a.sampleClock, b, b.sampleClock, output
    ensures advanced.Ok? <==> rendered.Ok?
    ensures advanced.Err? ==> rendered == advanced
    ensures advanced.Ok? ==> a.View() == b.View() && a.pending == b.pending && a.discard == b.discard == 0
    ensures a.Valid() && b.Valid()
  {
    hide RunUntil, Lawful, RateConverter.Valid;
    advanced := a.Advance(frames);
    rendered := b.Render(frames, output);
  }

  /** Whatever the synchronization pattern: frames generated are the flushed time, converted and rounded down. */
  lemma FramesGenerated<W(!new)>(m: Ps1Machine<W>)
    requires m.Valid() && m.InStep()
    ensures m.now >= m.deferred && m.generated == (m.now as int - m.deferred) * SAMPLE_RATE / CPU_HZ
    ensures m.deferred < DEVICE_SYNC_CYCLES
  {
  }
}
