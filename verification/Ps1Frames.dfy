/** The machine as the player uses it: one stream of frames, fixed by the run of the machine from its snapshot. */
module FrameStream {
  import opened Machine
  import opened Wrappers
  import opened Clock
  import opened Ps1Machine

  datatype Frame = Frame(left: Sample, right: Sample)

  function FramesOf(samples: seq<Sample>): (r: seq<Frame>)
    ensures |r| == |samples| / 2
    ensures forall k :: 0 <= k < |r| ==> r[k] == Frame(samples[2 * k], samples[2 * k + 1])
  {
    seq(|samples| / 2, k requires 0 <= k < |samples| / 2 => Frame(samples[2 * k], samples[2 * k + 1]))
  }

  function Snapshot<W>(world: W): Core<W> { Core(world, 0, 0, 0) }

  /** The machine runs from its snapshot to the end of frame `frames - 1` without failing. */
  ghost predicate Runs<W(!new)>(d: Devices<W>, world: W, frames: nat)
  {
    Lawful(d) && RunUntil(d, Snapshot(world), [], 2 * frames).Ok?
  }

  /** Frame `k` of the machine's run; arbitrary if the run fails before. */
  ghost function FrameAt<W(!new)>(d: Devices<W>, world: W, k: nat): Frame
  {
    if Runs(d, world, k + 1) then
      RunLength(d, Snapshot(world), [], 2 * (k + 1));
      var queue := RunUntil(d, Snapshot(world), [], 2 * (k + 1)).value.1;
      Frame(queue[2 * k], queue[2 * k + 1])
    else Frame(0, 0)
  }

  ghost function StreamOf<W(!new)>(d: Devices<W>, world: W): nat -> Frame
  {
    (k: nat) => FrameAt(d, world, k)
  }

  /** A run only adds to its queue, and ends when enough is queued. */
  lemma {:induction false} RunLength<W(!new)>(d: Devices<W>, c: Core<W>, queue: seq<Sample>, need: nat)
    requires Lawful(d) && c.Ok() && RunUntil(d, c, queue, need).Ok?
    ensures var (core, q) := RunUntil(d, c, queue, need).value; core.Ok() && queue <= q && |q| >= need
    decreases need - |queue|, c.Slack()
  {
    hide Lawful, StepCore;
    if |queue| < need {
      StepsOn(d, c, queue, need);
      var (next, samples) := StepCore(d, c).value;
      RunLength(d, next, queue + samples, need);
    }
  }

  /** A run that gets far passes every earlier frame, and finds it the same. */
  lemma RunPasses<W(!new)>(d: Devices<W>, world: W, to: nat, k: nat)
    requires Runs(d, world, to) && k < to
    ensures Runs(d, world, k)
    ensures var q := RunUntil(d, Snapshot(world), [], 2 * to).value.1;
            |q| >= 2 * to && FrameAt(d, world, k) == Frame(q[2 * k], q[2 * k + 1])
  {
    hide Lawful, RunUntil;
    RunStops(d, Snapshot(world), [], 2 * k, 2 * to);
    RunStops(d, Snapshot(world), [], 2 * (k + 1), 2 * to);
    RunLength(d, Snapshot(world), [], 2 * (k + 1));
    var (core, q) := RunUntil(d, Snapshot(world), [], 2 * (k + 1)).value;
    RunLength(d, core, q, 2 * to);
  }

  class FrameMachine<W(!new)> {
    const machine: Ps1Machine<W>
    /** The snapshot taken after loading. */
    const world: W
    /** Frames rendered or advanced over since the snapshot. */
    ghost var position: nat

    ghost function Repr(): set<object> { {this, machine, machine.sampleClock} }

    ghost function Stream(): nat -> Frame { StreamOf(machine.devices, world) }

    ghost predicate Reaches(to: nat) { Runs(machine.devices, world, to) }

    /** The machine is whole, though perhaps not where the stream has it. */
    ghost predicate Sound()
      reads this, machine, machine.sampleClock
    {
      machine.Valid() && machine.discard == 0
    }

    /** The machine stands where its run from the snapshot has produced `position` frames. */
    ghost predicate Valid()
      reads this, machine, machine.sampleClock
    {
      && Sound() && Reaches(position)
      && machine.View() == RunUntil(machine.devices, Snapshot(world), [], 2 * position).value.0
      && Behind(RunUntil(machine.devices, Snapshot(world), [], 2 * position).value.1, machine.pending, position)
    }

    constructor (devices: Devices<W>, world: W)
      requires Lawful(devices)
      ensures Valid() && position == 0 && fresh(machine) && fresh(machine.sampleClock)
      ensures machine.devices == devices && this.world == world
    {
      this.world := world;
      machine := new Ps1Machine(devices, world);
      position := 0;
      new;
      RunEnds(devices, Snapshot(world), [], 0);
    }

    method Render(frames: nat) returns (r: Result<seq<Frame>, MachineError>)
      requires Valid() && 2 * frames < U64_LIMIT
      modifies this, machine, machine.sampleClock
      ensures Sound()
      ensures r.Ok? <==> Reaches(old(position) + frames)
      ensures r.Ok? ==> Valid() && position == old(position) + frames
      ensures r.Ok? ==> |r.value| == frames && forall k :: 0 <= k < frames ==> r.value[k] == Stream()(old(position) + k)
    {
      hide Lawful, RunUntil, RateConverter.Valid;
      ghost var at := position;
      Continue(machine.devices, world, position, machine.pending, frames);
      var buffer := new Sample[2 * frames];
      var rendered := machine.Render(frames, buffer);
      if rendered.Err? {
        return Err(rendered.error);
      }
      position := position + frames;
      ghost var queue := RunUntil(machine.devices, Snapshot(world), [], 2 * position).value.1;
      forall k | 0 <= k < frames
        ensures FramesOf(buffer[..])[k] == Stream()(at + k)
      {
        RunPasses(machine.devices, world, position, at + k);
        assert buffer[2 * k] == queue[2 * (at + k)] && buffer[2 * k + 1] == queue[2 * (at + k) + 1];
      }
      return Ok(FramesOf(buffer[..]));
    }

    method Advance(frames: u64) returns (r: Result<(), MachineError>)
      requires Valid()
      modifies this, machine, machine.sampleClock
      ensures Sound()
      ensures r.Ok? <==> Reaches(old(position) + frames)
      ensures r.Ok? ==> Valid() && position == old(position) + frames
    {
      hide Lawful, RunUntil, RateConverter.Valid;
      Continue(machine.devices, world, position, machine.pending, frames);
      r := machine.Advance(frames);
      if r.Ok? {
        position := position + frames;
      }
    }

    /** Restores the snapshot. */
    method Reset()
      requires Sound()
      modifies this, machine, machine.sampleClock
      ensures Valid() && position == 0
    {
      machine.Reset(world);
      position := 0;
      RunEnds(machine.devices, Snapshot(world), [], 0);
    }

    lemma ValidIsSound()
      requires Valid()
      ensures Sound() && Reaches(position)
    {
    }

    /** Frames it gets to are frames it gets past. */
    lemma ReachesBefore(to: nat, k: nat)
      requires Reaches(to) && k <= to
      ensures Reaches(k)
    {
      if k < to {
        RunPasses(machine.devices, world, to, k);
      }
    }
  }

  /** Where the stream stands determines the machine. */
  lemma SamePlace<W(!new)>(a: FrameMachine<W>, b: FrameMachine<W>)
    requires a.Valid() && b.Valid() && a.position == b.position
    requires a.machine.devices == b.machine.devices && a.world == b.world
    ensures a.machine.View() == b.machine.View() && a.machine.pending == b.machine.pending
  {
    hide RunUntil, Lawful, RateConverter.Valid;
  }

  /** Wherever the stream stands, no due event waits behind deferred ticks. */
  lemma NeverLate<W(!new)>(m: FrameMachine<W>)
    requires m.Valid()
    ensures Prompt(m.machine.devices, m.machine.View())
  {
    hide RunUntil, Lawful, RateConverter.Valid;
    RunPrompt(m.machine.devices, Snapshot(m.world), [], 2 * m.position);
  }

  /** What is queued behind the first `frames` frames. */
  predicate Behind(queue: seq<Sample>, pending: seq<Sample>, frames: nat)
  {
    2 * frames <= |queue| && queue[2 * frames..] == pending
  }

  /** Going on from where a run stands is the longer run. */
  lemma Continue<W(!new)>(d: Devices<W>, world: W, at: nat, pending: seq<Sample>, frames: nat)
    requires Runs(d, world, at) && Behind(RunUntil(d, Snapshot(world), [], 2 * at).value.1, pending, at)
    ensures var (core, queue) := RunUntil(d, Snapshot(world), [], 2 * at).value;
            var on := RunUntil(d, Snapshot(world), [], 2 * (at + frames));
            && core.Ok()
            && match RunUntil(d, core, pending, 2 * frames)
               case Err(e) => on == Err(e)
               case Ok((later, q)) => on == Ok((later, queue[..2 * at] + q))
  {
    hide Lawful, RunUntil;
    RenderInParts(d, Snapshot(world), [], 2 * at, 2 * frames);
    assert 2 * at + 2 * frames == 2 * (at + frames);
  }
}
