/** An instance: with silence detection the outcome of a fully served call depends on the quantum. */
module PlayerOutcome {
  import opened Machine
  import opened Wrappers
  import opened Clock
  import opened Ps1Machine
  import opened FrameStream
  import opened Audio
  import opened Player

  const STEP_CYCLES := 768

  /** Samples of `count` frames, of which only frame 0 is audible. */
  function Click(from: nat, count: nat): seq<Sample>
  {
    seq(2 * count, i => if from == 0 && i < 2 then 1 else 0)
  }

  /** A machine that makes one frame a step and counts them. */
  const CLICKER: Devices<nat> := Devices(
    (w, now) => Ok((w, STEP_CYCLES, true)),
    (w, now) => false,
    (w, ticks, now) => Ok(w),
    (w, frames) => Ok((w + frames, Click(w, frames))),
    w => Ok(w))

  function After(steps: nat): Core<nat>
    requires steps <= 100
  {
    Core(steps, STEP_CYCLES * steps, 0, 0)
  }

  lemma ClickerLawful()
    ensures Lawful(CLICKER)
  {
  }

  lemma OneStep(n: nat)
    requires n < 100
    ensures StepCore(CLICKER, After(n)) == Ok((After(n + 1), Click(n, 1)))
  {
    assert Total(STEP_CYCLES, SAMPLE_RATE, 0) == CPU_HZ;
    assert Chunks(CLICKER, n, 1) == Ok((n + 1, Click(n, 1))) by {
      assert Click(n, 1) + [] == Click(n, 1);
      assert Chunks(CLICKER, n + 1, 0) == Ok((n + 1, []));
    }
  }

  predicate Clicked(queue: seq<Sample>) { forall i :: 0 <= i < |queue| ==> queue[i] == if i < 2 then 1 else 0 }

  lemma {:induction false} ClickerRuns(n: nat, queue: seq<Sample>, need: nat)
    requires n <= 100 && |queue| == 2 * n && Clicked(queue) && need <= 200 && Lawful(CLICKER)
    ensures RunUntil(CLICKER, After(n), queue, need).Ok? && Clicked(RunUntil(CLICKER, After(n), queue, need).value.1)
    decreases 100 - n
  {
    hide Lawful, StepCore;
    if |queue| < need {
      OneStep(n);
      StepsOn(CLICKER, After(n), queue, need);
      ClickerRuns(n + 1, queue + Click(n, 1), need);
    }
  }

  lemma ClickerFrame(k: nat)
    requires k < 100
    ensures Runs(CLICKER, 0, k) && StreamOf(CLICKER, 0)(k) == if k == 0 then Frame(1, 1) else Frame(0, 0)
  {
    hide Lawful, RunUntil;
    ClickerLawful();
    ClickerRuns(0, [], 2 * k);
    ClickerRuns(0, [], 2 * (k + 1));
    RunLength(CLICKER, After(0), [], 2 * (k + 1));
  }

  function Left(frame: Frame, position: nat): Sample { frame.left }

  function Quiet(sample: Sample): bool { sample == 0 }

  lemma ClickTimeline(to: nat)
    requires to <= 3
    ensures Timeline(StreamOf(CLICKER, 0), Left, 0, to) == [1, 0, 0][..to]
  {
    hide StreamOf;
    ClickerFrame(0);
    ClickerFrame(1);
    ClickerFrame(2);
  }

  /** One frame releases itself; the two behind it end detection. */
  lemma ClickScans()
    ensures Scan([1, 0, 0][..0], Quiet, 2) == Scanned(false, false, [], [])
    ensures Scan([1, 0, 0][..1], Quiet, 2) == Scanned(true, false, [1], [])
    ensures Scan([1, 0, 0][..3], Quiet, 2) == Scanned(true, true, [1], [])
  {
    var a, s0 := [1, 0, 0], Scanned(false, false, [], []);
    assert a[..1][..0] == [] && a[..2][..1] == a[..1] && a[..3][..2] == a[..2] && a[..0] == [];
    var s1, s2 := Scanned(true, false, [1], []), Scanned(true, false, [1], [0]);
    assert Accept(s0, 1, Quiet, 2) == s1;
    assert AcceptAll(s0, a[..1], Quiet, 2) == s1;
    assert AcceptAll(s0, a[..2], Quiet, 2) == Accept(s1, 0, Quiet, 2) == s2;
    assert AcceptAll(s0, a[..3], Quiet, 2) == Accept(s2, 0, Quiet, 2) == Scanned(true, true, [1], []);
  }

  lemma ClickLimit()
    ensures IsLimit(StreamOf(CLICKER, 0), Left, 0, Some(10), Quiet, 2, 1)
  {
    hide StreamOf;
    ClickTimeline(3);
    var frames := [1, 0, 0][..3];
    assert !Quiet(frames[0]) && Quiet(frames[1]) && Quiet(frames[2]);
    assert RunAt(frames, 1, Quiet, 2);
  }

  /** A player of the click with a ten-frame timeline that ends after two quiet frames. */
  method ClickPlayer(quantum: u64) returns (player: Player<nat, Sample>, detector: SilenceDetector<Sample>)
    requires 0 < quantum <= 10
    ensures player.Valid() && player.detector == Some(detector) && player.quantum == quantum && player.AlwaysContinues()
    ensures fresh(player) && fresh(player.Repr())
    ensures player.machine.machine.devices == CLICKER && player.machine.world == 0 && player.postMix.mix == Left
    ensures player.postMix.EndFrame() == Some(10) && player.postMix.position == 0
    ensures detector.quiet == Quiet && detector.requiredFrames == 2 && player.base == player.deliveredFrames == 0
  {
    ClickerLawful();
    var machine := new FrameMachine(CLICKER, 0);
    var postMix := new PostMixer(Left, Some(10), 0);
    detector := new SilenceDetector(Quiet, 2);
    player := new Player(machine, postMix, Some(detector), quantum, (k, block) => Continue);
  }

  /** How far each player looks ahead to deliver one frame. */
  lemma ClickLooks(player: Player<nat, Sample>, d: SilenceDetector<Sample>)
    requires player.base == 0 && player.quantum in {1, 3} && d.quiet == Quiet && d.requiredFrames == 2
    requires player.machine.machine.devices == CLICKER && player.machine.world == 0 && player.postMix.mix == Left
    requires player.postMix.EndFrame() == Some(10)
    ensures player.Generated(d, 0, 1) == player.quantum
    ensures player.Reachable(0, player.quantum)
    ensures player.AtLimit(d, 1)
  {
    hide StreamOf, Scan, IsLimit, Timeline;
    ClickTimeline(0);
    ClickTimeline(player.quantum);
    ClickScans();
    ClickLimit();
    ClickerFrame(player.quantum);
    assert !player.Enough(d, 0, 1) && player.Stride(0) == player.quantum && player.Enough(d, player.quantum, 1);
  }

  /** Both players deliver the one frame asked for; only the one with the larger quantum reports the end. */
  method OutcomeDependsOnQuantum()
    returns (one: Result<RenderOutcome, PlayerError>, three: Result<RenderOutcome, PlayerError>)
    ensures one == Ok(Complete(1)) && three == Ok(End(1))
  {
    one := RenderOne(1);
    three := RenderOne(3);
  }

  method RenderOne(quantum: u64) returns (r: Result<RenderOutcome, PlayerError>)
    requires quantum in {1, 3}
    ensures r == Ok(if quantum == 1 then Complete(1) else End(1))
  {
    hide StreamOf, Scan, IsLimit, Timeline, Player.Generated, Player.Valid, Player.Handed;
    var player, d := ClickPlayer(quantum);
    ClickLooks(player, d);
    ghost var shown, handed;
    r, shown, handed := player.RenderDetected(1, d);
    if player.AtLimit(d, player.deliveredFrames - player.base) {
      LimitUnique(StreamOf(CLICKER, 0), Left, 0, Some(10), Quiet, 2, player.deliveredFrames, 1);
    }
  }
}
