/** Playback: bounded callback blocks over one stream of frames fixed by absolute position. */
module Player {
  import opened Machine
  import opened Wrappers
  import opened Audio
  import opened FrameStream

  datatype RenderOutcome = Complete(frames: nat) | End(frames: nat) | Stopped(frames: nat)

  datatype PlayerError = MachineFailure | PostMix(error: PostMixError) | CallbackFailed(frames: nat)

  datatype AudioAction = Continue | Stop | Error

  /** Post-mixed frames of the timeline from `from` up to `to`. */
  function Timeline<I, O>(stream: nat -> I, mix: (I, nat) -> O, from: nat, to: nat): (r: seq<O>)
    requires from <= to
    ensures |r| == to - from
    ensures forall k :: 0 <= k < |r| ==> r[k] == mix(stream(from + k), from + k)
  {
    seq(to - from, k requires 0 <= k < to - from => mix(stream(from + k), from + k))
  }

  lemma MixedIsTimeline<I, O>(stream: nat -> I, mix: (I, nat) -> O, input: seq<I>, from: nat)
    requires forall k :: 0 <= k < |input| ==> input[k] == stream(from + k)
    ensures Mixed(mix, input, from) == Timeline(stream, mix, from, from + |input|)
  {
  }

  lemma TimelineJoins<I, O>(stream: nat -> I, mix: (I, nat) -> O, a: nat, b: nat, c: nat)
    requires a <= b <= c
    ensures Timeline(stream, mix, a, b) + Timeline(stream, mix, b, c) == Timeline(stream, mix, a, c)
    ensures Timeline(stream, mix, a, c)[..b - a] == Timeline(stream, mix, a, b)
    ensures Timeline(stream, mix, a, c)[b - a..] == Timeline(stream, mix, b, c)
  {
  }

  lemma TimelineParts<I, O>(stream: nat -> I, mix: (I, nat) -> O, a: nat, b: nat, c: nat, d: nat)
    requires a <= b <= c <= d
    ensures Timeline(stream, mix, a, d)[..b - a] == Timeline(stream, mix, a, b)
    ensures Timeline(stream, mix, a, d)[b - a..c - a] == Timeline(stream, mix, b, c)
  {
  }

  lemma PrefixParts<O>(frames: seq<O>, front: seq<O>, back: seq<O>)
    requires |front| + |back| <= |frames| && front + back == frames[..|front| + |back|]
    ensures front == frames[..|front|] && back == frames[|front|..|front| + |back|]
  {
    assert front == (front + back)[..|front|] && back == (front + back)[|front|..];
  }

  // ----- Where playback with silence detection ends

  /** The detector agrees with a scan of the frames, its tail released if the timeline is over. */
  ghost predicate Tracks<O>(s: Scanned<O>, frames: seq<O>, quiet: O -> bool, required: nat, over: bool)
  {
    s == Scan(frames, quiet, required) || (over && s == Finished(Scan(frames, quiet, required)))
  }

  /**
   * `count` frames are all that can ever be delivered of the frames from `base`: up to the declared
   * end, or up to the first confirmed run of quiet frames.
   */
  ghost predicate IsLimit<I, O>(stream: nat -> I, mix: (I, nat) -> O, base: nat, end: Option<u64>, quiet: O -> bool,
                                required: nat, count: nat)
  {
    || (&& end.Some? && base + count == Max(base, end.value)
        && NoRun(Timeline(stream, mix, base, base + count), quiet, required))
    || (&& (end.Some? ==> base + count + required <= end.value)
        && FirstRun(Timeline(stream, mix, base, base + count + required), count, quiet, required))
  }

  /** A run inside a shorter stretch is one inside a longer stretch, and conversely where it fits. */
  lemma RunInLonger<I, O>(stream: nat -> I, mix: (I, nat) -> O, base: nat, short: nat, long: nat, c: nat,
                          quiet: O -> bool, required: nat)
    requires c + required <= short <= long
    ensures RunAt(Timeline(stream, mix, base, base + short), c, quiet, required) <==>
            RunAt(Timeline(stream, mix, base, base + long), c, quiet, required)
  {
    var a, b := Timeline(stream, mix, base, base + short), Timeline(stream, mix, base, base + long);
    assert forall k :: 0 <= k < short ==> a[k] == b[k];
  }

  /** What a tracking detector has released never exceeds the limit. */
  lemma WithinLimit<I, O>(stream: nat -> I, mix: (I, nat) -> O, base: nat, pushed: nat, end: Option<u64>,
                          quiet: O -> bool, required: nat, s: Scanned<O>, over: bool, count: nat)
    requires required > 0 && (end.Some? ==> base + pushed <= Max(base, end.value))
    requires over ==> end.Some? && base + pushed == Max(base, end.value)
    requires Tracks(s, Timeline(stream, mix, base, base + pushed), quiet, required, over)
    requires IsLimit(stream, mix, base, end, quiet, required, count)
    ensures |s.ready| <= count
  {
    hide RunAt;
    var frames := Timeline(stream, mix, base, base + pushed);
    ScanCuts(frames, quiet, required);
    var scan := Scan(frames, quiet, required);
    if FirstRun(Timeline(stream, mix, base, base + count + required), count, quiet, required)
       && (end.Some? ==> base + count + required <= end.value)
    {
      if count + required <= pushed {
        RunInLonger(stream, mix, base, count + required, pushed, count, quiet, required);
        if scan.ended {
          FirstIsLeast(frames, |scan.ready|, count, quiet, required);
        }
      } else if !scan.ended {
        TailWithheld(stream, mix, base, pushed, quiet, required, scan, count);
      } else {
        RunFits(frames, |scan.ready|, quiet, required);
      }
    }
  }

  /** A detector in the middle of a run withholds it. */
  lemma TailWithheld<I, O>(stream: nat -> I, mix: (I, nat) -> O, base: nat, pushed: nat, quiet: O -> bool,
                           required: nat, s: Scanned<O>, count: nat)
    requires Running(s, Timeline(stream, mix, base, base + pushed), quiet, required)
    requires RunAt(Timeline(stream, mix, base, base + count + required), count, quiet, required)
             && pushed < count + required
    ensures |s.ready| <= count
  {
    var frames := Timeline(stream, mix, base, base + pushed);
    var longer := Timeline(stream, mix, base, base + count + required);
    assert forall k :: 0 <= k < pushed ==> frames[k] == longer[k];
    var a :| 0 <= a < count && !quiet(longer[a]);
    if s.heard {
      assert frames[|s.ready| - 1] == s.ready[|s.ready| - 1];
    }
  }

  lemma FirstIsLeast<O>(frames: seq<O>, c: nat, e: nat, quiet: O -> bool, required: nat)
    requires FirstRun(frames, c, quiet, required) && RunAt(frames, e, quiet, required)
    ensures c <= e
  {
  }

  lemma RunFits<O>(frames: seq<O>, c: nat, quiet: O -> bool, required: nat)
    requires RunAt(frames, c, quiet, required)
    ensures c + required <= |frames|
  {
  }

  /** There is at most one limit, so where playback ends does not depend on how it was asked for. */
  lemma LimitUnique<I, O>(stream: nat -> I, mix: (I, nat) -> O, base: nat, end: Option<u64>, quiet: O -> bool,
                          required: nat, m: nat, n: nat)
    requires IsLimit(stream, mix, base, end, quiet, required, m) && IsLimit(stream, mix, base, end, quiet, required, n)
    ensures m == n
  {
    hide RunAt;
    LimitAtMost(stream, mix, base, end, quiet, required, m, n);
    LimitAtMost(stream, mix, base, end, quiet, required, n, m);
  }

  lemma LimitAtMost<I, O>(stream: nat -> I, mix: (I, nat) -> O, base: nat, end: Option<u64>, quiet: O -> bool,
                          required: nat, m: nat, n: nat)
    requires IsLimit(stream, mix, base, end, quiet, required, m) && IsLimit(stream, mix, base, end, quiet, required, n)
    ensures m <= n
  {
    hide RunAt;
    if n < m && FirstRun(Timeline(stream, mix, base, base + n + required), n, quiet, required) {
      if n + required <= m {
        RunInLonger(stream, mix, base, n + required, m, n, quiet, required);
      }
      RunInLonger(stream, mix, base, n + required, m + required, n, quiet, required);
    }
  }

  class Player<W(!new), O(!new)> {
    const machine: FrameMachine<W>
    const postMix: PostMixer<Frame, O>
    const detector: Option<SilenceDetector<O>>
    /** Frames per callback block. */
    const quantum: u64
    /** What the consumer answers to its `k`-th block. */
    const callback: (nat, seq<O>) -> AudioAction
    var blocks: nat
    var deliveredFrames: u64
    /** Position at which detection last started over. */
    ghost var base: nat

    constructor (machine: FrameMachine<W>, postMix: PostMixer<Frame, O>, detector: Option<SilenceDetector<O>>,
                 quantum: u64, callback: (nat, seq<O>) -> AudioAction)
      requires quantum > 0 && 2 * quantum < U64_LIMIT && machine.Valid() && machine.position == postMix.position == 0
      requires detector.Some? ==> detector.value.Valid() && detector.value.View() == Scanned(false, false, [], [])
      requires detector.Some? ==> detector.value.drained == []
      ensures this.machine == machine && this.postMix == postMix && this.detector == detector
      ensures this.quantum == quantum && this.callback == callback
      ensures Valid() && deliveredFrames == 0 && base == 0
    {
      this.machine, this.postMix, this.detector, this.quantum, this.callback :=
        machine, postMix, detector, quantum, callback;
      blocks, deliveredFrames, base := 0, 0, 0;
    }

    ghost function Repr(): set<object>
    {
      {this, postMix, machine, machine.machine, machine.machine.sampleClock} + if detector.Some? then {detector.value}
      else {}
    }

    /** The stream between two absolute positions. */
    ghost function Stream(from: nat, to: nat): seq<O>
      requires from <= to
    {
      Timeline(machine.Stream(), postMix.mix, from, to)
    }

    /** Machine and timeline stand at the same frame, and delivery has passed over what precedes it. */
    ghost predicate Valid()
      reads this, machine, machine.machine, machine.machine.sampleClock, postMix,
            if detector.Some? then {detector.value} else {}
    {
      && quantum > 0 && 2 * quantum < U64_LIMIT && machine.Valid() && machine.position == postMix.position
      && (postMix.EndFrame().Some? ==> postMix.position <= postMix.EndFrame().value)
      && (detector.None? ==> deliveredFrames == postMix.position)
      && (detector.Some? ==> DetectorValid(detector.value))
    }

    /** What is left after any failure, and all that a reset needs. */
    ghost predicate Recoverable()
      reads machine, machine.machine, machine.machine.sampleClock
    {
      quantum > 0 && 2 * quantum < U64_LIMIT && machine.Sound()
      && (detector.Some? ==> detector.value.requiredFrames > 0)
    }

    ghost predicate DetectorValid(d: SilenceDetector<O>)
      reads this, postMix, d
    {
      && d.Valid() && d.requiredFrames > 0
      && base <= postMix.position && deliveredFrames == base + |d.drained|
      && Tracks(d.View(), Stream(base, postMix.position), d.quiet, d.requiredFrames, postMix.Ended())
    }

    ghost predicate AlwaysContinues() { forall k, block :: callback(k, block) == Continue }

    /**
     * `shown` was handed out as the blocks `handed`, the first of them as block number `from`; the consumer wanted
     * more after each but the last, which it answered with `answer`.
     */
    ghost predicate Handed(from: nat, handed: seq<seq<O>>, shown: seq<O>, answer: AudioAction)
    {
      && Flat(handed) == shown && (handed == [] ==> answer == Continue)
      && forall k :: 0 <= k < |handed| ==>
                       && 0 < |handed[k]| <= quantum
                       && callback(from + k, handed[k]) == if k == |handed| - 1 then answer else Continue
    }

    lemma NothingHanded(from: nat, at: nat)
      ensures Handed(from, [], [], Continue) && Stream(at, at) == []
    {
    }

    lemma HandOut(from: nat, handed: seq<seq<O>>, shown: seq<O>, block: seq<O>)
      requires Handed(from, handed, shown, Continue) && 0 < |block| <= quantum
      ensures Handed(from, handed + [block], shown + block, callback(from + |handed|, block))
    {
      var all := handed + [block];
      assert all[..|handed|] == handed;
      assert forall k :: 0 <= k < |handed| ==> all[k] == handed[k];
    }

    /** The machine gets that far and the position stays representable. */
    ghost predicate Reachable(from: nat, frames: nat)
    {
      machine.Reaches(from + frames) && from + frames < U64_LIMIT
    }

    /** The timeline is bounded and the machine gets to its end. */
    ghost predicate NeverFails() { postMix.EndFrame().Some? && machine.Reaches(postMix.EndFrame().value) }

    /** Renders one block and moves it onto the timeline. */
    method Generate(frames: u64) returns (r: Result<seq<O>, PlayerError>)
      requires machine.Valid() && machine.position == postMix.position && 2 * frames < U64_LIMIT
      modifies machine, machine.machine, machine.machine.sampleClock, postMix
      ensures machine.Sound()
      ensures r.Ok? ==>
                && machine.Valid() && machine.position == postMix.position == old(postMix.position) + frames
                && r.value == Stream(old(postMix.position), postMix.position)
      ensures r.Err? ==> !r.error.CallbackFailed?
      ensures r.Ok? ==> Reachable(old(postMix.position), frames)
      ensures r.Ok? && postMix.EndFrame().Some? && frames > 0 ==> postMix.position <= postMix.EndFrame().value
      ensures (&& machine.Reaches(old(machine.position) + frames) && old(postMix.position) + frames < U64_LIMIT
               && (postMix.EndFrame().Some? ==> old(postMix.position) + frames <= postMix.EndFrame().value)) ==> r.Ok?
    {
      hide FrameMachine.Valid, FrameMachine.Sound, FrameMachine.Reaches, StreamOf;
      var rendered := machine.Render(frames);
      if rendered.Err? {
        return Err(MachineFailure);
      }
      var mixed := postMix.Process(rendered.value);
      if mixed.Err? {
        return Err(PostMix(mixed.error));
      }
      MixedIsTimeline(machine.Stream(), postMix.mix, rendered.value, old(postMix.position));
      return Ok(mixed.value);
    }

    /** Delivers each generated block at once. */
    method RenderDirect(maxFrames: u64)
      returns (r: Result<RenderOutcome, PlayerError>, ghost shown: seq<O>, ghost handed: seq<seq<O>>)
      requires Valid() && detector.None?
      modifies this, machine, machine.machine, machine.machine.sampleClock, postMix
      ensures Recoverable()
      ensures base == old(base)
      ensures r.Ok? || r.error.CallbackFailed? ==>
                && Valid() && old(postMix.position) <= postMix.position <= old(postMix.position) + maxFrames
                && shown == Stream(old(postMix.position), postMix.position)
      ensures r.Ok? ==> r.value.frames == |shown|
      ensures r.Ok? && r.value.Complete? ==> |shown| == maxFrames && !postMix.Ended()
      ensures r.Ok? && r.value.End? ==> postMix.Ended()
      ensures AlwaysContinues() ==> (r.Ok? ==> !r.value.Stopped?) && (r.Err? ==> !r.error.CallbackFailed?)
      ensures AlwaysContinues() ==>
                (r.Ok? <==> old(postMix.AvailableFrames(maxFrames)) == 0
                            || Reachable(old(postMix.position), old(postMix.AvailableFrames(maxFrames))))
      ensures AlwaysContinues() && r.Ok? ==> |shown| == old(postMix.AvailableFrames(maxFrames))
      ensures r.Err? && r.error.CallbackFailed? ==> r.error.frames == |shown|
      ensures Handed(old(blocks), handed, shown, LastAnswer(r)) && blocks == old(blocks) + |handed|
    {
      hide Handed, FrameMachine.Valid, FrameMachine.Sound, FrameMachine.Reaches, StreamOf, Timeline, DetectorValid;
      var delivered: u64 := 0;
      shown, handed := [], [];
      NothingHanded(blocks, deliveredFrames);
      machine.ValidIsSound();
      while delivered < maxFrames
        invariant Valid() && base == old(base) && delivered <= old(postMix.AvailableFrames(maxFrames))
        invariant machine.Sound() && (delivered == 0 || Reachable(old(postMix.position), delivered))
        invariant postMix.position == old(postMix.position) + delivered
        invariant shown == Stream(old(postMix.position), postMix.position)
        invariant Handed(old(blocks), handed, shown, Continue) && blocks == old(blocks) + |handed|
      {
        if postMix.Ended() {
          return Ok(End(delivered)), shown, handed;
        }
        var frames := postMix.AvailableFrames(Min(maxFrames - delivered, quantum));
        ghost var at: nat := postMix.position;
        var block := Generate(frames);
        if block.Err? {
          if machine.Reaches(old(postMix.position) + old(postMix.AvailableFrames(maxFrames))) {
            machine.ReachesBefore(old(postMix.position) + old(postMix.AvailableFrames(maxFrames)), at + frames);
          }
          return Err(block.error), shown, handed;
        }
        delivered, deliveredFrames := delivered + frames, deliveredFrames + frames;
        TimelineJoins(machine.Stream(), postMix.mix, old(postMix.position), at, postMix.position);
        HandOut(old(blocks), handed, shown, block.value);
        shown, handed := shown + block.value, handed + [block.value];
        var action := callback(blocks, block.value);
        blocks := blocks + 1;
        match action {
          case Continue =>
          case Stop => return Ok(Stopped(delivered)), shown, handed;
          case Error => return Err(CallbackFailed(delivered)), shown, handed;
        }
      }
      return Ok(if postMix.Ended() then End(delivered) else Complete(delivered)), shown, handed;
    }

    // ----- Delivery with look-ahead

    /** Nothing is left to deliver, now or ever. */
    ghost predicate Exhausted(d: SilenceDetector<O>)
      reads this, postMix, d
      requires base <= postMix.position
    {
      && d.ready == []
      && (d.ended || (postMix.Ended()
                      && d.View() == Finished(Scan(Stream(base, postMix.position), d.quiet, d.requiredFrames))))
    }

    lemma AheadOfDelivery(d: SilenceDetector<O>)
      requires DetectorValid(d)
      ensures deliveredFrames + |d.ready| <= postMix.position
      ensures d.drained == Stream(base, deliveredFrames)
      ensures d.ready == Stream(deliveredFrames, deliveredFrames + |d.ready|)
    {
      hide AcceptAll, RunAt, NoRun, Tracks, Timeline, FrameMachine.Valid, StreamOf, PostMixer.EndFrame;
      TrackedPrefix(d.View(), Stream(base, postMix.position), d.quiet, d.requiredFrames, postMix.Ended());
      PrefixParts(Stream(base, postMix.position), d.drained, d.ready);
      TimelineParts(machine.Stream(), postMix.mix, base, deliveredFrames, deliveredFrames + |d.ready|,
                    postMix.position);
    }

    /** Delivers one block of released frames, behind what was shown since position `start`. */
    method DeliverReady(d: SilenceDetector<O>, capacity: u64, ghost start: nat, ghost from: nat, ghost shown: seq<O>,
                        ghost handed: seq<seq<O>>)
      returns (action: AudioAction, count: u64, ghost shown': seq<O>, ghost handed': seq<seq<O>>)
      requires DetectorValid(d) && d.ready != [] && quantum > 0 && capacity > 0
      requires start <= deliveredFrames && shown == Stream(start, deliveredFrames)
      requires Handed(from, handed, shown, Continue) && blocks == from + |handed|
      modifies this`blocks, this`deliveredFrames, d`ready, d`drained
      ensures DetectorValid(d)
      ensures 0 < count <= capacity && deliveredFrames == old(deliveredFrames) + count <= postMix.position
      ensures |shown'| == |shown| + count && shown' == Stream(start, deliveredFrames)
      ensures Handed(from, handed', shown', action) && blocks == from + |handed'|
    {
      hide Handed, Tracks, AcceptAll, FrameMachine.Valid, StreamOf, Timeline;
      AheadOfDelivery(d);
      count := Min(Min(|d.ready|, capacity), quantum);
      var block := d.Drain(count);
      TimelineJoins(machine.Stream(), postMix.mix, deliveredFrames, deliveredFrames + count,
                    deliveredFrames + |old(d.ready)|);
      TimelineJoins(machine.Stream(), postMix.mix, start, deliveredFrames, deliveredFrames + count);
      HandOut(from, handed, shown, block);
      shown', handed' := shown + block, handed + [block];
      deliveredFrames := deliveredFrames + count;
      action := callback(blocks, block);
      blocks := blocks + 1;
    }

    /** Releases the tail once the timeline has ended. */
    method FinishDetector(d: SilenceDetector<O>)
      requires DetectorValid(d) && postMix.Ended()
      modifies d
      ensures DetectorValid(d) && d.drained == old(d.drained) && (d.ready == [] ==> Exhausted(d))
      ensures d.View() == Finished(Look(d, postMix.position))
    {
      FinishTwice(Scan(Stream(base, postMix.position), d.quiet, d.requiredFrames));
      d.Finish();
    }

    /** Generates a quantum ahead of delivery and classifies it. */
    method PushMore(d: SilenceDetector<O>) returns (r: Result<(), PlayerError>)
      requires Valid() && detector == Some(d) && !postMix.Ended() && !d.ended && d.ready == []
      modifies machine, machine.machine, machine.machine.sampleClock, postMix, d
      ensures machine.Sound()
      ensures r.Ok? ==>
                Valid() && d.drained == old(d.drained)
                && postMix.position == old(postMix.position + Stride(postMix.position))
      ensures r.Ok? ==> d.ready != [] || d.ended || |d.candidate| > |old(d.candidate)|
      ensures r.Err? ==> !r.error.CallbackFailed?
      ensures Reachable(old(postMix.position), old(Stride(postMix.position))) ==> r.Ok?
    {
      hide FrameMachine.Valid, FrameMachine.Sound, FrameMachine.Reaches, StreamOf, AcceptAll;
      var at := postMix.position;
      var frames := postMix.AvailableFrames(quantum);
      var block := Generate(frames);
      if block.Err? {
        return Err(block.error);
      }
      TimelineJoins(machine.Stream(), postMix.mix, base, at, postMix.position);
      AcceptInParts(Scanned(false, false, [], []), Stream(base, at), block.value, d.quiet, d.requiredFrames);
      d.Push(block.value);
      return Ok(());
    }

    // ----- How far look-ahead goes

    /** The scan of the frames up to position `p`. */
    ghost function Look(d: SilenceDetector<O>, p: nat): Scanned<O>
      requires base <= p
      reads this`base
    {
      Scan(Stream(base, p), d.quiet, d.requiredFrames)
    }

    ghost predicate Over(p: nat) { postMix.EndFrame().Some? && p >= postMix.EndFrame().value }

    /** Frames generated in one go at position `p`. */
    ghost function Stride(p: nat): nat
      requires !Over(p)
    {
      if postMix.EndFrame().Some? then Min(quantum, postMix.EndFrame().value - p) else quantum
    }

    /** At position `p` enough is released to deliver `need` frames, or there is no more. */
    ghost predicate Enough(d: SilenceDetector<O>, p: nat, need: nat)
      requires base <= p
      reads this`base
    {
      |Look(d, p).ready| >= need || Look(d, p).ended || Over(p)
    }

    /** Where generation stands once `need` frames are delivered or there is no more, starting from position `p`. */
    ghost function Generated(d: SilenceDetector<O>, p: nat, need: nat): (to: nat)
      requires base <= p && quantum > 0 && d.requiredFrames > 0
      reads this`base
      ensures p <= to && Enough(d, to, need)
      ensures postMix.EndFrame().Some? && p <= postMix.EndFrame().value ==> to <= postMix.EndFrame().value
      decreases if Enough(d, p, need) then 0 else need - |Look(d, p).ready|,
                if Enough(d, p, need) then 0 else d.requiredFrames - |Look(d, p).candidate|
    {
      if Enough(d, p, need) then p
      else
        LookOn(d, p, p + Stride(p));
        Generated(d, p + Stride(p), need)
    }

    /** Generating on for a larger need is generating for it from the start. */
    lemma {:induction false} GeneratedOn(d: SilenceDetector<O>, p: nat, need: nat, more: nat)
      requires base <= p && quantum > 0 && d.requiredFrames > 0 && need <= more
      ensures Generated(d, Generated(d, p, need), more) == Generated(d, p, more)
      decreases if Enough(d, p, need) then 0 else need - |Look(d, p).ready|,
                if Enough(d, p, need) then 0 else d.requiredFrames - |Look(d, p).candidate|
    {
      hide Look, StreamOf;
      if !Enough(d, p, need) {
        LookOn(d, p, p + Stride(p));
        GeneratedOn(d, p + Stride(p), need, more);
      }
    }

    /** Where generation stands after a request for `total` more frames, from position `p` with delivery at `at`. */
    ghost function GoalFrom(p: nat, at: nat, total: nat): (to: nat)
      requires detector.Some? ==> base <= at && base <= p && quantum > 0 && detector.value.requiredFrames > 0
      reads this`base
      ensures p <= to
    {
      match detector
      case None => if postMix.EndFrame().Some? then Min(p + total, Max(p, postMix.EndFrame().value)) else p + total
      case Some(d) => Generated(d, p, at - base + total)
    }

    /** The same from where the player stands: all that a call needs of the machine. */
    ghost function Goal(total: nat): (to: nat)
      requires Positioned()
      reads this, postMix
    {
      GoalFrom(postMix.position, deliveredFrames, total)
    }

    ghost predicate Positioned()
      reads this, postMix
    {
      detector.Some? ==>
        base <= deliveredFrames && base <= postMix.position && quantum > 0 && detector.value.requiredFrames > 0
    }

    lemma ValidIsPositioned()
      requires Valid()
      ensures Positioned() && Reachable(0, postMix.position)
    {
      hide Tracks, FrameMachine.Valid, FrameMachine.Sound, FrameMachine.Reaches, StreamOf;
      machine.ValidIsSound();
    }

    /** Looking further releases more, withholds more, or ends detection. */
    lemma LookOn(d: SilenceDetector<O>, p: nat, q: nat)
      requires base <= p < q && d.requiredFrames > 0 && !Look(d, p).ended
      ensures |Look(d, p).candidate| < d.requiredFrames
      ensures |Look(d, q).ready| >= |Look(d, p).ready|
      ensures || Look(d, q).ended || |Look(d, q).ready| > |Look(d, p).ready|
              || (|Look(d, q).candidate| > |Look(d, p).candidate| && |Look(d, q).candidate| < d.requiredFrames)
    {
      hide AcceptAll, RunAt, NoRun;
      ScanCuts(Stream(base, p), d.quiet, d.requiredFrames);
      ScanCuts(Stream(base, q), d.quiet, d.requiredFrames);
      TimelineJoins(machine.Stream(), postMix.mix, base, p, q);
      AcceptInParts(Scanned(false, false, [], []), Stream(base, p), Stream(p, q), d.quiet, d.requiredFrames);
      AcceptReleases(Look(d, p), Stream(p, q), d.quiet, d.requiredFrames);
    }

    /** Where this player's detection ends, counted from its base. */
    ghost predicate AtLimit(d: SilenceDetector<O>, count: nat)
      reads this`base
    {
      IsLimit(machine.Stream(), postMix.mix, base, postMix.EndFrame(), d.quiet, d.requiredFrames, count)
    }

    lemma ExhaustedIsLimit(d: SilenceDetector<O>)
      requires DetectorValid(d) && Exhausted(d)
      requires postMix.EndFrame().Some? ==> postMix.position <= postMix.EndFrame().value
      ensures AtLimit(d, deliveredFrames - base)
    {
      hide RunAt;
      var count, required := |d.drained|, d.requiredFrames;
      var frames := Stream(base, postMix.position);
      ScanCuts(frames, d.quiet, required);
      assert d.drained + d.ready == d.drained;
      if d.ended {
        RunFits(frames, count, d.quiet, required);
        var cut := Stream(base, base + count + required);
        forall e | 0 <= e <= count
          ensures RunAt(cut, e, d.quiet, required) <==> RunAt(frames, e, d.quiet, required)
        {
          RunInLonger(machine.Stream(), postMix.mix, base, count + required, |frames|, e, d.quiet, required);
        }
        assert FirstRun(cut, count, d.quiet, required);
      } else {
        assert |frames| == count;
      }
    }

    lemma NotBeyondLimit(d: SilenceDetector<O>, count: nat)
      requires DetectorValid(d) && AtLimit(d, count)
      requires postMix.EndFrame().Some? ==> postMix.position <= postMix.EndFrame().value
      ensures deliveredFrames - base <= count
    {
      hide RunAt, AcceptAll;
      WithinLimit(machine.Stream(), postMix.mix, base, postMix.position - base, postMix.EndFrame(), d.quiet,
                  d.requiredFrames,
                  d.View(), postMix.Ended(), count);
    }

    /**
     * Nothing is left to deliver exactly if delivery stands at the limit and generation has seen what confirms it:
     * the whole run of quiet frames, or the end of the timeline.
     */
    lemma NothingLeft(d: SilenceDetector<O>)
      requires DetectorValid(d) && (postMix.EndFrame().Some? ==> postMix.position <= postMix.EndFrame().value)
      requires d.View() == if postMix.Ended() then Finished(Look(d, postMix.position)) else Look(d, postMix.position)
      ensures d.ready == [] && (d.ended || postMix.Ended()) <==>
              && deliveredFrames >= base && AtLimit(d, deliveredFrames - base)
              && (postMix.Ended() || postMix.position >= deliveredFrames + d.requiredFrames)
    {
      hide RunAt, AcceptAll, FrameMachine.Valid, StreamOf;
      var frames, required, count := Stream(base, postMix.position), d.requiredFrames, deliveredFrames - base;
      ScanCuts(frames, d.quiet, required);
      if d.ready == [] && (d.ended || postMix.Ended()) {
        ExhaustedIsLimit(d);
        assert d.drained + d.ready == d.drained;
        if d.ended {
          RunFits(frames, count, d.quiet, required);
        }
      }
      if AtLimit(d, count) && (postMix.Ended() || postMix.position >= deliveredFrames + required) {
        WithinLimit(machine.Stream(), postMix.mix, base, postMix.position - base, postMix.EndFrame(), d.quiet, required,
                    d.View(), postMix.Ended(), count);
        if base + count + required <= postMix.position
           && FirstRun(Stream(base, base + count + required), count, d.quiet, required)
        {
          RunInLonger(machine.Stream(), postMix.mix, base, count + required, |frames|, count, d.quiet, required);
        }
      }
    }

    /** Steps the loop can still take before it delivers. */
    ghost function Urgency(d: SilenceDetector<O>): int
      reads d
    {
      if d.ready != [] then 0 else if d.ended then 1 else 2 + d.requiredFrames - |d.candidate|
    }

    /**
     * Hands out released frames and looks further ahead while there are none, until all frames asked for are
     * delivered, nothing is left, or the consumer stops.
     */
    method Serve(maxFrames: u64, d: SilenceDetector<O>, ghost need: nat)
      returns (r: Result<bool, PlayerError>, delivered: u64, ghost shown: seq<O>, ghost handed: seq<seq<O>>)
      requires Valid() && detector == Some(d) && need == deliveredFrames - base + maxFrames
      modifies this`blocks, this`deliveredFrames, machine, machine.machine, machine.machine.sampleClock, postMix, d
      ensures machine.Sound() && |shown| == delivered
      ensures r.Ok? || r.error.CallbackFailed? ==>
                && Valid() && deliveredFrames == old(deliveredFrames) + delivered && delivered <= maxFrames
                && shown == Stream(old(deliveredFrames), deliveredFrames)
      ensures r == Ok(false) ==> delivered == maxFrames || NothingReady(d)
      ensures r == Ok(false) ==> Generated(d, postMix.position, need) == old(Generated(d, postMix.position, need))
      ensures r.Err? && !r.error.CallbackFailed? ==> !Reachable(0, old(Generated(d, postMix.position, need)))
      ensures r.Err? && r.error.CallbackFailed? ==> r.error.frames == delivered
      ensures Handed(old(blocks), handed, shown,
                     if r == Ok(true) then Stop else if r.Err? && r.error.CallbackFailed? then Error else Continue)
      ensures blocks == old(blocks) + |handed|
    {
      hide Tracks, IsLimit, AcceptAll, Handed, FrameMachine.Valid, FrameMachine.Sound, FrameMachine.Reaches, StreamOf,
           Generated;
      hide PostMixer.EndFrame, Timeline, Finished, SilenceDetector.View, Stride, Stream, Look;
      ghost var goal := Generated(d, postMix.position, need);
      delivered := 0;
      shown, handed := [], [];
      NothingHanded(blocks, deliveredFrames);
      machine.ValidIsSound();
      while delivered < maxFrames
        invariant Valid() && machine.Sound() && delivered <= maxFrames && |shown| == delivered
        invariant deliveredFrames == old(deliveredFrames) + delivered
        invariant shown == Stream(old(deliveredFrames), deliveredFrames)
        invariant Handed(old(blocks), handed, shown, Continue) && blocks == old(blocks) + |handed|
        invariant Generated(d, postMix.position, need) == goal
        decreases maxFrames - delivered, Urgency(d)
      {
        if postMix.Ended() {
          FinishDetector(d);
        }
        if |d.ready| != 0 {
          var action, count;
          action, count, shown, handed :=
            DeliverReady(d, maxFrames - delivered, old(deliveredFrames), old(blocks), shown, handed);
          delivered := delivered + count;
          match action {
            case Continue =>
            case Stop => return Ok(true), delivered, shown, handed;
            case Error => return Err(CallbackFailed(delivered)), delivered, shown, handed;
          }
          continue;
        }
        if d.ended || postMix.Ended() {
          return Ok(false), delivered, shown, handed;
        }
        Hungry(d, need);
        ghost var on := postMix.position + Stride(postMix.position);
        if machine.Reaches(goal) {
          machine.ReachesBefore(goal, on);
        }
        var pushed := PushMore(d);
        if pushed.Err? {
          return Err(pushed.error), delivered, shown, handed;
        }
      }
      return Ok(false), delivered, shown, handed;
    }

    /** Nothing is released, and the detector knows that nothing more will be. */
    ghost predicate NothingReady(d: SilenceDetector<O>)
      requires base <= postMix.position
      reads this, postMix, d
    {
      && d.ready == [] && (d.ended || postMix.Ended())
      && (postMix.Ended() ==> d.View() == Finished(Look(d, postMix.position)))
    }

    /** Renders ahead of delivery and withholds quiet frames that may turn out to be the trailing silence. */
    method RenderDetected(maxFrames: u64, d: SilenceDetector<O>)
      returns (r: Result<RenderOutcome, PlayerError>, ghost shown: seq<O>, ghost handed: seq<seq<O>>)
      requires Valid() && detector == Some(d)
      modifies this`blocks, this`deliveredFrames, machine, machine.machine, machine.machine.sampleClock, postMix, d
      ensures Recoverable()
      ensures r.Ok? || r.error.CallbackFailed? ==>
                && Valid() && old(deliveredFrames) <= deliveredFrames <= old(deliveredFrames) + maxFrames
                && shown == Stream(old(deliveredFrames), deliveredFrames)
      ensures r.Ok? ==> r.value.frames == |shown|
      ensures r.Ok? && r.value.Complete? ==> |shown| == maxFrames
      ensures r.Ok? && !r.value.Stopped? ==>
                postMix.position == old(Generated(d, postMix.position, deliveredFrames - base + maxFrames))
      ensures r.Ok? && !r.value.Stopped? ==>
                (r.value.End? <==> && AtLimit(d, deliveredFrames - base)
                                   && (postMix.Ended() || postMix.position >= deliveredFrames + d.requiredFrames))
      ensures AlwaysContinues() ==> (r.Ok? ==> !r.value.Stopped?) && (r.Err? ==> !r.error.CallbackFailed?)
      ensures AlwaysContinues() ==>
                (r.Ok? <==> Reachable(0, old(Generated(d, postMix.position, deliveredFrames - base + maxFrames))))
      ensures r.Err? && r.error.CallbackFailed? ==> r.error.frames == |shown|
      ensures Handed(old(blocks), handed, shown, LastAnswer(r)) && blocks == old(blocks) + |handed|
    {
      hide Tracks, IsLimit, AcceptAll, FrameMachine.Valid, FrameMachine.Sound, FrameMachine.Reaches, StreamOf,
           Generated;
      ghost var need := deliveredFrames - base + maxFrames;
      var served, delivered;
      served, delivered, shown, handed := Serve(maxFrames, d, need);
      if served.Err? {
        return Err(served.error), shown, handed;
      }
      if served.value {
        return Ok(Stopped(delivered)), shown, handed;
      }
      if postMix.Ended() {
        FinishDetector(d);
      }
      Settled(d);
      if delivered == maxFrames {
        Served(d, need);
      } else {
        Hungry(d, need);
      }
      NothingLeft(d);
      machine.ValidIsSound();
      return Ok(if |d.ready| == 0 && (d.ended || postMix.Ended()) then End(delivered)
                else Complete(delivered)), shown, handed;
    }

    /** The detector's state once it has been finished where the timeline is over. */
    lemma Settled(d: SilenceDetector<O>)
      requires DetectorValid(d) && (postMix.Ended() ==> d.View() == Finished(Look(d, postMix.position)))
      ensures d.View() == if postMix.Ended() then Finished(Look(d, postMix.position)) else Look(d, postMix.position)
    {
      hide AcceptAll;
    }

    /** With nothing released, generation goes on exactly if it may. */
    lemma Hungry(d: SilenceDetector<O>, need: nat)
      requires DetectorValid(d) && d.ready == [] && quantum > 0 && deliveredFrames - base < need
      requires postMix.Ended() ==> d.View() == Finished(Look(d, postMix.position))
      ensures d.ended || postMix.Ended() ==> Generated(d, postMix.position, need) == postMix.position
      ensures !d.ended && !postMix.Ended() ==>
                && !Over(postMix.position)
                && Generated(d, postMix.position, need)
                     == Generated(d, postMix.position + Stride(postMix.position), need)
                && postMix.position + Stride(postMix.position) <= Generated(d, postMix.position, need)
    {
      hide AcceptAll, StreamOf;
      assert d.drained + d.ready == d.drained;
    }

    /** Once all is delivered, generation has gone where it was to go. */
    lemma Served(d: SilenceDetector<O>, need: nat)
      requires DetectorValid(d) && quantum > 0 && need <= deliveredFrames - base
      requires d.View() == if postMix.Ended() then Finished(Look(d, postMix.position)) else Look(d, postMix.position)
      ensures Generated(d, postMix.position, need) == postMix.position
    {
      hide AcceptAll, StreamOf;
    }

    /** Delivery has reached the declared end, or the detected one. */
    ghost predicate AtEnd()
      reads this, postMix
    {
      match detector
      case None => postMix.Ended()
      case Some(d) => deliveredFrames >= base && AtLimit(d, deliveredFrames - base)
    }

    /** A player that has delivered less than it was asked for is not going to generate more. */
    lemma Stuck(d: SilenceDetector<O>, need: nat)
      requires DetectorValid(d) && quantum > 0
               && (postMix.EndFrame().Some? ==> postMix.position <= postMix.EndFrame().value)
      requires deliveredFrames - base < need && AtLimit(d, deliveredFrames - base) && Enough(d, postMix.position, need)
      ensures forall n: nat :: Generated(d, postMix.position, n) == postMix.position
    {
      hide RunAt, AcceptAll, IsLimit, StreamOf, FrameMachine.Valid;
      LookTracks(d, postMix.position);
      WithinLimit(machine.Stream(), postMix.mix, base, postMix.position - base, postMix.EndFrame(), d.quiet,
                  d.requiredFrames,
                  Look(d, postMix.position), false, deliveredFrames - base);
      assert forall n: nat :: Enough(d, postMix.position, n);
    }

    lemma LookTracks(d: SilenceDetector<O>, p: nat)
      requires base <= p
      ensures Tracks(Look(d, p), Timeline(machine.Stream(), postMix.mix, base, base + (p - base)), d.quiet,
                     d.requiredFrames, false)
    {
      hide AcceptAll, StreamOf, Timeline;
    }

    /** Asking for more from where a request has led is asking for it all at once. */
    lemma GoalOn(p: nat, at: nat, total: nat, more: nat)
      requires Valid() && (detector.Some? ==> base <= at && base <= p)
      requires Positioned() && postMix.position == GoalFrom(p, at, total)
      requires deliveredFrames == at + total || (deliveredFrames < at + total && AtEnd())
      ensures Goal(more) == GoalFrom(p, at, total + more)
    {
      hide Tracks, IsLimit, FrameMachine.Valid, StreamOf, Generated, Look;
      if detector.Some? {
        var d := detector.value;
        GeneratedOn(d, p, at - base + total, at - base + total + more);
        if deliveredFrames < at + total {
          Stuck(d, at - base + total);
        }
      }
    }

    /** A larger request leads further. */
    lemma GoalGrows(p: nat, at: nat, total: nat, more: nat)
      requires detector.Some? ==> base <= at && base <= p && quantum > 0 && detector.value.requiredFrames > 0
      requires Reachable(0, GoalFrom(p, at, total + more))
      ensures Reachable(0, GoalFrom(p, at, total))
    {
      hide FrameMachine.Reaches, StreamOf, Generated;
      if detector.Some? {
        GeneratedOn(detector.value, p, at - base + total, at - base + total + more);
      }
      machine.ReachesBefore(GoalFrom(p, at, total + more), GoalFrom(p, at, total));
    }

    /** Delivers at most `maxFrames` frames, continuing where delivery stopped. */
    method Render(maxFrames: u64)
      returns (r: Result<RenderOutcome, PlayerError>, ghost shown: seq<O>, ghost handed: seq<seq<O>>)
      requires Valid()
      modifies Repr()
      ensures Recoverable()
      ensures base == old(base)
      ensures r.Ok? || r.error.CallbackFailed? ==>
                && Valid() && old(deliveredFrames) <= deliveredFrames <= old(deliveredFrames) + maxFrames
                && shown == Stream(old(deliveredFrames), deliveredFrames)
      ensures r.Ok? ==> r.value.frames == |shown|
      ensures r.Ok? && r.value.Complete? ==> |shown| == maxFrames
      ensures r.Ok? && r.value.End? ==> AtEnd()
      ensures AlwaysContinues() ==> (r.Ok? ==> !r.value.Stopped?) && (r.Err? ==> !r.error.CallbackFailed?)
      ensures r.Err? && r.error.CallbackFailed? ==> r.error.frames == |shown|
      ensures Handed(old(blocks), handed, shown, LastAnswer(r)) && blocks == old(blocks) + |handed|
      ensures old(Positioned())
      ensures AlwaysContinues() ==> (r.Ok? <==> Reachable(0, old(Goal(maxFrames))))
      ensures AlwaysContinues() && r.Ok? ==> postMix.position == old(Goal(maxFrames))
    {
      hide Tracks, IsLimit, Handed, FrameMachine.Valid, FrameMachine.Sound, FrameMachine.Reaches, StreamOf, Generated;
      hide Timeline;
      ValidIsPositioned();
      if detector.Some? {
        r, shown, handed := RenderDetected(maxFrames, detector.value);
      } else {
        r, shown, handed := RenderDirect(maxFrames);
      }
    }

    /** A machine that gets to the end of a bounded timeline gets to where any request leads. */
    lemma WillReach(total: nat)
      requires Valid() && NeverFails()
      ensures Positioned() && Reachable(0, Goal(total))
    {
      hide Tracks, FrameMachine.Valid, FrameMachine.Sound, FrameMachine.Reaches, StreamOf, Generated;
      ValidIsPositioned();
      machine.ReachesBefore(postMix.EndFrame().value, Goal(total));
    }

    /** Advances without converting or delivering; detection starts over at the new position. */
    method Advance(maxFrames: u64) returns (r: Result<RenderOutcome, PlayerError>)
      requires Valid()
      modifies Repr()
      ensures Recoverable()
      ensures r.Ok? ==> Valid() && base == postMix.position == deliveredFrames
      ensures r.Ok? ==> postMix.position == old(postMix.position) + r.value.frames
      ensures r.Ok? ==> r.value == if postMix.Ended() then End(old(postMix.AvailableFrames(maxFrames)))
                                   else Complete(old(postMix.AvailableFrames(maxFrames)))
      ensures r.Ok? <==> Reachable(old(postMix.position), old(postMix.AvailableFrames(maxFrames)))
                         || old(postMix.AvailableFrames(maxFrames)) == 0
    {
      hide FrameMachine.Valid, FrameMachine.Sound, FrameMachine.Reaches, StreamOf;
      if detector.Some? {
        detector.value.Reset();
      }
      var frames := postMix.AvailableFrames(maxFrames);
      if frames != 0 {
        var moved := machine.Advance(frames);
        if moved.Err? {
          return Err(MachineFailure);
        }
      }
      var advanced := postMix.Advance(frames);
      if advanced.Err? {
        return Err(PostMix(advanced.error));
      }
      machine.ValidIsSound();
      deliveredFrames, base := postMix.position, postMix.position;
      return Ok(if postMix.Ended() then End(frames) else Complete(frames));
    }

    /** From wherever a failure left the player, it stands at the first frame of the same stream. */
    method Reset()
      requires Recoverable()
      modifies Repr()
      ensures Valid() && deliveredFrames == 0 && base == 0 && postMix.position == 0
    {
      machine.Reset();
      postMix.Reset();
      if detector.Some? {
        detector.value.Reset();
      }
      deliveredFrames, base := 0, 0;
    }

    lemma GoalOfNothing()
      requires Valid()
      ensures Stands(postMix.position, deliveredFrames, 0) && Reachable(0, postMix.position)
    {
      hide AcceptAll, RunAt, FrameMachine.Valid, StreamOf;
      ValidIsPositioned();
    }

    /** Since delivery stood at `at` and generation at `p`, `total` frames were asked for. */
    ghost predicate Stands(p: nat, at: nat, total: nat)
      reads this, postMix
    {
      && Positioned() && (detector.Some? ==> base <= at && base <= p)
      && at <= deliveredFrames <= at + total && (deliveredFrames == at + total || AtEnd())
      && postMix.position == GoalFrom(p, at, total)
    }

    lemma StandsThere(p: nat, at: nat, total: nat)
      requires Stands(p, at, total)
      ensures Positioned() && (detector.Some? ==> base <= at && base <= p) && postMix.position == GoalFrom(p, at, total)
      ensures at <= deliveredFrames <= at + total && (deliveredFrames == at + total || AtEnd())
    {
    }

    /** One more call of a sequence. */
    method RenderMore(request: u64, ghost p: nat, ghost at: nat, ghost total: nat)
      returns (r: Result<RenderOutcome, PlayerError>, ghost shown: seq<O>)
      requires Valid() && AlwaysContinues() && Stands(p, at, total)
      modifies Repr()
      ensures base == old(base) && old(Positioned())
      ensures r.Ok? ==> Valid() && Stands(p, at, total + request) && Reachable(0, postMix.position)
      ensures r.Ok? ==>
                old(deliveredFrames) <= deliveredFrames && shown == Stream(old(deliveredFrames), deliveredFrames)
      ensures r.Ok? <==> Reachable(0, GoalFrom(p, at, total + request))
    {
      hide Tracks, IsLimit, Handed, FrameMachine.Valid, FrameMachine.Sound, FrameMachine.Reaches, StreamOf, GoalFrom,
           Reachable;
      GoalOn(p, at, total, request);
      ghost var from, ended := deliveredFrames, AtEnd();
      ghost var handed;
      r, shown, handed := Render(request);
      if r.Ok? {
        if ended && detector.Some? {
          NotBeyondLimit(detector.value, from - base);
        }
        ValidIsPositioned();
      }
    }

    /** Any sequence of calls delivers one stretch of the stream, up to what was asked for or to the end. */
    method RenderAll(requests: seq<u64>) returns (r: Result<(), PlayerError>, ghost shown: seq<O>)
      requires Valid() && AlwaysContinues()
      modifies Repr()
      ensures r.Ok? ==> Valid() && base == old(base)
      ensures r.Ok? ==>
                old(deliveredFrames) <= deliveredFrames && shown == Stream(old(deliveredFrames), deliveredFrames)
      ensures r.Ok? ==> |shown| <= Requested(requests) && (|shown| == Requested(requests) || AtEnd())
      ensures old(Positioned())
      ensures r.Ok? <==> Reachable(0, old(Goal(Requested(requests))))
      ensures r.Ok? ==> postMix.position == old(Goal(Requested(requests)))
    {
      hide AtEnd, FrameMachine.Valid, FrameMachine.Sound, FrameMachine.Reaches, StreamOf, GoalFrom, Reachable,
           DetectorValid;
      hide Timeline, Stands, Requested, PostMixer.EndFrame;
      shown := [];
      ghost var p, at: nat := postMix.position, deliveredFrames;
      GoalOfNothing();
      RequestedNothing(requests);
      StandsThere(p, at, 0);
      for k := 0 to |requests|
        invariant Valid() && base == old(base) && Stands(p, at, Requested(requests[..k]))
                  && Reachable(0, postMix.position)
        invariant at <= deliveredFrames && shown == Stream(at, deliveredFrames)
      {
        ghost var from := deliveredFrames;
        var outcome, block := RenderMore(requests[k], p, at, Requested(requests[..k]));
        RequestedOne(requests, k);
        if outcome.Err? {
          RequestedGrows(requests, k + 1);
          if Reachable(0, GoalFrom(p, at, Requested(requests))) {
            GoalGrows(p, at, Requested(requests[..k + 1]), Requested(requests) - Requested(requests[..k + 1]));
          }
          return Err(outcome.error), shown;
        }
        TimelineJoins(machine.Stream(), postMix.mix, at, from, deliveredFrames);
        shown := shown + block;
      }
      assert requests[..|requests|] == requests;
      StandsThere(p, at, Requested(requests));
      return Ok(()), shown;
    }
  }

  function Flat<O>(blocks: seq<seq<O>>): seq<O>
  {
    if blocks == [] then [] else Flat(blocks[..|blocks| - 1]) + blocks[|blocks| - 1]
  }

  /** What the consumer must have answered last for a call to come out this way. */
  function LastAnswer(r: Result<RenderOutcome, PlayerError>): AudioAction
  {
    match r
    case Ok(Stopped(_)) => Stop
    case Err(CallbackFailed(_)) => Error
    case _ => Continue
  }

  function Requested(requests: seq<u64>): nat
  {
    if requests == [] then 0 else Requested(requests[..|requests| - 1]) + requests[|requests| - 1]
  }

  lemma RequestedNothing(requests: seq<u64>)
    ensures Requested(requests[..0]) == 0
  {
  }

  lemma RequestedOne(requests: seq<u64>, k: nat)
    requires k < |requests|
    ensures Requested(requests[..k + 1]) == Requested(requests[..k]) + requests[k]
  {
    assert requests[..k + 1][..k] == requests[..k];
  }

  lemma {:induction false} RequestedGrows(requests: seq<u64>, k: nat)
    requires k <= |requests|
    ensures Requested(requests[..k]) <= Requested(requests)
  {
    if k < |requests| {
      var init := requests[..|requests| - 1];
      assert init[..k] == requests[..k];
      RequestedGrows(init, k);
    } else {
      assert requests[..k] == requests;
    }
  }

  lemma FinishTwice<O>(s: Scanned<O>)
    ensures Finished(Finished(s)) == Finished(s)
  {
  }

  /** A tracking detector has released a prefix of what it was given. */
  lemma TrackedPrefix<O>(s: Scanned<O>, frames: seq<O>, quiet: O -> bool, required: nat, over: bool)
    requires required > 0 && Tracks(s, frames, quiet, required, over)
    ensures |s.ready| <= |frames| && s.ready == frames[..|s.ready|]
  {
    hide RunAt, AcceptAll, NoRun;
    ScanCuts(frames, quiet, required);
  }

  // ----- Main results

  /** Same stream, same timeline, same detection; quantum and consumer may differ. */
  ghost predicate SamePolicy<W(!new), O(!new)>(a: Player<W, O>, b: Player<W, O>)
  {
    && a.machine.machine.devices == b.machine.machine.devices && a.machine.world == b.machine.world
    && a.postMix.mix == b.postMix.mix
    && a.postMix.EndFrame() == b.postMix.EndFrame()
    && (a.detector.Some? <==> b.detector.Some?)
    && (a.detector.Some? ==>
          && a.detector.value.quiet == b.detector.value.quiet
          && a.detector.value.requiredFrames == b.detector.value.requiredFrames)
  }

  /** How far two players with the same policy get on the same request does not depend on how they got there. */
  lemma SameDelivery<W(!new), O(!new)>(a: Player<W, O>, b: Player<W, O>, total: nat)
    requires a.Valid() && b.Valid() && SamePolicy(a, b) && a.base == b.base == 0
    requires a.deliveredFrames <= total && (a.deliveredFrames == total || a.AtEnd())
    requires b.deliveredFrames <= total && (b.deliveredFrames == total || b.AtEnd())
    ensures a.deliveredFrames == b.deliveredFrames
  {
    hide Tracks, IsLimit;
    if a.detector.Some? {
      var d, e := a.detector.value, b.detector.value;
      if a.AtEnd() {
        a.NotBeyondLimit(d, a.deliveredFrames);
        b.NotBeyondLimit(e, a.deliveredFrames);
      }
      if b.AtEnd() {
        a.NotBeyondLimit(d, b.deliveredFrames);
        b.NotBeyondLimit(e, b.deliveredFrames);
      }
    }
  }

  /**
   * The delivered stream does not depend on how it is asked for: equal totals of requests, whatever
   * the partition and the quantum, deliver the same frames.
   */
  method PartitionIndependent<W(!new), O(!new)>(a: Player<W, O>, b: Player<W, O>, first: seq<u64>, second: seq<u64>)
    returns (ra: Result<(), PlayerError>, rb: Result<(), PlayerError>, ghost shownA: seq<O>, ghost shownB: seq<O>)
    requires a.Valid() && b.Valid() && a.Repr() !! b.Repr() && SamePolicy(a, b)
    requires a.deliveredFrames == a.base == 0 && b.deliveredFrames == b.base == 0
    requires a.AlwaysContinues() && b.AlwaysContinues() && Requested(first) == Requested(second)
    modifies a.Repr(), b.Repr()
    ensures ra.Ok? && rb.Ok? ==> shownA == shownB
    ensures old(a.Positioned() && b.Positioned())
    ensures ra.Ok? <==> a.Reachable(0, old(a.Goal(Requested(first))))
    ensures rb.Ok? <==> b.Reachable(0, old(b.Goal(Requested(second))))
    ensures a.detector.None? ==> (ra.Ok? <==> rb.Ok?)
    ensures a.NeverFails() && b.NeverFails() ==> ra.Ok? && rb.Ok?
  {
    hide Tracks, IsLimit, Requested, FrameMachine.Valid, FrameMachine.Sound, StreamOf, Runs;
    hide Player.Generated, Player.Look;
    if a.NeverFails() && b.NeverFails() {
      a.WillReach(Requested(first));
      b.WillReach(Requested(second));
    }
    ra, shownA := a.RenderAll(first);
    rb, shownB := b.RenderAll(second);
    if ra.Ok? && rb.Ok? {
      SameDelivery(a, b, Requested(first));
    }
  }

  /** Without detection, advancing leaves the player exactly where rendering the same frames leaves it. */
  method AdvanceIsRender<W(!new), O(!new)>(a: Player<W, O>, b: Player<W, O>, frames: u64)
    returns (advanced: Result<RenderOutcome, PlayerError>, rendered: Result<RenderOutcome, PlayerError>,
             ghost shown: seq<O>)
    requires a.Valid() && b.Valid() && a.Repr() !! b.Repr() && SamePolicy(a, b) && a.detector.None?
             && b.AlwaysContinues()
    requires a.postMix.position == b.postMix.position
    modifies a.Repr(), b.Repr()
    ensures advanced.Ok? <==> rendered.Ok?
    ensures advanced.Ok? ==>
              && advanced == rendered
              && a.machine.position == b.machine.position && a.postMix.position == b.postMix.position
              && a.machine.machine.View() == b.machine.machine.View()
              && a.machine.machine.pending == b.machine.machine.pending
              && a.deliveredFrames == b.deliveredFrames
  {
    hide FrameMachine.Valid, FrameMachine.Sound, Timeline, Player.Handed, StreamOf;
    advanced := a.Advance(frames);
    ghost var handed;
    rendered, shown, handed := b.RenderDirect(frames);
    if advanced.Ok? && rendered.Ok? {
      SamePlace(a.machine, b.machine);
    }
  }
}
