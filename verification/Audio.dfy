/** The post-mix timeline and the trailing-silence detector, on whole frames. */
module Audio {
  import opened Machine
  import opened Wrappers

  datatype PostMixError = CrossesEnd | PositionOverflow

  /** Gain and fade fix each output frame by its input frame and its absolute position alone. */
  class PostMixer<I, O> {
    const mix: (I, nat) -> O
    const lengthFrames: Option<u64>
    const fadeFrames: u64
    var position: u64

    constructor (mix: (I, nat) -> O, lengthFrames: Option<u64>, fadeFrames: u64)
      ensures this.mix == mix && this.lengthFrames == lengthFrames && this.fadeFrames == fadeFrames && position == 0
    {
      this.mix, this.lengthFrames, this.fadeFrames, position := mix, lengthFrames, fadeFrames, 0;
    }

    /** The exclusive end frame, saturating at the largest position, or no automatic ending. */
    function EndFrame(): (end: Option<u64>)
      ensures end.Some? <==> lengthFrames.Some?
      ensures end.Some? ==> lengthFrames.value <= end.value <= lengthFrames.value + fadeFrames
      ensures end.Some? ==> end.value == lengthFrames.value + fadeFrames || end.value + 1 == U64_LIMIT
    {
      if lengthFrames.None? then None else Some(Min(lengthFrames.value + fadeFrames, U64_LIMIT - 1))
    }

    predicate Ended()
      reads this
    {
      EndFrame().Some? && position >= EndFrame().value
    }

    /** A block limited to the declared timeline. */
    function AvailableFrames(requested: u64): (frames: u64)
      reads this
      ensures frames <= requested
      ensures requested > 0 ==> (frames == 0 <==> Ended())
      ensures EndFrame().Some? && frames > 0 ==> position + frames <= EndFrame().value
    {
      if EndFrame().Some? then Min(requested, Max(EndFrame().value - position, 0)) else requested
    }

    method Reset()
      modifies this
      ensures position == 0
    {
      position := 0;
    }

    /** Moves along the timeline without converting. */
    method Advance(requested: u64) returns (r: Result<u64, PostMixError>)
      modifies this
      ensures r == if old(position) + old(AvailableFrames(requested)) < U64_LIMIT then
                Ok(old(AvailableFrames(requested)))
                   else Err(PositionOverflow)
      ensures position == old(position) + if r.Ok? then r.value else 0
    {
      var frames := AvailableFrames(requested);
      if position + frames >= U64_LIMIT {
        return Err(PositionOverflow);
      }
      position := position + frames;
      return Ok(frames);
    }

    /** Converts a block frame by frame; the block must end within the timeline. */
    method Process(input: seq<I>) returns (r: Result<seq<O>, PostMixError>)
      modifies this
      ensures r.Ok? ==> r.value == Mixed(mix, input, old(position)) && position == old(position) + |input|
      ensures r.Err? ==> position == old(position)
      ensures r.Ok? <==> old(position) + |input| < U64_LIMIT && |input| < U64_LIMIT
                         && (EndFrame().Some? && |input| > 0 ==> old(position) + |input| <= EndFrame().value)
    {
      if |input| >= U64_LIMIT {
        return Err(PositionOverflow);
      }
      if AvailableFrames(|input|) != |input| {
        return Err(CrossesEnd);
      }
      var output: seq<O> := [];
      for index := 0 to |input|
        invariant position == old(position) && (index > 0 ==> position + index <= U64_LIMIT)
        invariant output == Mixed(mix, input[..index], position)
      {
        if position + index >= U64_LIMIT {
          return Err(PositionOverflow);
        }
        output := output + [mix(input[index], position + index)];
      }
      if position + |input| >= U64_LIMIT {
        return Err(PositionOverflow);
      }
      assert input[..|input|] == input;
      position := position + |input|;
      return Ok(output);
    }
  }

  function Mixed<I, O>(mix: (I, nat) -> O, input: seq<I>, position: nat): (r: seq<O>)
    ensures |r| == |input|
    ensures forall k :: 0 <= k < |r| ==> r[k] == mix(input[k], position + k)
  {
    seq(|input|, k requires 0 <= k < |input| => mix(input[k], position + k))
  }

  // ----- Silence detection

  /** What a detector has made of the frames it was given: everything released, and what it still withholds. */
  datatype Scanned<O> = Scanned(heard: bool, ended: bool, ready: seq<O>, candidate: seq<O>)

  function Accept<O>(s: Scanned<O>, frame: O, quiet: O -> bool, required: nat): Scanned<O>
  {
    if s.ended then s
    else if !s.heard then s.(ready := s.ready + [frame], heard := !quiet(frame))
    else if !quiet(frame) then s.(ready := s.ready + s.candidate + [frame], candidate := [])
    else if |s.candidate| + 1 >= required then s.(candidate := [], ended := true)
    else s.(candidate := s.candidate + [frame])
  }

  function AcceptAll<O>(s: Scanned<O>, frames: seq<O>, quiet: O -> bool, required: nat): Scanned<O>
  {
    if frames == [] then s
    else Accept(AcceptAll(s, frames[..|frames| - 1], quiet, required), frames[|frames| - 1], quiet, required)
  }

  function Finished<O>(s: Scanned<O>): Scanned<O>
  {
    if s.ended then s else s.(ready := s.ready + s.candidate, candidate := [])
  }

  function Scan<O>(frames: seq<O>, quiet: O -> bool, required: nat): Scanned<O>
  {
    AcceptAll(Scanned(false, false, [], []), frames, quiet, required)
  }

  lemma {:induction false} AcceptInParts<O>(s: Scanned<O>, a: seq<O>, b: seq<O>, quiet: O -> bool, required: nat)
    ensures AcceptAll(s, a + b, quiet, required) == AcceptAll(AcceptAll(s, a, quiet, required), b, quiet, required)
  {
    if b == [] {
      assert a + b == a;
    } else {
      AcceptInParts(s, a, b[..|b| - 1], quiet, required);
      assert (a + b)[..|a + b| - 1] == a + b[..|b| - 1];
    }
  }

  class SilenceDetector<O> {
    const quiet: O -> bool
    const requiredFrames: u64
    var heardAudio: bool
    var ended: bool
    var candidate: seq<O>
    var ready: seq<O>
    /** Frames delivered since construction or reset. */
    ghost var drained: seq<O>

    ghost predicate Valid()
      reads this
    {
      |candidate| < requiredFrames && (candidate != [] ==> heardAudio && !ended)
    }

    ghost function View(): Scanned<O>
      reads this
    {
      Scanned(heardAudio, ended, drained + ready, candidate)
    }

    constructor (quiet: O -> bool, requiredFrames: u64)
      requires requiredFrames > 0
      ensures Valid() && View() == Scanned(false, false, [], []) && drained == []
      ensures this.quiet == quiet && this.requiredFrames == requiredFrames
    {
      this.quiet, this.requiredFrames := quiet, requiredFrames;
      heardAudio, ended, candidate, ready, drained := false, false, [], [], [];
    }

    /** Classifies frames; those after a confirmed ending are ignored. */
    method Push(frames: seq<O>)
      requires Valid()
      modifies this
      ensures Valid() && drained == old(drained)
      ensures View() == AcceptAll(old(View()), frames, quiet, requiredFrames)
      ensures frames != [] && !old(ended) ==> ready != [] || ended || (|candidate| > |old(candidate)| && heardAudio)
    {
      hide Accept;
      ghost var start := View();
      if ended || frames == [] {
        EndedIgnores(start, frames, quiet, requiredFrames);
        return;
      }
      for k := 0 to |frames|
        invariant Valid() && drained == old(drained) && !ended
        invariant View() == AcceptAll(start, frames[..k], quiet, requiredFrames)
        invariant k > 0 ==> ready != [] || (|candidate| > |old(candidate)| && heardAudio)
        invariant k == 0 ==> candidate == old(candidate)
      {
        assert frames[..k + 1][..k] == frames[..k];
        Classify(frames[k]);
        if ended {
          AcceptInParts(start, frames[..k + 1], frames[k + 1..], quiet, requiredFrames);
          assert frames[..k + 1] + frames[k + 1..] == frames;
          EndedIgnores(View(), frames[k + 1..], quiet, requiredFrames);
          return;
        }
      }
      assert frames[..|frames|] == frames;
    }

    /** Takes one frame: leading and audible frames are released, quiet ones withheld. */
    method Classify(frame: O)
      requires Valid() && !ended
      modifies this
      ensures Valid() && drained == old(drained) && View() == Accept(old(View()), frame, quiet, requiredFrames)
      ensures |ready| >= |old(ready)|
      ensures ended || ready != [] || (|candidate| == |old(candidate)| + 1 && heardAudio)
    {
      if !heardAudio {
        ready := ready + [frame];
        heardAudio := !quiet(frame);
        assert drained + ready == old(drained + ready) + [frame];
      } else if quiet(frame) {
        candidate := candidate + [frame];
        if |candidate| >= requiredFrames {
          candidate, ended := [], true;
        }
      } else {
        CommitCandidate();
        ready := ready + [frame];
        assert drained + ready == old(drained + ready) + old(candidate) + [frame];
      }
    }

    /** Releases an unconfirmed quiet tail when the timeline itself has ended. */
    method Finish()
      requires Valid()
      modifies this
      ensures Valid() && drained == old(drained) && View() == Finished(old(View()))
      ensures ended == old(ended)
    {
      if !ended {
        CommitCandidate();
      }
    }

    method CommitCandidate()
      requires Valid()
      modifies this`ready, this`candidate
      ensures Valid() && candidate == [] && ready == old(ready) + old(candidate)
      ensures drained + ready == old(drained + ready) + old(candidate)
    {
      ready := ready + candidate;
      candidate := [];
    }

    /** Hands out at most `capacity` frames in order. */
    method Drain(capacity: nat) returns (frames: seq<O>)
      requires Valid()
      modifies this`ready, this`drained
      ensures Valid() && View() == old(View())
      ensures frames == old(ready)[..Min(capacity, |old(ready)|)] && ready == old(ready)[|frames|..]
      ensures drained == old(drained) + frames
    {
      var count := Min(capacity, |ready|);
      frames := ready[..count];
      drained := drained + frames;
      ready := ready[count..];
      assert drained + ready == old(drained + ready);
    }

    method Reset()
      modifies this
      ensures View() == Scanned(false, false, [], []) && drained == [] && (requiredFrames > 0 ==> Valid())
    {
      heardAudio, ended, candidate, ready, drained := false, false, [], [], [];
    }
  }

  lemma {:induction false} EndedIgnores<O>(s: Scanned<O>, frames: seq<O>, quiet: O -> bool, required: nat)
    requires s.ended || frames == []
    ensures AcceptAll(s, frames, quiet, required) == s
  {
    if frames != [] {
      EndedIgnores(s, frames[..|frames| - 1], quiet, required);
    }
  }

  /** Frames once released stay released. */
  lemma {:induction false} AcceptReleases<O>(s: Scanned<O>, frames: seq<O>, quiet: O -> bool, required: nat)
    ensures s.ready <= AcceptAll(s, frames, quiet, required).ready
  {
    if frames != [] {
      AcceptReleases(s, frames[..|frames| - 1], quiet, required);
    }
  }

  // ----- Where the detector cuts

  /** `required` quiet frames from `c` on, after some audible frame. */
  ghost predicate RunAt<O>(frames: seq<O>, c: nat, quiet: O -> bool, required: nat)
  {
    && c + required <= |frames|
    && (exists a :: 0 <= a < c && !quiet(frames[a]))
    && (forall j :: c <= j < c + required ==> quiet(frames[j]))
  }

  ghost predicate FirstRun<O>(frames: seq<O>, c: nat, quiet: O -> bool, required: nat)
  {
    RunAt(frames, c, quiet, required) && forall e :: 0 <= e < c ==> !RunAt(frames, e, quiet, required)
  }

  ghost predicate NoRun<O>(frames: seq<O>, quiet: O -> bool, required: nat)
  {
    forall e :: 0 <= e <= |frames| ==> !RunAt(frames, e, quiet, required)
  }

  /** A running detector has released everything up to and including the last audible frame. */
  ghost predicate Running<O>(s: Scanned<O>, frames: seq<O>, quiet: O -> bool, required: nat)
  {
    && !s.ended && s.ready + s.candidate == frames && |s.candidate| < required
    && (forall k :: 0 <= k < |s.candidate| ==> quiet(s.candidate[k]))
    && (s.heard ==> s.ready != [] && !quiet(s.ready[|s.ready| - 1]))
    && (!s.heard ==> s.candidate == [] && forall k :: 0 <= k < |frames| ==> quiet(frames[k]))
    && NoRun(frames, quiet, required)
  }

  ghost predicate CutShort<O>(s: Scanned<O>, frames: seq<O>, quiet: O -> bool, required: nat)
  {
    && s.ended && s.candidate == [] && |s.ready| <= |frames|
    && s.ready == frames[..|s.ready|] && FirstRun(frames, |s.ready|, quiet, required)
  }

  /**
   * The detector releases a prefix: all frames but a short quiet tail while it runs, and exactly the
   * frames before the first confirmed run once it has ended.
   */
  lemma {:induction false} ScanCuts<O>(frames: seq<O>, quiet: O -> bool, required: nat)
    requires required > 0
    ensures var s := Scan(frames, quiet, required);
            if s.ended then CutShort(s, frames, quiet, required) else Running(s, frames, quiet, required)
  {
    if frames != [] {
      var init, last := frames[..|frames| - 1], frames[|frames| - 1];
      ScanCuts(init, quiet, required);
      ScanStep(Scan(init, quiet, required), init, last, quiet, required);
      assert init + [last] == frames;
    }
  }

  lemma ScanStep<O>(s: Scanned<O>, init: seq<O>, last: O, quiet: O -> bool, required: nat)
    requires required > 0
    requires if s.ended then CutShort(s, init, quiet, required) else Running(s, init, quiet, required)
    ensures var t := Accept(s, last, quiet, required);
            if t.ended then CutShort(t, init + [last], quiet, required) else Running(t, init + [last], quiet, required)
  {
    if s.ended {
      CutStays(s, init, last, quiet, required);
    } else if s.heard && quiet(last) && |s.candidate| + 1 >= required {
      CutFound(s, init, last, quiet, required);
    } else {
      StillRunning(s, init, last, quiet, required);
    }
  }

  lemma RunExtends<O>(init: seq<O>, last: O, c: nat, quiet: O -> bool, required: nat)
    requires c + required <= |init|
    ensures RunAt(init + [last], c, quiet, required) <==> RunAt(init, c, quiet, required)
  {
    assert forall k :: 0 <= k < |init| ==> (init + [last])[k] == init[k];
  }

  lemma CutStays<O>(s: Scanned<O>, init: seq<O>, last: O, quiet: O -> bool, required: nat)
    requires CutShort(s, init, quiet, required)
    ensures CutShort(s, init + [last], quiet, required)
  {
    RunExtends(init, last, |s.ready|, quiet, required);
    forall e | 0 <= e < |s.ready|
      ensures !RunAt(init + [last], e, quiet, required)
    {
      RunExtends(init, last, e, quiet, required);
    }
    hide RunAt;
  }

  /** A run that was not there before must end in the new frame. */
  lemma NewRun<O>(init: seq<O>, last: O, e: nat, quiet: O -> bool, required: nat)
    requires required > 0 && NoRun(init, quiet, required) && RunAt(init + [last], e, quiet, required)
    ensures e + required == |init| + 1 && quiet(last)
    ensures forall j :: e <= j < |init| ==> quiet(init[j])
  {
    if e + required <= |init| {
      RunExtends(init, last, e, quiet, required);
    }
    var frames := init + [last];
    forall j | e <= j < |init|
      ensures quiet(init[j])
    {
      assert frames[j] == init[j];
    }
    assert frames[|init|] == last;
  }

  lemma CutFound<O>(s: Scanned<O>, init: seq<O>, last: O, quiet: O -> bool, required: nat)
    requires required > 0 && Running(s, init, quiet, required) && s.heard && quiet(last)
             && |s.candidate| + 1 >= required
    ensures CutShort(s.(candidate := [], ended := true), init + [last], quiet, required)
  {
    var frames, c := init + [last], |s.ready|;
    forall j | c <= j < c + required
      ensures quiet(frames[j])
    {
      assert j < |init| ==> frames[j] == s.candidate[j - c];
    }
    assert frames[c - 1] == s.ready[c - 1];
    assert frames[..c] == s.ready;
    forall e | 0 <= e < c
      ensures !RunAt(frames, e, quiet, required)
    {
      if RunAt(frames, e, quiet, required) {
        NewRun(init, last, e, quiet, required);
      }
    }
  }

  lemma StillRunning<O>(s: Scanned<O>, init: seq<O>, last: O, quiet: O -> bool, required: nat)
    requires required > 0 && Running(s, init, quiet, required)
    requires !s.heard || !quiet(last) || |s.candidate| + 1 < required
    ensures Running(Accept(s, last, quiet, required), init + [last], quiet, required)
  {
    var frames, t := init + [last], Accept(s, last, quiet, required);
    assert t.ready + t.candidate == frames;
    forall e | 0 <= e <= |frames|
      ensures !RunAt(frames, e, quiet, required)
    {
      if e + required <= |init| {
        RunExtends(init, last, e, quiet, required);
      } else if e + required == |frames| {
        LastAudible(s, init, last, e, quiet, required);
      }
    }
    assert !s.heard ==> forall k :: 0 <= k < |frames| - 1 ==> frames[k] == init[k];
  }

  /** A run that would end in the new frame meets an audible frame, or follows none. */
  lemma LastAudible<O>(s: Scanned<O>, init: seq<O>, last: O, e: nat, quiet: O -> bool, required: nat)
    requires required > 0 && Running(s, init, quiet, required) && e + required == |init| + 1
    requires !s.heard || !quiet(last) || |s.candidate| + 1 < required
    ensures !RunAt(init + [last], e, quiet, required)
  {
    var frames := init + [last];
    assert frames[|init|] == last;
    if s.heard {
      assert frames[|s.ready| - 1] == s.ready[|s.ready| - 1];
    } else {
      assert forall a :: 0 <= a < |init| ==> frames[a] == init[a];
    }
  }
}
