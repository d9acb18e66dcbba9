/** Sony HI16 chains: linked lists threaded through the immediates they patch. */
module SonyChain {
  import opened Machine
  import opened Wrappers
  import opened LittleEndian
  import opened Counting
  import opened ImageWords

  datatype IrxError =
    | OutOfRange
    | RelocationOverflow
    | MalformedRelocationPair
    | MalformedRelocationChain
    | UnsupportedRelocation(kind: u8)
    | InvalidSection
    | InvalidSymbol
    | Truncated
    | LimitExceeded
    | Overflow
    | InvalidLoadAddress
    | TargetRange
    | Target
    | InvalidLinkTable
    | InvalidProgramLayout
    | OverlappingRanges

  /** Byte distance to the next link: the signed low half, counted in words. */
  function Step(w: u32): int { SignExtend16(w) * 4 }

  /** The value written over every link. */
  function Immediate(value: u32): u16
  {
    ((value + 0x8000) % U32_LIMIT) / HALF
  }

  // ----- Reference: the chain as the original links spell it

  datatype Trace =
    | Ends(path: seq<int>)                 // a zero link terminates it
    | Leaves(path: seq<int>)               // a link points outside the image
    | Repeats(path: seq<int>, to: int)     // a link returns to an earlier word

  /** Follows the original links from `at`, remembering the words already `seen`. */
  function Follow(img: seq<u8>, at: int, seen: seq<int>): (t: Trace)
    requires IsWord(img, at)
    requires Distinct(seen) && forall x :: x in seen ==> IsWord(img, x)
    ensures seen <= t.path && Distinct(t.path) && forall x :: x in t.path ==> IsWord(img, x)
    ensures t.Repeats? ==> t.to in t.path
    decreases WordOffsets(|img|) - Elements(seen)
  {
    if at in seen then Repeats(seen, at)
    else
      var path := seen + [at];
      var step := Step(Word(img, at));
      assert at in WordOffsets(|img|) - Elements(seen);
      assert Elements(path) == Elements(seen) + {at};
      if step == 0 then Ends(path)
      else if !IsWord(img, at + step) then Leaves(path)
      else Follow(img, at + step, path)
  }

  /** The image with the low half of every word on `path` replaced. */
  function Patch(img: seq<u8>, path: seq<int>, low: u16): (r: seq<u8>)
    requires forall x :: x in path ==> IsWord(img, x)
    ensures |r| == |img|
  {
    if path == [] then img
    else
      var last := path[|path| - 1];
      assert IsWord(img, last);
      var before := Patch(img, path[..|path| - 1], low);
      SetWord(before, last, WithLow(Word(before, last), low))
  }

  /** Exactly the words on the path change, and only in their low half. */
  lemma PatchSpec(img: seq<u8>, path: seq<int>, low: u16)
    requires forall x :: x in path ==> IsWord(img, x)
    ensures forall w :: IsWord(img, w) ==>
                          Word(Patch(img, path, low), w)
                          == if w in path then WithLow(Word(img, w), low) else Word(img, w)
    ensures AgreeOff(img, Patch(img, path, low), Elements(path))
  {
    PatchAgrees(img, path, low);
    forall w | IsWord(img, w)
      ensures Word(Patch(img, path, low), w) == if w in path then WithLow(Word(img, w), low) else Word(img, w)
    {
      PatchWord(img, path, low, w);
    }
  }

  lemma {:induction false} PatchWord(img: seq<u8>, path: seq<int>, low: u16, w: nat)
    requires (forall x :: x in path ==> IsWord(img, x)) && IsWord(img, w)
    ensures Word(Patch(img, path, low), w) == if w in path then WithLow(Word(img, w), low) else Word(img, w)
  {
    hide Word, SetWord, WithLow;
    if path != [] {
      var init, last := path[..|path| - 1], path[|path| - 1];
      assert IsWord(img, last);
      assert forall x :: x in path <==> x in init || x == last;
      PatchWord(img, init, low, w);
      var before := Patch(img, init, low);
      WordAfterSet(before, last, WithLow(Word(before, last), low), w);
      WithLowTwice(Word(img, last), low);
      PatchWord(img, init, low, last);
    }
  }

  lemma WithLowTwice(w: u32, low: u16)
    ensures WithLow(WithLow(w, low), low) == WithLow(w, low)
  {
  }

  lemma {:induction false} PatchAgrees(img: seq<u8>, path: seq<int>, low: u16)
    requires forall x :: x in path ==> IsWord(img, x)
    ensures AgreeOff(img, Patch(img, path, low), Elements(path))
  {
    hide Word, SetWord, WithLow;
    if path != [] {
      var init, last := path[..|path| - 1], path[|path| - 1];
      assert IsWord(img, last);
      PatchAgrees(img, init, low);
      var before := Patch(img, init, low);
      SetAgrees(before, last, WithLow(Word(before, last), low));
      assert Elements(path) == Elements(init) + {last};
    }
  }

  // ----- The walk the loader performs, overwriting each link as it passes

  /**
   * One walk from `at` after `visited` earlier visits. The visit bound makes it terminate on
   * every input, although the links it follows are the ones it overwrites.
   */
  function Walk(img: seq<u8>, at: int, low: u16, visited: nat): Result<seq<u8>, IrxError>
    requires IsWord(img, at)
    decreases |img| / 4 + 2 - visited
  {
    var w := Word(img, at);
    var patched := SetWord(img, at, WithLow(w, low));
    if visited + 1 > |img| / 4 + 1 then Err(MalformedRelocationChain)
    else if Step(w) == 0 then Ok(patched)
    else if !IsWord(img, at + Step(w)) then Err(MalformedRelocationChain)
    else Walk(patched, at + Step(w), low, visited + 1)
  }

  method ReadWord(image: array<u8>, at: nat) returns (w: u32)
    requires at + 4 <= image.Length
    ensures w == Word(image[..], at)
  {
    w := DecodeU32(image[at], image[at + 1], image[at + 2], image[at + 3]);
  }

  method WriteWord(image: array<u8>, at: nat, w: u32)
    requires at + 4 <= image.Length
    modifies image
    ensures image[..] == SetWord(old(image[..]), at, w)
  {
    var bytes := EncodeU32(w);
    image[at], image[at + 1], image[at + 2], image[at + 3] := bytes[0], bytes[1], bytes[2], bytes[3];
  }

  method ApplySonyHigh(image: array<u8>, start: nat, delta: u32, addend: u32) returns (r: Result<(), IrxError>)
    requires IsWord(image[..], start)
    modifies image
    ensures r.Ok? <==> Relocated(old(image[..]), start, delta, addend).Ok?
    ensures r.Ok? ==> image[..] == Relocated(old(image[..]), start, delta, addend).value
    ensures r.Err? ==> r.error == Relocated(old(image[..]), start, delta, addend).error
    ensures delta + addend >= U32_LIMIT ==> image[..] == old(image[..])
  {
    hide Step, Immediate, WithLow, SetWord;
    if delta + addend >= U32_LIMIT {
      return Err(RelocationOverflow);
    }
    var low := Immediate(delta + addend);
    var at, visited := start, 0;
    ghost var size := image.Length;
    while true
      invariant IsWord(image[..], at)
      invariant 0 <= visited <= size / 4 + 1
      invariant Walk(image[..], at, low, visited) == Walk(old(image[..]), start, low, 0)
      decreases size / 4 + 2 - visited
    {
      var w := ReadWord(image, at);
      var step := Step(w);
      WriteWord(image, at, WithLow(w, low));
      visited := visited + 1;
      if visited > image.Length / 4 + 1 {
        return Err(MalformedRelocationChain);
      }
      if step == 0 {
        return Ok(());
      }
      if !(0 <= at + step && (at + step) % 4 == 0 && at + step + 4 <= image.Length) {
        return Err(MalformedRelocationChain);
      }
      at := at + step;
    }
  }

  /** The outcome of one Sony HI16 relocation as a function of the image. */
  function Relocated(img: seq<u8>, start: int, delta: u32, addend: u32): Result<seq<u8>, IrxError>
    requires IsWord(img, start)
  {
    if delta + addend >= U32_LIMIT then Err(RelocationOverflow)
    else Walk(img, start, Immediate(delta + addend), 0)
  }

  // ----- The overwriting walk against the reference chain

  /**
   * Overwriting never disturbs a link that is still to be read: the walk that patches as it goes
   * behaves on every chain as the original links dictate, up to the first repeated word.
   */
  lemma {:induction false} WalkFollows(img: seq<u8>, at: int, low: u16, seen: seq<int>)
    requires IsWord(img, at)
    requires Distinct(seen) && forall x :: x in seen ==> IsWord(img, x)
    ensures var t := Follow(img, at, seen);
            var result := Walk(Patch(img, seen, low), at, low, |seen|);
            && (t.Ends? ==> result == Ok(Patch(img, t.path, low)))
            && (t.Leaves? ==> result == Err(MalformedRelocationChain))
            && (t.Repeats? ==> result == Walk(Patch(img, t.path, low), t.to, low, |t.path|))
    decreases WordOffsets(|img|) - Elements(seen)
  {
    hide Word, SetWord, WithLow, Step, Patch, WordOffsets, Elements;
    if at !in seen {
      var path := seen + [at];
      VisitUnseen(img, at, low, seen);
      SeenGrows(img, at, seen);
      var step := Step(Word(img, at));
      if step != 0 && IsWord(img, at + step) {
        WalkFollows(img, at + step, low, path);
      }
    }
  }

  lemma SeenGrows(img: seq<u8>, at: int, seen: seq<int>)
    requires IsWord(img, at) && at !in seen
    ensures WordOffsets(|img|) - Elements(seen + [at]) < WordOffsets(|img|) - Elements(seen)
  {
    assert Elements(seen + [at]) == Elements(seen) + {at};
    assert at in WordOffsets(|img|) - Elements(seen);
  }

  /** One visit to a word not seen before reads its original link and extends the patch by it. */
  lemma VisitUnseen(img: seq<u8>, at: int, low: u16, seen: seq<int>)
    requires IsWord(img, at) && at !in seen
    requires Distinct(seen) && forall x :: x in seen ==> IsWord(img, x)
    ensures var current, path := Patch(img, seen, low), seen + [at];
            && Word(current, at) == Word(img, at)
            && SetWord(current, at, WithLow(Word(current, at), low)) == Patch(img, path, low)
            && |path| <= |img| / 4
  {
    hide Word, SetWord, WithLow;
    PatchWord(img, seen, low, at);
    assert (seen + [at])[..|seen|] == seen;
    WordCount(seen + [at], img);
  }

  /** A terminated chain never meets the visit bound and patches exactly its own words. */
  lemma AcyclicChain(img: seq<u8>, start: int, delta: u32, addend: u32)
    requires IsWord(img, start) && delta + addend < U32_LIMIT
    requires Follow(img, start, []).Ends?
    ensures var path := Follow(img, start, []).path;
            var low := Immediate(delta + addend);
            && Relocated(img, start, delta, addend).Ok?
            && var after := Relocated(img, start, delta, addend).value;
            && |after| == |img|
            && (forall w :: IsWord(img, w) ==> HighHalf(Word(after, w)) == HighHalf(Word(img, w)))
            && (forall w :: IsWord(img, w) && w in path ==> LowHalf(Word(after, w)) == low)
            && AgreeOff(img, after, Elements(path))
  {
    hide Word, SetWord, WithLow, Step, Immediate, Walk, Follow;
    var t, low := Follow(img, start, []), Immediate(delta + addend);
    WalkFollows(img, start, low, []);
    PatchSpec(img, t.path, low);
    forall w | IsWord(img, w)
      ensures HighHalf(Word(Patch(img, t.path, low), w)) == HighHalf(Word(img, w))
      ensures w in t.path ==> LowHalf(Word(Patch(img, t.path, low), w)) == low
    {
      WithLowHalves(Word(img, w), low);
    }
  }

  /** A chain that leaves the image is rejected. */
  lemma EscapingChain(img: seq<u8>, start: int, delta: u32, addend: u32)
    requires IsWord(img, start) && delta + addend < U32_LIMIT
    requires Follow(img, start, []).Leaves?
    ensures Relocated(img, start, delta, addend) == Err(MalformedRelocationChain)
  {
    WalkFollows(img, start, Immediate(delta + addend), []);
  }

  // ----- Which chains are accepted

  /**
   * The link the walk takes from the `i`-th word it visits: the original one on the first visit, the immediate
   * that overwrote it on every later one.
   */
  function Link(img: seq<u8>, q: seq<int>, i: nat, low: u16): int
    requires i < |q| && IsWord(img, q[i])
  {
    if q[i] in q[..i] then SignExtend16(low) * 4 else Step(Word(img, q[i]))
  }

  /** The words visited from `start`, one link after the other, none of the links but perhaps the last one zero. */
  ghost predicate Trajectory(img: seq<u8>, start: int, low: u16, q: seq<int>)
  {
    && q != [] && q[0] == start && (forall x :: x in q ==> IsWord(img, x))
    && (forall i :: 0 <= i < |q| ==> IsWord(img, q[i]))
    && forall i :: 0 <= i < |q| - 1 ==> Link(img, q, i, low) != 0 && q[i + 1] == q[i] + Link(img, q, i, low)
  }

  /** A trajectory that ends in a zero link within the visit bound. */
  ghost predicate Accepting(img: seq<u8>, start: int, low: u16, q: seq<int>)
  {
    && Trajectory(img, start, low, q) && |q| <= |img| / 4 + 1
    && Link(img, q, |q| - 1, low) == 0
  }

  lemma LinkLonger(img: seq<u8>, q: seq<int>, x: int, i: nat, low: u16)
    requires i < |q| && IsWord(img, q[i])
    ensures Link(img, q + [x], i, low) == Link(img, q, i, low)
  {
    assert (q + [x])[..i] == q[..i];
  }

  lemma TrajectoryGrows(img: seq<u8>, start: int, low: u16, q: seq<int>)
    requires Trajectory(img, start, low, q)
    requires Link(img, q, |q| - 1, low) != 0 && IsWord(img, q[|q| - 1] + Link(img, q, |q| - 1, low))
    ensures Trajectory(img, start, low, q + [q[|q| - 1] + Link(img, q, |q| - 1, low)])
  {
    hide Link;
    var x := q[|q| - 1] + Link(img, q, |q| - 1, low);
    var longer := q + [x];
    forall i | 0 <= i < |longer| - 1
      ensures Link(img, longer, i, low) == Link(img, q, i, low)
    {
      LinkLonger(img, q, x, i, low);
    }
  }

  /** One visit, whether the first or a later one, takes the trajectory's link and extends the patch by the word. */
  lemma VisitWord(img: seq<u8>, start: int, low: u16, q: seq<int>)
    requires Trajectory(img, start, low, q)
    ensures var n := |q| - 1;
            var current := Patch(img, q[..n], low);
            && IsWord(current, q[n]) && Step(Word(current, q[n])) == Link(img, q, n, low)
            && SetWord(current, q[n], WithLow(Word(current, q[n]), low)) == Patch(img, q, low)
  {
    hide Word, SetWord, WithLow, Step, SignExtend16;
    var n := |q| - 1;
    assert IsWord(img, q[n]);
    PatchWord(img, q[..n], low, q[n]);
    if q[n] in q[..n] {
      WithLowHalves(Word(img, q[n]), low);
      StepOfLow(WithLow(Word(img, q[n]), low));
    }
  }

  /** The walk from the end of a trajectory succeeds only along one that accepts, */
  lemma {:induction false} WalkAccepts(img: seq<u8>, start: int, low: u16, q: seq<int>) returns (p: seq<int>)
    requires Trajectory(img, start, low, q)
    requires Walk(Patch(img, q[..|q| - 1], low), q[|q| - 1], low, |q| - 1).Ok?
    ensures Accepting(img, start, low, p)
    decreases |img| / 4 + 2 - |q|
  {
    hide Word, SetWord, WithLow, Step, Link, Patch;
    VisitWord(img, start, low, q);
    var link := Link(img, q, |q| - 1, low);
    p := q;
    if link != 0 {
      var longer := q + [q[|q| - 1] + link];
      TrajectoryGrows(img, start, low, q);
      assert longer[..|longer| - 1] == q;
      p := WalkAccepts(img, start, low, longer);
    }
  }

  /** and along any that accepts, with exactly its words patched. */
  lemma {:induction false} AcceptedWalk(img: seq<u8>, start: int, low: u16, p: seq<int>, n: nat)
    requires Accepting(img, start, low, p) && n < |p|
    ensures Walk(Patch(img, p[..n], low), p[n], low, n) == Ok(Patch(img, p, low))
    decreases |p| - n
  {
    hide Word, SetWord, WithLow, Step, Link, Patch;
    var q := p[..n + 1];
    PrefixTrajectory(img, start, low, p, n);
    assert q[..n] == p[..n];
    VisitWord(img, start, low, q);
    if n + 1 < |p| {
      AcceptedWalk(img, start, low, p, n + 1);
    } else {
      assert q == p;
    }
  }

  lemma PrefixTrajectory(img: seq<u8>, start: int, low: u16, p: seq<int>, n: nat)
    requires Trajectory(img, start, low, p) && n < |p|
    ensures Trajectory(img, start, low, p[..n + 1])
    ensures Link(img, p[..n + 1], n, low) == Link(img, p, n, low)
  {
    hide Step, Word;
    var q := p[..n + 1];
    forall i | 0 <= i <= n
      ensures q[..i] == p[..i] && Link(img, q, i, low) == Link(img, p, i, low)
    {
    }
  }

  /**
   * A chain is accepted exactly if following its original links, and the immediate wherever it comes back to a
   * word, ends in a zero link within the visit bound; then exactly the words visited are patched.
   */
  lemma AcceptedExactly(img: seq<u8>, start: int, delta: u32, addend: u32)
    requires IsWord(img, start) && delta + addend < U32_LIMIT
    ensures var low := Immediate(delta + addend);
            && (Relocated(img, start, delta, addend).Ok? <==> exists q :: Accepting(img, start, low, q))
            && forall q :: Accepting(img, start, low, q) ==>
                 Relocated(img, start, delta, addend) == Ok(Patch(img, q, low))
  {
    hide Walk, Immediate, Link;
    var low := Immediate(delta + addend);
    var first := [start];
    PatchNothing(img, low);
    assert first[..0] == [] && Trajectory(img, start, low, first);
    if Walk(img, start, low, 0).Ok? {
      var q := WalkAccepts(img, start, low, first);
    }
    forall q | Accepting(img, start, low, q)
      ensures Walk(img, start, low, 0) == Ok(Patch(img, q, low))
    {
      AcceptedWalk(img, start, low, q, 0);
      assert q[..0] == [];
    }
  }

  /**
   * A cyclic chain is accepted if the immediate is zero, for the overwritten link reads as a terminator. With any
   * other immediate it is accepted exactly if the trajectory escapes the cycle to a word not visited before whose
   * original link is zero.
   */
  lemma CyclicChain(img: seq<u8>, start: int, delta: u32, addend: u32)
    requires IsWord(img, start) && delta + addend < U32_LIMIT
    requires Follow(img, start, []).Repeats?
    ensures var t, low := Follow(img, start, []), Immediate(delta + addend);
            && (low == 0 ==> Relocated(img, start, delta, addend) == Ok(Patch(img, t.path, 0)))
            && (low != 0 ==>
                  (Relocated(img, start, delta, addend).Ok? <==>
                     exists q :: Accepting(img, start, low, q) && EndsFresh(img, q)))
  {
    hide SetWord, Follow, Word, WithLow, SignExtend16, Immediate, Patch, Walk, Accepting, EndsFresh;
    var t, low := Follow(img, start, []), Immediate(delta + addend);
    if low == 0 {
      assert Patch(img, [], low) == img by { PatchNothing(img, low); }
      WalkFollows(img, start, low, []);
      PatchWord(img, t.path, low, t.to);
      WithLowHalves(Word(img, t.to), low);
      WordCount(t.path, img);
      Revisit(Patch(img, t.path, low), t.to, low, |t.path|);
    } else {
      AcceptedExactly(img, start, delta, addend);
      forall q | Accepting(img, start, low, q)
        ensures EndsFresh(img, q)
      {
        FreshEnd(img, start, low, q);
      }
    }
  }

  /** The last word is visited for the first time and its original link is zero. */
  predicate EndsFresh(img: seq<u8>, q: seq<int>)
  {
    q != [] && var last := q[|q| - 1]; IsWord(img, last) && last !in q[..|q| - 1] && Step(Word(img, last)) == 0
  }

  lemma FreshEnd(img: seq<u8>, start: int, low: u16, q: seq<int>)
    requires Accepting(img, start, low, q) && low != 0
    ensures EndsFresh(img, q)
  {
    hide Word, Step;
  }

  /** A cycle over all words of the image leads nowhere else, so only a zero immediate gets it accepted. */
  lemma CoveringCycle(img: seq<u8>, start: int, delta: u32, addend: u32)
    requires IsWord(img, start) && delta + addend < U32_LIMIT
    requires Follow(img, start, []).Repeats?
    requires forall w :: IsWord(img, w) ==> w in Follow(img, start, []).path
    ensures Relocated(img, start, delta, addend).Ok? <==> Immediate(delta + addend) == 0
  {
    hide Follow, Word, Step, Immediate, Accepting, Relocated, Patch;
    CyclicChain(img, start, delta, addend);
    CycleLinks(img, start, []);
  }

  /** No word of a cyclic chain has a zero link. */
  lemma {:induction false} CycleLinks(img: seq<u8>, at: int, seen: seq<int>)
    requires Distinct(seen) && forall x :: x in seen ==> IsWord(img, x) && Step(Word(img, x)) != 0
    requires IsWord(img, at) && Follow(img, at, seen).Repeats?
    ensures forall x :: x in Follow(img, at, seen).path ==> IsWord(img, x) && Step(Word(img, x)) != 0
    decreases WordOffsets(|img|) - Elements(seen)
  {
    hide Word, Step, WordOffsets, Elements;
    if at !in seen {
      SeenGrows(img, at, seen);
      CycleLinks(img, at + Step(Word(img, at)), seen + [at]);
    }
  }

  lemma PatchNothing(img: seq<u8>, low: u16)
    ensures Patch(img, [], low) == img
  {
  }

  /** Visiting a word that already holds the immediate changes nothing and steps by the immediate. */
  lemma Revisit(img: seq<u8>, at: int, low: u16, visited: nat)
    requires IsWord(img, at) && LowHalf(Word(img, at)) == low && visited <= |img| / 4
    ensures low == 0 <==> SignExtend16(low) == 0
    ensures Walk(img, at, low, visited) ==
            if low == 0 then Ok(img)
            else if !IsWord(img, at + SignExtend16(low) * 4) then Err(MalformedRelocationChain)
            else Walk(img, at + SignExtend16(low) * 4, low, visited + 1)
  {
    hide Word, SetWord, WithLow, SignExtend16, Step;
    Unchanged(img, at, low);
    StepOfLow(Word(img, at));
  }

  lemma StepOfLow(w: u32)
    ensures Step(w) == SignExtend16(LowHalf(w)) * 4
    ensures LowHalf(w) == 0 <==> SignExtend16(LowHalf(w)) == 0
  {
  }

  /** Writing the immediate over a word that already holds it changes nothing. */
  lemma Unchanged(img: seq<u8>, at: int, low: u16)
    requires IsWord(img, at) && LowHalf(Word(img, at)) == low
    ensures SetWord(img, at, WithLow(Word(img, at), low)) == img
  {
    assert WithLow(Word(img, at), low) == Word(img, at);
    U32BytesRoundTrip(img[at], img[at + 1], img[at + 2], img[at + 3]);
  }

  /** `after` differs from `img` only in low halves, each of which became `low`. */
  ghost predicate OnlyLowHalves(img: seq<u8>, after: seq<u8>, low: u16)
  {
    && AgreeOff(img, after, WordOffsets(|img|))
    && forall w :: IsWord(img, w) ==>
                     Word(after, w) == Word(img, w) || Word(after, w) == WithLow(Word(img, w), low)
  }

  lemma OneLowHalf(img: seq<u8>, at: int, low: u16)
    requires IsWord(img, at)
    ensures OnlyLowHalves(img, SetWord(img, at, WithLow(Word(img, at), low)), low)
  {
    hide Word, SetWord, WithLow;
    var w := WithLow(Word(img, at), low);
    SetAgrees(img, at, w);
    forall x | IsWord(img, x)
      ensures Word(SetWord(img, at, w), x) == if x == at then w else Word(img, x)
    {
      WordAfterSet(img, at, w, x);
    }
  }

  lemma LowHalvesCompose(a: seq<u8>, b: seq<u8>, c: seq<u8>, low: u16)
    requires OnlyLowHalves(a, b, low) && OnlyLowHalves(b, c, low)
    ensures OnlyLowHalves(a, c, low)
  {
    hide Word;
    forall w | IsWord(a, w)
      ensures Word(c, w) == Word(a, w) || Word(c, w) == WithLow(Word(a, w), low)
    {
      assert IsWord(b, w);
    }
  }

  /** On every input, cyclic or not, the walk leaves the upper halves and all non-word bytes alone. */
  lemma {:induction false} WalkKeepsUpperHalves(img: seq<u8>, at: int, low: u16, visited: nat)
    requires IsWord(img, at)
    requires Walk(img, at, low, visited).Ok?
    ensures OnlyLowHalves(img, Walk(img, at, low, visited).value, low)
    decreases |img| / 4 + 2 - visited
  {
    hide Word, SetWord, WithLow, Step, OnlyLowHalves;
    var w := Word(img, at);
    var patched := SetWord(img, at, WithLow(w, low));
    OneLowHalf(img, at, low);
    if visited + 1 <= |img| / 4 + 1 && Step(w) != 0 && IsWord(img, at + Step(w)) {
      WalkKeepsUpperHalves(patched, at + Step(w), low, visited + 1);
      LowHalvesCompose(img, patched, Walk(patched, at + Step(w), low, visited + 1).value, low);
    }
  }

  /** Two words linked in a ring: `lui` immediates +1 and -1. */
  const RING: seq<u8> := [1, 0, 0, 0x3c, 0xff, 0xff, 0, 0x3c]

  /** The documented rejection of cyclic chains fails: relocated by 0x10000 the ring is accepted. */
  lemma RingAccepted()
    ensures IsWord(RING, 0)
    ensures Follow(RING, 0, []).Repeats?
    ensures Immediate(0x1_0000 + 0xfffe_8000) == 0 && Relocated(RING, 0, 0x1_0000, 0xfffe_8000).Ok?
  {
    hide Follow, Relocated, Walk, Patch;
    assert Word(RING, 0) == 0x3c00_0001 && Word(RING, 4) == 0x3c00_ffff;
    RingFollow(RING);
    CyclicChain(RING, 0, 0x1_0000, 0xfffe_8000);
  }

  /** The ring with a third word, which it does not link to and whose own link is zero. */
  const RING_BESIDE: seq<u8> := RING + [0, 0, 0, 0x3c]

  /** It fails for a nonzero immediate too: the immediate 2 leads from the ring to the third word. */
  lemma RingEscapes()
    ensures IsWord(RING_BESIDE, 0)
    ensures Follow(RING_BESIDE, 0, []).Repeats?
    ensures Immediate(0x1_0000 + 0x1_0000) == 2 && Relocated(RING_BESIDE, 0, 0x1_0000, 0x1_0000).Ok?
  {
    hide Follow, Relocated, Walk, Patch;
    var img, q := RING_BESIDE, [0, 4, 0, 8];
    assert Word(img, 0) == 0x3c00_0001 && Word(img, 4) == 0x3c00_ffff && Word(img, 8) == 0x3c00_0000;
    RingFollow(img);
    assert q[..0] == [] && q[..1] == [0] && q[..2] == [0, 4] && q[..3] == [0, 4, 0];
    assert Accepting(img, 0, 2, q);
    AcceptedExactly(img, 0, 0x1_0000, 0x1_0000);
  }

  lemma RingFollow(ring: seq<u8>)
    requires |ring| >= 8 && Word(ring, 0) == 0x3c00_0001 && Word(ring, 4) == 0x3c00_ffff
    ensures Follow(ring, 0, []) == Repeats([0, 4], 0)
  {
    assert Step(Word(ring, 0)) == 4 && Step(Word(ring, 4)) == -4;
    hide Word, Step;
    assert [] + [0] == [0] && [0] + [4] == [0, 4];
    assert Follow(ring, 0, [0, 4]) == Repeats([0, 4], 0);
    assert Follow(ring, 4, [0]) == Follow(ring, 0, [0, 4]);
    assert Follow(ring, 0, []) == Follow(ring, 4, [0]);
  }
}
