/**
Frame sampling in `apps/biometric-verifier/src/video.rs`: the frames to take from a clip, and the two
decode loops that take them from the stream.  What the decoder yields is given: the frames of each
packet, and those it gives back at the end of the stream.
*/
module FrameSampling {
  import opened Wrappers
  import opened Arithmetic

  // ---- The targets ----

  function Product(x: nat, y: nat): nat {
    x * y
  }

  function Quotient(a: nat, d: nat): nat
    requires d > 0
  {
    a / d
  }

  /** The frame in the middle of the `i`th of `frameCount` equal parts. */
  function Target(total: nat, frameCount: nat, i: nat): nat
    requires frameCount > 0
  {
    Quotient(Product(total, 2 * i + 1), 2 * frameCount)
  }

  /** It is the frame `t` that the middle, `(i + 1/2) * total / frameCount`, falls on. */
  lemma TargetIsMiddle(total: nat, frameCount: nat, i: nat, t: nat)
    requires frameCount > 0
    ensures Target(total, frameCount, i) == t <==>
              var n, middle := frameCount as real, (i as real + 0.5) * total as real;
              t as real * n <= middle < (t as real + 1.0) * n
  {
    var a, d := total * (2 * i + 1), 2 * frameCount;
    QuotientIs(a, d, t);
    Doubled(t, frameCount);
    Doubled(t + 1, frameCount);
    Halves(i, total);
  }

  lemma QuotientIs(a: nat, d: nat, t: nat)
    requires d > 0
    ensures a / d == t <==> t * d <= a < (t + 1) * d
  {
    QuotientBelow(a, d, t);
    QuotientBelow(a, d, t + 1);
  }

  lemma Doubled(t: nat, n: nat)
    ensures (t * (2 * n)) as real == 2.0 * (t as real * n as real)
  {
    assert t * (2 * n) == 2 * (t * n);
    ProductAsReal(t, n);
  }

  lemma Halves(i: nat, total: nat)
    ensures (total * (2 * i + 1)) as real == 2.0 * ((i as real + 0.5) * total as real)
  {
    ProductAsReal(total, 2 * i + 1);
    assert (2 * i + 1) as real == 2.0 * (i as real + 0.5);
  }

  lemma {:induction false} ProductAsReal(x: nat, y: nat)
    ensures (x * y) as real == x as real * y as real
  {
    if y > 0 {
      ProductAsReal(x, y - 1);
      assert x * y == x * (y - 1) + x;
      assert x as real * y as real == x as real * (y - 1) as real + x as real;
    }
  }

  /** The elements below `bound`, in ascending order. */
  function Ascending(s: set<nat>, bound: nat): (r: seq<nat>)
    ensures forall i | 0 <= i < |r| :: r[i] < bound && r[i] in s
    ensures forall k | 0 <= k < bound && k in s :: k in r
    ensures forall i, j | 0 <= i < j < |r| :: r[i] < r[j]
  {
    if bound == 0 then []
    else
      var r := Ascending(s, bound - 1);
      if bound - 1 in s then
        var t := r + [bound - 1];
        assert forall k | 0 <= k < bound && k in s :: k in r || k == bound - 1;
        assert t[|r|] == bound - 1;
        t
      else r
  }

  lemma TargetStep(total: nat, n: nat, i: nat)
    requires n > 0
    ensures Target(total, n, i) <= Target(total, n, i + 1)
    ensures n <= total ==> Target(total, n, i) < Target(total, n, i + 1)
    ensures total <= n ==> Target(total, n, i + 1) <= Target(total, n, i) + 1
  {
    var a, b := total * (2 * i + 1), total * (2 * (i + 1) + 1);
    assert b == a + 2 * total;
    DivisionStep(a, b, 2 * n);
  }

  /** The clamp is never needed. */
  lemma TargetBelow(total: nat, n: nat, i: nat)
    requires i < n && total > 0
    ensures Target(total, n, i) < total
  {
    QuotientBelow(total * (2 * i + 1), 2 * n, total);
    Scaled(2 * i + 1, 2 * n, total);
  }

  /** Where the last target lies: `total / (2 * n)`, rounded up, before the end. */
  lemma LastTarget(total: nat, n: nat, back: nat)
    requires n > 0 && 0 < back <= total
    ensures Target(total, n, n - 1) < total - back + 1 <==> (back - 1) * (2 * n) < total
  {
    var d := 2 * n;
    QuotientBelow(total * (2 * (n - 1) + 1), d, total - back + 1);
    assert total * (2 * (n - 1) + 1) == total * d - total;
    assert (total - back + 1) * d == total * d - (back - 1) * d;
  }

  lemma {:induction false} TargetsRise(total: nat, n: nat, i: nat, j: nat)
    requires 0 < n <= total && i < j
    ensures Target(total, n, i) < Target(total, n, j)
  {
    hide Target;
    TargetStep(total, n, j - 1);
    if i < j - 1 {
      TargetsRise(total, n, i, j - 1);
    }
  }

  /** With no more frames in the clip than asked for, every frame is a target. */
  lemma {:induction false} EveryFrameHit(total: nat, n: nat, k: nat, i: nat) returns (hit: nat)
    requires 0 < total <= n && k < total && i < n && Target(total, n, i) <= k
    ensures hit < n && Target(total, n, hit) == k
    decreases n - i
  {
    hide Target;
    hit := i;
    if Target(total, n, i) < k {
      LastTarget(total, n, 2);
      TargetStep(total, n, i);
      hit := EveryFrameHit(total, n, k, i + 1);
    }
  }

  lemma FirstTarget(total: nat, n: nat)
    requires 0 < total <= n
    ensures Target(total, n, 0) == 0
  {
    QuotientBelow(total, 2 * n, 1);
  }

  lemma RisingLast(a: seq<nat>)
    requires Rising(a) && a != []
    ensures Rising(a[..|a| - 1])
    ensures forall k :: k in a[..|a| - 1] <==> k in a && k < a[|a| - 1]
    ensures forall k <- a :: k <= a[|a| - 1]
  {
    var n := |a| - 1;
    var c := a[..n];
    assert forall i | 0 <= i < n :: c[i] == a[i];
    forall k | k in a && k < a[n] ensures k in c {
      var i :| 0 <= i < |a| && a[i] == k;
      assert c[i] == k;
    }
  }

  lemma {:induction false} RisingUnique(a: seq<nat>, b: seq<nat>)
    requires Rising(a) && Rising(b) && forall k :: k in a <==> k in b
    ensures a == b
  {
    hide Rising;
    assert |b| > 0 ==> b[0] in a;
    if a != [] {
      var m, n := |a| - 1, |b| - 1;
      assert a[m] in b;
      assert b[n] in a;
      RisingLast(a);
      RisingLast(b);
      assert a[m] == b[n];
      forall k ensures k in a[..m] <==> k in b[..n] {
        assert k in a <==> k in b;
      }
      RisingUnique(a[..m], b[..n]);
      assert a == a[..m] + [a[m]] && b == b[..n] + [b[n]];
    }
  }

  // The targets in order: one in each part of the clip, or every frame of a shorter one.
  function Targets(total: nat, frameCount: nat): (r: seq<nat>)
    ensures |r| == if total < frameCount then total else frameCount
  {
    if total < frameCount then seq(total, k requires 0 <= k < total => k)
    else seq(frameCount, i requires 0 <= i < frameCount => Target(total, frameCount, i))
  }

  lemma TargetsHold(total: nat, n: nat, k: nat)
    requires total > 0 && n > 0
    ensures k in Targets(total, n) <==> exists i :: 0 <= i < n && Target(total, n, i) == k
  {
    hide Target;
    if total < n {
      if k < total {
        FirstTarget(total, n);
        var hit := EveryFrameHit(total, n, k, 0);
        assert Targets(total, n)[k] == k;
      }
      forall i: nat | i < n ensures Target(total, n, i) < total {
        TargetBelow(total, n, i);
      }
    } else if i: nat :| i < n && Target(total, n, i) == k {
      assert Targets(total, n)[i] == k;
    }
  }

  /** Strictly rising indices into the clip. */
  lemma TargetsAreIndices(total: nat, n: nat)
    ensures Rising(Targets(total, n)) && forall k <- Targets(total, n) :: k < total
  {
    hide Target;
    if 0 < n <= total {
      forall i, j | 0 <= i < j < n ensures Target(total, n, i) < Target(total, n, j) {
        TargetsRise(total, n, i, j);
      }
      forall i: nat | i < n ensures Target(total, n, i) < total {
        TargetBelow(total, n, i);
      }
    }
  }

  method ComputeTargets(total: nat, frameCount: nat) returns (r: seq<nat>)
    ensures r == Targets(total, frameCount)
  {
    hide Target, Targets;
    if total == 0 || frameCount == 0 {
      return [];
    }
    var targets: set<nat> := {};
    for i := 0 to frameCount
      invariant forall k :: k in targets <==> exists j :: 0 <= j < i && Target(total, frameCount, j) == k
    {
      var raw := Target(total, frameCount, i);
      var clamped: nat := if raw <= total - 1 then raw else total - 1;
      TargetBelow(total, frameCount, i);
      targets := targets + {clamped};
    }
    r := Ascending(targets, total);
    TargetsAreIndices(total, frameCount);
    forall k ensures k in r <==> k in Targets(total, frameCount) {
      if k >= 0 {
        TargetsHold(total, frameCount, k);
      }
    }
    RisingUnique(r, Targets(total, frameCount));
  }

  // ---- The stream ----

  /** How many of the rising targets a clip of `count` frames has. */
  function Reached(targets: seq<nat>, count: nat): (r: nat)
    ensures r <= |targets|
    ensures Rising(targets) ==> forall i | 0 <= i < |targets| :: targets[i] < count <==> i < r
  {
    if targets == [] then 0
    else
      var n := |targets| - 1;
      if targets[n] < count then n + 1
      else
        assert forall i | 0 <= i < n :: targets[..n][i] == targets[i];
        Reached(targets[..n], count)
  }

  /** Random access: the frames at the targets, as far as the clip has them. */
  function Sampled<F>(decoded: seq<F>, targets: seq<nat>): (r: seq<F>)
    requires Rising(targets)
    ensures |r| == Reached(targets, |decoded|)
    ensures forall i | 0 <= i < |r| :: r[i] == decoded[targets[i]]
  {
    seq(Reached(targets, |decoded|), i requires 0 <= i < Reached(targets, |decoded|) => decoded[targets[i]])
  }

  lemma ReachedIs(targets: seq<nat>, count: nat, r: nat)
    requires Rising(targets) && r <= |targets|
    requires forall i | 0 <= i < |targets| :: targets[i] < count <==> i < r
    ensures Reached(targets, count) == r
  {
    hide Reached;
    var s := Reached(targets, count);
    assert r < |targets| ==> (targets[r] < count <==> r < s);
    assert s < |targets| ==> (targets[s] < count <==> s < r);
  }

  lemma ReachedNext(targets: seq<nat>, count: nat, r: nat)
    requires Rising(targets) && r == Reached(targets, count)
    ensures Reached(targets, count + 1) == if r < |targets| && targets[r] == count then r + 1 else r
  {
    hide Reached;
    ReachedIs(targets, count + 1, if r < |targets| && targets[r] == count then r + 1 else r);
  }

  lemma SampledNext<F>(seen: seq<F>, frame: F, targets: seq<nat>, r: nat)
    requires Rising(targets) && r == Reached(targets, |seen|)
    ensures Sampled(seen + [frame], targets)
         == Sampled(seen, targets) + if r < |targets| && targets[r] == |seen| then [frame] else []
  {
    hide Reached;
    ReachedNext(targets, |seen|, r);
    assert forall i | 0 <= i < r :: (seen + [frame])[targets[i]] == seen[targets[i]];
  }

  /** Once all targets are reached, later frames make no difference. */
  lemma SampledDone<F>(seen: seq<F>, more: seq<F>, targets: seq<nat>)
    requires Rising(targets) && Reached(targets, |seen|) == |targets|
    ensures Sampled(seen + more, targets) == Sampled(seen, targets)
  {
    hide Reached;
    if targets != [] {
      assert targets[|targets| - 1] < |seen|;
    }
  }

  lemma NextDiffers(targets: seq<nat>, cursor: nat)
    requires Rising(targets) && cursor < |targets|
    ensures cursor + 1 < |targets| ==> targets[cursor + 1] != targets[cursor]
  {
  }

  /** One decoded frame: taken when it is the next target, and counted. */
  method TakeFrame<F>(targets: seq<nat>, frame: F, index: nat, cursor: nat, taken: seq<F>, ghost seen: seq<F>)
    returns (frames: seq<F>, currentIndex: nat, targetCursor: nat)
    requires Rising(targets) && index == |seen|
    requires taken == Sampled(seen, targets) && cursor == |taken|
    ensures currentIndex == index + 1
    ensures frames == Sampled(seen + [frame], targets) && targetCursor == |frames|
  {
    hide Rising;
    frames, targetCursor := taken, cursor;
    if targetCursor < |targets| && index == targets[targetCursor] {
      frames := frames + [frame];
      targetCursor := targetCursor + 1;
      while targetCursor < |targets| && targets[targetCursor] == index
        invariant cursor < targetCursor <= |targets|
        invariant forall i | cursor < i < targetCursor :: targets[i] == index
        decreases |targets| - targetCursor
      {
        targetCursor := targetCursor + 1;
      }
      NextDiffers(targets, cursor);
    }
    SampledNext(seen, frame, targets, cursor);
    currentIndex := index + 1;
  }

  /** The number of frames after which every target is reached; a clip without targets stops after one. */
  function Stop(targets: seq<nat>): nat {
    if targets == [] then 1 else targets[|targets| - 1] + 1
  }

  lemma StopReaches(targets: seq<nat>, count: nat)
    requires Rising(targets) && count > 0
    ensures Reached(targets, count) == |targets| <==> Stop(targets) <= count
  {
    hide Reached;
    var r := Reached(targets, count);
    assert targets != [] ==> (targets[|targets| - 1] < count <==> |targets| - 1 < r);
  }

  /** The frames seen are enough once all are seen or all targets reached. */
  lemma EnoughSeen<F>(seen: seq<F>, all: seq<F>, targets: seq<nat>)
    requires Rising(targets) && seen <= all && (seen == all || 0 < Stop(targets) <= |seen|)
    ensures Sampled(all, targets) == Sampled(seen, targets)
  {
    hide Reached, Stop, Sampled;
    if seen != all {
      StopReaches(targets, |seen|);
      SampledDone(seen, all[|seen|..], targets);
      assert all == seen + all[|seen|..];
    }
  }

  lemma NothingSampled<F>(targets: seq<nat>)
    requires Rising(targets)
    ensures Sampled<F>([], targets) == [] && 0 < Stop(targets)
  {
    ReachedIs(targets, 0, 0);
  }

  /** How many frames the loops look at. */
  function Counted(targets: seq<nat>, packetFrames: nat, drainedFrames: nat): nat {
    var stop := Stop(targets);
    if packetFrames >= stop then stop + if drainedFrames == 0 then 0 else 1
    else if packetFrames + drainedFrames < stop then packetFrames + drainedFrames
    else stop
  }

  /** The frames the decoder has ready, until it has no more or every target is reached. */
  method ReceiveFrames<F>(targets: seq<nat>, queue: seq<F>, index: nat, cursor: nat, taken: seq<F>, ghost seen: seq<F>)
    returns (frames: seq<F>, currentIndex: nat, targetCursor: nat, stopped: bool, k: nat)
    requires Rising(targets) && index == |seen|
    requires taken == Sampled(seen, targets) && cursor == |taken|
    ensures k <= |queue| && currentIndex == index + k
    ensures frames == Sampled(seen + queue[..k], targets) && targetCursor == |frames|
    ensures !stopped ==> k == |queue|
    ensures if index >= Stop(targets) then k == if queue == [] then 0 else 1
            else if stopped then currentIndex == Stop(targets)
            else currentIndex < Stop(targets)
  {
    hide Reached, Sampled, Stop, Rising;
    frames, currentIndex, targetCursor, stopped, k := taken, index, cursor, false, 0;
    assert seen + queue[..0] == seen;
    while k < |queue| && !stopped
      invariant k <= |queue| && currentIndex == index + k
      invariant frames == Sampled(seen + queue[..k], targets) && targetCursor == |frames|
      invariant if index >= Stop(targets) then k == if stopped then 1 else 0
                else if stopped then currentIndex == Stop(targets)
                else currentIndex < Stop(targets)
      decreases |queue| - k
    {
      frames, currentIndex, targetCursor :=
        TakeFrame(targets, queue[k], currentIndex, targetCursor, frames, seen + queue[..k]);
      assert seen + queue[..k + 1] == seen + queue[..k] + [queue[k]];
      StopReaches(targets, currentIndex);
      k := k + 1;
      if targetCursor >= |targets| {
        stopped := true;
      }
    }
  }

  method ExtractFrames<F>(targets: seq<nat>, packets: seq<seq<F>>, drained: seq<F>)
    returns (frames: seq<F>, currentIndex: nat)
    requires Rising(targets)
    ensures frames == Sampled(Concat(packets) + drained, targets)
    ensures currentIndex == Counted(targets, |Concat(packets)|, |drained|)
  {
    hide Reached, Sampled, Stop, Rising, Concat;
    frames := [];
    currentIndex := 0;
    var targetCursor: nat := 0;
    ghost var decoded := Concat(packets);
    ghost var seen: seq<F> := [];
    var k: nat := 0;
    var stopped := false;
    var p := 0;
    NothingSampled<F>(targets);
    while p < |packets| && !stopped
      invariant p <= |packets| && currentIndex == |seen| && targetCursor == |frames|
      invariant frames == Sampled(seen, targets)
      invariant seen <= decoded
      invariant !stopped ==> seen + Concat(packets[p..]) == decoded
      invariant if stopped then currentIndex == Stop(targets) else currentIndex < Stop(targets)
      decreases |packets| - p
    {
      var queue := packets[p];
      assert packets[p..] == [queue] + packets[p + 1..];
      ConcatCons(queue, packets[p + 1..]);
      frames, currentIndex, targetCursor, stopped, k :=
        ReceiveFrames(targets, queue, currentIndex, targetCursor, frames, seen);
      PrefixGrows(seen, queue, Concat(packets[p + 1..]), k);
      seen := seen + queue[..k];
      p := p + 1;
    }
    ConcatNothing<F>();
    assert !stopped ==> packets[p..] == [] && seen == decoded;
    ghost var all := decoded + drained;
    var ended: bool;
    frames, currentIndex, targetCursor, ended, k :=
      ReceiveFrames(targets, drained, currentIndex, targetCursor, frames, seen);
    if stopped {
      EnoughSeen(seen, all, targets);
      StopReaches(targets, |seen|);
      SampledDone(seen, drained[..k], targets);
    } else {
      assert drained == drained[..k] + drained[k..];
      EnoughSeen(seen + drained[..k], all, targets);
    }
  }

  lemma PrefixGrows<F>(seen: seq<F>, queue: seq<F>, behind: seq<F>, k: nat)
    requires k <= |queue|
    ensures seen + queue[..k] <= seen + (queue + behind)
    ensures k == |queue| ==> seen + queue[..k] + behind == seen + (queue + behind)
  {
    assert queue == queue[..k] + queue[k..];
  }

  // ---- The duration estimate ----

  /** What is left of the container's frame count after the loops: the frames they looked at, if fewer. */
  function RemainingEstimate(total: nat, counted: nat, fps: real): nat {
    if counted < total && fps > 0.0 then counted else total
  }

  /**
  The estimate is lowered for a clip that decodes in full, exactly as many frames as its container
  says, whenever the frame rate is known and the loops stop before the last frame: they look at
  `last target + 1` frames, or one more if the decoder has any left to drain.
  */
  lemma FullClipLooksShorterIff(total: nat, n: nat, packetFrames: nat, drainedFrames: nat, fps: real)
    requires total > 0 && n > 0 && packetFrames + drainedFrames == total
    ensures var targets := Targets(total, n);
            var extra := if packetFrames >= Stop(targets) && drainedFrames > 0 then 1 else 0;
            RemainingEstimate(total, Counted(targets, packetFrames, drainedFrames), fps) < total
            <==> fps > 0.0 && (1 + extra) * (2 * n) < total
  {
    hide Target;
    var targets := Targets(total, n);
    var extra := if packetFrames >= Stop(targets) && drainedFrames > 0 then 1 else 0;
    TargetsAreIndices(total, n);
    assert targets[|targets| - 1] in targets;
    if n <= total && 2 + extra <= total {
      LastTarget(total, n, 2 + extra);
    }
  }
}
