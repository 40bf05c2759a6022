/** How long the synchronizer takes, what it drops, and when it can succeed at all.
    Stream i starts at timestamp f[i] and carries 16 items per timestamp: item k of it is tagged
    f[i] + 16 * (k / 16). */
module Alignment {
  import opened Streams
  import opened Synchronizer

  // Items taken off every stream, and whether the synchronizer has latched.
  datatype Align = Align(pos: seq<nat>, latched: bool)

  function HeadTags(f: seq<nat>, pos: seq<nat>): (ts: seq<nat>)
    requires |pos| == |f|
    ensures |ts| == |f|
  {
    seq(|f|, i requires 0 <= i < |f| => f[i] + 16 * (pos[i] / 16))
  }

  // One call of general_work, by the decision GeneralWork is specified with.
  ghost function Call(f: seq<nat>, a: Align, noutput: nat): (a': Align)
    requires |a.pos| == |f| > 0
    ensures |a'.pos| == |f|
  {
    var d := Decide(|f|, HeadTags(f, a.pos), a.latched, noutput);
    Align(seq(|f|, i requires 0 <= i < |f| => a.pos[i] + d.consumed[i]), d.latched)
  }

  ghost function Run(f: seq<nat>, calls: seq<nat>): (a: Align)
    requires |f| > 0
    ensures |a.pos| == |f|
  {
    if |calls| == 0 then Align(seq(|f|, i => 0), false)
    else Call(f, Run(f, calls[..|calls| - 1]), calls[|calls| - 1])
  }

  function Sum(calls: seq<nat>): nat
  {
    if |calls| == 0 then 0 else Sum(calls[..|calls| - 1]) + calls[|calls| - 1]
  }

  ghost predicate SameGrid(f: seq<nat>) { forall i :: 0 <= i < |f| ==> f[i] % 16 == f[0] % 16 }

  // How far stream i starts before the latest stream.
  function Lag(f: seq<nat>, i: nat): nat
    requires i < |f|
  {
    MaxIsLargest(f);
    Max(f) - f[i]
  }

  // After `total` requested items every stream has dropped its lag, as far as asked for.
  ghost predicate Caught(f: seq<nat>, pos: seq<nat>, total: nat)
  {
    |pos| == |f| && forall i :: 0 <= i < |f| ==> pos[i] == Min(Lag(f, i), total)
  }

  ghost predicate LagsWithin(f: seq<nat>, total: nat) { forall i :: 0 <= i < |f| ==> Lag(f, i) <= total }

  lemma LagOnGrid(f: seq<nat>, i: nat)
    requires SameGrid(f) && i < |f|
    ensures Lag(f, i) % 16 == 0
  {
    hide Max;
    MaxIsLargest(f);
    var m :| 0 <= m < |f| && f[m] == Max(f);
    assert f[i] % 16 == f[0] % 16 && f[m] % 16 == f[0] % 16;
    Congruent(f[m], f[i]);
  }

  lemma Congruent(a: nat, b: nat)
    requires a % 16 == b % 16
    ensures (a - b) % 16 == 0
  {
  }

  lemma SameMax(a: seq<nat>, b: seq<nat>)
    requires |a| == |b| > 0
    requires forall i :: 0 <= i < |a| ==> a[i] <= Max(b)
    requires exists i :: 0 <= i < |a| && a[i] == Max(b)
    ensures Max(a) == Max(b)
  {
    MaxIsLargest(a);
  }

  /** While unsynchronized the highest head never moves and no head overtakes it; the heads agree
      exactly when every lag has been dropped. */
  lemma HeadsWhileCatchingUp(f: seq<nat>, pos: seq<nat>, total: nat)
    requires |f| > 0 && SameGrid(f) && total % 16 == 0 && Caught(f, pos, total)
    ensures Max(HeadTags(f, pos)) == Max(f)
    ensures forall i :: 0 <= i < |f| ==> HeadTags(f, pos)[i] == f[i] + pos[i] <= Max(f)
    ensures AllEqual(HeadTags(f, pos)) <==> LagsWithin(f, total)
  {
    var heads := HeadTags(f, pos);
    MaxIsLargest(f);
    forall i | 0 <= i < |f|
      ensures heads[i] == f[i] + pos[i] <= Max(f)
    {
      LagOnGrid(f, i);
    }
    var m :| 0 <= m < |f| && f[m] == Max(f);
    assert heads[m] == Max(f);
    SameMax(heads, f);
    if AllEqual(heads) {
      forall i | 0 <= i < |f|
        ensures Lag(f, i) <= total
      {
        assert heads[i] == heads[0] == heads[m];
      }
    }
    if LagsWithin(f, total) {
      assert forall i :: 0 <= i < |f| ==> heads[i] == Max(f);
    }
  }

  /** One unsynchronized call drops the next stretch of every lag. */
  lemma CatchUpStep(f: seq<nat>, pos: seq<nat>, total: nat, noutput: nat)
    requires |f| > 0 && SameGrid(f) && total % 16 == 0 && Caught(f, pos, total)
    ensures forall i :: 0 <= i < |f| ==>
              pos[i] + Dropped(HeadTags(f, pos), i, noutput) == Min(Lag(f, i), total + noutput)
  {
    HeadsWhileCatchingUp(f, pos, total);
  }

  ghost predicate WholeBlocks(calls: seq<nat>) { forall i :: 0 <= i < |calls| ==> calls[i] > 0 && calls[i] % 16 == 0 }

  lemma {:induction false} SumOfBlocks(calls: seq<nat>)
    requires WholeBlocks(calls)
    ensures Sum(calls) % 16 == 0 && Sum(calls) >= 16 * |calls|
  {
    if |calls| == 0 {
    } else {
      SumOfBlocks(calls[..|calls| - 1]);
    }
  }

  /** The synchronizer latches on exactly the call before which enough items were asked for to cover
      the largest lag; until then each stream has dropped as much of its lag as was asked for. */
  lemma {:induction false} LatchTime(f: seq<nat>, calls: seq<nat>)
    requires |f| > 0 && SameGrid(f) && WholeBlocks(calls)
    ensures Run(f, calls).latched <==> |calls| > 0 && LagsWithin(f, Sum(calls[..|calls| - 1]))
    ensures !Run(f, calls).latched ==> Caught(f, Run(f, calls).pos, Sum(calls))
  {
    if |calls| == 0 {
    } else {
      var init := calls[..|calls| - 1];
      LatchTime(f, init);
      SumOfBlocks(init);
      var a := Run(f, init);
      if !a.latched {
        HeadsWhileCatchingUp(f, a.pos, Sum(init));
        CatchUpStep(f, a.pos, Sum(init), calls[|calls| - 1]);
      }
    }
  }

  /** Minimal loss: some call latches, and since then each stream has lost exactly its own lag and
      forwarded all that was asked for from that call on. */
  lemma {:induction false} LossIsOwnLag(f: seq<nat>, calls: seq<nat>) returns (m: nat)
    requires |f| > 0 && SameGrid(f) && WholeBlocks(calls) && Run(f, calls).latched
    ensures m < |calls| && !Run(f, calls[..m]).latched && Run(f, calls[..m + 1]).latched
    ensures Sum(calls) - Sum(calls[..m]) >= 16
    ensures forall i :: 0 <= i < |f| ==> Run(f, calls).pos[i] == Lag(f, i) + (Sum(calls) - Sum(calls[..m]))
  {
    hide Call, Lag, SameGrid;
    var init, noutput := calls[..|calls| - 1], calls[|calls| - 1];
    var a := Run(f, init);
    if a.latched {
      m := LossIsOwnLag(f, init);
      assert calls[..m] == init[..m] && calls[..m + 1] == init[..m + 1];
      ForwardCall(f, a, noutput);
    } else {
      LatchTime(f, init);
      LatchTime(f, calls);
      SumOfBlocks(init);
      HeadsWhileCatchingUp(f, a.pos, Sum(init));
      m := |init|;
      assert calls[..m + 1] == calls;
      ForwardCall(f, a, noutput);
    }
  }

  // A call that finds or makes the streams synchronized forwards all that is asked for.
  lemma ForwardCall(f: seq<nat>, a: Align, noutput: nat)
    requires |a.pos| == |f| > 0 && (a.latched || AllEqual(HeadTags(f, a.pos)))
    ensures Call(f, a, noutput).latched
    ensures forall i :: 0 <= i < |f| ==> Call(f, a, noutput).pos[i] == a.pos[i] + noutput
  {
  }

  /** The timestamp all streams are forwarded from is the least one present in every stream. */
  lemma LeastCommonTimestamp(f: seq<nat>, ts: nat)
    requires |f| > 0
    ensures SameGrid(f) ==> forall i :: 0 <= i < |f| ==> f[i] <= Max(f) && (Max(f) - f[i]) % 16 == 0
    ensures (forall i :: 0 <= i < |f| ==> f[i] <= ts && (ts - f[i]) % 16 == 0) ==> Max(f) <= ts
  {
    MaxIsLargest(f);
    if SameGrid(f) {
      forall i | 0 <= i < |f|
        ensures (Max(f) - f[i]) % 16 == 0
      {
        LagOnGrid(f, i);
      }
    }
  }

  lemma {:induction false} OffGridNeverLatches(f: seq<nat>, calls: seq<nat>)
    requires |f| > 0 && !SameGrid(f)
    ensures !Run(f, calls).latched
  {
    if |calls| == 0 {
    } else {
      var init := calls[..|calls| - 1];
      OffGridNeverLatches(f, init);
      var pos := Run(f, init).pos;
      var i :| 0 <= i < |f| && f[i] % 16 != f[0] % 16;
      if HeadTags(f, pos)[i] == HeadTags(f, pos)[0] {
        SameResidue(f[i], pos[i] / 16, f[0], pos[0] / 16);
      }
    }
  }

  lemma SameResidue(a: nat, x: nat, b: nat, y: nat)
    requires a + 16 * x == b + 16 * y
    ensures a % 16 == b % 16
  {
  }

  lemma ManyCallsLatch(f: seq<nat>, calls: seq<nat>)
    requires |f| > 0 && SameGrid(f) && WholeBlocks(calls)
    requires |calls| > 0 && forall i :: 0 <= i < |f| ==> Lag(f, i) <= 16 * (|calls| - 1)
    ensures Run(f, calls).latched
  {
    LatchTime(f, calls);
    SumOfBlocks(calls[..|calls| - 1]);
  }

  /** Convergence: streams on a common grid of 16 are synchronized within (largest lag) / 16 + 1
      calls of any sizes, and streams that are not on a common grid never are. */
  lemma ConvergesIffSameGrid(f: seq<nat>, calls: seq<nat>)
    requires |f| > 0 && WholeBlocks(calls)
    requires |calls| > 0 && forall i :: 0 <= i < |f| ==> Lag(f, i) <= 16 * (|calls| - 1)
    ensures Run(f, calls).latched <==> SameGrid(f)
  {
    if SameGrid(f) {
      ManyCallsLatch(f, calls);
    } else {
      OffGridNeverLatches(f, calls);
    }
  }
}
