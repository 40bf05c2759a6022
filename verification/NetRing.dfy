/** The receive ring: what a full circular buffer keeps, and what the consumer gets. */
module NetRing {
  import opened SnapFormat

  // Packets the receive ring can hold.
  const MAX_NET_CIRC_BUFFER: nat := 1000000

  // Pushing on a full circular buffer overwrites its oldest packet.
  function RingPush(ring: seq<Packet>, p: Packet): seq<Packet>
  {
    if |ring| == MAX_NET_CIRC_BUFFER then ring[1..] + [p] else ring + [p]
  }

  function RingPushAll(ring: seq<Packet>, ps: seq<Packet>): seq<Packet>
  {
    if |ps| == 0 then ring else RingPush(RingPushAll(ring, ps[..|ps| - 1]), ps[|ps| - 1])
  }

  // The ring holds the last packets pushed, and the packets taken off it stand at strictly
  // increasing positions among those pushed before: an in-order subsequence.
  ghost predicate RingInv(ring: seq<Packet>, pushed: seq<Packet>, popped: seq<Packet>, positions: seq<nat>)
  {
    && |ring| <= MAX_NET_CIRC_BUFFER && |ring| <= |pushed|
    && ring == pushed[|pushed| - |ring|..]
    && |positions| == |popped|
    && (forall k :: 0 <= k < |popped| ==> positions[k] < |pushed| - |ring| && popped[k] == pushed[positions[k]])
    && (forall j, k :: 0 <= j < k < |popped| ==> positions[j] < positions[k])
  }

  /** Pushing keeps the ring a suffix of what was pushed, full or not. */
  lemma PushKeeps(ring: seq<Packet>, pushed: seq<Packet>, popped: seq<Packet>, positions: seq<nat>, p: Packet)
    requires RingInv(ring, pushed, popped, positions)
    ensures RingInv(RingPush(ring, p), pushed + [p], popped, positions)
    ensures |RingPush(ring, p)| >= |ring| && |RingPush(ring, p)| > 0
  {
  }

  /** Taking the front packet continues the subsequence. */
  lemma PopKeeps(ring: seq<Packet>, pushed: seq<Packet>, popped: seq<Packet>, positions: seq<nat>)
    requires RingInv(ring, pushed, popped, positions) && |ring| > 0
    ensures RingInv(ring[1..], pushed, popped + [ring[0]], positions + [|pushed| - |ring|])
  {
  }

  // --- One call's worth of takes -------------------------------------------------------------------

  // The packets the receive thread pushes just before the k-th take.
  function Arrival(arrivals: seq<seq<Packet>>, k: nat): seq<Packet>
  {
    if k < |arrivals| then arrivals[k] else []
  }

  function Arrived(arrivals: seq<seq<Packet>>, k: nat): seq<Packet>
  {
    if k == 0 then [] else Arrived(arrivals, k - 1) + Arrival(arrivals, k - 1)
  }

  // The ring after k takes with those arrivals, and the packets taken.
  function RingTaken(ring: seq<Packet>, arrivals: seq<seq<Packet>>, k: nat): (seq<Packet>, seq<Packet>)
  {
    if k == 0 then (ring, [])
    else
      var before := RingTaken(ring, arrivals, k - 1);
      var full := RingPushAll(before.0, Arrival(arrivals, k - 1));
      if |full| == 0 then before else (full[1..], before.1 + [full[0]])
  }

  lemma {:induction false} PushAllFits(ring: seq<Packet>, ps: seq<Packet>)
    requires |ring| + |ps| <= MAX_NET_CIRC_BUFFER
    ensures RingPushAll(ring, ps) == ring + ps
  {
    if |ps| > 0 {
      PushAllFits(ring, ps[..|ps| - 1]);
      assert ps == ps[..|ps| - 1] + [ps[|ps| - 1]];
    } else {
      assert ring + ps == ring;
    }
  }

  lemma OneTake(ring: seq<Packet>, arrived: seq<Packet>, r: seq<Packet>, taken: seq<Packet>, new_: seq<Packet>)
    requires taken + r == ring + arrived && |r + new_| > 0
    ensures (taken + [(r + new_)[0]]) + (r + new_)[1..] == ring + (arrived + new_)
  {
    assert ring + (arrived + new_) == (taken + r) + new_;
  }

  /** A call during which the ring has room for all arrivals takes the oldest packets in order and
      keeps all others: taken packets followed by the ring are the old ring followed by the arrivals. */
  lemma {:induction false} TakenInOrder(ring: seq<Packet>, arrivals: seq<seq<Packet>>, k: nat)
    requires k <= |ring| && |ring| + |Arrived(arrivals, k)| <= MAX_NET_CIRC_BUFFER
    ensures var r := RingTaken(ring, arrivals, k); r.1 + r.0 == ring + Arrived(arrivals, k) && |r.1| == k
  {
    if k == 0 {
    } else {
      TakenInOrder(ring, arrivals, k - 1);
      var before, new_ := RingTaken(ring, arrivals, k - 1), Arrival(arrivals, k - 1);
      assert |before.1| + |before.0| == |ring| + |Arrived(arrivals, k - 1)|;
      PushAllFits(before.0, new_);
      OneTake(ring, Arrived(arrivals, k - 1), before.0, before.1, new_);
    }
  }

  /** What has arrived before the (k + 1)-th take is what had before the k-th, and the k-th arrival. */
  lemma ArrivedSoFar(arrivals: seq<seq<Packet>>, k: nat)
    requires k < |arrivals|
    ensures Arrived(arrivals, 0) == [] && Arrived(arrivals, k + 1) == Arrived(arrivals, k) + arrivals[k]
  {
  }

  // --- Every interleaving of the receive thread with one consumer ---------------------------------

  // The consumer counts the ring once, then takes at most that many packets, one at a time; the
  // receive thread may push between any two of its steps.
  datatype RingStep = Push(p: Packet) | Count | Take | Stop

  // `budget` is what is left of the consumer's count.
  datatype RingState =
    RingState(ring: seq<Packet>, pushed: seq<Packet>, popped: seq<Packet>, positions: seq<nat>, budget: nat)

  // Taking is what the consumer does whenever its count allows; on an empty ring it would fail.
  predicate TakeIsSafe(s: RingState) { s.budget > 0 ==> |s.ring| > 0 }

  function RingNext(s: RingState, step: RingStep): RingState
  {
    match step
    case Push(p) => s.(ring := RingPush(s.ring, p), pushed := s.pushed + [p])
    case Count => if s.budget == 0 then s.(budget := |s.ring|) else s
    case Take =>
      if s.budget > 0 && |s.ring| > 0 && |s.ring| <= |s.pushed| then
        s.(ring := s.ring[1..], popped := s.popped + [s.ring[0]],
           positions := s.positions + [|s.pushed| - |s.ring|], budget := s.budget - 1)
      else s
    case Stop => s.(budget := 0)
  }

  function RingRun(steps: seq<RingStep>): RingState
  {
    if |steps| == 0 then RingState([], [], [], [], 0)
    else RingNext(RingRun(steps[..|steps| - 1]), steps[|steps| - 1])
  }

  // The ring was full when a packet was pushed.
  ghost predicate Overflowed(steps: seq<RingStep>)
  {
    exists k :: 0 <= k < |steps| && steps[k].Push? && |RingRun(steps[..k]).ring| == MAX_NET_CIRC_BUFFER
  }

  /** Under every interleaving the count never lets the consumer read an empty ring, and what it
      took is an in-order subsequence of what was pushed. */
  lemma {:induction false} InterleavingIsSafe(steps: seq<RingStep>)
    ensures var s := RingRun(steps);
            && TakeIsSafe(s) && s.budget <= |s.ring|
            && RingInv(s.ring, s.pushed, s.popped, s.positions)
  {
    if |steps| == 0 {
    } else {
      var s := RingRun(steps[..|steps| - 1]);
      InterleavingIsSafe(steps[..|steps| - 1]);
      match steps[|steps| - 1] {
        case Push(p) => PushKeeps(s.ring, s.pushed, s.popped, s.positions, p);
        case Take =>
          if s.budget > 0 {
            PopKeeps(s.ring, s.pushed, s.popped, s.positions);
          }
        case Count =>
        case Stop =>
      }
    }
  }

  /** A take the count allows takes the front packet off the ring. */
  lemma TakeTakes(s: RingState)
    requires 0 < s.budget <= |s.ring| <= |s.pushed|
    ensures var s' := RingNext(s, Take);
            && s'.popped == s.popped + [s.ring[0]] && s'.ring == s.ring[1..]
            && s'.popped + s'.ring == s.popped + s.ring && |s'.popped| == |s.popped| + 1
            && s'.budget == s.budget - 1 && s'.pushed == s.pushed
  {
    assert (s.popped + [s.ring[0]]) + s.ring[1..] == s.popped + s.ring;
  }

  // The receive thread pushes some packets.
  function Pushes(ps: seq<Packet>): seq<RingStep>
  {
    seq(|ps|, i requires 0 <= i < |ps| => Push(ps[i]))
  }

  // The consumer counts, then takes k packets; just before the j-th the receive thread pushes arrivals[j].
  function CallSteps(arrivals: seq<seq<Packet>>, k: nat): seq<RingStep>
  {
    if k == 0 then [Count] else CallSteps(arrivals, k - 1) + Pushes(Arrival(arrivals, k - 1)) + [Take]
  }

  lemma OneMoreStep(steps: seq<RingStep>, step: RingStep)
    ensures RingRun(steps + [step]) == RingNext(RingRun(steps), step)
  {
    assert (steps + [step])[..|steps|] == steps;
  }

  lemma {:induction false} RunOfPushes(steps: seq<RingStep>, ps: seq<Packet>)
    ensures var s, s' := RingRun(steps), RingRun(steps + Pushes(ps));
            && s'.ring == RingPushAll(s.ring, ps) && s'.pushed == s.pushed + ps
            && s'.popped == s.popped && s'.budget == s.budget
  {
    hide RingRun, RingPush;
    if |ps| == 0 {
      assert steps + Pushes(ps) == steps;
    } else {
      var init, p := ps[..|ps| - 1], ps[|ps| - 1];
      RunOfPushes(steps, init);
      assert steps + Pushes(ps) == steps + Pushes(init) + [Push(p)];
      OneMoreStep(steps + Pushes(init), Push(p));
    }
  }

  /** A call of the consumer, at any point of any run: with those arrivals it ends with the ring, the
      packets taken and the packets pushed that the source's call is specified with. */
  lemma {:induction false} CallIsRun(steps: seq<RingStep>, arrivals: seq<seq<Packet>>, k: nat)
    requires RingRun(steps).budget == 0 && k <= |RingRun(steps).ring|
    ensures var s, s' := RingRun(steps), RingRun(steps + CallSteps(arrivals, k));
            && (s'.ring, s'.popped) == (RingTaken(s.ring, arrivals, k).0, s.popped + RingTaken(s.ring, arrivals, k).1)
            && s'.pushed == s.pushed + Arrived(arrivals, k)
            && s'.budget == |s.ring| - k
            && |RingTaken(s.ring, arrivals, k).1| == k
  {
    hide RingRun, RingPushAll, RingTaken, RingNext, RingInv;
    var s := RingRun(steps);
    NextTaken(s.ring, arrivals, k);
    if k == 0 {
      OneMoreStep(steps, Count);
      CountCounts(s);
      assert s.popped + [] == s.popped && s.pushed + [] == s.pushed;
    } else {
      CallIsRun(steps, arrivals, k - 1);
      var before, ps := steps + CallSteps(arrivals, k - 1), Arrival(arrivals, k - 1);
      var taken := RingTaken(s.ring, arrivals, k - 1).1;
      assert steps + CallSteps(arrivals, k) == before + Pushes(ps) + [Take];
      PushThenTake(before, ps);
      var front := RingPushAll(RingRun(before).ring, ps)[0];
      assert s.popped + (taken + [front]) == s.popped + taken + [front];
      assert s.pushed + (Arrived(arrivals, k - 1) + ps) == s.pushed + Arrived(arrivals, k - 1) + ps;
    }
  }

  // Some arrivals and a take.
  lemma PushThenTake(steps: seq<RingStep>, ps: seq<Packet>)
    requires RingRun(steps).budget > 0
    ensures var s, s' := RingRun(steps), RingRun(steps + Pushes(ps) + [Take]);
            var full := RingPushAll(s.ring, ps);
            && |full| > 0 && s'.ring == full[1..] && s'.popped == s.popped + [full[0]]
            && s'.pushed == s.pushed + ps && s'.budget == s.budget - 1
  {
    hide RingRun, RingPushAll, RingNext, RingInv;
    var mid := steps + Pushes(ps);
    RunOfPushes(steps, ps);
    InterleavingIsSafe(mid);
    RingHasPushed(RingRun(mid));
    OneMoreStep(mid, Take);
    TakeTakes(RingRun(mid));
  }

  /** Counting allows as many takes as there are packets on the ring. */
  lemma CountCounts(s: RingState)
    requires s.budget == 0
    ensures RingNext(s, Count) == s.(budget := |s.ring|)
  {
  }

  lemma RingHasPushed(s: RingState)
    requires RingInv(s.ring, s.pushed, s.popped, s.positions)
    ensures |s.ring| <= |s.pushed|
  {
  }

  lemma NextTaken(ring: seq<Packet>, arrivals: seq<seq<Packet>>, k: nat)
    ensures k == 0 ==> RingTaken(ring, arrivals, k) == (ring, [])
    ensures k > 0 ==>
              var before := RingTaken(ring, arrivals, k - 1);
              var full := RingPushAll(before.0, Arrival(arrivals, k - 1));
              RingTaken(ring, arrivals, k) == if |full| == 0 then before else (full[1..], before.1 + [full[0]])
  {
  }

  lemma OverwriteStep(s: RingState, step: RingStep)
    requires |s.ring| <= |s.pushed|
    ensures var s', full := RingNext(s, step), step.Push? && |s.ring| == MAX_NET_CIRC_BUFFER;
            && |s'.pushed| - |s'.popped| - |s'.ring| == |s.pushed| - |s.popped| - |s.ring| + (if full then 1 else 0)
            && (s.popped + s.ring == s.pushed && !full ==> s'.popped + s'.ring == s'.pushed)
  {
    var s' := RingNext(s, step);
    if step.Push? {
      assert s.popped + (s.ring + [step.p]) == (s.popped + s.ring) + [step.p];
    } else if step.Take? && |s.ring| > 0 {
      assert (s.popped + [s.ring[0]]) + s.ring[1..] == s.popped + s.ring;
    }
  }

  /** No packet is lost if and only if the ring was never full when one arrived. */
  lemma {:induction false} LosslessIffNeverFull(steps: seq<RingStep>)
    ensures var s := RingRun(steps); s.popped + s.ring == s.pushed <==> !Overflowed(steps)
    ensures var s := RingRun(steps);
            |s.popped| + |s.ring| <= |s.pushed| && (Overflowed(steps) ==> |s.popped| + |s.ring| < |s.pushed|)
  {
    if |steps| == 0 {
    } else {
      var init, step := steps[..|steps| - 1], steps[|steps| - 1];
      LosslessIffNeverFull(init);
      InterleavingIsSafe(init);
      OverflowStep(steps);
      OverwriteStep(RingRun(init), step);
      var s := RingRun(steps);
      assert s.popped + s.ring == s.pushed ==> |s.popped| + |s.ring| == |s.pushed|;
    }
  }

  lemma OverflowStep(steps: seq<RingStep>)
    requires |steps| > 0
    ensures var init, step := steps[..|steps| - 1], steps[|steps| - 1];
            Overflowed(steps) <==>
            Overflowed(init) || (step.Push? && |RingRun(init).ring| == MAX_NET_CIRC_BUFFER)
  {
    hide RingRun;
    var n := |steps| - 1;
    var init := steps[..n];
    assert forall k :: 0 <= k < n ==> steps[..k] == init[..k] && steps[k] == init[k];
    if Overflowed(steps) {
      var k :| 0 <= k <= n && steps[k].Push? && |RingRun(steps[..k]).ring| == MAX_NET_CIRC_BUFFER;
      if k < n {
        assert init[k].Push? && |RingRun(init[..k]).ring| == MAX_NET_CIRC_BUFFER;
      }
    }
    if Overflowed(init) {
      var k :| 0 <= k < n && init[k].Push? && |RingRun(init[..k]).ring| == MAX_NET_CIRC_BUFFER;
      assert steps[k].Push? && |RingRun(steps[..k]).ring| == MAX_NET_CIRC_BUFFER;
    }
    if steps[n].Push? && |RingRun(init).ring| == MAX_NET_CIRC_BUFFER {
      assert steps[..n] == init;
    }
  }
}
