/** Where the source falls short of its purpose: the exact condition each time, and an input. */
module Shortfalls {
  import opened SnapFormat
  import opened Reassembly
  import opened ReassemblyTheorems
  import opened LossAccounting
  import opened Streams
  import opened SourceRuns
  import opened Reports
  import opened NetRing
  import opened SnapSource

  // --- Filling and counting -------------------------------------------------------------------------

  /** The number of timestamps filled in is the number counted as missing exactly for a jump of 16 to
      31, or for a longer one on the grid of 16 and within the cap. */
  lemma FillMatchesCountIff(l: nat, s: nat)
    requires 0 < l < s < TWO_64
    ensures Fill(l, s) == MissedSets(l, s) <==>
            16 <= s - l && (s - l < 32 || ((s - l) % 16 == 0 && (s - l) / 16 - 1 <= MAX_MISSED_SETS))
  {
  }

  /** A jump below 16 wraps the unsigned count around; a gap beyond the cap is counted and not filled;
      off the grid one timestamp more is filled in than is counted. */
  lemma FillMissesCountAt()
    ensures MissedSets(16, 17) == TWO_64 - 1 && Fill(16, 17) == 0
    ensures MissedSets(16, 16 + 16 * 30000) == 29999 && Fill(16, 16 + 16 * 30000) == 0
    ensures MissedSets(16, 49) == 1 && Fill(16, 49) == 2
    ensures MissedSets(16, 33) == Fill(16, 33) == 0
  {
  }

  /** 20000 missing timestamps are filled in, 20001 are not: two packets that far apart leave 20002 blocks
      on the queue, or two. */
  lemma CapInNumbers(a: Packet, b: Packet)
    requires a.ts == 16
    ensures Fill(16, 16 + 16 * 20001) == 20000 && Fill(16, 16 + 16 * 20002) == 0
    ensures b.ts == 16 + 16 * 20001 ==> |Tags(ONE, [a, b])| == 16 * 20002
    ensures b.ts == 16 + 16 * 20002 ==> |Tags(ONE, [a, b])| == 16 * 2
  {
    hide Tags;
    if a.ts < b.ts {
      TwoPackets(ONE, a, b);
    }
  }

  // --- The loop that fills in -------------------------------------------------------------------------

  // The loop counter after k more turns.
  function FillCounter(l: nat, k: nat): nat { (l + 16 * (k + 1)) % TWO_64 }

  lemma FillCounterRemainder(l: nat, k: nat)
    ensures FillCounter(l, k) % 16 == l % 16
    ensures FillCounter(l, k) <= TWO_64 - 16 + l % 16
  {
  }

  /** The loop that fills in missing timestamps ends, once entered, if and only if some value of its
      64-bit counter reaches the packet's timestamp, which is so if and only if the timestamp is not
      above the largest counter value. */
  lemma FillLoopEndsIff(l: nat, s: nat)
    requires 0 < l < s < TWO_64
    ensures (exists k: nat :: FillCounter(l, k) >= s) <==> s <= TWO_64 - 16 + l % 16
  {
    if k: nat :| FillCounter(l, k) >= s {
      FillCounterRemainder(l, k);
    }
    if s <= TWO_64 - 16 + l % 16 {
      var k := (s - l - 1) / 16;
      assert s <= l + 16 * (k + 1) < TWO_64;
      assert FillCounter(l, k) >= s;
    }
  }

  /** On the grid of 16 it always ends. */
  lemma FillEndsOnGrid(l: nat, s: nat)
    requires 0 < l < s < TWO_64 && (s - l) % 16 == 0
    ensures s <= TWO_64 - 16 + l % 16 && FillEnds(l, s)
  {
  }

  /** Here one timestamp is missing, the counter steps from 2^64 - 8 to 8, and the loop never ends. */
  lemma FillLoopEndlessAt(k: nat)
    ensures var l, s := TWO_64 - 40, TWO_64 - 1;
            && MissedSets(l, s) == 1 && !FillEnds(l, s)
            && FillCounter(l, 1) == TWO_64 - 8 && FillCounter(l, 2) == 8
            && FillCounter(l, k) < s
  {
    FillCounterRemainder(TWO_64 - 40, k);
  }

  // --- Frames stamped zero ------------------------------------------------------------------------------

  // Timestamps that move on without a gap, possibly from zero.
  predicate NextInTime(l: nat, s: nat)
  {
    s == l || (l < s && (s - l) % 16 == 0 && (s - l) / 16 - 1 <= MAX_MISSED_SETS)
  }

  ghost predicate FrameSteps(ps: seq<Packet>)
  {
    forall i, j :: 0 <= i < j < |ps| && j == i + 1 ==> NextInTime(ps[i].ts, ps[j].ts)
  }

  // The same packets under another timestamp.
  function Restamped(p: Packet, ts: nat): Packet
    requires ts < TWO_64
  {
    RawPacket(p.chan, ts, p.data)
  }

  function Restamp(ps: seq<Packet>, ts: nat): (r: seq<Packet>)
    requires ts < TWO_64
    ensures |r| == |ps|
  {
    seq(|ps|, i requires 0 <= i < |ps| => Restamped(ps[i], ts))
  }

  ghost predicate AllZero(ps: seq<Packet>) { forall p :: p in ps ==> p.ts == 0 }

  // zs are stamped zero, and rs, if any, start at ts.
  ghost predicate ZerosThen(zs: seq<Packet>, rs: seq<Packet>, ts: nat)
  {
    AllZero(zs) && 0 < ts < TWO_64 && (|rs| > 0 ==> rs[0].ts == ts)
  }

  lemma SameClosing(g: Geometry, zs: seq<Packet>, rs: seq<Packet>, ts: nat, p: Packet)
    requires ZerosThen(zs, rs + [p], ts)
    ensures Closes(g, zs + rs, p) == Closes(g, Restamp(zs, ts) + rs, p)
    ensures Fill(LastTs(zs + rs), p.ts) == Fill(LastTs(Restamp(zs, ts) + rs), p.ts)
  {
    assert (rs + [p])[0].ts == ts;
    if |rs| == 0 {
      assert zs + rs == zs && Restamp(zs, ts) + rs == Restamp(zs, ts);
      if |zs| > 0 {
        assert zs[|zs| - 1] in zs;
      }
    }
  }

  lemma NeverCloses(g: Geometry, zs: seq<Packet>, p: Packet, ts: nat)
    requires 0 < ts < TWO_64 && AllZero(zs) && p.ts == 0
    ensures !Closes(g, zs, p) && Fill(LastTs(zs), p.ts) == 0
    ensures var zs', p' := Restamp(zs, ts) + [], Restamped(p, ts);
            !Closes(g, zs', p') && Fill(LastTs(zs'), p'.ts) == 0
  {
    assert Restamp(zs, ts) + [] == Restamp(zs, ts);
    if |zs| > 0 {
      assert zs[|zs| - 1] in zs;
    }
  }

  lemma BufCellMore(g: Geometry, lane: Lane, q: seq<Packet>, p: Packet, t: nat, r: int)
    requires t < 16
    ensures BufCell(g, lane, q + [p], t, r) ==
            if Covers(g, p, r) then Cell(lane, p, t, r - Offset(g, p))
            else if Closes(g, q, p) then 0
            else BufCell(g, lane, q, t, r)
  {
    assert (q + [p])[..|q|] == q;
  }

  lemma RestampedCell(g: Geometry, lane: Lane, p: Packet, ts: nat, t: nat, r: int)
    requires ts < TWO_64 && t < 16
    ensures Covers(g, Restamped(p, ts), r) <==> Covers(g, p, r)
    ensures Covers(g, p, r) ==>
              Cell(lane, Restamped(p, ts), t, r - Offset(g, Restamped(p, ts))) == Cell(lane, p, t, r - Offset(g, p))
  {
  }

  lemma SplitOff(zs: seq<Packet>, rs: seq<Packet>, ts: nat)
    requires ZerosThen(zs, rs, ts)
    ensures |rs| > 0 ==>
              var q, p := rs[..|rs| - 1], rs[|rs| - 1];
              && rs == q + [p] && ZerosThen(zs, q, ts)
              && zs + rs == zs + q + [p] && Restamp(zs, ts) + rs == Restamp(zs, ts) + q + [p]
    ensures |rs| == 0 && |zs| > 0 ==>
              var z, p := zs[..|zs| - 1], zs[|zs| - 1];
              && AllZero(z) && p.ts == 0 && z + [] == z
              && zs + rs == z + [p] && Restamp(zs, ts) + rs == Restamp(z, ts) + [] + [Restamped(p, ts)]
    ensures |rs| == 0 && |zs| == 0 ==> zs + rs == Restamp(zs, ts) + rs
  {
    if |rs| == 0 && |zs| > 0 {
      assert zs == zs[..|zs| - 1] + [zs[|zs| - 1]];
      assert zs[|zs| - 1] in zs;
    }
  }

  lemma {:induction false} RestampCell(g: Geometry, lane: Lane, zs: seq<Packet>, rs: seq<Packet>, ts: nat,
                                       t: nat, r: int)
    requires ZerosThen(zs, rs, ts) && t < 16
    ensures BufCell(g, lane, zs + rs, t, r) == BufCell(g, lane, Restamp(zs, ts) + rs, t, r)
    decreases |zs| + |rs|
  {
    hide BufCell, Cell, Closes, Covers, Offset, Restamped, Restamp, Fill;
    SplitOff(zs, rs, ts);
    if |rs| > 0 {
      var q, p := rs[..|rs| - 1], rs[|rs| - 1];
      RestampCell(g, lane, zs, q, ts, t, r);
      SameClosing(g, zs, q, ts, p);
      BufCellMore(g, lane, zs + q, p, t, r);
      BufCellMore(g, lane, Restamp(zs, ts) + q, p, t, r);
    } else if |zs| > 0 {
      var z, p := zs[..|zs| - 1], zs[|zs| - 1];
      RestampCell(g, lane, z, [], ts, t, r);
      NeverCloses(g, z, p, ts);
      RestampedCell(g, lane, p, ts, t, r);
      BufCellMore(g, lane, z, p, t, r);
      BufCellMore(g, lane, Restamp(z, ts) + [], Restamped(p, ts), t, r);
    }
  }

  lemma RestampFrame(g: Geometry, lane: Lane, zs: seq<Packet>, rs: seq<Packet>, ts: nat)
    requires ZerosThen(zs, rs, ts)
    ensures Frame(g, lane, zs + rs) == Frame(g, lane, Restamp(zs, ts) + rs)
  {
    hide BufCell;
    forall t: nat | t < 16
      ensures Row(g, lane, zs + rs, t) == Row(g, lane, Restamp(zs, ts) + rs, t)
    {
      forall r | 0 <= r < VecLen(g)
        ensures BufCell(g, lane, zs + rs, t, r) == BufCell(g, lane, Restamp(zs, ts) + rs, t, r)
      {
        RestampCell(g, lane, zs, rs, ts, t, r);
      }
    }
  }

  /** Multi-packet mode: packets stamped zero are treated, cell by cell, as packets of the next
      timestamp. Zero stands for no timestamp yet. */
  lemma {:induction false} ZeroFrameMerges(g: Geometry, lane: Lane, zs: seq<Packet>, rs: seq<Packet>, ts: nat)
    requires !OnePacket(g) && ZerosThen(zs, rs, ts)
    ensures Vectors(g, lane, zs + rs) == Vectors(g, lane, Restamp(zs, ts) + rs)
    ensures Frame(g, lane, zs + rs) == Frame(g, lane, Restamp(zs, ts) + rs)
    decreases |zs| + |rs|
  {
    hide Vectors, Frame, Closes, Fill, LastTs, Restamp, Restamped;
    RestampFrame(g, lane, zs, rs, ts);
    SplitOff(zs, rs, ts);
    if |rs| > 0 {
      var q, p := rs[..|rs| - 1], rs[|rs| - 1];
      ZeroFrameMerges(g, lane, zs, q, ts);
      SameClosing(g, zs, q, ts, p);
      OneMore(g, lane, zs + q, p);
      OneMore(g, lane, Restamp(zs, ts) + q, p);
    } else if |zs| > 0 {
      var z, p := zs[..|zs| - 1], zs[|zs| - 1];
      ZeroFrameMerges(g, lane, z, [], ts);
      NeverCloses(g, z, p, ts);
      OneMore(g, lane, z, p);
      OneMore(g, lane, Restamp(z, ts) + [], Restamped(p, ts));
    }
  }

  // Splits off the packets stamped zero.
  lemma {:induction false} ZeroPrefix(ps: seq<Packet>) returns (k: nat)
    requires |ps| > 0 && FrameSteps(ps) && LastTs(ps) > 0
    ensures k < |ps| && AllZero(ps[..k]) && ps[k].ts > 0
  {
    if ps[0].ts > 0 {
      k := 0;
    } else {
      hide FrameSteps;
      StepsOfRest(ps);
      var m := ZeroPrefix(ps[1..]);
      k := m + 1;
      assert ps[..k] == [ps[0]] + ps[1..][..m];
    }
  }

  lemma StepsOfRest(ps: seq<Packet>)
    requires |ps| > 0 && FrameSteps(ps)
    ensures FrameSteps(ps[1..])
  {
    var rest := ps[1..];
    forall i, j | 0 <= i < j < |rest| && j == i + 1
      ensures NextInTime(rest[i].ts, rest[j].ts)
    {
      assert rest[i] == ps[i + 1] && rest[j] == ps[j + 1];
    }
  }

  lemma RestampedIsGapFree(ps: seq<Packet>, k: nat)
    requires FrameSteps(ps) && k < |ps| && AllZero(ps[..k]) && ps[k].ts > 0
    ensures FrameGapFree(Restamp(ps[..k], ps[k].ts) + ps[k..])
  {
    var qs := Restamp(ps[..k], ps[k].ts) + ps[k..];
    LaterPositive(ps, k);
    forall i, j | 0 <= i < j < |qs| && j == i + 1
      ensures qs[j].ts == qs[i].ts || Bridgeable(qs[i].ts, qs[j].ts)
    {
      if i >= k {
        assert qs[i] == ps[i] && qs[j] == ps[j];
      } else {
        assert qs[i].ts == ps[k].ts == qs[j].ts;
      }
    }
  }

  lemma LaterPositive(ps: seq<Packet>, k: nat)
    requires FrameSteps(ps) && k < |ps| && ps[k].ts > 0
    ensures forall i :: k <= i < |ps| ==> ps[i].ts > 0
  {
    for i := k + 1 to |ps|
      invariant forall j :: k <= j < i ==> ps[j].ts > 0
    {
      assert ps[i].ts >= ps[i - 1].ts;
    }
  }

  /** Multi-packet mode: a stream without gaps is queued in full if and only if it does not start at
      timestamp zero. If it does, its first timestamp is missing and all up to the first positive one;
      what is queued is the stream of the packets with that timestamp in place of zero. */
  lemma MultiPacketCompleteIff(g: Geometry, lane: Lane, ps: seq<Packet>) returns (k: nat)
    requires !OnePacket(g) && |ps| > 0 && FrameSteps(ps) && LastTs(ps) != ps[0].ts
    ensures |Vectors(g, lane, ps)| == LastTs(ps) - ps[0].ts <==> ps[0].ts > 0
    ensures k < |ps| && AllZero(ps[..k]) && ps[k].ts > 0
    ensures var restamped := Restamp(ps[..k], ps[k].ts) + ps[k..];
            IsStream(g, lane, restamped, ps[k].ts, Vectors(g, lane, ps))
            && |Vectors(g, lane, ps)| == LastTs(ps) - ps[k].ts
  {
    hide Vectors, RowSpec;
    LastPositive(ps);
    k := ZeroPrefix(ps);
    var qs := Restamp(ps[..k], ps[k].ts) + ps[k..];
    assert ps == ps[..k] + ps[k..];
    ZeroFrameMerges(g, lane, ps[..k], ps[k..], ps[k].ts);
    RestampedIsGapFree(ps, k);
    MultiPacketReassembly(g, lane, qs);
    if k > 0 {
      assert ps[0] in ps[..k];
    }
  }

  lemma {:induction false} LastPositive(ps: seq<Packet>)
    requires |ps| > 0 && FrameSteps(ps)
    ensures ps[0].ts <= LastTs(ps)
  {
    if |ps| == 1 {
    } else {
      LastPositive(ps[..|ps| - 1]);
    }
  }

  // --- A sync message that is withdrawn ------------------------------------------------------------------

  lemma {:induction false} PoppedSince(g: Geometry, es: seq<Event>, more: seq<Event>) returns (ps: seq<Packet>)
    ensures State(g, es + more).popped == State(g, es).popped + ps
    ensures State(g, es + more).given >= State(g, es).given
  {
    hide Tags, PopsSafely;
    if |more| == 0 {
      assert es + more == es;
      ps := [];
    } else {
      var init, e := more[..|more| - 1], more[|more| - 1];
      assert (es + more)[..|es + more| - 1] == es + init;
      var qs := PoppedSince(g, es, init);
      var rs := PoppedGrows(g, es + more);
      ps := qs + rs;
      GivenGrows(g, es + more);
    }
  }

  lemma GivenGrows(g: Geometry, es: seq<Event>)
    requires |es| > 0
    ensures State(g, es).given >= State(g, es[..|es| - 1]).given
  {
    hide Tags, PopsSafely;
  }

  // A run in which a sync timestamp arrives and is withdrawn again.
  ghost function Withdrawn(es: seq<Event>, v: nat, more: seq<Event>): seq<Event>
  {
    es + [Message(v)] + more + [Message(0)]
  }

  lemma StateWithdrawn(g: Geometry, es: seq<Event>, v: nat, more: seq<Event>) returns (ps: seq<Packet>)
    requires v > 0 && forall e :: e in more && e.Message? ==> e.value > 0
    ensures var s, s' := State(g, es), State(g, Withdrawn(es, v, more));
            s'.popped == s.popped + ps && s'.tagq == s.tagq && s'.sync == 0 && s'.given >= s.given
  {
    hide Tags, PopsSafely, AfterWork;
    var told := es + [Message(v)];
    assert told[..|told| - 1] == es;
    ps := PoppedSince(g, told, more);
    SyncFreezesTags(g, PackedXY, told, more);
    var run := Withdrawn(es, v, more);
    assert run[..|run| - 1] == told + more;
  }

  // No tag was or would have been queued in between, and nothing was delivered.
  predicate Idle(g: Geometry, s: Src, s': Src)
  {
    s'.given == s.given && |Tags(g, s'.popped)| == |Tags(g, s.popped)|
  }

  ghost predicate NoGaps(g: Geometry, ps: seq<Packet>) { if OnePacket(g) then GapFree(ps) else FrameGapFree(ps) }

  /** A sync timestamp was withdrawn by a zero message. If nothing was delivered and no tag would have
      been queued in between, or the queue was empty before and is empty now, tags and vectors are in
      step, whatever the packets; and on gap-free packets, in both modes, only then. In one-packet mode
      no tag would have been queued only if no packet was taken. */
  lemma ZeroMessageInStepIff(g: Geometry, es: seq<Event>, v: nat, more: seq<Event>)
    requires v > 0 && forall e :: e in more && e.Message? ==> e.value > 0
    requires InStep(g, State(g, es)) && State(g, es).sync == 0
    ensures var s, s' := State(g, es), State(g, Withdrawn(es, v, more));
            && (Idle(g, s, s') || (Queued(g, s) == 0 && Queued(g, s') == 0) ==> InStep(g, s'))
            && (NoGaps(g, s'.popped) && InStep(g, s') ==> Idle(g, s, s') || (Queued(g, s) == 0 && Queued(g, s') == 0))
            && (OnePacket(g) && Idle(g, s, s') ==> s'.popped == s.popped)
  {
    hide State, NoGaps, Tags;
    var ps := StateWithdrawn(g, es, v, more);
    var s, s' := State(g, es), State(g, Withdrawn(es, v, more));
    if Idle(g, s, s') || (Queued(g, s) == 0 && Queued(g, s') == 0) {
      SameTagsMatch(g, s.popped, ps, s.given, s'.given);
    }
    if NoGaps(g, s'.popped) && InStep(g, s') {
      StaleTagsMatchOnlyIf(g, s.popped, ps, s.given, s'.given);
    }
    if OnePacket(g) && ps != [] {
      TagsOfMore(g, s.popped, ps);
    }
  }

  lemma SameTagsMatch(g: Geometry, q: seq<Packet>, ps: seq<Packet>, given: nat, given': nat)
    requires given <= |Tags(g, q)| && given' <= |Tags(g, q + ps)|
    requires (|Tags(g, q + ps)| == |Tags(g, q)| && given' == given)
             || (|Tags(g, q)| == given && |Tags(g, q + ps)| == given')
    ensures Tags(g, q)[given..] == Tags(g, q + ps)[given'..]
  {
    hide Tags;
    QueuesGrow(g, PackedXY, q, ps);
  }

  // Undelivered tags of two moments of a gap-free run are the same only if nothing happened in between.
  lemma StaleTagsMatchOnlyIf(g: Geometry, q: seq<Packet>, ps: seq<Packet>, given: nat, given': nat)
    requires NoGaps(g, q + ps) && given <= |Tags(g, q)| && given' <= |Tags(g, q + ps)|
    requires given <= given' && Tags(g, q)[given..] == Tags(g, q + ps)[given'..]
    ensures || (|Tags(g, q + ps)| == |Tags(g, q)| && given' == given)
            || (|Tags(g, q)| == given && |Tags(g, q + ps)| == given')
  {
    hide NoGaps, Tags;
    var a, b := Tags(g, q), Tags(g, q + ps);
    QueuesGrow(g, PackedXY, q, ps);
    QueueLengths(g, PackedXY, q);
    QueueLengths(g, PackedXY, q + ps);
    if given < |a| {
      assert |a| - given == |b| - given' && b[given'] == b[given'..][0] == a[given..][0] == a[given] == b[given];
      SameTagSameBlock(g, q + ps, given, given');
      SameBlockTag(|a|, |b|, given, given');
    }
  }

  // On gap-free packets two blocks never have the same tag.
  lemma SameTagSameBlock(g: Geometry, ps: seq<Packet>, j: nat, k: nat)
    requires NoGaps(g, ps) && j <= k < |Tags(g, ps)| && Tags(g, ps)[j] == Tags(g, ps)[k]
    ensures j / 16 == k / 16
  {
    hide Tags, GapFree, FrameGapFree;
    if ps == [] {
      NoTagsYet(g);
      assert false;
    } else if OnePacket(g) {
      TagsGapFreeIff(g, ps);
    } else {
      MultiPacketTag(g, ps, j);
      MultiPacketTag(g, ps, k);
      TagsDiffer(ps, ps[0].ts + 16 * (j / 16), ps[0].ts + 16 * (k / 16), Tags(g, ps)[j]);
    }
  }

  lemma TagsDiffer(ps: seq<Packet>, ts: nat, ts': nat, tag: nat)
    requires ts <= ts'
    requires if Received(ps, ts) then NextReceived(ps, ts, tag) else tag == ts
    requires if Received(ps, ts') then NextReceived(ps, ts', tag) else tag == ts'
    ensures ts == ts'
  {
  }

  lemma SameBlockTag(a: nat, b: nat, given: nat, given': nat)
    requires a % 16 == 0 && b % 16 == 0 && a - given == b - given' && given / 16 == given' / 16
    ensures given == given' && a == b
  {
  }

  // One-packet mode queues something for every packet.
  lemma {:induction false} TagsOfMore(g: Geometry, q: seq<Packet>, ps: seq<Packet>)
    requires OnePacket(g) && ps != []
    ensures |Tags(g, q + ps)| > |Tags(g, q)|
  {
    hide Fill, Vectors;
    var init, p := ps[..|ps| - 1], ps[|ps| - 1];
    assert q + ps == q + init + [p];
    OneMore(g, PackedXY, q + init, p);
    QueuesGrow(g, PackedXY, q, init);
  }

  // --- The failures at an input --------------------------------------------------------------------------

  // Packets without any signal.
  function Silent(ts: nat): Packet
    requires ts < TWO_64
  {
    SilentOn(0, ts)
  }

  function SilentOn(chan: nat, ts: nat): Packet
    requires ts < TWO_64
  {
    RawPacket(chan, ts, seq(8192, i => 0))
  }

  const ONE := RawGeometry(0, 1)
  const TWO := RawGeometry(0, 2)

  // What two and three packets queue.
  lemma TwoPackets(g: Geometry, a: Packet, b: Packet)
    requires a.ts < b.ts
    ensures Fill(0, a.ts) == 0
    ensures Tags(g, [a]) == if OnePacket(g) then SameTag(a.ts) else []
    ensures Tags(g, [a, b]) ==
            if OnePacket(g) then SameTag(a.ts) + FillTags(a.ts, 16 * Fill(a.ts, b.ts)) + SameTag(b.ts)
            else if a.ts > 0 then SameTag(b.ts) + FillTags(a.ts, 16 * Fill(a.ts, b.ts))
            else []
  {
    hide Vectors;
    assert [] + [a] == [a] && [a] + [b] == [a, b];
    OneMore(g, PackedXY, [], a);
    OneMore(g, PackedXY, [a], b);
  }

  lemma ShortJump()
    ensures Fill(16, 40) == 0
  {
  }

  /** One-packet mode: a packet off its predecessor's grid breaks the count of the tags. */
  lemma OffGridTagsAt()
    ensures Tags(ONE, [Silent(16), Silent(40)]) == SameTag(16) + SameTag(40)
    ensures !TagsInStep(16, Tags(ONE, [Silent(16), Silent(40)]))
  {
    hide Tags, Fill;
    TwoPackets(ONE, Silent(16), Silent(40));
    assert Fill(16, 40) == 0 by {
      ShortJump();
    }
    var tags := SameTag(16) + FillTags(16, 0) + SameTag(40);
    assert tags == SameTag(16) + SameTag(40) && tags[16] == 40;
  }

  /** Multi-packet mode: the frame of timestamp 16 is queued under the tag 32. */
  lemma WrongTagAt(lane: Lane)
    ensures var ps := [Silent(16), Silent(32)];
            IsStream(TWO, lane, ps, 16, Vectors(TWO, lane, ps)) && |Vectors(TWO, lane, ps)| == 16
            && Tags(TWO, ps) == SameTag(32)
  {
    hide Vectors, Tags;
    MultiPacketReassembly(TWO, lane, [Silent(16), Silent(32)]);
    TwoPackets(TWO, Silent(16), Silent(32));
    assert SameTag(32) + FillTags(16, 0) == SameTag(32);
  }

  /** Multi-packet mode: of the timestamps 0, 16, 32 only the frame of 16 is queued, not that of 0. */
  lemma StreamFromZeroAt(lane: Lane)
    ensures FrameSteps([Silent(0), Silent(16), Silent(32)])
    ensures |Vectors(TWO, lane, [Silent(0), Silent(16), Silent(32)])| == 16
  {
    hide Tags, Vectors;
    var ps := [Silent(0), Silent(16), Silent(32)];
    QueueLengths(TWO, lane, ps);
    ThreePackets(TWO, ps[0], ps[1], ps[2]);
  }

  lemma ThreePackets(g: Geometry, a: Packet, b: Packet, c: Packet)
    requires !OnePacket(g) && a.ts == 0 && b.ts == 16 && c.ts == 32
    ensures |Tags(g, [a, b, c])| == 16
  {
    hide Vectors, Tags;
    TwoPackets(g, a, b);
    assert [a, b] + [c] == [a, b, c];
    OneMore(g, PackedXY, [a, b], c);
  }

  // A call at the start of a run.
  lemma FirstCall(g: Geometry, sync: nat, ps: seq<Packet>, noutput: nat)
    requires |ps| > 0 && |Tags(g, ps[..|ps| - 1])| < noutput
    ensures var s := FRESH.(sync := sync);
            && Demanded(g, s, ps, noutput) && PopsSafely(g, s, ps, noutput)
            && AfterWork(g, s, ps, noutput).popped == ps
            && AfterWork(g, s, ps, noutput).given == Min(noutput, |Tags(g, ps)|)
  {
    hide Tags;
    assert [] + ps[..|ps| - 1] == ps[..|ps| - 1] && [] + ps == ps;
    NoTagsYet(g);
    WorkInStep(g, FRESH.(sync := sync), ps, noutput);
  }

  lemma FirstCallOfTwo(g: Geometry, sync: nat, a: Packet, b: Packet, noutput: nat)
    requires OnePacket(g) && a.ts < b.ts && 16 < noutput
    ensures var s := FRESH.(sync := sync);
            && Demanded(g, s, [a, b], noutput) && PopsSafely(g, s, [a, b], noutput)
            && AfterWork(g, s, [a, b], noutput).popped == [a, b]
            && AfterWork(g, s, [a, b], noutput).given == Min(noutput, |Tags(g, [a, b])|)
  {
    hide Tags;
    assert [a, b][..1] == [a];
    TwoPackets(g, a, b);
    FirstCall(g, sync, [a, b], noutput);
  }

  lemma NoTagsYet(g: Geometry)
    ensures Tags(g, []) == [] && Lost(g, []) == 0 && FramePackets(g, []) == 0
  {
  }

  // A run of one call.
  lemma OneCall(g: Geometry, ps: seq<Packet>, noutput: nat)
    requires Demanded(g, FRESH, ps, noutput) && PopsSafely(g, FRESH, ps, noutput)
    ensures var es := [Work(ps, noutput)];
            && Legal(g, es) && State(g, es) == AfterWork(g, FRESH, ps, noutput)
            && Counted(g, es) == ToInt32(Lost(g, State(g, es).popped))
            && Reported(g, es) == Noticed(ToInt32(Lost(g, State(g, es).popped)))
            && forall least :: LossesFit(g, es, least) <==> least <= Lost(g, State(g, es).popped) <= MAX_INT32
  {
    hide Tags, Demanded, PopsSafely, AfterWork, Lost, ToInt32;
    NoTagsYet(g);
    assert [Work(ps, noutput)][..0] == [] && State(g, []) == FRESH && Reported(g, []) == Counted(g, []) == 0;
  }

  /** One call that takes a packet and the one 2^31 + 1 timestamps later loses 2^31, counts that as a
      negative number, and reports nothing. */
  lemma ReportOverflowsAt()
    ensures var ps := [Silent(16), Silent(16 + 16 * (0x8000_0000 + 1))];
            var es := [Work(ps, 32)];
            && Legal(ONE, es) && State(ONE, es).popped == ps
            && Lost(ONE, ps) == 0x8000_0000 && Counted(ONE, es) == -0x8000_0000 && Reported(ONE, es) == 0
            && !SpansFit(ONE, es, MIN_INT32)
  {
    hide Tags, Demanded, PopsSafely, AfterWork, Sent, Lost, SpansFit;
    var ps := [Silent(16), Silent(16 + 16 * (0x8000_0000 + 1))];
    FirstCallOfTwo(ONE, 0, ps[0], ps[1], 32);
    OneCall(ONE, ps, 32);
    OnePacketLoss(ONE, ps);
    RunConservesOnePacket(ONE, [Work(ps, 32)]);
  }

  /** Three packets of a frame of two, one of them repeated, then a packet that closes the frame: the
      call counts -1 and reports nothing, and 0 reported and 3 received are not the 2 sent. */
  lemma RepeatedPacketAt()
    ensures var ps := [SilentOn(0, 16), SilentOn(0, 16), SilentOn(256, 16), SilentOn(0, 32)];
            var es := [Work(ps, 16)];
            && Legal(TWO, es) && State(TWO, es).popped == ps && LaterFrames(ps)
            && Counted(TWO, es) == -1 && Reported(TWO, es) == 0
            && InClosedFrames(TWO, ps) == 3 && Sent(TWO, ps) == 2
            && SpansFit(TWO, es, MIN_INT32) && !SpansFit(TWO, es, 0)
  {
    hide Tags, Demanded, PopsSafely, AfterWork, Lost, SpansFit, FramePackets, State, Legal, Counted, Reported,
         LossesFit;
    var a, b, c := SilentOn(0, 16), SilentOn(256, 16), SilentOn(0, 32);
    var ps := [a, a, b, c];
    FourPackets(a, b, c);
    assert ps[..3] == [a, a, b];
    FirstCall(TWO, 0, ps, 16);
    OneCall(TWO, ps, 16);
    var es := [Work(ps, 16)];
    RunConservesMultiPacket(TWO, es);
    SpansFitIff(TWO, es, MIN_INT32);
  }

  lemma FourPackets(a: Packet, b: Packet, c: Packet)
    requires a.ts == b.ts == 16 && c.ts == 32
    ensures |Tags(TWO, [a, a, b])| < 16
    ensures FramePackets(TWO, [a, a, b, c]) == 1 && Lost(TWO, [a, a, b, c]) == -1
  {
    hide Tags, Lost, FramePackets;
    assert [] + [a] == [a] && [a] + [a] == [a, a] && [a, a] + [b] == [a, a, b] && [a, a, b] + [c] == [a, a, b, c];
    NoTagsYet(TWO);
    Joins(TWO, [], a);
    Joins(TWO, [a], a);
    Joins(TWO, [a, a], b);
    LossOfOneMore(TWO, [a, a, b], c);
  }

  // A packet of the open frame queues nothing and loses nothing.
  lemma Joins(g: Geometry, q: seq<Packet>, p: Packet)
    requires !OnePacket(g) && (q == [] || p.ts == LastTs(q))
    ensures Tags(g, q + [p]) == Tags(g, q) && Lost(g, q + [p]) == Lost(g, q)
    ensures FramePackets(g, q + [p]) == FramePackets(g, q) + 1
  {
    hide Vectors, Tags, Lost, FramePackets, MissedSets;
    OneMore(g, PackedXY, q, p);
  }

  /** A capture of two packets, read by one call that asks for 32 of the 64 vectors queued: the other 32
      are never delivered. */
  lemma CaptureEndsEarlyAt(lane: Lane)
    ensures var es := [Work([Silent(16), Silent(64)], 32)];
            && Legal(ONE, es) && Queued(ONE, State(ONE, es)) == 32
            && Vecs(Delivered(ONE, lane, es)) != Vectors(ONE, lane, State(ONE, es).popped)
  {
    hide Tags, Demanded, PopsSafely, AfterWork, Vectors, Delivered, Vecs, Fill;
    var ps := [Silent(16), Silent(64)];
    FirstCallOfTwo(ONE, 0, ps[0], ps[1], 32);
    OneCall(ONE, ps, 32);
    TwoOfFour(ps[0], ps[1]);
    assert [] + [Work(ps, 32)] == [Work(ps, 32)] && State(ONE, []) == FRESH;
    hide State;
    AllDeliveredIff(ONE, lane, [], ps, 32);
  }

  lemma TwoOfFour(a: Packet, b: Packet)
    requires a.ts == 16 && b.ts == 64
    ensures |Tags(ONE, [a, b])| == 64
  {
    hide Tags;
    TwoPackets(ONE, a, b);
  }

  /** Tags can match although packets were taken and delivered, if the packets go back in time: here 32
      of 64 tags are left, the same two packets are taken again and 64 vectors more delivered. */
  lemma StaleTagsMatchAt()
    ensures var q := [Silent(16), Silent(64)];
            !NoGaps(ONE, q + q) && |Tags(ONE, q)| == 64 && |Tags(ONE, q + q)| == 128
            && Tags(ONE, q)[32..] == Tags(ONE, q + q)[96..]
  {
    hide Tags;
    var a, b := Silent(16), Silent(64);
    TwoPackets(ONE, a, b);
    BackInTime(a, b);
    assert [a, b] + [a, b] == [a, b, a, b];
    assert !Bridgeable([a, b, a, b][1].ts, [a, b, a, b][2].ts);
  }

  lemma BackInTime(a: Packet, b: Packet)
    requires a.ts == 16 && b.ts == 64
    ensures Tags(ONE, [a, b, a, b]) == Tags(ONE, [a, b]) + Tags(ONE, [a, b])
  {
    hide Tags, Vectors;
    TwoPackets(ONE, a, b);
    assert [a, b] + [a] == [a, b, a] && [a, b, a] + [b] == [a, b, a, b];
    OneMore(ONE, PackedXY, [a, b], a);
    OneMore(ONE, PackedXY, [a, b, a], b);
  }

  /** The network path puts a packet above the channel range on the ring, and the call that takes it
      writes outside its buffer. */
  lemma OutOfRangeAt()
    ensures var p := SilentOn(512, 16);
            && RingPush([], p) == [p] && !Accepted(ONE, p)
            && !CallDefined(ONE, FRESH, [p], [], 16)
  {
    hide PopsSafely, Tags, RingTaken, Demanded, LastDefined;
    var p := SilentOn(512, 16);
    TakesOne(p);
    DemandsOne(p, 16);
    assert FRESH.popped + [p] == [p];
    OutsideIsUndefined(p);
  }

  lemma TakesOne(p: Packet)
    ensures RingTaken([p], [], 1).1 == [p]
  {
    assert RingTaken([p], [], 0) == ([p], []) && RingPushAll([p], []) == [p] && [] + [p] == [p];
  }

  lemma DemandsOne(p: Packet, noutput: nat)
    requires noutput > 0
    ensures Demanded(ONE, FRESH, [p], noutput)
  {
    NoTagsYet(ONE);
    hide Tags;
    assert FRESH.popped + [p][..0] == [];
  }

  lemma OutsideIsUndefined(p: Packet)
    requires !Accepted(ONE, p)
    ensures !LastDefined(ONE, [p])
  {
  }

  /** A sync timestamp arrives, a call queues 64 vectors without tags and delivers 32, the timestamp is
      withdrawn: the next call pops a tag from an empty queue. */
  lemma MissingTagsAt()
    ensures var es := [Message(7), Work([Silent(16), Silent(64)], 32), Message(0)];
            && Legal(ONE, es) && Queued(ONE, State(ONE, es)) == 32 && State(ONE, es).tagq == []
            && !InStep(ONE, State(ONE, es)) && !PopsSafely(ONE, State(ONE, es), [], 16)
  {
    hide Tags, Demanded, PopsSafely, AfterWork;
    var ps := [Silent(16), Silent(64)];
    var es := [Message(7), Work(ps, 32), Message(0)];
    assert es[..1][..0] == [] && State(ONE, []) == FRESH;
    assert es[..2][..1] == es[..1] && State(ONE, es[..1]) == FRESH.(sync := 7);
    FirstCallOfTwo(ONE, 7, ps[0], ps[1], 32);
    assert State(ONE, es[..2]) == AfterWork(ONE, FRESH.(sync := 7), ps, 32);
    assert Legal(ONE, es[..1]) && Legal(ONE, es[..2]);
    TwoPackets(ONE, ps[0], ps[1]);
    var s := State(ONE, es);
    WorkFrozen(ONE, FRESH.(sync := 7), ps, 32);
    Stale(ONE, s);
  }

  lemma Stale(g: Geometry, s: Src)
    requires s.sync == 0 && s.tagq == [] && Queued(g, s) == 32
    ensures !InStep(g, s) && !PopsSafely(g, s, [], 16)
  {
    hide Tags;
    assert s.popped + [] == s.popped;
    assert Tags(g, s.popped)[|Tags(g, s.popped)|..] == [];
  }
}
