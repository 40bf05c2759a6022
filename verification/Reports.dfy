/** The counts of missing packets that the calls of a run make and report, and when they add up to the
    truth. */
module Reports {
  import opened SnapFormat
  import opened Reassembly
  import opened SourceRuns
  import opened LossAccounting
  import opened FrameLayout

  // The 32-bit missing counts of the calls of a run, added up.
  ghost function Counted(g: Geometry, es: seq<Event>): int
  {
    if |es| == 0 then 0
    else Counted(g, es[..|es| - 1]) + ToInt32(LossOfLast(g, es))
  }

  // What the calls report, added up.
  ghost function Reported(g: Geometry, es: seq<Event>): nat
  {
    if |es| == 0 then 0
    else Reported(g, es[..|es| - 1]) + Noticed(ToInt32(LossOfLast(g, es)))
  }

  // The loss of the last call, before it is cut down to 32 bits.
  ghost function LossOfLast(g: Geometry, es: seq<Event>): int
    requires |es| > 0
  {
    Lost(g, State(g, es).popped) - Lost(g, State(g, es[..|es| - 1]).popped)
  }

  // Every call's loss is at least `least` and fits in its count.
  ghost predicate LossesFit(g: Geometry, es: seq<Event>, least: int)
  {
    |es| == 0 || (LossesFit(g, es[..|es| - 1], least) && least <= LossOfLast(g, es) <= MAX_INT32)
  }

  lemma OneReport(x: int, before: int)
    requires before % TWO_32 == 0
    ensures (before + ToInt32(x) - x) % TWO_32 == 0
    ensures MIN_INT32 <= x <= MAX_INT32 ==> ToInt32(x) == x
    ensures x >= 0 ==> Noticed(ToInt32(x)) <= x && (Noticed(ToInt32(x)) == x <==> x <= MAX_INT32)
  {
  }

  // A call takes further packets or none.
  lemma PoppedGrows(g: Geometry, es: seq<Event>) returns (more: seq<Packet>)
    requires |es| > 0
    ensures State(g, es).popped == State(g, es[..|es| - 1]).popped + more
  {
    hide Tags, PopsSafely, Returned;
    var s, e := State(g, es[..|es| - 1]), es[|es| - 1];
    more := if e.Work? && PopsSafely(g, s, e.taken, e.noutput) then e.taken else [];
  }

  /** However a run is split into calls, the missing counts add up to the loss of the whole stream up to
      multiples of 2^32, and to the loss itself if no call's count overflows. */
  lemma {:induction false} CountsAddUp(g: Geometry, es: seq<Event>)
    ensures (Counted(g, es) - Lost(g, State(g, es).popped)) % TWO_32 == 0
    ensures LossesFit(g, es, MIN_INT32) ==> Counted(g, es) == Lost(g, State(g, es).popped)
  {
    hide State, Lost, ToInt32;
    if |es| == 0 {
      NothingLost(g);
    } else {
      var init := es[..|es| - 1];
      CountsAddUp(g, init);
      OneReport(LossOfLast(g, es), Counted(g, init) - Lost(g, State(g, init).popped));
    }
  }

  /** Only positive counts are reported. So, whatever the packets, if no call's count overflows the
      reports add up to at least the loss of the whole stream, and to exactly that if and only if no
      call's count is negative. */
  lemma {:induction false} ReportsAddUp(g: Geometry, es: seq<Event>)
    requires LossesFit(g, es, MIN_INT32)
    ensures Reported(g, es) >= Lost(g, State(g, es).popped)
    ensures Reported(g, es) == Lost(g, State(g, es).popped) <==> LossesFit(g, es, 0)
  {
    hide State, Lost, ToInt32;
    if |es| == 0 {
      NothingLost(g);
    } else {
      ReportsAddUp(g, es[..|es| - 1]);
      OneReport(LossOfLast(g, es), 0);
    }
  }

  lemma NothingLost(g: Geometry)
    ensures Lost(g, State(g, []).popped) == 0
  {
  }

  // --- Exactly when no call overflows ---------------------------------------------------------------

  // Streams in which the loss only grows: all of them in one-packet mode, and those on block
  // boundaries without repeated packets in multi-packet mode.
  ghost predicate NoRepeats(ps: seq<Packet>)
  {
    && (forall i :: 0 <= i < |ps| ==> ps[i].ts > 0)
    && (forall i, j :: 0 <= i < j < |ps| ==> ps[i].ts != ps[j].ts || ps[i].chan != ps[j].chan)
  }

  ghost predicate Orderly(g: Geometry, ps: seq<Packet>) { OnePacket(g) || (OnBlocks(g, ps) && NoRepeats(ps)) }

  lemma OrderlyPrefix(g: Geometry, ps: seq<Packet>, more: seq<Packet>)
    requires Orderly(g, ps + more)
    ensures Orderly(g, ps)
  {
    var all := ps + more;
    assert forall i :: 0 <= i < |ps| ==> all[i] == ps[i];
    assert forall p :: p in ps ==> p in all;
  }

  function Block(g: Geometry, p: Packet): int { (p.chan - g.start) / 256 }

  // The channel blocks received of the open frame.
  ghost function OpenBlocks(g: Geometry, ps: seq<Packet>): set<int>
  {
    if |ps| == 0 then {}
    else
      var p, q := ps[|ps| - 1], ps[..|ps| - 1];
      (if Closes(g, q, p) then {} else OpenBlocks(g, q)) + {Block(g, p)}
  }

  ghost predicate OfOpenFrame(g: Geometry, ps: seq<Packet>, blocks: set<int>)
  {
    forall b :: b in blocks ==> exists p :: p in ps && p.ts == LastTs(ps) && Block(g, p) == b
  }

  lemma {:induction false} BlocksOfOpenFrame(g: Geometry, ps: seq<Packet>)
    requires !OnePacket(g) && OnBlocks(g, ps) && NoRepeats(ps)
    ensures |OpenBlocks(g, ps)| == FramePackets(g, ps)
    ensures OfOpenFrame(g, ps, OpenBlocks(g, ps))
  {
    hide OnBlocks, NoRepeats, OfOpenFrame, Block, Closes;
    if |ps| == 0 {
      NoBlocks(g, ps);
    } else {
      var p, q := ps[|ps| - 1], ps[..|ps| - 1];
      assert ps == q + [p];
      OrderlyPrefix(g, q, [p]);
      BlocksOfOpenFrame(g, q);
      NextBlock(g, q, p, OpenBlocks(g, q));
    }
  }

  lemma NoBlocks(g: Geometry, ps: seq<Packet>)
    ensures OfOpenFrame(g, ps, {})
  {
  }

  lemma NextBlock(g: Geometry, q: seq<Packet>, p: Packet, blocks: set<int>)
    requires !OnePacket(g) && OnBlocks(g, q + [p]) && NoRepeats(q + [p]) && OfOpenFrame(g, q, blocks)
    ensures Closes(g, q, p) ==> OfOpenFrame(g, q + [p], {Block(g, p)})
    ensures !Closes(g, q, p) ==> Block(g, p) !in blocks && OfOpenFrame(g, q + [p], blocks + {Block(g, p)})
  {
    var ps := q + [p];
    assert p in ps && LastTs(ps) == p.ts;
    if !Closes(g, q, p) {
      assert |q| > 0 ==> ps[|q| - 1].ts == LastTs(q);
      forall b | b in blocks
        ensures b != Block(g, p)
        ensures exists z :: z in ps && z.ts == p.ts && Block(g, z) == b
      {
        var z :| z in q && z.ts == LastTs(q) && Block(g, z) == b;
        var i :| 0 <= i < |q| && q[i] == z;
        assert z in ps && ps[i] == z && ps[|q|] == p;
      }
    }
  }

  // A frame without repeats has no more packets than there are blocks.
  lemma FrameFits(g: Geometry, ps: seq<Packet>)
    requires !OnePacket(g) && OnBlocks(g, ps) && NoRepeats(ps)
    ensures FramePackets(g, ps) <= g.blocks
  {
    hide FramePackets, NoRepeats;
    BlocksOfOpenFrame(g, ps);
    forall b | b in OpenBlocks(g, ps)
      ensures b in Below(g.blocks)
    {
      var p :| p in ps && p.ts == LastTs(ps) && Block(g, p) == b;
    }
    Fewer(OpenBlocks(g, ps), Below(g.blocks));
  }

  ghost function Below(n: nat): (s: set<int>)
    ensures |s| == n && forall b :: b in s <==> 0 <= b < n
  {
    if n == 0 then {} else Below(n - 1) + {n - 1}
  }

  lemma {:induction false} Fewer<T>(a: set<T>, b: set<T>)
    requires a <= b
    ensures |a| <= |b|
  {
    if a == {} {
    } else {
      var x :| x in a;
      Fewer(a - {x}, b - {x});
    }
  }

  lemma {:induction false} LossGrows(g: Geometry, ps: seq<Packet>, more: seq<Packet>)
    requires Orderly(g, ps + more)
    ensures Lost(g, ps) <= Lost(g, ps + more)
  {
    hide Orderly, OnBlocks, NoRepeats;
    if |more| == 0 {
      assert ps + more == ps;
    } else {
      var init, p := more[..|more| - 1], more[|more| - 1];
      assert ps + more == (ps + init) + [p];
      OrderlyPrefix(g, ps + init, [p]);
      LossGrows(g, ps, init);
      OnePacketMore(g, ps + init, p);
    }
  }

  lemma OnePacketMore(g: Geometry, q: seq<Packet>, p: Packet)
    requires Orderly(g, q)
    ensures Lost(g, q) <= Lost(g, q + [p])
  {
    hide MissedSets, NoRepeats, OnBlocks;
    if !OnePacket(g) {
      FrameFits(g, q);
    }
    LossOfOneMore(g, q, p);
    if 0 < LastTs(q) < p.ts {
      Product(MissedSets(LastTs(q), p.ts), g.blocks);
    }
  }

  lemma Product(a: nat, b: nat)
    ensures a * b >= 0
  {
  }

  /** For any packets in one-packet mode, and without repeated packets in multi-packet mode, the reports
      never exceed the loss of the whole stream, and add up to it if and only if no call's count
      overflows. */
  lemma {:induction false} ReportsAddUpIff(g: Geometry, es: seq<Event>)
    requires Orderly(g, State(g, es).popped)
    ensures Reported(g, es) <= Lost(g, State(g, es).popped)
    ensures Reported(g, es) == Lost(g, State(g, es).popped) <==> LossesFit(g, es, MIN_INT32)
  {
    hide Orderly, State, Lost, ToInt32;
    if |es| == 0 {
      NothingLost(g);
    } else {
      var init := es[..|es| - 1];
      var more := PoppedGrows(g, es);
      OrderlyPrefix(g, State(g, init).popped, more);
      ReportsAddUpIff(g, init);
      LossGrows(g, State(g, init).popped, more);
      OneReport(LossOfLast(g, es), 0);
    }
  }

  // --- Conservation over a run ------------------------------------------------------------------------

  ghost predicate LaterEach(ps: seq<Packet>)
  {
    forall i, j :: 0 <= i < j < |ps| && j == i + 1 ==> LaterOnGrid(ps[i].ts, ps[j].ts)
  }

  ghost predicate LaterFrames(ps: seq<Packet>)
  {
    && (|ps| > 0 ==> ps[0].ts > 0)
    && forall i, j :: 0 <= i < j < |ps| && j == i + 1 ==> ps[j].ts == ps[i].ts || LaterOnGrid(ps[i].ts, ps[j].ts)
  }

  lemma LaterPrefix(ps: seq<Packet>, more: seq<Packet>)
    ensures LaterEach(ps + more) ==> LaterEach(ps)
    ensures LaterFrames(ps + more) ==> LaterFrames(ps)
  {
    assert forall i :: 0 <= i < |ps| ==> (ps + more)[i] == ps[i];
  }

  // Packets received in closed frames; in one-packet mode that is all of them.
  function InClosedFrames(g: Geometry, ps: seq<Packet>): int { |ps| - FramePackets(g, ps) }

  // The packets of all timestamps from the first up to the open frame, or in one-packet mode up to
  // the last.
  function Sent(g: Geometry, ps: seq<Packet>): int
  {
    if |ps| == 0 then 0
    else if OnePacket(g) then (LastTs(ps) - ps[0].ts) / 16 + 1
    else g.blocks * ((LastTs(ps) - ps[0].ts) / 16)
  }

  // The packets sent while the last call's packets arrived, less those received.
  ghost function SpanOfLast(g: Geometry, es: seq<Event>): int
    requires |es| > 0
  {
    var q, ps := State(g, es[..|es| - 1]).popped, State(g, es).popped;
    (Sent(g, ps) - Sent(g, q)) - (InClosedFrames(g, ps) - InClosedFrames(g, q))
  }

  // For every call, between `least` and 2^31 - 1 more packets were sent meanwhile than received.
  ghost predicate SpansFit(g: Geometry, es: seq<Event>, least: int)
  {
    |es| == 0 || (SpansFit(g, es[..|es| - 1], least) && least <= SpanOfLast(g, es) <= MAX_INT32)
  }

  lemma LostIsSentLessReceived(g: Geometry, ps: seq<Packet>)
    requires if OnePacket(g) then LaterEach(ps) else LaterFrames(ps)
    ensures Lost(g, ps) == Sent(g, ps) - InClosedFrames(g, ps)
  {
    hide Lost, FramePackets;
    if |ps| == 0 {
      NothingYet(g);
    } else if OnePacket(g) {
      OnePacketLoss(g, ps);
      OnePacketFrames(g, ps);
    } else {
      MultiPacketLoss(g, ps);
      SpanOnGrid(ps);
      Sixteenth(g.blocks, LastTs(ps) - ps[0].ts);
    }
  }

  lemma NothingYet(g: Geometry)
    ensures Lost(g, []) == 0 && FramePackets(g, []) == 0
  {
  }

  lemma OnePacketFrames(g: Geometry, ps: seq<Packet>)
    requires OnePacket(g)
    ensures FramePackets(g, ps) == 0
  {
  }

  lemma {:induction false} SpanOnGrid(ps: seq<Packet>)
    requires |ps| > 0 && LaterFrames(ps)
    ensures (LastTs(ps) - ps[0].ts) % 16 == 0
  {
    if |ps| == 1 {
    } else {
      var q := ps[..|ps| - 1];
      LaterPrefix(q, [ps[|ps| - 1]]);
      assert ps == q + [ps[|ps| - 1]];
      SpanOnGrid(q);
      assert ps[|q| - 1].ts == LastTs(q);
    }
  }

  lemma Sixteenth(n: nat, x: int)
    requires x % 16 == 0
    ensures n * x == 16 * (n * (x / 16))
  {
    assert x == 16 * (x / 16);
  }

  lemma {:induction false} SpansFitIff(g: Geometry, es: seq<Event>, least: int)
    requires if OnePacket(g) then LaterEach(State(g, es).popped) else LaterFrames(State(g, es).popped)
    ensures SpansFit(g, es, least) <==> LossesFit(g, es, least)
  {
    hide State, Lost, Sent, InClosedFrames, LaterEach, LaterFrames;
    if |es| == 0 {
    } else {
      var init := es[..|es| - 1];
      var more := PoppedGrows(g, es);
      LaterPrefix(State(g, init).popped, more);
      SpansFitIff(g, init, least);
      LostIsSentLessReceived(g, State(g, init).popped);
      LostIsSentLessReceived(g, State(g, es).popped);
    }
  }

  /** Conservation over a whole run, one-packet mode: what was reported missing and what was received
      are together every timestamp from the first to the last, if and only if no call spans 2^31 or
      more timestamps than it receives packets. */
  lemma RunConservesOnePacket(g: Geometry, es: seq<Event>)
    requires OnePacket(g) && |State(g, es).popped| > 0 && LaterEach(State(g, es).popped)
    ensures var ps := State(g, es).popped;
            16 * (Reported(g, es) + |ps|) == LastTs(ps) - ps[0].ts + 16 <==> SpansFit(g, es, MIN_INT32)
  {
    hide Lost, Reported, LossesFit, SpansFit, State;
    ReportsAddUpIff(g, es);
    SpansFitIff(g, es, MIN_INT32);
    OnePacketLoss(g, State(g, es).popped);
  }

  // What was reported missing and what was received in closed frames, less all packets of the
  // timestamps before the open frame.
  ghost function Surplus(g: Geometry, es: seq<Event>): int
  {
    var ps := State(g, es).popped;
    Reported(g, es) + InClosedFrames(g, ps) - Sent(g, ps)
  }

  /** Conservation over a whole run, multi-packet mode. Without repeated packets, what was reported
      missing and what was received in closed frames are together all packets of the timestamps before
      the open frame if and only if no call's count overflows. With them it can be more, if no call's
      count overflows, and is just that if and only if no call receives more packets than were sent. */
  lemma RunConservesMultiPacket(g: Geometry, es: seq<Event>)
    requires !OnePacket(g) && LaterFrames(State(g, es).popped)
    ensures var ps := State(g, es).popped;
            && (OnBlocks(g, ps) && NoRepeats(ps) ==> (Surplus(g, es) == 0 <==> SpansFit(g, es, MIN_INT32)))
            && (SpansFit(g, es, MIN_INT32) ==> Surplus(g, es) >= 0 && (Surplus(g, es) == 0 <==> SpansFit(g, es, 0)))
  {
    hide Lost, Reported, LossesFit, SpansFit, State, FramePackets, Sent, InClosedFrames;
    var ps := State(g, es).popped;
    LostIsSentLessReceived(g, ps);
    SpansFitIff(g, es, MIN_INT32);
    SpansFitIff(g, es, 0);
    if LossesFit(g, es, MIN_INT32) {
      ReportsAddUp(g, es);
    }
    if OnBlocks(g, ps) && NoRepeats(ps) {
      ReportsAddUpIff(g, es);
    }
  }
}
