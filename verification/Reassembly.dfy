/** What the SNAP source queues, as functions of the packets it has taken from its ring. */
module Reassembly {
  import opened SnapFormat

  type Vec = seq<int>

  function LastTs(ps: seq<Packet>): nat
  {
    if |ps| == 0 then 0 else ps[|ps| - 1].ts
  }

  // The unsigned 64-bit count of timestamps between l and s, for s > l.
  function MissedSets(l: nat, s: nat): nat
    requires l < s
  {
    ((s - l) / 16 + TWO_64 - 1) % TWO_64
  }

  // How many missing timestamps are filled in between l and s.
  function Fill(l: nat, s: nat): nat
  {
    if 0 < l < s && 0 < MissedSets(l, s) <= MAX_MISSED_SETS then (s - l - 1) / 16 else 0
  }

  // The loop that fills in is entered for l and s and comes to an end. Its 64-bit counter only takes
  // values with the remainder of l, and s may lie above the largest of them.
  predicate FillEnds(l: nat, s: nat)
  {
    0 < l < s && 0 < MissedSets(l, s) <= MAX_MISSED_SETS ==> s <= TWO_64 - 16 + l % 16
  }

  // A packet that ends the multi-packet frame collected so far.
  predicate Closes(g: Geometry, ps: seq<Packet>, p: Packet)
  {
    !OnePacket(g) && LastTs(ps) > 0 && p.ts != LastTs(ps)
  }

  // Cell r of time row t of the frame buffer.
  function BufCell(g: Geometry, lane: Lane, ps: seq<Packet>, t: nat, r: int): int
    requires t < 16
  {
    if |ps| == 0 then 0
    else
      var p, q := ps[|ps| - 1], ps[..|ps| - 1];
      if Covers(g, p, r) then Cell(lane, p, t, r - Offset(g, p))
      else if Closes(g, q, p) then 0
      else BufCell(g, lane, q, t, r)
  }

  function Row(g: Geometry, lane: Lane, ps: seq<Packet>, t: nat): (v: Vec)
    requires t < 16
    ensures |v| == VecLen(g)
  {
    seq(VecLen(g), r => BufCell(g, lane, ps, t, r))
  }

  function Frame(g: Geometry, lane: Lane, ps: seq<Packet>): (f: seq<Vec>)
    ensures |f| == 16
  {
    seq(16, t requires 0 <= t < 16 => Row(g, lane, ps, t))
  }

  function ZeroVec(g: Geometry): Vec { seq(VecLen(g), r => 0) }

  function Zeros(g: Geometry, n: nat): seq<Vec> { seq(n, i => ZeroVec(g)) }

  // All vectors pushed on an output queue after the packets ps, oldest first.
  function Vectors(g: Geometry, lane: Lane, ps: seq<Packet>): seq<Vec>
  {
    if |ps| == 0 then []
    else
      var p, q := ps[|ps| - 1], ps[..|ps| - 1];
      Vectors(g, lane, q)
      + (if Closes(g, q, p) then Frame(g, lane, q) else [])
      + Zeros(g, 16 * Fill(LastTs(q), p.ts))
      + (if OnePacket(g) then Frame(g, lane, ps) else [])
  }

  function FillTags(l: nat, n: nat): seq<nat> { seq(n, i requires 0 <= i => l + 16 + 16 * (i / 16)) }

  function SameTag(ts: nat): seq<nat> { seq(16, i => ts) }

  // The sequence-number tags that go with Vectors.
  function Tags(g: Geometry, ps: seq<Packet>): seq<nat>
  {
    if |ps| == 0 then []
    else
      var p, q := ps[|ps| - 1], ps[..|ps| - 1];
      Tags(g, q)
      + (if Closes(g, q, p) then SameTag(p.ts) else [])
      + FillTags(LastTs(q), 16 * Fill(LastTs(q), p.ts))
      + (if OnePacket(g) then SameTag(p.ts) else [])
  }

  // Packets counted into the open multi-packet frame.
  function FramePackets(g: Geometry, ps: seq<Packet>): nat
  {
    if |ps| == 0 || OnePacket(g) then 0
    else
      var p, q := ps[|ps| - 1], ps[..|ps| - 1];
      if Closes(g, q, p) then 1 else FramePackets(g, q) + 1
  }

  // Packets reported missing, before the count is cut down to a 32-bit int.
  function Lost(g: Geometry, ps: seq<Packet>): int
  {
    if |ps| == 0 then 0
    else
      var p, q := ps[|ps| - 1], ps[..|ps| - 1];
      Lost(g, q)
      + (if Closes(g, q, p) then g.blocks - FramePackets(g, q) else 0)
      + (if 0 < LastTs(q) < p.ts then MissedSets(LastTs(q), p.ts) * g.blocks else 0)
  }

  /** One tag per vector, in whole blocks of 16, and packet counts do not depend on the lane. */
  lemma {:induction false} QueueLengths(g: Geometry, lane: Lane, ps: seq<Packet>)
    ensures |Vectors(g, lane, ps)| == |Tags(g, ps)|
    ensures |Tags(g, ps)| % 16 == 0
  {
    hide Frame, Fill, MissedSets, BufCell;
    if |ps| == 0 {
    } else {
      QueueLengths(g, lane, ps[..|ps| - 1]);
    }
  }

  /** Every queued vector has the output item size. */
  lemma {:induction false} VectorLengths(g: Geometry, lane: Lane, ps: seq<Packet>)
    ensures forall k :: 0 <= k < |Vectors(g, lane, ps)| ==> |Vectors(g, lane, ps)[k]| == VecLen(g)
  {
    if |ps| == 0 {
    } else {
      VectorLengths(g, lane, ps[..|ps| - 1]);
    }
  }

  /** Processing more packets only appends to the queues. */
  lemma {:induction false} QueuesGrow(g: Geometry, lane: Lane, ps: seq<Packet>, more: seq<Packet>)
    ensures Vectors(g, lane, ps) <= Vectors(g, lane, ps + more)
    ensures Tags(g, ps) <= Tags(g, ps + more)
  {
    if more == [] {
      assert ps + more == ps;
    } else {
      var init := more[..|more| - 1];
      assert (ps + more)[..|ps + more| - 1] == ps + init;
      QueuesGrow(g, lane, ps, init);
    }
  }

  // The definitions above, unfolded for one more packet.
  lemma OneMore(g: Geometry, lane: Lane, q: seq<Packet>, p: Packet)
    ensures Vectors(g, lane, q + [p]) ==
            Vectors(g, lane, q)
            + (if Closes(g, q, p) then Frame(g, lane, q) else [])
            + Zeros(g, 16 * Fill(LastTs(q), p.ts))
            + (if OnePacket(g) then Frame(g, lane, q + [p]) else [])
    ensures Tags(g, q + [p]) ==
            Tags(g, q)
            + (if Closes(g, q, p) then SameTag(p.ts) else [])
            + FillTags(LastTs(q), 16 * Fill(LastTs(q), p.ts))
            + (if OnePacket(g) then SameTag(p.ts) else [])
    ensures FramePackets(g, q + [p]) ==
            if OnePacket(g) then 0 else if Closes(g, q, p) then 1 else FramePackets(g, q) + 1
    ensures Lost(g, q + [p]) ==
            Lost(g, q)
            + (if Closes(g, q, p) then g.blocks - FramePackets(g, q) else 0)
            + (if 0 < LastTs(q) < p.ts then MissedSets(LastTs(q), p.ts) * g.blocks else 0)
  {
    assert (q + [p])[..|q + [p]| - 1] == q;
  }

  // The counts alone.
  lemma LossOfOneMore(g: Geometry, q: seq<Packet>, p: Packet)
    ensures FramePackets(g, q + [p]) ==
            if OnePacket(g) then 0 else if Closes(g, q, p) then 1 else FramePackets(g, q) + 1
    ensures Lost(g, q + [p]) - Lost(g, q) ==
            (if Closes(g, q, p) then g.blocks - FramePackets(g, q) else 0)
            + (if 0 < LastTs(q) < p.ts then MissedSets(LastTs(q), p.ts) * g.blocks else 0)
  {
    hide Vectors, Tags, MissedSets;
    OneMore(g, PackedXY, q, p);
  }
}
