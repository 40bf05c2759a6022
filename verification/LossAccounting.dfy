/** Conservation of packets: what is reported missing plus what arrived is what was sent. */
module LossAccounting {
  import opened SnapFormat
  import opened Reassembly

  // Timestamps that move forward on a grid of 16, however large the gaps.
  predicate LaterOnGrid(l: nat, s: nat) { 0 < l < s && (s - l) % 16 == 0 }

  lemma MissedOnGrid(l: nat, s: nat)
    requires LaterOnGrid(l, s) && s < TWO_64
    ensures 16 * MissedSets(l, s) == s - l - 16
  {
  }

  /** One-packet mode: packets reported missing plus packets received are all the timestamps from
      the first to the last, also across gaps too large to be filled. */
  lemma {:induction false} OnePacketLoss(g: Geometry, ps: seq<Packet>)
    requires OnePacket(g) && |ps| > 0
    requires forall i, j :: 0 <= i < j < |ps| && j == i + 1 ==> LaterOnGrid(ps[i].ts, ps[j].ts)
    ensures 16 * (Lost(g, ps) + |ps|) == LastTs(ps) - ps[0].ts + 16
  {
    var q := ps[..|ps| - 1];
    if |q| == 0 {
    } else {
      OnePacketLoss(g, q);
      MissedOnGrid(LastTs(q), LastTs(ps));
    }
  }

  /** Multi-packet mode: packets reported missing plus packets received in closed frames are
      packets_per_frame for every timestamp from the first up to the open frame. */
  lemma {:induction false} MultiPacketLoss(g: Geometry, ps: seq<Packet>)
    requires !OnePacket(g) && |ps| > 0 && ps[0].ts > 0
    requires forall i, j :: 0 <= i < j < |ps| && j == i + 1 ==> ps[j].ts == ps[i].ts || LaterOnGrid(ps[i].ts, ps[j].ts)
    ensures LastTs(ps) >= ps[0].ts
    ensures 16 * (Lost(g, ps) + |ps| - FramePackets(g, ps)) == g.blocks * (LastTs(ps) - ps[0].ts)
  {
    var q, p := ps[..|ps| - 1], ps[|ps| - 1];
    if |q| == 0 {
    } else {
      MultiPacketLoss(g, q);
      var l, n := LastTs(q), g.blocks;
      if LaterOnGrid(l, p.ts) {
        MissedOnGrid(l, p.ts);
        Closed(n, MissedSets(l, p.ts), l - ps[0].ts, p.ts - ps[0].ts);
      }
    }
  }

  lemma Closed(n: nat, m: nat, old_: nat, new_: nat)
    requires new_ == old_ + 16 * m + 16
    ensures n * new_ == n * old_ + 16 * (m * n) + 16 * n
  {
  }
}
