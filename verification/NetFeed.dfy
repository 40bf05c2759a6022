/** The network path: packets are queued from the first one of the start channel onward, with no filter on
    the channel range. */
module NetFeed {
  import opened SnapFormat
  import opened NetRing
  import opened PcapFeed

  /** Once the start channel was found every further packet is queued. */
  lemma {:induction false} AlignmentStays(g: Geometry, ps: seq<Packet>, more: seq<Packet>)
    ensures FromStart(g, ps) <= FromStart(g, ps + more)
    ensures HasStart(g, ps) ==> HasStart(g, ps + more) && FromStart(g, ps + more) == FromStart(g, ps) + more
  {
    hide FromStart, HasStart;
    if |more| == 0 {
      assert ps + more == ps;
    } else {
      var init, p := more[..|more| - 1], more[|more| - 1];
      assert ps + more == ps + init + [p];
      AlignmentStays(g, ps, init);
      OneMoreReceived(g, ps + init, p);
    }
  }

  // One more packet, by what the receiver knows: whether it found the start channel.
  lemma OneMoreReceived(g: Geometry, ps: seq<Packet>, p: Packet)
    ensures HasStart(g, ps + [p]) == (HasStart(g, ps) || p.chan == g.start)
    ensures FromStart(g, ps + [p]) == FromStart(g, ps) + if HasStart(g, ps + [p]) then [p] else []
  {
    FromStartAppend(g, ps, p);
  }

  lemma {:induction false} AllInRange(g: Geometry, ps: seq<Packet>)
    ensures InRange(g, ps) == ps <==> forall p :: p in ps ==> Accepted(g, p)
    ensures |InRange(g, ps)| <= |ps|
  {
    if |ps| == 0 {
    } else {
      var q, p := ps[..|ps| - 1], ps[|ps| - 1];
      assert ps == q + [p];
      AllInRange(g, q);
      if InRange(g, ps) == ps {
        assert InRange(g, q) == q;
      }
    }
  }

  class NetReceiver {
    const g: Geometry
    var foundStartChannel: bool
    var ring: seq<Packet>
    // History: every packet that arrived, every packet pushed on the ring, and the packets taken off it
    // and their positions among those pushed.
    ghost var arrived: seq<Packet>
    ghost var pushed: seq<Packet>
    ghost var popped: seq<Packet>
    ghost var positions: seq<nat>

    ghost predicate Valid()
      reads this
    {
      && foundStartChannel == HasStart(g, arrived)
      && pushed == FromStart(g, arrived)
      && RingInv(ring, pushed, popped, positions)
    }

    constructor (g: Geometry)
      ensures Valid() && this.g == g && arrived == [] && popped == []
    {
      this.g := g;
      foundStartChannel, ring := false, [];
      arrived, pushed, popped, positions := [], [], [], [];
    }

    /** mmsg_receive: of a batch of packets those before the first one of the start channel are skipped,
        all others queued. One outside the channel range is logged as skipped, and queued all the same. */
    method MmsgReceive(batch: seq<Packet>)
      requires Valid()
      modifies this`foundStartChannel, this`ring, this`arrived, this`pushed
      ensures Valid() && arrived == old(arrived) + batch
      ensures old(pushed) <= pushed && ring == RingPushAll(old(ring), pushed[|old(pushed)|..])
    {
      hide FromStart, HasStart, RingInv;
      ghost var queued: seq<Packet> := [];
      for i := 0 to |batch|
        invariant Valid() && arrived == old(arrived) + batch[..i]
        invariant pushed == old(pushed) + queued && ring == RingPushAll(old(ring), queued)
      {
        var p := batch[i];
        assert old(arrived) + batch[..i + 1] == arrived + [p];
        OneMoreReceived(g, arrived, p);
        arrived := arrived + [p];
        if !foundStartChannel {
          if p.chan != g.start {
            continue;
          }
          foundStartChannel := true;
        }
        PushKeeps(ring, pushed, popped, positions, p);
        assert (queued + [p])[..|queued|] == queued;
        ring, pushed, queued := RingPush(ring, p), pushed + [p], queued + [p];
      }
      assert batch[..|batch|] == batch && pushed[|old(pushed)|..] == queued;
    }

    /** The consumer takes the front packet: what it took is an in-order subsequence of the packets from
        the start channel on. */
    method Take() returns (p: Packet)
      requires Valid() && |ring| > 0
      modifies this`ring, this`popped, this`positions
      ensures Valid() && popped == old(popped) + [p] && ring == old(ring)[1..]
    {
      PopKeeps(ring, pushed, popped, positions);
      p := ring[0];
      positions := positions + [|pushed| - |ring|];
      popped := popped + [p];
      ring := ring[1..];
    }

    /** The network queues what a capture of the same packets would queue if and only if no packet from
        the start channel on is outside the channel range. */
    lemma SameAsCaptureIff()
      requires Valid()
      ensures pushed == InRange(g, FromStart(g, arrived)) <==> forall p :: p in FromStart(g, arrived) ==> Accepted(g, p)
    {
      AllInRange(g, FromStart(g, arrived));
    }
  }
}
