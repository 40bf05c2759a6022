/** How packets share the frame buffer, and how the packed and unpacked outputs relate. */
module FrameLayout {
  import opened Arithmetic
  import opened SnapFormat
  import opened Reassembly
  import opened ReassemblyTheorems
  import opened Streams
  import opened SourceRuns

  // --- Geometry of the writes -----------------------------------------------------------

  // A byte written for channel block b: time row t, byte k of the block's 512.
  datatype Place = Place(b: nat, t: nat, k: nat)

  predicate IsPlace(g: Geometry, w: Place) { w.b < g.blocks && w.t < 16 && w.k < 512 }

  function WriteIndex(g: Geometry, w: Place): nat { w.t * VecLen(g) + 512 * w.b + w.k }

  function Locate(g: Geometry, n: nat): Place
  {
    Quotient(n, VecLen(g));
    Place(n % VecLen(g) / 512, n / VecLen(g), n % 512)
  }

  /** Every write is in bounds and different places never meet. */
  lemma WriteIndexInBounds(g: Geometry, w: Place)
    requires IsPlace(g, w)
    ensures WriteIndex(g, w) < 16 * VecLen(g)
    ensures Locate(g, WriteIndex(g, w)) == w
  {
    var v := VecLen(g);
    PackBound(w.t, 16, 512 * w.b + w.k, v);
    DivMod(w.t, v, 512 * w.b + w.k);
    Flat(g, w.t);
    DivMod(w.t * g.blocks + w.b, 512, w.k);
  }

  lemma Flat(g: Geometry, t: nat)
    ensures t * VecLen(g) == 512 * (t * g.blocks)
  {
  }

  /** Every byte of the frame buffer belongs to exactly one place. */
  lemma EveryByteHasAPlace(g: Geometry, n: nat)
    requires n < 16 * VecLen(g)
    ensures IsPlace(g, Locate(g, n))
    ensures WriteIndex(g, Locate(g, n)) == n
  {
    var v := VecLen(g);
    Quotient(n, v);
    UnpackBound(n, 16, v);
    Flat(g, n / v);
    assert n % 512 == n % v % 512 by {
      DivMod(n / v * g.blocks + n % v / 512, 512, n % v % 512);
    }
  }

  /** The packet of channel block b writes the bytes at the places of b. */
  lemma PacketPlaces(g: Geometry, p: Packet, w: Place)
    requires IsPlace(g, w) && p.chan == g.start + 256 * w.b
    ensures Accepted(g, p)
    ensures WriteIndex(g, w) == w.t * VecLen(g) + Offset(g, p) + w.k
    ensures forall r: int :: 0 <= r < VecLen(g) ==> (Covers(g, p, r) <==> Locate(g, w.t * VecLen(g) + r).b == w.b)
  {
    forall r: int | 0 <= r < VecLen(g)
      ensures Covers(g, p, r) <==> Locate(g, w.t * VecLen(g) + r).b == w.b
    {
      DivMod(w.t, VecLen(g), r);
    }
  }

  // Where byte k of time row t of a packet is written, in the buffer or not.
  function WrittenAt(g: Geometry, p: Packet, t: nat, k: nat): int { t * VecLen(g) + Offset(g, p) + k }

  /** All bytes of a packet are written inside the buffer if and only if its channel is in the accepted
      range, on a block boundary or not. */
  lemma InBoundsIffAccepted(g: Geometry, p: Packet)
    ensures Accepted(g, p) <==>
            forall t: nat, k: nat :: t < 16 && k < 512 ==> 0 <= WrittenAt(g, p, t, k) < 16 * VecLen(g)
  {
    if Accepted(g, p) {
      forall t: nat, k: nat | t < 16 && k < 512
        ensures 0 <= WrittenAt(g, p, t, k) < 16 * VecLen(g)
      {
        PackBound(t, 16, Offset(g, p) + k, VecLen(g));
        MulMono(0, t, VecLen(g));
      }
    } else {
      assert WrittenAt(g, p, 0, 0) < 0 || WrittenAt(g, p, 15, 511) >= 16 * VecLen(g);
    }
  }

  // --- Order of the packets within a frame ---------------------------------------------------

  ghost predicate OnBlocks(g: Geometry, ps: seq<Packet>)
  {
    forall p :: p in ps ==> Accepted(g, p) && (p.chan - g.start) % 256 == 0
  }

  ghost predicate NoConflict(ps: seq<Packet>)
  {
    forall p, q :: p in ps && q in ps && p.ts == q.ts && p.chan == q.chan ==> p == q
  }

  /** Packets on block boundaries, at most one per block and timestamp, may arrive in any order. */
  lemma OrderIrrelevant(g: Geometry, lane: Lane, ps: seq<Packet>, qs: seq<Packet>, ts: nat, t: nat)
    requires t < 16 && OnBlocks(g, ps) && NoConflict(ps)
    requires forall p :: p in ps <==> p in qs
    ensures RowSpec(g, lane, ps, ts, t) == RowSpec(g, lane, qs, ts, t)
  {
    forall r | 0 <= r < VecLen(g)
      ensures CellSpec(g, lane, ps, ts, t, r) == CellSpec(g, lane, qs, ts, t, r)
    {
      if p :| p in ps && p.ts == ts && Covers(g, p, r) {
        forall q | q in ps && q.ts == ts && Covers(g, q, r)
          ensures q == p
        {
          SameBlock(g, p, q, r);
        }
        CellOfPacket(g, lane, ps, t, r, p);
        CellOfPacket(g, lane, qs, t, r, p);
      } else {
        CellOfNoPacket(g, lane, ps, ts, t, r);
        CellOfNoPacket(g, lane, qs, ts, t, r);
      }
    }
  }

  lemma SameBlock(g: Geometry, p: Packet, q: Packet, r: int)
    requires (p.chan - g.start) % 256 == 0 && (q.chan - g.start) % 256 == 0
    requires Covers(g, p, r) && Covers(g, q, r)
    ensures p.chan == q.chan
  {
  }

  // The same packets in two orders, without conflicts and gap-free either way.
  ghost predicate Rearranged(g: Geometry, ps: seq<Packet>, qs: seq<Packet>)
  {
    && !OnePacket(g) && |ps| > 0 && |qs| > 0
    && (forall p :: p in ps <==> p in qs)
    && OnBlocks(g, ps) && NoConflict(ps)
    && FrameGapFree(ps) && FrameGapFree(qs)
  }

  lemma SameEnds(g: Geometry, ps: seq<Packet>, qs: seq<Packet>)
    requires Rearranged(g, ps, qs)
    ensures ps[0].ts == qs[0].ts && LastTs(ps) == LastTs(qs)
  {
    LastIsLargest(ps);
    LastIsLargest(qs);
    assert ps[0] in qs && qs[0] in ps && ps[|ps| - 1] in qs && qs[|qs| - 1] in ps;
  }

  lemma SameRows(g: Geometry, lane: Lane, ps: seq<Packet>, qs: seq<Packet>, first: nat, vs: seq<Vec>, ws: seq<Vec>)
    requires OnBlocks(g, ps) && NoConflict(ps) && forall p :: p in ps <==> p in qs
    requires IsStream(g, lane, ps, first, vs) && IsStream(g, lane, qs, first, ws) && |vs| == |ws|
    ensures vs == ws
  {
    hide OnBlocks, NoConflict, RowSpec;
    forall k | 0 <= k < |vs|
      ensures vs[k] == ws[k]
    {
      OrderIrrelevant(g, lane, ps, qs, first + 16 * (k / 16), k % 16);
    }
  }

  /** So multi-packet mode queues the same vectors and tags, and leaves the same frame buffer, in
      whatever order the packets of each timestamp arrive. */
  lemma QueueOrderIrrelevant(g: Geometry, lane: Lane, ps: seq<Packet>, qs: seq<Packet>)
    requires Rearranged(g, ps, qs)
    ensures Vectors(g, lane, ps) == Vectors(g, lane, qs)
    ensures Tags(g, ps) == Tags(g, qs)
    ensures Frame(g, lane, ps) == Frame(g, lane, qs)
  {
    hide Vectors, Tags, Frame, IsStream, RowSpec;
    SameEnds(g, ps, qs);
    MultiPacketReassembly(g, lane, ps);
    MultiPacketReassembly(g, lane, qs);
    SameRows(g, lane, ps, qs, ps[0].ts, Vectors(g, lane, ps), Vectors(g, lane, qs));
    BufferHoldsCurrentFrame(g, lane, ps);
    BufferHoldsCurrentFrame(g, lane, qs);
    SameRows(g, lane, ps, qs, LastTs(ps), Frame(g, lane, ps), Frame(g, lane, qs));
    QueueLengths(g, lane, ps);
    QueueLengths(g, lane, qs);
    forall k | 0 <= k < |Tags(g, ps)|
      ensures Tags(g, ps)[k] == Tags(g, qs)[k]
    {
      SameTags(g, ps, qs, k);
    }
  }

  lemma SameTags(g: Geometry, ps: seq<Packet>, qs: seq<Packet>, k: nat)
    requires Rearranged(g, ps, qs) && k < |Tags(g, ps)| == |Tags(g, qs)|
    ensures Tags(g, ps)[k] == Tags(g, qs)[k]
  {
    hide Tags;
    SameEnds(g, ps, qs);
    MultiPacketTag(g, ps, k);
    MultiPacketTag(g, qs, k);
    var ts := ps[0].ts + 16 * (k / 16);
    if p :| p in ps && p.ts == ts {
      var a :| a in ps && a.ts == Tags(g, ps)[k];
      var b :| b in qs && b.ts == Tags(g, qs)[k];
      assert a in qs && b in ps;
    }
  }

  // --- Packed and unpacked outputs -----------------------------------------------------------

  // The X (pol 0) or Y (pol 1) vector carried by a packed vector.
  function Decoded(v: Vec, pol: nat): Vec
    requires |v| % 2 == 0 && pol < 2
  {
    seq(|v|, r requires 0 <= r < |v| => Nibble(v[2 * (r / 2) + pol], r % 2))
  }

  function UnpackedLane(pol: nat): Lane { if pol == 0 then UnpackedX else UnpackedY }

  lemma {:induction false} BufCellDecodes(g: Geometry, ps: seq<Packet>, pol: nat, t: nat, r: nat)
    requires pol < 2 && t < 16
    ensures BufCell(g, UnpackedLane(pol), ps, t, r) == Nibble(BufCell(g, PackedXY, ps, t, 2 * (r / 2) + pol), r % 2)
  {
    hide Cell, Closes, Nibble;
    ZeroNibble();
    if |ps| == 0 {
    } else {
      BufCellDecodes(g, ps[..|ps| - 1], pol, t, r);
      var p, e := ps[|ps| - 1], 2 * (r / 2) + pol;
      SamePair(p.chan - g.start, pol, r);
      if Covers(g, p, r) {
        CellDecodes(p, pol, t, r - Offset(g, p));
      }
    }
  }

  // A byte and the byte it is decoded from lie in the same packet.
  lemma SamePair(c: int, pol: nat, r: nat)
    requires pol < 2
    ensures 2 * c <= r < 2 * c + 512 <==> 2 * c <= 2 * (r / 2) + pol < 2 * c + 512
    ensures 2 * ((r - 2 * c) / 2) + pol == 2 * (r / 2) + pol - 2 * c
    ensures (r - 2 * c) % 2 == r % 2
  {
  }

  lemma CellDecodes(p: Packet, pol: nat, t: nat, k: nat)
    requires pol < 2 && t < 16 && k < 512
    ensures Cell(UnpackedLane(pol), p, t, k) == Nibble(Cell(PackedXY, p, t, 2 * (k / 2) + pol), k % 2)
  {
  }

  lemma RowDecodes(g: Geometry, ps: seq<Packet>, pol: nat, t: nat)
    requires pol < 2 && t < 16
    ensures Row(g, UnpackedLane(pol), ps, t) == Decoded(Row(g, PackedXY, ps, t), pol)
  {
    hide BufCell, Nibble;
    forall r: nat | r < VecLen(g)
      ensures Row(g, UnpackedLane(pol), ps, t)[r] == Decoded(Row(g, PackedXY, ps, t), pol)[r]
    {
      BufCellDecodes(g, ps, pol, t, r);
    }
  }

  ghost predicate Decodes(us: seq<Vec>, vs: seq<Vec>, pol: nat)
    requires pol < 2
  {
    |us| == |vs| && forall k :: 0 <= k < |vs| ==> |vs[k]| % 2 == 0 && us[k] == Decoded(vs[k], pol)
  }

  lemma FrameDecodes(g: Geometry, ps: seq<Packet>, pol: nat)
    requires pol < 2
    ensures Decodes(Frame(g, UnpackedLane(pol), ps), Frame(g, PackedXY, ps), pol)
  {
    forall t: nat | t < 16
      ensures Row(g, UnpackedLane(pol), ps, t) == Decoded(Row(g, PackedXY, ps, t), pol)
    {
      RowDecodes(g, ps, pol, t);
    }
  }

  /** On the same packets the unpacked X and Y outputs are the nibble decode of the even and odd
      bytes of the packed output, partly filled and zero-filled frames included. */
  lemma {:induction false} PackedAndUnpackedAgree(g: Geometry, ps: seq<Packet>, pol: nat)
    requires pol < 2
    ensures Decodes(Vectors(g, UnpackedLane(pol), ps), Vectors(g, PackedXY, ps), pol)
  {
    hide Frame, Fill, Closes, Decodes;
    if |ps| == 0 {
      NothingDecodes(pol);
    } else {
      var q, p, u := ps[..|ps| - 1], ps[|ps| - 1], UnpackedLane(pol);
      PackedAndUnpackedAgree(g, q, pol);
      FrameDecodes(g, q, pol);
      FrameDecodes(g, ps, pol);
      ZerosDecode(g, 16 * Fill(LastTs(q), p.ts), pol);
      NothingDecodes(pol);
      var x, y, zeros := Vectors(g, u, q), Vectors(g, PackedXY, q), Zeros(g, 16 * Fill(LastTs(q), p.ts));
      var closes := Closes(g, q, p);
      var x1, y1 := if closes then Frame(g, u, q) else [], if closes then Frame(g, PackedXY, q) else [];
      var x2, y2 := if OnePacket(g) then Frame(g, u, ps) else [], if OnePacket(g) then Frame(g, PackedXY, ps) else [];
      DecodedSum(x, y, x1, y1, pol);
      DecodedSum(x + x1, y + y1, zeros, zeros, pol);
      DecodedSum(x + x1 + zeros, y + y1 + zeros, x2, y2, pol);
      assert Vectors(g, u, ps) == x + x1 + zeros + x2 && Vectors(g, PackedXY, ps) == y + y1 + zeros + y2;
    }
  }

  lemma NothingDecodes(pol: nat)
    requires pol < 2
    ensures Decodes([], [], pol)
  {
  }

  lemma ZerosDecode(g: Geometry, n: nat, pol: nat)
    requires pol < 2
    ensures Decodes(Zeros(g, n), Zeros(g, n), pol)
  {
    hide Decoded, Nibble;
    ZeroDecodes(g, pol);
  }

  lemma ZeroDecodes(g: Geometry, pol: nat)
    requires pol < 2
    ensures |ZeroVec(g)| % 2 == 0 && ZeroVec(g) == Decoded(ZeroVec(g), pol)
  {
    hide Nibble;
    assert forall half :: Nibble(0, half) == 0 by {
      ZeroNibble();
    }
  }

  lemma ZeroNibble()
    ensures forall half :: Nibble(0, half) == 0
  {
  }

  lemma DecodedSlice(us: seq<Vec>, vs: seq<Vec>, pol: nat, i: nat, j: nat)
    requires pol < 2 && Decodes(us, vs, pol) && i <= j <= |vs|
    ensures Decodes(us[i..j], vs[i..j], pol)
  {
  }

  lemma DecodedSum(us: seq<Vec>, vs: seq<Vec>, us': seq<Vec>, vs': seq<Vec>, pol: nat)
    requires pol < 2 && Decodes(us, vs, pol) && Decodes(us', vs', pol)
    ensures Decodes(us + us', vs + vs', pol)
  {
  }

  lemma OutputDecodes(g: Geometry, s: Src, taken: seq<Packet>, noutput: nat, pol: nat)
    requires pol < 2 && PopsSafely(g, s, taken, noutput)
    ensures var u, v := Output(g, UnpackedLane(pol), s, taken, noutput), Output(g, PackedXY, s, taken, noutput);
            Decodes(Vecs(u), Vecs(v), pol) && TagsOf(u) == TagsOf(v)
  {
    hide Vectors, Tags, Decodes, PushedTags;
    var all, n := s.popped + taken, Returned(g, s, taken, noutput);
    PackedAndUnpackedAgree(g, all, pol);
    QueueLengths(g, PackedXY, all);
    QueueLengths(g, UnpackedLane(pol), all);
    DecodedSlice(Vectors(g, UnpackedLane(pol), all), Vectors(g, PackedXY, all), pol, s.given, s.given + n);
  }

  /** Over a whole run, two sources that differ only in their output format deliver items that agree one
      by one: the same tags, and vectors that are the decoded packed ones. */
  lemma {:induction false} DeliveredAgree(g: Geometry, es: seq<Event>, pol: nat)
    requires pol < 2
    ensures Decodes(Vecs(Delivered(g, UnpackedLane(pol), es)), Vecs(Delivered(g, PackedXY, es)), pol)
    ensures TagsOf(Delivered(g, UnpackedLane(pol), es)) == TagsOf(Delivered(g, PackedXY, es))
  {
    hide Output, State, PopsSafely, Decoded;
    if |es| == 0 {
    } else {
      var init, e := es[..|es| - 1], es[|es| - 1];
      var s, d, u := State(g, init), Delivered(g, PackedXY, init), Delivered(g, UnpackedLane(pol), init);
      DeliveredAgree(g, init, pol);
      if e.Work? && PopsSafely(g, s, e.taken, e.noutput) {
        var x, y := Output(g, PackedXY, s, e.taken, e.noutput), Output(g, UnpackedLane(pol), s, e.taken, e.noutput);
        OutputDecodes(g, s, e.taken, e.noutput, pol);
        Joined(d, x);
        Joined(u, y);
        DecodedSum(Vecs(u), Vecs(d), Vecs(y), Vecs(x), pol);
      } else {
        assert d + [] == d && u + [] == u;
      }
    }
  }
}
