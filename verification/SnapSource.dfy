/** The SNAP source in voltage mode: receive ring, frame buffers, vector and tag queues. */
module SnapSource {
  import opened SnapFormat
  import opened Reassembly
  import opened FrameBuffer
  import opened Streams
  import opened NetRing
  import opened SourceRuns

  lemma ToInt32Wraps(x: int, k: int)
    ensures ToInt32(x + TWO_32 * k) == ToInt32(x)
  {
    assert (x + TWO_32 * k) % TWO_32 == x % TWO_32;
  }

  lemma ToInt32Adds(a: int, x: int)
    ensures ToInt32(ToInt32(a) + x) == ToInt32(a + x)
  {
    assert a - ToInt32(a) == TWO_32 * ((a - ToInt32(a)) / TWO_32);
    ToInt32Wraps(ToInt32(a) + x, (a - ToInt32(a)) / TWO_32);
  }

  // The uint64 arithmetic that adds missed frames to the int count.
  function AddMissed(skipped: int, missedSets: nat, packetsPerFrame: nat): (r: int)
    ensures r == ToInt32(skipped + missedSets * packetsPerFrame)
  {
    SumIn64Bits(skipped, missedSets * packetsPerFrame);
    ToInt32((skipped % TWO_64 + missedSets * packetsPerFrame % TWO_64) % TWO_64)
  }

  lemma SumIn64Bits(a: int, b: nat)
    ensures ToInt32((a % TWO_64 + b % TWO_64) % TWO_64) == ToInt32(a + b)
  {
    var m := a % TWO_64 + b % TWO_64;
    var k := a / TWO_64 + b / TWO_64 + m / TWO_64;
    assert a + b == m % TWO_64 + TWO_64 * k;
    ToInt32Wraps(m % TWO_64, TWO_32 * k);
  }

  lemma AddNothing(a: int, n: nat)
    requires -0x8000_0000 <= a < 0x8000_0000
    ensures ToInt32(a) == ToInt32(a + 0 * n) == a
  {
  }

  lemma IsSpliced(was: seq<int>, now: seq<int>, base: nat, part: seq<int>)
    requires |was| == |now| && base + |part| <= |was|
    requires forall k :: 0 <= k < |part| ==> now[base + k] == part[k]
    requires forall i :: 0 <= i < base || base + |part| <= i < |was| ==> now[i] == was[i]
    ensures now == Spliced(was, base, part)
  {
    forall i | 0 <= i < |now|
      ensures now[i] == Spliced(was, base, part)[i]
    {
      if base <= i < base + |part| {
        assert now[base + (i - base)] == part[i - base];
      }
    }
  }

  // The lane of the first output.
  function FirstLane(packed: bool): Lane { if packed then PackedXY else UnpackedX }

  // The vector queues hold what is left of the streams of ps after `given` vectors.
  ghost predicate VectorsLeft(g: Geometry, packed: bool, ps: seq<Packet>, given: nat, xq: seq<Vec>, yq: seq<Vec>)
  {
    && given <= |Vectors(g, FirstLane(packed), ps)| == |Vectors(g, UnpackedY, ps)| == |Tags(g, ps)|
    && xq == Vectors(g, FirstLane(packed), ps)[given..]
    && yq == (if packed then [] else Vectors(g, UnpackedY, ps)[given..])
  }

  // One step of a vector queue, and of the tag queue, in the order the code pushes.
  ghost function Extended(g: Geometry, lane: Lane, q: seq<Packet>, p: Packet, xq: seq<Vec>): seq<Vec>
  {
    var zeros := Zeros(g, 16 * Fill(LastTs(q), p.ts));
    if OnePacket(g) then xq + zeros + Frame(g, lane, q + [p])
    else if Closes(g, q, p) then xq + Frame(g, lane, q) + zeros
    else xq
  }

  ghost function TagsExtended(g: Geometry, q: seq<Packet>, p: Packet, tq: seq<nat>): seq<nat>
  {
    var fill := FillTags(LastTs(q), 16 * Fill(LastTs(q), p.ts));
    if OnePacket(g) then tq + fill + SameTag(p.ts)
    else if Closes(g, q, p) then tq + SameTag(p.ts) + fill
    else tq
  }

  /** These steps keep the vector queue the undelivered rest of the specified stream, */
  lemma ExtendedRest(g: Geometry, lane: Lane, q: seq<Packet>, p: Packet, given: nat)
    requires given <= |Vectors(g, lane, q)| == |Tags(g, q)|
    ensures given <= |Vectors(g, lane, q + [p])| == |Tags(g, q + [p])|
    ensures Extended(g, lane, q, p, Vectors(g, lane, q)[given..]) == Vectors(g, lane, q + [p])[given..]
  {
    hide Frame, MissedSets;
    OneMore(g, lane, q, p);
    QueueLengths(g, lane, q + [p]);
  }

  /** and push on the tag queue what the run model says. */
  lemma TagsPushed(g: Geometry, s: Src, taken: seq<Packet>, p: Packet)
    ensures PushedTags(g, s, taken + [p]) ==
            if s.sync == 0 then TagsExtended(g, s.popped + taken, p, PushedTags(g, s, taken)) else s.tagq
    ensures taken == [] ==> PushedTags(g, s, taken) == s.tagq
  {
    hide Tags, TagsExtended;
    var q := s.popped + taken;
    assert s.popped + (taken + [p]) == q + [p];
    QueuesGrow(g, PackedXY, s.popped, taken);
    QueuesGrow(g, PackedXY, s.popped, taken + [p]);
    NewTags(g, q, p);
    SliceOfSum(s.tagq, Tags(g, q), TagsExtended(g, q, p, []), |Tags(g, s.popped)|);
    if taken == [] {
      assert q == s.popped;
    }
  }

  lemma SliceOfSum<T>(a: seq<T>, b: seq<T>, c: seq<T>, n: nat)
    requires n <= |b|
    ensures a + (b + c)[n..] == a + b[n..] + c
  {
  }

  lemma NewTags(g: Geometry, q: seq<Packet>, p: Packet)
    ensures Tags(g, q + [p]) == Tags(g, q) + TagsExtended(g, q, p, [])
    ensures forall tq :: TagsExtended(g, q, p, tq) == tq + TagsExtended(g, q, p, [])
  {
    hide Frame, MissedSets, Vectors;
    OneMore(g, PackedXY, q, p);
  }

  // The counts after a packet that closes a frame, after a one-packet frame, and after a packet
  // that joins the open frame.
  lemma CountsAfterClose(g: Geometry, q: seq<Packet>, p: Packet, skipped: int)
    requires !OnePacket(g) && Closes(g, q, p)
    ensures FramePackets(g, q + [p]) == 1
    ensures var closed := ToInt32(skipped + (g.blocks - FramePackets(g, q)));
            (if 0 < LastTs(q) < p.ts then ToInt32(closed + MissedSets(LastTs(q), p.ts) * g.blocks) else closed)
            == ToInt32(skipped + Lost(g, q + [p]) - Lost(g, q))
  {
    hide ToInt32, MissedSets;
    LossOfOneMore(g, q, p);
    if 0 < LastTs(q) < p.ts {
      ToInt32Adds(skipped + (g.blocks - FramePackets(g, q)), MissedSets(LastTs(q), p.ts) * g.blocks);
    }
  }

  lemma CountsOnePacket(g: Geometry, q: seq<Packet>, p: Packet, skipped: int)
    requires OnePacket(g) && -0x8000_0000 <= skipped < 0x8000_0000
    ensures FramePackets(g, q + [p]) == FramePackets(g, q)
    ensures (if 0 < LastTs(q) < p.ts then ToInt32(skipped + MissedSets(LastTs(q), p.ts) * g.blocks) else skipped)
            == ToInt32(skipped + Lost(g, q + [p]) - Lost(g, q))
  {
    hide ToInt32, MissedSets;
    LossOfOneMore(g, q, p);
    AddNothing(skipped, 0);
  }

  lemma CountsInFrame(g: Geometry, q: seq<Packet>, p: Packet, skipped: int)
    requires !OnePacket(g) && !Closes(g, q, p) && -0x8000_0000 <= skipped < 0x8000_0000
    ensures FramePackets(g, q + [p]) == FramePackets(g, q) + 1
    ensures skipped == ToInt32(skipped + Lost(g, q + [p]) - Lost(g, q))
  {
    hide ToInt32, MissedSets;
    LossOfOneMore(g, q, p);
    AddNothing(skipped, 0);
  }

  lemma LeftAfter(g: Geometry, packed: bool, q: seq<Packet>, p: Packet, given: nat, xq: seq<Vec>, yq: seq<Vec>)
    requires VectorsLeft(g, packed, q, given, xq, yq)
    ensures VectorsLeft(g, packed, q + [p], given, Extended(g, FirstLane(packed), q, p, xq),
                        if packed then yq else Extended(g, UnpackedY, q, p, yq))
  {
    ExtendedRest(g, FirstLane(packed), q, p, given);
    ExtendedRest(g, UnpackedY, q, p, given);
  }

  lemma QueueLeft(g: Geometry, packed: bool, ps: seq<Packet>, given: nat, xq: seq<Vec>, yq: seq<Vec>)
    requires VectorsLeft(g, packed, ps, given, xq, yq)
    ensures |xq| == |Tags(g, ps)| - given && (!packed ==> |yq| == |xq|)
  {
  }

  // The first n vectors, tagged or not.
  ghost predicate Fronts(items: seq<Item>, vecs: seq<Vec>, tags: seq<nat>, tagged: bool, n: nat)
  {
    && |items| == n <= |vecs| && (tagged ==> n <= |tags|)
    && forall k :: 0 <= k < n ==> items[k] == Item(vecs[k], if tagged then Stamp(tags[k]) else NoTag)
  }

  lemma NoFronts(vecs: seq<Vec>, tags: seq<nat>, tagged: bool)
    ensures Fronts([], vecs, tags, tagged, 0)
  {
  }

  lemma OneMoreFront(items: seq<Item>, vecs: seq<Vec>, tags: seq<nat>, tagged: bool, n: nat)
    requires Fronts(items, vecs, tags, tagged, n) && n < |vecs| && (tagged ==> n < |tags|)
    ensures var item := Item(vecs[n..][0], if tagged then Stamp(tags[n..][0]) else NoTag);
            Fronts(items + [item], vecs, tags, tagged, n + 1)
  {
  }

  lemma Tail<T>(s: seq<T>, n: nat)
    requires n < |s|
    ensures s[n..][1..] == s[n + 1..]
  {
  }

  lemma ItemByItem(vecs: seq<Vec>, tags: seq<nat>, tagged: bool, items: seq<Item>, n: nat)
    requires Fronts(items, vecs, tags, tagged, n)
    ensures |items| == n <= |vecs| && (tagged ==> n <= |tags|)
    ensures items == Items(vecs[..n], if tagged then Stamps(tags[..n]) else NoTags(n))
  {
  }

  // The front of a vector queue is the specified output.
  lemma OutputIsFront(g: Geometry, lane: Lane, s: Src, taken: seq<Packet>, noutput: nat, xq: seq<Vec>)
    requires PopsSafely(g, s, taken, noutput)
    requires s.given <= |Vectors(g, lane, s.popped + taken)| == |Tags(g, s.popped + taken)|
    requires xq == Vectors(g, lane, s.popped + taken)[s.given..]
    ensures var n := Min(noutput, |xq|);
            && (s.sync == 0 ==> n <= |PushedTags(g, s, taken)|)
            && Output(g, lane, s, taken, noutput) ==
               Items(xq[..n], if s.sync == 0 then Stamps(PushedTags(g, s, taken)[..n]) else NoTags(n))
  {
    hide Vectors, Tags, PushedTags;
    FrontAndRest(Vectors(g, lane, s.popped + taken), s.given, Min(noutput, |xq|));
  }

  lemma RestStays(g: Geometry, packed: bool, ps: seq<Packet>, given: nat, xq: seq<Vec>, yq: seq<Vec>, n: nat)
    requires VectorsLeft(g, packed, ps, given, xq, yq) && n <= |xq|
    ensures VectorsLeft(g, packed, ps, given + n, xq[n..], if packed then yq else yq[n..])
  {
    hide Vectors, Tags;
    FrontAndRest(Vectors(g, FirstLane(packed), ps), given, n);
    FrontAndRest(Vectors(g, UnpackedY, ps), given, n);
  }

  /** What is taken off the front of the queues is the specified output, and what stays behind is the
      specified state. */
  lemma DeliveredIsOutput(g: Geometry, packed: bool, s: Src, taken: seq<Packet>, noutput: nat,
                          xq: seq<Vec>, yq: seq<Vec>)
    requires PopsSafely(g, s, taken, noutput) && VectorsLeft(g, packed, s.popped + taken, s.given, xq, yq)
    ensures var n, tq := Min(noutput, |xq|), PushedTags(g, s, taken);
            && (s.sync == 0 ==> n <= |tq|)
            && var tags := if s.sync == 0 then Stamps(tq[..n]) else NoTags(n);
            && Output(g, FirstLane(packed), s, taken, noutput) == Items(xq[..n], tags)
            && (!packed ==> Output(g, UnpackedY, s, taken, noutput) == Items(yq[..n], tags))
            && AfterWork(g, s, taken, noutput) ==
               Src(s.popped + taken, s.given + n, if s.sync == 0 then tq[n..] else tq, s.sync)
  {
    hide Vectors, Tags, Output, Items, Stamps, NoTags, PushedTags;
    OutputIsFront(g, FirstLane(packed), s, taken, noutput, xq);
    if !packed {
      OutputIsFront(g, UnpackedY, s, taken, noutput, yq);
    }
    FrozenTags(g, s, taken);
  }

  lemma FrozenTags(g: Geometry, s: Src, taken: seq<Packet>)
    ensures s.sync != 0 ==> PushedTags(g, s, taken) == s.tagq
  {
  }

  // --- When a call has a defined effect ---------------------------------------------------------

  // Processing the last packet stays inside the frame buffer and comes to an end.
  predicate LastDefined(g: Geometry, ps: seq<Packet>)
  {
    |ps| > 0 ==>
      var p := ps[|ps| - 1];
      Accepted(g, p) && FillEnds(LastTs(ps[..|ps| - 1]), p.ts)
  }

  // The call with those arrivals on that ring takes these packets and no more.
  predicate TakesJust(g: Geometry, s: Src, ring: seq<Packet>, taken: seq<Packet>, noutput: nat)
  {
    Demanded(g, s, taken, noutput) && (|taken| >= |ring| || Queued(g, s.(popped := s.popped + taken)) >= noutput)
  }

  /** The call writes only inside its buffers, ends, and pops no tag that is not there. */
  ghost predicate CallDefined(g: Geometry, s: Src, ring: seq<Packet>, arrivals: seq<seq<Packet>>, noutput: nat)
  {
    forall k: nat {:trigger RingTaken(ring, arrivals, k)} :: k <= |ring| ==>
      var taken := RingTaken(ring, arrivals, k).1;
      && (|taken| > 0 && Demanded(g, s, taken, noutput) ==> LastDefined(g, s.popped + taken))
      && (TakesJust(g, s, ring, taken, noutput) ==> PopsSafely(g, s, taken, noutput))
  }

  ghost predicate InRangeOnGrid(g: Geometry, ps: seq<Packet>, c: nat)
  {
    forall p :: p in ps ==> Accepted(g, p) && p.ts % 16 == c
  }

  lemma {:induction false} PushedInRange(g: Geometry, ring: seq<Packet>, ps: seq<Packet>, c: nat)
    requires InRangeOnGrid(g, ring, c) && InRangeOnGrid(g, ps, c)
    ensures InRangeOnGrid(g, RingPushAll(ring, ps), c)
  {
    if |ps| == 0 {
    } else {
      PushedInRange(g, ring, ps[..|ps| - 1], c);
    }
  }

  lemma {:induction false} TakenInRange(g: Geometry, ring: seq<Packet>, arrivals: seq<seq<Packet>>, k: nat, c: nat)
    requires InRangeOnGrid(g, ring, c) && forall ps :: ps in arrivals ==> InRangeOnGrid(g, ps, c)
    ensures InRangeOnGrid(g, RingTaken(ring, arrivals, k).0, c)
    ensures InRangeOnGrid(g, RingTaken(ring, arrivals, k).1, c)
  {
    if k == 0 {
    } else {
      TakenInRange(g, ring, arrivals, k - 1, c);
      PushedInRange(g, RingTaken(ring, arrivals, k - 1).0, Arrival(arrivals, k - 1), c);
    }
  }

  lemma LastInRange(g: Geometry, ps: seq<Packet>, taken: seq<Packet>, c: nat)
    requires |taken| > 0 && InRangeOnGrid(g, taken, c) && forall p :: p in ps ==> p.ts % 16 == c
    ensures LastDefined(g, ps + taken)
  {
    var all := ps + taken;
    var q, p := all[..|all| - 1], all[|all| - 1];
    assert p in taken;
    if |q| > 0 {
      assert q[|q| - 1] in ps || q[|q| - 1] in taken;
    }
  }

  /** With the queues in step, packets of the channel range, and all timestamps on one grid of 16,
      every call is defined, whatever arrives when. */
  lemma DefinedInStep(g: Geometry, s: Src, ring: seq<Packet>, arrivals: seq<seq<Packet>>, noutput: nat, c: nat)
    requires InStep(g, s) && forall p :: p in s.popped ==> p.ts % 16 == c
    requires InRangeOnGrid(g, ring, c) && forall ps :: ps in arrivals ==> InRangeOnGrid(g, ps, c)
    ensures CallDefined(g, s, ring, arrivals, noutput)
  {
    hide LastDefined, InRangeOnGrid, InStep, PopsSafely, AfterWork, PushedTags;
    forall k: nat {:trigger RingTaken(ring, arrivals, k)} | k <= |ring|
      ensures |RingTaken(ring, arrivals, k).1| > 0 ==> LastDefined(g, s.popped + RingTaken(ring, arrivals, k).1)
      ensures PopsSafely(g, s, RingTaken(ring, arrivals, k).1, noutput)
    {
      var taken := RingTaken(ring, arrivals, k).1;
      WorkInStep(g, s, taken, noutput);
      TakenInRange(g, ring, arrivals, k, c);
      if |taken| > 0 {
        LastInRange(g, s.popped, taken, c);
      }
    }
  }

  class SnapSource {
    const g: Geometry
    const packed: bool
    const notifyMissed: bool
    const xBuffer: array<int>
    const yBuffer: array<int>
    var lut: seq<int>
    var lastTimestamp: nat
    var framePackets: nat
    var syncTimestamp: nat
    var xQueue: seq<Vec>
    var yQueue: seq<Vec>
    var tagQueue: seq<nat>
    var ring: seq<Packet>
    // History: packets pushed on the ring, packets taken off it and at which positions of
    // `pushed`, vectors handed downstream.
    ghost var pushed: seq<Packet>
    ghost var popped: seq<Packet>
    ghost var positions: seq<nat>
    ghost var given: nat

    function XLane(): Lane { FirstLane(packed) }

    ghost predicate BuffersOk()
      reads this`lut
    {
      && xBuffer.Length == 16 * VecLen(g)
      && yBuffer.Length == (if packed then 0 else 16 * VecLen(g))
      && xBuffer != yBuffer
      && |lut| == 16 && forall i :: 0 <= i < 16 ==> lut[i] == TwosComplement4Bit(i)
    }

    ghost predicate RingOk()
      reads this`ring, this`pushed, this`popped, this`positions
    {
      RingInv(ring, pushed, popped, positions)
    }

    ghost predicate QueuesOk()
      reads this`popped, this`given, this`xQueue, this`yQueue
    {
      VectorsLeft(g, packed, popped, given, xQueue, yQueue)
    }

    // The frame buffers and their bookkeeping are those of the packets q.
    ghost predicate FramesOk(q: seq<Packet>)
      requires BuffersOk()
      reads this`lut, this`lastTimestamp, this`framePackets, xBuffer, yBuffer
    {
      && RowsOf(xBuffer[..], VecLen(g)) == Frame(g, XLane(), q)
      && (!packed ==> RowsOf(yBuffer[..], VecLen(g)) == Frame(g, UnpackedY, q))
      && lastTimestamp == LastTs(q)
      && framePackets == FramePackets(g, q)
    }

    ghost predicate Valid()
      reads this, xBuffer, yBuffer
    {
      BuffersOk() && RingOk() && QueuesOk() && FramesOk(popped)
    }

    // The state the run theorems speak about.
    ghost function Abs(): Src
      reads this`popped, this`given, this`tagQueue, this`syncTimestamp
    {
      Src(popped, given, tagQueue, syncTimestamp)
    }

    constructor (g: Geometry, packed: bool, notifyMissed: bool)
      ensures Valid() && this.g == g && this.packed == packed && this.notifyMissed == notifyMissed
      ensures Abs() == FRESH && pushed == []
      ensures fresh(xBuffer) && fresh(yBuffer)
    {
      this.g := g;
      this.packed := packed;
      this.notifyMissed := notifyMissed;
      xBuffer := new int[16 * VecLen(g)](i => 0);
      yBuffer := new int[if packed then 0 else 16 * VecLen(g)](i => 0);
      lut := [];
      lastTimestamp, framePackets, syncTimestamp := 0, 0, 0;
      xQueue, yQueue, tagQueue, ring := [], [], [], [];
      pushed, popped, positions, given := [], [], [], 0;
      new;
      lut := BuildLut();
      ZeroRows(g, xBuffer[..]);
      ZeroFrame(g, XLane());
      if !packed {
        ZeroRows(g, yBuffer[..]);
        ZeroFrame(g, UnpackedY);
      }
    }

    /** The receive thread queues a packet. One of a channel outside the range is logged as skipped, and
        queued all the same. */
    method Receive(p: Packet)
      requires Valid()
      modifies this`ring, this`pushed
      ensures Valid() && Abs() == old(Abs())
      ensures ring == RingPush(old(ring), p) && pushed == old(pushed) + [p]
    {
      hide FramesOk, VectorsLeft, RingInv;
      PushKeeps(ring, pushed, popped, positions, p);
      ring := RingPush(ring, p);
      pushed := pushed + [p];
    }

    method ReceiveAll(ps: seq<Packet>)
      requires Valid()
      modifies this`ring, this`pushed
      ensures Valid() && Abs() == old(Abs())
      ensures pushed == old(pushed) + ps && |ring| >= old(|ring|)
      ensures ring == RingPushAll(old(ring), ps)
    {
      hide FramesOk, RingOk, VectorsLeft, BuffersOk;
      for i := 0 to |ps|
        invariant Valid() && Abs() == old(Abs())
        invariant pushed == old(pushed) + ps[..i] && |ring| >= old(|ring|)
        invariant ring == RingPushAll(old(ring), ps[..i])
      {
        assert ps[..i + 1][..i] == ps[..i];
        Receive(ps[i]);
      }
      assert ps[..|ps|] == ps;
    }

    /** A sync message sets the sync timestamp; one that carries no number is ignored. */
    method HandleSyncMsg(msg: Tag)
      requires Valid()
      modifies this`syncTimestamp
      ensures Valid()
      ensures Abs() == if msg.Stamp? then old(Abs()).(sync := msg.ts) else old(Abs())
    {
      if msg.Stamp? {
        syncTimestamp := msg.ts;
      }
    }

    // --- Copying a packet into the frame buffers ----------------------------------------------

    method CopyPackedRow(p: Packet, t: nat, base: nat)
      requires BuffersOk() && packed && t < 16 && base + 512 <= xBuffer.Length
      modifies xBuffer
      ensures xBuffer[..] == Spliced(old(xBuffer[..]), base, PacketRow(PackedXY, p, t))
    {
      for s := 0 to 256
        invariant forall k :: 0 <= k < 2 * s ==> xBuffer[base + k] == Cell(PackedXY, p, t, k)
        invariant forall i :: 0 <= i < base || base + 2 * s <= i < xBuffer.Length ==> xBuffer[i] == old(xBuffer[i])
      {
        xBuffer[base + 2 * s] := Raw(p, s, t, 0);
        xBuffer[base + 2 * s + 1] := Raw(p, s, t, 1);
      }
      IsSpliced(old(xBuffer[..]), xBuffer[..], base, PacketRow(PackedXY, p, t));
    }

    method CopyUnpackedRow(p: Packet, t: nat, base: nat)
      requires BuffersOk() && !packed && t < 16 && base + 512 <= xBuffer.Length
      modifies xBuffer, yBuffer
      ensures xBuffer[..] == Spliced(old(xBuffer[..]), base, PacketRow(UnpackedX, p, t))
      ensures yBuffer[..] == Spliced(old(yBuffer[..]), base, PacketRow(UnpackedY, p, t))
    {
      hide Spliced;
      for s := 0 to 256
        invariant forall k :: 0 <= k < 2 * s ==> xBuffer[base + k] == Cell(UnpackedX, p, t, k)
        invariant forall k :: 0 <= k < 2 * s ==> yBuffer[base + k] == Cell(UnpackedY, p, t, k)
        invariant forall i :: 0 <= i < base || base + 2 * s <= i < xBuffer.Length ==> xBuffer[i] == old(xBuffer[i])
        invariant forall i :: 0 <= i < base || base + 2 * s <= i < yBuffer.Length ==> yBuffer[i] == old(yBuffer[i])
      {
        UnpackSample(xBuffer, base + 2 * s, Raw(p, s, t, 0));
        UnpackSample(yBuffer, base + 2 * s, Raw(p, s, t, 1));
      }
      IsSpliced(old(xBuffer[..]), xBuffer[..], base, PacketRow(UnpackedX, p, t));
      IsSpliced(old(yBuffer[..]), yBuffer[..], base, PacketRow(UnpackedY, p, t));
    }

    // Decodes the two halves of one sample byte.
    method UnpackSample(buffer: array<int>, at: nat, sample: Byte)
      requires BuffersOk() && at + 1 < buffer.Length
      modifies buffer
      ensures buffer[at] == Nibble(sample, 0) && buffer[at + 1] == Nibble(sample, 1)
      ensures forall i :: 0 <= i < buffer.Length && i != at && i != at + 1 ==> buffer[i] == old(buffer[i])
    {
      buffer[at] := lut[sample / 16];
      buffer[at + 1] := lut[sample % 16];
    }

    // copy_volt_data_to_vector_buffer: lays the packet over every time row.
    method CopyVoltData(p: Packet)
      requires BuffersOk() && Accepted(g, p)
      modifies xBuffer, yBuffer
      ensures Overlaid(g, XLane(), p, old(RowsOf(xBuffer[..], VecLen(g))), RowsOf(xBuffer[..], VecLen(g)))
      ensures !packed ==>
                Overlaid(g, UnpackedY, p, old(RowsOf(yBuffer[..], VecLen(g))), RowsOf(yBuffer[..], VecLen(g)))
    {
      for t := 0 to 16
        invariant OverlaidUpTo(XLane(), p, t, old(xBuffer[..]), xBuffer[..])
        invariant !packed ==> OverlaidUpTo(UnpackedY, p, t, old(yBuffer[..]), yBuffer[..])
      {
        ghost var x, y := xBuffer[..], yBuffer[..];
        var base := RowBase(g, p, t);
        if packed {
          CopyPackedRow(p, t, base);
        } else {
          CopyUnpackedRow(p, t, base);
          NextRow(UnpackedY, p, t, old(yBuffer[..]), y, yBuffer[..]);
        }
        NextRow(XLane(), p, t, old(xBuffer[..]), x, xBuffer[..]);
      }
    }

    // Rows below t have the packet laid over them, the others are as before.
    ghost predicate OverlaidUpTo(lane: Lane, p: Packet, t: nat, was: seq<int>, now: seq<int>)
    {
      && |was| == |now| == 16 * VecLen(g)
      && forall u :: 0 <= u < 16 ==>
           RowOf(now, VecLen(g), u) ==
           if u < t then OverlayRow(g, lane, p, u, RowOf(was, VecLen(g), u)) else RowOf(was, VecLen(g), u)
    }

    lemma NextRow(lane: Lane, p: Packet, t: nat, was: seq<int>, now: seq<int>, next: seq<int>)
      requires t < 16 && Accepted(g, p) && OverlaidUpTo(lane, p, t, was, now)
      requires next == Spliced(now, RowBase(g, p, t), PacketRow(lane, p, t))
      ensures OverlaidUpTo(lane, p, t + 1, was, next)
    {
      forall u: nat | u < 16
        ensures RowOf(next, VecLen(g), u) ==
                if u == t then OverlayRow(g, lane, p, t, RowOf(now, VecLen(g), t)) else RowOf(now, VecLen(g), u)
      {
        SplicedRows(g, lane, p, t, u, now);
      }
    }

    // --- Queueing ------------------------------------------------------------------------------

    // queue_voltage_data: the 16 rows of the buffers go on the queues, tagged with `ts`.
    method QueueVoltageData(ts: nat)
      requires BuffersOk()
      modifies this`xQueue, this`yQueue, this`tagQueue
      ensures xQueue == old(xQueue) + RowsOf(xBuffer[..], VecLen(g))
      ensures yQueue == old(yQueue) + (if packed then [] else RowsOf(yBuffer[..], VecLen(g)))
      ensures tagQueue == old(tagQueue) + (if syncTimestamp == 0 then SameTag(ts) else [])
    {
      hide RowOf, VecLen;
      ghost var xs, ys := RowsOf(xBuffer[..], VecLen(g)), if packed then [] else RowsOf(yBuffer[..], VecLen(g));
      for t := 0 to 16
        invariant xQueue == old(xQueue) + xs[..t]
        invariant yQueue == old(yQueue) + (if packed then [] else ys[..t])
        invariant tagQueue == old(tagQueue) + (if syncTimestamp == 0 then SameTag(ts)[..t] else [])
      {
        QueueRow(t, ts);
      }
    }

    // Row t of the buffers.
    method QueueRow(t: nat, ts: nat)
      requires BuffersOk() && t < 16
      modifies this`xQueue, this`yQueue, this`tagQueue
      ensures xQueue == old(xQueue) + [RowOf(xBuffer[..], VecLen(g), t)]
      ensures yQueue == old(yQueue) + (if packed then [] else [RowOf(yBuffer[..], VecLen(g), t)])
      ensures tagQueue == old(tagQueue) + (if syncTimestamp == 0 then [ts] else [])
    {
      RowsApart(VecLen(g), t, t);
      var start := t * VecLen(g);
      xQueue := xQueue + [xBuffer[start..start + VecLen(g)]];
      if !packed {
        yQueue := yQueue + [yBuffer[start..start + VecLen(g)]];
      }
      if syncTimestamp == 0 {
        tagQueue := tagQueue + [ts];
      }
    }

    // Queues 16 zero vectors for one missing timestamp.
    method QueueZeros(ts: nat)
      modifies this`xQueue, this`yQueue, this`tagQueue
      ensures xQueue == old(xQueue) + Zeros(g, 16)
      ensures yQueue == old(yQueue) + (if packed then [] else Zeros(g, 16))
      ensures tagQueue == old(tagQueue) + (if syncTimestamp == 0 then SameTag(ts) else [])
    {
      for i := 0 to 16
        invariant xQueue == old(xQueue) + Zeros(g, i)
        invariant yQueue == old(yQueue) + (if packed then [] else Zeros(g, i))
        invariant tagQueue == old(tagQueue) + (if syncTimestamp == 0 then SameTag(ts)[..i] else [])
      {
        xQueue := xQueue + [ZeroVec(g)];
        if !packed {
          yQueue := yQueue + [ZeroVec(g)];
        }
        if syncTimestamp == 0 {
          tagQueue := tagQueue + [ts];
        }
      }
    }

    // The loop over the missing timestamps between l and s, in 64-bit arithmetic.
    method FillMissing(l: nat, s: nat)
      requires l < s < TWO_64 && s <= TWO_64 - 16 + l % 16
      modifies this`xQueue, this`yQueue, this`tagQueue
      ensures var n := (s - l - 1) / 16;
              && xQueue == old(xQueue) + Zeros(g, 16 * n)
              && yQueue == old(yQueue) + (if packed then [] else Zeros(g, 16 * n))
              && tagQueue == old(tagQueue) + (if syncTimestamp == 0 then FillTags(l, 16 * n) else [])
    {
      var missedTimestamp := (l + 16) % TWO_64;
      ghost var n := 0;
      while missedTimestamp < s
        invariant missedTimestamp == l + 16 * (n + 1) < TWO_64
        invariant n > 0 ==> l + 16 * n < s
        invariant xQueue == old(xQueue) + Zeros(g, 16 * n)
        invariant yQueue == old(yQueue) + (if packed then [] else Zeros(g, 16 * n))
        invariant tagQueue == old(tagQueue) + (if syncTimestamp == 0 then FillTags(l, 16 * n) else [])
      {
        QueueZeros(missedTimestamp);
        assert Zeros(g, 16 * n) + Zeros(g, 16) == Zeros(g, 16 * (n + 1));
        assert FillTags(l, 16 * n) + SameTag(missedTimestamp) == FillTags(l, 16 * (n + 1));
        missedTimestamp := (missedTimestamp + 16) % TWO_64;
        n := n + 1;
      }
      assert n == (s - l - 1) / 16;
    }

    // Counts and fills the timestamps missing before s; returns the updated 32-bit count.
    method BridgeGap(s: nat, skipped: int) returns (skipped': int)
      requires s < TWO_64 && FillEnds(lastTimestamp, s) && -0x8000_0000 <= skipped < 0x8000_0000
      modifies this`xQueue, this`yQueue, this`tagQueue
      ensures var n := 16 * Fill(lastTimestamp, s);
              && xQueue == old(xQueue) + Zeros(g, n)
              && yQueue == old(yQueue) + (if packed then [] else Zeros(g, n))
              && tagQueue == old(tagQueue) + (if syncTimestamp == 0 then FillTags(lastTimestamp, n) else [])
      ensures skipped' == if 0 < lastTimestamp < s then ToInt32(skipped + MissedSets(lastTimestamp, s) * g.blocks)
                          else skipped
    {
      skipped' := skipped;
      if lastTimestamp > 0 && s > lastTimestamp {
        var missedSets := ((s - lastTimestamp) / 16 + TWO_64 - 1) % TWO_64;
        AddNothing(skipped, g.blocks);
        if missedSets > 0 {
          skipped' := AddMissed(skipped, missedSets, g.blocks);
          if missedSets <= MAX_MISSED_SETS {
            FillMissing(lastTimestamp, s);
          }
        }
      }
    }

    // memset of the frame buffers.
    method ClearBuffers()
      requires BuffersOk()
      modifies xBuffer, yBuffer
      ensures RowsOf(xBuffer[..], VecLen(g)) == Zeros(g, 16)
      ensures !packed ==> RowsOf(yBuffer[..], VecLen(g)) == Zeros(g, 16)
    {
      Clear(xBuffer);
      if !packed {
        Clear(yBuffer);
        ZeroRows(g, yBuffer[..]);
      }
      ZeroRows(g, xBuffer[..]);
    }

    method Clear(a: array<int>)
      modifies a
      ensures forall i :: 0 <= i < a.Length ==> a[i] == 0
    {
      forall i | 0 <= i < a.Length {
        a[i] := 0;
      }
    }

    // The queues after packet p was processed on top of the packets q.
    ghost predicate QueuesAfter(q: seq<Packet>, p: Packet, xq: seq<Vec>, yq: seq<Vec>, tq: seq<nat>)
      reads this`xQueue, this`yQueue, this`tagQueue, this`syncTimestamp
    {
      && xQueue == Extended(g, XLane(), q, p, xq)
      && yQueue == (if packed then yq else Extended(g, UnpackedY, q, p, yq))
      && tagQueue == (if syncTimestamp == 0 then TagsExtended(g, q, p, tq) else tq)
    }

    // The body of the packet loop of work_volt_mode, after the packet was taken off the ring.
    method ProcessPacket(p: Packet, skipped: int, ghost q: seq<Packet>) returns (skipped': int)
      requires BuffersOk() && FramesOk(q) && LastDefined(g, q + [p]) && -0x8000_0000 <= skipped < 0x8000_0000
      modifies xBuffer, yBuffer, this`xQueue, this`yQueue, this`tagQueue, this`lastTimestamp, this`framePackets
      ensures FramesOk(q + [p])
      ensures skipped' == ToInt32(skipped + Lost(g, q + [p]) - Lost(g, q))
      ensures QueuesAfter(q, p, old(xQueue), old(yQueue), old(tagQueue))
    {
      if OnePacket(g) {
        skipped' := NextOnePacket(p, skipped, q);
      } else if lastTimestamp > 0 && p.ts != lastTimestamp {
        skipped' := NextFrame(p, skipped, q);
      } else {
        JoinFrame(p, skipped, q);
        skipped' := skipped;
      }
    }

    // One-packet mode: missing timestamps first, then the packet, which is a whole frame.
    method NextOnePacket(p: Packet, skipped: int, ghost q: seq<Packet>) returns (skipped': int)
      requires BuffersOk() && FramesOk(q) && OnePacket(g) && LastDefined(g, q + [p])
      requires -0x8000_0000 <= skipped < 0x8000_0000
      modifies xBuffer, yBuffer, this`xQueue, this`yQueue, this`tagQueue, this`lastTimestamp
      ensures FramesOk(q + [p])
      ensures skipped' == ToInt32(skipped + Lost(g, q + [p]) - Lost(g, q))
      ensures QueuesAfter(q, p, old(xQueue), old(yQueue), old(tagQueue))
    {
      hide Lost, Vectors, Tags, RowsOf, MissedSets, ToInt32;
      skipped' := BridgeGap(p.ts, skipped);
      CopyAfter(p, q);
      QueueVoltageData(p.ts);
      lastTimestamp := p.ts;
      CountsOnePacket(g, q, p, skipped);
    }

    // Multi-packet mode: the finished frame first, then missing timestamps, then a cleared buffer
    // for the new frame.
    method NextFrame(p: Packet, skipped: int, ghost q: seq<Packet>) returns (skipped': int)
      requires BuffersOk() && FramesOk(q) && !OnePacket(g) && Closes(g, q, p) && LastDefined(g, q + [p])
      requires -0x8000_0000 <= skipped < 0x8000_0000
      modifies xBuffer, yBuffer, this`xQueue, this`yQueue, this`tagQueue, this`lastTimestamp, this`framePackets
      ensures FramesOk(q + [p])
      ensures skipped' == ToInt32(skipped + Lost(g, q + [p]) - Lost(g, q))
      ensures QueuesAfter(q, p, old(xQueue), old(yQueue), old(tagQueue))
    {
      hide Lost, Vectors, Tags, RowsOf, MissedSets, ToInt32;
      QueueVoltageData(p.ts);
      skipped' := ToInt32(skipped + (g.blocks - framePackets));
      skipped' := BridgeGap(p.ts, skipped');
      framePackets := 1;
      ClearBuffers();
      CopyAfter(p, q);
      lastTimestamp := p.ts;
      CountsAfterClose(g, q, p, skipped);
    }

    // Multi-packet mode: one more packet of the open frame.
    method JoinFrame(p: Packet, ghost skipped: int, ghost q: seq<Packet>)
      requires BuffersOk() && FramesOk(q) && !OnePacket(g) && !Closes(g, q, p) && Accepted(g, p)
      requires -0x8000_0000 <= skipped < 0x8000_0000
      modifies xBuffer, yBuffer, this`lastTimestamp, this`framePackets
      ensures FramesOk(q + [p])
      ensures skipped == ToInt32(skipped + Lost(g, q + [p]) - Lost(g, q))
      ensures QueuesAfter(q, p, xQueue, yQueue, tagQueue)
    {
      hide Lost, Vectors, Tags, RowsOf, ToInt32, Frame, BufCell, MissedSets;
      CountsInFrame(g, q, p, skipped);
      CopyAfter(p, q);
      if lastTimestamp == 0 {
        lastTimestamp := p.ts;
      }
      framePackets := framePackets + 1;
    }

    // Copying p over the buffers that belong to q (or were just cleared) gives the frame of q + [p].
    method CopyAfter(p: Packet, ghost q: seq<Packet>)
      requires BuffersOk() && Accepted(g, p)
      requires RowsOf(xBuffer[..], VecLen(g)) == if Closes(g, q, p) then Zeros(g, 16) else Frame(g, XLane(), q)
      requires !packed ==>
                 RowsOf(yBuffer[..], VecLen(g)) == if Closes(g, q, p) then Zeros(g, 16) else Frame(g, UnpackedY, q)
      modifies xBuffer, yBuffer
      ensures RowsOf(xBuffer[..], VecLen(g)) == Frame(g, XLane(), q + [p])
      ensures !packed ==> RowsOf(yBuffer[..], VecLen(g)) == Frame(g, UnpackedY, q + [p])
    {
      ghost var x, y := xBuffer[..], yBuffer[..];
      CopyVoltData(p);
      FrameStep(g, XLane(), q, p, RowsOf(x, VecLen(g)), RowsOf(xBuffer[..], VecLen(g)));
      if !packed {
        FrameStep(g, UnpackedY, q, p, RowsOf(y, VecLen(g)), RowsOf(yBuffer[..], VecLen(g)));
      }
    }

    // --- The work call ---------------------------------------------------------------------------

    // fill_local_buffer: takes the front packet off the ring.
    method FillLocalBuffer() returns (p: Packet)
      requires RingOk() && |ring| > 0
      modifies this`ring, this`popped, this`positions
      ensures p == old(ring)[0] && ring == old(ring)[1..]
      ensures popped == old(popped) + [p] && RingOk()
    {
      PopKeeps(ring, pushed, popped, positions);
      p := ring[0];
      positions := positions + [|pushed| - |ring|];
      popped := popped + [p];
      ring := ring[1..];
    }

    // Takes one packet off the ring and processes it.
    method TakePacket(skipped: int) returns (skipped': int, ghost p: Packet)
      requires BuffersOk() && RingOk() && FramesOk(popped) && |ring| > 0 && LastDefined(g, popped + [ring[0]])
      requires -0x8000_0000 <= skipped < 0x8000_0000
      modifies xBuffer, yBuffer, this`xQueue, this`yQueue, this`tagQueue, this`lastTimestamp, this`framePackets,
               this`ring, this`popped, this`positions
      ensures BuffersOk() && RingOk() && FramesOk(popped)
      ensures p == old(ring)[0] && ring == old(ring)[1..] && popped == old(popped) + [p]
      ensures QueuesAfter(old(popped), p, old(xQueue), old(yQueue), old(tagQueue))
      ensures skipped' == ToInt32(skipped + Lost(g, popped) - Lost(g, old(popped)))
    {
      hide Lost, Vectors, Tags, RowsOf, ToInt32, Extended, TagsExtended, RingInv, Frame, FramePackets;
      ghost var q := popped;
      var packet := FillLocalBuffer();
      p := packet;
      skipped' := ProcessPacket(packet, skipped, q);
    }

    // The same, seen from the specified streams.
    method NextPacket(skipped: int, ghost s: Src, ghost taken: seq<Packet>) returns (skipped': int, ghost p: Packet)
      requires Valid() && |ring| > 0 && LastDefined(g, popped + [ring[0]]) && -0x8000_0000 <= skipped < 0x8000_0000
      requires popped == s.popped + taken && tagQueue == PushedTags(g, s, taken) && syncTimestamp == s.sync
      modifies xBuffer, yBuffer, this`xQueue, this`yQueue, this`tagQueue, this`lastTimestamp, this`framePackets,
               this`ring, this`popped, this`positions
      ensures Valid()
      ensures p == old(ring)[0] && ring == old(ring)[1..] && popped == old(popped) + [p]
      ensures tagQueue == PushedTags(g, s, taken + [p])
      ensures skipped' == ToInt32(skipped + Lost(g, popped) - Lost(g, old(popped)))
    {
      hide VectorsLeft, Extended, TagsExtended, PushedTags, Lost, FramesOk, RingOk;
      LeftAfter(g, packed, popped, ring[0], given, xQueue, yQueue);
      TagsPushed(g, s, taken, ring[0]);
      FrozenTags(g, s, taken);
      skipped', p := TakePacket(skipped);
    }

    // Moves up to `noutput` queued vectors to the outputs, with a tag each while tags are in use.
    method DeliverItems(noutput: nat) returns (xOut: seq<Item>, yOut: seq<Item>)
      requires !packed ==> |yQueue| == |xQueue|
      requires syncTimestamp == 0 ==> Min(noutput, |xQueue|) <= |tagQueue|
      modifies this`xQueue, this`yQueue, this`tagQueue
      ensures var n := Min(noutput, |old(xQueue)|);
              var tags := if syncTimestamp == 0 then Stamps(old(tagQueue)[..n]) else NoTags(n);
              && xOut == Items(old(xQueue)[..n], tags)
              && yOut == (if packed then [] else Items(old(yQueue)[..n], tags))
              && xQueue == old(xQueue)[n..]
              && yQueue == (if packed then old(yQueue) else old(yQueue)[n..])
              && tagQueue == (if syncTimestamp == 0 then old(tagQueue)[n..] else old(tagQueue))
    {
      hide Vecs, TagsOf, Stamps, NoTags, Items, Fronts;
      var itemsReturned := if |xQueue| >= noutput then noutput else |xQueue|;
      ghost var tagged, xq, yq, tq := syncTimestamp == 0, xQueue, yQueue, tagQueue;
      xOut, yOut := [], [];
      NoFronts(xq, tq, tagged);
      NoFronts(yq, tq, tagged);
      for i := 0 to itemsReturned
        invariant tagged == (syncTimestamp == 0)
        invariant xQueue == xq[i..]
        invariant yQueue == if packed then yq else yq[i..]
        invariant tagQueue == if tagged then tq[i..] else tq
        invariant Fronts(xOut, xq, tq, tagged, i)
        invariant if packed then yOut == [] else Fronts(yOut, yq, tq, tagged, i)
      {
        OneMoreFront(xOut, xq, tq, tagged, i);
        Tail(xq, i);
        if !packed {
          OneMoreFront(yOut, yq, tq, tagged, i);
          Tail(yq, i);
        }
        if tagged {
          Tail(tq, i);
        }
        var x, y := DeliverOne();
        xOut := xOut + [x];
        if !packed {
          yOut := yOut + [y];
        }
      }
      ItemByItem(xq, tq, tagged, xOut, itemsReturned);
      if !packed {
        ItemByItem(yq, tq, tagged, yOut, itemsReturned);
      }
    }

    method DeliverOne() returns (x: Item, y: Item)
      requires |xQueue| > 0 && (!packed ==> |yQueue| > 0) && (syncTimestamp == 0 ==> |tagQueue| > 0)
      modifies this`xQueue, this`yQueue, this`tagQueue
      ensures var tag := if syncTimestamp == 0 then Stamp(old(tagQueue)[0]) else NoTag;
              x == Item(old(xQueue)[0], tag) && (!packed ==> y == Item(old(yQueue)[0], tag))
      ensures xQueue == old(xQueue)[1..]
      ensures yQueue == if packed then old(yQueue) else old(yQueue)[1..]
      ensures tagQueue == if syncTimestamp == 0 then old(tagQueue)[1..] else old(tagQueue)
    {
      var tag := NoTag;
      if syncTimestamp == 0 {
        tag := Stamp(tagQueue[0]);
        tagQueue := tagQueue[1..];
      }
      x := Item(xQueue[0], tag);
      y := x;
      xQueue := xQueue[1..];
      if !packed {
        y := Item(yQueue[0], tag);
        yQueue := yQueue[1..];
      }
    }

    /** work_volt_mode: counts the ring once, takes packets while fewer than `noutput` vectors are
        queued, delivers, and reports what it missed. `arrivals[k]` is what the receive thread pushes
        just before the k-th packet is taken, so the contract holds for every interleaving of the two
        threads. */
    method Work(noutput: nat, arrivals: seq<seq<Packet>>)
      returns (xOut: seq<Item>, yOut: seq<Item>, reported: nat, ghost taken: seq<Packet>)
      requires Valid() && CallDefined(g, Abs(), ring, arrivals, noutput)
      modifies this, xBuffer, yBuffer
      ensures Valid()
      ensures TakesJust(g, old(Abs()), old(ring), taken, noutput) && |taken| <= old(|ring|)
      ensures PopsSafely(g, old(Abs()), taken, noutput)
      ensures Abs() == AfterWork(g, old(Abs()), taken, noutput)
      ensures xOut == Output(g, XLane(), old(Abs()), taken, noutput)
      ensures yOut == if packed then [] else Output(g, UnpackedY, old(Abs()), taken, noutput)
      ensures reported == if notifyMissed then Noticed(ToInt32(Lost(g, popped) - Lost(g, old(popped)))) else 0
      ensures pushed == old(pushed) + Arrived(arrivals, |taken|)
      ensures (ring, taken) == RingTaken(old(ring), arrivals, |taken|)
    {
      hide Lost, FramesOk, RingOk, Vectors, Tags, VectorsLeft, AfterWork, Output, Demanded, Items, PushedTags,
           LastDefined;
      ghost var s := Abs();
      var skipped;
      skipped, taken := TakePackets(noutput, arrivals);
      xOut, yOut := DeliverQueued(noutput, s, taken);
      reported := NotifyMissed(skipped);
    }

    // The number logged as missing, or 0 if nothing is.
    method NotifyMissed(skipped: int) returns (reported: nat)
      ensures reported == if notifyMissed then Noticed(skipped) else 0
    {
      reported := 0;
      if skipped > 0 && notifyMissed {
        reported := skipped;
      }
    }

    // The delivery at the end of work_volt_mode, seen from the specified streams.
    method DeliverQueued(noutput: nat, ghost s: Src, ghost taken: seq<Packet>)
      returns (xOut: seq<Item>, yOut: seq<Item>)
      requires Valid() && PopsSafely(g, s, taken, noutput)
      requires popped == s.popped + taken && given == s.given && syncTimestamp == s.sync
      requires tagQueue == PushedTags(g, s, taken)
      modifies this`xQueue, this`yQueue, this`tagQueue, this`given
      ensures Valid() && Abs() == AfterWork(g, s, taken, noutput)
      ensures xOut == Output(g, XLane(), s, taken, noutput)
      ensures yOut == if packed then [] else Output(g, UnpackedY, s, taken, noutput)
    {
      hide FramesOk, RingOk, BuffersOk, Vectors, Tags, VectorsLeft, AfterWork, Output, Items, Stamps, NoTags,
           PopsSafely, PushedTags;
      ghost var xq, yq := xQueue, yQueue;
      QueueLeft(g, packed, popped, given, xq, yq);
      DeliveredIsOutput(g, packed, s, taken, noutput, xq, yq);
      RestStays(g, packed, popped, given, xq, yq, Min(noutput, |xq|));
      xOut, yOut := DeliverItems(noutput);
      given := given + |xOut|;
    }

    // The packet loop of work_volt_mode.
    method TakePackets(noutput: nat, arrivals: seq<seq<Packet>>) returns (skipped: int, ghost taken: seq<Packet>)
      requires Valid() && CallDefined(g, Abs(), ring, arrivals, noutput)
      modifies xBuffer, yBuffer, this`xQueue, this`yQueue, this`tagQueue, this`lastTimestamp, this`framePackets,
               this`ring, this`pushed, this`popped, this`positions
      ensures Valid() && popped == old(popped) + taken
      ensures tagQueue == PushedTags(g, old(Abs()), taken)
      ensures TakesJust(g, old(Abs()), old(ring), taken, noutput) && |taken| <= old(|ring|)
      ensures skipped == ToInt32(Lost(g, popped) - Lost(g, old(popped)))
      ensures pushed == old(pushed) + Arrived(arrivals, |taken|)
      ensures (ring, taken) == RingTaken(old(ring), arrivals, |taken|)
    {
      hide Lost, FramesOk, RingOk, Closes, Vectors, Tags, VectorsLeft, ToInt32, BuffersOk, RingPushAll, PushedTags,
           LastDefined, PopsSafely, CallDefined, RingInv, FillEnds;
      var n := |ring|;
      var packetsAvailable := n;
      skipped, taken := 0, [];
      ghost var s := Abs();
      NothingTaken(s);
      while packetsAvailable > 0 && |xQueue| < noutput
        invariant Valid() && popped == s.popped + taken && given == s.given && syncTimestamp == s.sync
        invariant tagQueue == PushedTags(g, s, taken)
        invariant packetsAvailable + |taken| == n && 0 <= packetsAvailable <= |ring|
        invariant Demanded(g, s, taken, noutput)
        invariant skipped == ToInt32(Lost(g, popped) - Lost(g, s.popped))
        invariant pushed == old(pushed) + Arrived(arrivals, |taken|)
        invariant (ring, taken) == RingTaken(old(ring), arrivals, |taken|)
      {
        ghost var before := popped;
        QueueLeft(g, packed, popped, given, xQueue, yQueue);
        ReceiveAll(Arrival(arrivals, n - packetsAvailable));
        NextIsDefined(s, old(ring), ring, arrivals, taken, noutput);
        ghost var p;
        skipped, p := NextPacket(skipped, s, taken);
        ToInt32Adds(Lost(g, before) - Lost(g, s.popped), Lost(g, popped) - Lost(g, before));
        assert (taken + [p])[..|taken|] == taken;
        taken := taken + [p];
        packetsAvailable := packetsAvailable - 1;
      }
      QueueLeft(g, packed, popped, given, xQueue, yQueue);
    }

    lemma NothingTaken(s: Src)
      ensures PushedTags(g, s, []) == s.tagq && s.popped + [] == s.popped && ToInt32(0) == 0
    {
      assert s.popped + [] == s.popped;
    }

    // The packet at the front of the ring may be taken.
    lemma NextIsDefined(s: Src, ring: seq<Packet>, full: seq<Packet>, arrivals: seq<seq<Packet>>, taken: seq<Packet>,
                        noutput: nat)
      requires CallDefined(g, s, ring, arrivals, noutput) && |taken| < |ring| && |full| > 0
      requires taken == RingTaken(ring, arrivals, |taken|).1
      requires full == RingPushAll(RingTaken(ring, arrivals, |taken|).0, Arrival(arrivals, |taken|))
      requires Queued(g, s.(popped := s.popped + taken)) < noutput
      ensures LastDefined(g, s.popped + taken + [full[0]])
    {
      hide LastDefined, RingPushAll, PopsSafely, TakesJust, Tags;
      var p := full[0];
      assert RingTaken(ring, arrivals, |taken| + 1).1 == taken + [p];
      assert Demanded(g, s, taken + [p], noutput) by {
        assert (taken + [p])[..|taken|] == taken;
      }
      assert s.popped + (taken + [p]) == s.popped + taken + [p];
    }
  }
}
