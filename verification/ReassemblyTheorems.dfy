/** The gap-free stream promised downstream, and exactly when the source delivers it. */
module ReassemblyTheorems {
  import opened SnapFormat
  import opened Reassembly

  // Two timestamps the source can connect without a gap.
  predicate Bridgeable(l: nat, s: nat)
  {
    l < s && (s - l) % 16 == 0 && (s - l) / 16 - 1 <= MAX_MISSED_SETS && (l > 0 || s == 16)
  }

  // One-packet mode: every packet continues its predecessor.
  ghost predicate GapFree(ps: seq<Packet>)
  {
    forall i, j :: 0 <= i < j < |ps| && j == i + 1 ==> Bridgeable(ps[i].ts, ps[j].ts)
  }

  // Multi-packet mode: a packet may also belong to its predecessor's frame.
  ghost predicate FrameGapFree(ps: seq<Packet>)
  {
    && (|ps| > 0 ==> ps[0].ts > 0)
    && forall i, j :: 0 <= i < j < |ps| && j == i + 1 ==> ps[j].ts == ps[i].ts || Bridgeable(ps[i].ts, ps[j].ts)
  }

  // The stream asked for: cell r of time row t at timestamp ts is the packet's sample if one
  // was received and zero otherwise.
  function CellSpec(g: Geometry, lane: Lane, ps: seq<Packet>, ts: nat, t: nat, r: int): int
    requires t < 16
  {
    if |ps| == 0 then 0
    else
      var p := ps[|ps| - 1];
      if p.ts == ts && Covers(g, p, r) then Cell(lane, p, t, r - Offset(g, p))
      else CellSpec(g, lane, ps[..|ps| - 1], ts, t, r)
  }

  function RowSpec(g: Geometry, lane: Lane, ps: seq<Packet>, ts: nat, t: nat): (v: Vec)
    requires t < 16
    ensures |v| == VecLen(g)
  {
    seq(VecLen(g), r => CellSpec(g, lane, ps, ts, t, r))
  }

  // `vs` carries the timestamps first, first + 16, ... with 16 time rows each.
  ghost predicate IsStream(g: Geometry, lane: Lane, ps: seq<Packet>, first: nat, vs: seq<Vec>)
  {
    forall k :: 0 <= k < |vs| ==> vs[k] == RowSpec(g, lane, ps, first + 16 * (k / 16), k % 16)
  }

  // --- What CellSpec means ------------------------------------------------------------

  /** A received packet alone at its place determines the cell. */
  lemma {:induction false} CellOfPacket(g: Geometry, lane: Lane, ps: seq<Packet>, t: nat, r: int, p: Packet)
    requires t < 16 && p in ps && Covers(g, p, r)
    requires forall q :: q in ps && q.ts == p.ts && Covers(g, q, r) ==> q == p
    ensures CellSpec(g, lane, ps, p.ts, t, r) == Cell(lane, p, t, r - Offset(g, p))
  {
    var z := ps[|ps| - 1];
    if !(z.ts == p.ts && Covers(g, z, r)) {
      assert ps == ps[..|ps| - 1] + [z];
      CellOfPacket(g, lane, ps[..|ps| - 1], t, r, p);
    } else {
      assert z in ps;
    }
  }

  /** A cell no packet was received for is zero. */
  lemma {:induction false} CellOfNoPacket(g: Geometry, lane: Lane, ps: seq<Packet>, ts: nat, t: nat, r: int)
    requires t < 16
    requires forall q :: q in ps ==> !(q.ts == ts && Covers(g, q, r))
    ensures CellSpec(g, lane, ps, ts, t, r) == 0
  {
    if |ps| == 0 {
    } else {
      assert ps[|ps| - 1] in ps;
      CellOfNoPacket(g, lane, ps[..|ps| - 1], ts, t, r);
    }
  }

  // --- One step ------------------------------------------------------------------------

  lemma FillOfBridge(l: nat, s: nat)
    requires Bridgeable(l, s) && s < TWO_64
    ensures Fill(l, s) == (s - l) / 16 - 1
    ensures s == l + 16 * (Fill(l, s) + 1)
  {
  }

  // Timestamps of a gap-free stream never decrease, so the last one is the largest.
  lemma {:induction false} LastIsLargest(ps: seq<Packet>)
    requires forall i, j :: 0 <= i < j < |ps| && j == i + 1 ==> ps[i].ts <= ps[j].ts
    ensures forall p :: p in ps ==> ps[0].ts <= p.ts <= LastTs(ps)
  {
    if |ps| <= 1 {
    } else {
      var q, n := ps[..|ps| - 1], |ps| - 1;
      LastIsLargest(q);
      assert ps[n - 1].ts <= ps[n].ts;
      forall p | p in ps
        ensures ps[0].ts <= p.ts <= LastTs(ps)
      {
        assert ps == q + [ps[n]];
      }
    }
  }

  lemma RowSpecLater(g: Geometry, lane: Lane, ps: seq<Packet>, ts: nat, t: nat)
    requires |ps| > 0 && ts != ps[|ps| - 1].ts && t < 16
    ensures RowSpec(g, lane, ps, ts, t) == RowSpec(g, lane, ps[..|ps| - 1], ts, t)
  {
  }

  lemma RowSpecEmpty(g: Geometry, lane: Lane, ps: seq<Packet>, ts: nat, t: nat)
    requires t < 16
    requires forall q :: q in ps ==> q.ts != ts
    ensures RowSpec(g, lane, ps, ts, t) == ZeroVec(g)
  {
    forall r | 0 <= r < VecLen(g)
      ensures CellSpec(g, lane, ps, ts, t, r) == 0
    {
      CellOfNoPacket(g, lane, ps, ts, t, r);
    }
  }

  // Appending one closed frame, or one run of zero frames, to a stream.
  lemma StreamExtends(g: Geometry, lane: Lane, ps: seq<Packet>, first: nat, vs: seq<Vec>, more: seq<Vec>)
    requires |vs| % 16 == 0 && |more| % 16 == 0
    requires IsStream(g, lane, ps, first, vs)
    requires IsStream(g, lane, ps, first + |vs|, more)
    ensures IsStream(g, lane, ps, first, vs + more)
  {
    hide RowSpec;
    forall k | |vs| <= k < |vs + more|
      ensures (vs + more)[k] == RowSpec(g, lane, ps, first + 16 * (k / 16), k % 16)
    {
      assert (vs + more)[k] == more[k - |vs|];
      assert 16 * (k / 16) == |vs| + 16 * ((k - |vs|) / 16);
    }
  }

  // A stream over ps stays one when a later packet arrives.
  lemma StreamKeeps(g: Geometry, lane: Lane, ps: seq<Packet>, first: nat, vs: seq<Vec>)
    requires |ps| > 0 && |vs| % 16 == 0 && first + |vs| <= ps[|ps| - 1].ts
    requires IsStream(g, lane, ps[..|ps| - 1], first, vs)
    ensures IsStream(g, lane, ps, first, vs)
  {
    forall k | 0 <= k < |vs|
      ensures vs[k] == RowSpec(g, lane, ps, first + 16 * (k / 16), k % 16)
    {
      RowSpecLater(g, lane, ps, first + 16 * (k / 16), k % 16);
    }
  }

  // Zero frames are right for timestamps nothing was received for.
  lemma ZerosStream(g: Geometry, lane: Lane, ps: seq<Packet>, first: nat, n: nat)
    requires n % 16 == 0
    requires forall q :: q in ps ==> !(first <= q.ts < first + n)
    ensures IsStream(g, lane, ps, first, Zeros(g, n))
  {
    forall k | 0 <= k < n
      ensures Zeros(g, n)[k] == RowSpec(g, lane, ps, first + 16 * (k / 16), k % 16)
    {
      RowSpecEmpty(g, lane, ps, first + 16 * (k / 16), k % 16);
    }
  }

  // Closing the gap up to the packet that ps ends with.
  lemma GapFilled(g: Geometry, lane: Lane, ps: seq<Packet>, first: nat, l: nat, vs: seq<Vec>)
    requires |ps| > 0 && Bridgeable(l, LastTs(ps))
    requires first <= l && (l - first) % 16 == 0 && |vs| == l - first + 16
    requires forall q :: q in ps[..|ps| - 1] ==> q.ts <= l
    requires IsStream(g, lane, ps, first, vs)
    ensures var all := vs + Zeros(g, 16 * Fill(l, LastTs(ps)));
            |all| == LastTs(ps) - first && |all| % 16 == 0 && IsStream(g, lane, ps, first, all)
  {
    FillOfBridge(l, LastTs(ps));
    var n := 16 * Fill(l, LastTs(ps));
    assert ps == ps[..|ps| - 1] + [ps[|ps| - 1]];
    ZerosStream(g, lane, ps, l + 16, n);
    StreamExtends(g, lane, ps, first, vs, Zeros(g, n));
  }

  lemma {:induction false} OnGrid(ps: seq<Packet>)
    requires forall i, j :: 0 <= i < j < |ps| && j == i + 1 ==> ps[j].ts == ps[i].ts || Bridgeable(ps[i].ts, ps[j].ts)
    ensures |ps| > 0 ==> ps[0].ts <= LastTs(ps) && (LastTs(ps) - ps[0].ts) % 16 == 0
  {
    if |ps| <= 1 {
    } else {
      OnGrid(ps[..|ps| - 1]);
    }
  }

  // --- One-packet mode -------------------------------------------------------------------

  lemma OnePacketFrame(g: Geometry, lane: Lane, ps: seq<Packet>)
    requires OnePacket(g) && |ps| > 0 && Accepted(g, ps[|ps| - 1])
    ensures IsStream(g, lane, ps, LastTs(ps), Frame(g, lane, ps))
  {
    forall t: nat | t < 16
      ensures Row(g, lane, ps, t) == RowSpec(g, lane, ps, LastTs(ps), t)
    {
    }
  }

  /** One-packet mode: on a gap-free packet stream, vector k of everything queued so far is time
      row k % 16 of the packet stamped first + 16 * (k / 16), or zeros if that packet was lost. */
  lemma {:induction false} OnePacketReassembly(g: Geometry, lane: Lane, ps: seq<Packet>)
    requires OnePacket(g) && |ps| > 0 && GapFree(ps)
    requires forall p :: p in ps ==> Accepted(g, p)
    ensures |Vectors(g, lane, ps)| == LastTs(ps) - ps[0].ts + 16
    ensures IsStream(g, lane, ps, ps[0].ts, Vectors(g, lane, ps))
  {
    hide Vectors, Frame, IsStream, Accepted;
    var q, p := ps[..|ps| - 1], ps[|ps| - 1];
    assert ps == q + [p];
    assert Accepted(g, p);
    OnePacketFrame(g, lane, ps);
    if |q| == 0 {
      FirstFrame(g, lane, ps);
    } else {
      OnePacketReassembly(g, lane, q);
      LastIsLargest(q);
      OnePacketStep(g, lane, ps);
    }
  }

  lemma FirstFrame(g: Geometry, lane: Lane, ps: seq<Packet>)
    requires OnePacket(g) && |ps| == 1
    ensures Vectors(g, lane, ps) == Frame(g, lane, ps)
  {
    hide Frame;
    assert ps[..0] == [] && Vectors(g, lane, []) == [];
  }

  lemma OnePacketStep(g: Geometry, lane: Lane, ps: seq<Packet>)
    requires OnePacket(g) && |ps| > 1
    requires var q := ps[..|ps| - 1];
             && Bridgeable(LastTs(q), LastTs(ps))
             && ps[0].ts <= LastTs(q)
             && |Vectors(g, lane, q)| == LastTs(q) - ps[0].ts + 16
             && IsStream(g, lane, q, ps[0].ts, Vectors(g, lane, q))
             && forall p :: p in q ==> p.ts <= LastTs(q)
    requires IsStream(g, lane, ps, LastTs(ps), Frame(g, lane, ps))
    ensures |Vectors(g, lane, ps)| == LastTs(ps) - ps[0].ts + 16
    ensures IsStream(g, lane, ps, ps[0].ts, Vectors(g, lane, ps))
  {
    var q := ps[..|ps| - 1];
    QueueLengths(g, lane, q);
    StreamKeeps(g, lane, ps, ps[0].ts, Vectors(g, lane, q));
    FrameAppended(g, lane, ps, ps[0].ts, LastTs(q), Vectors(g, lane, q), Frame(g, lane, ps));
    OnePacketQueue(g, lane, ps);
  }

  lemma OnePacketQueue(g: Geometry, lane: Lane, ps: seq<Packet>)
    requires OnePacket(g) && |ps| > 0
    ensures var q := ps[..|ps| - 1];
            Vectors(g, lane, ps) ==
            Vectors(g, lane, q) + Zeros(g, 16 * Fill(LastTs(q), LastTs(ps))) + Frame(g, lane, ps)
  {
  }

  // A stream up to timestamp l, the zeros up to the last packet, and that packet's frame.
  lemma FrameAppended(g: Geometry, lane: Lane, ps: seq<Packet>, first: nat, l: nat, vs: seq<Vec>, frame: seq<Vec>)
    requires |ps| > 0 && Bridgeable(l, LastTs(ps))
    requires first <= l && (l - first) % 16 == 0 && |vs| == l - first + 16
    requires forall q :: q in ps[..|ps| - 1] ==> q.ts <= l
    requires IsStream(g, lane, ps, first, vs)
    requires |frame| == 16 && IsStream(g, lane, ps, LastTs(ps), frame)
    ensures var all := vs + Zeros(g, 16 * Fill(l, LastTs(ps))) + frame;
            |all| == LastTs(ps) - first + 16 && IsStream(g, lane, ps, first, all)
  {
    GapFilled(g, lane, ps, first, l, vs);
    StreamExtends(g, lane, ps, first, vs + Zeros(g, 16 * Fill(l, LastTs(ps))), frame);
  }

  // Tag k is the timestamp of vector k.
  ghost predicate TagsInStep(first: nat, tags: seq<nat>)
  {
    forall k :: 0 <= k < |tags| ==> tags[k] == first + 16 * (k / 16)
  }

  lemma TagsBridged(first: nat, a: seq<nat>, l: nat, s: nat)
    requires l == first + |a| - 16 && |a| % 16 == 0 && TagsInStep(first, a)
    requires Bridgeable(l, s) && s < TWO_64
    ensures TagsInStep(first, a + FillTags(l, 16 * Fill(l, s)) + SameTag(s))
    ensures |a + FillTags(l, 16 * Fill(l, s)) + SameTag(s)| == s - first + 16
  {
    FillOfBridge(l, s);
    var n := 16 * Fill(l, s);
    var b := FillTags(l, n);
    var all := a + b + SameTag(s);
    forall k | 0 <= k < |all|
      ensures all[k] == first + 16 * (k / 16)
    {
      if |a| <= k < |a| + n {
        assert all[k] == b[k - |a|] == l + 16 + 16 * ((k - |a|) / 16);
        BlockShift(|a|, k);
      } else if |a| + n <= k {
        assert all[k] == s;
      }
    }
  }

  lemma TagsNotBridged(first: nat, a: seq<nat>, l: nat, s: nat)
    requires l == first + |a| - 16 && |a| % 16 == 0
    requires !Bridgeable(l, s) && s < TWO_64
    ensures !TagsInStep(first, a + FillTags(l, 16 * Fill(l, s)) + SameTag(s))
  {
    var n := 16 * Fill(l, s);
    var all := a + FillTags(l, n) + SameTag(s);
    var k := |a| + n;
    assert all[k] == s;
    if TagsInStep(first, all) {
      assert false;
    }
  }

  lemma TagStep(g: Geometry, ps: seq<Packet>)
    requires OnePacket(g) && |ps| > 1
    requires var q := ps[..|ps| - 1]; |Tags(g, q)| == LastTs(q) - ps[0].ts + 16 && TagsInStep(ps[0].ts, Tags(g, q))
    ensures TagsInStep(ps[0].ts, Tags(g, ps)) <==> Bridgeable(LastTs(ps[..|ps| - 1]), LastTs(ps))
    ensures TagsInStep(ps[0].ts, Tags(g, ps)) ==> |Tags(g, ps)| == LastTs(ps) - ps[0].ts + 16
  {
    var q, s := ps[..|ps| - 1], LastTs(ps);
    var l, a := LastTs(q), Tags(g, q);
    assert Tags(g, ps) == a + FillTags(l, 16 * Fill(l, s)) + SameTag(s);
    QueueLengths(g, PackedXY, q);
    if Bridgeable(l, s) {
      TagsBridged(ps[0].ts, a, l, s);
    } else {
      TagsNotBridged(ps[0].ts, a, l, s);
    }
  }

  lemma FirstTags(g: Geometry, ps: seq<Packet>)
    requires OnePacket(g) && |ps| == 1
    ensures Tags(g, ps) == SameTag(ps[0].ts)
  {
    assert ps[..0] == [] && Tags(g, []) == [];
  }

  /** One-packet mode: the tags count up without a gap if and only if every packet can be bridged
      from the one before it. This is what the synchronizer relies on. */
  lemma {:induction false} TagsGapFreeIff(g: Geometry, ps: seq<Packet>)
    requires OnePacket(g) && |ps| > 0
    ensures TagsInStep(ps[0].ts, Tags(g, ps)) <==> GapFree(ps)
    ensures GapFree(ps) ==> |Tags(g, ps)| == LastTs(ps) - ps[0].ts + 16
  {
    hide Tags, Bridgeable;
    var q := ps[..|ps| - 1];
    if |q| == 0 {
      FirstTags(g, ps);
    } else {
      TagsGapFreeIff(g, q);
      QueuesGrow(g, PackedXY, q, [ps[|ps| - 1]]);
      assert ps == q + [ps[|ps| - 1]];
      if TagsInStep(ps[0].ts, Tags(g, ps)) || GapFree(ps) {
        assert GapFree(q);
        TagStep(g, ps);
      }
    }
  }

  // --- One-packet mode, any gaps -------------------------------------------------------------

  // Every packet is later than the one before it, on its grid or not, however large the gap.
  ghost predicate Increasing(ps: seq<Packet>)
  {
    forall i, j :: 0 <= i < j < |ps| && j == i + 1 ==> ps[i].ts < ps[j].ts
  }

  // A timestamp that is filled in between l and s.
  predicate FilledIn(l: nat, s: nat, ts: nat) { Fill(l, s) > 0 && l < ts < s && (ts - l) % 16 == 0 }

  // A timestamp that was received, or filled in between two consecutive packets.
  ghost predicate Covered(ps: seq<Packet>, ts: nat)
  {
    || Received(ps, ts)
    || exists i, j :: 0 <= i < j < |ps| && j == i + 1 && FilledIn(ps[i].ts, ps[j].ts, ts)
  }

  // Every vector is the row of the timestamp it is tagged with.
  ghost predicate RowsAsTagged(g: Geometry, lane: Lane, ps: seq<Packet>, tags: seq<nat>, vs: seq<Vec>)
  {
    |vs| == |tags| && forall k :: 0 <= k < |vs| ==> vs[k] == RowSpec(g, lane, ps, tags[k], k % 16)
  }

  // Blocks of 16 equal tags, each block later than the one before it, none later than `last`.
  ghost predicate Blockwise(tags: seq<nat>, last: nat)
  {
    && |tags| % 16 == 0
    && (forall j, k :: 0 <= j < k < |tags| ==> if j / 16 == k / 16 then tags[j] == tags[k] else tags[j] < tags[k])
    && (forall k :: 0 <= k < |tags| ==> tags[k] <= last)
  }

  lemma TagsOfFill(l: nat, s: nat, j: nat)
    requires j < 16 * Fill(l, s)
    ensures var tag := FillTags(l, 16 * Fill(l, s))[j];
            tag == l + 16 + 16 * (j / 16) && FilledIn(l, s, tag)
  {
  }

  lemma BlockwiseMore(a: seq<nat>, l: nat, s: nat)
    requires Blockwise(a, l) && l < s
    ensures Blockwise(a + FillTags(l, 16 * Fill(l, s)) + SameTag(s), s)
  {
    hide Fill;
    var m, f := |a| / 16, Fill(l, s);
    var all := a + FillTags(l, 16 * f) + SameTag(s);
    forall k | |a| <= k < |all|
      ensures m <= k / 16
      ensures if k / 16 < m + f then all[k] == l + 16 + 16 * (k / 16 - m) < s else all[k] == s && k / 16 == m + f
    {
      if k < |a| + 16 * f {
        TagsOfFill(l, s, k - |a|);
        BlockShift(|a|, k);
      }
    }
    assert forall k :: 0 <= k < |a| ==> all[k] == a[k] && k / 16 < m;
    hide FillTags, SameTag;
    BlockwiseFrom(a, all, l, s, m, f);
  }

  lemma BlockwiseFrom(a: seq<nat>, all: seq<nat>, l: nat, s: nat, m: nat, f: nat)
    requires Blockwise(a, l) && l < s && |a| <= |all| && |all| % 16 == 0
    requires forall k :: 0 <= k < |a| ==> all[k] == a[k] && k / 16 < m
    requires forall k :: |a| <= k < |all| ==>
               && m <= k / 16
               && if k / 16 < m + f then all[k] == l + 16 + 16 * (k / 16 - m) < s else all[k] == s && k / 16 == m + f
    ensures Blockwise(all, s)
  {
    forall j, k | 0 <= j < k < |all|
      ensures if j / 16 == k / 16 then all[j] == all[k] else all[j] < all[k]
    {
      assert j / 16 <= k / 16;
      if j < |a| <= k {
        assert all[j] == a[j] <= l < all[k];
      }
    }
  }

  lemma NoLaterTag(a: seq<nat>, l: nat)
    requires Blockwise(a, l)
    ensures |a| % 16 == 0 && forall k :: 0 <= k < |a| ==> a[k] <= l
  {
  }

  lemma FrameRow(g: Geometry, lane: Lane, ps: seq<Packet>, ts: nat, frame: seq<Vec>, t: nat)
    requires |frame| == 16 && IsStream(g, lane, ps, ts, frame) && t < 16
    ensures frame[t] == RowSpec(g, lane, ps, ts, t)
  {
    hide RowSpec;
  }

  lemma RowsMore(g: Geometry, lane: Lane, q: seq<Packet>, p: Packet, a: seq<nat>, vs: seq<Vec>, frame: seq<Vec>)
    requires RowsAsTagged(g, lane, q, a, vs) && |a| % 16 == 0 && LastTs(q) < p.ts
    requires forall k :: 0 <= k < |a| ==> a[k] <= LastTs(q)
    requires forall z :: z in q ==> z.ts <= LastTs(q)
    requires |frame| == 16 && IsStream(g, lane, q + [p], p.ts, frame)
    ensures var n := 16 * Fill(LastTs(q), p.ts);
            RowsAsTagged(g, lane, q + [p], a + FillTags(LastTs(q), n) + SameTag(p.ts), vs + Zeros(g, n) + frame)
  {
    hide Fill, RowSpec, IsStream;
    var l, n := LastTs(q), 16 * Fill(LastTs(q), p.ts);
    var tags, all := a + FillTags(l, n) + SameTag(p.ts), vs + Zeros(g, n) + frame;
    forall k | 0 <= k < |all|
      ensures all[k] == RowSpec(g, lane, q + [p], tags[k], k % 16)
    {
      if k < |a| {
        assert (q + [p])[..|q|] == q;
        RowSpecLater(g, lane, q + [p], a[k], k % 16);
      } else if k < |a| + n {
        TagsOfFill(l, p.ts, k - |a|);
        RowSpecEmpty(g, lane, q + [p], tags[k], k % 16);
      } else {
        FrameRow(g, lane, q + [p], p.ts, frame, k - |a| - n);
        assert all[k] == frame[k - |a| - n] && tags[k] == p.ts;
      }
    }
  }

  /** One-packet mode: whenever every packet is later than the one before it, with gaps of any size and on
      any grid, every queued vector is the row of the timestamp it is tagged with, and the tags are blocks
      of 16, each later than the one before it. */
  lemma {:induction false} RowsAreAsTagged(g: Geometry, lane: Lane, ps: seq<Packet>)
    requires OnePacket(g) && Increasing(ps) && forall p :: p in ps ==> Accepted(g, p)
    ensures RowsAsTagged(g, lane, ps, Tags(g, ps), Vectors(g, lane, ps))
    ensures Blockwise(Tags(g, ps), LastTs(ps))
  {
    hide Vectors, Tags, Fill, RowSpec, IsStream, Accepted, Frame, RowsAsTagged, Blockwise;
    if |ps| == 0 {
      NothingTagged(g, lane, ps);
    } else {
      var q, p := ps[..|ps| - 1], ps[|ps| - 1];
      assert ps == q + [p] && Accepted(g, p);
      RowsAreAsTagged(g, lane, q);
      LastIsLargest(q);
      OnePacketFrame(g, lane, ps);
      OnePacketQueue(g, lane, ps);
      OnePacketTags(g, ps);
      if |q| == 0 {
        FirstTagged(g, lane, p);
      } else {
        assert ps[|q| - 1].ts == LastTs(q);
        BlockwiseMore(Tags(g, q), LastTs(q), p.ts);
        NoLaterTag(Tags(g, q), LastTs(q));
        RowsMore(g, lane, q, p, Tags(g, q), Vectors(g, lane, q), Frame(g, lane, ps));
      }
    }
  }

  lemma OnePacketTags(g: Geometry, ps: seq<Packet>)
    requires OnePacket(g) && |ps| > 0
    ensures var q := ps[..|ps| - 1];
            Tags(g, ps) == Tags(g, q) + FillTags(LastTs(q), 16 * Fill(LastTs(q), LastTs(ps))) + SameTag(LastTs(ps))
  {
  }

  lemma NothingTagged(g: Geometry, lane: Lane, ps: seq<Packet>)
    requires ps == []
    ensures RowsAsTagged(g, lane, ps, Tags(g, ps), Vectors(g, lane, ps)) && Blockwise(Tags(g, ps), LastTs(ps))
  {
    assert Vectors(g, lane, []) == [] && Tags(g, []) == [];
  }

  lemma FirstTagged(g: Geometry, lane: Lane, p: Packet)
    requires OnePacket(g) && Accepted(g, p)
    ensures RowsAsTagged(g, lane, [p], Tags(g, [p]), Vectors(g, lane, [p])) && Blockwise(Tags(g, [p]), p.ts)
  {
    hide Vectors, Tags, RowSpec, Frame, Accepted;
    FirstFrame(g, lane, [p]);
    OnePacketFrame(g, lane, [p]);
    FirstTags(g, [p]);
  }

  /** And the timestamps that appear are those received and those filled in: all but the gaps that are
      too large. */
  lemma {:induction false} TaggedIffCovered(g: Geometry, ps: seq<Packet>, ts: nat)
    requires OnePacket(g)
    ensures ts in Tags(g, ps) <==> Covered(ps, ts)
  {
    hide Fill, Covered, FilledIn;
    if |ps| == 0 {
      NothingCovered(ps, ts);
    } else {
      var q, p := ps[..|ps| - 1], ps[|ps| - 1];
      assert ps == q + [p];
      TaggedIffCovered(g, q, ts);
      OneMoreCovered(q, p, ts);
      OnePacketTags(g, ps);
      FilledInIff(LastTs(q), p.ts, ts);
    }
  }

  lemma NothingCovered(ps: seq<Packet>, ts: nat)
    requires ps == []
    ensures !Covered(ps, ts)
  {
  }

  lemma OneMoreCovered(q: seq<Packet>, p: Packet, ts: nat)
    ensures Covered(q + [p], ts) <==> Covered(q, ts) || ts == p.ts || FilledIn(LastTs(q), p.ts, ts)
  {
    hide Fill;
    var ps := q + [p];
    assert forall i :: 0 <= i < |q| ==> ps[i] == q[i];
    assert p in ps && forall z :: z in ps <==> z in q || z == p;
    if |q| > 0 {
      assert ps[|q| - 1].ts == LastTs(q) && ps[|q|] == p;
    } else {
      assert !FilledIn(0, p.ts, ts) by {
        NoFillFromZero(p.ts);
      }
    }
  }

  lemma NoFillFromZero(s: nat)
    ensures Fill(0, s) == 0
  {
  }

  lemma FilledInIff(l: nat, s: nat, ts: nat)
    ensures ts in FillTags(l, 16 * Fill(l, s)) <==> FilledIn(l, s, ts)
    ensures ts in SameTag(s) <==> ts == s
  {
    hide Fill, FilledIn;
    var tags := FillTags(l, 16 * Fill(l, s));
    if ts in tags {
      var j :| 0 <= j < |tags| && tags[j] == ts;
      TagsOfFill(l, s, j);
    }
    if FilledIn(l, s, ts) {
      FilledIndex(l, s, ts);
      assert tags[ts - l - 16] == ts;
    }
    assert SameTag(s)[0] == s;
  }

  lemma FilledIndex(l: nat, s: nat, ts: nat)
    requires FilledIn(l, s, ts)
    ensures 0 <= ts - l - 16 < 16 * Fill(l, s) && l + 16 + 16 * ((ts - l - 16) / 16) == ts
  {
  }

  // --- Multi-packet mode -------------------------------------------------------------------

  // Timestamps that are not zero and never go back, whatever the gaps.
  ghost predicate Ascending(ps: seq<Packet>)
  {
    && (|ps| > 0 ==> ps[0].ts > 0)
    && forall i, j :: 0 <= i < j < |ps| && j == i + 1 ==> ps[i].ts <= ps[j].ts
  }

  lemma {:induction false} BufferCell(g: Geometry, lane: Lane, ps: seq<Packet>, t: nat, r: int)
    requires !OnePacket(g) && |ps| > 0 && Ascending(ps) && t < 16
    ensures BufCell(g, lane, ps, t, r) == CellSpec(g, lane, ps, LastTs(ps), t, r)
  {
    var q, p := ps[..|ps| - 1], ps[|ps| - 1];
    if |q| > 0 && !Covers(g, p, r) {
      LastIsLargest(q);
      if Closes(g, q, p) {
        CellOfNoPacket(g, lane, q, p.ts, t, r);
      } else {
        BufferCell(g, lane, q, t, r);
      }
    }
  }

  /** The frame buffer holds exactly the packets of the current timestamp. */
  lemma BufferHoldsCurrentFrame(g: Geometry, lane: Lane, ps: seq<Packet>)
    requires !OnePacket(g) && |ps| > 0 && Ascending(ps)
    ensures IsStream(g, lane, ps, LastTs(ps), Frame(g, lane, ps))
  {
    hide BufCell, CellSpec;
    forall t: nat, r | t < 16 && 0 <= r < VecLen(g)
      ensures BufCell(g, lane, ps, t, r) == CellSpec(g, lane, ps, LastTs(ps), t, r)
    {
      BufferCell(g, lane, ps, t, r);
    }
    forall t: nat | t < 16
      ensures Row(g, lane, ps, t) == RowSpec(g, lane, ps, LastTs(ps), t)
    {
    }
  }

  /** Multi-packet mode: everything queued so far is the frames first, first + 16, ..., last - 16
      in order, each cell holding its packet's sample if received and zero otherwise. */
  lemma {:induction false} MultiPacketReassembly(g: Geometry, lane: Lane, ps: seq<Packet>)
    requires !OnePacket(g) && |ps| > 0 && FrameGapFree(ps)
    ensures |Vectors(g, lane, ps)| == LastTs(ps) - ps[0].ts
    ensures IsStream(g, lane, ps, ps[0].ts, Vectors(g, lane, ps))
  {
    hide Frame, MissedSets, RowSpec;
    var q, p := ps[..|ps| - 1], ps[|ps| - 1];
    if |q| == 0 {
    } else {
      MultiPacketReassembly(g, lane, q);
      LastIsLargest(q);
      OnGrid(q);
      if p.ts != LastTs(q) {
        BufferHoldsCurrentFrame(g, lane, q);
        MultiPacketStep(g, lane, ps);
      } else {
        SameFrameQueue(g, lane, ps);
        StreamKeeps(g, lane, ps, ps[0].ts, Vectors(g, lane, q));
      }
    }
  }

  lemma SameFrameQueue(g: Geometry, lane: Lane, ps: seq<Packet>)
    requires !OnePacket(g) && |ps| > 1 && LastTs(ps) == LastTs(ps[..|ps| - 1])
    ensures Vectors(g, lane, ps) == Vectors(g, lane, ps[..|ps| - 1])
  {
    hide Frame;
    assert Zeros(g, 0) == [];
  }

  lemma MultiPacketStep(g: Geometry, lane: Lane, ps: seq<Packet>)
    requires !OnePacket(g) && |ps| > 1
    requires var q := ps[..|ps| - 1];
             && Bridgeable(LastTs(q), LastTs(ps))
             && 0 < ps[0].ts <= LastTs(q)
             && |Vectors(g, lane, q)| == LastTs(q) - ps[0].ts
             && IsStream(g, lane, q, ps[0].ts, Vectors(g, lane, q))
             && IsStream(g, lane, q, LastTs(q), Frame(g, lane, q))
             && forall p :: p in q ==> p.ts <= LastTs(q)
    ensures |Vectors(g, lane, ps)| == LastTs(ps) - ps[0].ts
    ensures IsStream(g, lane, ps, ps[0].ts, Vectors(g, lane, ps))
  {
    var q, first := ps[..|ps| - 1], ps[0].ts;
    var l, old_, frame := LastTs(q), Vectors(g, lane, q), Frame(g, lane, q);
    QueueLengths(g, lane, q);
    StreamKeeps(g, lane, ps, first, old_);
    StreamKeeps(g, lane, ps, l, frame);
    StreamExtends(g, lane, ps, first, old_, frame);
    GapFilled(g, lane, ps, first, l, old_ + frame);
    assert Vectors(g, lane, ps) == old_ + frame + Zeros(g, 16 * Fill(l, LastTs(ps)));
  }

  predicate Received(ps: seq<Packet>, ts: nat) { exists p :: p in ps && p.ts == ts }

  // The timestamp received next after ts.
  ghost predicate NextReceived(ps: seq<Packet>, ts: nat, next: nat)
  {
    ts < next && Received(ps, next) && forall p :: p in ps ==> p.ts <= ts || next <= p.ts
  }

  lemma ClosingTags(l: nat, s: nat, j: nat)
    requires Bridgeable(l, s) && s < TWO_64 && j < 16 * Fill(l, s) + 16
    ensures var tag := (SameTag(s) + FillTags(l, 16 * Fill(l, s)))[j];
            var ts := l + 16 * (j / 16);
            if ts == l then tag == s > ts else l < ts == tag < s
  {
    FillOfBridge(l, s);
    var b := FillTags(l, 16 * Fill(l, s));
    if 16 <= j {
      assert (SameTag(s) + b)[j] == b[j - 16] == l + 16 + 16 * ((j - 16) / 16);
      assert (j - 16) / 16 == j / 16 - 1 < Fill(l, s);
    }
  }

  lemma BlockShift(a: nat, k: nat)
    requires a % 16 == 0 && a <= k
    ensures 16 * (k / 16) == a + 16 * ((k - a) / 16)
  {
  }

  lemma TagsAtClose(g: Geometry, q: seq<Packet>, p: Packet)
    requires !OnePacket(g) && LastTs(q) > 0 && |Tags(g, q + [p])| > |Tags(g, q)|
    ensures LastTs(q) != p.ts
    ensures Tags(g, q + [p]) == Tags(g, q) + (SameTag(p.ts) + FillTags(LastTs(q), 16 * Fill(LastTs(q), p.ts)))
    ensures |SameTag(p.ts) + FillTags(LastTs(q), 16 * Fill(LastTs(q), p.ts))| == 16 + 16 * Fill(LastTs(q), p.ts)
  {
    hide Vectors, MissedSets;
    OneMore(g, PackedXY, q, p);
  }

  lemma LateTag(g: Geometry, q: seq<Packet>, p: Packet, k: nat)
    requires !OnePacket(g) && |q| > 0 && LastTs(q) > 0
    requires LastTs(q) == p.ts || Bridgeable(LastTs(q), p.ts)
    requires forall z :: z in q ==> z.ts <= LastTs(q)
    requires |Tags(g, q)| % 16 == 0 && LastTs(q) == q[0].ts + |Tags(g, q)|
    requires |Tags(g, q)| <= k < |Tags(g, q + [p])|
    ensures var ts, tag := q[0].ts + 16 * (k / 16), Tags(g, q + [p])[k];
            if Received(q + [p], ts) then NextReceived(q + [p], ts, tag) else tag == ts
  {
    hide Tags, Received, NextReceived, Fill, FillTags, SameTag;
    var l, a, tags := LastTs(q), Tags(g, q), Tags(g, q + [p]);
    var b := SameTag(p.ts) + FillTags(l, 16 * Fill(l, p.ts));
    var j := k - |a|;
    TagsAtClose(g, q, p);
    ClosingTags(l, p.ts, j);
    var ts := q[0].ts + 16 * (k / 16);
    BlockShift(|a|, k);
    assert tags[k] == b[j];
    NewTag(q, p, ts, tags[k]);
  }

  /** Multi-packet mode: a frame that was received is queued under the timestamp of the packet
      that closes it, and only a lost frame under its own. */
  lemma {:induction false} MultiPacketTag(g: Geometry, ps: seq<Packet>, k: nat)
    requires !OnePacket(g) && |ps| > 0 && FrameGapFree(ps) && k < |Tags(g, ps)|
    ensures var ts := ps[0].ts + 16 * (k / 16);
            if Received(ps, ts) then NextReceived(ps, ts, Tags(g, ps)[k]) else Tags(g, ps)[k] == ts
  {
    var q, p := ps[..|ps| - 1], ps[|ps| - 1];
    assert ps == q + [p];
    var a, ts := Tags(g, q), ps[0].ts + 16 * (k / 16);
    if |q| == 0 {
    } else {
      QueueLengths(g, PackedXY, q);
      MultiPacketReassembly(g, PackedXY, q);
      LastIsLargest(q);
      QueuesGrow(g, PackedXY, q, [p]);
      if k < |a| {
        MultiPacketTag(g, q, k);
        TagStays(q, p, ts, a[k]);
      } else {
        LateTag(g, q, p, k);
      }
    }
  }

  lemma NewTag(q: seq<Packet>, p: Packet, ts: nat, tag: nat)
    requires |q| > 0 && forall z :: z in q ==> z.ts <= LastTs(q)
    requires if ts == LastTs(q) then tag == p.ts > ts else LastTs(q) < ts == tag < p.ts
    ensures if Received(q + [p], ts) then NextReceived(q + [p], ts, tag) else tag == ts
  {
    assert q[|q| - 1] in q + [p] && p in q + [p];
    assert forall z :: z in q + [p] <==> z in q || z == p;
  }

  lemma TagStays(q: seq<Packet>, p: Packet, ts: nat, tag: nat)
    requires |q| > 0 && ts < LastTs(q) <= p.ts
    requires if Received(q, ts) then NextReceived(q, ts, tag) else tag == ts
    ensures if Received(q + [p], ts) then NextReceived(q + [p], ts, tag) else tag == ts
  {
    assert q[|q| - 1] in q;
    assert forall z :: z in q + [p] <==> z in q || z == p;
  }

  /** So a multi-packet vector carries its own timestamp exactly when its frame was lost. */
  lemma MultiPacketTagIffLost(g: Geometry, ps: seq<Packet>, k: nat)
    requires !OnePacket(g) && |ps| > 0 && FrameGapFree(ps) && k < |Tags(g, ps)|
    ensures var ts := ps[0].ts + 16 * (k / 16); Tags(g, ps)[k] == ts <==> !Received(ps, ts)
  {
    MultiPacketTag(g, ps, k);
  }

  // --- The queues, sample by sample ---------------------------------------------------------------

  // A stream the source can turn into a gap-free one.
  ghost predicate Streamable(g: Geometry, ps: seq<Packet>)
  {
    && |ps| > 0
    && if OnePacket(g) then GapFree(ps) && forall p :: p in ps ==> Accepted(g, p) else FrameGapFree(ps)
  }

  lemma QueueIsStream(g: Geometry, lane: Lane, ps: seq<Packet>)
    requires Streamable(g, ps)
    ensures IsStream(g, lane, ps, ps[0].ts, Vectors(g, lane, ps))
  {
    if OnePacket(g) {
      OnePacketReassembly(g, lane, ps);
    } else {
      MultiPacketReassembly(g, lane, ps);
    }
  }

  // The number v stands for the high (half 0) or low (half 1) four bits of byte b.
  predicate IsHalf(v: int, b: Byte, half: int)
  {
    var bits := if half == 0 then b / 16 else b % 16;
    -7 <= v <= 7 && if bits == 8 then v == 0 else v % 16 == bits
  }

  // Where the payload has polarization X of time row t for byte m of the packet's part of a vector. The
  // payload's order is channel, time, polarization; a packed vector has two bytes for a channel, one for
  // each polarization, and an unpacked one two as well, I and Q.
  function PayloadAt(t: nat, m: nat): nat { 32 * (m / 2) + 2 * t }

  // v is what the payload has for byte m of time row t.
  predicate FromPayload(lane: Lane, p: Packet, t: nat, m: nat, v: int)
    requires t < 16 && m < 512
  {
    match lane
    case PackedXY => v == p.data[PayloadAt(t, m) + m % 2]
    case UnpackedX => IsHalf(v, p.data[PayloadAt(t, m)], m % 2)
    case UnpackedY => IsHalf(v, p.data[PayloadAt(t, m) + 1], m % 2)
  }

  /** The cells of a packet in terms of its payload bytes: byte 32 * channel + 2 * time + polarization. */
  lemma CellIsPayload(lane: Lane, p: Packet, t: nat, m: nat)
    requires t < 16 && m < 512
    ensures FromPayload(lane, p, t, m, Cell(lane, p, t, m))
    ensures lane == PackedXY ==> Cell(lane, p, t, m) == p.data[32 * (m / 2) + 2 * t + m % 2]
    ensures lane == UnpackedX ==> IsHalf(Cell(lane, p, t, m), p.data[32 * (m / 2) + 2 * t], m % 2)
    ensures lane == UnpackedY ==> IsHalf(Cell(lane, p, t, m), p.data[32 * (m / 2) + 2 * t + 1], m % 2)
  {
    if lane != PackedXY {
      NibbleValue(p.data[32 * (m / 2) + 2 * t + (if lane == UnpackedX then 0 else 1)], m % 2);
    }
  }

  /** Both modes: every queued byte a received packet is alone responsible for is that packet's payload
      byte in packed mode, and the number its high or low half stands for in unpacked mode. */
  lemma ReceivedSampleQueued(g: Geometry, lane: Lane, ps: seq<Packet>, k: nat, r: nat, p: Packet)
    requires Streamable(g, ps) && k < |Vectors(g, lane, ps)| && r < VecLen(g)
    requires p in ps && p.ts == ps[0].ts + 16 * (k / 16) && Covers(g, p, r)
    requires forall q :: q in ps && q.ts == p.ts && Covers(g, q, r) ==> q == p
    ensures |Vectors(g, lane, ps)[k]| == VecLen(g)
    ensures Vectors(g, lane, ps)[k][r] == Cell(lane, p, k % 16, r - Offset(g, p))
    ensures FromPayload(lane, p, k % 16, r - Offset(g, p), Vectors(g, lane, ps)[k][r])
  {
    hide Vectors, Cell, FromPayload;
    QueueIsStream(g, lane, ps);
    CellOfPacket(g, lane, ps, k % 16, r, p);
    CellIsPayload(lane, p, k % 16, r - Offset(g, p));
  }

  /** Both modes: every queued byte no packet was received for is zero. */
  lemma LostSampleQueuedAsZero(g: Geometry, lane: Lane, ps: seq<Packet>, k: nat, r: nat)
    requires Streamable(g, ps) && k < |Vectors(g, lane, ps)| && r < VecLen(g)
    requires forall q :: q in ps && q.ts == ps[0].ts + 16 * (k / 16) ==> !Covers(g, q, r)
    ensures |Vectors(g, lane, ps)[k]| == VecLen(g) && Vectors(g, lane, ps)[k][r] == 0
  {
    hide Vectors;
    QueueIsStream(g, lane, ps);
    CellOfNoPacket(g, lane, ps, ps[0].ts + 16 * (k / 16), k % 16, r);
  }
}
