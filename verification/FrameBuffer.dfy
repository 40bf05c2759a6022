/** The contiguous 16-row frame buffer: row views and the effect of copying one packet in. */
module FrameBuffer {
  import opened Arithmetic
  import opened SnapFormat
  import opened Reassembly

  // Row t of a buffer of 16 rows of v bytes.
  function RowOf(buf: seq<int>, v: nat, t: nat): (row: Vec)
    requires t < 16 && |buf| == 16 * v
    ensures |row| == v
  {
    MulMono(t + 1, 16, v);
    assert (t + 1) * v == t * v + v;
    MulMono(0, t, v);
    buf[t * v..t * v + v]
  }

  function RowsOf(buf: seq<int>, v: nat): (rows: seq<Vec>)
    requires |buf| == 16 * v
    ensures |rows| == 16
  {
    seq(16, t requires 0 <= t < 16 => RowOf(buf, v, t))
  }

  // The packet's bytes for time row t.
  function PacketRow(lane: Lane, p: Packet, t: nat): (row: Vec)
    requires t < 16
    ensures |row| == 512
  {
    seq(512, k requires 0 <= k < 512 => Cell(lane, p, t, k))
  }

  function OverlayRow(g: Geometry, lane: Lane, p: Packet, t: nat, row: Vec): (v: Vec)
    requires t < 16 && |row| == VecLen(g)
    ensures |v| == VecLen(g)
  {
    seq(VecLen(g), r requires 0 <= r < VecLen(g) =>
      if Covers(g, p, r) then Cell(lane, p, t, r - Offset(g, p)) else row[r])
  }

  // Row t has the packet laid over it.
  ghost predicate Overlaid(g: Geometry, lane: Lane, p: Packet, rows: seq<Vec>, rows': seq<Vec>)
    requires |rows| == |rows'| == 16
  {
    forall t :: 0 <= t < 16 ==> |rows[t]| == VecLen(g) && rows'[t] == OverlayRow(g, lane, p, t, rows[t])
  }

  // Where the packet's part of row t starts.
  function RowBase(g: Geometry, p: Packet, t: nat): (base: nat)
    requires t < 16 && Accepted(g, p)
    ensures t * VecLen(g) <= base && base + 512 <= (t + 1) * VecLen(g) == t * VecLen(g) + VecLen(g)
    ensures base + 512 <= 16 * VecLen(g)
  {
    MulMono(t + 1, 16, VecLen(g));
    MulMono(0, t, VecLen(g));
    t * VecLen(g) + Offset(g, p)
  }

  function Spliced(buf: seq<int>, base: nat, part: seq<int>): (r: seq<int>)
    requires base + |part| <= |buf|
    ensures |r| == |buf|
  {
    buf[..base] + part + buf[base + |part|..]
  }

  lemma SpliceInside(buf: seq<int>, base: nat, part: seq<int>, lo: nat, n: nat)
    requires lo <= base && base + |part| <= lo + n <= |buf|
    ensures Spliced(buf, base, part)[lo..lo + n] == Spliced(buf[lo..lo + n], base - lo, part)
  {
  }

  lemma SpliceOutside(buf: seq<int>, base: nat, part: seq<int>, lo: nat, n: nat)
    requires base + |part| <= |buf| && lo + n <= |buf| && (lo + n <= base || base + |part| <= lo)
    ensures Spliced(buf, base, part)[lo..lo + n] == buf[lo..lo + n]
  {
  }

  lemma OverlayIsSplice(g: Geometry, lane: Lane, p: Packet, t: nat, row: Vec)
    requires t < 16 && Accepted(g, p) && |row| == VecLen(g)
    ensures Spliced(row, Offset(g, p), PacketRow(lane, p, t)) == OverlayRow(g, lane, p, t, row)
  {
  }

  /** Writing the packet's part of row t overlays that row and leaves the others alone. */
  lemma SplicedRows(g: Geometry, lane: Lane, p: Packet, t: nat, u: nat, buf: seq<int>)
    requires t < 16 && u < 16 && Accepted(g, p) && |buf| == 16 * VecLen(g)
    ensures var buf' := Spliced(buf, RowBase(g, p, t), PacketRow(lane, p, t));
            RowOf(buf', VecLen(g), u) ==
            if u == t then OverlayRow(g, lane, p, t, RowOf(buf, VecLen(g), t)) else RowOf(buf, VecLen(g), u)
  {
    hide OverlayRow, PacketRow, Spliced;
    var v, base, part := VecLen(g), RowBase(g, p, t), PacketRow(lane, p, t);
    RowsApart(v, t, u);
    if u == t {
      SpliceInside(buf, base, part, t * v, v);
      OverlayIsSplice(g, lane, p, t, RowOf(buf, v, t));
    } else {
      SpliceOutside(buf, base, part, u * v, v);
    }
  }

  lemma RowsApart(v: nat, t: nat, u: nat)
    requires t < 16 && u < 16
    ensures 0 <= u * v && u * v + v <= 16 * v
    ensures (t + 1) * v == t * v + v
    ensures u < t ==> u * v + v <= t * v
    ensures t < u ==> t * v + v <= u * v
  {
    assert (u + 1) * v == u * v + v;
    MulMono(0, u, v);
    MulMono(u + 1, 16, v);
    if u < t {
      MulMono(u + 1, t, v);
    } else if t < u {
      MulMono(t + 1, u, v);
    }
  }

  /** Laying a packet over the frame it belongs to gives the next frame. */
  lemma FrameStep(g: Geometry, lane: Lane, q: seq<Packet>, p: Packet, rows: seq<Vec>, rows': seq<Vec>)
    requires |rows| == |rows'| == 16 && Overlaid(g, lane, p, rows, rows')
    requires if Closes(g, q, p) then rows == Zeros(g, 16) else rows == Frame(g, lane, q)
    ensures rows' == Frame(g, lane, q + [p])
  {
    assert (q + [p])[..|q|] == q;
    forall t: nat | t < 16
      ensures rows'[t] == Row(g, lane, q + [p], t)
    {
      assert rows[t] == if Closes(g, q, p) then ZeroVec(g) else Row(g, lane, q, t);
    }
  }

  lemma ZeroRow(g: Geometry, buf: seq<int>, t: nat)
    requires t < 16 && |buf| == 16 * VecLen(g) && forall i :: 0 <= i < |buf| ==> buf[i] == 0
    ensures RowOf(buf, VecLen(g), t) == ZeroVec(g)
  {
    hide VecLen;
    RowsApart(VecLen(g), t, t);
  }

  lemma ZeroRows(g: Geometry, buf: seq<int>)
    requires |buf| == 16 * VecLen(g) && forall i :: 0 <= i < |buf| ==> buf[i] == 0
    ensures RowsOf(buf, VecLen(g)) == Zeros(g, 16)
  {
    hide VecLen, RowOf;
    forall t: nat | t < 16
      ensures RowOf(buf, VecLen(g), t) == ZeroVec(g)
    {
      ZeroRow(g, buf, t);
    }
  }

  // Before the first packet the frame is all zeros.
  lemma ZeroFrame(g: Geometry, lane: Lane)
    ensures Frame(g, lane, []) == Zeros(g, 16)
  {
    forall t: nat | t < 16
      ensures Row(g, lane, [], t) == ZeroVec(g)
    {
    }
  }
}
