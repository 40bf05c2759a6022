/** Packets, channel geometry and sample encoding of the SNAP voltage mode. */
module SnapFormat {

  const TWO_32: nat := 0x1_0000_0000
  const TWO_64: nat := 0x1_0000_0000_0000_0000

  // Most missing timestamps that are filled in with zeros.
  const MAX_MISSED_SETS: nat := 20000

  type Byte = b: int | 0 <= b < 256

  // The payload is `unsigned char data[256][16][2]`: channel, time, polarization.
  datatype RawPacket = RawPacket(chan: nat, ts: nat, data: seq<Byte>)

  type Packet = p: RawPacket | |p.data| == 8192 && p.ts < TWO_64
    witness RawPacket(0, 0, seq(8192, i => 0))

  // A channel range of `blocks` packets of 256 channels each, inside the 16-bit channel ids.
  datatype RawGeometry = RawGeometry(start: nat, blocks: nat)

  type Geometry = g: RawGeometry | 1 <= g.blocks && g.start + 256 * g.blocks <= 0x1_0000
    witness RawGeometry(0, 1)

  datatype Configured = Configured(g: Geometry) | OutOfRange | NoChannels

  /** The constructor's channel arithmetic on two 16-bit ids. Only whole packets of 256 channels are
      accepted, except that a range that ends before it starts also passes the remainder test. */
  function Configure(starting: nat, ending: nat): (r: Configured)
    requires starting < 0x1_0000 && ending < 0x1_0000
    ensures r.Configured? <==> exists n: nat :: n > 0 && ending == starting + 256 * n - 1
    ensures r.NoChannels? <==> ending < starting
    ensures r.Configured? ==>
              r.g.start == starting && LastChannel(r.g) == ending - 255 && VecLen(r.g) == 2 * (ending - starting + 1)
  {
    var diff := ending - starting + 1;
    if RemainderOf256(diff) > 0 then OutOfRange
    else if diff <= 0 then NoChannels
    else
      assert ending == starting + 256 * (diff / 256) - 1;
      Configured(RawGeometry(starting, diff / 256))
  }

  // Remainder of a division that truncates toward zero.
  function RemainderOf256(n: int): int
  {
    if n >= 0 then n % 256 else -((-n) % 256)
  }

  // Bytes in one output vector.
  function VecLen(g: Geometry): nat { 512 * g.blocks }

  predicate OnePacket(g: Geometry) { g.blocks == 1 }

  // Channel id of the last packet of a frame.
  function LastChannel(g: Geometry): nat { g.start + 256 * g.blocks - 256 }

  predicate Accepted(g: Geometry, p: Packet) { g.start <= p.chan <= LastChannel(g) }

  // Where in an output vector the packet's 256 channels begin.
  function Offset(g: Geometry, p: Packet): int { 2 * (p.chan - g.start) }

  predicate Covers(g: Geometry, p: Packet, r: int) { Offset(g, p) <= r < Offset(g, p) + 512 }

  function Raw(p: Packet, channel: nat, t: nat, pol: nat): Byte
    requires channel < 256 && t < 16 && pol < 2
  {
    p.data[32 * channel + 2 * t + pol]
  }

  // Four-bit two's complement, with 1000 standing for zero.
  function TwosComplement4Bit(b: int): int
  {
    if b > 7 then if b == 8 then 0 else b - 16 else b
  }

  // I is the high half of a sample byte, Q the low half.
  function Nibble(b: int, half: int): int
  {
    TwosComplement4Bit(if half == 0 then b / 16 else b % 16)
  }

  /** A decoded half byte is a number from -7 to 7 with the same four bits, except that 1000 is 0; the
      high half is I and the low half is Q. */
  lemma NibbleValue(b: Byte, half: int)
    ensures var bits := if half == 0 then b / 16 else b % 16;
            && -7 <= Nibble(b, half) <= 7
            && (if bits == 8 then Nibble(b, half) == 0 else Nibble(b, half) % 16 == bits)
    ensures b == 16 * (b / 16) + b % 16 && 0 <= b / 16 < 16
  {
  }

  /** The lookup table that `start` builds agrees with the arithmetic decoder. */
  method BuildLut() returns (lut: seq<int>)
    ensures |lut| == 16
    ensures forall i :: 0 <= i < 16 ==> lut[i] == TwosComplement4Bit(i) && -7 <= lut[i] <= 7
  {
    lut := seq(16, i => 0);
    for i := 0 to 8
      invariant |lut| == 16 && forall k :: 0 <= k < i ==> lut[k] == k
    {
      lut := lut[i := i];
    }
    lut := lut[8 := 0];
    for i := 9 to 16
      invariant |lut| == 16
      invariant forall k :: 0 <= k < i ==> lut[k] == TwosComplement4Bit(k)
    {
      lut := lut[i := i - 16];
    }
  }

  // The three byte streams the source can build from a packet: the packed output, and the
  // decoded X and Y outputs.
  datatype Lane = PackedXY | UnpackedX | UnpackedY

  // Byte k of the packet's part of time row t.
  function Cell(lane: Lane, p: Packet, t: nat, k: int): int
    requires t < 16 && 0 <= k < 512
  {
    match lane
    case PackedXY => Raw(p, k / 2, t, k % 2)
    case UnpackedX => Nibble(Raw(p, k / 2, t, 0), k % 2)
    case UnpackedY => Nibble(Raw(p, k / 2, t, 1), k % 2)
  }

  const MIN_INT32: int := -0x8000_0000
  const MAX_INT32: int := 0x7fff_ffff

  // Conversion to a signed 32-bit int.
  function ToInt32(x: int): (r: int)
    ensures -0x8000_0000 <= r < 0x8000_0000 && (r - x) % TWO_32 == 0
  {
    var m := x % TWO_32;
    if m < 0x8000_0000 then m else m - TWO_32
  }
}
