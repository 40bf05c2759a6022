/** Baseline by baseline reordering in any order, and the placement of a whole correlator file in the
    output array. */
module OutputArray {
  import opened Arithmetic
  import opened Correlator
  import opened Reorder

  // --- One baseline at a time -----------------------------------------------------------------

  function BaselineOf(x: nat, nf: nat, v: nat): nat
  {
    if nf == 0 || v == 0 then 0 else x / v / nf
  }

  // `out` with the squares of baseline b filled in.
  function WithBaseline(data: seq<Complex>, out: seq<Complex>, nf: nat, nb: nat, v: nat, b: nat): (r: seq<Complex>)
    requires |data| >= Size(nf, nb, v)
    ensures |r| == |out|
  {
    seq(|out|, x requires 0 <= x < |out| =>
      if x < Size(nf, nb, v) && BaselineOf(x, nf, v) == b then ReorderedAt(data, nf, nb, v, x) else out[x])
  }

  // The loop run once for each baseline of `order`, starting from zeros.
  function InOrder(data: seq<Complex>, nf: nat, nb: nat, v: nat, order: seq<nat>): (r: seq<Complex>)
    requires |data| >= Size(nf, nb, v)
    ensures |r| == |data|
  {
    if |order| == 0 then seq(|data|, _ => ZERO)
    else WithBaseline(data, InOrder(data, nf, nb, v, order[..|order| - 1]), nf, nb, v, order[|order| - 1])
  }

  lemma {:induction false} InOrderAt(data: seq<Complex>, nf: nat, nb: nat, v: nat, order: seq<nat>, x: nat)
    requires |data| >= Size(nf, nb, v) && x < |data|
    ensures InOrder(data, nf, nb, v, order)[x] ==
            if x < Size(nf, nb, v) && BaselineOf(x, nf, v) in order then ReorderedAt(data, nf, nb, v, x) else ZERO
  {
    if |order| == 0 {
    } else {
      var init := order[..|order| - 1];
      InOrderAt(data, nf, nb, v, init, x);
      assert order == init + [order[|order| - 1]];
    }
  }

  /** Running the loop once per baseline, in any order and with any repetition, gives the result of
      the sequential function. */
  lemma AnyOrder(data: seq<Complex>, nf: nat, nb: nat, v: nat, order: seq<nat>)
    requires |data| >= Size(nf, nb, v)
    requires forall b :: 0 <= b < nb ==> b in order
    ensures InOrder(data, nf, nb, v, order) == Reordered(data, nf, nb, v)
  {
    forall x | 0 <= x < |data|
      ensures InOrder(data, nf, nb, v, order)[x] == Reordered(data, nf, nb, v)[x]
    {
      InOrderAt(data, nf, nb, v, order, x);
      if x < Size(nf, nb, v) {
        var b, f, i := Digits(x, nf, nb, v);
        BaselineAt(b, f, i, nf, v);
      }
    }
  }

  lemma BaselineAt(b: nat, f: nat, i: nat, nf: nat, v: nat)
    requires f < nf && i < v
    ensures BaselineOf(At(b, nf, f, v, i), nf, v) == b
  {
    DivMod(Pack(b, nf, f), v, i);
    DivMod(b, nf, f);
  }

  /** reorderInnerLoop: fills in one baseline and leaves every other entry alone. */
  method ReorderInnerLoop(data: seq<Complex>, out: array<Complex>, nf: nat, nb: nat, b: nat, v: nat)
    requires out.Length >= Size(nf, nb, v) && |data| >= Size(nf, nb, v) && b < nb
    modifies out
    ensures out[..] == WithBaseline(data, old(out[..]), nf, nb, v, b)
  {
    hide BaselineUpTo, At, Size, WithBaseline;
    StartOfBaseline(data, out[..], nf, nb, v, b);
    for f := 0 to nf
      invariant BaselineUpTo(data, old(out[..]), out[..], nf, nb, v, b, At(b, nf, f, v, 0))
    {
      CopySquareOf(data, out, old(out[..]), nf, nb, b, v, f);
      NextSquare(b, nf, f, v);
    }
    EndOfBaseline(data, old(out[..]), out[..], nf, nb, v, b);
  }

  // The innermost loop for frequency f.
  method CopySquareOf(data: seq<Complex>, out: array<Complex>, ghost was: seq<Complex>,
                      nf: nat, nb: nat, b: nat, v: nat, f: nat)
    requires out.Length >= Size(nf, nb, v) && |data| >= Size(nf, nb, v) && b < nb && f < nf
    requires BaselineUpTo(data, was, out[..], nf, nb, v, b, At(b, nf, f, v, 0))
    modifies out
    ensures BaselineUpTo(data, was, out[..], nf, nb, v, b, At(b, nf, f, v, v))
  {
    hide Size, BaselineOf, ReorderedAt, At, Pack, Reordered;
    var reorderIndex := nf * v * b + f * v;
    var originalIndex := nb * v * f + b * v;
    for i := 0 to v
      invariant BaselineUpTo(data, was, out[..], nf, nb, v, b, At(b, nf, f, v, i))
    {
      NextEntry(data, nf, nb, v, b, f, i);
      CodeIndex(b, nf, f, v, i);
      CodeIndex(f, nb, b, v, i);
      out[reorderIndex + i] := data[originalIndex + i];
    }
  }

  lemma NextEntry(data: seq<Complex>, nf: nat, nb: nat, v: nat, b: nat, f: nat, i: nat)
    requires |data| >= Size(nf, nb, v) && b < nb && f < nf && i < v
    ensures At(b, nf, f, v, i) < Size(nf, nb, v) && At(f, nb, b, v, i) < |data|
    ensures BaselineOf(At(b, nf, f, v, i), nf, v) == b
    ensures At(b, nf, f, v, i + 1) == At(b, nf, f, v, i) + 1
    ensures data[At(f, nb, b, v, i)] == ReorderedAt(data, nf, nb, v, At(b, nf, f, v, i))
  {
    ReorderedSquare(data, nf, nb, v, b, f, i);
    SourceOf(b, f, i, nf, nb, v);
    BaselineAt(b, f, i, nf, v);
  }

  // Baseline b is filled in below `cur`.
  ghost predicate BaselineUpTo(data: seq<Complex>, was: seq<Complex>, now: seq<Complex>,
                               nf: nat, nb: nat, v: nat, b: nat, cur: nat)
    requires |data| >= Size(nf, nb, v)
  {
    && |now| == |was|
    && forall x :: 0 <= x < |now| ==>
         now[x] == if x < cur && x < Size(nf, nb, v) && BaselineOf(x, nf, v) == b
                   then ReorderedAt(data, nf, nb, v, x) else was[x]
  }

  lemma NextSquare(b: nat, nf: nat, f: nat, v: nat)
    ensures At(b, nf, f, v, v) == At(b, nf, f + 1, v, 0)
  {
    PackCarry(Pack(b, nf, f), v);
  }

  lemma StartOfBaseline(data: seq<Complex>, was: seq<Complex>, nf: nat, nb: nat, v: nat, b: nat)
    requires |data| >= Size(nf, nb, v) && b < nb
    ensures BaselineUpTo(data, was, was, nf, nb, v, b, At(b, nf, 0, v, 0))
  {
    forall x | 0 <= x < |was| && x < Size(nf, nb, v) && BaselineOf(x, nf, v) == b
      ensures x >= At(b, nf, 0, v, 0)
    {
      var b', f, i := Digits(x, nf, nb, v);
      BaselineAt(b', f, i, nf, v);
      PackOrder(Pack(b, nf, f), Pack(b, nf, 0), v, i);
    }
  }

  lemma EndOfBaseline(data: seq<Complex>, was: seq<Complex>, now: seq<Complex>, nf: nat, nb: nat, v: nat, b: nat)
    requires |data| >= Size(nf, nb, v) && b < nb
    requires BaselineUpTo(data, was, now, nf, nb, v, b, At(b, nf, nf, v, 0))
    ensures now == WithBaseline(data, was, nf, nb, v, b)
  {
    forall x | 0 <= x < |now| && x < Size(nf, nb, v) && BaselineOf(x, nf, v) == b
      ensures x < At(b, nf, nf, v, 0)
    {
      var b', f, i := Digits(x, nf, nb, v);
      BaselineAt(b', f, i, nf, v);
      PackOrder(Pack(b, nf, f), Pack(b, nf, nf), v, i);
    }
  }

  // --- The output array -------------------------------------------------------------------------

  // Squares hold v = npol * npol values. The array has as many columns, of which the first four are
  // filled in, in the order XX, YY, XY, YX, from squares stored as XX, XY, YX, YY.
  function Perm(q: nat): (r: nat)
    requires q < 4
    ensures r < 4
  {
    if q == 0 then 0 else if q == 1 then 3 else q - 1
  }

  // The value for row b, frequency f and polarization q of a reordered block.
  function BlockValue(reordered: seq<Complex>, nf: nat, v: nat, b: int, f: int, q: int): Complex
  {
    if 0 <= b && 0 <= f && 0 <= q < 4 && At(b, nf, f, v, Perm(q)) < |reordered| then reordered[At(b, nf, f, v, Perm(q))]
    else ZERO
  }

  /** The two loops that copy one reordered block into rows base, base + 1, ... of the array. */
  method PlaceBlock(reordered: seq<Complex>, tmp: array3<Complex>, base: nat, nf: nat, nb: nat, v: nat)
    requires |reordered| >= Size(nf, nb, v) && v >= 4
    requires base + nb <= tmp.Length0 && tmp.Length1 == nf && tmp.Length2 == v
    modifies tmp
    ensures forall r, f, q :: 0 <= r < tmp.Length0 && 0 <= f < nf && 0 <= q < v ==>
              tmp[r, f, q] ==
              if base <= r < base + nb && q < 4 then BlockValue(reordered, nf, v, r - base, f, q) else old(tmp[r, f, q])
  {
    hide BlockValue, At, Size, Perm;
    for b := 0 to nb
      invariant forall r, f, q :: 0 <= r < tmp.Length0 && 0 <= f < nf && 0 <= q < v ==>
                  tmp[r, f, q] ==
                  if base <= r < base + b && q < 4
                  then BlockValue(reordered, nf, v, r - base, f, q) else old(tmp[r, f, q])
    {
      for f := 0 to nf
        invariant forall r, f', q :: 0 <= r < tmp.Length0 && 0 <= f' < nf && 0 <= q < v ==>
                    tmp[r, f', q] ==
                    if (base <= r < base + b || (r == base + b && f' < f)) && q < 4
                    then BlockValue(reordered, nf, v, r - base, f', q) else old(tmp[r, f', q])
      {
        var k := b * nf * v + f * v;
        SquareValues(reordered, b, f, nf, nb, v, k);
        tmp[base + b, f, 0] := reordered[k];
        tmp[base + b, f, 1] := reordered[k + 3];
        tmp[base + b, f, 2] := reordered[k + 1];
        tmp[base + b, f, 3] := reordered[k + 2];
      }
    }
  }

  lemma SquareValues(reordered: seq<Complex>, b: nat, f: nat, nf: nat, nb: nat, v: nat, k: nat)
    requires b < nb && f < nf && v >= 4 && k == b * nf * v + f * v && |reordered| >= Size(nf, nb, v)
    ensures k + 3 < |reordered|
    ensures BlockValue(reordered, nf, v, b, f, 0) == reordered[k]
    ensures BlockValue(reordered, nf, v, b, f, 1) == reordered[k + 3]
    ensures BlockValue(reordered, nf, v, b, f, 2) == reordered[k + 1]
    ensures BlockValue(reordered, nf, v, b, f, 3) == reordered[k + 2]
  {
    hide At, Size;
    SquareIndices(b, f, nf, nb, v, k);
    assert At(b, nf, f, v, Perm(0)) == k && At(b, nf, f, v, Perm(1)) == k + 3;
    assert At(b, nf, f, v, Perm(2)) == k + 1 && At(b, nf, f, v, Perm(3)) == k + 2;
  }

  lemma SquareIndices(b: nat, f: nat, nf: nat, nb: nat, v: nat, k: nat)
    requires b < nb && f < nf && v >= 4 && k == b * nf * v + f * v
    ensures forall q: nat {:trigger Perm(q)} :: q < 4 ==> At(b, nf, f, v, Perm(q)) == k + Perm(q) < Size(nf, nb, v)
  {
    forall q: nat {:trigger Perm(q)} | q < 4
      ensures At(b, nf, f, v, Perm(q)) == k + Perm(q) < Size(nf, nb, v)
    {
      SourceOf(b, f, Perm(q), nf, nb, v);
      CodeIndex(b, nf, f, v, Perm(q));
      SwapFactors(nf, v, b);
    }
  }

  lemma SwapFactors(n: nat, v: nat, a: nat)
    ensures n * v * a == a * n * v
  {
  }

  // Row t * nb + b of the array holds, at (f, q), block t's sample of frequency f and baseline b.
  ghost predicate PlacedAt(file: seq<Complex>, spb: nat, nf: nat, nb: nat, v: nat, tmp: array3<Complex>,
                           t: nat, b: nat, f: nat, q: nat)
    requires tmp.Length1 == nf && tmp.Length2 == v >= 4 && f < nf && q < 4
    reads tmp
  {
    && Pack(t, nb, b) < tmp.Length0 && SampleIndex(t, spb, nf, nb, v, b, f, q) < |file|
    && tmp[Pack(t, nb, b), f, q] == file[SampleIndex(t, spb, nf, nb, v, b, f, q)]
  }

  /** The block loop: reads whole blocks of `spb` samples until the file runs short, reorders each and
      places it. Row t * nb + b at (f, q) is block t's sample of frequency f, baseline b, in the
      polarization order of the output. The array is sized by the file's bytes and the bytes per block,
      two further numbers; blocks read beyond it, or shorter than the matrix, are index errors. */
  method FillArray(file: seq<Complex>, fileSize: nat, spb: nat, bytesPerBlock: nat, nf: nat, nb: nat, npol: nat)
      returns (tmp: array3<Complex>, blocks: nat)
    requires |file| == fileSize / 8 && spb > 0 && bytesPerBlock > 0 && npol >= 2
    requires spb <= |file| ==> spb >= Size(nf, nb, npol * npol)
    requires |file| / spb * nb <= fileSize / bytesPerBlock * nb
    ensures blocks == |file| / spb
    ensures tmp.Length0 == fileSize / bytesPerBlock * nb && tmp.Length1 == nf && tmp.Length2 == npol * npol >= 4
    ensures forall t: nat, b: nat, f: nat, q: nat ::
              t < blocks && b < nb && f < nf && q < 4 ==> PlacedAt(file, spb, nf, nb, npol * npol, tmp, t, b, f, q)
    ensures forall r, f, q :: 0 <= r < tmp.Length0 && 0 <= f < nf && 0 <= q < npol * npol ==>
              (r >= blocks * nb || q >= 4 ==> tmp[r, f, q] == ZERO)
  {
    var v := Square(npol);
    hide SampleAt, SampleIndex, Size;
    var timeBlocks := fileSize / bytesPerBlock;
    MulMono(0, timeBlocks, nb);
    tmp := new Complex[timeBlocks * nb, nf, v]((_, _, _) => ZERO);
    blocks := 0;
    while |file| - blocks * spb >= spb
      invariant blocks * spb <= |file| && (blocks > 0 ==> spb <= |file|)
      invariant tmp.Length0 == timeBlocks * nb && tmp.Length1 == nf && tmp.Length2 == v
      invariant FilledTo(file, spb, nf, nb, v, tmp, blocks)
      decreases |file| - blocks * spb
    {
      NextRead(|file|, spb, blocks, nb);
      PlaceFileBlock(file, spb, nf, nb, npol, tmp, blocks);
      blocks := blocks + 1;
    }
    BlocksRead(|file|, spb, blocks);
    MulMono(0, blocks, nb);
    AllPlaced(file, spb, nf, nb, v, tmp, blocks);
  }

  function Square(n: nat): (v: nat)
    ensures v == n * n && (n >= 2 ==> v >= 4)
  {
    assert n >= 2 ==> n * n == (n - 2) * (n - 2) + 4 * n - 4;
    n * n
  }

  lemma AllPlaced(file: seq<Complex>, spb: nat, nf: nat, nb: nat, v: nat, tmp: array3<Complex>, blocks: nat)
    requires (blocks > 0 ==> spb >= Size(nf, nb, v)) && blocks * spb <= |file|
    requires 0 <= blocks * nb <= tmp.Length0 && tmp.Length1 == nf && tmp.Length2 == v >= 4
    requires FilledTo(file, spb, nf, nb, v, tmp, blocks)
    ensures forall t: nat, b: nat, f: nat, q: nat ::
              t < blocks && b < nb && f < nf && q < 4 ==> PlacedAt(file, spb, nf, nb, v, tmp, t, b, f, q)
  {
    forall t: nat, b: nat, f: nat, q: nat | t < blocks && b < nb && f < nf && q < 4
      ensures PlacedAt(file, spb, nf, nb, v, tmp, t, b, f, q)
    {
      hide SampleIndex, SampleAt, Size;
      PackBound(t, blocks, b, nb);
      MulMono(t + 1, blocks, spb);
      SampleOfRow(file, spb, nf, nb, v, t, b, f, q);
    }
  }

  // Reads block t of the file, reorders it and places it.
  method PlaceFileBlock(file: seq<Complex>, spb: nat, nf: nat, nb: nat, npol: nat, tmp: array3<Complex>, t: nat)
    requires npol >= 2 && spb >= Size(nf, nb, npol * npol) && (t + 1) * spb <= |file|
    requires (t + 1) * nb <= tmp.Length0 && tmp.Length1 == nf && tmp.Length2 == npol * npol
    requires FilledTo(file, spb, nf, nb, npol * npol, tmp, t)
    modifies tmp
    ensures FilledTo(file, spb, nf, nb, npol * npol, tmp, t + 1)
  {
    ghost var v := Square(npol);
    hide SampleAt, BlockValue, Reordered, Size, At;
    assert (t + 1) * spb == t * spb + spb && (t + 1) * nb == t * nb + nb;
    var ccDataVector := file[t * spb..t * spb + spb];
    var out := ReorderFreqPerBaseline(ccDataVector, nf, nb, npol);
    ghost var reordered := Reordered(ccDataVector, nf, nb, v);
    PlaceBlock(out[..], tmp, t * nb, nf, nb, npol * npol);
    forall r, f, q | t * nb <= r < (t + 1) * nb && 0 <= f < nf && 0 <= q < 4
      ensures BlockValue(reordered, nf, v, r - t * nb, f, q) == SampleAt(file, spb, nf, nb, v, r, f, q)
    {
      BlockSample(file, spb, nf, nb, v, t, r - t * nb, f, q);
    }
  }

  // Where the file holds block t's sample for baseline b, frequency f and output polarization q.
  function SampleIndex(t: nat, spb: nat, nf: nat, nb: nat, v: nat, b: nat, f: nat, q: nat): nat
    requires q < 4
  {
    Pack(t, spb, At(f, nb, b, v, Perm(q)))
  }

  /** In the file block t's square of frequency f and baseline b begins at t * spb + (f * nb + b) * v; the
      columns of the array hold its values 0, 3, 1 and 2. */
  lemma SampleInFile(t: nat, spb: nat, nf: nat, nb: nat, v: nat, b: nat, f: nat)
    ensures var square := t * spb + (f * nb + b) * v;
            && SampleIndex(t, spb, nf, nb, v, b, f, 0) == square
            && SampleIndex(t, spb, nf, nb, v, b, f, 1) == square + 3
            && SampleIndex(t, spb, nf, nb, v, b, f, 2) == square + 1
            && SampleIndex(t, spb, nf, nb, v, b, f, 3) == square + 2
  {
  }

  // The sample that belongs in row r of the array.
  function SampleAt(file: seq<Complex>, spb: nat, nf: nat, nb: nat, v: nat, r: int, f: int, q: int): Complex
  {
    if nb > 0 && 0 <= r && 0 <= f && 0 <= q < 4 && SampleIndex(r / nb, spb, nf, nb, v, r % nb, f, q) < |file|
    then file[SampleIndex(r / nb, spb, nf, nb, v, r % nb, f, q)] else ZERO
  }

  // The rows of the first `blocks` blocks are in place, and no others.
  ghost predicate FilledTo(file: seq<Complex>, spb: nat, nf: nat, nb: nat, v: nat, tmp: array3<Complex>, blocks: nat)
    requires tmp.Length1 == nf && tmp.Length2 == v
    reads tmp
  {
    forall r, f, q :: 0 <= r < tmp.Length0 && 0 <= f < nf && 0 <= q < v ==>
      tmp[r, f, q] == if r < blocks * nb && q < 4 then SampleAt(file, spb, nf, nb, v, r, f, q) else ZERO
  }

  lemma SampleOfRow(file: seq<Complex>, spb: nat, nf: nat, nb: nat, v: nat, t: nat, b: nat, f: nat, q: nat)
    requires spb >= Size(nf, nb, v) && (t + 1) * spb <= |file| && b < nb && f < nf && q < 4 <= v
    ensures SampleIndex(t, spb, nf, nb, v, b, f, q) < |file|
    ensures SampleAt(file, spb, nf, nb, v, Pack(t, nb, b), f, q) == file[SampleIndex(t, spb, nf, nb, v, b, f, q)]
  {
    hide At, Size, Perm;
    DivMod(t, nb, b);
    SourceOf(f, b, Perm(q), nb, nf, v);
    SizeSymmetric(nf, nb, v);
    assert (t + 1) * spb == t * spb + spb;
  }

  lemma BlockSample(file: seq<Complex>, spb: nat, nf: nat, nb: nat, v: nat, t: nat, b: nat, f: nat, q: nat)
    requires spb >= Size(nf, nb, v) && 0 <= t * spb && t * spb + spb <= |file| && b < nb && f < nf && q < 4 <= v
    ensures BlockValue(Reordered(file[t * spb..t * spb + spb], nf, nb, v), nf, v, b, f, q)
            == SampleAt(file, spb, nf, nb, v, t * nb + b, f, q)
  {
    assert (t + 1) * spb == t * spb + spb;
    SampleOfRow(file, spb, nf, nb, v, t, b, f, q);
    ReorderedSquare(file[t * spb..t * spb + spb], nf, nb, v, b, f, Perm(q));
  }

  lemma NextRead(size: nat, spb: nat, blocks: nat, nb: nat)
    requires spb > 0 && blocks * spb + spb <= size
    ensures (blocks + 1) * spb == blocks * spb + spb
    ensures (blocks + 1) * nb <= size / spb * nb
  {
    Quotient(size, spb);
    if size / spb < blocks + 1 {
      MulMono(size / spb, blocks, spb);
      assert false;
    }
    MulMono(blocks + 1, size / spb, nb);
  }

  lemma BlocksRead(size: nat, spb: nat, blocks: nat)
    requires spb > 0 && blocks * spb <= size < blocks * spb + spb
    ensures blocks == size / spb
  {
    DivMod(blocks, spb, size - blocks * spb);
  }

  // --- Nothing lost, nothing doubled --------------------------------------------------------------

  lemma {:induction false} PermIsBijective(q: nat, q': nat)
    requires q < 4 && q' < 4
    ensures Perm(q) == Perm(q') ==> q == q'
    ensures exists x: nat :: x < 4 && Perm(x) == q
  {
    assert Perm(0) == 0 && Perm(1) == 3 && Perm(2) == 1 && Perm(3) == 2;
  }

  /** With blocks of exactly the right size, of every square of the file the first four samples are
      placed: all there are, for two polarizations. */
  lemma EverySamplePlaced(spb: nat, nf: nat, nb: nat, v: nat, blocks: nat, x: nat)
      returns (t: nat, b: nat, f: nat, q: nat)
    requires v >= 4 && spb == Size(nf, nb, v) && x < blocks * spb && x % v < 4
    ensures t < blocks && b < nb && f < nf && q < 4 && SampleIndex(t, spb, nf, nb, v, b, f, q) == x
  {
    var t0, y := Unpack(x, blocks, spb);
    SizeSymmetric(nf, nb, v);
    var f0, b0, i := Digits(y, nb, nf, v);
    LastDigit(t0, nb, nf, v, f0, b0, i);
    PermIsBijective(i, i);
    t, b, f := t0, b0, f0;
    q :| q < 4 && Perm(q) == i;
  }

  lemma LastDigit(t: nat, nb: nat, nf: nat, v: nat, f: nat, b: nat, i: nat)
    requires v > 0 && i < v
    ensures Pack(t, Size(nf, nb, v), At(f, nb, b, v, i)) % v == i
  {
    hide Pack;
    var m, c := nb * nf, Pack(f, nb, b);
    Regroup(t, m, c, v, i);
    PackMod(Pack(t, m, c), v, i);
    assert Size(nf, nb, v) == m * v;
  }

  lemma Regroup(t: nat, m: nat, c: nat, v: nat, i: nat)
    ensures Pack(t, m * v, Pack(c, v, i)) == Pack(Pack(t, m, c), v, i)
  {
    assert (t * m + c) * v == t * m * v + c * v;
    assert t * (m * v) == t * m * v;
  }

  lemma PackMod(a: nat, v: nat, i: nat)
    requires i < v
    ensures Pack(a, v, i) % v == i
  {
    DivMod(a, v, i);
  }

  /** and only once. */
  lemma SamplesPlacedOnce(spb: nat, nf: nat, nb: nat, v: nat, t: nat, b: nat, f: nat, q: nat,
                          t': nat, b': nat, f': nat, q': nat)
    requires spb >= Size(nf, nb, v) && v >= 4
    requires b < nb && f < nf && q < 4 && b' < nb && f' < nf && q' < 4
    requires SampleIndex(t, spb, nf, nb, v, b, f, q) == SampleIndex(t', spb, nf, nb, v, b', f', q')
    ensures t == t' && b == b' && f == f' && q == q'
  {
    hide Pack;
    SourceOf(f, b, Perm(q), nb, nf, v);
    SourceOf(f', b', Perm(q'), nb, nf, v);
    SizeSymmetric(nf, nb, v);
    PackDistinct(t, At(f, nb, b, v, Perm(q)), t', At(f', nb, b', v, Perm(q')), spb);
    PackDistinct(Pack(f, nb, b), Perm(q), Pack(f', nb, b'), Perm(q'), v);
    PackDistinct(f, b, f', b', nb);
    PermIsBijective(q, q');
  }
}
