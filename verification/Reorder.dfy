/** Reordering correlator blocks by baseline. */
module Reorder {
  import opened Arithmetic
  import opened Correlator

  // Index of value i of the square (a, b), with n squares per row of v values each.
  function At(a: nat, n: nat, b: nat, v: nat, i: nat): nat { Pack(Pack(a, n, b), v, i) }

  // Where entry x of the [baseline][frequency] order comes from in the [frequency][baseline] order.
  function Source(x: nat, nf: nat, nb: nat, v: nat): nat
    requires nf > 0 && v > 0
  {
    At(x / v % nf, nb, x / v / nf, v, x % v)
  }

  function Size(nf: nat, nb: nat, v: nat): nat { nb * nf * v }

  lemma SizeSymmetric(nf: nat, nb: nat, v: nat)
    ensures Size(nf, nb, v) == Size(nb, nf, v)
  {
    assert nb * nf == nf * nb;
  }

  lemma SourceOf(b: nat, f: nat, i: nat, nf: nat, nb: nat, v: nat)
    requires b < nb && f < nf && i < v
    ensures At(b, nf, f, v, i) < Size(nf, nb, v)
    ensures Source(At(b, nf, f, v, i), nf, nb, v) == At(f, nb, b, v, i)
  {
    hide Size;
    PackBound(b, nb, f, nf);
    PackBound(Pack(b, nf, f), nb * nf, i, v);
    DivMod(Pack(b, nf, f), v, i);
    DivMod(b, nf, f);
    assert Size(nf, nb, v) == nb * nf * v by {
      SizeIs(nf, nb, v);
    }
  }

  lemma SizeIs(nf: nat, nb: nat, v: nat)
    ensures Size(nf, nb, v) == nb * nf * v
  {
  }

  // Every index in range is one square's value.
  lemma Digits(x: nat, nf: nat, nb: nat, v: nat) returns (b: nat, f: nat, i: nat)
    requires x < Size(nf, nb, v)
    ensures b < nb && f < nf && i < v && x == At(b, nf, f, v, i)
  {
    var c, i0 := Unpack(x, nb * nf, v);
    var b0, f0 := Unpack(c, nb, nf);
    b, f, i := b0, f0, i0;
  }

  /** The reordering never leaves the data, and applying it with frequencies and baselines swapped
      leads back. */
  lemma SourceInverse(x: nat, nf: nat, nb: nat, v: nat)
    requires nf > 0 && v > 0 && nb > 0 && x < Size(nf, nb, v)
    ensures Source(x, nf, nb, v) < Size(nf, nb, v)
    ensures Source(Source(x, nf, nb, v), nb, nf, v) == x
  {
    var b, f, i := Digits(x, nf, nb, v);
    SourceOf(b, f, i, nf, nb, v);
    SourceOf(f, b, i, nb, nf, v);
    SizeSymmetric(nf, nb, v);
  }

  lemma Positive(x: nat, nf: nat, nb: nat, v: nat)
    requires x < Size(nf, nb, v)
    ensures nf > 0 && nb > 0 && v > 0
  {
    var b, f, i := Digits(x, nf, nb, v);
  }

  // The reordered data; what lies beyond the last square is left zero.
  function Reordered(data: seq<Complex>, nf: nat, nb: nat, v: nat): (r: seq<Complex>)
    requires |data| >= Size(nf, nb, v)
    ensures |r| == |data|
  {
    seq(|data|, x requires 0 <= x < |data| => ReorderedAt(data, nf, nb, v, x))
  }

  function ReorderedAt(data: seq<Complex>, nf: nat, nb: nat, v: nat, x: nat): Complex
    requires Size(nf, nb, v) <= |data|
  {
    if x < Size(nf, nb, v) then
      Positive(x, nf, nb, v);
      SourceInverse(x, nf, nb, v);
      data[Source(x, nf, nb, v)]
    else ZERO
  }

  /** Value i of frequency f and baseline b moves from [f][b] to [b][f]. */
  lemma ReorderedSquare(data: seq<Complex>, nf: nat, nb: nat, v: nat, b: nat, f: nat, i: nat)
    requires |data| >= Size(nf, nb, v) && b < nb && f < nf && i < v
    ensures At(b, nf, f, v, i) < |data| && At(f, nb, b, v, i) < |data|
    ensures Reordered(data, nf, nb, v)[At(b, nf, f, v, i)] == data[At(f, nb, b, v, i)]
  {
    SourceOf(b, f, i, nf, nb, v);
    SourceOf(f, b, i, nb, nf, v);
    SizeSymmetric(nf, nb, v);
  }

  /** Reordering and then reordering with the counts swapped gives the data back exactly when
      nothing but zeros lies beyond the last square. */
  lemma ReorderTwice(data: seq<Complex>, nf: nat, nb: nat, v: nat)
    requires |data| >= Size(nf, nb, v)
    ensures |data| >= Size(nb, nf, v)
    ensures Reordered(Reordered(data, nf, nb, v), nb, nf, v) == data
            <==> forall x :: Size(nf, nb, v) <= x < |data| ==> data[x] == ZERO
  {
    SizeSymmetric(nf, nb, v);
    var once := Reordered(data, nf, nb, v);
    var twice := Reordered(once, nb, nf, v);
    forall x | 0 <= x < |data|
      ensures twice[x] == if x < Size(nf, nb, v) then data[x] else ZERO
    {
      if x < Size(nf, nb, v) {
        TwiceAt(data, nf, nb, v, x);
      }
    }
  }

  /** A value behind the last square does not come back. */
  lemma TailIsLostAt(data: seq<Complex>)
    requires data == [Complex(1.0, 0.0), Complex(2.0, 0.0)]
    ensures Size(1, 1, 1) < |data| && Reordered(Reordered(data, 1, 1, 1), 1, 1, 1) != data
  {
    hide Reordered;
    ReorderTwice(data, 1, 1, 1);
    assert data[1] != ZERO;
  }

  lemma TwiceAt(data: seq<Complex>, nf: nat, nb: nat, v: nat, x: nat)
    requires |data| >= Size(nf, nb, v) && x < Size(nf, nb, v) == Size(nb, nf, v)
    ensures ReorderedAt(Reordered(data, nf, nb, v), nb, nf, v, x) == data[x]
  {
    Positive(x, nb, nf, v);
    SourceInverse(x, nb, nf, v);
  }

  /** Blocks without a remainder come back unchanged, and no value is lost or doubled on the way. */
  lemma ReorderIsInvertible(data: seq<Complex>, nf: nat, nb: nat, v: nat)
    requires |data| == Size(nf, nb, v)
    ensures |data| == Size(nb, nf, v)
    ensures Reordered(Reordered(data, nf, nb, v), nb, nf, v) == data
  {
    ReorderTwice(data, nf, nb, v);
  }

  /** reorderFreqPerBaseline. */
  method ReorderFreqPerBaseline(data: seq<Complex>, nf: nat, nb: nat, npol: nat) returns (out: array<Complex>)
    requires |data| >= Size(nf, nb, npol * npol)
    ensures fresh(out) && out[..] == Reordered(data, nf, nb, npol * npol)
  {
    var v := npol * npol;
    out := new Complex[|data|](_ => ZERO);
    for b := 0 to nb
      invariant Done(data, out[..], nf, nb, v, At(b, nf, 0, v, 0))
    {
      for f := 0 to nf
        invariant Done(data, out[..], nf, nb, v, At(b, nf, f, v, 0))
      {
        CopySquare(data, out, nf, nb, v, b, f);
        PackCarry(Pack(b, nf, f), v);
      }
      PackCarry(b, nf);
    }
  }

  // The first `cur` entries are in place, the rest is still zero.
  ghost predicate Done(data: seq<Complex>, out: seq<Complex>, nf: nat, nb: nat, v: nat, cur: nat)
    requires |data| >= Size(nf, nb, v)
  {
    && |out| == |data|
    && forall x :: 0 <= x < |out| ==> out[x] == if x < cur then ReorderedAt(data, nf, nb, v, x) else ZERO
  }

  // The innermost loop: one square.
  method CopySquare(data: seq<Complex>, out: array<Complex>, nf: nat, nb: nat, v: nat, b: nat, f: nat)
    requires |data| >= Size(nf, nb, v) && b < nb && f < nf
    requires Done(data, out[..], nf, nb, v, At(b, nf, f, v, 0))
    modifies out
    ensures Done(data, out[..], nf, nb, v, At(b, nf, f, v, v))
  {
    var reorderIndex := nf * v * b + f * v;
    var originalIndex := nb * v * f + b * v;
    for i := 0 to v
      invariant Done(data, out[..], nf, nb, v, At(b, nf, f, v, i))
    {
      ReorderedSquare(data, nf, nb, v, b, f, i);
      SourceOf(b, f, i, nf, nb, v);
      CodeIndex(b, nf, f, v, i);
      CodeIndex(f, nb, b, v, i);
      out[reorderIndex + i] := data[originalIndex + i];
    }
  }

  lemma CodeIndex(a: nat, n: nat, b: nat, v: nat, i: nat)
    ensures n * v * a + b * v + i == At(a, n, b, v, i)
  {
    assert (a * n + b) * v == a * n * v + b * v;
    assert n * v * a == a * n * v;
  }
}
