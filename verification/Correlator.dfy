/** Correlator output: the triangular matrix and the full one it is expanded to. */
module Correlator {
  import opened Arithmetic
  import opened Triangle

  datatype Complex = Complex(re: real, im: real)

  const ZERO := Complex(0.0, 0.0)

  // --- Triangular and full matrices ----------------------------------------------------------

  // Frequency f, stations i and j, polarizations p and q.
  datatype Entry = Entry(f: nat, i: nat, j: nat, p: nat, q: nat)

  datatype Shape = Shape(nf: nat, ns: nat, np: nat)

  predicate InFull(s: Shape, e: Entry)
  {
    e.f < s.nf && e.i < s.ns && e.j < s.ns && e.p < s.np && e.q < s.np
  }

  predicate InTriangle(s: Shape, e: Entry) { InFull(s, e) && e.j <= e.i }

  function Pack(a: nat, n: nat, b: nat): nat { a * n + b }

  function FullIndex(s: Shape, e: Entry): nat
  {
    Pack(Pack(Pack(Pack(e.f, s.ns, e.i), s.ns, e.j), s.np, e.p), s.np, e.q)
  }

  function TriIndex(s: Shape, e: Entry): nat
  {
    Pack(Pack(Pack(e.f, Tri(s.ns), Tri(e.i) + e.j), s.np, e.p), s.np, e.q)
  }

  function FullSize(s: Shape): nat { s.nf * s.ns * s.ns * s.np * s.np }

  function TriSize(s: Shape): nat { s.nf * Tri(s.ns) * s.np * s.np }

  // The same product of the two stations, seen from the other one.
  function Swap(e: Entry): Entry { Entry(e.f, e.j, e.i, e.q, e.p) }

  // The entry of the lower triangle that an entry is read from.
  function Key(e: Entry): Entry { if e.j <= e.i then e else Swap(e) }

  lemma PackDistinct(a: nat, b: nat, c: nat, d: nat, n: nat)
    requires b < n && d < n
    ensures Pack(a, n, b) == Pack(c, n, d) <==> a == c && b == d
  {
    if Pack(a, n, b) == Pack(c, n, d) {
      DigitsUnique(a, b, c, d, n);
    }
  }

  lemma PackInRange(a: nat, m: nat, b: nat, n: nat)
    requires a < m && b < n
    ensures Pack(a, n, b) < m * n
  {
    PackBound(a, m, b, n);
  }

  /** Entries of the full matrix have distinct indices in range. */
  lemma FullIndexDistinct(s: Shape, e: Entry, e': Entry)
    requires InFull(s, e) && InFull(s, e')
    ensures FullIndex(s, e) < FullSize(s)
    ensures FullIndex(s, e) == FullIndex(s, e') <==> e == e'
  {
    hide Pack;
    PackInRange(e.f, s.nf, e.i, s.ns);
    PackInRange(Pack(e.f, s.ns, e.i), s.nf * s.ns, e.j, s.ns);
    PackInRange(Pack(Pack(e.f, s.ns, e.i), s.ns, e.j), s.nf * s.ns * s.ns, e.p, s.np);
    PackInRange(Pack(Pack(Pack(e.f, s.ns, e.i), s.ns, e.j), s.np, e.p), s.nf * s.ns * s.ns * s.np, e.q, s.np);
    PackDistinct(Pack(Pack(Pack(e.f, s.ns, e.i), s.ns, e.j), s.np, e.p), e.q,
                 Pack(Pack(Pack(e'.f, s.ns, e'.i), s.ns, e'.j), s.np, e'.p), e'.q, s.np);
    PackDistinct(Pack(Pack(e.f, s.ns, e.i), s.ns, e.j), e.p, Pack(Pack(e'.f, s.ns, e'.i), s.ns, e'.j), e'.p, s.np);
    PackDistinct(Pack(e.f, s.ns, e.i), e.j, Pack(e'.f, s.ns, e'.i), e'.j, s.ns);
    PackDistinct(e.f, e.i, e'.f, e'.i, s.ns);
  }

  /** Entries of the lower triangle have distinct indices in range. */
  lemma TriIndexDistinct(s: Shape, e: Entry, e': Entry)
    requires InTriangle(s, e) && InTriangle(s, e')
    ensures TriIndex(s, e) < TriSize(s)
    ensures TriIndex(s, e) == TriIndex(s, e') <==> e == e'
  {
    hide Pack;
    var b, b' := Tri(e.i) + e.j, Tri(e'.i) + e'.j;
    PairsDistinct(s.ns, e.i, e.j, e'.i, e'.j);
    PairsDistinct(s.ns, e'.i, e'.j, e.i, e.j);
    PackInRange(e.f, s.nf, b, Tri(s.ns));
    PackInRange(Pack(e.f, Tri(s.ns), b), s.nf * Tri(s.ns), e.p, s.np);
    PackInRange(Pack(Pack(e.f, Tri(s.ns), b), s.np, e.p), s.nf * Tri(s.ns) * s.np, e.q, s.np);
    PackDistinct(Pack(Pack(e.f, Tri(s.ns), b), s.np, e.p), e.q,
                 Pack(Pack(e'.f, Tri(s.ns), b'), s.np, e'.p), e'.q, s.np);
    PackDistinct(Pack(e.f, Tri(s.ns), b), e.p, Pack(e'.f, Tri(s.ns), b'), e'.p, s.np);
    PackDistinct(e.f, b, e'.f, b', Tri(s.ns));
  }

  lemma Unpack(x: nat, m: nat, n: nat) returns (a: nat, b: nat)
    requires x < m * n
    ensures a < m && b < n && Pack(a, n, b) == x
  {
    assert n > 0;
    a, b := x / n, x % n;
    Quotient(x, n);
    UnpackBound(x, m, n);
  }

  /** Every index of the triangular array belongs to an entry of the lower triangle. */
  lemma EveryTriIndexUsed(s: Shape, x: nat) returns (e: Entry)
    requires x < TriSize(s)
    ensures InTriangle(s, e) && TriIndex(s, e) == x
  {
    hide Pack;
    var a, q := Unpack(x, s.nf * Tri(s.ns) * s.np, s.np);
    var c, p := Unpack(a, s.nf * Tri(s.ns), s.np);
    var f, b := Unpack(c, s.nf, Tri(s.ns));
    var i, j := EveryNumberIsAPair(s.ns, b);
    e := Entry(f, i, j, p, q);
  }

  // The code's index of an entry's station pair: f*(N+1)*(N/2) + i*(i+1)/2 + j over halves.
  function PairNumber(n: nat, f: nat, i: nat, j: nat): nat
  {
    (f * ((n + 1) * n) + i * (i + 1)) / 2 + j
  }

  lemma PairNumberIsPack(n: nat, f: nat, i: nat, j: nat)
    ensures PairNumber(n, f, i, j) == Pack(f, Tri(n), Tri(i) + j)
  {
    TriClosed(n);
    TriClosed(i);
    Twice(f, Tri(n), (n + 1) * n);
  }

  lemma Twice(f: nat, a: nat, b: nat)
    requires b == 2 * a
    ensures f * b == 2 * (f * a)
  {
  }

  // Entry e of the full matrix while the lower triangle has been copied below index `cur`.
  function Value(s: Shape, tri: seq<Complex>, e: Entry, cur: nat): Complex
  {
    var n := TriIndex(s, Key(e));
    if e.i == e.j || n >= cur || n >= |tri| then ZERO else tri[n]
  }

  ghost predicate Copied(s: Shape, tri: seq<Complex>, full: seq<Complex>, cur: nat)
  {
    && |full| == FullSize(s)
    && forall e :: InFull(s, e) ==> FullIndex(s, e) < |full| && full[FullIndex(s, e)] == Value(s, tri, e, cur)
  }

  // The two writes for one entry of the lower triangle.
  lemma CopyPair(s: Shape, tri: seq<Complex>, full: seq<Complex>, e: Entry)
    requires InTriangle(s, e) && e.j < e.i && TriIndex(s, e) < |tri|
    requires Copied(s, tri, full, TriIndex(s, e))
    ensures FullIndex(s, e) < |full| && FullIndex(s, Swap(e)) < |full|
    ensures Copied(s, tri, full[FullIndex(s, e) := tri[TriIndex(s, e)]][FullIndex(s, Swap(e)) := tri[TriIndex(s, e)]],
                   TriIndex(s, e) + 1)
  {
    hide FullIndex, TriIndex, FullSize, TriSize;
    TriIndexDistinct(s, e, e);
    FullIndexDistinct(s, e, Swap(e));
    FullIndexDistinct(s, Swap(e), e);
    var v := tri[TriIndex(s, e)];
    var full' := full[FullIndex(s, e) := v][FullIndex(s, Swap(e)) := v];
    forall c | InFull(s, c)
      ensures FullIndex(s, c) < |full'| && full'[FullIndex(s, c)] == Value(s, tri, c, TriIndex(s, e) + 1)
    {
      FullIndexDistinct(s, c, e);
      FullIndexDistinct(s, c, Swap(e));
      TriIndexDistinct(s, Key(c), e);
    }
  }

  // Where the copying stands before entry (f, i, j, p, q), as a plain number.
  function Progress(s: Shape, f: nat, i: nat, j: nat, p: nat, q: nat): nat
  {
    TriIndex(s, Entry(f, i, j, p, q))
  }

  lemma Carry(s: Shape, f: nat, i: nat, j: nat, p: nat)
    ensures Progress(s, f, i, j, p, s.np) == Progress(s, f, i, j, p + 1, 0)
    ensures Progress(s, f, i, j, s.np, 0) == Progress(s, f, i, j + 1, 0, 0)
    ensures Progress(s, f, s.ns, 0, 0, 0) == Progress(s, f + 1, 0, 0, 0, 0)
    ensures Progress(s, f, i, i + 1, 0, 0) == Progress(s, f, i + 1, 0, 0, 0)
    ensures Progress(s, 0, 0, 0, 0, 0) == 0
  {
    PackCarry(Pack(Pack(f, Tri(s.ns), Tri(i) + j), s.np, p), s.np);
    PackCarry(Pack(f, Tri(s.ns), Tri(i) + j), s.np);
    PackCarry(f, Tri(s.ns));
    PackNext(Pack(Pack(f, Tri(s.ns), Tri(i) + j), s.np, p), Pack(f, Tri(s.ns), Tri(i) + j), s.np, p);
  }

  lemma PackCarry(a: nat, n: nat)
    ensures Pack(a, n, n) == Pack(a + 1, n, 0)
  {
    assert (a + 1) * n == a * n + n;
  }

  lemma PackNext(c: nat, a: nat, n: nat, b: nat)
    ensures Pack(a, n, b) + 1 == Pack(a, n, b + 1)
  {
  }

  // The diagonal is not copied, so skipping it changes nothing.
  lemma SkipDiagonal(s: Shape, tri: seq<Complex>, full: seq<Complex>, f: nat, i: nat)
    requires f < s.nf && i < s.ns && Copied(s, tri, full, Progress(s, f, i, i, 0, 0))
    ensures Copied(s, tri, full, Progress(s, f, i + 1, 0, 0, 0))
  {
    forall e | InFull(s, e)
      ensures Value(s, tri, e, Progress(s, f, i + 1, 0, 0, 0)) == Value(s, tri, e, Progress(s, f, i, i, 0, 0))
    {
      if e.i != e.j {
        NotOnDiagonal(s, Key(e), f, i);
      }
    }
  }

  lemma NotOnDiagonal(s: Shape, k: Entry, f: nat, i: nat)
    requires InTriangle(s, k) && k.j < k.i && f < s.nf && i < s.ns
    ensures TriIndex(s, k) < Progress(s, f, i, i, 0, 0) <==> TriIndex(s, k) < Progress(s, f, i + 1, 0, 0, 0)
  {
    var b := Tri(k.i) + k.j;
    PairsDistinct(s.ns, k.i, k.j, i, i);
    PairsDistinct(s.ns, i, i, k.i, k.j);
    PackDistinct(k.f, b, f, Tri(i) + i, Tri(s.ns));
    var x, y := Pack(k.f, Tri(s.ns), b), Pack(f, Tri(s.ns), Tri(i) + i);
    assert x != y;
    PackBound(k.p, s.np, k.q, s.np);
    BlockOrder(x, y, s.np, k.p, k.q);
    Carry(s, f, i, i, 0);
  }

  // Blocks of n * n numbers keep the order of their block numbers.
  lemma BlockOrder(x: nat, y: nat, n: nat, p: nat, q: nat)
    requires x != y && p < n && q < n
    ensures Pack(Pack(x, n, p), n, q) < Pack(Pack(y, n, 0), n, 0) <==> x < y
    ensures Pack(Pack(x, n, p), n, q) < Pack(Pack(y + 1, n, 0), n, 0) <==> x < y
  {
    PackOrder(x, y, n, p);
    PackOrder(x, y + 1, n, p);
    PackOrder(Pack(x, n, p), Pack(y, n, 0), n, q);
    PackOrder(Pack(x, n, p), Pack(y + 1, n, 0), n, q);
  }

  lemma PackOrder(a: nat, c: nat, n: nat, b: nat)
    requires b < n
    ensures Pack(a, n, b) < Pack(c, n, 0) <==> a < c
  {
    if a < c {
      MulMono(a + 1, c, n);
      assert (a + 1) * n == a * n + n;
    } else {
      MulMono(c, a, n);
    }
  }

  // Every entry below the diagonal is in an array of n values: the diagonal is never read.
  ghost predicate ReadsFit(s: Shape, n: nat)
  {
    forall e :: InTriangle(s, e) && e.j < e.i ==> TriIndex(s, e) < n
  }

  /** That is an array that lacks no more than its last diagonal square. */
  lemma ReadsFitIff(s: Shape, n: nat)
    requires s.nf > 0 && s.ns > 1 && s.np > 0
    ensures ReadsFit(s, n) <==> n >= TriSize(s) - s.np * s.np
  {
    var last := Entry(s.nf - 1, s.ns - 1, s.ns - 2, s.np - 1, s.np - 1);
    SizeLessSquare(s);
    var pairs := s.nf * Tri(s.ns) - 1;
    if ReadsFit(s, n) {
      assert InTriangle(s, last);
      assert Pack(s.nf - 1, Tri(s.ns), Tri(s.ns - 1) + (s.ns - 2)) == pairs - 1;
      LastOfSquare(pairs - 1, s.np);
    }
    if n >= TriSize(s) - s.np * s.np {
      forall e | InTriangle(s, e) && e.j < e.i
        ensures TriIndex(s, e) < n
      {
        var b := Tri(e.i) + e.j;
        PairsDistinct(s.ns, e.i, e.j, s.ns - 1, s.ns - 1);
        PackInRange(e.f, s.nf, b, Tri(s.ns));
        PackDistinct(e.f, b, s.nf - 1, Tri(s.ns - 1) + (s.ns - 1), Tri(s.ns));
        PackInRange(Pack(e.f, Tri(s.ns), b), pairs, e.p, s.np);
        PackInRange(Pack(Pack(e.f, Tri(s.ns), b), s.np, e.p), pairs * s.np, e.q, s.np);
      }
    }
  }

  lemma SizeLessSquare(s: Shape)
    requires s.nf > 0 && s.ns > 1
    ensures s.nf * Tri(s.ns) >= 1 && Tri(s.ns) == Tri(s.ns - 1) + s.ns
    ensures s.nf * Tri(s.ns) == (s.nf - 1) * Tri(s.ns) + Tri(s.ns)
    ensures TriSize(s) - s.np * s.np == (s.nf * Tri(s.ns) - 1) * s.np * s.np
  {
    MulMono(1, s.nf, Tri(s.ns));
    var m, p := s.nf * Tri(s.ns), s.np;
    assert m * p == (m - 1) * p + p;
    assert ((m - 1) * p + p) * p == (m - 1) * p * p + p * p;
  }

  // The last value of square x is just before square x + 1.
  lemma LastOfSquare(x: nat, n: nat)
    requires n > 0
    ensures Pack(Pack(x, n, n - 1), n, n - 1) + 1 == (x + 1) * n * n
  {
    assert (x + 1) * n == x * n + n;
    assert (x + 1) * n * n == (x * n + n - 1) * n + n;
  }

  /** xgpuExtractMatrix: every entry off the diagonal, above or below, is the triangular array's
      entry for its two stations; the diagonal stays zero. */
  method ExtractMatrix(tri: seq<Complex>, s: Shape) returns (full: array<Complex>)
    requires ReadsFit(s, |tri|)
    ensures Copied(s, tri, full[..], TriSize(s))
  {
    full := new Complex[FullSize(s)](_ => ZERO);
    StartCopied(s, tri, full[..]);
    for f := 0 to s.nf
      invariant Copied(s, tri, full[..], Progress(s, f, 0, 0, 0, 0))
    {
      for i := 0 to s.ns
        invariant Copied(s, tri, full[..], Progress(s, f, i, 0, 0, 0))
      {
        for j := 0 to i
          invariant Copied(s, tri, full[..], Progress(s, f, i, j, 0, 0))
        {
          CopyPolarizations(tri, s, full, f, i, j);
          Carry(s, f, i, j, 0);
        }
        SkipDiagonal(s, tri, full[..], f, i);
      }
      Carry(s, f, 0, 0, 0);
    }
    EndOfTriangle(s);
  }

  // The two polarization loops for one pair of stations.
  method CopyPolarizations(tri: seq<Complex>, s: Shape, full: array<Complex>, f: nat, i: nat, j: nat)
    requires ReadsFit(s, |tri|) && f < s.nf && j < i < s.ns
    requires Copied(s, tri, full[..], Progress(s, f, i, j, 0, 0))
    modifies full
    ensures Copied(s, tri, full[..], Progress(s, f, i, j, s.np, 0))
  {
    hide Copied, Progress, TriIndex, FullIndex;
    for pol1 := 0 to s.np
      invariant Copied(s, tri, full[..], Progress(s, f, i, j, pol1, 0))
    {
      for pol2 := 0 to s.np
        invariant Copied(s, tri, full[..], Progress(s, f, i, j, pol1, pol2))
      {
        NextProgress(s, f, i, j, pol1, pol2);
        CopyOne(tri, s, full, Entry(f, i, j, pol1, pol2));
      }
      Carry(s, f, i, j, pol1);
    }
  }

  lemma NextProgress(s: Shape, f: nat, i: nat, j: nat, p: nat, q: nat)
    ensures TriIndex(s, Entry(f, i, j, p, q)) == Progress(s, f, i, j, p, q)
    ensures Progress(s, f, i, j, p, q) + 1 == Progress(s, f, i, j, p, q + 1)
  {
  }

  method CopyOne(tri: seq<Complex>, s: Shape, full: array<Complex>, e: Entry)
    requires ReadsFit(s, |tri|) && InTriangle(s, e) && e.j < e.i
    requires Copied(s, tri, full[..], TriIndex(s, e))
    modifies full
    ensures Copied(s, tri, full[..], TriIndex(s, e) + 1)
  {
    CopyPair(s, tri, full[..], e);
    hide Copied, TriIndex, FullIndex, Pack;
    var k := PairNumber(s.ns, e.f, e.i, e.j);
    PairNumberIsPack(s.ns, e.f, e.i, e.j);
    var index := (k * s.np + e.p) * s.np + e.q;
    CodeIndices(s, e, k);
    ghost var was := full[..];
    full[(((e.f * s.ns + e.i) * s.ns + e.j) * s.np + e.p) * s.np + e.q] := tri[index];
    full[(((e.f * s.ns + e.j) * s.ns + e.i) * s.np + e.q) * s.np + e.p] := tri[index];
    assert full[..] == was[FullIndex(s, e) := tri[index]][FullIndex(s, Swap(e)) := tri[index]];
  }

  /** The indices as the code writes them: [f][i][j][p][q] and its mirror [f][j][i][q][p] in the full matrix,
      [f][pair][p][q] in the triangular array. */
  lemma CodeIndices(s: Shape, e: Entry, k: nat)
    requires k == Pack(e.f, Tri(s.ns), Tri(e.i) + e.j)
    ensures (k * s.np + e.p) * s.np + e.q == TriIndex(s, e)
    ensures (((e.f * s.ns + e.i) * s.ns + e.j) * s.np + e.p) * s.np + e.q == FullIndex(s, e)
    ensures (((e.f * s.ns + e.j) * s.ns + e.i) * s.np + e.q) * s.np + e.p == FullIndex(s, Swap(e))
  {
  }

  lemma StartCopied(s: Shape, tri: seq<Complex>, full: seq<Complex>)
    requires |full| == FullSize(s) && forall x :: 0 <= x < |full| ==> full[x] == ZERO
    ensures Copied(s, tri, full, Progress(s, 0, 0, 0, 0, 0))
  {
    forall e | InFull(s, e)
      ensures FullIndex(s, e) < |full|
    {
      FullIndexDistinct(s, e, e);
    }
    Carry(s, 0, 0, 0, 0);
  }

  lemma EndOfTriangle(s: Shape)
    ensures Progress(s, s.nf, 0, 0, 0, 0) == TriSize(s)
  {
  }

  /** What the copied matrix contains, and its symmetry: swapping stations and polarizations gives
      the same value for every entry. */
  lemma ExtractedValues(s: Shape, tri: seq<Complex>, full: seq<Complex>, e: Entry)
    requires ReadsFit(s, |tri|) && Copied(s, tri, full, TriSize(s)) && InFull(s, e)
    ensures FullIndex(s, e) < |full| && FullIndex(s, Swap(e)) < |full|
    ensures e.i == e.j ==> full[FullIndex(s, e)] == ZERO
    ensures e.j < e.i ==> TriIndex(s, e) < |tri| && full[FullIndex(s, e)] == tri[TriIndex(s, e)]
    ensures e.i < e.j ==> TriIndex(s, Swap(e)) < |tri| && full[FullIndex(s, e)] == tri[TriIndex(s, Swap(e))]
    ensures full[FullIndex(s, e)] == full[FullIndex(s, Swap(e))]
  {
    hide FullIndex, TriIndex, TriSize;
    TriIndexDistinct(s, Key(e), Key(e));
    assert InFull(s, Swap(e));
  }
}
