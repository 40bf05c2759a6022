/** The triangular order of antenna pairs: pair (i, j) with j <= i has number i * (i + 1) / 2 + j. */
module Triangle {
  import opened Arithmetic

  function Tri(n: nat): nat
  {
    if n == 0 then 0 else Tri(n - 1) + n
  }

  lemma {:induction false} TriClosed(n: nat)
    ensures 2 * Tri(n) == n * (n + 1)
  {
    if n == 0 {
    } else {
      TriClosed(n - 1);
      assert n * (n + 1) == (n - 1) * n + 2 * n;
    }
  }

  lemma {:induction false} TriMono(m: nat, n: nat)
    requires m <= n
    ensures Tri(m) <= Tri(n)
  {
    if m == n {
    } else {
      TriMono(m, n - 1);
    }
  }

  predicate IsPair(n: nat, i: nat, j: nat) { j <= i < n }

  /** Pairs of n antennas are numbered below n * (n + 1) / 2, and no two alike. */
  lemma PairsDistinct(n: nat, i: nat, j: nat, i': nat, j': nat)
    requires IsPair(n, i, j) && IsPair(n, i', j')
    ensures Tri(i) + j < Tri(n)
    ensures Tri(i) + j == Tri(i') + j' ==> i == i' && j == j'
  {
    hide Tri;
    PairBelow(i, j, n);
    if i < i' {
      PairBelow(i, j, i');
    } else if i' < i {
      PairBelow(i', j', i);
    }
  }

  lemma PairBelow(i: nat, j: nat, m: nat)
    requires j <= i < m
    ensures Tri(i) + j < Tri(m)
  {
    TriMono(i + 1, m);
  }

  /** Every number below n * (n + 1) / 2 belongs to a pair. */
  lemma {:induction false} EveryNumberIsAPair(n: nat, b: nat) returns (i: nat, j: nat)
    requires b < Tri(n)
    ensures IsPair(n, i, j) && Tri(i) + j == b
  {
    if b < Tri(n - 1) {
      i, j := EveryNumberIsAPair(n - 1, b);
    } else {
      i, j := n - 1, b - Tri(n - 1);
    }
  }

  // The row of pair (i, j) in time block t.
  function PairRow(n: nat, t: nat, i: nat, j: nat): nat { t * Tri(n) + (Tri(i) + j) }

  /** The antenna arrays: for every time block, all pairs in triangular order. */
  method AntennaArrays(blocks: nat, n: nat) returns (ant1: seq<nat>, ant2: seq<nat>)
    ensures |ant1| == |ant2| == blocks * Tri(n)
    ensures forall t: nat, i: nat, j: nat {:trigger PairRow(n, t, i, j)} :: t < blocks && IsPair(n, i, j) ==>
              PairRow(n, t, i, j) < |ant1| && ant1[PairRow(n, t, i, j)] == i && ant2[PairRow(n, t, i, j)] == j
  {
    hide Tri, IsPair;
    ant1, ant2 := [], [];
    ghost var all1, all2 := FirstAntennas(n), SecondAntennas(n);
    for t := 0 to blocks
      invariant ant1 == Repeat(all1, t) && ant2 == Repeat(all2, t)
    {
      ghost var before1, before2 := ant1, ant2;
      for a1 := 0 to n
        invariant ant1 == before1 + FirstAntennas(a1) && ant2 == before2 + SecondAntennas(a1)
      {
        ant1, ant2 := PairsOf(n, a1, ant1, ant2);
      }
    }
    PairRowsHold(blocks, n);
  }

  lemma PairRowsHold(blocks: nat, n: nat)
    ensures |Repeat(FirstAntennas(n), blocks)| == |Repeat(SecondAntennas(n), blocks)| == blocks * Tri(n)
    ensures forall t: nat, i: nat, j: nat {:trigger PairRow(n, t, i, j)} :: t < blocks && IsPair(n, i, j) ==>
              PairRow(n, t, i, j) < blocks * Tri(n)
              && Repeat(FirstAntennas(n), blocks)[PairRow(n, t, i, j)] == i
              && Repeat(SecondAntennas(n), blocks)[PairRow(n, t, i, j)] == j
  {
    RepeatLength(FirstAntennas(n), blocks);
    RepeatLength(SecondAntennas(n), blocks);
    forall t: nat, i: nat, j: nat {:trigger PairRow(n, t, i, j)} | t < blocks && IsPair(n, i, j)
      ensures PairRow(n, t, i, j) < blocks * Tri(n)
      ensures Repeat(FirstAntennas(n), blocks)[PairRow(n, t, i, j)] == i
      ensures Repeat(SecondAntennas(n), blocks)[PairRow(n, t, i, j)] == j
    {
      PairAt(n, i, j);
      RepeatAt(FirstAntennas(n), blocks, t, Tri(i) + j);
      RepeatAt(SecondAntennas(n), blocks, t, Tri(i) + j);
    }
  }

  // The inner loop: all second antennas, of which those not above a1 form a pair.
  method PairsOf(n: nat, a1: nat, ant1: seq<nat>, ant2: seq<nat>) returns (ant1': seq<nat>, ant2': seq<nat>)
    requires a1 < n
    ensures ant1' == ant1 + FirstAntennaOf(a1, a1 + 1) && ant2' == ant2 + SecondAntennasOf(a1 + 1)
  {
    ant1', ant2' := ant1, ant2;
    for a2 := 0 to n
      invariant ant1' == ant1 + FirstAntennaOf(a1, if a2 <= a1 then a2 else a1 + 1)
      invariant ant2' == ant2 + SecondAntennasOf(if a2 <= a1 then a2 else a1 + 1)
    {
      if a2 <= a1 {
        ant1' := ant1' + [a1];
        ant2' := ant2' + [a2];
      }
    }
  }

  // Rows of the pairs of antenna a, of all antennas below n, and copies of a row.
  ghost function FirstAntennaOf(a: nat, m: nat): seq<nat> { seq(m, k => a) }

  ghost function SecondAntennasOf(m: nat): seq<nat> { seq(m, k requires 0 <= k => k) }

  ghost function FirstAntennas(n: nat): (s: seq<nat>)
    ensures |s| == Tri(n)
  {
    if n == 0 then [] else FirstAntennas(n - 1) + FirstAntennaOf(n - 1, n)
  }

  ghost function SecondAntennas(n: nat): (s: seq<nat>)
    ensures |s| == Tri(n)
  {
    if n == 0 then [] else SecondAntennas(n - 1) + SecondAntennasOf(n)
  }

  ghost function Repeat(s: seq<nat>, t: nat): seq<nat>
  {
    if t == 0 then [] else Repeat(s, t - 1) + s
  }

  lemma {:induction false} RepeatLength(s: seq<nat>, t: nat)
    ensures |Repeat(s, t)| == t * |s|
  {
    if t == 0 {
    } else {
      RepeatLength(s, t - 1);
      assert t * |s| == (t - 1) * |s| + |s|;
    }
  }

  lemma {:induction false} RepeatAt(s: seq<nat>, blocks: nat, t: nat, k: nat)
    requires t < blocks && k < |s|
    ensures t * |s| + k < |Repeat(s, blocks)| && Repeat(s, blocks)[t * |s| + k] == s[k]
  {
    RepeatLength(s, blocks);
    RepeatLength(s, blocks - 1);
    if t < blocks - 1 {
      RepeatAt(s, blocks - 1, t, k);
    }
  }

  lemma {:induction false} PairAt(n: nat, i: nat, j: nat)
    requires IsPair(n, i, j)
    ensures Tri(i) + j < Tri(n) && FirstAntennas(n)[Tri(i) + j] == i && SecondAntennas(n)[Tri(i) + j] == j
  {
    PairsDistinct(n, i, j, i, j);
    if i < n - 1 {
      PairAt(n - 1, i, j);
      PairsDistinct(n - 1, i, j, i, j);
    }
  }

  // The baseline list: each antenna with itself and all earlier ones.
  function Baselines(names: seq<string>): (s: seq<(string, string)>)
  {
    if |names| == 0 then []
    else
      var j := |names| - 1;
      Baselines(names[..j]) + seq(j + 1, k requires 0 <= k <= j => (names[j], names[k]))
  }

  /** Entry i * (i + 1) / 2 + j of the baseline list names antennas i and j, as the arrays do. */
  lemma {:induction false} BaselineNames(names: seq<string>, i: nat, j: nat)
    requires IsPair(|names|, i, j)
    ensures |Baselines(names)| == Tri(|names|)
    ensures Tri(i) + j < Tri(|names|) && Baselines(names)[Tri(i) + j] == (names[i], names[j])
  {
    BaselineCount(names);
    BaselineCount(names[..|names| - 1]);
    PairsDistinct(|names|, i, j, i, j);
    if i < |names| - 1 {
      BaselineNames(names[..|names| - 1], i, j);
    }
  }

  lemma {:induction false} BaselineCount(names: seq<string>)
    ensures |Baselines(names)| == Tri(|names|)
  {
    if |names| == 0 {
    } else {
      BaselineCount(names[..|names| - 1]);
    }
  }
}
