/** The k-mer index (src/KmerIndex.cpp): a map from every length-k substring
    of the genomes indexed so far to the list of its start positions. */
module Kmers {

  /** Number of start positions `indexGenome` visits: 0 .. |g| - k. */
  function Windows(g: string, k: nat): nat {
    if |g| >= k then |g| - k + 1 else 0
  }

  /** The position list stored under `s`, or the empty list. */
  function Get(m: map<string, seq<int>>, s: string): seq<int> {
    if s in m then m[s] else []
  }

  /** The map after the first `n` iterations of the `indexGenome` loop on `g`,
      starting from `m`: iteration `i` appends `i` under `g[i..i+k]`. */
  function Indexed(m: map<string, seq<int>>, g: string, k: nat, n: nat): map<string, seq<int>>
    requires n <= Windows(g, k)
  {
    if n == 0 then m
    else
      var prev := Indexed(m, g, k, n - 1);
      var kmer := g[n - 1..n - 1 + k];
      prev[kmer := Get(prev, kmer) + [n - 1]]
  }

  /** The map after `indexGenome(g)`. */
  function AddGenome(m: map<string, seq<int>>, g: string, k: nat): map<string, seq<int>> {
    Indexed(m, g, k, Windows(g, k))
  }

  /** The map after indexing each genome of `gs` in turn, from empty. */
  function IndexOf(k: nat, gs: seq<string>): map<string, seq<int>> {
    if gs == [] then map[]
    else AddGenome(IndexOf(k, gs[..|gs| - 1]), gs[|gs| - 1], k)
  }

  /** `s` occurs in `g` at position `p`. */
  ghost predicate OccursAt(g: string, k: nat, s: string, p: int) {
    0 <= p && p + k <= |g| && g[p..p + k] == s
  }

  /** Reference definition: the positions below `n` at which `s` occurs in
      `g`, in ascending order. */
  function Occ(g: string, k: nat, s: string, n: nat): (ps: seq<int>)
    requires n <= Windows(g, k)
    ensures forall j :: 0 <= j < |ps| ==> 0 <= ps[j] < n && OccursAt(g, k, s, ps[j])
    ensures forall i, j :: 0 <= i < j < |ps| ==> ps[i] < ps[j]
  {
    if n == 0 then []
    else Occ(g, k, s, n - 1) + (if g[n - 1..n - 1 + k] == s then [n - 1] else [])
  }

  /** Occ is complete: every occurrence below `n` is listed. */
  lemma {:induction false} OccComplete(g: string, k: nat, s: string, n: nat, p: int)
    requires n <= Windows(g, k)
    requires 0 <= p < n && OccursAt(g, k, s, p)
    ensures p in Occ(g, k, s, n)
  {
    if p < n - 1 {
      OccComplete(g, k, s, n - 1, p);
    }
  }

  /** The loop keeps, under every key, the old list followed by the key's
      occurrences among the positions visited so far; a key is present iff it
      was present before or occurs there. */
  lemma {:induction false} IndexedAt(m: map<string, seq<int>>, g: string, k: nat, n: nat, s: string)
    requires n <= Windows(g, k)
    ensures Get(Indexed(m, g, k, n), s) == Get(m, s) + Occ(g, k, s, n)
    ensures s in Indexed(m, g, k, n) <==> s in m || Occ(g, k, s, n) != []
  {
    if n == 0 {
      assert Get(m, s) + [] == Get(m, s);
    } else {
      IndexedAt(m, g, k, n - 1, s);
      var prev := Indexed(m, g, k, n - 1);
      var kmer := g[n - 1..n - 1 + k];
      if kmer == s {
        assert Get(m, s) + Occ(g, k, s, n) == (Get(m, s) + Occ(g, k, s, n - 1)) + [n - 1];
      } else {
        assert Occ(g, k, s, n) == Occ(g, k, s, n - 1) + [];
        assert Occ(g, k, s, n - 1) + [] == Occ(g, k, s, n - 1);
      }
    }
  }

  /** `indexGenome(g)` keeps every old list as a prefix and appends the
      occurrences of the key in `g`, in ascending order. */
  lemma AddGenomeAt(m: map<string, seq<int>>, g: string, k: nat, s: string)
    ensures Get(AddGenome(m, g, k), s) == Get(m, s) + Occ(g, k, s, Windows(g, k))
    ensures s in AddGenome(m, g, k) <==> s in m || Occ(g, k, s, Windows(g, k)) != []
  {
    IndexedAt(m, g, k, Windows(g, k), s);
  }

  /** Completeness on a fresh index: every start position `i` in
      0 .. |g| - k is stored under `g[i..i+k]`. */
  lemma Completeness(g: string, k: nat, i: int)
    requires 0 <= i && i + k <= |g|
    ensures g[i..i + k] in AddGenome(map[], g, k)
    ensures i in AddGenome(map[], g, k)[g[i..i + k]]
  {
    var s := g[i..i + k];
    AddGenomeAt(map[], g, k, s);
    OccComplete(g, k, s, Windows(g, k), i);
  }

  /** Soundness on a fresh index: every stored position `p` under `s` is an
      occurrence of `s` in `g`, with 0 <= p <= |g| - k; the list is strictly
      ascending (so has no duplicates) and is never empty. */
  lemma Soundness(g: string, k: nat, s: string)
    requires s in AddGenome(map[], g, k)
    ensures AddGenome(map[], g, k)[s] != []
    ensures forall j :: 0 <= j < |AddGenome(map[], g, k)[s]| ==> OccursAt(g, k, s, AddGenome(map[], g, k)[s][j])
    ensures forall i, j :: 0 <= i < j < |AddGenome(map[], g, k)[s]| ==> AddGenome(map[], g, k)[s][i] < AddGenome(map[], g, k)[s][j]
  {
    AddGenomeAt(map[], g, k, s);
    assert Get(map[], s) == [];
    assert [] + Occ(g, k, s, Windows(g, k)) == Occ(g, k, s, Windows(g, k));
  }

  /** Whatever genomes were indexed: every key has length `k`, every list is
      non-empty, and every position `p` under `s` is an occurrence of `s` in
      one of those genomes. */
  lemma {:induction false} IndexOfSound(k: nat, gs: seq<string>, s: string)
    requires s in IndexOf(k, gs)
    ensures |s| == k && IndexOf(k, gs)[s] != []
    ensures forall p :: p in IndexOf(k, gs)[s] ==> exists j :: 0 <= j < |gs| && OccursAt(gs[j], k, s, p)
    decreases |gs|
  {
    var init := gs[..|gs| - 1];
    var g := gs[|gs| - 1];
    var m := IndexOf(k, init);
    AddGenomeAt(m, g, k, s);
    var ps := Occ(g, k, s, Windows(g, k));
    if s in m {
      IndexOfSound(k, init, s);
    } else {
      assert ps != [] && OccursAt(g, k, s, ps[0]);
    }
    forall p | p in IndexOf(k, gs)[s] ensures exists j :: 0 <= j < |gs| && OccursAt(gs[j], k, s, p) {
      if p in Get(m, s) {
        var j :| 0 <= j < |init| && OccursAt(init[j], k, s, p);
        assert gs[j] == init[j];
      } else {
        assert p in ps;
        assert OccursAt(gs[|gs| - 1], k, s, p);
      }
    }
  }

  /** A genome shorter than `k` leaves the index unchanged. */
  lemma ShortGenomeLeavesIndex(m: map<string, seq<int>>, g: string, k: nat)
    requires |g| < k
    ensures AddGenome(m, g, k) == m
  {
  }

  // ---------------------------------------------------------------------
  // Total number of stored positions

  /** The number of positions stored over all keys. */
  ghost function TotalPositions(m: map<string, seq<int>>): nat
    decreases |m|
  {
    if m == map[] then 0
    else
      var s :| s in m;
      |m[s]| + TotalPositions(m - {s})
  }

  lemma {:induction false} TotalPositionsRemove(m: map<string, seq<int>>, s: string)
    requires s in m
    ensures TotalPositions(m) == |m[s]| + TotalPositions(m - {s})
    decreases |m|
  {
    var t :| t in m && TotalPositions(m) == |m[t]| + TotalPositions(m - {t});
    if t != s {
      TotalPositionsRemove(m - {t}, s);
      TotalPositionsRemove(m - {s}, t);
      assert m - {t} - {s} == m - {s} - {t};
    }
  }

  /** Appending one position to one list adds one to the total. */
  lemma TotalPositionsAppend(m: map<string, seq<int>>, s: string, x: int)
    ensures TotalPositions(m[s := Get(m, s) + [x]]) == TotalPositions(m) + 1
  {
    var m' := m[s := Get(m, s) + [x]];
    TotalPositionsRemove(m', s);
    if s in m {
      TotalPositionsRemove(m, s);
      assert m' - {s} == m - {s};
    } else {
      assert m' - {s} == m;
    }
  }

  /** `indexGenome(g)` stores exactly one new position per window of `g`:
      on a fresh index with |g| >= k the total is |g| - k + 1. */
  lemma {:induction false} TotalAfterIndexing(m: map<string, seq<int>>, g: string, k: nat, n: nat)
    requires n <= Windows(g, k)
    ensures TotalPositions(Indexed(m, g, k, n)) == TotalPositions(m) + n
  {
    if n > 0 {
      TotalAfterIndexing(m, g, k, n - 1);
      TotalPositionsAppend(Indexed(m, g, k, n - 1), g[n - 1..n - 1 + k], n - 1);
    }
  }

  /** The total on a fresh index. */
  lemma TotalOnFreshIndex(g: string, k: nat)
    ensures TotalPositions(AddGenome(map[], g, k)) == Windows(g, k)
  {
    TotalAfterIndexing(map[], g, k, Windows(g, k));
  }

  // ---------------------------------------------------------------------
  // The class

  /** `KmerIndex`: the k-mer length and the map; `genomes` records, for the
      proofs, every genome `indexGenome` was given. */
  class KmerIndex {
    const k: nat
    var index: map<string, seq<int>>
    ghost var genomes: seq<string>

    ghost predicate Valid()
      reads this
    {
      k >= 1 && index == IndexOf(k, genomes)
    }

    constructor (k: nat)
      requires k >= 1
      ensures Valid() && this.k == k && index == map[] && genomes == []
    {
      this.k := k;
      index := map[];
      genomes := [];
    }

    /** `indexGenome`: appends every start position of `genome` under its
        k-mer, left to right; nothing already stored is removed. */
    method IndexGenome(genome: string)
      requires Valid()
      modifies this
      ensures Valid() && genomes == old(genomes) + [genome]
      ensures index == AddGenome(old(index), genome, k)
      ensures |genome| < k ==> index == old(index)
    {
      var genomeLength := |genome|;
      var i := 0;
      while i <= genomeLength - k
        invariant 0 <= i <= Windows(genome, k)
        invariant index == Indexed(old(index), genome, k, i)
        invariant genomes == old(genomes)
        decreases genomeLength - k + 1 - i
      {
        var kmer := genome[i..i + k];
        index := index[kmer := Get(index, kmer) + [i]];
        i := i + 1;
      }
      genomes := genomes + [genome];
      assert genomes[..|genomes| - 1] == old(genomes);
    }

    /** `searchKmer`: the stored list, or the empty list when the k-mer was
        never seen; the index is only read. */
    function SearchKmer(kmer: string): (positions: seq<int>)
      reads this
      ensures kmer in index ==> positions == index[kmer]
      ensures kmer !in index ==> positions == []
    {
      if kmer in index then index[kmer] else []
    }
  }
}
