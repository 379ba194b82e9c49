/** The mapper (src/Mapper.cpp): it indexes a reference, collects reads from
    FASTA and FASTQ files, and maps each read by looking up its first k
    characters in the index. */
module Mapping {
  import opened Utils
  import opened Sequences
  import opened Fasta
  import opened Fastq
  import opened Kmers

  /** `s.substr(0, n)`: the first `n` characters, or all of `s` when it is
      shorter. */
  function Prefix(s: string, n: nat): string {
    if |s| <= n then s else s[..n]
  }

  /** The entry `mapReads` stores for one read: the positions of its first
      k characters, or the sentinel [-1] when there are none. */
  function Entry(read: Sequence, idx: KmerIndex, k: nat): seq<int>
    reads idx
  {
    var positions := idx.SearchKmer(Prefix(read.GetSequence(), k));
    if positions != [] then positions else [-1]
  }

  /** `mappings` after the `mapReads` loop has visited the reads `rs`, in
      order, starting from `m`. */
  function MapAll(m: map<string, seq<int>>, rs: seq<Sequence>, idx: KmerIndex, k: nat): map<string, seq<int>>
    reads idx
    decreases |rs|
  {
    if rs == [] then m
    else
      var last := rs[|rs| - 1];
      MapAll(m, rs[..|rs| - 1], idx, k)[last.GetId() := Entry(last, idx, k)]
  }

  /** The reads one file contributes: chosen by the detected format; a file
      of unknown format contributes none. */
  function FileReads(file: FileInput): seq<Sequence> {
    var format := DetectFileFormat(file);
    if format == FastaFormat then ParseFastaFile(file)
    else if format == FastqFormat then ParseFastqFile(file)
    else []
  }

  /** The body of the `loadReadsFromDirectory` loop up to the append: the
      file's format chooses the reader, and a file of unknown format gives no
      reads. */
  method ReadsOfFile(file: FileInput) returns (validReads: seq<Sequence>)
    ensures validReads == FileReads(file)
  {
    var format := DetectFileFormat(file);
    validReads := [];
    if format == FastaFormat {
      var fastaReader := new ReadFasta(file);
      fastaReader.Load();
      validReads := fastaReader.GetSequences();
    } else if format == FastqFormat {
      var fastqReader := new ReadFastq(file);
      fastqReader.Load();
      validReads := fastqReader.GetReads();
    }
    // otherwise: unknown format, the file is ignored
  }

  /** The read lists of a directory listing, one per file in listing order. */
  function PerFile(files: seq<FileInput>): seq<seq<Sequence>> {
    seq(|files|, i requires 0 <= i < |files| => FileReads(files[i]))
  }

  /** Read lists joined in order. */
  function Flatten(readLists: seq<seq<Sequence>>): seq<Sequence>
    decreases |readLists|
  {
    if readLists == [] then []
    else Flatten(readLists[..|readLists| - 1]) + readLists[|readLists| - 1]
  }

  /** The reads a directory listing contributes, file after file. */
  function DirectoryReads(files: seq<FileInput>): seq<Sequence> {
    Flatten(PerFile(files))
  }

  /** The genome grows by one record's sequence at a time. */
  lemma {:induction false} ConcatenationAppend(rs: seq<Sequence>, r: Sequence)
    ensures Concatenation(rs + [r]) == Concatenation(rs) + r.sequence
    decreases |rs|
  {
    if rs == [] {
      assert [] + [r] == [r];
      assert Concatenation([r]) == r.sequence + Concatenation([]);
    } else {
      assert (rs + [r])[1..] == rs[1..] + [r];
      ConcatenationAppend(rs[1..], r);
    }
  }

  /** The ids of a list of reads. */
  function ReadIds(rs: seq<Sequence>): set<string> {
    set j | 0 <= j < |rs| :: rs[j].id
  }

  /** `Mapper`: the k-mer length, the genome index, the loaded reads and the
      mapping from read id to positions. */
  class Mapper {
    const k: nat
    const genomeIndex: KmerIndex
    var readList: seq<Sequence>
    var mappings: map<string, seq<int>>

    ghost predicate Valid()
      reads this, genomeIndex
    {
      genomeIndex.Valid() && genomeIndex.k == k
    }

    constructor (k: nat)
      requires k >= 1
      ensures Valid() && fresh(genomeIndex) && this.k == k
      ensures genomeIndex.index == map[] && genomeIndex.genomes == []
      ensures readList == [] && mappings == map[]
    {
      this.k := k;
      genomeIndex := new KmerIndex(k);
      readList := [];
      mappings := map[];
    }

    /** `loadReference`: indexes the concatenation of all the FASTA file's
        sequences, in file order; the reads and mappings are untouched. */
    method LoadReference(file: FileInput)
      requires Valid()
      modifies genomeIndex
      ensures Valid()
      ensures genomeIndex.genomes == old(genomeIndex.genomes) + [Concatenation(ParseFastaFile(file))]
      ensures genomeIndex.index == AddGenome(old(genomeIndex.index), Concatenation(ParseFastaFile(file)), k)
    {
      var fastaReader := new ReadFasta(file);
      fastaReader.Load();
      var sequences := fastaReader.GetSequences();
      var genome := "";
      var i := 0;
      while i < |sequences|
        invariant 0 <= i <= |sequences|
        invariant genome == Concatenation(sequences[..i])
        invariant unchanged(genomeIndex)
      {
        assert sequences[..i + 1] == sequences[..i] + [sequences[i]];
        ConcatenationAppend(sequences[..i], sequences[i]);
        genome := genome + sequences[i].GetSequence();
        i := i + 1;
      }
      assert sequences[..i] == sequences;
      genomeIndex.IndexGenome(genome);
    }

    /** `loadReadsFromDirectory`, given the directory's files as listed:
        only appends, file after file, the reads each file contributes. */
    method LoadReadsFromDirectory(files: seq<FileInput>)
      modifies this
      ensures readList == old(readList) + DirectoryReads(files)
      ensures mappings == old(mappings)
    {
      var i := 0;
      while i < |files|
        invariant 0 <= i <= |files|
        invariant readList == old(readList) + DirectoryReads(files[..i])
        invariant mappings == old(mappings)
      {
        var file := files[i];
        DirectoryReadsStep(files, i);
        var validReads := ReadsOfFile(file);
        if validReads != [] {
          readList := readList + validReads;
        }
        // otherwise: no valid reads, the file is ignored
        i := i + 1;
      }
      assert files[..|files|] == files;
    }

    /** `mapReads`: for each read in order, stores its entry under its id,
        overwriting what was there; the reads and the index are only read. */
    method MapReads()
      requires Valid()
      modifies this
      ensures Valid() && readList == old(readList)
      ensures mappings == MapAll(old(mappings), readList, genomeIndex, k)
    {
      var i := 0;
      while i < |readList|
        invariant 0 <= i <= |readList|
        invariant readList == old(readList)
        invariant mappings == MapAll(old(mappings), readList[..i], genomeIndex, k)
      {
        var read := readList[i];
        assert readList[..i + 1][..i] == readList[..i];
        var positions := genomeIndex.SearchKmer(Prefix(read.GetSequence(), k));
        if positions != [] {
          mappings := mappings[read.GetId() := positions];
        } else {
          mappings := mappings[read.GetId() := [-1]];
        }
        i := i + 1;
      }
      assert readList[..|readList|] == readList;
    }
  }

  // ---------------------------------------------------------------------
  // One read's entry

  /** An entry is never empty: it is the lookup of the read's first
      min(k, |sequence|) characters when that is non-empty, and exactly [-1]
      otherwise. The sentinel cannot be confused with a lookup, since stored
      positions are never negative. */
  lemma EntryIsLookupOrSentinel(read: Sequence, idx: KmerIndex, k: nat)
    requires idx.Valid() && idx.k == k
    ensures Entry(read, idx, k) != []
    ensures idx.SearchKmer(Prefix(read.sequence, k)) != [] ==> Entry(read, idx, k) == idx.SearchKmer(Prefix(read.sequence, k))
    ensures idx.SearchKmer(Prefix(read.sequence, k)) == [] <==> Entry(read, idx, k) == [-1]
  {
    var key := Prefix(read.sequence, k);
    if key in idx.index {
      IndexOfSound(k, idx.genomes, key);
      var ps := idx.index[key];
      assert ps[0] in ps;
      assert ps != [-1];
    }
  }

  /** A read shorter than `k` always maps to [-1]: its prefix is shorter
      than every key of the index. */
  lemma ShortReadUnmapped(read: Sequence, idx: KmerIndex, k: nat)
    requires idx.Valid() && idx.k == k
    requires |read.sequence| < k
    ensures Entry(read, idx, k) == [-1]
  {
    var key := Prefix(read.sequence, k);
    if key in idx.index {
      IndexOfSound(k, idx.genomes, key);
    }
  }

  /** Every position in an entry other than the sentinel is an offset at
      which the read's first k characters occur in an indexed genome; the
      read is then at least k long. */
  lemma EntrySound(read: Sequence, idx: KmerIndex, k: nat, p: int)
    requires idx.Valid() && idx.k == k
    requires p in Entry(read, idx, k) && p != -1
    ensures |read.sequence| >= k
    ensures exists j :: 0 <= j < |idx.genomes| && OccursAt(idx.genomes[j], k, read.sequence[..k], p)
  {
    var key := Prefix(read.sequence, k);
    assert key in idx.index;
    IndexOfSound(k, idx.genomes, key);
  }

  // ---------------------------------------------------------------------
  // The whole mapping

  /** After mapping, the ids present are the old ones and those of the
      reads: every read has an entry. */
  lemma {:induction false} MapAllKeys(m: map<string, seq<int>>, rs: seq<Sequence>, idx: KmerIndex, k: nat)
    ensures MapAll(m, rs, idx, k).Keys == m.Keys + ReadIds(rs)
    decreases |rs|
  {
    if rs != [] {
      var init := rs[..|rs| - 1];
      MapAllKeys(m, init, idx, k);
      assert ReadIds(rs) == ReadIds(init) + {rs[|rs| - 1].id} by {
        forall x | x in ReadIds(rs) ensures x in ReadIds(init) + {rs[|rs| - 1].id} {
          var j :| 0 <= j < |rs| && rs[j].id == x;
          if j < |rs| - 1 { assert init[j] == rs[j]; }
        }
        forall x | x in ReadIds(init) ensures x in ReadIds(rs) {
          var j :| 0 <= j < |init| && init[j].id == x;
          assert rs[j] == init[j];
        }
      }
    }
  }

  /** With duplicate ids the last read in order decides the entry. */
  lemma {:induction false} LastReadWins(m: map<string, seq<int>>, rs: seq<Sequence>, idx: KmerIndex, k: nat, j: nat)
    requires j < |rs|
    requires forall i :: j < i < |rs| ==> rs[i].id != rs[j].id
    ensures rs[j].id in MapAll(m, rs, idx, k)
    ensures MapAll(m, rs, idx, k)[rs[j].id] == Entry(rs[j], idx, k)
    decreases |rs|
  {
    if j < |rs| - 1 {
      var init := rs[..|rs| - 1];
      assert init[j] == rs[j];
      LastReadWins(m, init, idx, k, j);
    }
  }

  /** Entries for ids of no read are left as they were. */
  lemma {:induction false} OtherIdsUntouched(m: map<string, seq<int>>, rs: seq<Sequence>, idx: KmerIndex, k: nat, id: string)
    requires id !in ReadIds(rs)
    ensures id in MapAll(m, rs, idx, k) <==> id in m
    ensures id in m ==> MapAll(m, rs, idx, k)[id] == m[id]
    decreases |rs|
  {
    if rs != [] {
      var init := rs[..|rs| - 1];
      assert id != rs[|rs| - 1].id;
      assert id !in ReadIds(init) by {
        forall j | 0 <= j < |init| ensures init[j].id != id {
          assert init[j] == rs[j];
        }
      }
      OtherIdsUntouched(m, init, idx, k, id);
    }
  }

  /** End to end: after mapping, every read's id holds a non-empty list
      whose positions other than the sentinel are occurrences, in an indexed
      genome, of the first k characters of the last read with that id. */
  lemma MappedPositionsSound(m: map<string, seq<int>>, rs: seq<Sequence>, idx: KmerIndex, k: nat, j: nat, p: int)
    requires idx.Valid() && idx.k == k
    requires j < |rs| && forall i :: j < i < |rs| ==> rs[i].id != rs[j].id
    requires p in Get(MapAll(m, rs, idx, k), rs[j].id) && p != -1
    ensures |rs[j].sequence| >= k
    ensures exists g :: 0 <= g < |idx.genomes| && OccursAt(idx.genomes[g], k, rs[j].sequence[..k], p)
  {
    LastReadWins(m, rs, idx, k, j);
    EntrySound(rs[j], idx, k, p);
  }

  // ---------------------------------------------------------------------
  // Loading reads

  lemma {:induction false} FlattenAppend(x: seq<seq<Sequence>>, y: seq<seq<Sequence>>)
    ensures Flatten(x + y) == Flatten(x) + Flatten(y)
    decreases |y|
  {
    if y == [] {
      assert x + y == x;
    } else {
      var init := y[..|y| - 1];
      FlattenAppend(x, init);
      assert (x + y)[..|x + y| - 1] == x + init;
      assert (x + y)[|x + y| - 1] == y[|y| - 1];
    }
  }

  lemma PerFileAppend(a: seq<FileInput>, b: seq<FileInput>)
    ensures PerFile(a + b) == PerFile(a) + PerFile(b)
  {
    assert forall i :: 0 <= i < |a + b| ==> (a + b)[i] == if i < |a| then a[i] else b[i - |a|];
  }

  /** The directory's reads are those of its first files followed by those
      of the rest. */
  lemma DirectoryReadsAppend(a: seq<FileInput>, b: seq<FileInput>)
    ensures DirectoryReads(a + b) == DirectoryReads(a) + DirectoryReads(b)
  {
    PerFileAppend(a, b);
    FlattenAppend(PerFile(a), PerFile(b));
  }

  /** A file with no valid reads adds nothing wherever it stands in the
      listing. */
  lemma FileWithoutReadsAddsNothing(a: seq<FileInput>, f: FileInput, b: seq<FileInput>)
    requires FileReads(f) == []
    ensures DirectoryReads(a + [f] + b) == DirectoryReads(a) + DirectoryReads(b)
  {
    SingleFileReads(f);
    DirectoryReadsAppend(a + [f], b);
    DirectoryReadsAppend(a, [f]);
    assert DirectoryReads(a) + [] == DirectoryReads(a);
  }

  /** In particular a file of unknown format (or one that cannot be
      opened) is skipped. */
  lemma UnknownFileAddsNothing(a: seq<FileInput>, f: FileInput, b: seq<FileInput>)
    requires DetectFileFormat(f) == UnknownFormat
    ensures DirectoryReads(a + [f] + b) == DirectoryReads(a) + DirectoryReads(b)
  {
    assert FileReads(f) == [];
    FileWithoutReadsAddsNothing(a, f, b);
  }

  lemma SingleFileReads(f: FileInput)
    ensures DirectoryReads([f]) == FileReads(f)
  {
    assert PerFile([f]) == [FileReads(f)];
    assert [FileReads(f)][..0] == [];
    assert Flatten([FileReads(f)]) == [] + FileReads(f);
  }

  /** One more file of the listing adds its own reads after the others'. */
  lemma DirectoryReadsStep(files: seq<FileInput>, i: nat)
    requires i < |files|
    ensures DirectoryReads(files[..i + 1]) == DirectoryReads(files[..i]) + FileReads(files[i])
  {
    assert files[..i + 1] == files[..i] + [files[i]];
    DirectoryReadsAppend(files[..i], [files[i]]);
    SingleFileReads(files[i]);
  }

  /** What every loaded read satisfies: it is a FASTA record (non-empty id,
      no quality) or a well-formed FASTQ read (non-empty sequence and a
      quality of the same length). */
  ghost predicate LoadedRead(r: Sequence) {
    (r.id != "" && !r.HasQuality()) || WellFormedRead(r)
  }

  lemma FileReadsConsistent(f: FileInput)
    ensures forall j :: 0 <= j < |FileReads(f)| ==> LoadedRead(FileReads(f)[j])
  {
    var format := DetectFileFormat(f);
    if format == FastaFormat {
      FastaRecordsNamed("", "", f.lines);
    } else if format == FastqFormat {
      FastqRecordsWellFormed(f.lines);
    }
  }

  /** Every read a directory contributes is a loaded read as above. */
  lemma {:induction false} LoadedReadsConsistent(files: seq<FileInput>)
    ensures forall j :: 0 <= j < |DirectoryReads(files)| ==> LoadedRead(DirectoryReads(files)[j])
    decreases |files|
  {
    if files != [] {
      var init := files[..|files| - 1];
      var f := files[|files| - 1];
      assert files == init + [f];
      LoadedReadsConsistent(init);
      FileReadsConsistent(f);
      DirectoryReadsAppend(init, [f]);
      SingleFileReads(f);
      var before, added := DirectoryReads(init), FileReads(f);
      forall j | 0 <= j < |before + added| ensures LoadedRead((before + added)[j]) {
        if j >= |before| {
          assert (before + added)[j] == added[j - |before|];
        }
      }
    }
  }
}
