/** The FASTQ reader (src/ReadFastq.cpp): four-line records ('@' header,
    sequence, '+' separator, quality), each checked as it is read and dropped
    with the lines it consumed when a check fails. */
module Fastq {
  import opened Utils
  import opened Sequences

  /** What every read the FASTQ reader emits satisfies. */
  predicate WellFormedRead(r: Sequence) {
    r.sequence != "" && r.quality != "" && |r.sequence| == |r.quality|
  }

  /** The reads the loop emits from `lines`. A line that is empty or does not
      start with '@' is dropped alone; a header consumes the lines read after
      it even when the record is rejected, and a line once consumed is never
      looked at again as a header. A missing line ends the input. */
  function FastqRecords(lines: seq<string>): seq<Sequence>
    decreases |lines|
  {
    if lines == [] then []
    else if !StartsWith(lines[0], '@') then FastqRecords(lines[1..])
    else if |lines| == 1 then []
    else if lines[1] == "" then FastqRecords(lines[2..])
    else if |lines| == 2 then []
    else if !StartsWith(lines[2], '+') then FastqRecords(lines[3..])
    else if |lines| == 3 then []
    else if lines[3] == "" || |lines[1]| != |lines[3]| then FastqRecords(lines[4..])
    else [MakeSequence(lines[0][1..], lines[1], lines[3])] + FastqRecords(lines[4..])
  }

  /** Every read the loop emits is well formed. */
  lemma {:induction false} FastqRecordsWellFormed(lines: seq<string>)
    ensures forall j :: 0 <= j < |FastqRecords(lines)| ==> WellFormedRead(FastqRecords(lines)[j])
    decreases |lines|
  {
    if lines == [] {
    } else if !StartsWith(lines[0], '@') {
      FastqRecordsWellFormed(lines[1..]);
    } else if |lines| == 1 {
    } else if lines[1] == "" {
      FastqRecordsWellFormed(lines[2..]);
    } else if |lines| == 2 {
    } else if !StartsWith(lines[2], '+') {
      FastqRecordsWellFormed(lines[3..]);
    } else if |lines| == 3 {
    } else {
      FastqRecordsWellFormed(lines[4..]);
    }
  }

  /** What `load` appends: nothing when the file cannot be opened. */
  function ParseFastqFile(file: FileInput): seq<Sequence> {
    match file
    case CannotOpen => []
    case Opened(lines) => FastqRecords(lines)
  }

  /** `ReadFastq`: a file name and the reads loaded from it so far. */
  class ReadFastq {
    const file: FileInput
    var readList: seq<Sequence>

    /** Every stored read is well formed. */
    ghost predicate Valid()
      reads this
    {
      forall j :: 0 <= j < |readList| ==> WellFormedRead(readList[j])
    }

    constructor (file: FileInput)
      ensures Valid() && this.file == file && readList == []
    {
      this.file := file;
      readList := [];
    }

    /** `load`: appends the file's valid reads in file order; earlier reads
        stay, and an unopenable file adds none. */
    method Load()
      requires Valid()
      modifies this
      ensures Valid()
      ensures readList == old(readList) + ParseFastqFile(file)
      ensures file.CannotOpen? ==> readList == old(readList)
    {
      if file.CannotOpen? {
        return;
      }
      var lines := file.lines;
      var i := 0;
      while i < |lines|
        invariant 0 <= i <= |lines|
        invariant old(readList) + FastqRecords(lines) == readList + FastqRecords(lines[i..])
      {
        ghost var at := i;
        var line := lines[i];
        i := i + 1;
        assert lines[at..][1..] == lines[at + 1..];
        if line == "" || line[0] != '@' {
          // skipped blank line or malformed entry
        } else if i < |lines| {
          var id := line[1..];
          var sequence := lines[i];
          i := i + 1;
          assert lines[at..][2..] == lines[at + 2..];
          if sequence != "" && i < |lines| {
            var separator := lines[i];
            i := i + 1;
            assert lines[at..][3..] == lines[at + 3..];
            if separator != "" && separator[0] == '+' && i < |lines| {
              var quality := lines[i];
              i := i + 1;
              assert lines[at..][4..] == lines[at + 4..];
              if quality == "" {
                // missing quality string
              } else if |sequence| != |quality| {
                // quality length does not match sequence length
              } else {
                readList := readList + [MakeSequence(id, sequence, quality)];
              }
            }
          }
        }
      }
      assert lines[i..] == [];
      assert readList == old(readList) + FastqRecords(lines);
      FastqRecordsWellFormed(lines);
      WellFormedAppend(old(readList), FastqRecords(lines));
    }

    /** `getReads`: the stored reads, each well formed. */
    function GetReads(): (rs: seq<Sequence>)
      reads this
      requires Valid()
      ensures rs == readList
      ensures forall j :: 0 <= j < |rs| ==> WellFormedRead(rs[j])
    {
      readList
    }
  }

  /** Two lists of well-formed reads join into one. */
  lemma WellFormedAppend(a: seq<Sequence>, b: seq<Sequence>)
    requires forall j :: 0 <= j < |a| ==> WellFormedRead(a[j])
    requires forall j :: 0 <= j < |b| ==> WellFormedRead(b[j])
    ensures forall j :: 0 <= j < |a + b| ==> WellFormedRead((a + b)[j])
  {
    forall j | 0 <= j < |a + b| ensures WellFormedRead((a + b)[j]) {
      if j >= |a| {
        assert (a + b)[j] == b[j - |a|];
      }
    }
  }

  // ---------------------------------------------------------------------
  // Record framing

  /** Four consecutive lines of `lines`, from index `p`, frame the read `r`:
      its header with the leading '@' removed, its sequence, a line starting
      with '+', and its quality. */
  ghost predicate FramedAt(lines: seq<string>, p: nat, r: Sequence) {
    p + 3 < |lines| && lines[p] == "@" + r.id && lines[p + 1] == r.sequence
    && StartsWith(lines[p + 2], '+') && lines[p + 3] == r.quality
  }

  /** Framing survives putting lines in front. */
  lemma FramedAtShift(lines: seq<string>, skip: nat, p: nat, r: Sequence)
    requires skip <= |lines| && FramedAt(lines[skip..], p, r)
    ensures FramedAt(lines, p + skip, r)
  {
    var tail := lines[skip..];
    assert lines[p + skip] == tail[p] && lines[p + skip + 1] == tail[p + 1];
    assert lines[p + skip + 2] == tail[p + 2] && lines[p + skip + 3] == tail[p + 3];
  }

  /** Every emitted read comes from four consecutive lines that frame it. */
  lemma {:induction false} ReadOrigin(lines: seq<string>, j: nat)
    requires j < |FastqRecords(lines)|
    ensures exists p: nat :: FramedAt(lines, p, FastqRecords(lines)[j])
    decreases |lines|
  {
    var rs := FastqRecords(lines);
    var r := rs[j];
    var skip: nat := 4;
    if !StartsWith(lines[0], '@') {
      skip := 1;
    } else if lines[1] == "" {
      skip := 2;
    } else if !StartsWith(lines[2], '+') {
      skip := 3;
    } else if lines[3] == "" || |lines[1]| != |lines[3]| {
    } else if j == 0 {
      assert lines[0] == "@" + lines[0][1..] by { assert lines[0] == [lines[0][0]] + lines[0][1..]; }
      assert FramedAt(lines, 0, r);
      return;
    }
    var tail := lines[skip..];
    var k: nat := if skip == 4 && StartsWith(lines[0], '@') && lines[1] != "" && StartsWith(lines[2], '+')
      && lines[3] != "" && |lines[1]| == |lines[3]| then j - 1 else j;
    assert FastqRecords(tail)[k] == r;
    ReadOrigin(tail, k);
    var p: nat :| FramedAt(tail, p, r);
    FramedAtShift(lines, skip, p, r);
  }

  /** A record is accepted whatever its sequence line holds, as long as it
      is non-empty, and whatever follows the '+' of its separator. */
  lemma AcceptedRecord(id: string, nucleotides: string, separator: string, qual: string, rest: seq<string>)
    requires nucleotides != "" && StartsWith(separator, '+')
    requires qual != "" && |qual| == |nucleotides|
    ensures FastqRecords(["@" + id, nucleotides, separator, qual] + rest)
         == [Sequence(id, nucleotides, qual)] + FastqRecords(rest)
  {
    var lines := ["@" + id, nucleotides, separator, qual] + rest;
    assert lines[0] == "@" + id && lines[1] == nucleotides && lines[2] == separator && lines[3] == qual;
    assert lines[4..] == rest;
    assert ("@" + id)[1..] == id;
  }

  /** There is no rewind: a rejected record drops every line it consumed,
      so none of them is looked at again as a header. */
  lemma RejectedRecordConsumesItsLines(id: string, nucleotides: string, separator: string, qual: string, rest: seq<string>)
    ensures nucleotides == ""
      ==> FastqRecords(["@" + id, nucleotides] + rest) == FastqRecords(rest)
    ensures nucleotides != "" && !StartsWith(separator, '+')
      ==> FastqRecords(["@" + id, nucleotides, separator] + rest) == FastqRecords(rest)
    ensures nucleotides != "" && StartsWith(separator, '+') && (qual == "" || |qual| != |nucleotides|)
      ==> FastqRecords(["@" + id, nucleotides, separator, qual] + rest) == FastqRecords(rest)
  {
    var two := ["@" + id, nucleotides] + rest;
    assert two[0] == "@" + id && two[1] == nucleotides && two[2..] == rest;
    var three := ["@" + id, nucleotides, separator] + rest;
    assert three[0] == "@" + id && three[1] == nucleotides && three[2] == separator && three[3..] == rest;
    var four := ["@" + id, nucleotides, separator, qual] + rest;
    assert four[0] == "@" + id && four[1] == nucleotides && four[2] == separator && four[3] == qual;
    assert four[4..] == rest;
  }

  /** A line in header position that is empty or does not start with '@' is
      dropped alone; scanning resumes at the very next line. */
  lemma NonHeaderLineDropped(line: string, rest: seq<string>)
    requires !StartsWith(line, '@')
    ensures FastqRecords([line] + rest) == FastqRecords(rest)
  {
    assert ([line] + rest)[1..] == rest;
  }

  /** The no-rewind rule on a concrete file: the first record lacks its '+'
      line, so the second record's header is consumed as that separator and
      the rest of the second record is dropped line by line. On its own, the
      second record is read. */
  lemma NoRewindExample()
    ensures FastqRecords(["@r1", "ACGT", "@r2", "ACGT", "+", "IIII"]) == []
    ensures FastqRecords(["@r2", "ACGT", "+", "IIII"]) == [Sequence("r2", "ACGT", "IIII")]
  {
    var lines := ["@r1", "ACGT", "@r2", "ACGT", "+", "IIII"];
    assert !StartsWith(lines[2], '+');
    assert lines[3..] == ["ACGT", "+", "IIII"];
    NonHeaderLineDropped("ACGT", ["+", "IIII"]);
    NonHeaderLineDropped("+", ["IIII"]);
    NonHeaderLineDropped("IIII", []);
    AcceptedRecord("r2", "ACGT", "+", "IIII", []);
    assert "@" + "r2" == "@r2" by {
      assert |"@" + "r2"| == 3 && ("@" + "r2")[0] == '@' && ("@" + "r2")[1] == 'r' && ("@" + "r2")[2] == '2';
    }
    assert ["@" + "r2", "ACGT", "+", "IIII"] + [] == ["@r2", "ACGT", "+", "IIII"];
  }

  // ---------------------------------------------------------------------
  // Round trip

  /** Each read as its four FASTQ lines. */
  function FastqLines(rs: seq<Sequence>): seq<string> {
    if rs == [] then [] else ["@" + rs[0].id, rs[0].sequence, "+", rs[0].quality] + FastqLines(rs[1..])
  }

  /** Well-formed reads written as four-line records read back as exactly
      those reads, whatever their ids and sequence lines hold. */
  lemma {:induction false} WriteThenRead(rs: seq<Sequence>)
    requires forall j :: 0 <= j < |rs| ==> WellFormedRead(rs[j])
    ensures FastqRecords(FastqLines(rs)) == rs
  {
    if rs != [] {
      var r := rs[0];
      assert WellFormedRead(r);
      WriteThenRead(rs[1..]);
      AcceptedRecord(r.id, r.sequence, "+", r.quality, FastqLines(rs[1..]));
      assert [r] + rs[1..] == rs;
    }
  }

  // ---------------------------------------------------------------------
  // Printing a read with a quality

  /** Fewer than four lines never hold a read. */
  lemma {:induction false} ShortInputNoRead(lines: seq<string>)
    requires |lines| < 4
    ensures FastqRecords(lines) == []
    decreases |lines|
  {
    if lines == [] {
    } else if !StartsWith(lines[0], '@') {
      ShortInputNoRead(lines[1..]);
    } else if |lines| >= 2 && lines[1] == "" {
      ShortInputNoRead(lines[2..]);
    }
  }

  /** As written, `print` gives every record a '>' header, so the FASTQ
      reader reads nothing back from any printed record, with a quality or
      without: the header is dropped and at most three lines remain. */
  lemma PrintedReadIsNotFastq(r: Sequence)
    requires NoNewline(r.id) && NoNewline(r.sequence) && NoNewline(r.quality)
    ensures FastqRecords(SplitLines(r.Print())) == []
  {
    PrintLines(r);
    var lines := PrintedLines(r);
    assert (">" + r.id)[0] == '>';
    assert lines == [">" + r.id] + lines[1..];
    NonHeaderLineDropped(">" + r.id, lines[1..]);
    ShortInputNoRead(lines[1..]);
  }

  /** With the '@' header the record reads back as itself. */
  lemma PrintIntendedThenRead(r: Sequence)
    requires WellFormedRead(r)
    requires NoNewline(r.id) && NoNewline(r.sequence) && NoNewline(r.quality)
    ensures FastqRecords(SplitLines(r.PrintIntended())) == [r]
  {
    HeaderHasNoNewline(r.id);
    assert r.PrintIntended() == "@" + r.id + "\n" + (r.sequence + "\n" + ("+" + "\n" + (r.quality + "\n" + "")));
    SplitFour("@" + r.id, r.sequence, r.quality, "");
    AcceptedRecord(r.id, r.sequence, "+", r.quality, []);
    assert ["@" + r.id, r.sequence, "+", r.quality] + [] == ["@" + r.id, r.sequence, "+", r.quality];
  }
}
