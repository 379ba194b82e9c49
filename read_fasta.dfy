/** The FASTA reader (src/ReadFasta.cpp): a line loop that starts a record at
    every '>' header and glues the other non-empty lines onto the current
    sequence. */
module Fasta {
  import opened Utils
  import opened Sequences

  /** The records the loop still emits when its current id is `id`, its
      sequence so far is `acc`, and `lines` are left to read (the final
      emission after the loop included). */
  function FastaFrom(id: string, acc: string, lines: seq<string>): seq<Sequence>
    decreases |lines|
  {
    if lines == [] then
      if id != "" then [MakeSequence(id, acc)] else []
    else
      var line := lines[0];
      if line == "" then FastaFrom(id, acc, lines[1..])
      else if line[0] == '>' then
        if id != "" then [MakeSequence(id, acc)] + FastaFrom(line[1..], "", lines[1..])
        else FastaFrom(line[1..], acc, lines[1..])
      else FastaFrom(id, acc + line, lines[1..])
  }

  /** A record is emitted only under a non-empty id, and a FASTA record never
      has a quality. */
  lemma {:induction false} FastaRecordsNamed(id: string, acc: string, lines: seq<string>)
    ensures forall j :: 0 <= j < |FastaFrom(id, acc, lines)| ==>
      FastaFrom(id, acc, lines)[j].id != "" && !FastaFrom(id, acc, lines)[j].HasQuality()
    decreases |lines|
  {
    if lines != [] {
      var line := lines[0];
      if line == "" {
        FastaRecordsNamed(id, acc, lines[1..]);
      } else if line[0] == '>' {
        FastaRecordsNamed(line[1..], if id != "" then "" else acc, lines[1..]);
      } else {
        FastaRecordsNamed(id, acc + line, lines[1..]);
      }
    }
  }

  /** What `load` appends for a file holding `lines`. */
  function ParseFasta(lines: seq<string>): seq<Sequence> {
    FastaFrom("", "", lines)
  }

  /** What `load` appends: nothing when the file cannot be opened. */
  function ParseFastaFile(file: FileInput): seq<Sequence> {
    match file
    case CannotOpen => []
    case Opened(lines) => ParseFasta(lines)
  }

  /** `ReadFasta`: a file name and the records loaded from it so far. */
  class ReadFasta {
    const file: FileInput
    var sequences: seq<Sequence>

    /** Every stored record has a non-empty id and no quality. */
    ghost predicate Valid()
      reads this
    {
      forall j :: 0 <= j < |sequences| ==> sequences[j].id != "" && !sequences[j].HasQuality()
    }

    constructor (file: FileInput)
      ensures Valid() && this.file == file && sequences == []
    {
      this.file := file;
      sequences := [];
    }

    /** `load`: appends the file's records in file order; earlier records
        stay, and an unopenable file adds none. */
    method Load()
      requires Valid()
      modifies this
      ensures Valid()
      ensures sequences == old(sequences) + ParseFastaFile(file)
      ensures file.CannotOpen? ==> sequences == old(sequences)
    {
      if file.CannotOpen? {
        return;
      }
      var lines := file.lines;
      var seqId, sequence := "", "";
      var i := 0;
      while i < |lines|
        invariant 0 <= i <= |lines|
        invariant old(sequences) + ParseFasta(lines) == sequences + FastaFrom(seqId, sequence, lines[i..])
      {
        var line := lines[i];
        assert lines[i..][1..] == lines[i + 1..];
        if line == "" {
        } else if line[0] == '>' {
          if seqId != "" {
            sequences := sequences + [MakeSequence(seqId, sequence)];
            sequence := "";
          }
          seqId := line[1..];
        } else {
          sequence := sequence + line;
        }
        i := i + 1;
      }
      if seqId != "" {
        sequences := sequences + [MakeSequence(seqId, sequence)];
      }
      assert sequences == old(sequences) + ParseFasta(lines);
      FastaRecordsNamed("", "", lines);
      NamedAppend(old(sequences), ParseFasta(lines));
    }

    /** `getSequences`: the stored records, each with a non-empty id and no
        quality. */
    function GetSequences(): (rs: seq<Sequence>)
      reads this
      requires Valid()
      ensures rs == sequences
      ensures forall j :: 0 <= j < |rs| ==> rs[j].id != "" && !rs[j].HasQuality()
    {
      sequences
    }
  }

  /** Two lists of named, quality-free records join into one. */
  lemma NamedAppend(a: seq<Sequence>, b: seq<Sequence>)
    requires forall j :: 0 <= j < |a| ==> a[j].id != "" && !a[j].HasQuality()
    requires forall j :: 0 <= j < |b| ==> b[j].id != "" && !b[j].HasQuality()
    ensures forall j :: 0 <= j < |a + b| ==> (a + b)[j].id != "" && !(a + b)[j].HasQuality()
  {
    forall j | 0 <= j < |a + b| ensures (a + b)[j].id != "" && !(a + b)[j].HasQuality() {
      if j >= |a| {
        assert (a + b)[j] == b[j - |a|];
      }
    }
  }

  // ---------------------------------------------------------------------
  // Helpers for stating the framing rules

  /** The non-empty lines, in order. */
  function NonEmptyLines(lines: seq<string>): seq<string> {
    if lines == [] then []
    else (if lines[0] == "" then [] else [lines[0]]) + NonEmptyLines(lines[1..])
  }

  /** The lines concatenated without separators. */
  function Concat(lines: seq<string>): string {
    if lines == [] then "" else lines[0] + Concat(lines[1..])
  }

  /** The ids of a list of records. */
  function Ids(rs: seq<Sequence>): seq<string> {
    if rs == [] then [] else [rs[0].id] + Ids(rs[1..])
  }

  /** The ids of the header lines whose id (the text after '>') is non-empty. */
  function NamedHeaderIds(lines: seq<string>): seq<string> {
    if lines == [] then []
    else (if StartsWith(lines[0], '>') && lines[0][1..] != "" then [lines[0][1..]] else []) + NamedHeaderIds(lines[1..])
  }

  /** The lines that are not headers (empty lines included). */
  function DataLines(lines: seq<string>): seq<string> {
    if lines == [] then []
    else (if StartsWith(lines[0], '>') then [] else [lines[0]]) + DataLines(lines[1..])
  }

  ghost predicate NoHeaders(lines: seq<string>) {
    forall j :: 0 <= j < |lines| ==> !StartsWith(lines[j], '>')
  }

  // ---------------------------------------------------------------------
  // Framing rules

  /** Empty lines are ignored wherever they stand. */
  lemma {:induction false} EmptyLinesIgnored(id: string, acc: string, lines: seq<string>)
    ensures FastaFrom(id, acc, lines) == FastaFrom(id, acc, NonEmptyLines(lines))
    decreases |lines|
  {
    if lines != [] {
      var line := lines[0];
      var rest := lines[1..];
      if line == "" {
        EmptyLinesIgnored(id, acc, rest);
        assert NonEmptyLines(lines) == [] + NonEmptyLines(rest);
        assert [] + NonEmptyLines(rest) == NonEmptyLines(rest);
      } else {
        assert NonEmptyLines(lines) == [line] + NonEmptyLines(rest);
        assert ([line] + NonEmptyLines(rest))[1..] == NonEmptyLines(rest);
        if line[0] == '>' {
          EmptyLinesIgnored(line[1..], if id != "" then "" else acc, rest);
        } else {
          EmptyLinesIgnored(id, acc + line, rest);
        }
      }
    }
  }

  /** The whole file without its empty lines parses the same. */
  lemma ParseIgnoresEmptyLines(lines: seq<string>)
    ensures ParseFasta(lines) == ParseFasta(NonEmptyLines(lines))
  {
    EmptyLinesIgnored("", "", lines);
  }

  /** One header step of IdsAreNamedHeaders: a pending record contributes
      its id first, and the header's id becomes the pending one. */
  lemma IdsHeaderStep(id: string, acc: string, lines: seq<string>)
    requires lines != [] && StartsWith(lines[0], '>')
    requires Ids(FastaFrom(lines[0][1..], if id != "" then "" else acc, lines[1..]))
      == (if lines[0][1..] != "" then [lines[0][1..]] else []) + NamedHeaderIds(lines[1..])
    ensures Ids(FastaFrom(id, acc, lines)) == (if id != "" then [id] else []) + NamedHeaderIds(lines)
  {
    var tail := FastaFrom(lines[0][1..], "", lines[1..]);
    assert NamedHeaderIds(lines)
      == (if lines[0][1..] != "" then [lines[0][1..]] else []) + NamedHeaderIds(lines[1..]);
    if id != "" {
      assert ([MakeSequence(id, acc)] + tail)[1..] == tail;
      assert ([id] + Ids(tail)) == [id] + NamedHeaderIds(lines);
    }
  }

  /** One data-line step of IdsAreNamedHeaders: a line that is not a header
      names nothing. */
  lemma IdsDataStep(id: string, acc: string, lines: seq<string>)
    requires lines != [] && !StartsWith(lines[0], '>')
    requires Ids(FastaFrom(id, acc + lines[0], lines[1..]))
      == (if id != "" then [id] else []) + NamedHeaderIds(lines[1..])
    ensures Ids(FastaFrom(id, acc, lines)) == (if id != "" then [id] else []) + NamedHeaderIds(lines)
  {
    var line, rest := lines[0], lines[1..];
    assert NamedHeaderIds(lines) == [] + NamedHeaderIds(rest);
    assert [] + NamedHeaderIds(rest) == NamedHeaderIds(rest);
    if line == "" {
      assert acc + line == acc;
      assert FastaFrom(id, acc, lines) == FastaFrom(id, acc, rest);
    } else {
      assert FastaFrom(id, acc, lines) == FastaFrom(id, acc + line, rest);
    }
  }

  /** The records are named after the headers with a non-empty id, in file
      order, together with the id already pending: a bare '>' names no
      record. */
  lemma {:induction false} IdsAreNamedHeaders(id: string, acc: string, lines: seq<string>)
    ensures Ids(FastaFrom(id, acc, lines)) == (if id != "" then [id] else []) + NamedHeaderIds(lines)
    decreases |lines|
  {
    if lines == [] {
      if id != "" {
        assert Ids([MakeSequence(id, acc)]) == [id] + Ids([]);
      }
    } else if StartsWith(lines[0], '>') {
      IdsAreNamedHeaders(lines[0][1..], if id != "" then "" else acc, lines[1..]);
      IdsHeaderStep(id, acc, lines);
    } else {
      IdsAreNamedHeaders(id, acc + lines[0], lines[1..]);
      IdsDataStep(id, acc, lines);
    }
  }

  /** The ids of a whole file are exactly its named headers' ids. */
  lemma ParsedIds(lines: seq<string>)
    ensures Ids(ParseFasta(lines)) == NamedHeaderIds(lines)
  {
    IdsAreNamedHeaders("", "", lines);
  }

  /** Lines that are not headers are glued onto the pending sequence, in
      order and without separators. */
  lemma {:induction false} DataLinesAccumulate(id: string, acc: string, data: seq<string>, rest: seq<string>)
    requires NoHeaders(data)
    ensures FastaFrom(id, acc, data + rest) == FastaFrom(id, acc + Concat(data), rest)
    decreases |data|
  {
    if data == [] {
      assert data + rest == rest;
      assert acc + Concat(data) == acc;
    } else {
      var d := data[0];
      assert (data + rest)[0] == d;
      assert (data + rest)[1..] == data[1..] + rest;
      assert !StartsWith(d, '>');
      DataLinesAccumulate(id, if d == "" then acc else acc + d, data[1..], rest);
      assert acc + Concat(data) == acc + (d + Concat(data[1..]));
      assert acc + (d + Concat(data[1..])) == (acc + d) + Concat(data[1..]);
      if d == "" {
        assert acc + ("" + Concat(data[1..])) == acc + Concat(data[1..]);
      }
    }
  }

  /** A record emitted under a non-empty id carries that id and starts with
      the sequence pending when it began. */
  lemma {:induction false} FirstRecord(id: string, acc: string, lines: seq<string>)
    requires id != ""
    ensures FastaFrom(id, acc, lines) != []
    ensures FastaFrom(id, acc, lines)[0].id == id
    ensures acc <= FastaFrom(id, acc, lines)[0].sequence
    decreases |lines|
  {
    if lines != [] {
      var line := lines[0];
      if line == "" {
        FirstRecord(id, acc, lines[1..]);
      } else if line[0] != '>' {
        FirstRecord(id, acc + line, lines[1..]);
        assert acc <= acc + line;
      }
    }
  }

  /** Lines before the first header are not dropped: they open the first
      record's sequence. */
  lemma LeadingLinesPrefixFirstRecord(pre: seq<string>, x: string, rest: seq<string>)
    requires NoHeaders(pre) && x != ""
    ensures ParseFasta(pre + [">" + x] + rest) != []
    ensures ParseFasta(pre + [">" + x] + rest)[0].id == x
    ensures Concat(pre) <= ParseFasta(pre + [">" + x] + rest)[0].sequence
  {
    assert pre + [">" + x] + rest == pre + ([">" + x] + rest);
    DataLinesAccumulate("", "", pre, [">" + x] + rest);
    assert "" + Concat(pre) == Concat(pre);
    assert ([">" + x] + rest)[1..] == rest;
    assert (">" + x)[1..] == x;
    FirstRecord(x, Concat(pre), rest);
  }

  /** A bare '>' header names no record, from any loop state: it emits the
      pending record when there is one, and the lines after it are read as if
      they followed the next header, on top of the pending sequence when no
      id was pending. At the end of the input those lines are dropped. */
  lemma BareHeaderCarries(id: string, acc: string, data: seq<string>, x: string, rest: seq<string>)
    requires NoHeaders(data)
    ensures FastaFrom(id, acc, [">"] + data + [">" + x] + rest)
         == Pending(id, acc) + FastaFrom(x, (if id != "" then "" else acc) + Concat(data), rest)
    ensures FastaFrom(id, acc, [">"] + data) == Pending(id, acc)
  {
    var base := if id != "" then "" else acc;
    var tail := [">" + x] + rest;
    assert [">"] + data + [">" + x] + rest == [">"] + (data + tail);
    assert ([">"] + (data + tail))[1..] == data + tail;
    assert ([">"] + data)[1..] == data;
    assert data + [] == data;
    assert ">"[1..] == "";
    DataLinesAccumulate("", base, data, tail);
    DataLinesAccumulate("", base, data, []);
    assert tail[1..] == rest;
    assert (">" + x)[1..] == x;
    assert Pending(id, acc) + [] == Pending(id, acc);
    if id == "" {
      assert [] + FastaFrom(x, base + Concat(data), rest) == FastaFrom(x, base + Concat(data), rest);
    }
  }

  /** At the start of a file, a bare '>' and its lines read as if those lines
      followed the next header. */
  lemma BareHeaderAtFileStart(data: seq<string>, x: string, rest: seq<string>)
    requires NoHeaders(data)
    ensures ParseFasta([">"] + data + [">" + x] + rest) == ParseFasta([">" + x] + data + rest)
  {
    BareHeaderCarries("", "", data, x, rest);
    assert "" + Concat(data) == Concat(data);
    assert [] + FastaFrom(x, Concat(data), rest) == FastaFrom(x, Concat(data), rest);
    HeaderFirst(x, data + rest);
    assert [">" + x] + data + rest == [">" + x] + (data + rest);
    DataLinesAccumulate(x, "", data, rest);
  }

  /** A header followed directly by another header, or by the end of the
      input, yields a record with an empty sequence; the next header's id
      becomes the pending one. */
  lemma HeaderWithoutLines(id: string, x: string, rest: seq<string>)
    requires id != ""
    ensures FastaFrom(id, "", [">" + x] + rest) == [Sequence(id, "", "")] + FastaFrom(x, "", rest)
    ensures FastaFrom(id, "", []) == [Sequence(id, "", "")]
  {
    assert ([">" + x] + rest)[1..] == rest;
    assert (">" + x)[1..] == x;
  }

  // ---------------------------------------------------------------------
  // The genome `loadReference` builds from a FASTA file

  /** The sequences of the records concatenated in order: the genome
      `loadReference` indexes. */
  function Concatenation(rs: seq<Sequence>): string {
    if rs == [] then "" else rs[0].sequence + Concatenation(rs[1..])
  }

  ghost predicate NoBareHeaders(lines: seq<string>) {
    forall j :: 0 <= j < |lines| ==> lines[j] != ">"
  }

  ghost predicate HasNamedHeader(lines: seq<string>) {
    exists j :: 0 <= j < |lines| && StartsWith(lines[j], '>') && lines[j] != ">"
  }

  /** The preconditions of GenomeIsDataLines carry over to the lines after
      the first one, and a named header has a non-empty id. */
  lemma RestHasNamedHeader(id: string, lines: seq<string>)
    requires lines != [] && NoBareHeaders(lines)
    requires id != "" || HasNamedHeader(lines)
    ensures NoBareHeaders(lines[1..])
    ensures StartsWith(lines[0], '>') ==> lines[0][1..] != ""
    ensures !StartsWith(lines[0], '>') && id == "" ==> HasNamedHeader(lines[1..])
  {
    var rest := lines[1..];
    forall j | 0 <= j < |rest| ensures rest[j] != ">" { assert rest[j] == lines[j + 1]; }
    if StartsWith(lines[0], '>') {
      assert lines[0] != ">";
      assert lines[0] == [lines[0][0]] + lines[0][1..];
    } else if id == "" {
      var j :| 0 <= j < |lines| && StartsWith(lines[j], '>') && lines[j] != ">";
      assert j > 0 && rest[j - 1] == lines[j];
    }
  }

  /** The record emitted at a header contributes its sequence ahead of the
      rest. */
  lemma ConcatenationCons(r: Sequence, tail: seq<Sequence>)
    ensures Concatenation([r] + tail) == r.sequence + Concatenation(tail)
  {
    assert ([r] + tail)[1..] == tail;
  }

  /** One header step of GenomeIsDataLines: the header contributes no
      sequence text, and a pending record contributes its sequence first. */
  lemma GenomeHeaderStep(id: string, acc: string, lines: seq<string>)
    requires lines != [] && StartsWith(lines[0], '>')
    requires Concatenation(FastaFrom(lines[0][1..], if id != "" then "" else acc, lines[1..]))
      == (if id != "" then "" else acc) + Concat(DataLines(lines[1..]))
    ensures Concatenation(FastaFrom(id, acc, lines)) == acc + Concat(DataLines(lines))
  {
    var rest := lines[1..];
    assert DataLines(lines) == [] + DataLines(rest);
    assert DataLines(lines) == DataLines(rest);
    if id != "" {
      ConcatenationCons(MakeSequence(id, acc), FastaFrom(lines[0][1..], "", rest));
      assert "" + Concat(DataLines(rest)) == Concat(DataLines(rest));
    }
  }

  /** One data-line step of GenomeIsDataLines: the line is appended to the
      pending sequence. */
  lemma GenomeDataStep(id: string, acc: string, lines: seq<string>)
    requires lines != [] && !StartsWith(lines[0], '>')
    requires Concatenation(FastaFrom(id, acc + lines[0], lines[1..]))
      == (acc + lines[0]) + Concat(DataLines(lines[1..]))
    ensures Concatenation(FastaFrom(id, acc, lines)) == acc + Concat(DataLines(lines))
  {
    var line, rest := lines[0], lines[1..];
    assert DataLines(lines) == [line] + DataLines(rest);
    assert ([line] + DataLines(rest))[1..] == DataLines(rest);
    assert Concat(DataLines(lines)) == line + Concat(DataLines(rest));
    assert (acc + line) + Concat(DataLines(rest)) == acc + (line + Concat(DataLines(rest)));
    if line == "" {
      assert acc + line == acc;
    }
  }

  /** In a file with no bare '>' header and at least one named header, the
      concatenated records are exactly the non-header lines in file order:
      no sequence line is lost or reordered. */
  lemma {:induction false} GenomeIsDataLines(id: string, acc: string, lines: seq<string>)
    requires NoBareHeaders(lines)
    requires id != "" || HasNamedHeader(lines)
    ensures Concatenation(FastaFrom(id, acc, lines)) == acc + Concat(DataLines(lines))
    decreases |lines|
  {
    if lines == [] {
      ConcatenationCons(MakeSequence(id, acc), []);
    } else {
      RestHasNamedHeader(id, lines);
      if StartsWith(lines[0], '>') {
        GenomeIsDataLines(lines[0][1..], if id != "" then "" else acc, lines[1..]);
        GenomeHeaderStep(id, acc, lines);
      } else {
        GenomeIsDataLines(id, acc + lines[0], lines[1..]);
        GenomeDataStep(id, acc, lines);
      }
    }
  }

  // ---------------------------------------------------------------------
  // Reading printed records back

  /** A record that `print` writes and this reader reads back unchanged. */
  ghost predicate FastaWritable(r: Sequence) {
    r.id != "" && !r.HasQuality() && NoNewline(r.id) && NoNewline(r.sequence)
    && !StartsWith(r.sequence, '>')
  }

  /** Each record as a header line followed by one sequence line. */
  function FastaLines(rs: seq<Sequence>): seq<string> {
    if rs == [] then [] else [">" + rs[0].id, rs[0].sequence] + FastaLines(rs[1..])
  }

  /** Printing records one after another yields one header line and one
      sequence line per record. */
  lemma {:induction false} SplitPrintAll(rs: seq<Sequence>)
    requires forall j :: 0 <= j < |rs| ==> FastaWritable(rs[j])
    ensures SplitLines(PrintAll(rs)) == FastaLines(rs)
  {
    if rs != [] {
      var r := rs[0];
      assert FastaWritable(r);
      SplitPrintAll(rs[1..]);
      PrintThenSplit(r, PrintAll(rs[1..]));
    }
  }

  /** The record the loop still holds: none when its id is empty. */
  function Pending(id: string, acc: string): seq<Sequence> {
    if id != "" then [MakeSequence(id, acc)] else []
  }

  /** A header line and a sequence line emit the pending record and leave
      the new record pending with that sequence. With no id pending, nothing
      may have been accumulated. */
  lemma FastaPairStep(id: string, acc: string, r: Sequence, tail: seq<string>)
    requires id != "" || acc == ""
    requires FastaWritable(r)
    ensures FastaFrom(id, acc, [">" + r.id, r.sequence] + tail)
         == Pending(id, acc) + FastaFrom(r.id, r.sequence, tail)
  {
    var lines := [">" + r.id, r.sequence] + tail;
    assert lines[0] == ">" + r.id && lines[1..] == [r.sequence] + tail;
    assert (">" + r.id)[1..] == r.id;
    DataLineStep(r.id, r.sequence, tail);
    if id == "" {
      assert Pending(id, acc) + FastaFrom(r.id, r.sequence, tail) == FastaFrom(r.id, r.sequence, tail);
    }
  }

  /** A sequence line read with nothing pending becomes the pending
      sequence; an empty one leaves it empty. */
  lemma DataLineStep(id: string, line: string, tail: seq<string>)
    requires !StartsWith(line, '>')
    ensures FastaFrom(id, "", [line] + tail) == FastaFrom(id, line, tail)
  {
    assert ([line] + tail)[0] == line && ([line] + tail)[1..] == tail;
    assert "" + line == line;
  }

  /** Reading the header/sequence pairs of `rs` emits the pending record,
      if any, and then exactly `rs`. */
  lemma {:induction false} ReadsBackFrom(id: string, acc: string, rs: seq<Sequence>)
    requires id != "" || acc == ""
    requires forall j :: 0 <= j < |rs| ==> FastaWritable(rs[j])
    ensures FastaFrom(id, acc, FastaLines(rs)) == Pending(id, acc) + rs
    decreases |rs|
  {
    if rs == [] {
      assert Pending(id, acc) + [] == Pending(id, acc);
    } else {
      var r := rs[0];
      assert FastaWritable(r);
      ReadsBackFrom(r.id, r.sequence, rs[1..]);
      FastaPairStep(id, acc, r, FastaLines(rs[1..]));
      assert MakeSequence(r.id, r.sequence) == r;
      assert [r] + rs[1..] == rs;
    }
  }

  /** Round trip: records without quality, printed one after another, read
      back as exactly those records. */
  lemma PrintThenParse(rs: seq<Sequence>)
    requires forall j :: 0 <= j < |rs| ==> FastaWritable(rs[j])
    ensures ParseFasta(SplitLines(PrintAll(rs))) == rs
  {
    SplitPrintAll(rs);
    ReadsBackFrom("", "", rs);
    assert Pending("", "") + rs == rs;
  }

  /** A file that opens with a header starts reading under that header's
      id with nothing pending. */
  lemma HeaderFirst(id: string, rest: seq<string>)
    ensures ParseFasta([">" + id] + rest) == FastaFrom(id, "", rest)
  {
    var lines := [">" + id] + rest;
    assert lines[0] == ">" + id && lines[1..] == rest;
    assert (">" + id)[1..] == id;
  }

  lemma ConcatThree(a: string, b: string, c: string)
    ensures Concat([a, b, c]) == a + b + c
  {
    var lines := [a, b, c];
    assert lines[1..] == [b, c] && lines[1..][1..] == [c] && lines[1..][1..][1..] == [];
    assert Concat([c]) == c + "";
  }

  /** As written, a printed read with a quality is a FASTA record whose
      sequence has the "+" line and the quality glued onto it. */
  lemma PrintedReadAsFasta(r: Sequence)
    requires r.HasQuality() && r.id != ""
    requires NoNewline(r.id) && NoNewline(r.sequence) && NoNewline(r.quality)
    requires !StartsWith(r.sequence, '>') && !StartsWith(r.quality, '>')
    ensures ParseFasta(SplitLines(r.Print())) == [Sequence(r.id, r.sequence + "+" + r.quality, "")]
  {
    PrintLines(r);
    QualityLinesAsFasta(r);
  }

  lemma QualityLinesAsFasta(r: Sequence)
    requires r.id != "" && !StartsWith(r.sequence, '>') && !StartsWith(r.quality, '>')
    ensures ParseFasta([">" + r.id, r.sequence, "+", r.quality]) == [Sequence(r.id, r.sequence + "+" + r.quality, "")]
  {
    var data := [r.sequence, "+", r.quality];
    assert !StartsWith("+", '>') by { assert "+"[0] == '+'; }
    assert NoHeaders(data);
    assert [">" + r.id, r.sequence, "+", r.quality] == [">" + r.id] + data;
    HeaderFirst(r.id, data);
    assert data + [] == data;
    DataLinesAccumulate(r.id, "", data, []);
    ConcatThree(r.sequence, "+", r.quality);
    assert "" + Concat(data) == r.sequence + "+" + r.quality;
  }
}
