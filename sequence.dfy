/** The `Sequence` record (src/Sequence.cpp): an identifier, a nucleotide
    string and a quality string that is empty for FASTA records. */
module Sequences {
  import opened Utils

  datatype Sequence = Sequence(id: string, sequence: string, quality: string) {

    /** Each getter returns the field that, with the other two, rebuilds the
        record: the getters invert the constructor. */
    function GetId(): (r: string)
      ensures Sequence(r, sequence, quality) == this
    {
      id
    }

    function GetSequence(): (r: string)
      ensures Sequence(id, r, quality) == this
    {
      sequence
    }

    function GetQuality(): (r: string)
      ensures Sequence(id, sequence, r) == this
    {
      quality
    }

    /** A record has a quality exactly when it is not what the two-argument
        (FASTA) constructor builds from its id and sequence. */
    predicate HasQuality(): (b: bool)
      ensures b <==> this != Sequence(id, sequence, "")
    {
      quality != ""
    }

    /** The text `print` writes to standard output: the '>' header line
        first, the sequence after it, a "+" line and the quality only when
        there is a quality, and a final newline. */
    function Print(): (text: string)
      ensures |text| == |id| + |sequence| + 3 + (if quality != "" then |quality| + 3 else 0)
      ensures text[..|id| + 2] == ">" + id + "\n"
      ensures text[|id| + 2..|id| + 2 + |sequence|] == sequence
      ensures text[|text| - 1] == '\n'
      ensures quality != "" ==> text[|id| + 2 + |sequence|..] == "\n+\n" + quality + "\n"
    {
      ">" + id + "\n" + sequence + (if quality != "" then "\n+\n" + quality else "") + "\n"
    }

    /** `print` as its documentation describes it: in FASTQ format, with an
        '@' header, when the record has a quality. */
    function PrintIntended(): string {
      (if quality != "" then "@" else ">") + id + "\n" + sequence
        + (if quality != "" then "\n+\n" + quality else "") + "\n"
    }
  }

  /** The constructor: it stores its arguments as given and checks nothing;
      in particular the quality may have any length. */
  function MakeSequence(id: string, nucleotides: string, qual: string := ""): (r: Sequence)
    ensures r.GetId() == id && r.GetSequence() == nucleotides && r.GetQuality() == qual
    ensures r.HasQuality() <==> qual != ""
  {
    Sequence(id, nucleotides, qual)
  }

  /** The text of printing the records one after another. */
  function PrintAll(rs: seq<Sequence>): string {
    if rs == [] then "" else rs[0].Print() + PrintAll(rs[1..])
  }

  ghost predicate NoNewline(s: string) {
    forall j :: 0 <= j < |s| ==> s[j] != '\n'
  }

  /** The lines a record prints as: header and sequence, then "+" and the
      quality when it has one. The header always starts with '>'. */
  function PrintedLines(r: Sequence): seq<string> {
    if r.HasQuality() then [">" + r.id, r.sequence, "+", r.quality]
    else [">" + r.id, r.sequence]
  }

  /** Splitting a header, a sequence, "+" and a quality, each ended by a
      newline, gives back those four lines. */
  lemma SplitFour(header: string, nucleotides: string, qual: string, rest: string)
    requires NoNewline(header) && NoNewline(nucleotides) && NoNewline(qual)
    ensures SplitLines(header + "\n" + (nucleotides + "\n" + ("+" + "\n" + (qual + "\n" + rest))))
         == [header, nucleotides, "+", qual] + SplitLines(rest)
  {
    assert NoNewline("+") by { assert "+"[0] == '+'; }
    var tail := "+" + "\n" + (qual + "\n" + rest);
    SplitTwo("+", qual, rest);
    SplitTwo(header, nucleotides, tail);
    assert [header, nucleotides] + (["+", qual] + SplitLines(rest)) == [header, nucleotides, "+", qual] + SplitLines(rest);
  }

  /** Splitting a header and a sequence, each ended by a newline, gives back
      those two lines. */
  lemma SplitTwo(header: string, nucleotides: string, rest: string)
    requires NoNewline(header) && NoNewline(nucleotides)
    ensures SplitLines(header + "\n" + (nucleotides + "\n" + rest)) == [header, nucleotides] + SplitLines(rest)
  {
    SplitLinesCons(nucleotides, rest);
    assert SplitLines(nucleotides + "\n" + rest) == [nucleotides] + SplitLines(rest);
    SplitLinesCons(header, nucleotides + "\n" + rest);
  }

  lemma HeaderHasNoNewline(id: string)
    requires NoNewline(id)
    ensures NoNewline(">" + id) && NoNewline("@" + id)
  {
    forall c | c == '>' || c == '@' ensures NoNewline([c] + id) {
      var header := [c] + id;
      forall j | 0 <= j < |header| ensures header[j] != '\n' {
        if j > 0 { assert header[j] == id[j - 1]; }
      }
    }
    assert ">" + id == ['>'] + id;
    assert "@" + id == ['@'] + id;
  }

  /** A record whose fields hold no newline prints as its two lines, or
      four when it has a quality, whatever text follows it. */
  lemma PrintThenSplit(r: Sequence, rest: string)
    requires NoNewline(r.id) && NoNewline(r.sequence) && NoNewline(r.quality)
    ensures SplitLines(r.Print() + rest) == PrintedLines(r) + SplitLines(rest)
  {
    HeaderHasNoNewline(r.id);
    if r.HasQuality() {
      assert r.Print() + rest == ">" + r.id + "\n" + (r.sequence + "\n" + ("+" + "\n" + (r.quality + "\n" + rest)));
      SplitFour(">" + r.id, r.sequence, r.quality, rest);
    } else {
      assert r.Print() + rest == ">" + r.id + "\n" + (r.sequence + "\n" + rest);
      SplitTwo(">" + r.id, r.sequence, rest);
    }
  }

  /** A record alone prints as exactly its lines. */
  lemma PrintLines(r: Sequence)
    requires NoNewline(r.id) && NoNewline(r.sequence) && NoNewline(r.quality)
    ensures SplitLines(r.Print()) == PrintedLines(r)
  {
    PrintThenSplit(r, "");
    assert r.Print() + "" == r.Print();
  }

  /** Whatever the record, its printed form sniffs as FASTA: the first line
      is the '>' header, even for a record that has a quality. */
  lemma PrintedDetectsAsFasta(r: Sequence)
    ensures DetectFileFormat(Opened(SplitLines(r.Print()))) == FastaFormat
  {
    FirstLineStartsWith(r.Print());
  }
}
