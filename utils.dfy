/** Files as the readers see them, the text-to-lines split that `std::getline`
    performs, and the format sniffing of `detectFileFormat` (src/Utils.cpp). */
module Utils {

  /** A file named by a path: either it cannot be opened, or it can and holds
      these lines (each without its terminating newline). */
  datatype FileInput = CannotOpen | Opened(lines: seq<string>)

  /** The three answers of `detectFileFormat`: "fasta", "fastq", "unknown". */
  datatype Format = FastaFormat | FastqFormat | UnknownFormat

  /** The line is non-empty and its first character is `c`. */
  predicate StartsWith(line: string, c: char) {
    line != "" && line[0] == c
  }

  /** Length of the first line of `text`: the index of its first newline, or
      the whole text when there is none. */
  function LineLength(text: string): (n: nat)
    ensures n <= |text|
    ensures forall j :: 0 <= j < n ==> text[j] != '\n'
    ensures n < |text| ==> text[n] == '\n'
  {
    if text == [] || text[0] == '\n' then 0 else 1 + LineLength(text[1..])
  }

  /** The lines successive `getline` calls return on `text`: split at each
      newline; a final newline does not start another line, and a last line
      without a newline is still a line. */
  function SplitLines(text: string): seq<string>
    decreases |text|
  {
    if text == [] then []
    else
      var n := LineLength(text);
      [text[..n]] + (if n < |text| then SplitLines(text[n + 1..]) else [])
  }

  /** A line followed by a newline splits off as exactly that line. */
  lemma SplitLinesCons(line: string, rest: string)
    requires forall j :: 0 <= j < |line| ==> line[j] != '\n'
    ensures SplitLines(line + "\n" + rest) == [line] + SplitLines(rest)
  {
    var text := line + "\n" + rest;
    var n := LineLength(text);
    assert text[|line|] == '\n';
    assert forall j :: 0 <= j < |line| ==> text[j] == line[j];
    assert n == |line|;
    assert text[..n] == line;
    assert text[n + 1..] == rest;
  }

  /** The first line of a text that begins with `c` (not a newline) is
      non-empty and begins with `c`. */
  lemma FirstLineStartsWith(text: string)
    requires text != [] && text[0] != '\n'
    ensures SplitLines(text) != [] && SplitLines(text)[0] != ""
    ensures SplitLines(text)[0][0] == text[0]
  {
    assert LineLength(text) >= 1;
  }

  /** The first line `detectFileFormat` reads: an empty file reads as an
      empty line. */
  function FirstLine(file: FileInput): string
    requires file.Opened?
  {
    if file.lines == [] then "" else file.lines[0]
  }

  /** `detectFileFormat`: "unknown" for an unopenable file; otherwise decided
      by the first character of the first line alone. */
  function DetectFileFormat(file: FileInput): (format: Format)
    ensures format == FastaFormat <==> file.Opened? && StartsWith(FirstLine(file), '>')
    ensures format == FastqFormat <==> file.Opened? && StartsWith(FirstLine(file), '@')
  {
    match file
    case CannotOpen => UnknownFormat
    case Opened(_) =>
      var first := FirstLine(file);
      if first != "" && first[0] == '>' then FastaFormat
      else if first != "" && first[0] == '@' then FastqFormat
      else UnknownFormat
  }

  /** Two opened files whose first lines start with the same character, or
      are both empty, are given the same format; whatever follows the first
      character does not matter. */
  lemma DetectDependsOnFirstCharOnly(f1: FileInput, f2: FileInput)
    requires f1.Opened? && f2.Opened?
    requires (FirstLine(f1) == "" && FirstLine(f2) == "")
          || (FirstLine(f1) != "" && FirstLine(f2) != "" && FirstLine(f1)[0] == FirstLine(f2)[0])
    ensures DetectFileFormat(f1) == DetectFileFormat(f2)
  {
  }
}
