# A verified model of a k-mer read mapper

The system is a small read mapper for genomics. It reads a reference genome from a FASTA file and indexes every length-k substring (k-mer) of it with its start positions. It then loads sequencing reads from the FASTA and FASTQ files of a directory. Each read is mapped by looking up its first k characters in the index.

This project models the core of that program in Dafny and proves properties of the model:

| module (file) | source | form |
|---|---|---|
| `Utils` (utils.dfy) | src/Utils.cpp `detectFileFormat` | files as line lists; a `getline` model; the first-line classifier |
| `Sequences` (sequence.dfy) | src/Sequence.cpp | the `Sequence` record, its getters, `hasQuality`, and `print` as the string it writes |
| `Fasta` (read_fasta.dfy) | src/ReadFasta.cpp | class `ReadFasta`; `Load` is a line loop proved against the recursive function `FastaFrom` |
| `Fastq` (read_fastq.dfy) | src/ReadFastq.cpp | class `ReadFastq`; `Load` is a four-line record loop proved against `FastqRecords` |
| `Kmers` (kmer_index.dfy) | src/KmerIndex.cpp | class `KmerIndex`; `IndexGenome` is a loop proved against `Indexed`/`AddGenome`, checked against the reference definition `Occ` |
| `Mapping` (mapper.dfy) | src/Mapper.cpp | class `Mapper`; `LoadReference`, `LoadReadsFromDirectory` and `MapReads` are loops proved against `Concatenation`, `DirectoryReads` and `MapAll` |

Modelling choices:

- **Files.** A file name becomes a `FileInput`, which is either `CannotOpen` or `Opened(lines)`. The lines are what successive `getline` calls return. `SplitLines` models that split, so the text `print` writes can be read back.
- **Directories.** A directory becomes the list of its files, in the order `listFilesInDirectory` returns them.
- **The index.** `KmerIndex` keeps its `unordered_map` as a `map<string, seq<int>>`. A ghost field `genomes` records every genome indexed so far. `Valid()` ties the map to them: `index == IndexOf(k, genomes)`.
- **Mapper fields.** The mapper's `reads` field is called `readList`, because `reads` is a Dafny keyword. The same holds for `ReadFastq`'s `reads`.
- **Format.** `detectFileFormat` returns one of the strings "fasta", "fastq" and "unknown". These become the three constructors of `Format`: `FastaFormat`, `FastqFormat` and `UnknownFormat`.
- **Directory loop.** The part of the `loadReadsFromDirectory` loop body that detects the format and runs the matching reader is the method `ReadsOfFile`. The loop then appends the result when it is non-empty, as the source does.
- **Substrings.** `substr(0, k)` is `Prefix(s, k)`: the first k characters, or all of `s` when it is shorter.
- **Headers.** Some headers do not match their `.cpp` files:
  - Mapper.hpp:12 declares `loadReads`, but Mapper.cpp:23 defines `loadReadsFromDirectory`.
  - `getSequences` is called at Mapper.cpp:16 and Mapper.cpp:32, but no header declares it and no file defines it. ReadFasta.cpp:1 includes ReadFasta.h, which is not part of this model.
  - `getReads` is declared at ReadFastq.hpp:14, the header Mapper.cpp:3 includes. It is missing from ReadFastq.h, the header ReadFastq.cpp:1 includes, and no file defines it.
  - `hasQuality` is declared only in Sequence.h.
  - Sequence.hpp:23 declares a separate two-argument constructor, but no file defines it.

  The model follows the `.cpp` files, and the two getters return the stored vector.
- **Constructors.** Sequence.cpp:1 includes Sequence.hpp, whose two-argument constructor (Sequence.hpp:23) has no definition. The model reads a two-argument call as the three-argument constructor with an empty quality, the default that Sequence.h:9 gives. This is a modelling choice. `MakeSequence` models it with a default argument.

## Model

| member | source | states |
|---|---|---|
| Utils.DetectFileFormat | src/Utils.cpp:24-39 | the result is `FastaFormat` iff the file opens and its first line is non-empty and starts with '>'; it is `FastqFormat` iff that line starts with '@'; everything else, including an unopenable file, an empty file and an empty first line, gives `UnknownFormat` |
| Utils.DetectDependsOnFirstCharOnly | src/Utils.cpp:31-38 | two opened files whose first lines are both empty, or start with the same character, get the same format |
| Utils.LineLength | src/ReadFasta.cpp:14 | the first line of a text ends at its first newline, or at the end of the text when there is none |
| Utils.SplitLinesCons | src/ReadFasta.cpp:14 | `getline` returns a newline-free line followed by '\n' as exactly that line, then continues with the rest |
| Utils.FirstLineStartsWith | src/Utils.cpp:32-35 | a text that starts with a character other than '\n' has a non-empty first line starting with that character |
| Sequences.Sequence.GetId | src/Sequence.cpp:6-8 | the id returned, with the stored sequence and quality, rebuilds the record, so `getId` inverts the constructor's first argument |
| Sequences.Sequence.GetSequence | src/Sequence.cpp:10-12 | the sequence returned, with the stored id and quality, rebuilds the record |
| Sequences.Sequence.GetQuality | src/Sequence.cpp:14-16 | the quality returned, with the stored id and sequence, rebuilds the record |
| Sequences.Sequence.HasQuality | src/Sequence.cpp:18-20 | a record has a quality exactly when it differs from what the two-argument constructor builds from its id and sequence |
| Sequences.Sequence.Print | src/Sequence.cpp:22-27 | the output is the header line ">" + id + "\n", then the sequence, then "\n+\n", the quality and "\n" when there is a quality, or a lone "\n" otherwise; its length is fixed by the three fields |
| Sequences.MakeSequence | src/Sequence.cpp:3-20 | the getters return the constructor's arguments unchanged; `HasQuality` holds iff the quality is non-empty; no length check binds sequence and quality |
| Sequences.PrintThenSplit | src/Sequence.cpp:22-27 | a printed record splits into ">"+id and the sequence, then "+" and the quality when it has one, followed by whatever is printed after it |
| Sequences.PrintLines | src/Sequence.cpp:22-27 | a record prints as exactly those two or four lines; the header always uses '>' |
| Sequences.PrintedDetectsAsFasta | src/Sequence.cpp:23 | any printed record, even one with a quality, is detected as FASTA |
| Fasta.FastaRecordsNamed | src/ReadFasta.cpp:17-26 | every record is emitted under a non-empty id and has no quality |
| Fasta.ReadFasta.constructor | src/ReadFasta.cpp:3 | a new reader holds its file and no records, and is valid |
| Fasta.ReadFasta.Load | src/ReadFasta.cpp:5-27 | `load` appends exactly `ParseFastaFile(file)` to the records already stored, in file order; an unopenable file leaves them unchanged; every stored record keeps a non-empty id and no quality |
| Fasta.ReadFasta.GetSequences | src/Mapper.cpp:32 | `getSequences` returns the stored records, each with a non-empty id and no quality |
| Fasta.EmptyLinesIgnored | src/ReadFasta.cpp:15 | removing empty lines anywhere does not change what is emitted from any loop state |
| Fasta.ParseIgnoresEmptyLines | src/ReadFasta.cpp:15 | a whole file parses the same without its empty lines |
| Fasta.IdsAreNamedHeaders | src/ReadFasta.cpp:16-26 | the ids emitted are the pending id, when non-empty, followed by the rests of the '>' lines that are non-empty, in file order |
| Fasta.ParsedIds | src/ReadFasta.cpp:16-26 | the ids of a file are exactly its named header ids, in order |
| Fasta.DataLinesAccumulate | src/ReadFasta.cpp:23 | non-header lines are appended to the pending sequence in order and without separators |
| Fasta.FirstRecord | src/ReadFasta.cpp:17-26 | with a non-empty pending id a record is emitted; it carries that id, and its sequence starts with the pending sequence |
| Fasta.LeadingLinesPrefixFirstRecord | src/ReadFasta.cpp:17-23 | lines before the first header are kept as a prefix of the first record's sequence |
| Fasta.BareHeaderCarries | src/ReadFasta.cpp:17-26 | from any loop state a bare '>' emits the pending record, if any, and names none itself; its lines go to the next named record, after the pending sequence when no id was pending; after a trailing bare '>' its lines are dropped, since nothing is emitted under an empty id |
| Fasta.BareHeaderAtFileStart | src/ReadFasta.cpp:17-26 | a bare '>' opening the file reads its lines as if they followed the next header |
| Fasta.HeaderWithoutLines | src/ReadFasta.cpp:17-26 | for any pending id, a header followed directly by another header emits the record (id, "") and makes the next header's id pending; at the end of the input the pending id also yields (id, "") |
| Fasta.GenomeIsDataLines | src/Mapper.cpp:16-18 | with no bare header and some named header, the records' sequences concatenated are all data lines concatenated, so no line is lost |
| Fasta.SplitPrintAll | src/Sequence.cpp:22-27 | records without quality printed one after another split into one header line and one sequence line each |
| Fasta.HeaderFirst | src/ReadFasta.cpp:16-21 | a file that opens with a header is read under that header's id with nothing accumulated |
| Fasta.DataLineStep | src/ReadFasta.cpp:22-23 | a sequence line read with nothing accumulated becomes the pending sequence |
| Fasta.FastaPairStep | src/ReadFasta.cpp:16-23 | a header line then a sequence line emit the pending record, if any, and leave the new record pending with that sequence |
| Fasta.ReadsBackFrom | src/ReadFasta.cpp:14-26 | reading printed records emits the pending record, if any, and then exactly those records |
| Fasta.PrintThenParse | src/Sequence.cpp:22-27 | round trip: records without quality, printed and then loaded as FASTA, are recovered exactly |
| Fasta.QualityLinesAsFasta | src/ReadFasta.cpp:14-26 | the four lines of a printed read with a quality load as one FASTA record whose sequence is the sequence, "+" and the quality glued together |
| Fasta.PrintedReadAsFasta | src/Sequence.cpp:23-25 | a printed read with a quality loads as one FASTA record whose sequence has "+" and the quality glued on |
| Fastq.FastqRecordsWellFormed | src/ReadFastq.cpp:24-44 | every emitted read has a non-empty sequence and a non-empty quality of equal length |
| Fastq.ReadFastq.constructor | src/ReadFastq.cpp:3 | a new reader holds its file and no reads, and is valid |
| Fastq.ReadFastq.Load | src/ReadFastq.cpp:5-46 | `load` appends exactly `ParseFastqFile(file)` to the reads already stored, in input order; an unopenable file adds none; every stored read stays well formed |
| Fastq.ReadFastq.GetReads | src/Mapper.cpp:43 | `getReads` returns the stored reads, each with a non-empty sequence and a quality of the same length |
| Fastq.ShortInputNoRead | src/ReadFastq.cpp:23-44 | fewer than four lines never yield a read, because a read needs the header and the three `getline` calls after it to succeed |
| Fastq.FramedAtShift | src/ReadFastq.cpp:14-23 | a record framed in the rest of the file is framed in the whole file, shifted by the lines dropped |
| Fastq.ReadOrigin | src/ReadFastq.cpp:18-44 | every emitted read comes from four consecutive lines: "@"+id, its sequence, a line starting with '+', and its quality |
| Fastq.AcceptedRecord | src/ReadFastq.cpp:23-44 | a record with a non-empty sequence, a '+' separator and a non-empty quality of equal length is emitted with the header's rest as id, whatever the sequence holds and whatever follows the '+' |
| Fastq.RejectedRecordConsumesItsLines | src/ReadFastq.cpp:24-42 | a record rejected at the sequence, separator or quality check loses every line it consumed; scanning resumes after them |
| Fastq.NonHeaderLineDropped | src/ReadFastq.cpp:15-21 | an empty line, or one not starting with '@', in header position is dropped alone |
| Fastq.NoRewindExample | src/ReadFastq.cpp:29-32 | a record missing its '+' line consumes the next header as its separator, so a well-formed record that follows is lost |
| Fastq.WriteThenRead | src/ReadFastq.cpp:14-45 | round trip: well-formed reads written as four-line records load back exactly |
| Fastq.PrintedReadIsNotFastq | src/Sequence.cpp:23-25 | as written, any record whose fields hold no newline, with or without a quality, prints to lines from which the FASTQ reader loads nothing |
| Fastq.PrintIntendedThenRead | src/Sequence.hpp:33-36 | printed with an '@' header, a well-formed read loads back from FASTQ as itself |
| Kmers.Occ | src/KmerIndex.cpp:7-9 | the reference list of occurrences: every listed position is an occurrence below the bound, in strictly ascending order |
| Kmers.OccComplete | src/KmerIndex.cpp:7-9 | every occurrence below the bound is listed by `Occ` |
| Kmers.IndexedAt | src/KmerIndex.cpp:7-9 | after n loop iterations each key holds its old list followed by its occurrences below n; a key is present iff it was before or occurs there |
| Kmers.AddGenomeAt | src/KmerIndex.cpp:5-11 | `indexGenome` keeps every old list as a prefix and appends the key's occurrences in the genome, in ascending order |
| Kmers.Completeness | src/KmerIndex.cpp:7-9 | on a fresh index every start i with i + k <= \|g\| is stored under g[i..i+k] |
| Kmers.Soundness | src/KmerIndex.cpp:7-9 | on a fresh index every stored position p under s satisfies 0 <= p, p + k <= \|g\| and g[p..p+k] == s; lists are non-empty and strictly ascending, hence duplicate-free |
| Kmers.IndexOfSound | src/KmerIndex.cpp:7-9 | after any genomes, every key has length k, every list is non-empty, and every position is an occurrence of its key in one of those genomes |
| Kmers.ShortGenomeLeavesIndex | src/KmerIndex.cpp:6-7 | a genome shorter than k leaves the index unchanged |
| Kmers.TotalPositionsAppend | src/KmerIndex.cpp:9 | one `push_back` adds one stored position in total |
| Kmers.TotalAfterIndexing | src/KmerIndex.cpp:7-9 | n loop iterations add exactly n stored positions |
| Kmers.TotalOnFreshIndex | src/KmerIndex.cpp:6-9 | on a fresh index the total number of stored positions is \|g\| - k + 1 when \|g\| >= k, and 0 otherwise |
| Kmers.KmerIndex.constructor | src/KmerIndex.cpp:3 | a new index for k >= 1 is empty and valid |
| Kmers.KmerIndex.IndexGenome | src/KmerIndex.cpp:5-11 | the new map is `AddGenome(old map, genome, k)`; the index stays valid over the genomes so far; a genome shorter than k changes nothing |
| Kmers.KmerIndex.SearchKmer | src/KmerIndex.cpp:13-19 | returns the stored list when the key is present and the empty list otherwise; it only reads the index |
| Mapping.ConcatenationAppend | src/Mapper.cpp:16-18 | each `genome +=` extends the concatenation by one record's sequence |
| Mapping.Mapper.constructor | src/Mapper.cpp:7 | a new mapper has an empty valid index with the same k, no reads and no mappings |
| Mapping.Mapper.LoadReference | src/Mapper.cpp:9-21 | the genome indexed is the concatenation of the FASTA file's sequences in file order, added to the index |
| Mapping.Mapper.LoadReadsFromDirectory | src/Mapper.cpp:23-55 | only appends: the old reads stay a prefix, followed by each file's reads in listing order; mappings are untouched |
| Mapping.Mapper.MapReads | src/Mapper.cpp:57-67 | the mappings become `MapAll(old mappings, reads, index, k)`; reads and index are unchanged |
| Mapping.EntryIsLookupOrSentinel | src/Mapper.cpp:59-65 | an entry is never empty; it equals the lookup of the read's first min(k, \|sequence\|) characters when that is non-empty; it is [-1] exactly when the lookup is empty |
| Mapping.ShortReadUnmapped | src/Mapper.cpp:59 | a read shorter than k always maps to [-1] |
| Mapping.EntrySound | src/Mapper.cpp:59-62 | every non-sentinel position in an entry is an offset where the read's first k characters occur in an indexed genome |
| Mapping.MapAllKeys | src/Mapper.cpp:58-65 | after mapping, the ids present are the old ones plus those of all reads |
| Mapping.LastReadWins | src/Mapper.cpp:58-65 | with duplicate ids, the last read in order decides the entry |
| Mapping.OtherIdsUntouched | src/Mapper.cpp:58-65 | entries for ids of no read keep their presence and value |
| Mapping.MappedPositionsSound | src/Mapper.cpp:57-67 | end to end, every non-sentinel position stored for a read id is an occurrence of the first k characters of the last read with that id |
| Mapping.ReadsOfFile | src/Mapper.cpp:27-53 | the reads one file yields are `FileReads(file)`: the FASTA reader's records for a FASTA file, the FASTQ reader's reads for a FASTQ file, none otherwise |
| Mapping.DirectoryReadsStep | src/Mapper.cpp:26-54 | one more file of the listing adds its own reads after those of the files before it |
| Mapping.DirectoryReadsAppend | src/Mapper.cpp:26-54 | the reads of a listing are those of its first files followed by those of the rest |
| Mapping.FileWithoutReadsAddsNothing | src/Mapper.cpp:34-49 | a file with no valid reads adds nothing wherever it stands in the listing |
| Mapping.UnknownFileAddsNothing | src/Mapper.cpp:51-53 | a file of unknown format, including one that cannot be opened, adds nothing |
| Mapping.FileReadsConsistent | src/Mapper.cpp:29-50 | each read a file contributes is either a FASTA record with an id and no quality or a well-formed FASTQ read |
| Mapping.LoadedReadsConsistent | src/Mapper.cpp:26-54 | the same holds for every read a directory contributes |

## Left out

- `listFilesInDirectory` (src/Utils.cpp:9-21): it iterates the file system and handles exceptions. The model takes the directory's files as a list in listing order.
- Opening files and `getline` I/O: a file is a list of lines or `CannotOpen`. `detectFileFormat` and the reader in `loadReadsFromDirectory` each open the file; the model assumes both see the same content.
- Console output: the messages on `std::cout` and `std::cerr`, `printIndex`, `printMappings`, `printSequences`, `printReads` and `main`. These only write text, and the map printers iterate an `unordered_map` in unspecified order. `Sequence::print` is kept, as the string it writes.
- The Google Benchmark programs (src/g_benchmark.cpp, src/benchmark_suite.cpp) and the plotting script. They call functions that no file in the program defines.
- `int` arithmetic is modelled with unbounded integers. The overflow of `genome_length - k` and of positions for genomes beyond 2^31 characters is not modelled.
- Kmers.KmerIndex.constructor: it requires k >= 1, as every caller in the program passes. With k == 0 the loop would store "" |g| + 1 times.
- Mapping.Mapper.constructor: it requires k >= 1 for the same reason.
- Strings are sequences of characters, not C++ byte strings. For non-ASCII input the source's positions, `substr` and the length comparison at ReadFastq.cpp:39 count bytes, while the model counts characters.
- The separator check reads `line[0]`. On an empty line that character is '\0', which is not '+', so an empty separator line is rejected; `StartsWith` models this.

## Findings

| source | as written | input that shows it | evidently intended | confidence | as-written member | corrected member |
|---|---|---|---|---|---|---|
| src/Sequence.cpp:23-25 | `print` always writes a '>' header, even for a record with a quality, so a read prints neither as FASTA nor as FASTQ | `Sequence("r", "ACGT", "IIII")` prints ">r", "ACGT", "+", "IIII"; read as FASTQ it yields no read (as for every printed record), and read as FASTA it yields ("r", "ACGT+IIII") | the documentation at src/Sequence.hpp:33-36 says `print` writes FASTA or FASTQ, so a record with a quality should get an '@' header | medium, not executed | Fastq.PrintedReadIsNotFastq | Fastq.PrintIntendedThenRead |
