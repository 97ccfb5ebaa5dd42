# PrimerFlow annotation build, modelled in Dafny

This project models the ingestion core of the PrimerFlow back end: the script
`scripts/build_db.py`. The script fills an annotation database from raw genome
files. The model covers:

- the fixed restriction-enzyme table `ENZYMES`;
- the three streaming annotation parsers:
  - `parse_gff3` (exons);
  - `parse_vcf` (variants);
  - `parse_repeats_rmsk` (RepeatMasker repeats);
- the rolling-window FASTA scanner `scan_restriction_sites`, with its nested
  `process_buffer`;
- the batch loader `insert_in_batches`.

A file is `Option<seq<string>>`: `None` when the path does not exist, otherwise
its lines. A line is given without its terminator. Every consumer strips the
line first, so a trailing `\n` changes nothing (`Parsers.TerminatedLine`,
`Text.StripNewline`). A generator becomes the sequence of what it yields. The database is a
`Table` object whose only state is the list of committed batches.

Modules, one file each:

| file | module | contents |
|---|---|---|
| `text.dfy` | `Text` | The Python string built-ins the script uses: `strip`, `split(sep)`, `join`, `find`, `replace`, `int`, `str`, `upper`, `split()[0]`. Each is a function with the properties the script relies on. |
| `parsers.dfy` | `Parsers` | The three per-line decoders are functions. Each returns `Skip`, `Yield(record)` or `Abort`; `Abort` is an `int()` that raises. One `for line in f` loop method runs the decoders, with the `try` around the whole loop. The decoders' contracts are the row lemmas (`ExonRowDecodes` and the others), which say what a row yields, skips or raises, and `SameColumns` and `TerminatedLine`. The module also has lemmas about the transcript id. |
| `fasta.dfy` | `Fasta` | How a FASTA file splits into named chromosomes. This is the reference reading the scanner is proved against. |
| `sites.dfy` | `Sites` | The enzymes, the sites of a window of a sequence, and the naive whole-chromosome scan. |
| `scaninv.dfy` | `ScanInvariant` | The scanner's loop invariant and the lemmas that carry it across a line, a chunk and a flush. |
| `scanner.dfy` | `RestrictionScan` | `process_buffer` and `scan_restriction_sites` as methods with loops. The body of the line loop is split into one method per branch: header, sequence line, full chunk. |
| `findings.dfy` | `OverlapFinding` | The chunk step exactly as written, and an input where it goes wrong (see Findings). |
| `loader.dfy` | `BatchLoader` | The store, `insert_in_batches` as a method with a loop, and lemmas about the batches it commits. |

Main results:

- Take any enzyme table with non-empty motifs, and any chunk size at least the
  overlap. The named sites the scanner reports are the sites of the naive scan.
  When the file starts with a header, this covers all reported sites. The naive
  scan finds every occurrence, overlapping ones included, of every motif in each
  whole upper-cased chromosome. The two agree as multisets, so nothing is missed
  or reported twice at a chunk boundary. For an overlap of 0 this holds for the
  corrected chunk step, not for the step as written (see Findings).
- Each parser yields the decoded records of the lines before the first line
  whose integer conversion raises, and nothing for a missing file.
- The loader returns the number of records and commits, in order, the records
  in full batches plus one short last batch. It makes `ceil(n / batch_size)`
  commits.

Where the code's behaviour differs from the obvious reading of its intent, the
model follows the code. The one exception is the overlap-0 case of
`buffer[-overlap_len:]`, described under Findings and in the list that follows
it. Elsewhere:

- The RepeatMasker parser has no `#` test.
- A failed `int()` does not skip just that line. It ends the file's stream,
  because the `try` encloses the whole loop.
- `replace("transcript:", "")` removes every occurrence of `transcript:`, not
  only a leading one.
- `attr.split("Parent=")[1]` stops at a second `Parent=` as well as at the next
  `;`.
- No parser checks the range of a coordinate.
- Sequence lines before the first `>` header are scanned as full chunks with
  `current_chrom = None`. The final flush never scans them, because
  `current_chrom` is falsy there.
- A header with no name (`>` alone) raises `IndexError` at
  `line[1:].split()[0]`. The previous chromosome has already been flushed by
  then, and the scan ends there.
- A `batch_size` below 1 commits every record on its own.

## Model

| member | source | states |
|---|---|---|
| Text.StripSpec | scripts/build_db.py:66 | `strip()` removes exactly the leading and trailing whitespace. The result neither starts nor ends with whitespace. It is the slice right after the leading run, and only whitespace follows it. It is empty exactly when the line is all whitespace. |
| Text.Strip | scripts/build_db.py:66 | The result of `strip()` is empty or neither starts nor ends with whitespace. |
| Text.StripNewline | scripts/build_db.py:64-66 | A line's trailing `\n` has no effect on its `strip()`. |
| Text.StripClean | scripts/build_db.py:146 | A string that neither starts nor ends with whitespace is its own `strip()`. |
| Text.Find | scripts/build_db.py:140 | `find(sub, start)` is either -1 or an occurrence at or after `start`, and no occurrence lies between `start` and it. |
| Text.FindAt | scripts/build_db.py:143 | The least occurrence at or after `start` is exactly what `find(sub, start)` returns. |
| Text.ContainsFind | scripts/build_db.py:71 | `sub in s` holds exactly when `find` does not return -1. |
| Text.Split | scripts/build_db.py:66 | `split(sep)` gives at least one piece. The pieces joined with `sep` give back the string. No piece contains `sep`. There is exactly one piece when `sep` does not occur. |
| Text.SplitAtFirst | scripts/build_db.py:66 | Splitting `h + c + tail` on `c`, with no `c` in `h`, gives `h` and then the pieces of `tail`. |
| Text.SplitJoin | scripts/build_db.py:66 | Splitting the join of separator-free columns on a one-character separator returns the columns. |
| Text.Replace | scripts/build_db.py:72 | `replace` leaves a string without the pattern unchanged. |
| Text.ReplaceKeepsOut | scripts/build_db.py:72 | A replacement without `c` never introduces a `c`. |
| Text.ReplaceIsJoinOfSplit | scripts/build_db.py:72 | `s.replace(a, b)` equals `b.join(s.split(a))`: every occurrence is replaced, left to right. |
| Text.ParseInt | scripts/build_db.py:68 | `int(s)` succeeds exactly when three things hold. `s.strip()` is a run of at most 4300 digits, with an optional sign in front; 4300 is CPython's default limit, and leading zeros count toward it. `s` holds none of the information separators U+001C..U+001F: `strip()` removes those four, but `int()` does not skip them. A negative result has a `-` sign. |
| Text.ParseIntPadding | scripts/build_db.py:68 | `int(s)` succeeds exactly when `s` is an integer literal of at most 4300 digits with only the whitespace `int()` skips on either side. That whitespace is what `strip()` drops, minus U+001C..U+001F. |
| Text.ParseIntValue | scripts/build_db.py:68 | Padding `int()` skips, then `""`, `+` or `-`, then at most 4300 digits, then such padding: `int()` returns the value of the digits, negated after `-`. |
| Text.LeadingZeros | scripts/build_db.py:68 | Leading zeros do not change the value of a string of digits. |
| Text.ParseIntCanonical | scripts/build_db.py:68 | `int(p + sign + zeros + str(n) + q) == ±n` for every natural `n`, every run of zeros, every sign `""`, `+` or `-`, and every padding `int()` skips. The digits must be within the 4300 limit. Examples: `" 12"`, `"+20"`, `"007"`, `"-0"`. |
| Text.StripPadded | scripts/build_db.py:66 | `strip()` of a literal with whitespace on both sides is the literal. |
| Text.IntRoundTrip | scripts/build_db.py:68 | `int(str(n)) == n` for every integer `n` of at most 4300 digits. `str(n)` itself raises above that limit. |
| Text.UpperSpec | scripts/build_db.py:136 | `upper()` leaves no lower-case letter. It maps each lower-case letter to its capital and keeps every other character. Upper-casing twice is upper-casing once. |
| Text.UpperSlice | scripts/build_db.py:136 | Upper-casing a slice gives the slice of the upper-cased string. Upper-casing chunk by chunk is the same as upper-casing the whole chromosome. |
| Text.FirstToken | scripts/build_db.py:152 | `split()[0]` fails exactly when the string is all whitespace. Otherwise it is non-empty and no longer than the string. |
| Text.PythonTail | scripts/build_db.py:162 | `s[-k:]` is a suffix of `s`: the whole of `s` for `k = 0`, otherwise the last `k` elements, capped at `len(s)`. |
| Text.FirstTokenSpec | scripts/build_db.py:152 | `split()[0]` does not exist (the indexing raises) exactly when the string is all whitespace. Otherwise it is the maximal non-empty run of non-whitespace after the leading whitespace. |
| Parsers.FirstAbort | scripts/build_db.py:62-75 | The index of the first line whose decoding raises, or the line count: no line before it raises. |
| Parsers.DecodeLines | scripts/build_db.py:57-76 | A missing file yields nothing. Otherwise the loop yields the records of the lines before the first raising line, in line order. |
| Parsers.ParseGff3 | scripts/build_db.py:55-76 | The exon parser yields the stream of the exon decoder over the file. |
| Parsers.ParseVcf | scripts/build_db.py:78-93 | The variant parser yields the stream of the variant decoder over the file. |
| Parsers.ParseRepeatsRmsk | scripts/build_db.py:95-112 | The repeat parser yields the stream of the repeat decoder over the file. |
| Parsers.YieldsAppend | scripts/build_db.py:64-74 | The records of two runs of lines, one after the other, are the records of each run, concatenated. |
| Parsers.StreamStopsAtAbort | scripts/build_db.py:62-76 | When a line raises, the records produced before it are the whole output, and no later line is decoded. |
| Parsers.StreamExtends | scripts/build_db.py:64-74 | Appending lines to a file only extends its stream: a record once produced is never taken back. |
| Parsers.StreamOfCleanFile | scripts/build_db.py:64-74 | When no line raises, the stream is the records of the whole file, one per line index that yields one. |
| Parsers.YieldsCount | scripts/build_db.py:74 | The number of records equals the number of line indices whose line yields a record. |
| Parsers.OneBased | scripts/build_db.py:107-109 | The 1-based inclusive interval keeps the chromosome and the end, and covers the same `rawEnd - rawStart` bases as the 0-based half-open one. |
| Parsers.SameColumns | scripts/build_db.py:65-66 | Each decoder sees a line only through its `#` prefix and its tab-separated columns. |
| Parsers.TerminatedLine | scripts/build_db.py:64-66 | A line read with its trailing `\n` decodes as the line without it, in all three parsers. |
| Parsers.FieldsOfRow | scripts/build_db.py:66 | `line.strip().split('\t')` of a tab-joined clean row gives back its columns. |
| Parsers.ExonRowDecodes | scripts/build_db.py:65-74 | Take a row that does not start with `#`, has at least 9 columns and has `exon` in column 3. Let columns 4 and 5 be any text that `int()` accepts, with values `start` and `end`. The row yields `(column 1, start, end, transcript id of column 9)`. |
| Parsers.ExonRowSkipped | scripts/build_db.py:65-67 | A comment row, a row of fewer than 9 columns, or a row whose column 3 is not `exon` yields nothing. |
| Parsers.ExonRowAborts | scripts/build_db.py:68-76 | An exon row whose column 4 or 5 is not an integer raises. |
| Parsers.VariantRowDecodes | scripts/build_db.py:88-91 | Take a non-comment row of at least 2 columns whose column 2 is any text that `int()` accepts, with value `pos`. It yields `(column 1, pos)`, with no range check. |
| Parsers.VariantRowSkipped | scripts/build_db.py:88-90 | A comment row or a row of fewer than 2 columns yields nothing. |
| Parsers.VariantRowAborts | scripts/build_db.py:91-93 | A variant row whose column 2 is not an integer raises. |
| Parsers.RepeatRowDecodes | scripts/build_db.py:105-110 | Take a row of at least 8 columns whose columns 7 and 8 are any text that `int()` accepts, with values `rawStart` and `rawEnd`. It yields `(column 6, rawStart + 1, rawEnd)`. The 1-based inclusive interval covers the same `rawEnd - rawStart` bases as the 0-based half-open one. There is no `#` test. |
| Parsers.RepeatRowSkipped | scripts/build_db.py:105-106 | A row of fewer than 8 columns yields nothing. |
| Parsers.RepeatRowAborts | scripts/build_db.py:108-112 | A repeat row whose column 7 or 8 is not an integer raises. |
| Parsers.SplitHead | scripts/build_db.py:72 | `s.split(sep)[0]` is `s` up to the first `sep`, or all of `s` when there is none. |
| Parsers.SplitAfterKey | scripts/build_db.py:71-72 | In `a + "Parent=" + tail`, with no `Parent=` in `a`, the key is present and `split("Parent=")[1]` is `tail` up to its own first `Parent=`. |
| Parsers.KeyCutKeepsValue | scripts/build_db.py:72 | Cutting `v + rest` at its first `Parent=` keeps all of `v`, followed by the `;` that starts `rest`, if anything. |
| Parsers.SemicolonHead | scripts/build_db.py:72 | `split(';')[0]` of `v`, or of `v` followed by a `;`, is `v`. |
| Parsers.TranscriptId | scripts/build_db.py:69-72 | A transcript id never contains `;`. It is `unknown` when the column has no `Parent=`. |
| Parsers.ValueOfTail | scripts/build_db.py:72 | After the key, `split("Parent=")[0].split(";")[0]` of `v + rest` is `v`. Here `v` has no `;` and no key, and `rest` is empty or starts with `;`. |
| Parsers.TranscriptIdOfParent | scripts/build_db.py:69-72 | The transcript id of `a + "Parent=" + v + rest` is `v` with every `transcript:` removed. Here `v` has no `;` and no key, and `rest` is empty or starts with `;`. |
| Parsers.DropTranscriptPrefix | scripts/build_db.py:72 | An Ensembl-style `transcript:` prefix is dropped. |
| Sites.MaxMotifLenSpec | scripts/build_db.py:127 | `max(len(m) for m in motifs)` bounds every motif and is the length of one of them. |
| Sites.OverlapLen | scripts/build_db.py:127 | The overlap is never negative for a table of non-empty motifs. It is 0 for an empty table. |
| Sites.OverlapLenSpec | scripts/build_db.py:127 | Every motif fits in `overlap_len + 1` bases, and the longest is exactly that long. |
| Sites.EnzymeTable | scripts/build_db.py:15-20 | The build's table has non-empty motifs and distinct names, and its overlap is 7. |
| Sites.WindowHitsEmpty | scripts/build_db.py:138-141 | A window whose limit is not above its start reports nothing. |
| Sites.EnzymeHitsGap | scripts/build_db.py:141-143 | Offsets where the motif does not start contribute no site. |
| Sites.EnzymeHitsSplit | scripts/build_db.py:140-143 | The sites of one enzyme in two adjacent ranges, concatenated, are its sites in their union. |
| Sites.WindowHitsSplit | scripts/build_db.py:158-162 | Two adjacent windows together report the multiset of sites of their union. |
| Sites.OccursShift | scripts/build_db.py:136-140 | A chunk sees a motif start exactly where the whole sequence has it at the shifted position, wherever the motif fits in the chunk. |
| Sites.EnzymeHitsShift | scripts/build_db.py:140-142 | One enzyme's sites in a chunk, reported with its offset, are its sites in the same window of the whole sequence. |
| Sites.EnzymeHitsMoved | scripts/build_db.py:140-142 | Two sequences whose motif starts agree `g` positions apart report the same sites, once the offset `g` is added. |
| Sites.WindowHitsShift | scripts/build_db.py:139-142 | All enzymes' sites in a chunk, reported with its offset, are the sites of the same window of the whole sequence. |
| Sites.WindowHitsNamed | scripts/build_db.py:142 | Every site of a window carries the window's chromosome. |
| Sites.EnzymeHitsMember | scripts/build_db.py:140-143 | A site is reported for an enzyme in a window exactly when that enzyme's motif starts at an offset `p` inside the window. The site is then `(chrom, name, g + p + 1, g + p + len(motif))`. |
| Sites.WindowHitsMember | scripts/build_db.py:139-143 | A site of a window is exactly such a motif start of one of the enzymes. |
| Sites.ChromSitesMember | scripts/build_db.py:136-143 | The naive scan of a chromosome reports, for each enzyme and each start of its motif in the upper-cased sequence, the site spanning it. It reports nothing else. |
| Sites.ChromSitesBounds | scripts/build_db.py:142 | Every site of a chromosome carries its name and lies within it: `1 <= start <= end <= len`. Its enzyme is in the table, and `end - start + 1` is that enzyme's motif length. |
| Sites.NaiveOfNamed | scripts/build_db.py:152 | Every site of the naive scan carries a chromosome name. |
| Sites.NamedMultiset | scripts/build_db.py:142 | Sites equal as multisets stay equal after the unnamed ones are dropped. |
| Sites.NaiveOfMember | scripts/build_db.py:145-166 | The naive scan of a file reports the sites of each of its chromosomes, and only those. |
| Fasta.HeaderName | scripts/build_db.py:152 | A header has no name exactly when all that follows `>` is whitespace. A name is never empty. |
| Fasta.Chroms | scripts/build_db.py:145-156 | A file has no more chromosomes than lines. |
| Fasta.ChromsNamed | scripts/build_db.py:152 | Every chromosome of the reference split is named by a non-empty header token. |
| Fasta.BodyAppend | scripts/build_db.py:155-156 | Sequence lines followed by more lines contribute their stripped text first, then the sequence of what follows. |
| Fasta.BodyBeforeHeader | scripts/build_db.py:148-156 | A header right after sequence lines ends the sequence. |
| Fasta.ChromsAtHeader | scripts/build_db.py:148-154 | A named header starts a chromosome. Its sequence is the following lines up to the next header. |
| Fasta.BodyAtLine | scripts/build_db.py:155-156 | A sequence line adds its stripped text to the current chromosome's sequence and starts no chromosome. |
| ScanInvariant.StartScan | scripts/build_db.py:131-133 | Before the first line the invariant holds, with nothing read and nothing reported. |
| ScanInvariant.BodyLineReading | scripts/build_db.py:156 | Appending a sequence line to the buffer keeps `global_pos + len(buffer)` equal to the bases read so far. |
| ScanInvariant.BlankLineReading | scripts/build_db.py:146-147 | A blank line leaves the scanner's state as it was. |
| ScanInvariant.ChunkReading | scripts/build_db.py:160-162 | Advancing `global_pos` by `len(buffer) - overlap_len` and keeping the last `overlap_len` bases keeps the offset invariant. |
| ScanInvariant.BufferWindow | scripts/build_db.py:156-162 | The buffer is always the window of the chromosome's sequence that starts at `global_pos`. |
| ScanInvariant.ChunkIsWindow | scripts/build_db.py:138-142 | A chunk's sites before its limit are exactly the sites of the same window of the whole chromosome. Either the chunk is the last one, or the limit leaves room for the longest motif. |
| ScanInvariant.ReportWindow | scripts/build_db.py:159 | Reporting the sites of the next window extends what has been reported to every site starting before the new `global_pos`. |
| ScanInvariant.ChunkStep | scripts/build_db.py:158-162 | A full-buffer step keeps both halves of the loop invariant. |
| ScanInvariant.FlushReading | scripts/build_db.py:149-165 | At a header or at the end of the file, the buffer is the tail of the whole chromosome. |
| ScanInvariant.FlushReported | scripts/build_db.py:149-166 | Flushing the buffer as a last chunk completes the chromosome's sites. Sequence read before any header stays unnamed. |
| ScanInvariant.FlushPreamble | scripts/build_db.py:133-149 | Sites of sequence before the first header have no name, and there are none when the file has no such sequence. |
| ScanInvariant.FlushChrom | scripts/build_db.py:149-150 | A chromosome whose sites are all reported joins the finished ones. |
| ScanInvariant.OpenChrom | scripts/build_db.py:152-154 | A new chromosome starts with `buffer = ""`, `global_pos = 0` and none of its sites reported. |
| ScanInvariant.HeaderReading | scripts/build_db.py:148-154 | After a named header the scanner reads that chromosome from its first base. |
| ScanInvariant.Conclude | scripts/build_db.py:145-167 | When the file ends, or a nameless header ends it, the named sites reported equal the naive scan as multisets. They equal all sites reported when the file starts with a header. |
| RestrictionScan.MotifHits | scripts/build_db.py:140-143 | The `find` loop for one enzyme yields, in order, the site of every start of its motif before the limit. |
| RestrictionScan.MotifStep | scripts/build_db.py:141-143 | One turn of the `find` loop adds the site at `pos`, moves past it, and stays within the limit. |
| RestrictionScan.FoundNone | scripts/build_db.py:141 | Once `find` returns -1 or a position past the limit, no site is left before the limit. |
| RestrictionScan.ProcessBuffer | scripts/build_db.py:135-143 | `process_buffer` yields the sites of every enzyme, in table order, whose motif starts before `len(buf)` (last chunk) or `len(buf) - overlap_len` (otherwise). |
| RestrictionScan.ScanWindow | scripts/build_db.py:135-166 | A buffer that is a window of the chromosome yields exactly the chromosome's sites in that window, or up to the end for the last chunk. |
| RestrictionScan.ScanRestrictionSites | scripts/build_db.py:117-170 | A missing file yields nothing. Otherwise the named sites reported equal, as a multiset, the naive scan of every chromosome in the file. This holds for every chunk size at least the overlap. It covers all sites when the file starts with a header. |
| RestrictionScan.ScanLine | scripts/build_db.py:145-162 | One line keeps the loop invariant, or ends the scan with the final result. |
| RestrictionScan.ReadHeader | scripts/build_db.py:148-154 | A header flushes the chromosome. A header with no name ends the scan with the final result. Otherwise the named chromosome is opened with `buffer = ""` and `global_pos = 0`. |
| RestrictionScan.FeedLine | scripts/build_db.py:146-162 | A blank line changes nothing. A sequence line is appended, and afterwards the buffer is shorter than the chunk size or holds just the overlap. |
| RestrictionScan.ReportChunk | scripts/build_db.py:158-162 | A full buffer reports its sites, advances `global_pos` by `len(buffer) - overlap_len`, keeps the last `overlap_len` bases, and keeps the loop invariant. For an overlap of at least 1 the kept bases are exactly `buffer[-overlap_len:]`. |
| RestrictionScan.ScanChunk | scripts/build_db.py:159 | A full buffer's sites are the chromosome's sites from `global_pos` up to the new `global_pos`, where the overlap starts. |
| RestrictionScan.FlushChromosome | scripts/build_db.py:149-166 | The last chunk of a named chromosome is scanned to its end, and the chromosome counts as finished. |
| RestrictionScan.ScanGenome | scripts/build_db.py:117-127 | With the build's table and the default chunk size of 1000000, the scan equals the naive scan as above. |
| OverlapFinding.OverlapZeroReportsPastTheEnd | scripts/build_db.py:158-162 | Take the one-enzyme table `X = "A"` (overlap 0), chunks of 2, and the lines `>c`, `AA`, `AA`. The chunk step as written reports `X` at 6..6, which the 4-base chromosome does not have. |
| BatchLoader.Table.CommitBatch | scripts/build_db.py:181-187 | `executemany` followed by `commit` appends one batch and changes nothing else. |
| BatchLoader.EffectiveBatchSize | scripts/build_db.py:180 | The least non-empty batch length that passes `len(batch) >= batch_size`: the test passes at it and fails one record earlier. |
| BatchLoader.FlushTest | scripts/build_db.py:180 | A batch of `k >= 1` records passes the test exactly when it has at least `EffectiveBatchSize` records. |
| BatchLoader.InsertInBatches | scripts/build_db.py:175-189 | Returns the number of records. Commits exactly the batches of the records, in order. The rows stored grow by exactly the records. |
| BatchLoader.BatchesFullStep | scripts/build_db.py:180-184 | A full batch after `full` full ones extends the committed batches by it. |
| BatchLoader.BatchesLastStep | scripts/build_db.py:185-188 | The short last batch completes the batches of all records. |
| BatchLoader.BatchesAppend | scripts/build_db.py:178-184 | Batching whole batches of records and then the rest gives the batches of the whole. |
| BatchLoader.BatchesCons | scripts/build_db.py:180-184 | Once `batch_size` records are in, the first batch is committed and batching starts again with the rest. |
| BatchLoader.BatchesHead | scripts/build_db.py:180 | The first batch of at least `batch_size` records holds the first `batch_size`. |
| BatchLoader.FlattenAppend | scripts/build_db.py:181-186 | The rows of two lists of batches are the rows of each, concatenated. |
| BatchLoader.FlattenBatches | scripts/build_db.py:175-189 | Concatenating the committed batches gives back the records, in order. |
| BatchLoader.BatchSizes | scripts/build_db.py:180-188 | Every commit but the last holds exactly `batch_size` records. The last holds between 1 and `batch_size`. |
| BatchLoader.BatchCount | scripts/build_db.py:175-189 | There are `ceil(n / batch_size)` commits, and none exactly when there are no records. |
| BatchLoader.BatchCountBounds | scripts/build_db.py:180-188 | `k` commits hold more than `(k - 1) * batch_size` and at most `k * batch_size` records. |
| BatchLoader.BatchAt | scripts/build_db.py:179-184 | Commit `j` holds records `j * batch_size` up to `(j + 1) * batch_size`, cut at the end. |
| BatchLoader.LoadedRows | scripts/build_db.py:175-189 | After loading, the store holds the rows it held before, followed by the records. |

## Left out

- File access is not modelled: `os.path.exists`, `open` and `gzip.open` (with the `.gz` test), and UTF-8 decoding. A file is given as `None` or as its lines.
- The database is not modelled: `get_db_connection`, `init_schema`, the SQL statements, the cursor and `main`. The store is the list of committed batches.
- The progress messages (`print`) are left out.
- Exceptions other than the two the code evidently expects are not modelled: I/O and decoding errors. The two it expects are a failed `int()` in the parsers and the `IndexError` of a nameless header in the scanner.
- `Text.ParseInt`: accepts surrounding whitespace other than U+001C..U+001F, an optional sign and ASCII digits only. Python's `int()` also takes `_` separators and non-ASCII digits. On such fields the model ends the stream where Python yields a record.
- `Text.IntRoundTrip`: stated only for integers of at most 4300 digits, because Python's `str(n)` raises beyond that limit.
- `Text.ParseInt`: the digit limit is fixed at 4300. That is CPython's default since 3.11 and in the 3.7.14, 3.8.14, 3.9.14 and 3.10.7 security releases. Older interpreters have no limit, and `sys.set_int_max_str_digits` or `PYTHONINTMAXSTRDIGITS` can change it. Both are outside the model.
- `Text.Upper`: upper-cases ASCII letters only. A FASTA file with non-ASCII lower-case letters would compare differently.
- RestrictionScan.ReportChunk: keeps `buffer[len(buffer) - overlap_len:]`. This is Python's `buffer[-overlap_len:]` for every overlap of at least 1. At overlap 0 (every motif one base long) Python keeps the whole buffer and the model keeps none of it. For such tables the main result is about this corrected step. The step as written is `OverlapFinding.ChunkAsWritten` (see Findings).
- `Text.Split`: takes only a non-empty separator, which is all the code uses (`'\t'`, `"Parent="`, `";"`).
- RestrictionScan.ScanRestrictionSites: requires `chunk_size >= overlap_len`. For a smaller chunk size, `len(buffer) - overlap_len` is negative and `global_pos` moves backwards, so the result is not the naive scan. The callers use the default of 1000000.
- RestrictionScan.ScanRestrictionSites: requires non-empty motifs. `find("")` matches everywhere, and the build's table has no empty motif.
- RestrictionScan.ScanRestrictionSites: states the result as a multiset, not its order. The source reports chunk by chunk, and within a chunk enzyme by enzyme.
- RestrictionScan.ScanRestrictionSites: does not compare the sites of sequence before the first header (chromosome `None`) with a reference. It proves only that they are unnamed, and that they do not exist when the file starts with a header.
- The scanner's generators are consumed eagerly. This is the same thing here, because each `yield from process_buffer` finishes before `buffer`, `global_pos` or `current_chrom` change.
- `insert_in_batches` consumes a sequence, not a lazy generator. The interleaving of parsing and committing is not modelled.

## Findings

| source | as written | input that shows it | evidently intended | confidence | as-written member | corrected member |
|---|---|---|---|---|---|---|
| scripts/build_db.py:162 | `buffer = buffer[-overlap_len:]` keeps the whole buffer when `overlap_len` is 0, because `[-0:]` is `[0:]`. The next chunk then rescans those bases at shifted coordinates. | An enzyme table whose only entry is `X = "A"` (overlap 0), `chunk_size = 2`, and FASTA lines `>c`, `AA`, `AA`. The second chunk reports `X` at 6..6 on a chromosome of 4 bases. | Keep no bases when the overlap is 0, so that each base is scanned once. | not executed | OverlapFinding.OverlapZeroReportsPastTheEnd | RestrictionScan.ReportChunk |
