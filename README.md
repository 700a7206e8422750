# iprimer `design`: a verified model of the FASTA index, the region read and the result grouping

`iprimer design <genome.fasta> <loci.bed>` designs PCR primers around each
locus of a BED file. The script `primer_design.py` works in four steps:

1. It indexes the genome in one pass of `readline` calls, keeping a running
   character offset. For every header line it records the offset just past
   that line, and it takes the line width from the second physical line.
2. For every BED line it splits the line into fields and widens the locus by
   `flank + primer_range` on each side. It then turns residue coordinates
   into file offsets (`p // w * (w + 1) + p % w`, less one for the start),
   seeks, reads and deletes all whitespace.
3. It builds the primer3 sequence arguments: the template, the included
   region and the two OK regions.
4. It groups primer3's result dictionary into a table of lists, one column
   per returned pair.

This project models those steps in Dafny and proves what they compute.

- **The genome file** is a `string`; `readline` is the slice up to the next
  `'\n'`, and `seek` plus `read` is a slice taken from an absolute position.
- **The indexing loop** is a method with loop invariants (`FastaIndex.BuildIndex`).
  It is proved equal to a specification over the file's lines: `Lines`, `Index`
  and `LineWidth`. Lemmas about that specification state which keys the index
  holds, which offsets it stores, and where those offsets fall in the file.
- **The offset arithmetic and the read** are functions (`Extraction`). For a
  sequence body wrapped at a uniform width, lemmas state exactly which
  residues come back.
- **The per-locus loop** is a method (`Design.DesignLoci`). It is proved equal
  to a left fold `Run` of one step per BED line. The step stops at the first
  exception, as the script does.
- **primer3** is a function parameter (the *oracle*) from the request to an
  answer.
- **The grouping loops** are a method (`ResultTable.GroupResults`) proved
  equal to a map `Collect` over the sequence of appends they perform.

Every exception the modelled code can raise is a `Fault`, produced in the
order Python evaluates the code:

- a missing field (`IndexError`);
- a field that `int()` rejects (`ValueError`);
- a sequence the index does not hold (`KeyError`);
- a line width that was never set (`NameError`);
- a line width of 0 (`ZeroDivisionError`);
- a negative seek (`ValueError`);
- a table that was never built, at line 120 (`NameError`).

The table variables of lines 106-107 are assigned only when primer3 returns
pairs. A later locus for which it returns none therefore writes the previous
locus's table again, under its own name (`Design.ZeroPairsRepeatsTable`);
only on the first locus that writes anything is the table unset.

On a missing sequence the code does not carry on with the next locus: the
`KeyError` at line 64 is not caught and ends the script. The loop model
follows the code (`Design.MissingSequenceStops`).

A BED interval is 0-based and end-exclusive, so the evident intent of the
read is the residues `[start, end)`. The code differs: because of the
`- 1` at line 64, it returns `[start - 1, end)` unless `start` begins a line.
The model follows the code. The discrepancy and a corrected read are under
"Findings".

## Model

| member | source | states |
|---|---|---|
| FastaIndex.ReadLine | primer_design.py:34 | `readline` at a position returns the text up to and including the next `'\n'`, or to the end of the file; it is empty exactly at the end of the file |
| FastaIndex.LinesShape | primer_design.py:33-35 | every line the loop reads is nonempty, holds no `'\n'` before its end, and every line but the last ends with `'\n'` |
| FastaIndex.FlattenLines | primer_design.py:33-39 | the lines read, one after the other, are the whole file: no character is lost or added |
| FastaIndex.HeaderName | primer_design.py:41 | the key of a header holds no whitespace and neither starts nor ends with `>` |
| FastaIndex.HeaderNameIsFirstToken | primer_design.py:41 | the key is the header's first whitespace-separated token with `>` stripped from both ends |
| FastaIndex.HeaderNameStripsBothEnds | primer_design.py:41 | the header `>>a>` is filed under `a` |
| FastaIndex.HeaderNameOfLoneMarker | primer_design.py:41 | the header `> x` is filed under the empty name |
| FastaIndex.IndexHasHeader | primer_design.py:40-42 | the name of every header line is a key of the index |
| FastaIndex.IndexKeyHasHeader | primer_design.py:40-42 | every key of the index is the name of some header line (the lemma returns that line) |
| FastaIndex.IndexKeys | primer_design.py:40-42 | a name is a key of the index if and only if some header line carries it |
| FastaIndex.IndexValue | primer_design.py:39-42 | the offset stored under a name is the one just past the last header line with that name; later headers overwrite earlier ones |
| FastaIndex.OffsetsIncrease | primer_design.py:39 | the offsets after lines i < j strictly increase in file order |
| FastaIndex.IndexSize | primer_design.py:42 | the index has at most as many keys as the file has header lines |
| FastaIndex.HeaderOffsetInFile | primer_design.py:39-42 | a stored offset is a position in the file; the header line ends right before it, with its `'\n'` or with the file |
| FastaIndex.BuildIndex | primer_design.py:28-46 | after the loop, `count` is the number of lines and `seek_value` the file length; `faidx` is `Index` of the file's lines; `base_per_line` is the length of physical line 2 less one, and it stays unset when the file has fewer than two lines |
| Strings.Split | primer_design.py:55 | `split()` returns nonempty tokens without whitespace |
| Strings.StripSpace | primer_design.py:55 | `strip()` leaves no whitespace at either end and does not change the tokens of `split()` |
| Strings.JoinSplit | primer_design.py:67 | `"".join(text.split())` is `text` with every whitespace character deleted |
| Strings.Strip | primer_design.py:41 | `strip(c)` is a slice of the text with only runs of `c` cut off its two ends; it leaves no `c` at either end and is empty exactly when the text is made of `c` alone |
| Strings.StripIdempotent | primer_design.py:41 | stripping `c` a second time changes nothing |
| Strings.ContainsIsOccurrence | primer_design.py:112 | `sub in s` holds if and only if `sub` occurs at some position of `s` |
| Strings.RemoveAllIdentity | primer_design.py:113 | `replace(pat, "")` leaves the key unchanged if and only if `pat` does not occur in it |
| Strings.RemoveAllFirst | primer_design.py:113 | `replace` deletes the first occurrence of the pattern and keeps the text before it |
| Strings.ParseIntOfIntToString | primer_design.py:57-61 | `int(str(i)) == i` for every integer |
| Strings.NatToStringInjective | primer_design.py:109-110 | `str` gives different numbers different strings |
| PrimerArgs.ParseLocus | primer_design.py:55-61 | a BED line parses exactly when its first six fields exist and fields 1, 2, 4 and 5 are integers; otherwise the fault names the first bad field in reading order; on success the window is the locus widened by `flank + primer_range` on each side, so `end - start` is the locus length plus `2 * (flank + primer_range)` |
| PrimerArgs.ParseLocusOfFields | primer_design.py:55-61 | a line whose six fields are well formed parses to the widened locus of those fields |
| PrimerArgs.ParseLocusOfRecord | primer_design.py:55-61 | a record written out tab-separated, with any further fields and a line terminator, parses back to its widened locus |
| PrimerArgs.SequenceArgs | primer_design.py:71-76 | the included region runs from 0 to one short of the template's end; the left OK region is `(1, primer_range)`; the right one has length `primer_range` and ends exactly at `len(seq)` |
| PrimerArgs.OkRegionsFit | primer_design.py:75 | both OK regions lie inside the template, left before right, if and only if `2 * primer_range + 1 <= len(seq)` |
| PrimerArgs.LocusRequest | primer_design.py:71-76 | the request carries the locus name, the template and its regions, and the single product size range `[product_min, product_max]` of line 101 |
| Extraction.FirstResidue | primer_design.py:64 | the first residue returned is `start` when `start % w == 0`, and `start - 1` otherwise |
| Extraction.CharOffsetShift | primer_design.py:64-65 | the character offset of residue p is p plus the number of line terminators before it, `p div w` |
| Extraction.SeekSpan | primer_design.py:64-65 | `seek_end - seek_start == (end - start) + 1 + (end div w - start div w)` |
| Extraction.ReadAt | primer_design.py:66-67 | `seek` then `read(n)`: the slice from the position, clamped to the file; a negative `n`, or one past the end, reads to the end of the file |
| Extraction.Extract | primer_design.py:64-67 | the faults come in Python's order: unknown sequence, unset width, zero width, negative seek; otherwise the result is the whitespace-free text in `[seek_start, seek_end)`, and it holds no whitespace |
| Extraction.WrapSlice | primer_design.py:64-65 | in a body wrapped at `w`, the text between the offsets of residues a and b, stripped of whitespace, is exactly residues a to b |
| Extraction.WrapTerminator | primer_design.py:64 | just before the offset of a residue that begins a line lies a `'\n'` |
| Extraction.ExtractWrapped | primer_design.py:64-67 | for a window inside a wrapped body, the script returns residues `[start - 1, end)` when `start % w != 0`, and `[start, end)` otherwise (start 0 included) |
| Extraction.ExtractWrappedLength | primer_design.py:64-67 | the script returns `end - start + 1` residues in the middle of a line and `end - start` at a line start |
| Extraction.ExtractWhole | primer_design.py:64-67 | the window from 0 to the sequence's length returns the whole sequence |
| Extraction.ExtractOverlaps | primer_design.py:64-67 | two adjacent windows split at a residue in the middle of a line return one residue more than the window that spans both |
| Extraction.ExampleMidLine | primer_design.py:64-67 | on `>c / ACGT / ACGT` the window 2 to 4 returns `CGT` |
| Extraction.ExampleLineStart | primer_design.py:64-67 | on the same genome the window 4 to 6 returns `AC` |
| Extraction.ExampleWideLines | primer_design.py:64-67 | on `>chr1 / ACGTACGTAC / GTACGTACGT` the window 5 to 8 returns `ACGT` |
| Extraction.ExtractCorrected | primer_design.py:64-67 | the read without the `- 1`: the same faults in the same order, the whitespace-free text from the offset of `start` |
| Extraction.ExtractCorrectedWrapped | primer_design.py:64-67 | the corrected read of a window inside a wrapped body returns exactly residues `[start, end)` |
| Extraction.ExtractCorrectedAdditive | primer_design.py:64-67 | corrected reads of adjacent windows concatenate to the read of the window spanning both, of length `b - a` |
| Extraction.ExtractAgreesIffLineStart | primer_design.py:64 | the script's read and the corrected read agree if and only if `start % w == 0` |
| Extraction.ExampleCorrected | primer_design.py:64-67 | the corrected read of the window 2 to 4 on `>c / ACGT / ACGT` is `GT` |
| Extraction.ExampleWideCorrected | primer_design.py:64-67 | the corrected read of the window 5 to 8 on `>chr1 / ACGTACGTAC / GTACGTACGT` is `CGT` |
| ResultTable.PairNames | primer_design.py:107-109 | `index` after n rounds has length n, and entry i is `"PRIMER_PAIR_" + str(i)` |
| ResultTable.PairNamesDistinct | primer_design.py:109 | different pairs get different column names |
| ResultTable.CollectSnoc | primer_design.py:114-119 | one append: a new tag starts with the one value, an existing tag gains the value at its end, every other tag keeps its list |
| ResultTable.CollectIsValuesFor | primer_design.py:111-119 | the table holds a tag if and only if some append used it, and its list is the values appended under it, in order |
| ResultTable.CollectGrows | primer_design.py:114-119 | later appends never remove a tag and only extend its list |
| ResultTable.RoundAppendsCount | primer_design.py:111-113 | round i appends one value per key that contains `str(i)` |
| ResultTable.AppendsCount | primer_design.py:108-119 | the number of appended values is the sum over the rounds of the keys matching `str(i)` |
| ResultTable.RoundAppendsMember | primer_design.py:111-119 | every key matching round i has its value appended under its tag |
| ResultTable.KeyWithoutDigitsNeverMatches | primer_design.py:105-112 | a key without digits, such as `PRIMER_PAIR_NUM_RETURNED`, takes part in no round |
| ResultTable.GroupResults | primer_design.py:105-119 | the loops build `index == PairNames(N)` and the table `Collect` of all appends of rounds 0 to N - 1; no rounds when N is negative |
| Design.Prepare | primer_design.py:55-101 | a BED line yields the parse fault, or the read fault, or else the request built from the widened locus and the text read for it |
| Design.RunStops | primer_design.py:54-122 | once a fault occurs the rest of the lines change nothing |
| Design.RunOutputs | primer_design.py:54-122 | at most one table per BED line; one for every line if and only if no fault occurs |
| Design.StepOutputs | primer_design.py:104-121 | a step writes nothing, or writes one table named after its request, grouped from its own answer when primer3 returned pairs |
| Design.StepFault | primer_design.py:54-120 | a faulting step writes nothing; its fault is the line's own, or the unset table when primer3 returned no pair before any table existed |
| Design.RunOutputIsLocus | primer_design.py:104-121 | table k belongs to line k: it carries that line's request name and, when primer3 returned pairs, the table grouped from that answer |
| Design.RunCurrent | primer_design.py:105-121 | the table variables hold the last table written, and are unset exactly while no table has been written |
| Design.ZeroPairsRepeatsTable | primer_design.py:105-121 | a later line for which primer3 returns no pair writes the table and index of the line before it again, under its own name |
| Design.RunFault | primer_design.py:54-120 | the fault that stops a run comes from the line after the last table written: its parse or read fails, or primer3 returned no pair before any table was built |
| Design.PrepareName | primer_design.py:59-72 | a request carries the name field of its BED line |
| Design.OutputNamedAfterLocus | primer_design.py:59-121 | every table written is named after the fourth field of its own BED line |
| Design.MissingSequenceStops | primer_design.py:64 | a line naming a sequence the index lacks stops the script with a lookup fault after the tables of the lines before it |
| Design.DesignLoci | primer_design.py:53-122 | the loop method writes exactly the tables of `Run`, and stops with the same fault |
| Design.GenomeSetting | primer_design.py:28-46 | the setting the loop reads holds the index and the line width of the genome's lines |
| Design.DesignPrimers | primer_design.py:28-122 | indexing then looping yields exactly `Run` over the genome's own index and width |
| Design.OkRegionsInGenome | primer_design.py:64-76 | for a wrapped body, the template is residues `FirstResidue(start)` to `end`; the right OK region is the window's last `primer_range` residues; the left one starts one residue after the template's first |
| Design.PrepareCorrected | primer_design.py:55-101 | as `Prepare`, with the corrected read |
| Design.CorrectedRegionsInGenome | primer_design.py:64-76 | with the corrected read the template is exactly the widened window, and the OK regions sit at its two ends |

## Left out

- Command-line parsing with `docopt` (lines 19, 24, 49-50) is not modelled. The genome text, the lines of the BED file, `flank` and `primer_range` are parameters.
- The call to `primer3.bindings.designPrimers` (line 104) is a function parameter `oracle`. Its answer is the result dictionary as (key, value) pairs in iteration order, plus the number stored under `PRIMER_PAIR_NUM_RETURNED`. The model does not tie that number to the dictionary entry of the same name.
- The floating-point melting-temperature options and the other `global_args` entries (lines 78-100) are not modelled. The product size range of line 101 is kept. `float(args['--min_TM'])` and `float(args['--max_TM'])` run inside the loop after the read, so a malformed option raises `ValueError` on the first line that gets that far; the model has no such fault.
- Design.RunFault: the faults it lists (the line's parse or read fault, or the unset table) are the only ones only because two fault sources are not modelled: the `ValueError` of `float()` at lines 78-79, and an exception raised by primer3 itself on arguments it rejects (for instance an OK region outside a short template), since the oracle is a total function.
- The pandas `DataFrame`, its transpose and the CSV file (lines 120-121) are modelled only as an `Output` record: the name, the table and the index. The model does not capture errors pandas raises when a column's length differs from the index.
- Opening and closing files, and the reading of the BED file with `readlines` (lines 32, 46, 51-53, 122), are not modelled.
- Text-mode newline translation is not modelled: a genome with `"\r\n"` terminators counts differently in Python.
- Unicode is not modelled: the characters are taken as ASCII for `isspace`, and `int()`'s acceptance of non-ASCII digits is not modelled. `seek` (line 66) takes a byte position while `len(line)` (line 39) counts characters, so the offsets in `FastaIndex.Index`, `Extraction.SeekStart` and `Extraction.SeekEnd` match Python only for a genome of single-byte (ASCII) characters.
- The file cursor between loci is not modelled. Every read seeks to an absolute position, so the cursor does not affect the result.
- Design.RunOutputs and the other loop lemmas are stated for any per-line stage. The script's own stage is `Preparer(s)`; Design.OutputNamedAfterLocus and Design.MissingSequenceStops specialise the lemmas to it.

## Findings

| source | as written | input that shows it | evidently intended | confidence | as-written member | corrected member |
|---|---|---|---|---|---|---|
| primer_design.py:64 | `seek_start` subtracts 1 from the offset of `start`. In the middle of a line the read then begins one residue before the window; at a line start the `- 1` lands on the previous `'\n'`, which is stripped. The number of residues returned therefore depends on `start % base_per_line`, and a template starting mid-line gains one residue of left flank. | genome `>chr1\nACGTACGTAC\nGTACGTACGT\n`, window start 5, end 8: the read is `ACGT` | the residues `[start, end)`, here `CGT`, for every start | not executed | Extraction.ExampleWideLines, Extraction.ExtractOverlaps, Extraction.ExtractAgreesIffLineStart | Extraction.ExtractCorrectedWrapped, Extraction.ExtractCorrectedAdditive, Design.CorrectedRegionsInGenome |

The corrected read is `Extraction.ExtractCorrected`, and the per-line stage that uses it is `Design.PrepareCorrected`. The loop lemmas of `Design` are stated for any stage, so they hold for `line => PrepareCorrected(s, line)` too. `Design.DesignLoci` and `Design.DesignPrimers` keep the script's own read, since they model the program as it runs.
