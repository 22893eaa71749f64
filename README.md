# Patent abstract extraction: a verified model

`patent_abstract_extract.py` builds, for every USPTO grant file, a dictionary
that maps a patent number to its title and abstract. It then merges the monthly
dictionaries into one dictionary per year. This project models its core in
Dafny:

- **`splitter`**: cutting a list into `chnks` roughly equal slices. The model
  uses exact integer rounding and covers the two error cases.
- **The record-boundary scan** shared by the three parsers. The record marker
  (`PATN`, `<PATDOC`, `<us-patent-grant`) is a parameter.
- **`extPatAbs7601`**, the parser of the 1976-2001 flat files. It handles the
  `WKU`/`TTL`/`ABST` tags, the `num[1:-1]` number rule and the `PAL`/`PAR`
  clean-up of the abstract. The last number and title are carried from one
  record to the next, as in the source, so a record that lacks them reuses
  stale values. A first record without them raises `UnboundLocalError`.
- **`extPatAbs0204` / `extPatAbs0514`**, the XML parsers. The model covers the
  leading-zero rule, the "NULL" abstract and the exceptions a record can raise.
  What the XML parser finds in a record is a function parameter.
- **`multi_collapseYears`**. It selects the monthly outputs by name, sorts
  them, groups them by the `x[6:10]` year token and merges them with
  `dict.update`. The name slices the three workers use are modelled too.

The modules are:

- `Results`: Option and Result.
- `Seqs`: concatenation.
- `Text`: Python's `startswith`, `strip`, `re.sub(tag + '\s+', '')`, `' '.join` and `unicode(..., errors='ignore')`.
- `Splitter`
- `Records`
- `Patents`: the entry type and the fold of `update`.
- `FlatFile` and `FlatFileFacts`
- `XmlRecords` and `XmlRecordsFacts`
- `Collapse`

Each loop of the source is a method. The method is proved equal to a
specification function, and the lemmas are stated about that function.

Three behaviours of the source are easy to misread. The model keeps them as written:

- A flat-file number `012345678` becomes `1234567`. `num[1:-1]` drops the leading zero and also the last character.
- A flat-file abstract runs from the line after `ABST` to the end of the record. Lines with other field tags after it are part of the abstract.
- With exact rounding and `0 < chnks <= len`, no slice of `splitter` is empty.

## Model

| member | source | states |
|---|---|---|
| Text.TrimLeft | patent_abstract_extract.py:46 | the result is a suffix of the input, everything dropped is whitespace, and it does not start with whitespace |
| Text.TrimRight | patent_abstract_extract.py:46 | the result is a prefix of the input, everything dropped is whitespace, and it does not end with whitespace |
| Text.Strip | patent_abstract_extract.py:46 | `strip()` leaves no whitespace at either end, and is empty exactly when the line is all whitespace; its value is given by `Text.StripOf` |
| Text.TrimRightOf | patent_abstract_extract.py:46 | `rstrip` of a core not ending in whitespace, followed by whitespace, is exactly that core |
| Text.TrimLeftOf | patent_abstract_extract.py:46 | `lstrip` of whitespace followed by a core not starting with whitespace is exactly that core |
| Text.StripOf | patent_abstract_extract.py:46 | `strip()` of whitespace + core + whitespace (such as a line with its newline) is exactly the core, for every core without whitespace at its ends |
| Text.StripUnchanged | patent_abstract_extract.py:51 | a string with no whitespace at its ends is unchanged by `strip()` |
| Text.StripIdempotent | patent_abstract_extract.py:59 | stripping twice is stripping once |
| Text.SpaceRun | patent_abstract_extract.py:47 | the length of the leading `\s+` run: all whitespace, and maximal |
| Text.RemoveTag | patent_abstract_extract.py:47 | `re.sub(tag + '\s+', '', s)` never lengthens the string |
| Text.RemoveTagAbsent | patent_abstract_extract.py:57-58 | with no match of the pattern, `re.sub` returns the string unchanged |
| Text.RemoveTagField | patent_abstract_extract.py:47 | on `tag` + whitespace + value, the substitution leaves exactly the value |
| Text.SpaceRunPrefix | patent_abstract_extract.py:47 | the `\s+` run of whitespace followed by a non-space is exactly that whitespace |
| Text.JoinSpace | patent_abstract_extract.py:60 | joining no lines gives the empty string, and joining a single line gives that line |
| Text.JoinSpaceAppend | patent_abstract_extract.py:60 | joining two nonempty lists of lines is joining each, with exactly one space between: the lines appear in order, separated by single spaces |
| Text.JoinSpaceAscii | patent_abstract_extract.py:60-61 | joining ASCII lines with spaces gives ASCII |
| Text.DecodeIgnore | patent_abstract_extract.py:53 | decoding with errors ignored keeps only ASCII, never lengthens, and leaves ASCII text unchanged |
| Splitter.Split | patent_abstract_extract.py:15-23 | raises exactly when `chnks > len` (or `chnks == 0`); negative `chnks` gives `[]`; otherwise `chnks` slices that concatenate back to the list, slice `i` bounded by `round(i*L/C)` and `round((i+1)*L/C)`, each `L//C` or `L//C + 1` long |
| Splitter.Boundary | patent_abstract_extract.py:20-22 | the slice boundary is `i*L/C` rounded to the nearest integer, halves up: it lies within one half of the exact quotient |
| Splitter.BoundaryMonotone | patent_abstract_extract.py:22 | slice boundaries never decrease |
| Splitter.BoundaryEnds | patent_abstract_extract.py:20-22 | the first boundary is 0 and the last is the list length |
| Splitter.BoundaryInRange | patent_abstract_extract.py:22 | every boundary lies within the list |
| Splitter.BoundaryStep | patent_abstract_extract.py:20-22 | consecutive boundaries are `L//C` or `L//C + 1` apart, which is positive when `C <= L` |
| Splitter.Chunk | patent_abstract_extract.py:22 | slice `i` has `L//C` or `L//C + 1` elements, and is nonempty when `C <= L` |
| Records.MarkerLines | patent_abstract_extract.py:35-37 | the scan collects at most one index per line, each below the scanned length and each a line that starts with the marker |
| Records.Boundaries | patent_abstract_extract.py:34-38 | `patRecs` has between one and `len(content) + 1` entries and ends with `len(content)` |
| Records.MarkerLinesExact | patent_abstract_extract.py:35-37 | the scan collects, in increasing order, exactly the lines that start with the marker |
| Records.ScanRecords | patent_abstract_extract.py:34-38 | `patRecs` is strictly increasing, ends with `len(content)`, and its other entries are exactly the marker lines |
| Records.BoundariesExact | patent_abstract_extract.py:34-38 | the same facts about the boundary list, for use by the parsers |
| Records.RecordCount | patent_abstract_extract.py:41 | the parser processes one record per marker line |
| Records.SpanAt | patent_abstract_extract.py:42 | record `i` is `content[patRecs[i]:patRecs[i+1]]` |
| Records.SpansSnoc | patent_abstract_extract.py:42 | dropping the last boundary drops exactly the last record |
| Records.SpansCover | patent_abstract_extract.py:41-42 | the records concatenate to the lines from the first boundary to the last |
| Records.RecordSpans | patent_abstract_extract.py:35-42 | the records cover every line from the first marker on, their count is the number of marker lines, each starts with a marker line and has no other one, and no line before the first record is a marker |
| Records.SpansStartAtMarkers | patent_abstract_extract.py:35-42 | each record is nonempty, begins with a marker line and contains no other marker line |
| Records.NotAMarker | patent_abstract_extract.py:35-42 | a line strictly between two consecutive boundaries is within the file and does not start with the marker |
| Records.NothingBeforeFirstMarker | patent_abstract_extract.py:35-38 | the lines before the first record start no record; they are skipped |
| Patents.Merge | patent_abstract_extract.py:245 | `update` never removes a key, and every key of the last dictionary merged in has that dictionary's value |
| Patents.LastHolder | patent_abstract_extract.py:241-245 | the last dictionary in the sequence that holds a key, or none holds it |
| Patents.MergeLookup | patent_abstract_extract.py:245 | after a run of `update`s, a key has the value of the last dictionary holding it, or else its original value |
| Patents.MergeKeys | patent_abstract_extract.py:245 | the keys after the `update`s are the original keys plus those of every dictionary merged in |
| Patents.MergeCons | patent_abstract_extract.py:239-245 | updating with the first dictionary, then the rest, is updating from the first dictionary's result |
| Patents.MergeFirstAgain | patent_abstract_extract.py:239-245 | starting from the first file's dictionary and updating with it again gives the plain fold from the empty dictionary |
| FlatFile.NormaliseNumber | patent_abstract_extract.py:48-49 | a number starting with '0' loses its first and last characters, `"0"` becomes empty, and any other number is kept |
| FlatFile.NumberOf | patent_abstract_extract.py:45-49 | the number read from a `WKU` line is no longer than the line, and empty for a line of whitespace |
| FlatFile.TitleOf | patent_abstract_extract.py:50-53 | the title read from a `TTL` line is ASCII and no longer than the line |
| FlatFile.StripAll | patent_abstract_extract.py:59 | the `map` keeps the line count, and line `k` of the result is line `k` stripped |
| FlatFile.AbstractOf | patent_abstract_extract.py:55-63 | an empty remainder after `ABST` gives "NULL"; any other gives an ASCII abstract |
| FlatFile.LastLine | patent_abstract_extract.py:44-54 | the last line of the record carrying a tag: it carries the tag and no later line does, or no line does |
| FlatFile.FieldFromLastLine | patent_abstract_extract.py:44-63 | after the inner loop, each field holds the value read from its last tagged line, or its value from before the record |
| FlatFile.RecordStep | patent_abstract_extract.py:42-64 | a record that does not raise leaves a number and a title bound, adds exactly its number's key, stores the title under it, and keeps every other entry |
| FlatFile.FailureStops | patent_abstract_extract.py:41-64 | once a record raises, the later records are not processed and the error is the result |
| FlatFile.ReadRecord | patent_abstract_extract.py:44-63 | the inner loop computes the number, title and abstract that the specification gives for the record |
| FlatFile.SpanOf | patent_abstract_extract.py:42 | the slice the loop takes is record `i` of the file |
| FlatFile.ExtractWith | patent_abstract_extract.py:31-65 | the parser loop returns the specified dictionary, or raises the specified error, for any field readers |
| FlatFile.ExtractFlatFile | patent_abstract_extract.py:25-65 | `extPatAbs7601` returns the specified dictionary, or raises the specified error |
| FlatFileFacts.RecordWrite | patent_abstract_extract.py:42-64 | each record writes exactly one entry, keyed by its last `WKU` number or the previous record's; it raises on an unbound title before an unbound number |
| FlatFileFacts.AbstractNull | patent_abstract_extract.py:54-63 | the abstract is "NULL" when there is no `ABST` line or the last one ends the record |
| FlatFileFacts.BoundFieldsNeverRaise | patent_abstract_extract.py:44-64 | once a number and a title are bound, a record of `extPatAbs7601` never raises |
| FlatFileFacts.StaleFieldsReused | patent_abstract_extract.py:44-64 | a record without `WKU` and `TTL` lines reuses the previous number and title, so it overwrites that entry |
| FlatFileFacts.FirstRecordNeedsNumberAndTitle | patent_abstract_extract.py:64 | a first record lacking `WKU` or `TTL` makes the parser raise, on the title when it lacks `TTL` |
| FlatFileFacts.OneWritePerRecord | patent_abstract_extract.py:41-64 | keys only accumulate, at most one new key per record |
| FlatFileFacts.TaggedLine | patent_abstract_extract.py:45-47 | a line `tag` + whitespace + value + trailing whitespace (the newline `readlines` keeps), stripped and with `tag\s+` removed, is exactly the value |
| FlatFileFacts.StripNewline | patent_abstract_extract.py:46 | a line with non-whitespace ends followed by its newline strips to the line without it |
| FlatFileFacts.NumberOfLine | patent_abstract_extract.py:45-49 | the line `WKU` + whitespace + value + newline yields the normalised value |
| FlatFileFacts.TitleOfLine | patent_abstract_extract.py:50-53 | the line `TTL` + whitespace + ASCII title + newline yields the title unchanged |
| FlatFileFacts.RemoveTagKeep | patent_abstract_extract.py:57 | `re.sub` leaves a prefix in which no match starts unchanged |
| FlatFileFacts.ParNotPal | patent_abstract_extract.py:57-58 | `PAR` + whitespace holds no match of `PAL\s+`, so line 57 does not touch it |
| FlatFileFacts.FirstAbstractLine | patent_abstract_extract.py:57-58 | the first abstract line `PAL` or `PAR` + whitespace + text + newline loses exactly its tag and the whitespace after it |
| FlatFileFacts.FirstAbstractStripped | patent_abstract_extract.py:57-59 | that first line, once stripped, is exactly its text |
| FlatFileFacts.StripPadded | patent_abstract_extract.py:59 | every later abstract line, padded with whitespace, strips to its text |
| FlatFileFacts.AbstractOfStripped | patent_abstract_extract.py:55-61 | when the cleaned first line and the later lines strip to given texts, the abstract is those texts joined with single spaces, decoded |
| FlatFileFacts.StripAllPointwise | patent_abstract_extract.py:59 | lines that each strip to a text strip together to the list of texts |
| FlatFileFacts.AbstractOfLines | patent_abstract_extract.py:55-61 | for a record's abstract as read from the file (`PAL`/`PAR` + whitespace + text + newline, then padded lines), the abstract is the texts joined with single spaces, non-ASCII dropped, and exactly that join when the texts are ASCII |
| FlatFileFacts.FileSize | patent_abstract_extract.py:35-64 | the dictionary has at most one entry per `PATN` line |
| XmlRecords.StripLeadingZero | patent_abstract_extract.py:121-122 | an empty number raises `IndexError`; a leading '0' alone is dropped; other numbers are kept |
| XmlRecords.EntryOf | patent_abstract_extract.py:119-129 | a record raises exactly when its number is missing or empty or its title is missing, and in the source's order: a missing number first, then an empty one (`IndexError` at line 121), then a missing title (line 123); otherwise it yields the zero-stripped number, the title, and the abstract or "NULL" |
| XmlRecords.ReadXmlRecord | patent_abstract_extract.py:87-97 | the record body computes exactly `EntryOf` of the parsed record |
| XmlRecords.RecordEntries | patent_abstract_extract.py:83-84 | one outcome per record |
| XmlRecords.RecordEntryAt | patent_abstract_extract.py:83-85 | outcome `i` is that of record `i`, its lines joined with spaces and parsed |
| XmlRecords.WriteEntries | patent_abstract_extract.py:116-129 | a returned dictionary has at most one key per record, and every record succeeded and wrote its number as a key |
| XmlRecords.XmlFailureStops | patent_abstract_extract.py:116-129 | once a record raises, the later records are not processed |
| XmlRecords.XmlEntryAt | patent_abstract_extract.py:83-84 | record `i` is the slice between consecutive boundaries, joined with spaces |
| XmlRecords.ExtractXmlFile | patent_abstract_extract.py:67-98 | `extPatAbs0204` (and `extPatAbs0514`, lines 100-130) return the specified dictionary, or raise the first record's error |
| XmlRecordsFacts.EntryMaps | patent_abstract_extract.py:97 | the one-entry dictionaries the records write, in order |
| XmlRecordsFacts.XmlFoldAllSucceed | patent_abstract_extract.py:116-130 | a dictionary is returned only when no record raised |
| Patents.UpdateIsMerge | patent_abstract_extract.py:129 | setting one key is merging the one-entry dictionary |
| XmlRecordsFacts.XmlFoldIsMerge | patent_abstract_extract.py:116-130 | the returned dictionary is the left fold of the one-entry updates, so a later record with the same number wins |
| XmlRecordsFacts.XmlKeysAreNumbers | patent_abstract_extract.py:83-98 | when the parser returns, every record succeeded and the keys are exactly the records' numbers |
| XmlRecordsFacts.NumberRulesDiffer | patent_abstract_extract.py:121-122 | for a number with a leading zero, the XML rule keeps the last character that the flat-file rule (lines 48-49) drops |
| Collapse.Slice | patent_abstract_extract.py:149 | Python slicing with non-negative bounds: clamped to the string, empty when the range is empty |
| Collapse.YearFileName | patent_abstract_extract.py:149-157 | the yearly name starts with `patAbs`, has at most 15 characters, and exactly 15 with the year `fileName[0:4]` at `[6:10]` |
| Collapse.MonthFileName0204 | patent_abstract_extract.py:180-187 | the monthly name starts with `patAbs` and, for a long enough file name, has 19 characters with `fileName[3:11]` at `[6:14]` |
| Collapse.MonthFileName0514 | patent_abstract_extract.py:209-216 | the monthly name starts with `patAbs` and, for a long enough file name, has 19 characters with `fileName[4:12]` at `[6:14]` |
| Collapse.CollapsedName | patent_abstract_extract.py:249 | the collapsed name starts with `patAbs`, is 11 characters longer than the year and holds the year at `[6:]` |
| Collapse.YearToken | patent_abstract_extract.py:238 | the year token has at most four characters and is `x[6:10]` for a long enough name |
| Collapse.MonthOutputsSelected | patent_abstract_extract.py:229-238 | the monthly names written at lines 180/187 and 209/216 are selected at line 229, filed under the first four characters of their date |
| Collapse.YearOutputsNotSelected | patent_abstract_extract.py:229 | yearly names (lines 157 and 249) fail the `len(fn) > 15` test. They are written to `absPath`, while line 229 lists `mthAbsPath`, so they are not listed at all; the lemma shows they would not be taken for monthly ones even in the same directory |
| Collapse.NameLeTotal | patent_abstract_extract.py:229 | Python's string order is total |
| Collapse.NameLeTrans | patent_abstract_extract.py:229 | Python's string order is transitive |
| Collapse.InsertName | patent_abstract_extract.py:229 | insertion adds exactly one name |
| Collapse.InsertSorted | patent_abstract_extract.py:229 | insertion into a sorted list keeps it sorted |
| Collapse.SortNames | patent_abstract_extract.py:229 | `sorted` returns a sorted permutation of the names |
| Collapse.Filter | patent_abstract_extract.py:238 | the comprehension keeps exactly the accepted names |
| Collapse.FilterSorted | patent_abstract_extract.py:238 | filtering a sorted list keeps it sorted |
| Collapse.MonthFiles | patent_abstract_extract.py:229 | the sorted list holds exactly the listed names starting with `patAbs` and longer than 15 characters |
| Collapse.FilesForYear | patent_abstract_extract.py:238 | a year's files are exactly the monthly files whose `x[6:10]` is the year, still sorted |
| Collapse.Loaded | patent_abstract_extract.py:241-243 | the dictionaries of the year's files, in order |
| Collapse.YearMerge | patent_abstract_extract.py:239-247 | a year raises exactly when it has no files, with `IndexError` at line 239; otherwise every key of its last file has that file's value |
| Collapse.CollapseYear | patent_abstract_extract.py:239-247 | the year's dictionary is the `update` fold of its files from the empty dictionary; no files raises `IndexError` |
| Collapse.YearLastFileWins | patent_abstract_extract.py:241-245 | a key of the year takes its value from the last file holding it |
| Collapse.YearNoOtherKeys | patent_abstract_extract.py:241-245 | a key held by none of the year's files is absent from the year |
| Collapse.YearResults | patent_abstract_extract.py:232-247 | one merge outcome per year |
| Collapse.YearResultAt | patent_abstract_extract.py:238-247 | outcome `i` is the merge of year `i`'s files |
| Collapse.CollapseRun | patent_abstract_extract.py:232-251 | the loop writes at most one file per year, and exactly one per year when nothing raised |
| Collapse.CollapseAll | patent_abstract_extract.py:229-251 | a worker writes at most one file per year, and with fewer than three years writes nothing and raises at `splitter(years, 3)` |
| Collapse.CollapseOneYear | patent_abstract_extract.py:238-247 | the loop body computes year `n`'s merge outcome |
| Collapse.CollapseEachYear | patent_abstract_extract.py:232-251 | the years loop writes exactly the specified outputs and stops at the specified error |
| Collapse.CollapseYears | patent_abstract_extract.py:221-252 | `multi_collapseYears` writes the specified outputs; fewer than three years raises at the progress split |
| Collapse.StopsAfterError | patent_abstract_extract.py:232-251 | once a year raises, nothing more is written |
| Collapse.OutputsInYearOrder | patent_abstract_extract.py:249-251 | output `i` is named after year `i` and holds that year's merge; a worker that did not stop wrote one output per year |
| Collapse.CollapsedYears | patent_abstract_extract.py:229-251 | each file written holds the merge of that year's sorted, selected monthly files |

## Left out

- BeautifulSoup is not modelled. What it finds in a record (the number, title and abstract texts) is the `parse` parameter. A `b110`, `stext` or `btext` element without a `pdat` child also raises `AttributeError`; the model folds that into the element's absence, except for `btext`, whose missing `pdat` is not modelled.
- File reading, directory listing and JSON encoding are not modelled. They become the `content`, `listing` and `load` parameters; the written files are returned as `(name, dictionary)` pairs.
- Python 2 byte strings are modelled as character sequences.
- The batch loops of `multi_procPatFiles7601/0204/0514` are not modelled, apart from the output names they derive.
- Progress printing, `time.clock()` and the percentage formatting are left out. So are the `splitter(x, 4)` and `splitter(x, 20)` progress calls, which only raise when a worker has fewer files than chunks.
- `main` is left out: `raw_input`, the four `multiprocessing.Process` workers it starts by hand per source (with `time.sleep(2)` between starts and `join` at the end, lines 274-292, 301-319, 328-346, 356-374) and the `splitter(x, 4)` division of the files among them are I/O and concurrency.
- Splitter.Split: the boundaries use exact rational rounding. The float `1.0/chnks*len(seq)` can round differently when a product lands within float error of a half.
- Splitter.Split: a `chnks` that is not an integer is not modelled.
- Collapse.MonthFiles: the listing is a sequence of names. Duplicate entries, which a directory cannot hold, are kept as given.
