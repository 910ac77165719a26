# fasm2frame in Dafny

A model of the core of prjxray's FPGA assembler, `tools/fasm2frame.py`. The tool reads FASM statements of the form `TILE.FEATURE[ VALUE]`. For each one it looks up:
- the tile's segment in the tile grid;
- the feature's bit pattern in the segment-bits database of that segment's type.

It then sets or clears those bits in a frame image. The image maps a frame address to 101 words of 32 bits.

The model is a set of pure functions, folded over the input lines. A run either yields a frame image or the first error. Every `raise`, failed dictionary lookup and failed list index of the program is one variant of a single `Error` datatype.

Modules, leaves first:

| file | module | what it holds |
|---|---|---|
| errors.dfy | `Errors` | `Option`, `Result`, the `Error` variants, `MapAll` (a list comprehension that can fail) |
| text.dfy | `Text` | the Python string primitives used: `isspace`, `strip`, `split()`, `split(sep)`, `rfind`, decimal `int()` |
| bits.dfy | `BitToken` | `parsebit` and the bit tokens `[!]COL_BIT` |
| segbits.dfy | `SegBits` | `process`, the two database files of a segment type, and the `get_database` memo cache |
| layout.dfy | `Layout` | the already-parsed tile grid and the tile → segment lookup |
| word32.dfy | `Word32` | one 32-bit word: `frame_set` and `frame_clear` on it |
| frames.dfy | `Frames` | the frame image: `frame_init`, `frames_init`, and `update_segbit` |
| statement.dfy | `Statements` | comment removal and the statement grammar |
| runs.dfy | `Runs` | the shape of the line loop, and the duplicate-assignment facts that hold for any step that guards keys |
| assembler.dfy | `Assembler` | the per-line step of `run`, the run itself, and cache transparency |

The bit words are `bv32`. Every word is therefore below 2^32 by type, and `frame_set`/`frame_clear` are single-bit OR and AND-NOT on it. Frame addresses, columns and positions are unbounded integers. Python's floor `//` and `%` by 32 agree with Dafny's `/` and `%` for that positive divisor. A word index is a Python list index, so `-101 .. -1` count from the end of the frame.

### Details of fasm2frame.py the model keeps

- **Binary variant `0`.** The variant `0` of a single-bit feature is the same bit with clear polarity, not an empty pattern (tools/fasm2frame.py:63).
- **Comments.** A comment starts at the **last** `#` of the line, because the code uses `rfind` (line 169).
- **Grammar anchoring.** The grammar is matched with `re.match`, so it is anchored at the start of the line only. Text after the name that does not begin with a space is ignored. The value runs up to the first line break (line 181).
- **Record classification.** A database record is classified by its number of bit tokens alone. One with zero bit tokens takes the enumerated branch, so its name must split at a `.`, and its pattern is empty (lines 56, 66-75).
- **Second database file.** It is `segbits_int_<c>.db`, where `c` is the last character of the segment type. An empty segment type fails when that file is chosen, which is after the first file has been read (line 85).
- **Word index outside 0..100.** Indices `-101 .. -1` wrap; any other index outside `0 .. 100` is an error, and so is a frame address with no frame (lines 152, 156).
- **Duplicate check.** It runs on line numbers starting at 1, so the truthiness test `if old_line_number:` is the same as membership (lines 166, 189-190).

## Model

| member | source | states |
|---|---|---|
| Errors.MapAll | tools/fasm2frame.py:75 | the list succeeds exactly when every element does; it then has one result per element, each being `f` of that element, and otherwise fails with the error of the first element that fails |
| Text.Strip | tools/fasm2frame.py:172 | the result is a slice of the input with only whitespace removed in front of it and after it, and it neither starts nor ends with whitespace |
| Text.StripNoEdges | tools/fasm2frame.py:172 | a string with no whitespace at either end is its own strip |
| Text.Words | tools/fasm2frame.py:50 | `split()` yields only non-empty, whitespace-free pieces |
| Text.WordsUnwords | tools/fasm2frame.py:50 | splitting tokens joined by single spaces gives back exactly those tokens |
| Text.WordsOfSpaces | tools/fasm2frame.py:50 | a line of whitespace alone, such as a bare newline, splits into no pieces |
| Text.WordsAppend | tools/fasm2frame.py:50 | splitting two texts that whitespace separates gives the pieces of the first followed by those of the second |
| Text.WordsSpaced | tools/fasm2frame.py:50 | tokens with any non-empty whitespace between them and any whitespace around them, such as tabs, runs of spaces or a final newline, split back into exactly those tokens, in order |
| Text.LastIndexOf | tools/fasm2frame.py:169 | `rfind` finds nothing exactly when the character is absent; otherwise it finds an occurrence with none after it |
| Text.LastOccurrence | tools/fasm2frame.py:169 | in `a + c + b` where `b` has no `c`, the last `c` is the one after `a` |
| Text.Split | tools/fasm2frame.py:22 | `split('_')` yields pieces free of the separator that join back to the input |
| Text.SplitJoin | tools/fasm2frame.py:22 | splitting separator-free pieces joined by the separator gives back those pieces |
| Text.SplitOnce | tools/fasm2frame.py:22 | a string with exactly one separator splits into the two sides of it |
| Text.ParseInt | tools/fasm2frame.py:23 | a string is read exactly when, once stripped, it is an optional sign followed by at least one ASCII digit, and is rejected otherwise; its value is the decimal value of the digits, negated after `-` |
| Text.ParseIntDecimal | tools/fasm2frame.py:23 | reading back the decimal spelling of any integer, sign included, gives that integer |
| BitToken.ParseBit | tools/fasm2frame.py:14-23 | a token is read only if it is non-empty, and its bit is clear exactly when the token starts with `!`; every failure names the token |
| BitToken.ParseBitSound | tools/fasm2frame.py:14-23 | a token that is read spells its bit: `!` exactly for a clear bit, one `_` in the rest, and the column and position are the integer values of the two sides |
| BitToken.ParseBitComplete | tools/fasm2frame.py:14-23 | every token that spells a bit is read as exactly that bit |
| BitToken.ParseFormatBit | tools/fasm2frame.py:14-23 | reading the canonical spelling of any bit gives the bit back |
| BitToken.ParseBits | tools/fasm2frame.py:75 | the token list is read in order, one bit per token, and fails exactly when some token is malformed, with the error of the first malformed token |
| SegBits.BinaryVariants | tools/fasm2frame.py:62-65 | a single-bit feature has exactly the variants `0` (the bit cleared) and `1` (the bit set) |
| SegBits.SplitVariant | tools/fasm2frame.py:69-71 | the name splits at its last `.` that has a character on each side, within its first line; it fails exactly when no such `.` exists |
| SegBits.SplitVariantJoin | tools/fasm2frame.py:69-71 | feature and variant joined by `.` split back into the two, when the variant has no `.` before its last character |
| SegBits.AddBinary | tools/fasm2frame.py:62-65 | a single-bit record replaces whatever its name held with exactly the two binary variants and leaves every other feature unchanged |
| SegBits.AddVariant | tools/fasm2frame.py:74-75 | an enumerated record sets one variant of its feature; the feature's other variants and all other features are unchanged |
| SegBits.LoadRecord | tools/fasm2frame.py:46-75 | a line without tokens fails; a record that loads keeps every feature the table had |
| SegBits.LoadSingleBit | tools/fasm2frame.py:56-65 | with exactly one bit token, the record fails on a malformed token or a clear bit, and otherwise binds the name to the binary variants of that bit |
| SegBits.LoadEnumerated | tools/fasm2frame.py:66-75 | with any other token count, the record fails when the name has no `.` split or a token is malformed, and otherwise sets that variant to the parsed tokens in order |
| SegBits.LoadLines | tools/fasm2frame.py:80-81 | loading lines in order keeps every feature already in the table |
| SegBits.LoadLinesAppend | tools/fasm2frame.py:77-87 | reading one file and then the other is reading their concatenation, stopping at the first bad line |
| SegBits.RecordKeepsVariants | tools/fasm2frame.py:62-75 | a record that does not rebind a feature as binary keeps all of that feature's variants |
| SegBits.VariantsAccumulate | tools/fasm2frame.py:74-75 | across any number of records, variants of a feature accumulate unless a single-bit record rebinds it |
| SegBits.InterconnectShared | tools/fasm2frame.py:85 | two segment types read the same interconnect file exactly when their last characters agree |
| SegBits.LoadSegmentType | tools/fasm2frame.py:77-87 | a missing type file is an error naming it; a load succeeds only for a non-empty type with both files present, and then gives the records of the type file followed by those of the interconnect file, loaded in order; failures come in the program's order: an error in the type file, then an empty type, then a missing interconnect file |
| SegBits.GetDatabase | tools/fasm2frame.py:40-89 | a cached table is returned with the cache unchanged; a fresh load adds exactly that type to the cache and keeps every other entry |
| SegBits.CacheTransparent | tools/fasm2frame.py:40-89 | from a cache holding only fresh loads, the table or error returned is the one a fresh load gives, and the cache stays that way |
| Layout.LookupTile | tools/fasm2frame.py:196-198 | succeeds exactly when the tile and its segment are both in the grid; the error names the first missing key |
| Word32.SetBit | tools/fasm2frame.py:150-152 | the addressed bit is set and every other bit of the word is kept |
| Word32.ClearBit | tools/fasm2frame.py:154-156 | the addressed bit is cleared and every other bit of the word is kept |
| Word32.WordWrite | tools/fasm2frame.py:215-218 | the addressed bit takes the given polarity and every other bit is kept |
| Frames.ZeroFrame | tools/fasm2frame.py:148 | a new frame is 101 zero words |
| Frames.Addresses | tools/fasm2frame.py:142-143 | `range(n)` offsets from a base give exactly the addresses base .. base+n-1, none when n <= 0 |
| Frames.FrameInit | tools/fasm2frame.py:145-148 | a zero frame is added only where no frame was; existing frames are never modified |
| Frames.InitRange | tools/fasm2frame.py:202-205 | pre-touching covers exactly the segment's addresses on top of the old ones, keeps existing frames, and adds only zero frames |
| Frames.InitRangeIdempotent | tools/fasm2frame.py:202-205 | pre-touching a second time changes nothing |
| Frames.DenseFrames | tools/fasm2frame.py:137-143 | the dense image has a frame exactly at the addresses some segment of the grid spans, and every frame is zero |
| Frames.FramesInit | tools/fasm2frame.py:137-143 | dense initialisation, in any segment order, gives one zero frame for exactly every address some segment spans |
| Frames.WordIndex | tools/fasm2frame.py:152 | a word index is accepted exactly in -101..100, and names the same slot modulo 101 |
| Frames.Target | tools/fasm2frame.py:211-214 | an entry addresses a bit exactly when its word index is one a frame accepts; the bit is in frame base + column, in the word that index names modulo 101, at bit position % 32 |
| Frames.ApplyBit | tools/fasm2frame.py:207-218 | writing succeeds exactly when the frame exists and the word index is valid, failing otherwise with the matching error; on success the frames are the same, and only the addressed bit of the addressed word changes, to the entry's polarity |
| Frames.ApplyBitBits | tools/fasm2frame.py:207-218 | bit by bit, the addressed bit takes the entry's polarity and every other bit of the image keeps its value |
| Frames.ApplyPattern | tools/fasm2frame.py:245-246 | a pattern applies exactly when every entry is writable, and then no frame appears or disappears |
| Frames.PatternFailsAtFirst | tools/fasm2frame.py:245-246 | a pattern that cannot be applied fails with the error of its first unwritable entry |
| Frames.LastWriterWins | tools/fasm2frame.py:245-246 | after a pattern, each bit holds the polarity of the last entry aimed at it, or its old value if none is |
| Frames.ApplyBitCommute | tools/fasm2frame.py:150-156 | two entries aimed at different bits give the same frames and bits in either order |
| Statements.CleanLine | tools/fasm2frame.py:169-172 | the cleaned line neither starts nor ends with whitespace |
| Statements.NoComment | tools/fasm2frame.py:169-172 | a line without `#` is only stripped |
| Statements.CommentDropped | tools/fasm2frame.py:169-172 | everything from the last `#` on is dropped before stripping |
| Statements.TrailingValue | tools/fasm2frame.py:181 | a value is present only when the rest starts with a space followed by it; it is non-empty and holds no line break |
| Statements.MatchStatement | tools/fasm2frame.py:181-186 | a match is a non-empty tile, a `.`, and a non-empty name at the start of the line, made of the characters each pattern allows |
| Statements.MatchSound | tools/fasm2frame.py:181-186 | a match is a tile, a `.`, a name and a rest that cannot extend the name, and the value is the one read from that rest |
| Statements.MatchComplete | tools/fasm2frame.py:181-186 | every such decomposition of a line is the match the grammar finds |
| Statements.MatchFormat | tools/fasm2frame.py:181-186 | a well-formed statement, spelled out, matches as itself |
| Statements.TrailingIgnored | tools/fasm2frame.py:181 | text after the name that does not start with a space is ignored, and the statement has no value |
| Runs.KeptThrough | tools/fasm2frame.py:188-194 | a pair once recorded keeps its line number through every later line that runs |
| Runs.FoldRecordsKeys | tools/fasm2frame.py:188-194 | for any step that guards keys, a successful run records every line's pair with that line's number, and no two lines carry the same pair |
| Runs.FoldStopsAt | tools/fasm2frame.py:166 | for any step, if the lines before a line ran and that line fails, the run fails with that line's error |
| Runs.FoldRejectsReassigned | tools/fasm2frame.py:188-194 | for any step that guards keys, a line that reuses a pair assigned before the run fails the run there, reporting both line numbers |
| Runs.FoldReportsBothLines | tools/fasm2frame.py:188-194 | for any step that guards keys, the second line carrying a pair fails the run, reporting the first and the second line numbers |
| Assembler.ChooseVariant | tools/fasm2frame.py:231-244 | an omitted value becomes `1` exactly when the variants are `{0, 1}`, and is otherwise a missing-value error; a given value must be a variant, or the error names it and the valid variants |
| Assembler.BinaryDefaultSets | tools/fasm2frame.py:231-234 | a single-bit feature used without a value selects its bit set |
| Assembler.SelectPattern | tools/fasm2frame.py:223-244 | the key is tile type, `.`, and name; a missing key is an unknown-feature error naming the segment type and key; a value that is a variant selects that variant's pattern, and any other value is an invalid-variant error listing the variants; an omitted value selects variant `1` of a `{0, 1}` feature and is a missing-value error otherwise |
| Assembler.RequestedValue | tools/fasm2frame.py:231-237 | a given value is requested as is; an omitted one is `1` exactly when the variants are `{0, 1}`, and otherwise a missing-value error naming the feature |
| Assembler.Write | tools/fasm2frame.py:202-205 | after a statement's bits are written, exactly the segment's addresses have been added to the image |
| Assembler.Resolve | tools/fasm2frame.py:196-229 | an unknown tile or segment fails with that lookup's error; a table that cannot be loaded fails with the load's error; otherwise the outcome is the pattern selection from that table, with the tile's segment and the updated cache |
| Assembler.ResolveSelectsVariant | tools/fasm2frame.py:196-246 | a statement that resolves lies in a known tile and segment, whose type's database files load; its feature is in that table; and the pattern written is the named variant's, or variant `1` of a `{0, 1}` feature when no value is given |
| Assembler.Assign | tools/fasm2frame.py:188-246 | a repeated pair fails with both line numbers; a new pair whose tile, segment, table, feature or variant cannot be resolved fails with that error, and one whose bits cannot be written fails with the write's error; a statement that succeeds was new, records its pair with its line, and removes no frame |
| Assembler.LineStatement | tools/fasm2frame.py:169-186 | a line that is blank after comment removal holds no statement; a statement found is a tile and a name joined by `.` at the start of the cleaned line |
| Assembler.Step | tools/fasm2frame.py:166-246 | a line that succeeds removes no frame and keeps every pair recorded so far with its line number |
| Assembler.BlankLineSkipped | tools/fasm2frame.py:174-176 | a line that is blank after comment removal changes nothing and assigns no pair |
| Assembler.CommentLineSkipped | tools/fasm2frame.py:167-176 | a line of whitespace and a comment changes nothing |
| Assembler.BadLineRejected | tools/fasm2frame.py:181-183 | a non-blank line that does not match is a syntax error naming its line |
| Assembler.StepRecordsKey | tools/fasm2frame.py:188-194 | a successful statement line records its pair, which was new, with its line number; other lines change nothing |
| Assembler.StepRejectsDuplicate | tools/fasm2frame.py:188-193 | a line reusing a recorded pair fails, reporting the earlier line number and its own |
| Assembler.StepBits | tools/fasm2frame.py:202-246 | after a statement, the image gains exactly the segment's frames; every bit holds the polarity of the last pattern entry aimed at it; an unaimed bit keeps its value, or is zero in a frame just created |
| Assembler.RunFrom | tools/fasm2frame.py:166 | a run that succeeds removes no frame and keeps every pair recorded before it |
| Assembler.Run | tools/fasm2frame.py:162-166 | unless sparse, the result holds a frame for every address any segment spans |
| Assembler.RunFromStops | tools/fasm2frame.py:166-246 | if the lines before a line ran and that line fails, its error is the run's error |
| Assembler.RunFromIsFold | tools/fasm2frame.py:166 | the run is the step folded over the lines in order, numbered from the first line number |
| Assembler.StepGuards | tools/fasm2frame.py:188-194 | the step rejects a recorded pair with both line numbers and records the pair of every line it accepts |
| Assembler.RunRecordsKeys | tools/fasm2frame.py:188-194 | a successful run records every statement's pair with its line number, none of them recorded before, and no pair twice |
| Assembler.RunRejectsReassigned | tools/fasm2frame.py:188-194 | if the lines before it ran, a line reusing a pair recorded before the run fails the run there with both line numbers |
| Assembler.DuplicateReportsBothLines | tools/fasm2frame.py:188-194 | if the lines before it ran, the second line assigning a pair fails the run, reporting the first and the second line numbers |
| Assembler.ResolveMatchesFresh | tools/fasm2frame.py:196-229 | with a faithful cache, tile lookup, table and pattern selection give the outcome of a cache-free resolution, and the cache stays faithful |
| Assembler.AssignCacheTransparent | tools/fasm2frame.py:188-246 | a statement's frames, pairs and error are the same under any two faithful caches |
| Assembler.StepCacheTransparent | tools/fasm2frame.py:166-246 | a line's frames, pairs and error are the same under any two faithful caches |
| Assembler.RunFromCacheTransparent | tools/fasm2frame.py:166-246 | a run's frames, pairs and error are the same under any two faithful caches |
| Assembler.RunCacheTransparent | tools/fasm2frame.py:40-44 | memoising tables across runs changes nothing: a run from a faithful cache gives the frames or error of a run from an empty cache |

## Left out

- File and environment access is not modelled: `open`, the `XRAY_DATABASE_DIR`/`XRAY_DATABASE` paths, and reading the input. The database files are a map from file name to lines, and the input is a sequence of lines.
- `json.load` of `tilegrid.json` is not modelled. The grid is an already-parsed `Layout.Grid`.
- The `int(x, 0)` radix parsing of `baseaddr` (lines 141, 200) is not modelled. Segment base addresses arrive as integers.
- The printers `dump_frames_verbose` and `dump_frames_sparse`, and the hexadecimal text of `dump_frm` (lines 92-126), are output formatting only. The image is a map keyed by address, and the file lists it in ascending address order (line 123).
- The `argparse` entry point (lines 255-283) and the `debug` flag are not modelled.
- Exception classes and message strings are not modelled. Each failure is one `Error` variant, whose fields identify the failing item rather than reproduce the message text.
- Python's general regular-expression engine is not modelled. The two fixed patterns are hand-written scanners.
- SegBits.GetDatabase: the cache is an explicit map threaded through the calls, and a failed load leaves it unchanged. The program stores an empty table for the type before loading (line 44), so after a failed load within the same process a later lookup would return that partial table. A run aborts at the first error, so this cannot affect one run.
- Text.ParseInt: accepts an optional sign and ASCII digits, after surrounding whitespace, and its contract states exactly that. Python's `int()` also accepts other Unicode decimal digits and `_` digit grouping. The pieces it is applied to come from a split on `_`, so grouping never occurs.
- Whitespace follows `str.isspace` for the characters listed. Universal-newline translation of `\r\n` when files are read is not modelled.
- Text.Words: its own contract says only that every piece is a whitespace-free token. That the pieces are the maximal runs, in order, whatever whitespace lies around and between them, is stated in `Text.WordsSpaced`.
- Frames.ApplyBitCommute: commutation of two writes is stated bit by bit, not as equality of the two frame maps.
- Run and `run`: input lines are numbered from 1. A record of line 0 would be falsy in Python's `if old_line_number:`, but no line gets number 0.
