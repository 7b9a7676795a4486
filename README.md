# RAG-Ready layout post-processing, modelled in Dafny

This project models the part of RAG-Ready that runs after Azure Document Intelligence has
analysed a document in layout mode. It covers four pieces.

- **Table merging** (`merge_table.py`). The analysis gives the document's markdown text
  and its tables, each with spans in that text and bounding regions on pages. Tables
  that continue on the next page are found. A continuation is classified as vertical
  (same columns and same normalised header cells) or horizontal (same row count, the
  first table touching the right page edge and the second the left edge). Two things
  block a merge: a paragraph in the gap with a role other than page header, page footer
  or page number, and a table that is a small banner at the top of a page. Chains of continuations are grouped. The merged
  markdown of each group replaces the original tables in the text.
- **Figure and page helpers** (`di_tools.py`):
  - splitting the markdown into pages at `<!-- PageBreak -->`;
  - figure page numbers, image names and image URLs;
  - the figure's own text and its caption;
  - the markdown image tag;
  - placing that tag in the right page;
  - the de-duplication of images by perceptual hash;
  - reading the endpoint and key from the configuration.
- **File utilities** (`file_utils.py`): the file extension, the difference hash
  (`dhash`) computed from grey-scale pixels, and the Hamming distance of two hashes.
- **Writing the output** (`write_output_files_step.py`): refusing an empty segment list,
  and `segments.md`, which holds the segments grouped by page in ascending page order.

Python's string operations are written out in `pystr.dfy`:

- `strip`, `rstrip` and `lstrip`, with `str.isspace` characters;
- `split`, `join` and `find`;
- `replace` with a count of 1;
- `splitlines`, with Python's line boundaries;
- slices with negative or out-of-range bounds;
- `int()` on text.

The exceptions `merge_tables` can raise are part of its result type (`MergeTable.Outcome`):
`min()` of an empty sequence, an index out of range, and a division by `None` or by zero.
The tag placement works in place on the page list; it is the class
`DiTools.FigurePages`. The hash table of saved images is the class
`DiTools.ImageRegistry`.

Where the code departs from what its names suggest, the model follows the code:

- **Paragraphs with no role.** A paragraph with no role in the gap between two tables
  does not block a merge. The code tests `role is not None`
  (`rag_ready/parser/azure_di/merge_table.py:73`).
- **Vertical merge keeps the second header.** A vertical merge removes only the first
  line of the second table made of separator characters: its `|---|` rule. The second
  table's header row stays, as a body row (`TableText.VerticalRoundTrip`).
- **Horizontal merge pads late.** A horizontal merge does not pad each table to its own
  width before joining rows side by side. Only the combined rows are padded to the
  widest one (`TableText.MergeHorizontalTables`, `TableText.MarkdownTableShape`).
- **Dedup counts hex digits.** Duplicate images are found by the Hamming distance of the
  16-digit hex strings: the number of differing hex digits, not differing bits. A
  distance of 5 or less counts as a duplicate (`DiTools.HashThreshold`).

## Model

| member | source | states |
|---|---|---|
| `PyStr.LStripChars` | rag_ready/parser/azure_di/di_tools.py:335 | the result is a suffix of the input; everything removed is in the set; the result does not start with a member of the set |
| `PyStr.RStripChars` | rag_ready/parser/azure_di/di_tools.py:337 | the result is a prefix of the input; everything removed is in the set; the result does not end with a member of the set |
| `PyStr.StripIsBothEnds` | rag_ready/parser/azure_di/di_tools.py:335 | `strip(cs)` is `lstrip(cs)` followed by `rstrip(cs)` |
| `PyStr.StripIdempotent` | rag_ready/parser/azure_di/merge_table.py:136 | a stripped text has no whitespace at either end, and stripping it again changes nothing |
| `PyStr.StripJoinedBySpace` | rag_ready/parser/azure_di/di_tools.py:282 | two non-empty stripped texts joined by one space are already stripped |
| `PyStr.FindFrom` | rag_ready/parser/azure_di/di_tools.py:300 | the position returned is the first match at or after the start; `None` means there is no match from there on |
| `PyStr.Find` | rag_ready/parser/azure_di/di_tools.py:300 | `sub in s`: the first position where `sub` occurs, or `None` when it occurs nowhere |
| `PyStr.ReplaceFirst` | rag_ready/parser/azure_di/di_tools.py:301 | `s.replace(old, new, 1)`: `s` unchanged when `old` does not occur, otherwise its first occurrence replaced by `new` |
| `PyStr.Split` | rag_ready/parser/azure_di/merge_table.py:126 | the pieces joined by the separator give back the text, and no piece contains the separator |
| `PyStr.SplitJoin` | rag_ready/parser/azure_di/merge_table.py:166 | splitting on one character undoes joining on it when no piece contains it |
| `PyStr.JoinAppend` | rag_ready/parser/azure_di/merge_table.py:184 | joining a concatenation is joining the halves with the separator between them |
| `PyStr.SplitLines` | rag_ready/parser/azure_di/merge_table.py:119 | no line holds a line boundary, and the text is empty exactly when there are no lines |
| `PyStr.SplitLinesUnlines` | rag_ready/parser/azure_di/merge_table.py:161 | `splitlines` of lines each ended by `\n` gives the lines back |
| `PyStr.JoinNewlines` | rag_ready/parser/azure_di/merge_table.py:184 | `"\n".join(lines) + "\n"` is each line followed by a newline |
| `PyStr.Lower` | rag_ready/parser/azure_di/merge_table.py:140 | same length, each character lowered |
| `PyStr.PySlice` | rag_ready/parser/azure_di/merge_table.py:251-256 | a Python slice: the ordinary slice for in-range bounds, negative bounds counted from the end, bounds clamped, empty when they cross |
| `PyStr.PyIndex` | rag_ready/parser/azure_di/merge_table.py:90 | a Python list index succeeds exactly for `-n <= i < n`, and a negative index counts from the end |
| `PyStr.NatToString` | rag_ready/parser/azure_di/di_tools.py:104 | `str(n)` is a non-empty string of digits whose value is `n` |
| `PyStr.ParseIntToString` | rag_ready/parser/azure_di/di_tools.py:191 | `int(str(n)) == n` for every integer |
| `FileUtils.RFind` | rag_ready/utils/file_utils.py:9 | the last position of the character, or -1, with no occurrence after it |
| `FileUtils.GetFileExtension` | rag_ready/utils/file_utils.py:8-9 | the extension holds no dot and no slash; it is empty when the last dot is not after the last slash, and when the last path component has only dots before its last dot (`.bashrc`, `..`, `a/..x`) |
| `FileUtils.ExtensionOfDottedName` | rag_ready/utils/file_utils.py:8-9 | for a name `stem.ext` whose stem has a non-dot character after its last slash, the extension is `ext` lowered |
| `FileUtils.HammingDistance` | rag_ready/utils/file_utils.py:42-49 | the loop computes the Hamming distance: the longer length for unequal lengths, else the number of differing positions |
| `FileUtils.HammingProperties` | rag_ready/utils/file_utils.py:42-49 | the distance is symmetric and at most the longer length; it is 0 exactly for equal hashes; unequal lengths never give 0 |
| `FileUtils.FlattenChunks` | rag_ready/utils/file_utils.py:26 | cutting the pixels into rows of `hash_size + 1` loses and reorders nothing |
| `FileUtils.ChunksShape` | rag_ready/utils/file_utils.py:26 | `hash_size` full rows come from `(hash_size + 1) * hash_size` pixels |
| `FileUtils.RowDiff` | rag_ready/utils/file_utils.py:29-30 | bit `c` of a row is set exactly when pixel `c` is brighter than pixel `c + 1` |
| `FileUtils.DiffBitsAt` | rag_ready/utils/file_utils.py:27-30 | bit `r * hash_size + c` of the difference bits compares pixels `c` and `c + 1` of row `r` |
| `FileUtils.CompareNeighbours` | rag_ready/utils/file_utils.py:27-30 | the nested loop builds exactly the difference bits |
| `FileUtils.ByteValueSnoc` | rag_ready/utils/file_utils.py:34-35 | bit `k` of a group adds `2^k` to the byte: the first bit is the least significant one |
| `FileUtils.HexByte` | rag_ready/utils/file_utils.py:37 | a byte is written as exactly two hex digits, high digit first, with a leading zero when needed |
| `FileUtils.PackHexSnoc` | rag_ready/utils/file_utils.py:36-38 | every full group of eight bits adds the two hex digits of its byte |
| `FileUtils.PackHexTail` | rag_ready/utils/file_utils.py:31-39 | a trailing group of fewer than eight bits writes nothing |
| `FileUtils.PackBits` | rag_ready/utils/file_utils.py:31-39 | the accumulator loop (`|=`, flush at `i % 8 == 7`) gives the packed hex of the bits |
| `FileUtils.OrBitWeight` | rag_ready/utils/file_utils.py:35 | or-ing in bit `k` of an accumulator below `2^k` is adding `2^k` |
| `FileUtils.DHash` | rag_ready/utils/file_utils.py:23-39 | the hash of the pixels is the packed hex of the neighbour comparisons of their rows |
| `FileUtils.PackHexReadBack` | rag_ready/utils/file_utils.py:31-39 | the hex text can be read back into the bits it packs, every full byte of them |
| `FileUtils.PackHexLength` | rag_ready/utils/file_utils.py:31-39 | the hex text holds two digits per full byte of bits |
| `FileUtils.DefaultHashLength` | rag_ready/utils/file_utils.py:23 | with the default `hash_size` of 8, the 64 bits give a 16-digit hash |
| `TableText.HeaderMarks` | rag_ready/parser/azure_di/merge_table.py:122-127 | one mark per line, set exactly for lines that are a separator rule |
| `TableText.RemoveHeader` | rag_ready/parser/azure_di/merge_table.py:116-131 | the loop writes every line followed by a newline, except the first rule line |
| `TableText.HeaderRemovedKeepsAll` | rag_ready/parser/azure_di/merge_table.py:116-131 | with no rule line, every line is kept |
| `TableText.HeaderRemovedDropsFirst` | rag_ready/parser/azure_di/merge_table.py:116-131 | exactly the first rule line is dropped; later ones are kept |
| `TableText.MergeVerticalTables` | rag_ready/parser/azure_di/merge_table.py:134-136 | the first table stripped, a newline, then the second table without its rule, stripped, and a final newline |
| `TableText.VerticalRoundTrip` | rag_ready/parser/azure_di/merge_table.py:134-136 | merging two rendered tables of the same width renders the rows of both: the second table's header row is kept, its rule is dropped |
| `TableText.CollapseWhitespace` | rag_ready/parser/azure_di/merge_table.py:140 | no whitespace run longer than one space remains; the ends keep whether they were whitespace |
| `TableText.CollapseWords` | rag_ready/parser/azure_di/merge_table.py:140 | collapsing keeps the words (maximal non-whitespace runs) in order, one space between two of them, and one space for whitespace at either end |
| `TableText.NormalizeCellText` | rag_ready/parser/azure_di/merge_table.py:139-140 | the normalised text is stripped, lower case, with single spaces; it is exactly the text's words, lowered and joined by single spaces |
| `TableText.NormalizeByWords` | rag_ready/parser/azure_di/merge_table.py:140 | strip, collapse and lower give the lowered words of the text joined by single spaces |
| `TableText.NormalizeAlike` | rag_ready/parser/azure_di/merge_table.py:139-140 | two texts normalise alike exactly when their words agree up to ASCII case |
| `TableText.WordsStrip` | rag_ready/parser/azure_di/merge_table.py:140 | `strip()` changes no word of the text |
| `TableText.NormalizeNormalized` | rag_ready/parser/azure_di/merge_table.py:139-140 | normalising is idempotent: normalised text is its own normal form |
| `TableText.NormalizeNoneEmpty` | rag_ready/parser/azure_di/merge_table.py:140 | a missing cell text and the empty text both normalise to empty |
| `TableText.NonBlankLines` | rag_ready/parser/azure_di/merge_table.py:161 | only lines with a non-blank strip are kept |
| `TableText.RowCells` | rag_ready/parser/azure_di/merge_table.py:166 | a row line gives at least one cell, each stripped |
| `TableText.MarkdownTableToRows` | rag_ready/parser/azure_di/merge_table.py:160-168 | the loop gives the cell rows of the table's non-blank, non-separator lines |
| `TableText.MaxCols` | rag_ready/parser/azure_di/merge_table.py:174 | the widest row's width: no row is wider, and some row has it |
| `TableText.RowsToMarkdownTable` | rag_ready/parser/azure_di/merge_table.py:171-184 | the loop renders the rows as a markdown table, and `""` for no rows |
| `TableText.MarkdownTableShape` | rag_ready/parser/azure_di/merge_table.py:171-184 | the header row, a `---` rule as wide as the widest row, then the other rows, each padded with empty cells and framed by pipes; the text ends in a newline |
| `TableText.PadShape` | rag_ready/parser/azure_di/merge_table.py:175 | a padded row keeps its cells and is filled to the width with empty cells |
| `TableText.TableRoundTrip` | rag_ready/parser/azure_di/merge_table.py:160-184 | reading a rendered table of plain cells gives its rows back |
| `TableText.ZipRows` | rag_ready/parser/azure_di/merge_table.py:196-197 | `zip_longest` pairs as many rows as the longer table has |
| `TableText.ZipRowsPairs` | rag_ready/parser/azure_di/merge_table.py:196-197 | with equal row counts, merged row `k` is row `k` of the first table followed by row `k` of the second |
| `TableText.ZipLongest` | rag_ready/parser/azure_di/merge_table.py:195-197 | the loop builds exactly the zipped rows |
| `TableText.MergeHorizontalTables` | rag_ready/parser/azure_di/merge_table.py:187-198 | the loop gives the second table when the first has no rows, the first when the second has none, else the rendered zipped rows |
| `TableText.HorizontalRoundTrip` | rag_ready/parser/azure_di/merge_table.py:187-198 | merging two rendered tables with the same number of rows renders, row by row, the first table's cells followed by the second's |
| `TableText.PlainTablesStack` | rag_ready/parser/azure_di/merge_table.py:134-136 | two plain tables of the same width stack into a plain table |
| `MergeTable.MinOffset` | rag_ready/parser/azure_di/merge_table.py:17-22 | the least span offset, attained by some span |
| `MergeTable.MaxEnd` | rag_ready/parser/azure_di/merge_table.py:18-24 | the greatest span end, attained by some span |
| `MergeTable.TableSpanOffsets` | rag_ready/parser/azure_di/merge_table.py:15-28 | the loop gives the least offset and the greatest end, or `(-1, -1)` for a table without spans |
| `MergeTable.MinPage` | rag_ready/parser/azure_di/merge_table.py:41 | the least page number of the regions, attained by one |
| `MergeTable.MergeCandidatesAndIntegralSpans` | rag_ready/parser/azure_di/merge_table.py:31-66 | the loop gives the candidates and the span list of the scan, or the error `min()` raises for a spanned table with no regions |
| `MergeTable.ScanIntegralSpans` | rag_ready/parser/azure_di/merge_table.py:52-64 | one span entry per table, in order, carrying the table's own index and offsets (`-1` for a table without spans) |
| `MergeTable.ScanCandidates` | rag_ready/parser/azure_di/merge_table.py:38-50 | every candidate pairs the last spanned table before a later spanned table (or -1) with that table, whose least page is one more than the earlier one's (than -1 with none); the gap is from the earlier table's end to the later table's start |
| `MergeTable.ScanFindsPairs` | rag_ready/parser/azure_di/merge_table.py:38-50 | conversely, every spanned table whose least page is one more than that of the last spanned table before it (or is 0 with none, since the previous page starts at -1) yields a candidate for the two, when the scan does not raise |
| `MergeTable.CandidateSuccessor` | rag_ready/parser/azure_di/merge_table.py:40-50 | when every table has spans, the table after a candidate's previous table is the one the candidate starts at |
| `MergeTable.ScanIncreasing` | rag_ready/parser/azure_di/merge_table.py:38-62 | the candidates' previous-table indexes strictly increase |
| `MergeTable.PositivePages` | rag_ready/parser/azure_di/merge_table.py:35-42 | with page numbers from 1 up, no candidate points at the `-1` start value |
| `MergeTable.CheckParagraphPresence` | rag_ready/parser/azure_di/merge_table.py:69-75 | true exactly when some paragraph with a role other than page header, footer or number starts a span strictly inside the gap |
| `MergeTable.HeaderCells` | rag_ready/parser/azure_di/merge_table.py:145 | only column-header cells, each taken from the table |
| `MergeTable.HeaderCellsKeep` | rag_ready/parser/azure_di/merge_table.py:145 | every column-header cell is kept |
| `MergeTable.SortByKey` | rag_ready/parser/azure_di/merge_table.py:146 | sorted by `(row_index, column_index)` and a permutation of its input |
| `MergeTable.GetHeaders` | rag_ready/parser/azure_di/merge_table.py:144-150 | the loop gives the table's headers |
| `MergeTable.HeadersMeaning` | rag_ready/parser/azure_di/merge_table.py:144-150 | the headers are the normalised texts of the table's column-header cells, sorted by position |
| `MergeTable.AreTableHeadersEqual` | rag_ready/parser/azure_di/merge_table.py:143-157 | true exactly when both tables have the same non-empty header list |
| `MergeTable.HeadersEqualSelf` | rag_ready/parser/azure_di/merge_table.py:155 | a table matches itself exactly when it has a column-header cell |
| `MergeTable.HeadersEqualSymmetric` | rag_ready/parser/azure_di/merge_table.py:155 | header equality does not depend on the order of the tables |
| `MergeTable.OddPositions` | rag_ready/parser/azure_di/merge_table.py:211 | `polygon[1::2]`: the y coordinates, in order |
| `MergeTable.IsTableTopBanner` | rag_ready/parser/azure_di/merge_table.py:201-220 | the loop gives the banner verdict, `false` where the code would raise |
| `MergeTable.NearTopRate` | rag_ready/parser/azure_di/merge_table.py:210-215 | the division-free test "top in the top fifth" holds exactly when `top_y / page_height` (0 without a height) is below 0.2, for either sign of the height |
| `MergeTable.BannerFromMeaning` | rag_ready/parser/azure_di/merge_table.py:208-216 | a banner exactly when the table is small and some region (all earlier ones readable) starts in the top fifth of its page |
| `MergeTable.BannerIsSmall` | rag_ready/parser/azure_di/merge_table.py:205-215 | a banner has at most 2 rows and at most 6 columns |
| `MergeTable.CoverRate` | rag_ready/parser/azure_di/merge_table.py:92-97 | the x cover rate raises an index error for a bad page or short polygon, and a division error for a missing or zero page width |
| `MergeTable.ScanCover` | rag_ready/parser/azure_di/merge_table.py:91-111 | the region loop gives the cover verdict, stopping at the first covering region |
| `MergeTable.CoverFromTrue` | rag_ready/parser/azure_di/merge_table.py:91-100 | covered exactly when some region covers and every region before it has a readable rate |
| `MergeTable.CoverFromFalse` | rag_ready/parser/azure_di/merge_table.py:91-111 | not covered exactly when every rate is readable and no region covers |
| `MergeTable.CheckHorizontalDistribution` | rag_ready/parser/azure_di/merge_table.py:78-113 | the method gives the side-by-side verdict or the error it raises |
| `MergeTable.HorizontalMeaning` | rag_ready/parser/azure_di/merge_table.py:78-113 | side by side exactly when the row counts match, the first table reaches the right edge and the second the left edge; different row counts always give false |
| `MergeTable.ClassifyMeaning` | rag_ready/parser/azure_di/merge_table.py:231-250 | vertical exactly when nothing separates the tables, the side-by-side check does not raise, and columns and headers match; horizontal exactly when side by side but not vertical; an error exactly when the side-by-side check raises |
| `MergeTable.ClassifyCandidate` | rag_ready/parser/azure_di/merge_table.py:228-248 | the method gives the classification of the candidate |
| `MergeTable.MergePair` | rag_ready/parser/azure_di/merge_table.py:250-291 | the method gives the groups after one merged pair |
| `MergeTable.AddPairGrown` | rag_ready/parser/azure_di/merge_table.py:258-291 | a merged pair extends the last group when that group ends at the previous table, else opens a new group of the two tables |
| `MergeTable.GroupAllWellFormed` | rag_ready/parser/azure_di/merge_table.py:226-293 | every group lists at least two consecutive tables; its offsets are its first table's start and its last table's end |
| `MergeTable.GroupAllOrdered` | rag_ready/parser/azure_di/merge_table.py:226-293 | each group's last table comes before the next group's first table |
| `MergeTable.GroupAllStopsAtError` | rag_ready/parser/azure_di/merge_table.py:226-293 | an exception raised for one candidate is the result of the whole merge |
| `MergeTable.MergedGroups` | rag_ready/parser/azure_di/merge_table.py:223-293 | the groups built from the scan are well formed and ordered |
| `MergeTable.SpliceGroups` | rag_ready/parser/azure_di/merge_table.py:295-308 | the loop gives the text with each group's span replaced by its content and remark |
| `MergeTable.SpliceOne` | rag_ready/parser/azure_di/merge_table.py:295-306 | one group: the text before it, its content, its remark, the text after it |
| `MergeTable.SpliceKeeps` | rag_ready/parser/azure_di/merge_table.py:295-308 | groups that carry their own text unchanged leave the document unchanged |
| `MergeTable.MergeTables` | rag_ready/parser/azure_di/merge_table.py:223-310 | the method gives the merged content, or the exception the code raises |
| `MergeTable.NoMergeNoGroups` | rag_ready/parser/azure_di/merge_table.py:250-293 | when no candidate merges there are no groups |
| `MergeTable.NothingMergedKeepsText` | rag_ready/parser/azure_di/merge_table.py:307-308 | when no candidate merges the content comes back unchanged |
| `MergeTable.OneTableUnchanged` | rag_ready/parser/azure_di/merge_table.py:223-310 | a document with at most one table, whose page numbers start at 1 and whose scan does not raise, comes back unchanged (a lone table on page 0 becomes a candidate with previous index -1, which the code reads as that same table) |
| `DiTools.PageTexts` | rag_ready/parser/azure_di/di_tools.py:100 | the pages joined by the page-break marker give the markdown back, and no page contains the marker |
| `DiTools.SplitMarkdown` | rag_ready/parser/azure_di/di_tools.py:98-108 | the loop numbers the pages of the markdown |
| `DiTools.SplitPagesRoundTrip` | rag_ready/parser/azure_di/di_tools.py:98-108 | at least one page; pages numbered `"1"`, `"2"` and so on; no page contains the marker; joined back they give the markdown; empty markdown gives one empty page |
| `DiTools.SplitPagesLookup` | rag_ready/parser/azure_di/di_tools.py:132 | looking up `str(n)` among the pages finds page `n` exactly when `1 <= n <= page count` |
| `DiTools.NegativeIsNoPage` | rag_ready/parser/azure_di/di_tools.py:298 | a negative page number never names a page |
| `DiTools.FigurePageNumberOf` | rag_ready/parser/azure_di/di_tools.py:189-193 | for a figure id `<page>.<rest>` the page number is `<page>` |
| `DiTools.SanitizeImageNameSafe` | rag_ready/parser/azure_di/di_tools.py:231-232 | the name is the id with `/` and `\` replaced by `_`, then `.png`; it holds no slash or backslash |
| `DiTools.FigureImageUrlShape` | rag_ready/parser/azure_di/di_tools.py:195-203 | the endpoint without trailing slashes, the model path, the figure path and the API version; a trailing slash on the endpoint changes nothing |
| `DiTools.ExtractFigureContent` | rag_ready/parser/azure_di/di_tools.py:265-276 | the text under the first span when its length is positive and its offset is not negative (clamped to the markdown), else empty |
| `DiTools.CaptionTextShape` | rag_ready/parser/azure_di/di_tools.py:278-283 | the stripped caption and the stripped figure text joined by one space, or whichever is non-empty; always stripped |
| `DiTools.ImageTagRoundTrip` | rag_ready/parser/azure_di/di_tools.py:285-286 | the tag `![caption](path)` can be read back into its caption and path when the caption holds no `]` |
| `DiTools.StripInTurn` | rag_ready/parser/azure_di/di_tools.py:335-336 | each strip in turn; the result has no character of the last set at either end |
| `DiTools.CleanEndpoint` | rag_ready/parser/azure_di/di_tools.py:335-337 | the cleaned endpoint does not end in a slash |
| `DiTools.ResolveConfig` | rag_ready/parser/azure_di/di_tools.py:330-340 | an error, `azure_di_config_missing`, exactly when the cleaned endpoint or key is empty; otherwise the cleaned endpoint and key and the proxy flag |
| `DiTools.ResolvedConfigClean` | rag_ready/parser/azure_di/di_tools.py:335-340 | a resolved endpoint and key are non-empty; the endpoint does not end in a slash and the key is stripped |
| `DiTools.FirstWithin` | rag_ready/parser/azure_di/di_tools.py:250-253 | the path of the first saved hash within the threshold, or `None` when no saved hash is within it |
| `DiTools.Put` | rag_ready/parser/azure_di/di_tools.py:162 | a new hash is appended; an existing one keeps its place |
| `DiTools.PutMeaning` | rag_ready/parser/azure_di/di_tools.py:162 | `processed_hash[h] = p` keeps the keys distinct, keeps the other entries and holds `(h, p)` |
| `DiTools.ImageRegistry.FindDuplicateImagePath` | rag_ready/parser/azure_di/di_tools.py:244-253 | the loop gives the path of the first saved hash within the threshold, or `None` |
| `DiTools.ImageRegistry.Register` | rag_ready/parser/azure_di/di_tools.py:154-162 | a non-empty duplicate path is reused and nothing is recorded; otherwise the image's own path is used and recorded under its hash |
| `DiTools.SavedImageIsFound` | rag_ready/parser/azure_di/di_tools.py:157-162 | once saved, a hash finds a duplicate of itself for any threshold from 0 up |
| `DiTools.IdenticalImagesSavedOnce` | rag_ready/parser/azure_di/di_tools.py:154-162 | a second figure with the same hash reuses the path chosen for the first |
| `DiTools.LastWithNumber` | rag_ready/parser/azure_di/di_tools.py:132 | `pages_map` keeps, for each number, the last page that has it |
| `DiTools.FirstContaining` | rag_ready/parser/azure_di/di_tools.py:305-306 | the first page whose text contains the figure text |
| `DiTools.Appended` | rag_ready/parser/azure_di/di_tools.py:315-319 | the page text ends in the tag and a newline |
| `DiTools.TagTarget` | rag_ready/parser/azure_di/di_tools.py:296-313 | some page is chosen exactly when there are pages |
| `DiTools.FigurePages.ReplaceOrAppendImageTag` | rag_ready/parser/azure_di/di_tools.py:288-320 | true exactly when there is a page to place the tag on; the pages become the pages with the tag placed |
| `DiTools.PlaceTagChangesOnePage` | rag_ready/parser/azure_di/di_tools.py:288-320 | page numbers are kept, only the chosen page changes, and it then contains the tag |
| `DiTools.PlaceTagReplaces` | rag_ready/parser/azure_di/di_tools.py:300-308 | when some page holds the figure text, its first occurrence becomes the tag: on the figure's own page when that page holds it, else on the first page that does |
| `DiTools.PlaceTagAppends` | rag_ready/parser/azure_di/di_tools.py:310-319 | when no page holds the figure text, the tag is appended to the figure's own page, or to the first page when none has its number |
| `DiTools.ReplaceBySpanContentExample` | scripts/test_image_tag_restore.py:13-19 | `aaa [FIGURE] bbb` on page 1 becomes `aaa ![x](images/1.png) bbb` |
| `DiTools.AppendWhenNotFoundExample` | scripts/test_image_tag_restore.py:22-28 | with no figure text, `hello` on page 2 becomes `hello`, a blank line, the tag and a newline |
| `WriteOutputFiles.TruncateReal` | rag_ready/steps/write_output_files_step.py:37 | `int()` of a float truncates toward zero |
| `WriteOutputFiles.AddToPage` | rag_ready/steps/write_output_files_step.py:41 | `setdefault(n, []).append(s)`: the segment goes to the end of page `n`, a new page `n` is added last, the others are kept |
| `WriteOutputFiles.GroupSegments` | rag_ready/steps/write_output_files_step.py:34-41 | the loop gives the page groups and whether some segment had a readable page |
| `WriteOutputFiles.GroupsMeaning` | rag_ready/steps/write_output_files_step.py:34-41 | the pages are exactly the page numbers of the segments, and each page holds its segments in their original order |
| `WriteOutputFiles.NoPageAllOnPageOne` | rag_ready/steps/write_output_files_step.py:36-44 | with no readable page at all, every segment is on page 1, in order |
| `WriteOutputFiles.SortByPage` | rag_ready/steps/write_output_files_step.py:46 | the pages sorted by number, a permutation of the groups |
| `WriteOutputFiles.SortedStrictly` | rag_ready/steps/write_output_files_step.py:46 | with distinct page numbers the sorted pages strictly ascend |
| `WriteOutputFiles.WriteTexts` | rag_ready/steps/write_output_files_step.py:49-53 | the loop writes each non-blank text right-stripped and followed by a blank line |
| `WriteOutputFiles.BlankSegmentsSkipped` | rag_ready/steps/write_output_files_step.py:50-53 | segments whose text is blank write nothing |
| `WriteOutputFiles.WritePages` | rag_ready/steps/write_output_files_step.py:46-54 | each page: the page-number comment, the page heading, its texts, the page-break comment |
| `WriteOutputFiles.WriteSegmentsMarkdown` | rag_ready/steps/write_output_files_step.py:30-54 | the method writes the rendering of the segments |
| `WriteOutputFiles.WrittenPages` | rag_ready/steps/write_output_files_step.py:30-54 | the pages written are distinct, are exactly the segments' pages, and each holds its own segments in order |
| `WriteOutputFiles.Execute` | rag_ready/steps/write_output_files_step.py:13-28 | `no_segments_to_write` exactly when there are no segments; otherwise the rendered `segments.md` text |

## Left out

- The call to Document Intelligence is not part of this model. That covers the client,
  the poller, the operation id, `layout_mode_load`, and the building of `DocumentInfo`.
  The analysed result is an input value (`MergeTable.AnalyzeResult`).
- The image fetch with retries, the HTTP session and headers are not part of this model.
  Neither are the image directory, writing files, `segments.json`, `os.path.relpath` and
  logging. These are I/O; the model starts from their results.
- `_extract_images` is modelled one figure at a time, not as one loop. Per figure it is
  `DiTools.ImageRegistry.Register` followed by `DiTools.FigurePages.ReplaceOrAppendImageTag`.
  Skipping a figure with no id or a failed fetch is left out: it only skips.
- `_extract_figure_caption` and `_html_to_text` are not part of this model. They read SDK
  objects, HTML entities and regular expressions. The figure's HTML-to-text conversion
  is a function parameter of `DiTools.BuildCaptionText`.
- `_compute_image_hash` is not part of this model: it calls PIL. So are `Image.resize`
  and `convert("L")` in `dhash`. `FileUtils.DHash` starts from the grey pixels. The
  fallback to the file name is the choice between the hash and the name, with
  `DiTools.HashThreshold` giving the threshold.
- `calculate_file_md5` is not part of this model: it reads a file.
- `FileUtils.DHash`: requires exactly `(hash_size + 1) * hash_size` pixels, which PIL's
  resize guarantees.
- `FileUtils.GetFileExtension`: follows POSIX path rules (`posixpath.splitext`): only `/`
  ends a path component. On Windows `ntpath` also splits at `\` (and a drive colon), so
  `dir.v2\file` has the extension `v2\file` here and none there.
- `PyStr.Lower`: lowers ASCII letters only. Python's `lower()` also folds non-ASCII
  letters.
- `PyStr.ParseInt`: accepts optional whitespace, a sign and ASCII digits. `int()` also
  accepts underscores between digits and non-ASCII digits.
- Floating-point coordinates, widths and heights are real numbers. Rounding is not
  modelled.
- `WriteOutputFiles.Execute`: the `isinstance(segments, list)` test is not modelled. The
  segments are always a sequence here.
- `WriteOutputFiles.PageOf`: `int()` of a value other than an absent value, an integer,
  a text or a float is not modelled.
- `merge_table.py`'s `_get_table_page_numbers` is folded into `MergeTable.MinPage`.
- `_is_table_top_banner` returns `false` when an exception is raised. The model returns
  `false` on the same inputs; which exception was raised is not kept.
- Aliasing between `pages` and `pages_map` is not modelled as shared objects. In the model
  the page list is one sequence field, and a page is found by number with
  `DiTools.LastWithNumber`, which is what the dictionary comprehension keeps.
- The functions in `scripts/test_image_tag_restore.py` call `_replace_or_append_image_tag`
  without its `pages_map` argument. The example lemmas state the behaviour those
  functions assert, with the map built from the pages as `_extract_images` builds it.
