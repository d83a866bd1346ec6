# vgrep, modelled in Dafny

vgrep is an interactive front end to `grep` and `git grep`. A search fills a
list of matches. Each match is a record `[index, file, line, content]`, and
its index label is always its position in the list. Short commands then
work on that list: delete records, count them per file or per directory,
print context lines, open them in an editor. These commands take a
selector language of numbers and ranges, e.g. `1,3-5`. The result tables
are printed by a small column writer, coloured with a few ANSI escape codes.

This project models that core and proves its properties. It has these modules:

- `Wrappers`: `Option` and `Result`.
- `Strconv`: `strconv.Itoa` and `strconv.Atoi`.
- `Strs`: `strings.TrimSpace`, `strings.Split`, `bytes.SplitN`, `strings.Join`, `strings.Repeat`, and the non-empty comma runs the selector regex finds.
- `Sorting`: `sort.Ints` and `sort.Strings`, as a sort function with its ordering lemmas.
- `Ansi`: `internal/ansi/ansi.go`, with `RemoveANSI` as a left-to-right scanner.
- `Colwriter`: `internal/colwriter/colwriter.go`. The padding functions are pure. `ColWriter` is a class with a `Size` array, an open flag and the list of strings written so far.
- `Backend`: `splitMatch`.
- `Selectors`: `parseSelectors`. The selection is specified as a set; the method builds the sorted list.
- `Store`: the record list as the class `MatchList`, together with:
  - the `grep` loop;
  - `checkIndices`;
  - one round of `commandDelete` and the corrected whole deletion;
  - the counting behind `commandListFiles` and `commandListTree`;
  - `sortKeys`;
  - the `getContextLines` window.
- `Commands`:
  - the command pattern of `dispatchCommand`, as a hand-written greedy recogniser;
  - the decision it takes, as an `Action` datatype;
  - `Dispatch`, which performs a delete on a `MatchList`;
  - the selector rewrite at the start of `commandParse`.
- `Cache`: the cache envelope of `cacheWriterHelper` and `loadCache`.
- `DeleteFinding`: `commandDelete`'s loop as written. See Findings.

The central invariant is `Store.Labelled`: record `i` carries the label
`Itoa(i)`. `grep` sets it up. A deletion keeps it: `DeleteAt` does, and so
does the corrected `CommandDelete`. A dispatched command keeps it too, because `Dispatch` deletes with the corrected `CommandDelete`, not with the loop as written.

## Model

| member | source | states |
|---|---|---|
| Ansi.Color | internal/ansi/ansi.go:43-57 | the text comes back unchanged exactly when the colour is DEFAULT |
| Ansi.ColorNamed | internal/ansi/ansi.go:21-56 | for BLACK..GRAY the text is wrapped in ESC "[" 3x "m" … ESC "[0m", or ESC "[" 9x "m" when bright, where x is the colour digit: codes 30..37 and 90..97 |
| Ansi.Code | internal/ansi/ansi.go:50-54 | for DEFAULT and every colour above it the code is at least 29, so its decimal spelling never starts with '-' |
| Ansi.Bold | internal/ansi/ansi.go:59-62 | adds eight characters, its opening and closing codes; RemoveANSIBold states that they are invisible |
| Ansi.Underline | internal/ansi/ansi.go:64-67 | adds eight characters, its opening and closing codes; RemoveANSIUnderline states that they are invisible |
| Ansi.RemoveANSI | internal/ansi/ansi.go:69-72 | removal never lengthens a text |
| Ansi.RemoveANSIPlain | internal/ansi/ansi.go:69-72 | a text without ESC is kept as it is |
| Ansi.RemoveANSIAppend | internal/ansi/ansi.go:69-72 | the left-to-right scan splits over a concatenation at a boundary: the second half is empty, starts with ESC, or starts with a character that can neither continue nor end an escape sequence |
| Ansi.RemoveANSILeading | internal/ansi/ansi.go:16 | a complete sequence ESC '[' [0-9;]* final-letter at the front is dropped, and the rest is scanned as if it were alone |
| Ansi.OpenerIsEscape | internal/ansi/ansi.go:56 | the opener ESC "[" code "m" is one complete escape sequence for every non-negative code |
| Ansi.ResetRemoved | internal/ansi/ansi.go:56 | the closing ESC "[0m" is one complete escape sequence and is removed entirely |
| Ansi.RemoveANSIColor | internal/ansi/ansi.go:43-72 | removing the escape codes of a coloured text gives what removing them from the plain text gives (DEFAULT, and every colour whose code is not negative) |
| Ansi.RemoveANSIBold | internal/ansi/ansi.go:59-72 | the same for Bold |
| Ansi.RemoveANSIUnderline | internal/ansi/ansi.go:64-72 | the same for Underline |
| Ansi.RemoveANSIOnePass | internal/ansi/ansi.go:69-72 | one pass is not idempotent: ESC ESC "[0m" "[0m" leaves ESC "[0m", which a second pass removes |
| Colwriter.PadLeft | internal/colwriter/colwriter.go:170-176 | widths are Go's `len`, the UTF-8 byte length: the text is unchanged when it is already padding bytes wide; otherwise it ends the result and what precedes it is Repeat(pad, padding − len), padding − len copies of the pad; with a one-byte pad the result is exactly max(padding, len) bytes wide, and with a one-character pad every added character is the pad |
| Colwriter.PadRight | internal/colwriter/colwriter.go:179-185 | the mirror image of PadLeft, widths again in bytes: the text starts the result and Repeat(pad, padding − len) follows it |
| Colwriter.PadLength | internal/colwriter/colwriter.go:170-185 | with a pad of any length and len counting bytes, the result is padding − len(str) times the pad's length longer than str, in characters and in bytes |
| Colwriter.PadNone | internal/colwriter/colwriter.go:188-190 | the identity |
| Colwriter.PaddingFunc.Apply | internal/colwriter/colwriter.go:169-190 | a column's padding function keeps a text that is already as wide as the column, and PadNone keeps every text |
| Strs.ByteLen | internal/colwriter/colwriter.go:72 | Go's `len` on a string, the length of its UTF-8 encoding: between one and four bytes per character |
| Strs.ByteLenAscii | internal/colwriter/colwriter.go:72 | a text is as long in bytes as in characters exactly when it is ASCII |
| Strs.ByteLenAppend | internal/colwriter/colwriter.go:175 | the byte length of a concatenation is the sum of the byte lengths |
| Strs.ByteLenRepeat | internal/colwriter/colwriter.go:175 | count copies of a text are count times as long in bytes |
| Strs.Repeat | internal/colwriter/colwriter.go:175 | strings.Repeat: count copies of s, i.e. count times as many characters as s, starting with s (when count > 0) and repeating every len(s) characters; with a one-character s every character is that one |
| Strs.TrimSpaceBytes | internal/colwriter/colwriter.go:154-156 | trimming never makes a cell wider in bytes |
| Colwriter.DataCell | internal/colwriter/colwriter.go:153-164 | a printed cell ends with " " before the first row's last column and with a newline from that column on |
| Colwriter.HeaderCell | internal/colwriter/colwriter.go:133-142 | a header cell ends with the same separator as a data cell of its column |
| Colwriter.CellText | internal/colwriter/colwriter.go:154-156 | the text a data cell pads is never wider in bytes than the cell, and holds ESC only when the cell does |
| Colwriter.DataCellVisible | internal/colwriter/colwriter.go:153-164 | with its escape codes removed, a data cell reads as its padded text followed by its separator: the colour adds nothing visible |
| Colwriter.HeaderCellVisible | internal/colwriter/colwriter.go:133-142 | the same for a header cell: underline and colour add nothing visible |
| Colwriter.CellWidth | internal/colwriter/colwriter.go:170-185 | PadLeft or PadRight with a blank pad brings a text without escape codes that fits the column to exactly the column's width in bytes, and adds no escape code |
| Colwriter.WidestIsMax | internal/colwriter/colwriter.go:63-75 | the width ComputeSize leaves for column i is at least its old value and at least the byte length of every row's cell i, and it equals one of them |
| Colwriter.ColWriter.New | internal/colwriter/colwriter.go:42-60 | numColumns columns of width 0 and colour DEFAULT; PadRight everywhere except PadNone in the last column; no trimming; Headers, UseLess and the open flag all false |
| Colwriter.ColWriter.ComputeSize | internal/colwriter/colwriter.go:63-75 | the in-place nested loop leaves each Size[i] as the running maximum of its old value and the byte lengths of column i |
| Colwriter.ColWriter.Open | internal/colwriter/colwriter.go:78-95 | sets the open flag |
| Colwriter.ColWriter.Close | internal/colwriter/colwriter.go:98-111 | panics with "Close() on unopened ColWriter\n" when the writer is not open; otherwise clears the flag |
| Colwriter.ColWriter.WriteString | internal/colwriter/colwriter.go:114-119 | panics on an unopened writer and writes nothing; otherwise writes the string |
| Colwriter.ColWriter.FormatHeader | internal/colwriter/colwriter.go:133-142 | the statements of one header round compute exactly HeaderCell, whose visible text HeaderCellVisible states |
| Colwriter.ColWriter.FormatData | internal/colwriter/colwriter.go:153-164 | the statements of one data round compute exactly DataCell, whose visible text DataCellVisible states |
| Colwriter.ColWriter.WriteHeader | internal/colwriter/colwriter.go:132-145 | writes the header cells in column order |
| Colwriter.ColWriter.WriteRow | internal/colwriter/colwriter.go:153-165 | writes the cells of one data row in column order |
| Colwriter.ColWriter.WriteData | internal/colwriter/colwriter.go:146-166 | writes the data rows in order; row k is bright exactly when k is even |
| Colwriter.ColWriter.PrintRows | internal/colwriter/colwriter.go:127-166 | prints nothing for no rows; otherwise prints the header row (when Headers is set) and then the data rows |
| Colwriter.ColWriter.Write | internal/colwriter/colwriter.go:122-167 | panics on an unopened writer and changes neither the sizes nor the output; otherwise widens the columns first (in bytes), then prints every cell |
| Colwriter.Render | internal/colwriter/colwriter.go:130-166 | Write prints exactly one string per cell |
| Colwriter.RenderCellAt | internal/colwriter/colwriter.go:146-166 | without headers, cell i of row k is printed after all cells of the earlier rows; it is bright exactly when k is even |
| Colwriter.RenderHeaderAt | internal/colwriter/colwriter.go:132-145 | with headers, the first row is printed first: padded, underlined and bright |
| Colwriter.RenderAligned | internal/colwriter/colwriter.go:122-167 | the columnised layout the package comment (colwriter.go:1-3) promises: after ComputeSize, every printed data cell of a padded column in a table without a header row, with its escape codes removed, is exactly the column's width plus one byte wide and ends with its separator, so the columns line up |
| Colwriter.HeaderAligned | internal/colwriter/colwriter.go:122-145 | the same for the header cells |
| Colwriter.RenderHeadedCellAt | internal/colwriter/colwriter.go:132-166 | with a header row, cell i of data row k (k ≥ 1) is printed after the header cells and all cells of the earlier data rows; it is bright exactly when k − 1 is even |
| Colwriter.RenderHeadedAligned | internal/colwriter/colwriter.go:122-167 | the same alignment as RenderAligned for every data cell printed under a header row |
| Colwriter.CellShown | internal/colwriter/colwriter.go:153-185 | a data cell of a padded, coloured column whose text fits shows exactly the column's width plus one byte and ends with its separator |
| Backend.SplitMatchGitRoundTrip | vgrep.go:187-190 | git mode maps file NUL line NUL content back to (file, line, content) when file and line hold no NUL |
| Backend.SplitMatchGitSound | vgrep.go:187-190 | a git-mode line that splits is exactly its three fields joined by NUL |
| Backend.SplitMatchGrepRoundTrip | vgrep.go:187-194 | grep mode maps file NUL line ":" content back to (file, line, content) when file, line and content hold no NUL and line holds no ':' |
| Backend.SplitMatchGrepSound | vgrep.go:187-194 | a grep-mode line that splits is its fields joined by NUL and ':', followed only by text from a further NUL on, which is dropped |
| Backend.SplitMatchFields | vgrep.go:187-195 | the file and line fields never hold NUL; in grep mode the line holds no ':' and the content holds no NUL |
| Backend.SplitMatch | vgrep.go:187-195 | a line without NUL cannot be split (the source indexes `spl[1]` past the end and panics); otherwise it splits exactly when the text after the first NUL holds a second NUL (git grep) or, before any second NUL, a ':' (grep) |
| Backend.SplitMatchAsWritten | vgrep.go:187-195 | the separator-search model equals SplitMatchN, a direct transcription of the two bytes.SplitN calls (vgrep.go:188-194), with None for every index panic |
| Strconv.Itoa | vgrep.go:176 | the decimal spelling: digits only for a non-negative number, a '-' and digits otherwise |
| Strconv.Atoi | vgrep.go:701 | a text that parses is not empty, and a negative result comes from a leading '-' |
| Strconv.AtoiItoa | vgrep.go:176 | Atoi reads back every label Itoa writes as the number it was written from |
| Strconv.ItoaInjective | vgrep.go:176 | two numbers with the same Itoa spelling are equal |
| Strconv.AtoiDigits | vgrep.go:374-380 | a group of decimal digits reads back as its decimal value |
| Strs.TrimSpace | vgrep.go:700 | the result starts and ends with a non-space character; a text that already does is kept as it is |
| Strs.Split | vgrep.go:620 | there is one part more than there are separators; no part holds the separator; joining the parts with Join (strings.Join, vgrep.go:626) gives the text back |
| Strs.SplitN | vgrep.go:188 | SplitN finds between one and n parts |
| Strs.SplitNJoin | vgrep.go:188 | joining the parts SplitN finds gives the text back |
| Strs.SplitNFree | vgrep.go:188 | every part SplitN finds but the last is free of the separator |
| Strs.SplitNFewer | vgrep.go:188 | with fewer than n parts SplitN has split at every separator: it finds what Split finds, so the last part is free of the separator too |
| Strs.Fields | vgrep.go:697 | the items the pattern ([^,]+) finds are non-empty and hold no comma |
| Sorting.Sort | vgrep.go:747 | the result is a permutation of the input in non-descending order; it is strictly ascending when the input has no duplicates |
| Sorting.AscendingUnique | vgrep.go:747 | two strictly ascending lists with the same members are equal |
| Sorting.StringOrder | vgrep.go:293 | the byte-wise string order sort.Strings uses is a strict total order |
| Selectors.ToIntItoa | vgrep.go:699-706 | a decimal numeral with blanks around it reads as its value |
| Selectors.ToInt | vgrep.go:699-706 | a selector that does not parse fails with "Non-numeric selector '<trimmed>'"; a negative number comes only from a text holding '-' |
| Selectors.ItemIndices | vgrep.go:718-744 | an item with two or more '-' fails with "Invalid range format '<item>'"; a successful item selects at least one index |
| Selectors.Selected | vgrep.go:717-745 | a selection succeeds exactly when each of its items does |
| Selectors.NonNumeric | vgrep.go:699-724 | an item without '-' whose trimmed text is not a number fails with "Non-numeric selector '<trimmed>'" |
| Selectors.RangeSymmetric | vgrep.go:725-741 | A-B and B-A select the same indices: exactly min(A,B) .. max(A,B) |
| Selectors.RangeItem | vgrep.go:725-741 | an item of two numbers around one "-" selects the span between them, in either order |
| Selectors.SpanMembers | vgrep.go:734-741 | the swap makes the range loop run over min .. max whichever end came first |
| Selectors.IntervalMembers | vgrep.go:739-741 | the range loop adds exactly the integers from lo to hi |
| Selectors.CombineOk | vgrep.go:717-745 | a selection succeeds exactly when every item does |
| Selectors.FirstErrorWins | vgrep.go:717-745 | the first failing item's error is the selection's error |
| Selectors.SelectedUnion | vgrep.go:717-745 | a successful selection is the union of what its items select |
| Selectors.SelectedNonNegative | vgrep.go:717-745 | no index is ever negative: '-' splits a range before any number is read |
| Selectors.CommasOnly | vgrep.go:697-717 | empty input, or input of commas only, selects nothing and succeeds |
| Selectors.ItemNumber | vgrep.go:717-724 | an item of blanks and a numeral selects that one number |
| Selectors.SelectedNumber | vgrep.go:717-724 | a blank followed by a number n selects exactly {n} |
| Selectors.CombineSingletons | vgrep.go:717-745 | items that each select one number together select the set of those numbers |
| Selectors.AddIndex | vgrep.go:708-715 | the list stays free of duplicates; the index is appended exactly when it is absent |
| Selectors.AddRange | vgrep.go:739-741 | the loop of addIndex calls adds exactly the range and keeps the list free of duplicates |
| Selectors.AddSpan | vgrep.go:734-741 | the swap and the range loop add exactly the span between the two ends and keep the list free of duplicates |
| Selectors.AddItem | vgrep.go:717-744 | one item succeeds exactly when its selection does, adds exactly its indices, and fails with its error |
| Selectors.ParseSelectors | vgrep.go:695-749 | succeeds exactly when the selection does, with the same error otherwise; the result holds exactly the selected indices in strictly increasing order, so sorted and without duplicates ("1,1,2,2" gives [1,2]) |
| Store.Relabel | vgrep.go:176 | every record is labelled with its position; its other fields are kept |
| Store.RelabelLabelled | vgrep.go:176 | relabelling a labelled list changes nothing |
| Store.FirstOutOfRange | vgrep.go:345-349 | finds the first index outside [0, n−1], or reports that there is none |
| Store.AllPositions | vgrep.go:338-343 | the list 0 .. n−1 |
| Store.CheckIndices | vgrep.go:337-351 | an empty selection means every position; otherwise the input comes back unchanged when every index is in range, and else the error RangeError, "Index i out of range (0, n−1)" (vgrep.go:347), names the first index that is not |
| Store.Build | vgrep.go:171-180 | the records built from the first n output lines are n, labelled by position |
| Store.BuildRecordAt | vgrep.go:173-179 | record k holds the file, line and content that splitMatch gives for output line k |
| Store.BuildSucceeds | vgrep.go:173-179 | building succeeds exactly when every output line splits |
| Store.BuildPrefix | vgrep.go:173-179 | once a line fails to split, every longer prefix of the output fails too |
| Store.MatchList.Grep | vgrep.go:171-180 | without a panic the list is the records built from all output lines; otherwise the first line that cannot be split is reported |
| Store.Survivors | vgrep.go:560 | of the first n records, at most n survive |
| Store.DeleteAll | vgrep.go:560 | the corrected deletion never lengthens the list |
| Store.SurvivorsMembers | vgrep.go:560 | a record survives a deletion exactly when its position is not deleted |
| Store.SurvivorsCount | vgrep.go:560 | deleting k distinct in-range positions leaves n − k records |
| Store.DeleteNothing | vgrep.go:560 | deleting nothing from a labelled list changes nothing |
| Store.DeleteOneMore | vgrep.go:560 | deleting one more position p removes exactly record p from what survived before, at its new position |
| Store.MatchList.DeleteSelected | vgrep.go:570-577 | deleting an ascending selection of positions leaves exactly the other records, in order, relabelled by position |
| Store.DeleteStep | vgrep.go:570-577 | after offset deletions of an ascending selection, the next record sits at sel[offset] − offset; removing it and relabelling gives the state after offset + 1 deletions |
| Store.MatchList.DeleteAt | vgrep.go:572-576 | one round of the loop removes exactly the record at the index, keeps the others in order, and leaves every label equal to its position |
| Store.MatchList.CommandDelete | vgrep.go:561-580 | out-of-range selections are refused with checkIndices' error and the list untouched; otherwise the selected records are removed, the others keep their order and are relabelled by position |
| Store.FileCountPositive | vgrep.go:664-668 | a file's count is positive exactly when some selected record is in that file |
| Store.FileCount | vgrep.go:664-668 | a file's count over n selected records is at most n |
| Store.MatchList.FileCounts | vgrep.go:664-668 | the map counts the selected records per file, and its keys are exactly the files with a positive count |
| Store.CountPrefixes | vgrep.go:625-628 | one path adds one to each of its strict prefixes of 0 .. k−1 components, and nothing to any other key |
| Store.PrefixHits | vgrep.go:625-628 | the first i prefixes of a path add at most i to a key |
| Store.PrefixHitsRoot | vgrep.go:625-628 | a path whose first component is neither "" nor "." adds one to "" and nothing to "." |
| Store.TreeHitsRoot | vgrep.go:617-629 | such a path adds one to exactly one of "" and "." |
| Store.TreeCountRoot | vgrep.go:617-629 | count[""] + count["."] equals the number of selected records when no path starts with "/" or "./" |
| Store.CountPath | vgrep.go:620-629 | one record's path adds one under "." when it has no '/', and otherwise one under each of its directory prefixes; no other key changes |
| Store.MatchList.TreeCounts | vgrep.go:617-629 | the map counts, per directory prefix, the selected records under it; its keys are exactly the prefixes with a positive count |
| Store.SortKeys | vgrep.go:288-295 | the keys are exactly the map's keys, in strictly ascending byte order |
| Store.WindowPrefix | vgrep.go:503-515 | after upTo lines the rows are the lines from max(1, line − n) to min(upTo, line + n), in order |
| Store.Window | vgrep.go:503-515 | at most one row per line read, each row a line number and a text |
| Store.WindowAround | vgrep.go:484-518 | for a match line inside the file, the window holds the rows max(1, line − n) .. min(len, line + n), and the match line's row shows the matched content |
| Store.MatchList.ContextLines | vgrep.go:484-518 | no rows when the line number does not parse or the file cannot be read; otherwise the rows of the window, the scan ending after line + n |
| Commands.CommandLengthIs | vgrep.go:359 | the greedy command run has length i exactly when the first i characters are in [a-z?] and the next one is not |
| Commands.DigitLengthIs | vgrep.go:359 | the greedy digit run has length i exactly when the first i characters are digits and the next one is not |
| Commands.ContextValue | vgrep.go:372-380 | the context is −1 exactly when no digits follow the command; otherwise it is the digits' non-negative value |
| Commands.Interpret | vgrep.go:355-434 | an empty line is ignored; a line is refused exactly when it does not match the command pattern; a bad selector is reported exactly when the line matches and its selectors do not parse; a delete always carries a non-empty selection |
| Commands.Message | vgrep.go:355-434 | dispatchCommand's own messages (not the index errors checkIndices prints for delete, tree, files and context): one is printed exactly for a non-matching line, a bad selector, a delete or show without selectors, a show (which falls through to the last message) and an unsupported command; for a bad selector it is the selector's error |
| Commands.Recognise | vgrep.go:359-371 | the three groups concatenate to the input; the command is a non-empty run of [a-z?], the context is digits, the selectors are in [0-9 ,-]; the selectors never start with a digit |
| Commands.RecogniseAccepts | vgrep.go:359-364 | the greedy recogniser succeeds exactly when the input splits into the three groups at all |
| Commands.GroupsUnique | vgrep.go:359-371 | any split into the three groups is the one the recogniser finds |
| Commands.InterpretGroups | vgrep.go:382-434 | a recognised line whose selectors parse is decided by its command |
| Commands.Decide | vgrep.go:388-434 | the decision deletes exactly for "d" or "delete" with a non-empty selection, and then deletes that selection; delete and show refuse an empty selection with their own message; show shows a non-empty selection; it quits exactly for "q" or "quit" |
| Commands.QuitOnly | vgrep.go:355-435 | the command loop stops exactly for "q" or "quit" with selectors that parse |
| Commands.SelectorsFirst | vgrep.go:382-386 | a bad selector is reported whatever the command, even an unsupported one |
| Commands.DeleteContextOnly | vgrep.go:359-402 | "d" or "delete" followed only by digits reads the digits as context lines and selects nothing, so delete refuses it with "Delete requires specified selectors" |
| Commands.ShowNumber | vgrep.go:419-427 | "s" followed by a space and any number n shows exactly record n |
| Commands.ShowMessage | vgrep.go:419-433 | after show the source falls through to "Unsupported command \"s\"" |
| Commands.SelectorNoCommand | vgrep.go:359-364 | any input whose first character is not a command letter, such as a bare selector "3", does not match the command pattern |
| Commands.QuitWords | vgrep.go:415-417 | "q" or "quit", followed by nothing or by digits only, quits |
| Commands.Dispatch | vgrep.go:355-435 | performs the decision: returns true only for quit; only a delete with in-range selections changes the list, and it deletes with the corrected CommandDelete, removing exactly the selected records; every other line leaves the list untouched; a delete with an index out of range reports CheckIndices' error (vgrep.go:563-565); the list stays labelled |
| Commands.ListingSnoc | vgrep.go:305-307 | each index is written followed by a comma |
| Commands.SplitListing | vgrep.go:303-307 | splitting the listing at commas gives the numerals and a final empty item |
| Commands.ListingChars | vgrep.go:303-307 | the listing holds only selector characters |
| Commands.SelectedListing | vgrep.go:303-307 | the rewritten selectors parse back to the same set of indices |
| Commands.ShowListing | vgrep.go:303-307 | "s " followed by the listing is dispatched as a show of exactly those indices |
| Commands.ShowLine | vgrep.go:304-307 | the loop writes "s " followed by each index and a comma |
| Commands.ShowSelected | vgrep.go:303-307 | the rewritten line shows exactly the selection the original line denoted |
| Commands.RewriteSelectors | vgrep.go:303-308 | a line that is a non-empty well-formed selection becomes a show of that selection; any other line is kept as it is |
| Cache.Envelope | vgrep.go:244 | the stored rows are the records followed by one row holding the working directory |
| Cache.LoadCache | vgrep.go:272-281 | an empty cache loads as it is; otherwise the last row is dropped, and an error is reported exactly when its directory differs from the current one (the records are kept even then); a last row with no field panics |
| Cache.CacheRoundTrip | vgrep.go:244-281 | loading in the directory the cache was written in gives back exactly the stored records, without error |
| Cache.CacheMoved | vgrep.go:272-281 | loading elsewhere keeps the records and reports "please cd into <dir> to use old cache" |
| DeleteFinding.Shifted | vgrep.go:572-574 | the relabel loop lowers the label of every record after idx by one and leaves the rest alone |
| DeleteFinding.AsWritten | vgrep.go:570-577 | the loop as written: when it does not panic it removes one record per index, and it panics only for a non-empty selection |
| DeleteFinding.ShiftedRemove | vgrep.go:572-576 | on a labelled list, relabelling from idx and then cutting out idx leaves the list labelled by position |
| DeleteFinding.DeleteOne | vgrep.go:560 | deleting one position of a labelled list is cutting it out and relabelling |
| DeleteFinding.AsWrittenSingle | vgrep.go:570-577 | for a single index the loop as written does what its comment promises |
| DeleteFinding.WrongRecordsDeleted | vgrep.go:570-577 | deleting 0 and 1 from records in files a, b, c, d keeps the records in b and c |
| DeleteFinding.RightRecordsKept | vgrep.go:560 | the documented effect of that deletion keeps c and d |
| DeleteFinding.SliceOutOfRange | vgrep.go:575-576 | deleting 1 and 3 from five records passes checkIndices, then in the second round takes `Matches[index+1:]`, i.e. `Matches[5:]`, of a list of four |

## Left out

- Process and environment plumbing is left out: running `grep`/`git grep` (`runCommand`, `insideGitTree`, building the command line), reading `EDITOR`, and launching the editor in `commandShow`. The `Show` action stands for the editor launches.
- Printing is left out: the help text, the tables that `commandPrintMatches`, `commandListFiles` and `commandListTree` hand to the column writer, `commandPrintContextLines` and its separator-width loop, and logging. The model covers the counts and context rows these commands compute.
- The interactive loop of `commandParse` that reads standard input is left out. Only the selector rewrite at its start is modelled.
- Cache I/O is left out: the file, its JSON encoding, the background writer goroutine and the cache lock file. The current working directory is a parameter.
- The `less` pager in `Open` and `Close` and the `bufio` flushing are left out. What the writer prints is modelled as the list of strings handed to `Fprintf`, one per cell.
- Colwriter.PaddingFunc: a column's padding is one of the three padding functions, not an arbitrary function value.
- Colwriter.ColWriter.New: requires at least one column. With zero columns the source indexes `Padding[-1]` and panics.
- Colwriter.ColWriter.Write: requires every row to fit the column arrays. The source panics with an index out of range otherwise.
- Colwriter.ColWriter.ComputeSize: has the same requirement as Write.
- Strconv.Atoi: integers are unbounded, so the range error `strconv.Atoi` gives for numbers that overflow a 64-bit int is not modelled.
- Selectors.ParseSelectors: integers are unbounded, so the range loop `for i := from; i <= to; i++` (vgrep.go:739-741) always ends; in Go, a range whose upper end is the largest int ("9223372036854775806-9223372036854775807") wraps i around to the smallest int and never returns, where the model returns the two indices. The same holds for Selectors.AddRange and Selectors.Selected.
- Commands.ContextValue: for the same reason, the context-lines group never fails to convert. The source's message for a context that overflows is left out.
- Backend.SplitMatch: a line that does not have the expected fields makes the source index past the end of its split and panic. The model returns None, and `Store.MatchList.Grep` reports the first such line.
- Ansi.RemoveANSIColor: requires the colour code to be non-negative. A colour below −30 would write `ESC[-NNm`, which the removal pattern does not match. The named colours and DEFAULT all satisfy the requirement.
- Store.TreeCountRoot: requires that no selected path starts with "/" or "./". A path starting with "/" adds two to "" and nothing to "."; one starting with "./" adds one to each. Either way the sum exceeds the number of records. The per-path counts themselves (`TreeCounts`) are modelled for every path.
- Strs.Fields: states only that the items are non-empty and comma-free, not that they are the maximal non-comma runs in order. The selector lemmas rely on its definition for that.
- Sorting.Sort: `sort.Ints` and `sort.Strings` are modelled by their result (a sorted permutation), not by Go's algorithm.
- Store.MatchList.ContextLines: the file arrives as its list of lines, or None when it cannot be opened. The line splitting of `bufio.Scanner` and its token-size limit are not modelled.
- Bold and Underline are plain wrapper functions. Their property is that the escape codes they add are removed again (`RemoveANSIBold`, `RemoveANSIUnderline`).
- Commands.Dispatch: deletes with the corrected CommandDelete. The source's loop as written is DeleteFinding.AsWritten (see Findings); for more than one index it removes other records or panics.
- Store.TreeHits and Store.TreeCount: the per-path and per-key counts of `commandListTree` are definitions without a contract of their own; their properties are the lemmas CountPrefixes, PrefixHitsRoot, TreeHitsRoot, CountPath and TreeCountRoot.
- Colwriter.RenderAligned, Colwriter.RenderHeadedAligned and Colwriter.HeaderAligned: the alignment is stated for columns with a colour (DEFAULT or a named one), PadLeft or PadRight, and cells without escape codes. The last column uses PadNone by default and is not padded.

## Findings

| source | as written | input that shows it | evidently intended | confidence | as-written member | corrected member |
|---|---|---|---|---|---|---|
| vgrep.go:570-577 | each round removes position `idx + offset` of a list that has already lost `offset` records, and relabels from the original `idx` | deleting [0, 1] from four records removes the first and the last, keeping b and c; deleting [1, 3] from five records takes `Matches[index+1:]`, i.e. `Matches[5:]`, of a four-record list in the second round and panics (vgrep.go:576) | remove exactly the selected records and relabel the rest (the comment at vgrep.go:560), i.e. remove position `idx − offset` | not executed | DeleteFinding.AsWritten, DeleteFinding.WrongRecordsDeleted, DeleteFinding.SliceOutOfRange | Store.MatchList.CommandDelete |
