# NA216 spreadsheet-to-BIDS conversion: a verified model of its core

The conversion script reads subject rosters, one regional-measurement workbook per subject, and label
workbooks, and writes BIDS-style tables. This project models the deterministic logic of that script.
Spreadsheets come in as already-parsed values and tables come out as values. The parts modelled:

- **Subject identifiers.** The in-vivo roster number becomes `sub-` followed by the number zero-padded to
  three characters. The ex-vivo roster's cross-reference column is rewritten in three passes:
  `i` → `sub-`, then the `-` placeholder → the ex-vivo database number, then `ex` → `sub-ex`.
  Workbook file stems are split on `_`, and the code branches on the token count.
- **The regional variable table**, for each modality (in vivo, then ex vivo):
  - A region key is the `-`-join of a row's non-empty hemisphere, label and abbreviation cells.
  - The reference layout `row2col` comes from the two sheets of the reference workbook.
  - Each subject sheet is classified against that layout as matched, mismatched or unreadable. Its vector
    is then the designated columns concatenated column by column, all zeros, or all `999`.
  - Column names are built type-major, so they line up with the flattened data.
  - The table is assembled with the identifier first, sorted by identifier, and every `999` is turned into null.
- **The Label006 table**: six constant rows.

Modules: `Base` (Option/Result), `Text` (Python's `join`, `split`, `replace`, `str()` of integers, string order),
`SubjectIds`, `Sheets`, `Variables` and `Labels`. The subject loops, the in-place column rewrite, the in-place sort
and the in-place sentinel replacement are methods with loops. Everything else is functions and lemmas.

Cells are `Blank` (NaN), `Text` or `Num`. Measurements are integers. A sheet read is `Missing` or `Read(sheet)`.
The model takes these as inputs and does not read any files.

The model follows what the code does, with one exception: the fallback widths. A sheet that fails is
evidently meant to be replaced by a vector as wide as that sheet's matched vector, and the tables are built
that way. The script's fixed widths are modelled beside them, and their consequences are proved (see
"Left out" and "Findings"). Points where the code's behaviour is easy to misread:

- A subject sheet whose key sequence has a different number of rows from the reference is substituted with
  `999`s, not zeros. In the code, comparing two unequal-length pandas Series raises, and the `except` catches it.
- A sheet missing a designated column is also substituted with `999`s: the positional index raises inside the `try`.
- When the ex-vivo reference sheets disagree, the code does not stop. It keeps the in-vivo layout.
  Only the in-vivo stage has no earlier layout to fall back on and fails (`row2col` is undefined).
- An in-vivo file stem with no second `_`-token stops the whole run (IndexError outside the `try`).
  No in-vivo workbook is ever skipped.
- `pd.DataFrame` pads rows shorter than the widest one with NaN. It fails when the widest row's width is not
  the number of column names. `Assemble` models both behaviours.

## Model

| member | source | states |
|---|---|---|
| Text.JoinSplit | move-to-bids.py:218 | joining the `_`-pieces of a stem with `_` gives the stem back |
| Text.SplitPieces | move-to-bids.py:218-219 | no piece contains `_`, and there is one piece more than there are `_` characters |
| Text.SplitJoin | move-to-bids.py:218-222 | splitting a `_`-join of `_`-free tokens gives back exactly those tokens |
| Text.ReplaceCharIsMapChar | move-to-bids.py:56 | `replace` with a one-character pattern equals the character-wise substitution |
| Text.RemoveChar | move-to-bids.py:222 | `replace('i', '')` leaves no `i`, and leaves a string without `i` unchanged |
| Text.ReplaceAbsent | move-to-bids.py:61 | `replace` leaves a string in which the pattern never occurs unchanged |
| Text.ValueOfDecimal | move-to-bids.py:55 | the decimal text of a number reads back as that number |
| Text.ValueOfZeros | move-to-bids.py:55 | leading zeros do not change the value of a digit string |
| Text.PadLeftValue | move-to-bids.py:55 | padding to a width keeps a digit string a digit string of the same value, and leaves a string already that wide unchanged |
| Text.DecimalFits | move-to-bids.py:55 | `str(n)` has at most `k` digits exactly when `n < 10^k` |
| Text.PaddedNumber | move-to-bids.py:55 | `f"{n:0wd}"` has at least `w` characters, exactly `w` below `10^w`, no leading zero beyond the padding, and reads back as `n` |
| Text.LessEqTotal | move-to-bids.py:185 | Python string order is total |
| Text.LessEqTransitive | move-to-bids.py:185 | Python string order is transitive |
| Text.LessEqAntisymmetric | move-to-bids.py:185 | Python string order is antisymmetric |
| SubjectIds.InvivoId | move-to-bids.py:55 | every identifier starts with `sub-` |
| SubjectIds.InvivoIds | move-to-bids.py:55 | the roster column is rewritten element by element, same length and order |
| SubjectIds.InvivoIdDigits | move-to-bids.py:55 | a non-negative number gives `sub-` plus at least 3 digits. There are exactly 3 below 1000, and above that no leading zero. The digits read back as the number |
| SubjectIds.InvivoIdNegative | move-to-bids.py:55 | a negative number keeps its sign after `sub-`, and the sign counts toward the width of 3. So there are at least 2 digits, exactly 2 when the number is above -100, and beyond that no leading zero. The digits read back as the absolute value |
| SubjectIds.InvivoIdInjective | move-to-bids.py:55-68 | different roster numbers give different identifiers, so the in-vivo merge key stays unique |
| SubjectIds.InvivoIdsDistinct | move-to-bids.py:55-68 | a roster column of distinct numbers gives a column of distinct identifiers |
| SubjectIds.CrossReferenceMatchesInvivoId | move-to-bids.py:56-68 | an ex-vivo cross-reference `i` + 3 digits becomes exactly the in-vivo roster's identifier, so the rosters meet on the merge key |
| SubjectIds.PlaceholderTakesExvivoNumber | move-to-bids.py:59-61 | a `-` placeholder row ends up as `sub-ex` + digits of its own ex-vivo number |
| SubjectIds.CanonicaliseCrossReferences | move-to-bids.py:56-61 | the three in-place passes leave every entry equal to `CrossReference` of its old value and its database number |
| SubjectIds.RenameMarkers | move-to-bids.py:56 | every entry has each `i` replaced by `sub-`, and nothing else changes |
| SubjectIds.FillPlaceholders | move-to-bids.py:59-60 | exactly the entries equal to `-` take that row's ex-vivo database number; the others are unchanged |
| SubjectIds.PrefixExvivoNumbers | move-to-bids.py:61 | every entry has each `ex` replaced by `sub-ex` |
| SubjectIds.InvivoFileId | move-to-bids.py:142 | an identifier exists exactly when the stem has a second `_`-token |
| SubjectIds.InvivoFileIdOfTokens | move-to-bids.py:142 | the in-vivo identifier is `sub-` plus the second token |
| SubjectIds.ExvivoFileId | move-to-bids.py:218-225 | a name is identified exactly when it has 3 or 4 tokens, and the identifier starts with `sub-` |
| SubjectIds.ExvivoFileIdThreeTokens | move-to-bids.py:219-220 | 3 tokens give `sub-` plus the second token |
| SubjectIds.ExvivoFileIdFourTokens | move-to-bids.py:221-222 | 4 tokens give `sub-` plus the third token with every `i` removed |
| Sheets.KeyCells | move-to-bids.py:127 | the key cells are columns 1, 2 and 3: none for a sheet of width at most 1, `width - 1` below width 4, otherwise exactly 3 |
| Sheets.Keys | move-to-bids.py:127 | one key per sheet row |
| Sheets.BlankContributesNothing | move-to-bids.py:127 | a missing key cell contributes neither text nor a separator |
| Sheets.RegionKeySplits | move-to-bids.py:127 | with `-`-free parts, the key splits back into the present parts in column order |
| Sheets.RegionKeyOfThree | move-to-bids.py:127 | three text cells give hemisphere-label-abbreviation |
| Sheets.FlattenLength | move-to-bids.py:153 | the flattened vector has one value per designated column and row |
| Sheets.FlattenAt | move-to-bids.py:153 | concatenation is column-major: position `k*n + r` holds row `r` of designated column `k` |
| Sheets.Classify | move-to-bids.py:149-159 | matched exactly when the sheet reads, its keys equal the reference and every designated column exists; mismatched exactly when it reads with the same row count as the reference but different keys |
| Sheets.MatchedVectorLength | move-to-bids.py:152-153 | a matched sheet contributes `cols * n` values |
| Sheets.MatchedVectorAt | move-to-bids.py:152-153 | a matched sheet has exactly `n` rows; position `k*n + r` holds column `k` of the row whose key is `reference[r]` |
| Sheets.SheetVector | move-to-bids.py:149-171 | a mismatched sheet contributes its zero-fallback width of zeros, and an unreadable one its missing-fallback width of `999`s |
| Variables.ReferenceLayout | move-to-bids.py:127-133 | the layout is the reference keys only when both sheets read and agree; otherwise it is the earlier layout or a fatal error, with the exact failure conditions |
| Variables.NamesLength | move-to-bids.py:135 | one name per suffix and region |
| Variables.NamesAt | move-to-bids.py:135 | names are type-major: position `k*n + r` is `row2col[r] + suffix[k]` |
| Variables.NamesAppend | move-to-bids.py:135 | the names of two suffix lists are the first list's names followed by the second's |
| Variables.OutColumns | move-to-bids.py:211 | `(suffix count) * n` output columns |
| Variables.OutColumnCounts | move-to-bids.py:135 | 9 names per region in vivo, 7 ex vivo |
| Variables.CorrectedRowWidth | move-to-bids.py:174 | with fallbacks sized for the layout, every subject row is exactly as wide as the column list, whatever its sheets do |
| Variables.SizedVectorLength | move-to-bids.py:149-171 | with fallbacks sized for the layout, a sheet contributes `cols * n` values whatever its outcome |
| Variables.MatchedRowAligned | move-to-bids.py:135-179 | in a corrected row, when the sheet holding measurement type `k` matches (whatever the other sheet did), the cell at `k*n + r` is type `k` of the row whose key is `reference[r]`, under the name `reference[r] + suffix[k]`, and the row is as wide as the names |
| Variables.MatchedRowFirst | move-to-bids.py:153-174 | when the first sheet matches, block `k < c1` of the row holds its column `k`, region by region |
| Variables.MatchedRowSecond | move-to-bids.py:165-174 | when the first sheet's vector has its matched width and the second sheet matches, block `c1 + k2` holds the second sheet's column `k2` |
| Variables.Recognised | move-to-bids.py:218-225 | each workbook kept by the ex-vivo loop has an identifying name, and no more are kept than were enumerated |
| Variables.RecognisedMembers | move-to-bids.py:223-225 | a workbook contributes exactly when its name identifies a subject |
| Variables.RecognisedCount | move-to-bids.py:218-225 | an identified workbook is kept exactly as often as it was enumerated, any other not at all, so there is one row per identified workbook |
| Variables.RecognisedAppend | move-to-bids.py:215-225 | the kept workbooks of a concatenated enumeration are those of each part, in enumeration order |
| Variables.InvivoKeepsAll | move-to-bids.py:142 | with no fatal stem, every in-vivo workbook contributes |
| Variables.Collect | move-to-bids.py:139-174 | the loop fails exactly on a fatal stem, with the first fatal stem as the error; otherwise identifiers and rows pair up (`Pairs`), one per contributing workbook, in order |
| Variables.PairsAppend | move-to-bids.py:142-174 | appending a workbook's identifier and row together keeps the pairing |
| Variables.InsertAt | move-to-bids.py:185 | one insertion step extends the sorted prefix by one place, permutes the records and leaves the part after it unchanged |
| Variables.MaxWidth | move-to-bids.py:179 | the widest row's width bounds every row and is reached by one |
| Variables.Assemble | move-to-bids.py:179-180 | succeeds exactly when there are no rows or the widest row has one cell per name; rows padded with nulls, identifiers attached |
| Variables.AssembleExact | move-to-bids.py:179-180 | rows of the right width are taken unchanged |
| Variables.SortById | move-to-bids.py:185 | the in-place sort leaves the records ordered by identifier and as a permutation of the input |
| Variables.SortedPermutationUnique | move-to-bids.py:185 | with distinct identifiers, two sorted permutations of the same records are equal |
| Variables.SubjectRecordsPermute | move-to-bids.py:139-174 | two listings of the same workbooks, in any order, give the same multiset of subject records |
| Variables.ProducedOrderFree | move-to-bids.py:139-188 | two listings of the same workbooks under one layout give the same table once identifiers are distinct, so the table does not depend on the file listing's order |
| Variables.NullRecord | move-to-bids.py:188 | replacement keeps a record's identifier and width and replaces cell by cell |
| Variables.Nulled | move-to-bids.py:188 | replacement keeps the row count and replaces record by record |
| Variables.NullSentinel | move-to-bids.py:188 | a cell becomes null exactly when it was 999 or already null; other cells are unchanged |
| Variables.NulledShape | move-to-bids.py:188 | replacement keeps row count, widths, identifiers, order and non-sentinel cells, and is idempotent |
| Variables.NullSentinels | move-to-bids.py:267 | the in-place replacement leaves the array equal to `Nulled` of its old contents |
| Variables.BuildTable | move-to-bids.py:179-188 | identifier column first, records a sorted permutation with sentinels nulled; fails exactly when assembly fails |
| Variables.VariableTable | move-to-bids.py:123-191 | fails exactly on a fatal layout or stem. Otherwise the result is `Produced`: the identifier column, then the output columns; one record per contributing workbook, sorted and of full width; the contents are a sorted permutation of the subject records with sentinels nulled |
| Variables.CollectedAssembles | move-to-bids.py:174-180 | the rows collected under layout-sized fallbacks all fit, and the frame holds exactly the subject records |
| Variables.VariableTables | move-to-bids.py:31-270 | all four reference sheets are read first. The in-vivo table fails exactly when a reference sheet is unreadable, the in-vivo layout fails or an in-vivo stem is fatal. The ex-vivo table fails exactly when the in-vivo one does or the ex-vivo layout fails, and then the in-vivo table is still produced. The ex-vivo run inherits the in-vivo layout. Each table is `Produced` from its workbooks, with `1 + 9n` and `1 + 7n'` columns, and every in-vivo workbook gives a record |
| Variables.FailedSheetsAfterReplacement | move-to-bids.py:149-171 | with fallbacks sized for the layout, after replacement an unreadable sheet leaves only nulls in its columns and a mismatched one leaves only zeros |
| Variables.InvivoFallbacksFitOnly446 | move-to-bids.py:156-171 | the fixed in-vivo fallback widths equal the matched widths exactly for 446 regions |
| Variables.InvivoCorrectedAgrees | move-to-bids.py:156-171 | for 446 regions the corrected in-vivo rows are the script's rows |
| Variables.ExvivoFallbacksNeverFit | move-to-bids.py:235-250 | the fixed ex-vivo fallback widths equal the matched widths for no region count |
| Variables.ExvivoUnreadableSubjectBreaksTable | move-to-bids.py:236-258 | as written, with that subject as the only workbook: an ex-vivo subject with both sheets unreadable gets a 4460-wide row and the frame cannot be built |
| Variables.ExvivoUnreadableRowBreaksAnyTable | move-to-bids.py:236-258 | as written, for up to 637 regions, one such row among any collected rows makes the frame fail |
| Variables.ExvivoUnreadableSubjectCorrected | move-to-bids.py:236-258 | with corrected widths that subject's row fits and turns into nulls |
| Variables.ExvivoDtiMismatchPadded | move-to-bids.py:243-258 | as written, at 446 regions, a subject with a matched T2w and a mismatched DTI sheet gets a 1784-wide row. Next to a fully matched subject the frame is still built, and that record holds zeros only in cells 892..1783; cells 1784..3121 are null |
| Variables.ExvivoT2wMissingDtiMismatchMisaligned | move-to-bids.py:238-258 | as written, at 446 regions, an unreadable T2w sheet next to a mismatched DTI sheet gives a row of exactly 3122 cells that the frame takes unpadded. Positions 892..2229, the DWI-volume, AD and FA columns, come out null; only 2230..3121 hold zeros |
| Variables.ExvivoDtiMismatchCorrected | move-to-bids.py:243-258 | with corrected widths the same frame is built, and the mismatched subject's whole DTI block (cells `2n..7n-1`) is zero |
| Labels.Label006 | move-to-bids.py:278-281 | the three column headers in order, then 6 rows numbered 1..6 with the fixed names in order and the atlas column null |

## Left out

- Reading spreadsheets, enumerating files and writing TSV/JSON are I/O. Sheets arrive as `SheetResult`
  values, and a read failure is only the `Missing` variant. Printed diagnostics are left out too.
- File enumeration order is an input sequence. `Path.stem` is not computed: workbooks are given by their stems.
- The participant table is not modelled beyond identifier canonicalisation. That covers the pandas outer
  merge, the positional renaming and dropping, the species column and the column reorder. These depend
  on the rosters' unseen column layout and on pandas merge semantics.
- The image-availability flags are not modelled. The table they build is never written, and all five
  in-vivo flags are copied from `iv_t2`.
- The JSON sidecar and the Label052/Label111 pass-through copies are not modelled: they contain no logic.
- Measurements are integers, not floats. A numeric key cell is rendered as integer decimal text;
  pandas would render a float such as `1.0`.
- Pandas' behaviour on a sheet with no rows or fewer than two columns is not modelled. There, `apply`
  returns a frame instead of a series. The model derives an empty key sequence, or empty keys.
- Duplicate column names are not modelled.
- Variables.VariableTable: sizes each sheet's fallback vectors for the layout (the corrected behaviour
  below). It does not use the script's fixed 1784/2230/892. Those agree with it in vivo for 446 regions.
  Ex vivo they are modelled separately under Findings.
- Variables.VariableTables: uses the corrected fallback widths too, so its ex-vivo table is the intended one.
  As written, an ex-vivo subject whose two sheets are both unreadable makes the frame fail at l.258 for up to 637
  regions. A mismatched DTI sheet leaves nulls where zeros belong, and next to an unreadable T2w sheet it gives
  a row the frame takes misaligned. These are proved under Findings.
- Variable-table records are not required to have unique identifiers. SortedPermutationUnique is stated for
  distinct identifiers.

## Findings

| source | as written | input that shows it | evidently intended | confidence | as-written member | corrected member |
|---|---|---|---|---|---|---|
| move-to-bids.py:238 | an unreadable ex-vivo T2w sheet (2 designated columns) is replaced by 2230 sentinels | any layout of `n` regions and one identified ex-vivo workbook whose two sheets are both unreadable: its row has 4460 cells, but there are `7n` names, never 4460, so building the frame at l.258 raises. The script stops there: the ex-vivo table is lost, and the label tables written at l.276-288 are never produced either. `ExvivoUnreadableSubjectBreaksTable` shows this for that one workbook; `ExvivoUnreadableRowBreaksAnyTable` shows it for such a row among any others, for up to 637 regions. At 446 regions, a subject with an unreadable T2w sheet and a mismatched DTI sheet gets 2230 + 892 = 3122 = `7n` cells: the frame takes that row silently, misaligned, with the DWI-volume, AD and FA columns null and only MD and RD zero (`ExvivoT2wMissingDtiMismatchMisaligned`) | each fallback vector as wide as the sheet's matched vector (`2n` and `5n`, as the in-vivo fallbacks are for 446 regions) | high; not executed | Variables.ExvivoUnreadableSubjectBreaksTable | Variables.ExvivoUnreadableSubjectCorrected |
| move-to-bids.py:247 | a mismatched ex-vivo DTI sheet (5 designated columns) is replaced by 892 zeros | 446 regions; one workbook with both sheets matched (row of 892 + 2230 = 3122 cells) and one whose T2w sheet matches but whose DTI sheet has other keys (892 + 892 = 1784 cells). The frame pads the short row, so its last 1338 cells come out null instead of zero | a zero vector as wide as the matched DTI vector (`5n`) | high; not executed | Variables.ExvivoDtiMismatchPadded | Variables.ExvivoDtiMismatchCorrected |
