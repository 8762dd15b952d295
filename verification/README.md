# Stanbic CSD / Calypso securities reconciliation — a Dafny model

The reconciliation app compares two position reports for the securities
Stanbic Bank Ghana holds:

- the custodian's CSD report, a table whose rows spread one security over
  several rows (narration, ISIN and face value need not share a row);
- the Calypso trading-system export, one row per position.

`reconcile` normalises ISINs and amounts, rebuilds one record per ISIN row
of the CSD report, keeps the records whose narration names
"STANBIC BANK GHANA LIMITED" and whose face value is known, and then runs
two independent matching passes:

- forward: every kept CSD record against the first Calypso row with its ISIN;
- reverse: every Calypso row against the first kept CSD record with its ISIN.

Two amounts agree when they are equal after rounding to two places. Each pass
yields a matched and an unmatched list (with a reason and a rounded
difference), and each gets a summary table of ten insights.

The model is split along the program's own stages:

| file | module | what it models |
|---|---|---|
| `wrappers.dfy` | `Wrappers` | `Option` (a missing / NaN cell) and `Result` (a run that raises) |
| `chars.dfy` | `Chars` | the ASCII character classes |
| `isin.dfy` | `Isin` | `normalize_isin` |
| `numbers.dfy` | `Numbers` | `clean_number`, `pd.to_numeric(errors="coerce")` on the stripped text, `round(x, 2)` |
| `extraction.dfy` | `Extraction` | the row loop building `aligned_records`, and the Stanbic filter |
| `matching.dfy` | `Matching` | the forward and reverse passes |
| `aggregation.dfy` | `Aggregation` | the totals and the two summary tables |
| `reconcile.dfy` | `Reconcile` | the whole of `reconcile` up to the spreadsheet writing |

Amounts are exact decimals (`real`). `round(x, 2)` is modelled as rounding
to the nearest hundredth with ties to the even hundredth. A missing cell is
`None`. The row loop is modelled as a left fold and proved equal to an
independent definition by segments (`Extraction.ExtractIsSegmented`).

Three behaviours of the code are modelled as written, although a reader of
the code might expect otherwise:

- The narration column is converted with `astype(str)` before the loop, so
  (with pandas 2.x) a missing narration becomes the text `"nan"`. The loop's "narration is
  present" test therefore always holds. Every record carries its own ISIN
  row's narration, and a narration is never carried forward to later rows.
- `normalize_isin` deletes `\W` characters, so the underscore (a `\w`
  character) survives in a normalised ISIN.
- The unmatched-only sums read columns of a DataFrame built from the
  unmatched list. When that list is empty the DataFrame has no columns and
  `reconcile` raises `KeyError: 'Total Face Value CSD'`. This happens in
  particular when every security matches in either direction.

## Model

| member | source | states |
|---|---|---|
| Isin.NormalizeIsin | stanbic_recons_app.py:52-54 | a missing cell gives ""; otherwise the result holds only upper-case letters, digits and underscores and is never longer than the cell's text |
| Isin.NormalizeIsinIsUpperWords | stanbic_recons_app.py:54 | stripping after the deletion never removes anything: the result is exactly the cell's word characters, in order, upper-cased |
| Isin.NormalizeIsinIdempotent | stanbic_recons_app.py:52-54 | normalising an already normalised ISIN changes nothing |
| Isin.NormalizeIsinIgnoresNonWord | stanbic_recons_app.py:54 | inserting any non-word character (space, hyphen, punctuation) anywhere in the cell does not change the ISIN |
| Isin.NormalizeIsinIgnoresCase | stanbic_recons_app.py:54 | upper-casing the cell first does not change the ISIN |
| Isin.NormalizeIsinExample | stanbic_recons_app.py:52-54 | the cell " gh-0001 " normalises to "GH0001" |
| Isin.WordCharsKeepsWords | stanbic_recons_app.py:54 | the deletion keeps a text of word characters unchanged |
| Isin.WordCharsAppend | stanbic_recons_app.py:54 | the deletion works character by character: it distributes over concatenation |
| Numbers.CleanNumber | stanbic_recons_app.py:56-59 | a missing cell gives an absent amount; a present cell gives a number exactly when its digits, points and minus signs form a well-formed decimal (minus only in front, at most one point, at least one digit) |
| Numbers.ParseDecimal | stanbic_recons_app.py:59 | the coercing parse yields a number exactly when the stripped text is a well-formed decimal, and otherwise the absent value |
| Numbers.ParseDecimalReadsLiteral | stanbic_recons_app.py:59 | every decimal literal with at least one digit, signed or not, with or without a fraction, reads back as the number it spells |
| Numbers.CleanNumberIgnoresNoise | stanbic_recons_app.py:58 | thousands separators, currency codes, spaces and any other character that is not a digit, point or minus sign are insignificant |
| Numbers.NumericCharsKeepsNumeric | stanbic_recons_app.py:58 | a text of digits, points and minus signs is kept as it is |
| Numbers.CleanNumberReadsFormattedAmount | stanbic_recons_app.py:56-59 | the cell "1,234.56 GHS" gives 1234.56 |
| Numbers.CleanNumberRejectsExamples | stanbic_recons_app.py:56-59 | "", "-" and "1.2.3" give the absent amount |
| Numbers.Round2 | stanbic_recons_app.py:87 | the result is a whole number of hundredths within half a hundredth of the input |
| Numbers.Round2Fixes | stanbic_recons_app.py:87 | a whole number of hundredths rounds to itself |
| Numbers.Round2Idempotent | stanbic_recons_app.py:87 | rounding twice is rounding once |
| Numbers.Round2Monotone | stanbic_recons_app.py:87 | rounding preserves order |
| Numbers.Round2Negate | stanbic_recons_app.py:95 | rounding commutes with negation (ties go to even on both sides) |
| Numbers.Round2Antisymmetric | stanbic_recons_app.py:95 | the rounded differences a - b and b - a are opposite |
| Extraction.Extract | stanbic_recons_app.py:69-77 | the loop yields at most one record per row, and every record has a non-blank ISIN |
| Extraction.ExtractIsSegmented | stanbic_recons_app.py:69-77 | the loop builds exactly the reference records: rows before the first ISIN row are ignored; each ISIN row opens a record with its own ISIN, its own narration text, and the last face value present on the rows up to the next ISIN row |
| Extraction.FoldMeetsSegmented | stanbic_recons_app.py:69-77 | from any state, the loop sets the last open record's value from the leading non-ISIN rows and then appends the reference records |
| Extraction.ExtractKeys | stanbic_recons_app.py:72-75 | there is one record per ISIN row, in row order, with that row's ISIN and that row's own narration text |
| Extraction.ExtractDropsLeadingValueRows | stanbic_recons_app.py:76 | face-value rows before the first ISIN row leave no trace |
| Extraction.ExtractIgnoresIsinRowValue | stanbic_recons_app.py:74-75 | a face value on an ISIN row itself is ignored |
| Extraction.ExtractValueRow | stanbic_recons_app.py:76-77 | a later non-ISIN row with a face value overwrites the last record's value; one without a face value changes nothing |
| Extraction.FoldIgnoresStartNarration | stanbic_recons_app.py:70-73 | the records built do not depend on the narration the loop starts with |
| Extraction.NarrationText | stanbic_recons_app.py:62 | a present narration is kept as it is and a missing one becomes "nan" |
| Extraction.Retain | stanbic_recons_app.py:79 | the filter keeps at most as many records as it is given, and every kept record's narration contains "STANBIC BANK GHANA LIMITED" |
| Extraction.ContainsIff | stanbic_recons_app.py:79 | the substring test holds exactly when the marker occurs at some position of the narration |
| Extraction.RetainMembers | stanbic_recons_app.py:79 | a record is retained exactly when some extracted record has the marker in its narration and a present face value, and it is that record unchanged |
| Extraction.RetainAppend | stanbic_recons_app.py:79 | the filter keeps relative order: filtering a concatenation filters each part |
| Extraction.MissingNarrationNeverRetained | stanbic_recons_app.py:79 | a record whose narration cell was missing is never retained |
| Matching.FindCalypso | stanbic_recons_app.py:84-86 | the lookup returns the index of the first Calypso row with the ISIN, or nothing when no row has it |
| Matching.ForwardOne | stanbic_recons_app.py:83-104 | a forward verdict carries its record's ISIN and face value; a matched one agrees to two places, an unmatched one is a value mismatch or "ISIN not found in Calypso" |
| Matching.ForwardPass | stanbic_recons_app.py:81-104 | the matched and unmatched lists together hold one verdict per retained record |
| Matching.ReverseOne | stanbic_recons_app.py:107-133 | a reverse verdict carries its Calypso row's ISIN and position; a matched one has a present position that agrees to two places, an unmatched one is a value mismatch or "ISIN not found in CSD" |
| Matching.ReversePass | stanbic_recons_app.py:106-133 | the matched and unmatched lists together hold one verdict per Calypso row |
| Matching.ForwardFound | stanbic_recons_app.py:85-96 | with the ISIN found, the record is matched exactly when the first row's position is present and agrees; otherwise a value mismatch with the rounded CSD-minus-Calypso difference, an absent position counting as 0 |
| Matching.ForwardNotFound | stanbic_recons_app.py:97-104 | with the ISIN absent, the record is unmatched as "ISIN not found in Calypso" with the rounded CSD value as difference |
| Matching.ReverseFound | stanbic_recons_app.py:110-125 | with the position present and the ISIN retained, the row is matched exactly when the first retained record agrees; otherwise a value mismatch with the rounded Calypso-minus-CSD difference |
| Matching.ReverseNotFound | stanbic_recons_app.py:109-133 | with the ISIN not retained, or with the position absent even when the ISIN is retained, the row is reported "ISIN not found in CSD" with the rounded position (absent when the position is) |
| Matching.ForwardReverseAgree | stanbic_recons_app.py:84-125 | a record and a Calypso row that are each other's first match get the same verdict in both passes; with a present Calypso position their mismatch differences are opposite, and with an absent one forward reports a value mismatch while reverse reports "ISIN not found in CSD" |
| Matching.ForwardPassKeepsIsins | stanbic_recons_app.py:81-104 | each retained record contributes its ISIN once to exactly one of the two forward lists: the ISINs of both lists together are, as a multiset, those of the retained records |
| Matching.ReversePassKeepsIsins | stanbic_recons_app.py:106-133 | each Calypso row contributes its ISIN once to exactly one of the two reverse lists: the ISINs of both lists together are, as a multiset, those of the Calypso rows |
| Matching.ForwardPassAppend | stanbic_recons_app.py:82 | the forward pass treats each record on its own and keeps order: the pass over a concatenation is the concatenation of the passes |
| Matching.ReversePassAppend | stanbic_recons_app.py:107 | the reverse pass treats each Calypso row on its own and keeps order |
| Matching.ForwardMatchedSound | stanbic_recons_app.py:84-88 | every forward-matched pair agrees to two places with the position of the first Calypso row with its ISIN |
| Matching.ForwardUnmatchedSound | stanbic_recons_app.py:89-104 | every forward-unmatched entry has a CSD amount and one of the two forward reasons, with the lookup result and the difference that reason implies |
| Matching.ReverseMatchedSound | stanbic_recons_app.py:110-115 | every reverse-matched pair agrees with the first retained record with its ISIN |
| Matching.ReverseUnmatchedSound | stanbic_recons_app.py:116-133 | every reverse-unmatched entry has one of the two reverse reasons, with the lookup result and the difference that reason implies |
| Matching.SplitKeepsIsins | stanbic_recons_app.py:81-104 | each verdict lands in exactly one of the two lists |
| Matching.SplitMembers | stanbic_recons_app.py:88-104 | a pair is in the matched list exactly when its verdict is among the verdicts, and likewise for entries |
| Aggregation.TotalCsd | stanbic_recons_app.py:138 | the total equals the running sum taken from the first record to the last: the total of all but the last record plus the last face value |
| Aggregation.TotalCalypso | stanbic_recons_app.py:139 | the total equals the running sum over the Calypso rows in order, an absent position adding nothing |
| Aggregation.SuccessRate | stanbic_recons_app.py:152 | the rate is a whole number of hundredths within half a hundredth of matched × 100 / evaluated; it lies in [0, 100], is 0 when nothing matched (and when nothing was evaluated) and 100 when something matched and nothing is unmatched |
| Aggregation.SuccessRateMonotone | stanbic_recons_app.py:152 | with the same number evaluated, more matches never give a lower rate |
| Aggregation.SuccessRateExamples | stanbic_recons_app.py:152 | 3 matched of 5 is 60%, nothing evaluated is 0% |
| Aggregation.Summarize | stanbic_recons_app.py:135-181 | a summary fails exactly when its unmatched list is empty, with the KeyError message; otherwise it counts matched plus unmatched as evaluated, gives the three unmatched-only values as the sums of the unmatched list's CSD, Calypso and difference columns (absent cells skipped), carries the two all-record totals, and its "Difference Total - All" is CSD minus Calypso forward and Calypso minus CSD in reverse |
| Aggregation.SummariesMirror | stanbic_recons_app.py:156-179 | both tables show the same all-record totals; the forward "Difference Total - All" is total CSD minus total Calypso, the reverse one total Calypso minus total CSD, so they are opposite |
| Aggregation.DifferenceUnmatchedBound | stanbic_recons_app.py:153-176 | the unmatched-only difference total is within half a cent per entry of the difference of the two unmatched-only column totals |
| Aggregation.ForwardEntriesConsistent | stanbic_recons_app.py:95-103 | every forward-unmatched difference is its own entry's CSD minus Calypso, to within half a cent |
| Aggregation.ReverseEntriesConsistent | stanbic_recons_app.py:122-132 | every reverse-unmatched difference is its own entry's Calypso minus CSD, to within half a cent |
| Aggregation.SplitTotals | stanbic_recons_app.py:81-133 | splitting verdicts into the matched and unmatched lists neither loses nor adds a CSD amount or a Calypso position |
| Aggregation.ForwardOneCsd | stanbic_recons_app.py:88-103 | every forward verdict, matched or not, carries its record's face value |
| Aggregation.ReverseOneCalypso | stanbic_recons_app.py:115-132 | every reverse verdict carries its Calypso row's position, an absent one counting as 0 |
| Aggregation.ForwardCsdTotal | stanbic_recons_app.py:138-153 | the face values of all retained records are the forward-matched amounts plus the forward unmatched-only CSD total |
| Aggregation.ReverseCalypsoTotal | stanbic_recons_app.py:139-175 | the positions of all Calypso rows are the reverse-matched positions plus the reverse unmatched-only Calypso total |
| Aggregation.ForwardOneCalypso | stanbic_recons_app.py:85-101 | every forward verdict carries the position of the first Calypso row with the record's ISIN, 0 when that position is absent or the ISIN is not found |
| Aggregation.ForwardCalypsoTotal | stanbic_recons_app.py:154 | forward, the matched positions plus "Calypso Position - Unmatched Only" make up the first Calypso positions of all retained records' ISINs |
| Aggregation.ReverseOneCsd | stanbic_recons_app.py:110-130 | every reverse verdict carries the face value of the first retained record with the row's ISIN when the row's position is present, and none when it is absent |
| Aggregation.ReverseCsdTotal | stanbic_recons_app.py:174 | reverse, the matched face values plus "Total Face Value CSD - Unmatched Only" make up, over the Calypso rows with a present position, the first retained face value of each row's ISIN |
| Reconcile.Reconcile | stanbic_recons_app.py:61-181 | a successful run evaluates every retained record once forward and every Calypso row once in reverse, and its four lists are exactly the forward pass over the retained records and the reverse pass over the normalised Calypso rows |
| Reconcile.ReconcileReports | stanbic_recons_app.py:81-133 | in a successful run the ISINs of both forward lists are, as a multiset, those of the retained records, and of both reverse lists those of the Calypso rows; every reported matched pair agrees with the first match on the other side, and every unmatched entry has one of its pass's reasons with the lookup result and difference that reason implies |
| Reconcile.ReconcileFails | stanbic_recons_app.py:135-181 | the run fails exactly when one of the two unmatched lists is empty, and then with the KeyError message |
| Reconcile.ReconcileSummaries | stanbic_recons_app.py:138-181 | in a successful run each table counts its own pass, each success rate is that pass's matched share in percent (to two places, in [0, 100]), each table's three unmatched-only values are the column sums of its own unmatched list, both tables show the face values of all retained records and the positions of all Calypso rows, and "Difference Total - All" is the first minus the second forward and the second minus the first in reverse |
| Reconcile.ReconcileUnmatchedDifference | stanbic_recons_app.py:153-176 | in a successful run both tables' unmatched-only difference totals are within half a cent per entry of the difference of their column totals |
| Reconcile.ReconcileTotalsSplit | stanbic_recons_app.py:138-181 | in a successful run, "Total Face Value CSD - All" is the forward-matched amounts plus the forward table's unmatched-only CSD total, and "Total Calypso Position - All" is the reverse-matched positions plus the reverse table's unmatched-only Calypso total; the forward unmatched-only Calypso total with the forward-matched positions makes up the first Calypso positions of the retained ISINs, and the reverse unmatched-only CSD total with the reverse-matched face values makes up the first retained face values of the Calypso ISINs with a present position |

## Left out

- The Streamlit interface, file upload and download, and reading the CSV and Excel files (lines 1-49 and 193-227): the model starts from the tables' rows as cells.
- Writing the spreadsheet (lines 183-191): the model stops at the four lists and the two summaries.
- Column selection by name (`Unnamed: 5`, `Unnamed: 7`, `Unnamed: 20`, `PRODUCT_CODE.ISIN`, `Position`): a row is modelled as just the cells the loop reads.
- Binary floating point: amounts are exact decimals, so neither `round` on a binary float nor float sums are modelled bit for bit.
- The numeric types `pd.to_numeric` picks (a 64-bit integer for a text without a point, a float otherwise): every amount is an exact decimal of any size.
- Numbers.Round2: models ties at the exact decimal value; Python rounds the nearest binary float, whose ties can fall either way.
- `str()` of a numeric cell: cells are modelled as text; a float cell whose `str()` uses an exponent (such as `1e+16`) is not modelled.
- Character classes are ASCII only: Python's `\w`, `\d`, `str.strip` and `str.upper` also act on non-ASCII letters, digits and spaces.
- Aggregation.Summarize: models the insight values, not their text: the `,.2f` formatting (including `-0.00`) and the insight labels are left out.
- A Calypso position column in which every cell is missing: pandas keeps it as an object column and `round(None, 2)` raises `TypeError`; the model treats every missing position as NaN.
- Extraction.NarrationText: follows pandas 2.x, where `astype(str)` turns a missing narration into the text "nan"; under pandas 3's default string type a missing cell stays missing, the loop's `pd.notna` test fails, and the previous narration would be carried forward to the record, which the model does not do.
- The order of the keys in the unmatched dictionaries (and so the column order of the output sheets).
