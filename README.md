# Data cleaning rules of the sales-data pipeline, in Dafny

The `DataCleaning` class of `data_cleaning.py` turns three raw tables into cleaned
ones before they are uploaded:

- the users table;
- the card-details table;
- the store-details table.

It also has three normalisers of single values:

- phone numbers;
- staff numbers;
- card expiry dates.

This project models those six members and proves what they guarantee.

| file | module | contents |
|---|---|---|
| `wrappers.dfy` | `Wrappers` | `Option` and `Result` |
| `calendar.dfy` | `Calendar` | Gregorian dates, leap years, days in a month, "plus one month" and "minus one day" as `pd.DateOffset` does them |
| `strings.dfy` | `Strings` | ASCII digits, the `\d+` matches, `''.join`, `str.split`, decimal values, the `\d{2}/\d{2}` search |
| `frames.dfy` | `Frames` | a table (a header of column names plus rows that map column names to cells), and the pandas operations the cleaners use |
| `data_cleaning.dfy` | `DataCleaning` | the three normalisers, the three cleaners, and the lemmas about them |

The pandas operations are methods with loops, each proved against a specification function or a per-row equation:

- `dropna`;
- `drop_duplicates`;
- dropping a column;
- a boolean-mask filter;
- `.loc[mask, col] = v`;
- a column `apply`, both one that cannot fail and one that raises;
- `df[cols]`;
- `rename`.

Each cleaner is a method that calls these operations in the order the source does.

Two places where a quick reading of the code would mislead:

- **Duplicates are removed before the `index` column is dropped.** If the index values are all different, no row is removed as a duplicate (`DistinctIndexKeepsAll`).
- **The card filter is a substring test.** `str.contains(r"\d{2}/\d{2}")` is not a full match, so a value such as `"123/456"` passes the filter and then makes `convert_expiry_date` raise (`SubstringFilterAdmitsInconvertible`). `CleanCardData` models that failure as a `Failure`. Its value is the first offending expiry text.

## Model

| member | source | states |
|---|---|---|
| `DataCleaning.UsPrefixMatch` | data_cleaning.py:71-72 | when `re.match(r"^(0+)?1(\d{10})\b", s)` succeeds, its group 2 is ten digits |
| `DataCleaning.UsPrefixMatchOnDigits` | data_cleaning.py:71-74 | about `UsPrefixMatch`: on a digit string, `^(0+)?1(\d{10})\b` matches iff the string is zeros, a '1' and exactly ten digits; group 2 is then the last ten digits |
| `DataCleaning.StandardisePhoneNumber` | data_cleaning.py:63-77 | the result is the input's digit characters in order, or their last ten when those digits are `0*1` followed by ten digits |
| `DataCleaning.PhoneNumberIsNormal` | data_cleaning.py:63-77 | the result is all digits and no longer carries a US prefix |
| `DataCleaning.PhoneNumberIdempotent` | data_cleaning.py:63-77 | normalising a normalised number changes nothing |
| `DataCleaning.PhoneNumberUsExample` | data_cleaning.py:70-75 | "001-555-234-9876" becomes "5552349876" |
| `DataCleaning.PhoneNumberUkExample` | data_cleaning.py:66-77 | "+44 07777 123456" becomes "4407777123456" |
| `DataCleaning.UsExampleDigits` | data_cleaning.py:66-68 | the digits of "001-555-234-9876" are "0015552349876" |
| `DataCleaning.UkExampleDigits` | data_cleaning.py:66-68 | the digits of "+44 07777 123456" are "4407777123456" |
| `DataCleaning.StaffNumbersRegex` | data_cleaning.py:147-151 | the result is exactly the input's digit characters in order |
| `DataCleaning.StaffNumbersProperties` | data_cleaning.py:147-151 | the result is all digits and no longer than the input; an all-digit input is returned unchanged; the function is idempotent |
| `DataCleaning.StaffNumbersExample` | data_cleaning.py:147-151 | "1a2b3" becomes "123" |
| `DataCleaning.ExpiryFieldsShape` | data_cleaning.py:100 | the split into a two-digit month 01..12 and a two-digit year succeeds iff the text is exactly "MM/YY"; the pieces are then the text before and after the '/' |
| `DataCleaning.ConvertExpiryDate` | data_cleaning.py:99-103 | "MM/YY" becomes a valid date: the last day of month MM of year 20YY |
| `DataCleaning.ExpiryDateExamples` | data_cleaning.py:99-103 | "09/23" becomes 2023-09-30 and "02/24" becomes 2024-02-29 |
| `DataCleaning.SubstringFilterAdmitsInconvertible` | data_cleaning.py:87-92 | "123/456" passes the expiry filter but is not a value the conversion accepts |
| `DataCleaning.ReconcileCountryPairs` | data_cleaning.py:41-48 | about `ReconcileCountry`, the six `.loc` passes on one row: the six passes change only country and country_code; the pair they leave is DE/Germany if the code was DE or the country Germany, else GB/United Kingdom for GB or United Kingdom, else US/United States for US or United States, else the pair is unchanged |
| `DataCleaning.ReconciledRowKept` | data_cleaning.py:41-52 | after the passes, the code filter keeps a row iff its (code, country) pair is one of the three consistent pairs, and iff its original code was US, GB or DE or its original country was one of the three names |
| `DataCleaning.ReconcileGermanyWins` | data_cleaning.py:41-45 | a row with code GB and country Germany ends as DE/Germany |
| `DataCleaning.NullAndDuplicateRemoval` | data_cleaning.py:30-31 | after `dropna().drop_duplicates()`, no row has a missing cell and no two rows are equal; a row is present iff it is a complete row of the input; the result is a subsequence of the input, in order of first occurrence |
| `DataCleaning.DistinctIndexKeepsAll` | data_cleaning.py:31-34 | when the index values are all different, `drop_duplicates` keeps every row |
| `DataCleaning.ReconciledUsersFacts` | data_cleaning.py:34-48 | each reconciled user row has lost only `index`; its (code, country) pair is the one the DE, then GB, then US priority rule gives; every other cell is unchanged |
| `DataCleaning.KeptUserRow` | data_cleaning.py:41-55 | a user row the code filter keeps ends with a consistent country pair and its phone number standardised by `PhoneCell` (the `apply` at line 55), which is all digits |
| `DataCleaning.KeptUsersFacts` | data_cleaning.py:41-59 | every user row kept after the passes and the filter ends clean |
| `DataCleaning.CompleteUserRow` | data_cleaning.py:30 | a non-null row of a well-formed user table has the whole header and a text phone number |
| `DataCleaning.CompleteUserRows` | data_cleaning.py:30-31 | every row left by `dropna().drop_duplicates()` has the whole header and a text phone number |
| `DataCleaning.CleanedUsersClean` | data_cleaning.py:28-61 | every row the user cleaner returns has a consistent country pair and an all-digit phone number |
| `DataCleaning.ReconcileCountryColumns` | data_cleaning.py:41-48 | the six `.loc` passes, in source order, turn every row into its reconciled form |
| `DataCleaning.FinishUserColumns` | data_cleaning.py:55-59 | the phone apply and the two date conversions, one row at a time |
| `DataCleaning.CleanUserData` | data_cleaning.py:28-61 | the header lacks `index`; the rows are exactly the complete, deduplicated, reconciled rows whose code is US, GB or DE, in order, each finished; every row is clean |
| `DataCleaning.ExpiryRow` | data_cleaning.py:92 | converting the expiry cell keeps the row's columns |
| `DataCleaning.FinishCardExpiry` | data_cleaning.py:92-95 | a finished card row's expiry cell is the converted date, which is valid and is the last day of its month |
| `DataCleaning.ConvertCardColumns` | data_cleaning.py:92-95 | on pattern-filtered rows, with `ExpiryCell` (`convert_expiry_date` as the `apply`'s cell function, none where it raises), the expiry apply fails iff some value is not "MM/YY"; the failure carries the first such value; otherwise every row is finished and every expiry is the last day of a month |
| `DataCleaning.CleanCardData` | data_cleaning.py:80-97 | fails iff a complete, deduplicated row that passes the substring filter has an expiry the conversion rejects; the failure value matches the pattern, fails the split, and is the first such value; otherwise the rows are those finished rows, in order, and every expiry is the last day of a month |
| `DataCleaning.SetContinentsFacts` | data_cleaning.py:121-122 | about `SetContinents`, the two continent passes on one row: the continent passes add only the continent column; a row with code US, GB or DE gets America for US and Europe otherwise |
| `DataCleaning.ConvertStoreCellsFacts` | data_cleaning.py:125-136 | the numeric, int32 and date conversions touch only their four columns |
| `DataCleaning.StoreCellsFacts` | data_cleaning.py:118-131 | a row with a known code ends with the continent of that code and with staff_numbers the integer of its digits, through `StaffCell` (the `apply` at line 118) and `Int32Cell` (the `astype('int32')` at line 131) |
| `DataCleaning.StoreCellsKeeps` | data_cleaning.py:118-136 | the cell-wise steps leave every other column unchanged |
| `DataCleaning.StoreOutputRowFacts` | data_cleaning.py:139-143 | selecting `new_column_order` and renaming gives exactly the output columns, with locality's cell under location |
| `DataCleaning.StoreOutputKeeps` | data_cleaning.py:139-140 | every selected column other than locality keeps its cell |
| `DataCleaning.StoreOutputLocation` | data_cleaning.py:143 | locality's cell ends under location |
| `DataCleaning.StoreOutputDerived` | data_cleaning.py:118-143 | after the drops, the remaining steps give the output columns, the continent of the code and the staff integer |
| `DataCleaning.StoreOutputCarried` | data_cleaning.py:118-143 | store_code, store_type, address, country_code and locality (as location) come through unchanged |
| `DataCleaning.DropKeepsCountryTest` | data_cleaning.py:109-115 | dropping lat and index does not change the country filter's verdict |
| `DataCleaning.DropLatAndIndexFacts` | data_cleaning.py:109-111 | dropping lat and index keeps every other column and cell |
| `DataCleaning.StoreRowFacts` | data_cleaning.py:109-143 | a kept store row gets exactly the output columns; it keeps its code, store_code, store_type and address; it gets the continent of its code and the integer of its staff digits; locality comes through as location |
| `DataCleaning.StoreHeaderThroughSteps` | data_cleaning.py:109-140 | each step of the store cleaner finds the columns it reads |
| `DataCleaning.StoreColumnOrderFacts` | data_cleaning.py:139-143 | `new_column_order` has no repeats and no `location`; renaming its locality gives the output header |
| `DataCleaning.KeptStoreRows` | data_cleaning.py:114-115 | every row kept by the country filter has every read column and a castable staff text |
| `DataCleaning.CleanedStoresClean` | data_cleaning.py:105-145 | every row the store cleaner returns has code US, GB or DE; its continent is Europe iff the code is DE or GB, and America iff it is US |
| `DataCleaning.ConvertStoreColumns` | data_cleaning.py:118-136 | the staff apply, the continent passes and the conversions turn every row into its cell-wise result |
| `DataCleaning.SelectStoreColumns` | data_cleaning.py:139-143 | the header becomes the output column list, and every row is projected and renamed |
| `DataCleaning.CleanStoreData` | data_cleaning.py:105-145 | the header is exactly store_code, store_type, address, location, longitude, latitude, country_code, continent, staff_numbers, opening_date; there is one output row per input row with code US, GB or DE, in order, each that row after every step; every row is clean |
| `Frames.Filter` | data_cleaning.py:51-52 | a mask filter keeps at most the input's rows, and every kept row passes the test |
| `Frames.FilterMembers` | data_cleaning.py:88-89 | a row is kept iff it is in the input and passes the test |
| `Frames.FilterSubsequence` | data_cleaning.py:114-115 | the kept rows are a subsequence of the input |
| `Frames.Unique` | data_cleaning.py:31 | `drop_duplicates` leaves distinct rows, exactly the input's values |
| `Frames.UniqueFirstOccurrenceOrder` | data_cleaning.py:84 | the deduplicated rows appear in the order of their first occurrences |
| `Frames.UniqueSubsequence` | data_cleaning.py:31 | the deduplicated rows are a subsequence of the input |
| `Frames.Where` | data_cleaning.py:30 | `df[mask]` and `dropna()` keep the header, and keep the passing rows in order |
| `Frames.DropDuplicates` | data_cleaning.py:83-84 | `drop_duplicates` keeps the header, and its rows are the first occurrences in order |
| `Frames.DropColumn` | data_cleaning.py:109 | `drop(col, axis=1)` removes the column from the header and from every row |
| `Frames.LocSet` | data_cleaning.py:121 | `.loc[mask, col] = v`, whose effect on one row is `SetWhere`, sets v in the masked rows; a new column gets a missing cell in every other row |
| `Frames.ApplyColumn` | data_cleaning.py:118 | a column overwrite replaces that column's cell in every row and nothing else |
| `Frames.TryApplyColumn` | data_cleaning.py:92 | an `apply` that can raise fails iff some cell is rejected, with the first rejected cell; otherwise it replaces every cell |
| `Frames.Reindex` | data_cleaning.py:140 | `df[cols]` makes cols the header and projects every row onto it |
| `Frames.RenameColumn` | data_cleaning.py:143 | `rename` renames the header entry and each row's key |
| `Frames.RenameInHeader` | data_cleaning.py:143 | as a set of names, the renamed header is the old one with src replaced by dst; a header without dst keeps no repeats |
| `Strings.DigitRuns` | data_cleaning.py:66-67 | every match of `re.finditer(r'\d+', s)` is a non-empty run of digits |
| `Strings.ConcatDigitRuns` | data_cleaning.py:148-150 | about `DigitRuns` and `Concat` (`''.join`): joining the `\d+` matches gives exactly the digit characters of the string |
| `Strings.DigitsOfIdempotent` | data_cleaning.py:149-150 | taking the digits twice is taking them once |
| `Strings.JoinSplit` | data_cleaning.py:100 | joining the pieces of `split(sep)` with sep gives back the string |
| `Strings.SplitOn` | data_cleaning.py:100 | `str.split(sep)` gives at least one piece, and no piece contains sep |
| `Strings.SplitAtOnlySep` | data_cleaning.py:100 | a string with one separator splits into the text before it and the text after it |
| `Strings.SearchExpiryPattern` | data_cleaning.py:87-88 | the search succeeds iff two digits, '/', two digits occur at or after the start position; `ContainsExpiryPattern`, the `str.contains` at line 88, is this search from position 0 |
| `Strings.TwentyPrefixValue` | data_cleaning.py:101 | "20" + YY reads as 2000 + YY |
| `Calendar.DaysInMonth` | data_cleaning.py:102 | a month has 28 to 31 days; 29 iff it is February of a leap year, 28 iff February of any other year |
| `Calendar.LastDayOfMonth` | data_cleaning.py:102 | the result is a valid date of that month, and no valid day of the month is later |
| `Calendar.AddOneMonth` | data_cleaning.py:102 | adding one month gives a valid date in the next month (rolling the year over after December), clipped to that month's length |
| `Calendar.SubtractOneDay` | data_cleaning.py:102 | minus one day gives the previous day, across month and year ends |
| `Calendar.MonthOffsetGivesLastDay` | data_cleaning.py:102 | the first of a month, plus one month, minus one day, is the last day of the month |

## Left out

- `DataCleaning.__init__` (data_cleaning.py:8-26) and `database_utils.py`: these build the extractor, read credentials and upload the table. They are I/O. The tables the fields `users_df`, `card_df` and `store_data_df` hold become each cleaner's parameter. The extractor (`data_extraction.py`) is not part of this model.
- `pd.to_datetime(..., errors='coerce').dt.date` (lines 58-59, 95, 136) and `pd.to_numeric(..., errors='coerce')` (lines 125-126) are pandas' own lenient parsers. Each is an opaque cell-to-cell parameter (`toDate`, `toNumber`).
- `astype('category')` (lines 37-38, 132-133) and `astype(float)` (lines 129-130) change no value and are modelled as no-ops.
- pandas raises when `.loc` assigns a value that is not already one of a categorical column's categories. The model assumes every assigned country name and code is already a category.
- `CleanStoreData`: the `astype('int32')` cast at line 131 is a precondition (`StaffCastable`): every row with a known code has a non-empty staff digit string that fits in 32 bits. The cast's failure is not modelled.
- `ConvertExpiryDate`: its requires is "MM/YY" with month 01..12. `pd.Timestamp`'s lenient parsing of other shapes, for example a one-digit month from a split that still gives two pieces, is treated as a failure. `CleanCardData` then returns that value as the error.
- `\d` and `\b` match ASCII digits and ASCII word characters only; Python's Unicode classes are not modelled.
- The pandas index: rows are a plain sequence. Row labels, other than the `index` column the cleaners drop, are not modelled.
- `Frames.Reindex` requires the selected names to be distinct, and `Frames.RenameColumn` requires the new name to be absent. The one call of each satisfies this.
- `PhoneCell` and `StaffCell` leave a non-text cell unchanged. The source would raise from `re.finditer` on it. `CleanUserData` requires phone numbers to be text or missing, so only text reaches the apply. For the store cleaner, `StaffCastable` requires text.
- `CleanCardData` requires every expiry cell to be text or missing. The model does not cover `str.contains` on a non-text value, which yields a missing mask entry.
- The `.copy()` at line 106 has no effect in a model without aliasing.
- Missing columns: pandas raises `KeyError` when a cleaner reads a column that is absent (lines 34, 37, 109, 111, 140). The model does not cover that path: `CleanUserData` requires the `UserColumns`, `CleanCardData` requires `expiry_date` and `date_payment_confirmed`, and `CleanStoreData` requires the `StoreColumns`.
