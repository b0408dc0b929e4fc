# Book-Crossing loader: row validation and referential integrity

`scripts/load_data_neon.py` loads three CSV files (users, books, ratings) into a
database in one pass. This project models what that script does to the rows:

- **Users** (`load_users`): the `age` column is coerced to a number or absent (NaN), no
  row is dropped, every row is appended to the `users` table, and the distinct user ids
  are returned. Any exception makes the stage return an empty list.
- **Books** (`load_books`): `year_of_publication` is coerced the same way, then rows are
  kept only when `(year > 1900 & year <= 2024) | isnull(year)`. Python's `&` binds tighter
  than `|`, and NaN fails every comparison, so the `isnull` disjunct is what keeps absent
  years. Out-of-range rows are removed, not nulled. The distinct ISBNs of the kept rows
  are returned, or an empty list on an exception.
- **Ratings** (`load_ratings`): when either key list is empty the stage does nothing.
  Otherwise it keeps the rows with a known user id, then the rows with a known ISBN, and
  appends the survivors.
- **Main block**: the three loaders run in order, and the keys of the first two gate the
  third.

Modules:

- `Wrappers` (`wrappers.dfy`): `Option`. `None` stands for NaN.
- `Sequences` (`sequences.dfy`): `Filter` for boolean-mask selection `df[mask]` and
  `Unique` for `Series.unique()`, with their lemmas.
- `LoadDataNeon` (`load_data_neon.dfy`) has three parts:
  - the record datatypes;
  - the pure stage functions and the lemmas about them;
  - a `Database` class. Its fields `users`, `books` and `ratings` are the three tables,
    and its methods append to them as `to_sql(..., if_exists='append')` does.

What is abstracted:

- Ids and ISBNs are type parameters `U` and `I`.
- `pd.to_numeric(..., errors='coerce')` is the parameter `parse: string -> Option<int>`.
- A file read is an `Option` of already-parsed rows. `None` means `read_csv` or the
  positional column rename raised.
- An insert that raised is a boolean flag.
- `create_engine` raising is the flag `engineOk` of `Database.Run`.

## Model

| member | source | states |
|---|---|---|
| `Sequences.Filter` | scripts/load_data_neon.py:68 | mask selection keeps exactly the rows the mask accepts, each with all its copies (multiset), drops the others entirely, and keeps the survivors in their original order |
| `Sequences.FilterTwice` | scripts/load_data_neon.py:98-99 | the two successive reassignments of `df` (known user, then known ISBN) select the same rows as one mask requiring both |
| `Sequences.Unique` | scripts/load_data_neon.py:44 | `unique()` returns each value of the column exactly once, only values of the column, no more values than rows, and is empty exactly when the column is |
| `LoadDataNeon.CoerceAges` | scripts/load_data_neon.py:35-38 | the users loader never drops or reorders rows; each row keeps its id and location, and its age is the numeric coercion of the cell (a number or absent) |
| `LoadDataNeon.UserKeys` | scripts/load_data_neon.py:42-48 | the users loader returns, without duplicates, exactly the user ids of the file's rows; if reading or inserting raised it returns an empty list |
| `LoadDataNeon.UserKeysEmpty` | scripts/load_data_neon.py:44-48 | the users key list is empty exactly when the stage failed or the file had no rows, so that is when the ratings guard fires |
| `LoadDataNeon.YearMaskMeaning` | scripts/load_data_neon.py:68 | with Python's grouping and NaN comparisons false, the mask holds exactly when the year is absent or 1900 < year <= 2024; an absent year fails the range part |
| `LoadDataNeon.CoerceYears` | scripts/load_data_neon.py:62-66 | year coercion keeps every row in place and every other column unchanged; the year becomes the coerced number or absent |
| `LoadDataNeon.KeepPlausibleYears` | scripts/load_data_neon.py:67-68 | every kept book is an unchanged input row whose year is absent or in (1900, 2024]; such rows are kept with all their copies; other rows are removed entirely; order is preserved |
| `LoadDataNeon.BookRowFate` | scripts/load_data_neon.py:66-68 | a file row with a non-numeric or in-range year is always loaded; a row with a numeric out-of-range year (0, 2050) is not loaded |
| `LoadDataNeon.LoadedBookOrigin` | scripts/load_data_neon.py:66-70 | every loaded book is the year-coerced form of a file row whose year passes the mask |
| `LoadDataNeon.LoadedIsbns` | scripts/load_data_neon.py:66-72 | the ISBN column of the loaded books holds exactly the ISBNs of the file rows whose year passes the mask |
| `LoadDataNeon.BookKeys` | scripts/load_data_neon.py:70-76 | the books loader returns, without duplicates, exactly the ISBNs of the file rows whose year passes the mask; if reading or inserting raised it returns an empty list |
| `LoadDataNeon.RatingsToInsert` | scripts/load_data_neon.py:80-99 | if either key list is empty or the read raised, nothing is inserted; otherwise a rating is inserted if and only if its user id and its ISBN are both known, with all its copies, in the original order |
| `LoadDataNeon.ReferencingCount` | scripts/load_data_neon.py:97-100 | the rows referencing known keys plus the orphan rows (unknown user or unknown ISBN) number exactly as many as the input |
| `LoadDataNeon.RatingsCountDrop` | scripts/load_data_neon.py:97-100 | the after-filter count is at most the before-filter count, and the difference is exactly the number of orphan rows |
| `LoadDataNeon.ChainedRatings` | scripts/load_data_neon.py:119-123 | in the stage chain every rating reaching the final insert references a user id of the users file and the ISBN of a books row that passed the year filter; if either loader failed, no rating reaches it |
| `LoadDataNeon.ChainedRatingStored` | scripts/load_data_neon.py:119-123 | every chained rating references a user row the users loader stored and a book row the books loader stored |
| `LoadDataNeon.AppendKeepsIntact` | scripts/load_data_neon.py:102 | appending users, books and ratings, where each appended rating references an appended user and book, keeps every stored rating referencing a stored user and book |
| `LoadDataNeon.AgeExample` | scripts/load_data_neon.py:37-38 | ages "thirty" and "25" load as absent and 25 |
| `LoadDataNeon.YearExample` | scripts/load_data_neon.py:67-68 | a book with year 2050 is removed and a book with a non-numeric year is kept |
| `LoadDataNeon.UnknownUserExample` | scripts/load_data_neon.py:97-100 | a rating by unknown user 999 is dropped and the count falls by exactly one |
| `LoadDataNeon.Database.LoadUsers` | scripts/load_data_neon.py:24-48 | on success the `users` table gains the coerced rows and the keys of `UserKeys` are returned; on a failed read or insert nothing is appended and an empty list is returned; other tables are untouched |
| `LoadDataNeon.Database.LoadBooks` | scripts/load_data_neon.py:51-76 | on success the `books` table gains the coerced rows that pass the year filter and the keys of `BookKeys` are returned; on failure nothing is appended and an empty list is returned |
| `LoadDataNeon.Database.LoadRatings` | scripts/load_data_neon.py:78-108 | the two filter steps append `RatingsToInsert`; the report is "skipped" exactly when a key list is empty, "read failed" exactly when the guard passes and reading raised, and "loaded" exactly when the guard passes, the read succeeds and the insert succeeds; after a successful read the report carries the before and after counts, even when the insert then raised, and their difference is the orphan count |
| `LoadDataNeon.Database.Run` | scripts/load_data_neon.py:112-126 | each table gains what its loader produces, with the ratings gated by the keys of the two earlier loaders; a database whose ratings all reference stored users and books stays so |

## Left out

- CSV reading is not modelled: the `;` separator, Latin-1 decoding, skipped bad lines and `usecols`. Inputs are already-parsed rows.
- The positional column rename is subsumed by the record datatypes. Its failure on a wrong column count is part of a read that raised (`None`).
- `pd.to_numeric` parsing is the abstract parameter `parse`. Its number grammar is not modelled.
- Floats and NaN are not modelled: ages and years are `Option<int>`, so a fractional year such as 1999.5 has no counterpart.
- The database is three sequences. Primary keys, duplicate-key failures on re-run and the engine are not modelled. An insert either appends all its rows or raises (the flag) and appends none. A partially committed insert is not modelled.
- A connection that fails after `create_engine` surfaces in the model as a failed insert inside a stage, which is what the per-stage `except` blocks catch in the code.
- Configuration and path construction are not modelled (lines 7-20). Neither are `print` output and timing.
- Keys are assumed to share one comparable type, so an `isin` between int and str ids is not modelled.
- Sequences.Unique: the result is in order of first appearance, but that order is not stated as a postcondition. Only membership, distinctness and size are stated.
