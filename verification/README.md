# FakeStockTrader core in Dafny

This project models three small, sequential pieces of the FakeStockTrader
repository and proves properties about them:

- **`Table<T>`** (`src/utilities/Table.java`): a generic container. It keeps an
  ordered list of columns (each column is only a title) and an ordered list of
  rows (each row is a growable list of values). Its one rule is the *shape
  invariant*: no row holds more values than there are columns.
  `addValueToRow` enforces the rule. Every other mutator preserves it.
- **`Date`** (`src/main/java/utilities/Date.java`): a month from a twelve-value
  enum, a day and a year. It has structural `equals`, a hand-written
  `compareTo` and `toString`.
- **`Portfolio`** (`src/main/java/trading/Portfolio.java`): an ordered list of
  assets with `addAsset` (append) and `removeAsset` (remove the first equal
  element).

Everything is written in a functional style: immutable datatypes and pure
functions. A Java method that can throw becomes a function returning
`Result<T, Error>` (module `Wrappers`). The error carries the exception kind
and its message or index. A failing call therefore yields no new table, so the
caller keeps the table it had. This "no change on failure" holds by
construction, and it matches the Java: `setColTitle` and `setRowValue` throw
from the index checks of `ArrayList.get` and `ArrayList.set` before anything is
written (`src/utilities/Table.java:194`, `199`), and `addValueToRow` checks the
row length before it appends (`src/utilities/Table.java:204-208`).
`Tables.Trace` lists the states a caller observes when it issues a series of
calls and catches every exception.

Files:

- `wrappers.dfy`: `Option` and `Result`.
- `seqs.dfy`: `IndexOf`, the first position holding a value.
- `decimal.dfy`: Java's decimal rendering of an `int`, and a parser proved to
  invert it.
- `table.dfy`: rows, columns, the table, the shape invariant and call sessions.
- `date.dfy`: `Month`, `Date`, `equals`, `compareTo`, `toString`.
- `portfolio.dfy`: `Portfolio`.

The table follows the Java code, not a richer design:

- `addColumn` does not touch existing rows. A row's room grows only because
  the column count it is compared against grows.
- The constructor argument of `Row` is only a capacity hint for `ArrayList`,
  so every new row is empty.
- `Table.java` has no `flatten`, `filter`, `setColTitles`, `getRow` or
  builder class, so none is modelled.
- `new ArrayList<>(n)` with a negative `n` throws
  `IllegalArgumentException("Illegal Capacity: n")`. So `new Table(rows, cols)`
  and `build` fail that way on a negative dimension. The column count is
  checked first, because the columns list is created first.

`compareTo` turns out to be exactly lexicographic order on
(year, month ordinal, day). It returns 1 for the later date, as its `@return`
documentation says. So sorting in ascending order puts older dates first. That
contradicts the method's first documentation line, "More recent dates appear
first". The model follows the code and the `@return` text.

`Portfolio` assets are an opaque type compared with `==`. In Java this is the
`equals` that `ArrayList.remove(Object)` calls. `Asset` does not override it,
so it is object identity.

## Model

| member | source | states |
|---|---|---|
| Tables.GetSize | src/utilities/Table.java:21-23 | the row's current number of values: the quantity the contracts of SetValues and SetItem keep fixed, AddItem raises by one, and AddValueToRow compares with the column count |
| Tables.GetColCount | src/utilities/Table.java:103-105 | the number of columns; by CountsFollowMutators only addColumn changes it, by exactly one |
| Tables.GetRowCount | src/utilities/Table.java:107-109 | the number of rows; by CountsFollowMutators only addRow changes it, by exactly one |
| Tables.NewRow | src/utilities/Table.java:17-19 | a new row is empty whatever its size hint; a negative hint is refused with the "Illegal Capacity" argument error |
| Tables.SetValues | src/utilities/Table.java:29-35 | a replacement list of a different length is rejected with IllegalArgumentException("Cannot change the size of a row."); otherwise the row holds exactly the new values and its length is unchanged |
| Tables.SetItem | src/utilities/Table.java:41-43 | writing outside 0..size-1 fails with an out-of-bounds error naming the index and the size; otherwise only that position changes and the length is kept |
| Tables.AddItem | src/utilities/Table.java:45-47 | appending grows the row by one, puts the item last and keeps every earlier value in place |
| Tables.AddItemThenSetItem | src/utilities/Table.java:41-47 | overwriting the value just appended gives the same row as appending the new value directly, so addItem fills exactly the position setItem can then address |
| Tables.EmptyTable | src/utilities/Table.java:93-96 | the no-argument constructor gives a table with no columns and no rows, which satisfies the shape invariant |
| Tables.NewTable | src/utilities/Table.java:98-101 | the sized constructor gives an empty table; it fails exactly when a dimension is negative, and the column count is checked first |
| Tables.CountsFollowMutators | src/utilities/Table.java:103-120 | getColCount and getRowCount change only through addColumn and addRow, each by exactly one; every other successful call leaves both counts as they were |
| Tables.AddColumn | src/utilities/Table.java:111-115 | appends one column with the given title; earlier columns and every row are untouched; the shape invariant is preserved |
| Tables.AddRow | src/utilities/Table.java:117-120 | appends one empty row; earlier rows and all columns are untouched; the shape invariant is preserved |
| Tables.Build | src/utilities/Table.java:122-134 | for non-negative dimensions, exactly cols columns all titled "Title" and rows rows all empty, satisfying the shape invariant; for a negative dimension, the constructor's failure |
| Tables.SetColTitle | src/utilities/Table.java:193-196 | renames only column index and touches no row; an index outside the column list fails with an out-of-bounds error |
| Tables.SetRowValue | src/utilities/Table.java:198-201 | the row index is checked first and then the position within that row, each failing out-of-bounds; on success only that one value changes and no row changes length |
| Tables.AddValueToRow | src/utilities/Table.java:203-210 | a row already holding as many values as there are columns makes it fail with IllegalStateException("Row length cannot exceed number of columns"); otherwise the item is appended to that row only, columns and other rows unchanged, and the shape invariant is preserved |
| Tables.StepFailsExactlyWhen | src/utilities/Table.java:193-210 | addColumn and addRow never throw; setColTitle throws exactly when the index is outside the column list; setRowValue exactly when the row or the position within it is out of range; addValueToRow exactly when the row is out of range or already as long as the column list |
| Tables.StepPreservesShape | src/utilities/Table.java:9 | no single successful mutator call breaks the rule that no row is longer than the column list |
| Tables.TracePreservesShape | src/utilities/Table.java:9-12 | for any sequence of calls, failing ones included, every state observed from a valid table is valid |
| Dates.Ordinal | src/main/java/utilities/Date.java:8-22 | each month's ordinal lies in 0..11 and identifies the month uniquely |
| Dates.Equals | src/main/java/utilities/Date.java:90-95 | equals holds exactly for another Date with the same month, day and year; never for null or a non-Date |
| Dates.EqualsIsEquivalence | src/main/java/utilities/Date.java:90-95 | equals is reflexive, symmetric and transitive |
| Dates.CompareTo | src/main/java/utilities/Date.java:61-88 | the result is always -1, 0 or 1; it is 0 exactly for equal dates, -1 exactly when the first date lies earlier in (year, month ordinal, day) lexicographic order, and 1 exactly when it lies later |
| Dates.LexLessTransitive | src/main/java/utilities/Date.java:74-85 | the lexicographic order the comparison follows is transitive |
| Dates.BeforeIsStrictTotalOrder | src/main/java/utilities/Date.java:6 | "earlier than" on dates is irreflexive, transitive, asymmetric and total on distinct dates |
| Dates.CompareToAntisymmetric | src/main/java/utilities/Date.java:64-66 | swapping the arguments negates the result |
| Dates.CompareToTransitive | src/main/java/utilities/Date.java:69-88 | -1 followed by -1 gives -1, and 1 followed by 1 gives 1 |
| Dates.CompareToZeroIsEquality | src/main/java/utilities/Date.java:69-72 | compareTo is consistent with equals, and dates comparing as 0 compare alike against every third date |
| Dates.ToString | src/main/java/utilities/Date.java:97-100 | renders ordinal+1, day and year separated by "/"; by ToStringRoundTrip the text reads back as the same date, so the month field is 1..12 |
| Decimal.IntToString | src/main/java/utilities/Date.java:99 | Java's int-to-text conversion: never empty, only digits and a minus sign, and the text starts with a minus sign exactly when the number is negative; by IntToStringRoundTrip it reads back as the same number |
| Dates.ToStringRoundTrip | src/main/java/utilities/Date.java:97-100 | the "month/day/year" text with month = ordinal + 1 parses back to the same date, so its month field is always a number from 1 to 12 |
| Decimal.IntToStringRoundTrip | src/main/java/utilities/Date.java:99 | the decimal rendering of any int, sign included, reads back as the same number |
| Portfolios.NewPortfolio | src/main/java/trading/Portfolio.java:15-17 | a new portfolio holds no assets |
| Portfolios.AddAsset | src/main/java/trading/Portfolio.java:50-52 | the asset is appended at the end, the length grows by one and every earlier asset stays in place |
| Portfolios.RemoveFirst | src/main/java/trading/Portfolio.java:59-61 | elements before the first equal one are kept in place and later ones shift down by one; a missing element leaves the list as it is |
| Portfolios.RemoveFirstDeletesFirstOccurrence | src/main/java/trading/Portfolio.java:59-61 | the result is the list with only the position of the first occurrence deleted, so the remaining assets keep their relative order |
| Portfolios.RemoveFirstMultiset | src/main/java/trading/Portfolio.java:59-61 | exactly one copy of the removed asset leaves the collection and nothing else changes |
| Portfolios.RemoveAsset | src/main/java/trading/Portfolio.java:59-61 | removing an asset not held is a no-op; otherwise the portfolio shrinks by one and loses exactly one copy of that asset |
| Portfolios.RemoveAssetKeepsLaterDuplicates | src/main/java/trading/Portfolio.java:59-61 | when an asset is held at positions i < j, removing it keeps the later copy, which moves down to position j-1 |
| Portfolios.AddThenRemove | src/main/java/trading/Portfolio.java:50-61 | removing an asset that was not held before adding it restores the original portfolio |

## Left out

- All `print` overloads of `Table` and `Row` (`src/utilities/Table.java:49-71, 136-191`): these write to standard output through `String.format`.
- Tables.SetValues: copies the values, whereas `setValues` keeps the caller's own `ArrayList` as the row's storage, so a later `add` through that shared reference could make the row longer than the column list unchecked; `Table` cannot reach this, because `rows` is private and `Table` never calls `setValues`.
- `Row.getValues` and `Row.getItem`: `getValues` hands out the internal list, which only an aliasing model could describe; `getItem` is a plain read that no modelled operation uses.
- `Column.setTitle` and `getTitle` are modelled through `Tables.SetColTitle` and the `title` field, not as separate members.
- Java `int` capacity limits of `ArrayList` (at most `Integer.MAX_VALUE` elements) are not modelled; row and column counts are unbounded.
- `null` arguments: `setValues(null)`, `compareTo(null)` and `new Date(null, day, year)` are not modelled. The month of a date is never null here. In Java such a date still works with `equals`, but `compareTo` and `toString` would throw `NullPointerException` on `ordinal()`.
- `Portfolio.value()` and `getAssets()`: `value()` is a floating-point sum over `calculatePrice`, which is not part of this model, and `getAssets()` hands out the internal list.
- `src/utilities/MultiMap.java`: only a wrapper class and a public `HashMap` field, with no operations to model.
- The `TradingBot` classes, `Asset`, `Stock`, `Status`, the eleven-value `Month` enum in `src/utilities/Date.java`, `src/Main.java` (it calls a `TableBuilder` and `filter` that `Table.java` does not define), the Python market-data retriever and the React front end: floating-point arithmetic, I/O, user interface, or no behaviour.
