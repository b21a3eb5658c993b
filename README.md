# TechJobs console: the job data store, in Dafny

The repository's one data-access class, `JobData`, keeps a list of job listings
in memory. It reads them from a CSV file the first time any query runs. Each row
is a map from column label to cell value. Three read-only queries run over the list:

- `findAll(field)`: the distinct values of one column, in order of first occurrence;
- `findByColumnAndValue(column, value)`: the rows whose value in `column` contains
  `value`, ignoring case;
- `searchAllColumns(term)`: the rows with at least one value that contains `term`,
  ignoring case, each row at most once;

and `findAll()` returns the cached list itself.

The model has three modules:

- `Text` (text.dfy): ASCII upper-casing and substring search. `ContainsIgnoreCase(v, t)`
  stands for `v.toUpperCase().contains(t.toUpperCase())`.
- `Sequences` (sequences.dfy): `Deduplicate`, the list an "append if not already
  there" loop builds, and `Filter`, the list a "keep if the test holds" loop builds.
  It also proves their properties: no duplicates, the same elements, first-occurrence
  order, subsequence, occurrence counts.
- `TechJobs` (job_data.dfy): rows, the abstract load input `Source`, the load
  specification `Attempt`/`Load`, and one scanning method per query. It also holds
  the class `JobData` and the lemmas about the queries.

The two static fields of the original become the fields of one `JobData` object:

- `isDataLoaded`;
- `allJobs`, an `Option`, where `None` stands for the list reference that is still null.

`LoadData` and the four query methods change that object and are proved against
`Load`. Each query's loop is a separate method that reads a list of rows and
changes nothing: `CollectDistinct`, `SelectByColumn` and `SelectByAnyColumn`. Each
of these is proved equal to its specification function. The properties of the
queries are lemmas about those functions.

Behaviour the model follows from the code:

- **Load failure.** A failed first load (the file cannot be read) leaves `allJobs`
  null. The three queries that loop over it (`findAll(field)`,
  `findByColumnAndValue` and `searchAllColumns`) then throw
  `NullPointerException`, and the model's query returns `Thrown(NullPointer)`. It
  does not return an empty list. `findAll()` has no loop: it returns the null
  reference normally, which the model gives as `Normal(None)`.
- **Unknown column in `findAll(field)`.** When a row has no such key, `row.get`
  yields null, and a single null is added to the value list. The model lists
  `None` once. It does not fail.
- **Unknown column in `findByColumnAndValue`.** A row without the column makes
  `aValue.toUpperCase()` throw. The model returns `Thrown(NullPointer)` when some
  row lacks the column. A store loaded from a header that contains the column
  never throws.
- **No data rows.** `records.get(0)` throws `IndexOutOfBoundsException`. Flag and
  list stay unchanged.
- **Wide first record.** When the first record has more fields than the header, the
  label array gets null slots and `record.get(null)` throws
  `IllegalArgumentException`. This happens on the first record, after `allJobs`
  has been reset to an empty list.
- **Short record.** When a record has fewer fields than the header,
  `record.get(label)` throws `IllegalArgumentException`. The rows built before it
  stay in `allJobs`, and the flag stays false. If a later load attempt then fails
  with an `IOException`, the exception is caught, and the queries run over that
  partial list. The model keeps this: `Attempt` leaves `prior` in place on `Unreadable`.

## Model

| member | source | states |
|---|---|---|
| `Text.EmptyTermMatches` | src/org/launchcode/techjobs/console/JobData.java:84 | every value contains the empty term, ignoring case |
| `Text.TermCaseIrrelevant` | src/org/launchcode/techjobs/console/JobData.java:84 | a term, its upper-case form and its lower-case form match exactly the same values |
| `Text.EnterpriseExample` | src/org/launchcode/techjobs/console/JobData.java:65-66 | "Enterprise", "enterprise" and "ENTERPRISE" all match "Enterprise Holdings, Inc"; "Globex" does not |
| `Sequences.Deduplicate` | src/org/launchcode/techjobs/console/JobData.java:40-48 | the value list has no duplicates, holds every input element and no other, and is no longer than the input |
| `Sequences.DeduplicateKeepsFirstOccurrenceOrder` | src/org/launchcode/techjobs/console/JobData.java:42-48 | values stand in the order of their first occurrences in the input |
| `Sequences.DeduplicateOfDistinct` | src/org/launchcode/techjobs/console/JobData.java:45-47 | an input without repetitions is listed unchanged |
| `Sequences.Filter` | src/org/launchcode/techjobs/console/JobData.java:79-88 | the result holds exactly the input elements that pass the test |
| `Sequences.FilterIsSubsequence` | src/org/launchcode/techjobs/console/JobData.java:79-88 | the result keeps the input's relative order (it is a subsequence of the input) |
| `Sequences.FilterCount` | src/org/launchcode/techjobs/console/JobData.java:106-127 | each element occurs in the result as often as in the input if it passes the test, and otherwise not at all |
| `Sequences.FilterKeepsAll` | src/org/launchcode/techjobs/console/JobData.java:79-88 | when every element passes, the result is the whole input |
| `Sequences.FirstIndex` | src/org/launchcode/techjobs/console/JobData.java:156 | the position `record.get(label)` reads from: the label stands there, and nowhere before it |
| `TechJobs.Lookup` | src/org/launchcode/techjobs/console/JobData.java:43 | `row.get(field)`: null exactly when the row has no such key, and otherwise the row's value |
| `TechJobs.RowOf` | src/org/launchcode/techjobs/console/JobData.java:153-157 | the row built from one record has exactly the header's labels as keys |
| `TechJobs.HeaderArray` | src/org/launchcode/techjobs/console/JobData.java:146-147 | the label array is exactly max(width of the first record, number of header labels) long, holds the header's labels in order and null at every slot past the header, so it holds a null slot exactly when the first record is wider than the header |
| `TechJobs.Attempt` | src/org/launchcode/techjobs/console/JobData.java:140-168 | a load attempt that sets the flag returned normally from a parsed source, with one row per record; one that returns without setting it read nothing and left the list as it was; one that throws leaves the flag unset |
| `TechJobs.Load` | src/org/launchcode/techjobs/console/JobData.java:136-138 | once the flag is set the loader returns at once and changes nothing; the flag is never cleared, and whenever it is set a list exists |
| `TechJobs.FirstShort` | src/org/launchcode/techjobs/console/JobData.java:152-157 | finds the first record narrower than the header: every earlier record is wide enough, and the one found (if any) is not |
| `TechJobs.RecordToRow` | src/org/launchcode/techjobs/console/JobData.java:152-158 | builds the row for one record by looking up each label; it throws IllegalArgument exactly when the label array has null slots or the record is narrower than the header |
| `TechJobs.CollectDistinct` | src/org/launchcode/techjobs/console/JobData.java:40-50 | the loop returns the column's values with repeats skipped, in first-occurrence order (`Deduplicate` of the column) |
| `TechJobs.SelectByColumn` | src/org/launchcode/techjobs/console/JobData.java:77-91 | the loop returns, in row order, exactly the rows whose column value contains the term ignoring case; it throws NullPointer when some row lacks the column |
| `TechJobs.SelectByAnyColumn` | src/org/launchcode/techjobs/console/JobData.java:101-128 | for any order of visiting a row's values, the loop with its early break returns exactly the rows with some matching value, in row order |
| `TechJobs.JobData.constructor` | src/org/launchcode/techjobs/console/JobData.java:22-26 | the store starts not loaded, with a null list |
| `TechJobs.JobData.LoadData` | src/org/launchcode/techjobs/console/JobData.java:133-169 | once loaded, nothing changes; otherwise flag, list and completion are those of `Attempt`; the flag is set only by a parsed, successful load, which records that source's header; loaded rows all have the header's labels as keys |
| `TechJobs.JobData.FindAllValues` | src/org/launchcode/techjobs/console/JobData.java:35-51 | loads, then returns the distinct column values in first-occurrence order; a load exception propagates; a null list throws NullPointer |
| `TechJobs.JobData.FindAll` | src/org/launchcode/techjobs/console/JobData.java:53-59 | loads, then returns the cached list reference, null when no load has built a list; only a load exception escapes |
| `TechJobs.JobData.FindByColumnAndValue` | src/org/launchcode/techjobs/console/JobData.java:72-92 | loads, then returns the column matches in row order; once loaded, a search on one of the loaded header's labels never throws |
| `TechJobs.JobData.SearchAllColumns` | src/org/launchcode/techjobs/console/JobData.java:96-129 | loads, then returns the rows with some matching value in row order; once loaded from a non-empty header, the empty term returns every row |
| `TechJobs.RowOfShape` | src/org/launchcode/techjobs/console/JobData.java:153-157 | with distinct labels, label j of a built row holds field j of the record |
| `TechJobs.LoadedRowsHaveHeaderLabels` | src/org/launchcode/techjobs/console/JobData.java:149-160 | every row of a load has the same key set, the header's labels |
| `TechJobs.SuccessfulLoad` | src/org/launchcode/techjobs/console/JobData.java:149-163 | after a successful load, row i comes from record i, in file order, with exactly the header's labels as keys and record i's field j at label j |
| `TechJobs.LoadSucceedsExactly` | src/org/launchcode/techjobs/console/JobData.java:143-163 | a load sets the flag if and only if the source was parsed, has records, its first record is as wide as the header and no record is narrower |
| `TechJobs.LoadOnlyOnce` | src/org/launchcode/techjobs/console/JobData.java:136-138 | after a load that set the flag, a further load from any source returns normally and leaves flag and list as they were |
| `TechJobs.DistinctValuesOfColumn` | src/org/launchcode/techjobs/console/JobData.java:42-48 | `findAll(field)`'s list has no duplicates, holds exactly the values some row has for the field, and keeps their first-occurrence order |
| `TechJobs.DistinctValuesPresent` | src/org/launchcode/techjobs/console/JobData.java:43-46 | when every row has the field, no null is among the values |
| `TechJobs.ColumnSearchIsExact` | src/org/launchcode/techjobs/console/JobData.java:79-88 | the column search is a subsequence of the rows, and each row occurs in it as often as in the dataset if its column value matches, otherwise never |
| `TechJobs.EmptyValueFindsEveryRow` | src/org/launchcode/techjobs/console/JobData.java:84 | searching a column every row has for the empty term returns all rows |
| `TechJobs.AllColumnSearchIsExact` | src/org/launchcode/techjobs/console/JobData.java:106-127 | the all-column search is a subsequence of the rows, and each row occurs in it as often as in the dataset if some value matches, otherwise never |
| `TechJobs.AllColumnSearchAtMostOnce` | src/org/launchcode/techjobs/console/JobData.java:114-123 | the all-column search returns no row more often than the dataset holds it, however many of its values match |
| `TechJobs.EmptyTermFindsEveryRow` | src/org/launchcode/techjobs/console/JobData.java:114-118 | when every row has at least one column, searching all columns for the empty term returns all rows |
| `TechJobs.ColumnSearchExample` | src/org/launchcode/techjobs/console/JobData.java:79-88 | with employers Acme, Acme Corp and Globex, searching the employer column for "acme" returns the first two rows |
| `TechJobs.DistinctValuesExample` | src/org/launchcode/techjobs/console/JobData.java:40-48 | the same rows list the employers Acme, Acme Corp, Globex, once each, in file order |

## Left out

- File reading and CSV parsing (lines 143-145) are foreign library calls. They are replaced by the parameter `Source`: `Unreadable` for an `IOException`, or `Parsed(header, records)`. Other exceptions the parser itself may throw are not modelled.
- `TechJobs.JobData.LoadData`: requires the parsed header labels to be distinct. The CSV library's handling of duplicate header names depends on its version and is not modelled. The same requirement is on the four query methods.
- Case folding is ASCII-only. Java's `String.toUpperCase` follows Unicode and the default locale.
- The order in which `searchAllColumns` visits a `HashMap`'s entries is unspecified. The loop picks the next key arbitrarily, and its contract holds for every order.
- The message and stack trace printed when the load fails (lines 166-167) are left out.
- `TechJobs.JobData.FindAll`, `TechJobs.JobData.FindByColumnAndValue`, `TechJobs.JobData.SearchAllColumns`: Java hands out the store's own objects. `findAll()` returns the cached `ArrayList` itself, and the two searches return lists of the store's own row `HashMap`s. A caller's `add` or `put` on them changes `allJobs`. In the model, lists and rows are values, so this aliasing is not captured.
- Null arguments (a null `field`, `value` or search term) are not modelled, because Dafny strings are never null.
- Thread safety of the static fields is out of scope. The code is single-threaded and unsynchronised.
