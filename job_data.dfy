/** The job-listing store: a dataset read once from a CSV file into a list of
    rows (column label to cell value), and three read-only queries over it. The
    original keeps the loaded flag and the list in static fields; here they are
    the fields of one `JobData` object. The file and its CSV parser are replaced
    by an abstract `Source`: what the parser would hand back. */
module TechJobs {
  import opened Text
  import opened Sequences

  datatype Option<T> = None | Some(value: T)

  /** One job listing: column label to cell value (a `HashMap<String, String>`). */
  type Row = map<string, string>

  /** What reading and parsing the data file yields: the file could not be read or
      parsed (an `IOException`), or a header and the records after it. */
  datatype Source = Unreadable | Parsed(header: seq<string>, records: seq<seq<string>>)

  /** The exceptions the code lets escape to the caller. */
  datatype Exception = IndexOutOfBounds | IllegalArgument | NullPointer

  /** How one call of the loader ends: it returns, or an exception escapes. */
  datatype Completion = Returned | Raised(exception: Exception)

  /** How one query ends: with its list, or with an exception. */
  datatype Outcome<T> = Normal(value: T) | Thrown(exception: Exception)

  /** The loader's effect: how it ends, the loaded flag and the job list afterwards
      (`None` is the list reference still being null). */
  datatype LoadState = LoadState(completion: Completion, loaded: bool, jobs: Option<seq<Row>>)

  /** The parser reports header labels without repetition; the model takes that as given. */
  predicate WellFormed(src: Source)
  {
    src.Parsed? ==> NoDuplicates(src.header)
  }

  /** The set of labels of a header. */
  function Labels(header: seq<string>): set<string>
  {
    set key | key in header
  }

  /** The row built from one record: each label of `header` maps to the record's
      field at that label's position, later labels written after earlier ones. */
  function RowOf(header: seq<string>, record: seq<string>): (row: Row)
    requires |header| <= |record|
    ensures row.Keys == Labels(header)
  {
    if |header| == 0 then map[]
    else
      var h' := header[..|header| - 1];
      assert header == h' + [header[|header| - 1]];
      assert Labels(header) == Labels(h') + {header[|header| - 1]};
      RowOf(h', record)[header[|header| - 1] := record[|header| - 1]]
  }

  /** The rows built from records that are all at least as wide as the header. */
  function Rows(header: seq<string>, records: seq<seq<string>>): seq<Row>
    requires forall i :: 0 <= i < |records| ==> |header| <= |records[i]|
  {
    seq(|records|, i requires 0 <= i < |records| => RowOf(header, records[i]))
  }

  /** Position of the first record narrower than the header, or the number of records. */
  function FirstShort(header: seq<string>, records: seq<seq<string>>): (k: nat)
    ensures k <= |records|
    ensures forall i :: 0 <= i < k ==> |header| <= |records[i]|
    ensures k < |records| ==> |records[k]| < |header|
  {
    if |records| == 0 then 0
    else if |records[0]| < |header| then 0
    else 1 + FirstShort(header, records[1..])
  }

  /** The labels the loader iterates over: the header converted to an array of the
      first record's width; slots past the header's end are null. */
  function HeaderArray(header: seq<string>, width: nat): (a: seq<Option<string>>)
    ensures |a| == if width > |header| then width else |header|
    ensures forall j :: 0 <= j < |a| ==> a[j] == if j < |header| then Some(header[j]) else None
    ensures None in a <==> width > |header|
  {
    var a := seq(if width > |header| then width else |header|,
                 j requires 0 <= j => if j < |header| then Some(header[j]) else None);
    assert width > |header| ==> a[|header|] == None;
    a
  }

  /** One attempt at loading from `src` when nothing is loaded yet; `prior` is the
      job list before the attempt. */
  function Attempt(src: Source, prior: Option<seq<Row>>): (s: LoadState)
    ensures s.loaded ==>
      (s.completion == Returned && src.Parsed? && s.jobs.Some? && |s.jobs.value| == |src.records| > 0)
    ensures s.completion == Returned && !s.loaded ==> src.Unreadable? && s.jobs == prior
    ensures s.completion.Raised? ==> src.Parsed? && !s.loaded
  {
    match src
    case Unreadable =>
      // the IOException is caught and reported; flag and list stay as they were
      LoadState(Returned, false, prior)
    case Parsed(header, records) =>
      if |records| == 0 then
        // records.get(0) on an empty list
        LoadState(Raised(IndexOutOfBounds), false, prior)
      else if |records[0]| > |header| then
        // the label array has null slots: record.get(null) fails on the first record
        LoadState(Raised(IllegalArgument), false, Some([]))
      else
        var k := FirstShort(header, records);
        if k < |records| then
          // record k has no field for some label; the rows before it stay in the list
          LoadState(Raised(IllegalArgument), false, Some(Rows(header, records[..k])))
        else
          LoadState(Returned, true, Some(Rows(header, records)))
  }

  /** One call of the loader: nothing happens once the data is loaded. */
  function Load(loaded: bool, jobs: Option<seq<Row>>, src: Source): (s: LoadState)
    ensures loaded ==> s.completion == Returned && s.loaded && s.jobs == jobs
    ensures s.loaded ==> s.completion == Returned
    ensures !loaded && s.loaded ==> s.jobs.Some?
    ensures loaded ==> s.loaded
  {
    if loaded then LoadState(Returned, true, jobs) else Attempt(src, jobs)
  }

  /** The value a row holds for a column, `None` (Java's null) when it has no such key. */
  function Lookup(row: Row, field: string): (v: Option<string>)
    ensures v.Some? <==> field in row
    ensures v.Some? ==> v.value == row[field]
  {
    if field in row then Some(row[field]) else None
  }

  /** Every row's value for `field`, in row order. */
  function ColumnValues(rows: seq<Row>, field: string): seq<Option<string>>
  {
    seq(|rows|, i requires 0 <= i < |rows| => Lookup(rows[i], field))
  }

  /** The column of the rows grown by one row is the column grown by that row's value. */
  lemma ColumnValuesSnoc(rows: seq<Row>, i: nat, field: string)
    requires i < |rows|
    ensures ColumnValues(rows[..i + 1], field) == ColumnValues(rows[..i], field) + [Lookup(rows[i], field)]
  {
  }

  /** A row whose `column` value contains `value`, ignoring case. */
  function MatchesColumn(column: string, value: string): Row -> bool
  {
    (row: Row) => column in row && ContainsIgnoreCase(row[column], value)
  }

  /** A row with some value containing `term`, ignoring case. */
  function MatchesAnyColumn(term: string): Row -> bool
  {
    (row: Row) => exists key :: key in row && ContainsIgnoreCase(row[key], term)
  }

  /** The rows a column search returns. */
  function RowsMatchingColumn(rows: seq<Row>, column: string, value: string): seq<Row>
  {
    Filter(rows, MatchesColumn(column, value))
  }

  /** The rows an all-column search returns. */
  function RowsMatchingAny(rows: seq<Row>, term: string): seq<Row>
  {
    Filter(rows, MatchesAnyColumn(term))
  }

  /** The distinct values of `field`, kept in order of first occurrence. */
  method CollectDistinct(rows: seq<Row>, field: string) returns (values: seq<Option<string>>)
    ensures values == Deduplicate(ColumnValues(rows, field))
  {
    values := [];
    for i := 0 to |rows|
      invariant values == Deduplicate(ColumnValues(rows[..i], field))
    {
      var aValue := Lookup(rows[i], field);
      ColumnValuesSnoc(rows, i, field);
      DeduplicateSnoc(ColumnValues(rows[..i], field), aValue);
      if aValue !in values {
        values := values + [aValue];
      }
    }
    assert rows[..|rows|] == rows;
  }

  /** The rows whose `column` value contains `value` ignoring case, in row order; a
      row without that column makes the upper-casing of its null value throw. */
  method SelectByColumn(rows: seq<Row>, column: string, value: string) returns (r: Outcome<seq<Row>>)
    ensures r == if forall row <- rows :: column in row
                 then Normal(RowsMatchingColumn(rows, column, value))
                 else Thrown(NullPointer)
  {
    var jobs := [];
    for i := 0 to |rows|
      invariant forall t :: 0 <= t < i ==> column in rows[t]
      invariant jobs == RowsMatchingColumn(rows[..i], column, value)
    {
      var row := rows[i];
      if column !in row {
        return Thrown(NullPointer);
      }
      var aValue := row[column];
      FilterSnoc(rows, i, MatchesColumn(column, value));
      assert MatchesColumn(column, value)(row) == ContainsIgnoreCase(aValue, value);
      if ContainsIgnoreCase(aValue, value) {
        jobs := jobs + [row];
      }
    }
    assert rows[..|rows|] == rows;
    assert forall row <- rows :: column in row;
    r := Normal(jobs);
  }

  /** The rows with some value containing `term` ignoring case, in row order. The
      values of a row are visited in an unspecified order, and the visit stops at the
      first match, so a row is added at most once. */
  method SelectByAnyColumn(rows: seq<Row>, term: string) returns (jobs: seq<Row>)
    ensures jobs == RowsMatchingAny(rows, term)
  {
    jobs := [];
    for i := 0 to |rows|
      invariant jobs == RowsMatchingAny(rows[..i], term)
    {
      var row := rows[i];
      FilterSnoc(rows, i, MatchesAnyColumn(term));
      var before := jobs;
      var unvisited := row.Keys;
      while unvisited != {}
        invariant unvisited <= row.Keys
        invariant jobs == before
        invariant forall key :: key in row && key !in unvisited ==> !ContainsIgnoreCase(row[key], term)
        decreases unvisited
      {
        var key :| key in unvisited;
        if ContainsIgnoreCase(row[key], term) {
          jobs := jobs + [row];
          break;
        }
        unvisited := unvisited - {key};
      }
    }
    assert rows[..|rows|] == rows;
  }

  /** The row the loader builds from one record by looking up each entry of the
      label array in the record; a null entry, or a label whose position lies past
      the record's end, makes `record.get` throw. */
  method RecordToRow(header: seq<string>, headers: seq<Option<string>>, record: seq<string>)
    returns (r: Outcome<Row>)
    requires NoDuplicates(header)
    requires |header| <= |headers|
    requires forall j :: 0 <= j < |headers| ==> headers[j] == if j < |header| then Some(header[j]) else None
    ensures r == if |headers| > |header| || |record| < |header| then Thrown(IllegalArgument)
                 else Normal(RowOf(header, record))
  {
    var newJob: Row := map[];
    var j := 0;
    while j < |headers|
      invariant j <= |header| && j <= |record|
      invariant newJob == RowOf(header[..j], record)
    {
      if headers[j].None? {
        // record.get(null): no such label
        return Thrown(IllegalArgument);
      }
      var headerLabel := headers[j].value;
      // record.get(label) reads the field at the label's position in the header
      var index := FirstIndex(header, headerLabel);
      assert index == j;
      if index >= |record| {
        return Thrown(IllegalArgument);
      }
      assert header[..j + 1][..j] == header[..j];
      newJob := newJob[headerLabel := record[index]];
      j := j + 1;
    }
    assert header[..j] == header;
    r := Normal(newJob);
  }

  /** The loader stops at record `i`, the first one it cannot turn into a row:
      the attempt throws and leaves the rows before `i` in the list. */
  lemma AttemptStopsAt(header: seq<string>, records: seq<seq<string>>, i: nat, prior: Option<seq<Row>>)
    requires i < |records|
    requires forall t :: 0 <= t < i ==> |header| <= |records[t]|
    requires i > 0 ==> |records[0]| <= |header|
    requires |records[i]| < |header| || (i == 0 && |records[0]| > |header|)
    ensures Attempt(Parsed(header, records), prior) ==
      LoadState(Raised(IllegalArgument), false, Some(Rows(header, records[..i])))
  {
    if |records[0]| <= |header| {
      assert FirstShort(header, records) == i;
    } else {
      assert Rows(header, records[..0]) == [];
    }
  }

  /** The loader turns every record into a row: the attempt sets the flag. */
  lemma AttemptSucceeds(header: seq<string>, records: seq<seq<string>>, prior: Option<seq<Row>>)
    requires |records| > 0 && |records[0]| <= |header|
    requires forall t :: 0 <= t < |records| ==> |header| <= |records[t]|
    ensures Attempt(Parsed(header, records), prior) ==
      LoadState(Returned, true, Some(Rows(header, records)))
  {
  }

  /** The store: the loaded flag, the list of rows, and (as a ghost) the header the
      rows were built from. */
  class JobData {
    var isDataLoaded: bool
    var allJobs: Option<seq<Row>>
    ghost var headerLabels: seq<string>

    /** Once loaded, the list exists and every row has exactly the header's labels as keys. */
    ghost predicate Valid()
      reads this
    {
      isDataLoaded ==>
        allJobs.Some? && forall row <- allJobs.value :: row.Keys == Labels(headerLabels)
    }

    /** The state before any query: not loaded, no list. */
    constructor ()
      ensures Valid() && !isDataLoaded && allJobs == None
    {
      isDataLoaded := false;
      allJobs := None;
      headerLabels := [];
    }

    /** Loads the data unless it is already loaded. */
    method LoadData(src: Source) returns (c: Completion)
      requires Valid() && WellFormed(src)
      modifies this
      ensures Valid()
      ensures var s := Load(old(isDataLoaded), old(allJobs), src);
        c == s.completion && isDataLoaded == s.loaded && allJobs == s.jobs
      ensures old(isDataLoaded) ==>
        c == Returned && isDataLoaded && allJobs == old(allJobs) && headerLabels == old(headerLabels)
      ensures isDataLoaded <==> old(isDataLoaded) || (src.Parsed? && c == Returned)
      ensures !old(isDataLoaded) && isDataLoaded ==> src.Parsed? && headerLabels == src.header
    {
      if isDataLoaded {
        return Returned;
      }
      match src {
        case Unreadable =>
          c := Returned;
        case Parsed(header, records) =>
          if |records| == 0 {
            return Raised(IndexOutOfBounds);
          }
          var numberOfColumns := |records[0]|;
          var headers := HeaderArray(header, numberOfColumns);
          allJobs := Some([]);
          assert Rows(header, records[..0]) == [];
          for i := 0 to |records|
            invariant !isDataLoaded
            invariant i > 0 ==> |records[0]| <= |header|
            invariant forall t :: 0 <= t < i ==> |header| <= |records[t]|
            invariant allJobs == Some(Rows(header, records[..i]))
          {
            var built := RecordToRow(header, headers, records[i]);
            if built.Thrown? {
              AttemptStopsAt(header, records, i, old(allJobs));
              return Raised(built.exception);
            }
            var newJob := built.value;
            assert Rows(header, records[..i + 1]) == Rows(header, records[..i]) + [newJob];
            allJobs := Some(allJobs.value + [newJob]);
          }
          assert records[..|records|] == records;
          AttemptSucceeds(header, records, old(allJobs));
          LoadedRowsHaveHeaderLabels(header, records);
          isDataLoaded := true;
          headerLabels := header;
          c := Returned;
      }
    }

    /** `findAll(field)`: the distinct values of one column, in order of first occurrence. */
    method FindAllValues(src: Source, field: string) returns (r: Outcome<seq<Option<string>>>)
      requires Valid() && WellFormed(src)
      modifies this
      ensures Valid()
      ensures old(isDataLoaded) ==> headerLabels == old(headerLabels)
      ensures !old(isDataLoaded) && isDataLoaded ==> src.Parsed? && headerLabels == src.header
      ensures var s := Load(old(isDataLoaded), old(allJobs), src);
        isDataLoaded == s.loaded && allJobs == s.jobs &&
        r == if s.completion.Raised? then Thrown(s.completion.exception)
             else if s.jobs.None? then Thrown(NullPointer)
             else Normal(Deduplicate(ColumnValues(s.jobs.value, field)))
    {
      var c := LoadData(src);
      if c.Raised? {
        return Thrown(c.exception);
      }
      if allJobs.None? {
        return Thrown(NullPointer);
      }
      var values := CollectDistinct(allJobs.value, field);
      r := Normal(values);
    }

    /** `findAll()`: the cached list itself, still null when no load has built one. */
    method FindAll(src: Source) returns (r: Outcome<Option<seq<Row>>>)
      requires Valid() && WellFormed(src)
      modifies this
      ensures Valid()
      ensures old(isDataLoaded) ==> headerLabels == old(headerLabels)
      ensures !old(isDataLoaded) && isDataLoaded ==> src.Parsed? && headerLabels == src.header
      ensures var s := Load(old(isDataLoaded), old(allJobs), src);
        isDataLoaded == s.loaded && allJobs == s.jobs &&
        r == if s.completion.Raised? then Thrown(s.completion.exception) else Normal(s.jobs)
    {
      var c := LoadData(src);
      if c.Raised? {
        return Thrown(c.exception);
      }
      r := Normal(allJobs);
    }

    /** `findByColumnAndValue(column, value)`: the rows whose `column` value contains
        `value` ignoring case. Once loaded, a search on one of the header labels never
        throws. */
    method FindByColumnAndValue(src: Source, column: string, value: string) returns (r: Outcome<seq<Row>>)
      requires Valid() && WellFormed(src)
      modifies this
      ensures Valid()
      ensures old(isDataLoaded) ==> headerLabels == old(headerLabels)
      ensures !old(isDataLoaded) && isDataLoaded ==> src.Parsed? && headerLabels == src.header
      ensures var s := Load(old(isDataLoaded), old(allJobs), src);
        isDataLoaded == s.loaded && allJobs == s.jobs &&
        r == if s.completion.Raised? then Thrown(s.completion.exception)
             else if s.jobs.None? then Thrown(NullPointer)
             else if forall row <- s.jobs.value :: column in row
             then Normal(RowsMatchingColumn(s.jobs.value, column, value))
             else Thrown(NullPointer)
      ensures isDataLoaded && column in headerLabels ==>
        r == Normal(RowsMatchingColumn(allJobs.value, column, value))
    {
      var c := LoadData(src);
      if c.Raised? {
        return Thrown(c.exception);
      }
      if allJobs.None? {
        return Thrown(NullPointer);
      }
      r := SelectByColumn(allJobs.value, column, value);
    }

    /** `searchAllColumns(term)`: the rows with some value containing `term` ignoring
        case. On a loaded store with a non-empty header the empty term returns every row. */
    method SearchAllColumns(src: Source, term: string) returns (r: Outcome<seq<Row>>)
      requires Valid() && WellFormed(src)
      modifies this
      ensures Valid()
      ensures old(isDataLoaded) ==> headerLabels == old(headerLabels)
      ensures !old(isDataLoaded) && isDataLoaded ==> src.Parsed? && headerLabels == src.header
      ensures var s := Load(old(isDataLoaded), old(allJobs), src);
        isDataLoaded == s.loaded && allJobs == s.jobs &&
        r == if s.completion.Raised? then Thrown(s.completion.exception)
             else if s.jobs.None? then Thrown(NullPointer)
             else Normal(RowsMatchingAny(s.jobs.value, term))
      ensures isDataLoaded && |headerLabels| > 0 && term == "" ==>
        r == Normal(allJobs.value)
    {
      var c := LoadData(src);
      if c.Raised? {
        return Thrown(c.exception);
      }
      if allJobs.None? {
        return Thrown(NullPointer);
      }
      var jobs := SelectByAnyColumn(allJobs.value, term);
      r := Normal(jobs);
      if isDataLoaded && |headerLabels| > 0 && term == "" {
        assert headerLabels[0] in Labels(headerLabels);
        EmptyTermFindsEveryRow(allJobs.value);
      }
    }
  }

  /** When the labels are distinct, a row built from a record holds at each label
      the record's field at that label's position. */
  lemma {:induction false} RowOfShape(header: seq<string>, record: seq<string>)
    requires |header| <= |record|
    ensures NoDuplicates(header) ==>
      forall j :: 0 <= j < |header| ==> RowOf(header, record)[header[j]] == record[j]
  {
    if |header| > 0 && NoDuplicates(header) {
      var n := |header| - 1;
      var h' := header[..n];
      assert NoDuplicates(h');
      RowOfShape(h', record);
      var row' := RowOf(h', record);
      forall j | 0 <= j < |header|
        ensures RowOf(header, record)[header[j]] == record[j]
      {
        if j < n {
          assert header[j] == h'[j] && header[j] != header[n];
          assert row'[h'[j]] == record[j];
        }
      }
    }
  }

  /** Every row built from a list of records has the header's labels as its keys. */
  lemma LoadedRowsHaveHeaderLabels(header: seq<string>, records: seq<seq<string>>)
    requires forall i :: 0 <= i < |records| ==> |header| <= |records[i]|
    ensures forall row <- Rows(header, records) :: row.Keys == Labels(header)
  {
  }

  /** A successful load turns record i into row i, whose keys are exactly the
      header's labels and whose value at label j is field j of the record. */
  lemma SuccessfulLoad(src: Source, prior: Option<seq<Row>>)
    requires WellFormed(src)
    requires Attempt(src, prior).loaded
    ensures Attempt(src, prior).completion == Returned
    ensures src.Parsed? && |src.records| > 0
    ensures Attempt(src, prior).jobs.Some?
    ensures var rows := Attempt(src, prior).jobs.value;
      |rows| == |src.records| &&
      forall i :: 0 <= i < |rows| ==>
        rows[i].Keys == Labels(src.header) &&
        forall j :: 0 <= j < |src.header| ==> rows[i][src.header[j]] == src.records[i][j]
  {
    var rows := Attempt(src, prior).jobs.value;
    forall i | 0 <= i < |rows|
      ensures rows[i].Keys == Labels(src.header)
      ensures forall j :: 0 <= j < |src.header| ==> rows[i][src.header[j]] == src.records[i][j]
    {
      RowOfShape(src.header, src.records[i]);
    }
  }

  /** A load attempt succeeds exactly when the source was parsed, has records, its
      first record is as wide as the header and no record is narrower. */
  lemma LoadSucceedsExactly(src: Source, prior: Option<seq<Row>>)
    ensures Attempt(src, prior).loaded <==>
      src.Parsed? && |src.records| > 0 && |src.records[0]| == |src.header| &&
      forall i :: 0 <= i < |src.records| ==> |src.header| <= |src.records[i]|
    ensures !Attempt(src, prior).loaded ==> Attempt(src, prior).completion != Returned || src.Unreadable?
  {
    if src.Parsed? && |src.records| > 0 && |src.records[0]| <= |src.header| {
      var k := FirstShort(src.header, src.records);
      if k < |src.records| {
        assert |src.records[k]| < |src.header|;
      }
    }
  }

  /** Once loaded, a further call of the loader changes nothing, whatever the source. */
  lemma LoadOnlyOnce(loaded: bool, jobs: Option<seq<Row>>, src: Source, src': Source)
    requires Load(loaded, jobs, src).loaded
    ensures var s := Load(loaded, jobs, src);
      Load(s.loaded, s.jobs, src') == LoadState(Returned, true, s.jobs)
  {
  }

  /** The distinct values of a column: no value twice, exactly the values some row
      holds, in order of their first occurrence. */
  lemma DistinctValuesOfColumn(rows: seq<Row>, field: string)
    ensures var d := Deduplicate(ColumnValues(rows, field));
      NoDuplicates(d) &&
      (forall v :: v in d <==> exists i :: 0 <= i < |rows| && Lookup(rows[i], field) == v) &&
      forall a, b :: 0 <= a < b < |d| ==>
        FirstIndex(ColumnValues(rows, field), d[a]) < FirstIndex(ColumnValues(rows, field), d[b])
  {
    var s := ColumnValues(rows, field);
    var d := Deduplicate(s);
    DeduplicateKeepsFirstOccurrenceOrder(s);
    forall v
      ensures v in d <==> exists i :: 0 <= i < |rows| && Lookup(rows[i], field) == v
    {
      if v in d {
        var a :| 0 <= a < |d| && d[a] == v;
        var i :| 0 <= i < |s| && s[i] == v;
        assert Lookup(rows[i], field) == v;
      }
      if exists i :: 0 <= i < |rows| && Lookup(rows[i], field) == v {
        var i :| 0 <= i < |rows| && Lookup(rows[i], field) == v;
        assert s[i] == v;
      }
    }
  }

  /** When every row has the column, no null is among its distinct values. */
  lemma DistinctValuesPresent(rows: seq<Row>, field: string)
    requires forall row <- rows :: field in row
    ensures forall v <- Deduplicate(ColumnValues(rows, field)) :: v.Some?
  {
    var s := ColumnValues(rows, field);
    forall v <- Deduplicate(s)
      ensures v.Some?
    {
      var i :| 0 <= i < |s| && s[i] == v;
    }
  }

  /** The column search returns the matching rows and no other, each as often as it
      occurs in the dataset, in dataset order. */
  lemma ColumnSearchIsExact(rows: seq<Row>, column: string, value: string)
    ensures var r := RowsMatchingColumn(rows, column, value);
      IsSubsequence(r, rows) &&
      forall row :: multiset(r)[row] ==
        if column in row && ContainsIgnoreCase(row[column], value) then multiset(rows)[row] else 0
  {
    var p := MatchesColumn(column, value);
    FilterIsSubsequence(rows, p);
    forall row
      ensures multiset(Filter(rows, p))[row] == if p(row) then multiset(rows)[row] else 0
    {
      FilterCount(rows, p, row);
    }
  }

  /** Searching a column for the empty term returns every row, as long as every row
      has the column. */
  lemma EmptyValueFindsEveryRow(rows: seq<Row>, column: string)
    requires forall row <- rows :: column in row
    ensures RowsMatchingColumn(rows, column, "") == rows
  {
    forall i | 0 <= i < |rows|
      ensures MatchesColumn(column, "")(rows[i])
    {
      EmptyTermMatches(rows[i][column]);
    }
    FilterKeepsAll(rows, MatchesColumn(column, ""));
  }

  /** The all-column search returns the rows with at least one matching value and no
      other, in dataset order; a row occurs in the result no more often than in the
      dataset, however many of its values match. */
  lemma AllColumnSearchIsExact(rows: seq<Row>, term: string)
    ensures var r := RowsMatchingAny(rows, term);
      IsSubsequence(r, rows) &&
      forall row :: multiset(r)[row] ==
        if exists key :: key in row && ContainsIgnoreCase(row[key], term)
        then multiset(rows)[row] else 0
  {
    var p := MatchesAnyColumn(term);
    FilterIsSubsequence(rows, p);
    forall row
      ensures multiset(Filter(rows, p))[row] == if p(row) then multiset(rows)[row] else 0
    {
      FilterCount(rows, p, row);
    }
  }

  /** The all-column search never returns a row more often than the dataset holds it. */
  lemma AllColumnSearchAtMostOnce(rows: seq<Row>, term: string, row: Row)
    ensures multiset(RowsMatchingAny(rows, term))[row] <= multiset(rows)[row]
  {
    FilterCount(rows, MatchesAnyColumn(term), row);
  }

  /** Searching all columns for the empty term returns every row that has a column. */
  lemma EmptyTermFindsEveryRow(rows: seq<Row>)
    requires forall row <- rows :: row != map[]
    ensures RowsMatchingAny(rows, "") == rows
  {
    forall i | 0 <= i < |rows|
      ensures MatchesAnyColumn("")(rows[i])
    {
      var row := rows[i];
      assert row in rows;
      assert row.Keys != {};
      var key :| key in row;
      EmptyTermMatches(row[key]);
    }
    FilterKeepsAll(rows, MatchesAnyColumn(""));
  }

  /** Three example rows with the columns "name" and "employer". */
  function ExampleRows(): seq<Row>
  {
    [map["name" := "Alice", "employer" := "Acme"],
     map["name" := "Bob", "employer" := "Acme Corp"],
     map["name" := "Carol", "employer" := "Globex"]]
  }

  /** Searching the example's employers for "acme" returns the first two rows. */
  lemma ColumnSearchExample()
    ensures RowsMatchingColumn(ExampleRows(), "employer", "acme") == ExampleRows()[..2]
  {
    var rows, p := ExampleRows(), MatchesColumn("employer", "acme");
    OccurrenceMatches("Acme", "acme", 0);
    OccurrenceMatches("Acme Corp", "acme", 0);
    GlobexIsNotAcme();
    assert p(rows[0]) && p(rows[1]) && !p(rows[2]);
    FilterSnoc(rows, 0, p);
    FilterSnoc(rows, 1, p);
    FilterSnoc(rows, 2, p);
    assert rows[..3] == rows;
  }

  /** "acme" does not occur in "Globex" in any letter case. */
  lemma GlobexIsNotAcme()
    ensures !ContainsIgnoreCase("Globex", "acme")
  {
    var u, v := ToUpper("Globex"), ToUpper("acme");
    forall i | 0 <= i <= |u| - |v|
      ensures !OccursAt(u, v, i)
    {
      assert u[i..i + |v|][0] == u[i] != 'A';
    }
  }

  /** The example's employers, each once, in file order. */
  lemma DistinctValuesExample()
    ensures Deduplicate(ColumnValues(ExampleRows(), "employer")) ==
      [Some("Acme"), Some("Acme Corp"), Some("Globex")]
  {
    var s := ColumnValues(ExampleRows(), "employer");
    assert s == [Some("Acme"), Some("Acme Corp"), Some("Globex")];
    DeduplicateOfDistinct(s);
  }
}
