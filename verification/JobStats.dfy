/** What a search job leaves in the database: the rows it found and how often each field value occurred
    (internal/jobs/Engine.go, plugins/sqlite_jobs/SqliteJobRepository.go). Any number of jobs run at the same time and
    write to the same tables, batch by batch, and any write may fail. */
module JobStats {
  import opened Common
  import opened Steps
  import PipelineCompiler
  import Network = PipelineNetwork

  /** JobResults, JobTableResults and JobFieldValues; the unique key of the last is its first three columns. */
  datatype Match = Match(job: int, event: int, timestamp: int)
  datatype TableRow = TableRow(job: int, number: nat, values: Fields)
  datatype Key = Key(job: int, field: string, value: string)

  type FieldValues = map<Key, nat>

  datatype FieldStat = FieldStat(field: string, value: string, occurrences: nat)

  // ---- Counting ----

  function Has(record: Fields, field: string, value: string): nat {
    if field in record && record[field] == value then 1 else 0
  }

  /** In how many records the field has the value. */
  function Occurrences(records: seq<Fields>, field: string, value: string): nat {
    if records == [] then 0
    else Occurrences(records[..|records| - 1], field, value) + Has(records[|records| - 1], field, value)
  }

  lemma {:induction false} OccurrencesAppend(a: seq<Fields>, b: seq<Fields>, field: string, value: string)
    ensures Occurrences(a + b, field, value) == Occurrences(a, field, value) + Occurrences(b, field, value)
  {
    if b == [] {
      assert a + b == a;
    } else {
      var n := |b| - 1;
      assert (a + b)[..|a + b| - 1] == a + b[..n];
      OccurrencesAppend(a, b[..n], field, value);
    }
  }

  lemma {:induction false} OccursIff(records: seq<Fields>, field: string, value: string)
    ensures Occurrences(records, field, value) > 0 <==>
            exists i :: 0 <= i < |records| && field in records[i] && records[i][field] == value
  {
    if records != [] {
      var n := |records| - 1;
      OccursIff(records[..n], field, value);
      if field in records[n] && records[n][field] == value {
      } else if i :| 0 <= i < |records| && field in records[i] && records[i][field] == value {
        assert records[..n][i] == records[i];
      }
    }
  }

  /** The records in which the field has the value, by position. */
  function PositionsOf(records: seq<Fields>, field: string, value: string): set<nat> {
    set i: nat | i < |records| && field in records[i] && records[i][field] == value
  }

  lemma {:induction false} OccurrencesAreRecords(records: seq<Fields>, field: string, value: string)
    ensures Occurrences(records, field, value) == |PositionsOf(records, field, value)|
  {
    if records == [] {
      assert PositionsOf(records, field, value) == {};
    } else {
      var n := |records| - 1;
      OccurrencesAreRecords(records[..n], field, value);
      var before := PositionsOf(records[..n], field, value);
      assert n !in before;
      assert PositionsOf(records, field, value) ==
             before + if field in records[n] && records[n][field] == value then {n} else {};
    }
  }

  type Tally = map<string, map<string, nat>>

  function Tallied(m: Tally, field: string, value: string): nat {
    if field in m && value in m[field] then m[field][value] else 0
  }

  predicate NoZeros(m: Tally) {
    forall f, v :: f in m && v in m[f] ==> m[f][v] > 0
  }

  /** The inner loop of gatherFieldStats. */
  method CountFields(m0: Tally, record: Fields) returns (m: Tally)
    requires NoZeros(m0)
    ensures NoZeros(m)
    ensures forall f, v :: Tallied(m, f, v) == Tallied(m0, f, v) + Has(record, f, v)
  {
    m := m0;
    var keys := record.Keys;
    while keys != {}
      invariant keys <= record.Keys
      invariant NoZeros(m)
      invariant forall f, v :: Tallied(m, f, v) == Tallied(m0, f, v) + if f in keys then 0 else Has(record, f, v)
      decreases |keys|
    {
      var k :| k in keys;
      var v := record[k];
      if k !in m {
        m := m[k := map[v := 1]];
      } else if v !in m[k] {
        m := m[k := m[k][v := 1]];
      } else {
        m := m[k := m[k][v := m[k][v] + 1]];
      }
      keys := keys - {k};
    }
  }

  /** The sum of what a list of statistics says about one value of a field. */
  function Total(stats: seq<FieldStat>, field: string, value: string): nat {
    if stats == [] then 0
    else
      var s := stats[|stats| - 1];
      Total(stats[..|stats| - 1], field, value) +
      if s.field == field && s.value == value then s.occurrences else 0
  }

  /** A complete list of statistics for some records: one entry for each value of each field that occurs. */
  ghost predicate IsTallyOf(stats: seq<FieldStat>, records: seq<Fields>) {
    && (forall f, v :: Total(stats, f, v) == Occurrences(records, f, v))
    && (forall i :: 0 <= i < |stats| ==> stats[i].occurrences > 0)
    && (forall i, j :: 0 <= i < j < |stats| ==> stats[i].field != stats[j].field || stats[i].value != stats[j].value)
  }

  lemma {:induction false} TotalOfEntry(stats: seq<FieldStat>, i: nat)
    requires i < |stats|
    requires forall j, k :: 0 <= j < k < |stats| ==>
               stats[j].field != stats[k].field || stats[j].value != stats[k].value
    ensures Total(stats, stats[i].field, stats[i].value) == stats[i].occurrences
  {
    var n := |stats| - 1;
    if i < n {
      TotalOfEntry(stats[..n], i);
    } else {
      NoEntry(stats[..n], stats[n].field, stats[n].value);
    }
  }

  lemma {:induction false} NoEntry(stats: seq<FieldStat>, field: string, value: string)
    ensures (forall i :: 0 <= i < |stats| ==> stats[i].field != field || stats[i].value != value) ==>
              Total(stats, field, value) == 0
  {
    if stats != [] {
      NoEntry(stats[..|stats| - 1], field, value);
    }
  }

  /** A complete list has exactly one entry for each value that some record has in some field, and the entry counts the
      records that have it. */
  lemma {:induction false} TallyMeaning(stats: seq<FieldStat>, records: seq<Fields>)
    requires IsTallyOf(stats, records)
    ensures forall i :: 0 <= i < |stats| ==>
      stats[i].occurrences == |set n: nat | n < |records| && stats[i].field in records[n] &&
                                            records[n][stats[i].field] == stats[i].value|
    ensures forall n, f :: 0 <= n < |records| && f in records[n] ==>
      exists i :: 0 <= i < |stats| && stats[i].field == f && stats[i].value == records[n][f]
  {
    forall i | 0 <= i < |stats|
      ensures stats[i].occurrences == |PositionsOf(records, stats[i].field, stats[i].value)|
    {
      TotalOfEntry(stats, i);
      OccurrencesAreRecords(records, stats[i].field, stats[i].value);
    }
    forall n, f | 0 <= n < |records| && f in records[n]
      ensures exists i :: 0 <= i < |stats| && stats[i].field == f && stats[i].value == records[n][f]
    {
      OccursIff(records, f, records[n][f]);
      NoEntry(stats, f, records[n][f]);
    }
  }

  lemma TotalSnoc(stats: seq<FieldStat>, s: FieldStat, field: string, value: string)
    ensures Total(stats + [s], field, value) ==
            Total(stats, field, value) + if s.field == field && s.value == value then s.occurrences else 0
  {
    assert (stats + [s])[..|stats|] == stats;
  }

  /** The entries of one field, in the inner of the last two loops of gatherFieldStats. */
  method ListField(stats0: seq<FieldStat>, field: string, vm: map<string, nat>) returns (stats: seq<FieldStat>)
    requires forall v :: v in vm ==> vm[v] > 0
    requires forall i :: 0 <= i < |stats0| ==> stats0[i].field != field
    ensures stats0 <= stats
    ensures forall f, v :: Total(stats, f, v) == Total(stats0, f, v) + if f == field && v in vm then vm[v] else 0
    ensures forall i :: |stats0| <= i < |stats| ==> stats[i].field == field && stats[i].occurrences > 0
    ensures forall i, j :: |stats0| <= i < j < |stats| ==> stats[i].value != stats[j].value
  {
    stats := stats0;
    var values := vm.Keys;
    while values != {}
      invariant values <= vm.Keys
      invariant stats0 <= stats
      invariant forall f, v ::
        Total(stats, f, v) == Total(stats0, f, v) + if f == field && v in vm && v !in values then vm[v] else 0
      invariant forall i :: |stats0| <= i < |stats| ==>
        stats[i].field == field && stats[i].occurrences > 0 && stats[i].value !in values
      invariant forall i, j :: |stats0| <= i < j < |stats| ==> stats[i].value != stats[j].value
      decreases |values|
    {
      var v :| v in values;
      var s := FieldStat(field, v, vm[v]);
      forall f, w
        ensures Total(stats + [s], f, w) == Total(stats, f, w) + if f == field && w == v then vm[v] else 0
      {
        TotalSnoc(stats, s, f, w);
      }
      stats := stats + [s];
      values := values - {v};
    }
  }

  method ListStats(m: Tally) returns (stats: seq<FieldStat>)
    requires NoZeros(m)
    ensures forall f, v :: Total(stats, f, v) == Tallied(m, f, v)
    ensures forall i :: 0 <= i < |stats| ==> stats[i].occurrences > 0
    ensures forall i, j :: 0 <= i < j < |stats| ==> stats[i].field != stats[j].field || stats[i].value != stats[j].value
  {
    stats := [];
    var fields := m.Keys;
    while fields != {}
      invariant fields <= m.Keys
      invariant forall f, v :: Total(stats, f, v) == if f in fields then 0 else Tallied(m, f, v)
      invariant forall i :: 0 <= i < |stats| ==> stats[i].occurrences > 0 && stats[i].field !in fields
      invariant forall i, j :: 0 <= i < j < |stats| ==>
        stats[i].field != stats[j].field || stats[i].value != stats[j].value
      decreases |fields|
    {
      var k :| k in fields;
      stats := ListField(stats, k, m[k]);
      fields := fields - {k};
    }
  }

  function FieldsOf(e: Event): Fields {
    e.fields
  }

  lemma TallyOfEvents(stats: seq<FieldStat>, evts: seq<Event>)
    requires IsTallyOf(stats, Map(FieldsOf, evts))
    ensures forall i :: 0 <= i < |stats| ==>
      stats[i].occurrences == |set n: nat | n < |evts| && stats[i].field in evts[n].fields &&
                                            evts[n].fields[stats[i].field] == stats[i].value|
    ensures forall n, f :: 0 <= n < |evts| && f in evts[n].fields ==>
      exists i :: 0 <= i < |stats| && stats[i].field == f && stats[i].value == evts[n].fields[f]
  {
    var records := Map(FieldsOf, evts);
    TallyMeaning(stats, records);
    hide IsTallyOf;
    assert forall n :: 0 <= n < |evts| ==> records[n] == evts[n].fields;
    forall i | 0 <= i < |stats|
      ensures stats[i].occurrences == |set n: nat | n < |evts| && stats[i].field in evts[n].fields &&
                                                    evts[n].fields[stats[i].field] == stats[i].value|
    {
      var f, v := stats[i].field, stats[i].value;
      assert (set n: nat | n < |records| && f in records[n] && records[n][f] == v) ==
             (set n: nat | n < |evts| && f in evts[n].fields && evts[n].fields[f] == v);
    }
  }

  method GatherFieldStats(evts: seq<Event>) returns (stats: seq<FieldStat>)
    ensures IsTallyOf(stats, Map(FieldsOf, evts))
    ensures forall i :: 0 <= i < |stats| ==>
      stats[i].occurrences == |set n: nat | n < |evts| && stats[i].field in evts[n].fields &&
                                            evts[n].fields[stats[i].field] == stats[i].value|
    ensures forall n, f :: 0 <= n < |evts| && f in evts[n].fields ==>
      exists i :: 0 <= i < |stats| && stats[i].field == f && stats[i].value == evts[n].fields[f]
  {
    var m: Tally := map[];
    ghost var records := Map(FieldsOf, evts);
    for i := 0 to |evts|
      invariant NoZeros(m)
      invariant forall f, v :: Tallied(m, f, v) == Occurrences(records[..i], f, v)
    {
      m := CountFields(m, evts[i].fields);
      assert records[..i + 1][..i] == records[..i];
    }
    assert records[..|evts|] == records;
    stats := ListStats(m);
    TallyOfEvents(stats, evts);
  }

  method GatherFieldStatsFromTable(rows: seq<Fields>) returns (stats: seq<FieldStat>)
    ensures IsTallyOf(stats, rows)
    ensures forall i :: 0 <= i < |stats| ==>
      stats[i].occurrences == |set n: nat | n < |rows| && stats[i].field in rows[n] &&
                                            rows[n][stats[i].field] == stats[i].value|
    ensures forall n, f :: 0 <= n < |rows| && f in rows[n] ==>
      exists i :: 0 <= i < |stats| && stats[i].field == f && stats[i].value == rows[n][f]
  {
    var m: Tally := map[];
    for i := 0 to |rows|
      invariant NoZeros(m)
      invariant forall f, v :: Tallied(m, f, v) == Occurrences(rows[..i], f, v)
    {
      m := CountFields(m, rows[i]);
      assert rows[..i + 1][..i] == rows[..i];
    }
    assert rows[..|rows|] == rows;
    stats := ListStats(m);
    TallyMeaning(stats, rows);
  }

  // ---- The JobFieldValues table ----

  function Count(t: FieldValues, k: Key): nat {
    if k in t then t[k] else 0
  }

  /** One row of the insert statement with its conflict clause. */
  function Upsert(t: FieldValues, job: int, s: FieldStat): FieldValues {
    var k := Key(job, s.field, s.value);
    t[k := Count(t, k) + s.occurrences]
  }

  function UpsertAll(t: FieldValues, job: int, stats: seq<FieldStat>): FieldValues {
    if stats == [] then t
    else Upsert(UpsertAll(t, job, stats[..|stats| - 1]), job, stats[|stats| - 1])
  }

  lemma {:induction false} UpsertAllCounts(t: FieldValues, job: int, stats: seq<FieldStat>, k: Key)
    requires forall i :: 0 <= i < |stats| ==> stats[i].occurrences > 0
    ensures Count(UpsertAll(t, job, stats), k) ==
            Count(t, k) + if k.job == job then Total(stats, k.field, k.value) else 0
    ensures k in UpsertAll(t, job, stats) <==> k in t || (k.job == job && Total(stats, k.field, k.value) > 0)
  {
    if stats != [] {
      UpsertAllCounts(t, job, stats[..|stats| - 1], k);
    }
  }

  function KeysOf(job: int, records: seq<Fields>): set<Key> {
    set i, f | 0 <= i < |records| && f in records[i] :: Key(job, f, records[i][f])
  }

  /** The table after counting some more records of a job, whatever the order in which their statistics are listed. */
  function AddOccurrences(t: FieldValues, job: int, records: seq<Fields>): FieldValues {
    map k | k in t.Keys + KeysOf(job, records) ::
      Count(t, k) + if k.job == job then Occurrences(records, k.field, k.value) else 0
  }

  lemma UpsertCountsRecords(t: FieldValues, job: int, stats: seq<FieldStat>, records: seq<Fields>)
    requires IsTallyOf(stats, records)
    ensures UpsertAll(t, job, stats) == AddOccurrences(t, job, records)
  {
    hide UpsertAll, AddOccurrences;
    var a, b := UpsertAll(t, job, stats), AddOccurrences(t, job, records);
    forall k: Key
      ensures k in a <==> k in b
      ensures Count(a, k) == Count(b, k)
    {
      UpsertAllCounts(t, job, stats, k);
      CountAdded(t, job, records, k);
      assert Total(stats, k.field, k.value) == Occurrences(records, k.field, k.value);
    }
    SameCounts(a, b);
  }

  lemma SameCounts(a: FieldValues, b: FieldValues)
    requires forall k: Key :: (k in a <==> k in b) && Count(a, k) == Count(b, k)
    ensures a == b
  {
    assert a.Keys == b.Keys;
    assert forall k :: k in a ==> a[k] == Count(a, k) == Count(b, k) == b[k];
  }

  lemma InKeysOf(job: int, records: seq<Fields>, k: Key)
    ensures k in KeysOf(job, records) <==>
            k.job == job && exists i :: 0 <= i < |records| && k.field in records[i] && records[i][k.field] == k.value
  {
    if k in KeysOf(job, records) {
      var i, f :| 0 <= i < |records| && f in records[i] && k == Key(job, f, records[i][f]);
      assert k.field in records[i] && records[i][k.field] == k.value;
    }
    if k.job == job {
      if i :| 0 <= i < |records| && k.field in records[i] && records[i][k.field] == k.value {
        assert k == Key(job, k.field, records[i][k.field]);
      }
    }
  }

  // ---- The repository ----

  function ToMatch(job: int): Event -> Match {
    (e: Event) => Match(job, e.id, e.timestamp)
  }

  function Numbered(job: int, from: nat, rows: seq<Fields>): (r: seq<TableRow>)
    ensures |r| == |rows|
    ensures forall i :: 0 <= i < |rows| ==> r[i] == TableRow(job, from + i, rows[i])
  {
    seq(|rows|, i requires 0 <= i < |rows| => TableRow(job, from + i, rows[i]))
  }

  /** The part of the rows that LIMIT and OFFSET leave; a negative limit is none, a negative offset is zero. */
  function Page<T>(s: seq<T>, skip: int, take: int): seq<T> {
    var from := if skip < 0 then 0 else if skip > |s| then |s| else skip;
    var to := if take < 0 || from + take > |s| then |s| else from + take;
    s[from..to]
  }

  /** The same without slicing: which rows stand on the page, one by one. */
  ghost predicate IsSlice<T>(page: seq<T>, s: seq<T>, skip: int, take: int) {
    var from := if skip > 0 then skip else 0;
    var left := if from < |s| then |s| - from else 0;
    && |page| == (if 0 <= take < left then take else left)
    && forall i :: 0 <= i < |page| ==> page[i] == s[from + i]
  }

  lemma PageIsSlice<T>(s: seq<T>, skip: int, take: int)
    ensures IsSlice(Page(s, skip, take), s, skip, take)
  {
  }

  function RowsOf(rows: seq<TableRow>, job: int): seq<TableRow> {
    if rows == [] then []
    else RowsOf(rows[..|rows| - 1], job) + if rows[|rows| - 1].job == job then [rows[|rows| - 1]] else []
  }

  lemma {:induction false} RowsOfWhere(rows: seq<TableRow>, job: int) returns (at: seq<nat>)
    ensures Selection(at, RowsOf(rows, job), rows)
    ensures forall n :: 0 <= n < |rows| ==> (n in at <==> rows[n].job == job)
  {
    at := [];
    if rows != [] {
      var init, last := rows[..|rows| - 1], rows[|rows| - 1];
      at := RowsOfWhere(init, job);
      SelectionSnoc(at, RowsOf(init, job), init, last);
      assert rows == init + [last];
      assert RowsOf(init, job) + [] == RowsOf(init, job);
      if last.job == job {
        at := at + [|init|];
      }
    }
  }

  /** The job's rows among all rows, in some order by number. */
  ghost predicate IsOrderOf(sorted: seq<TableRow>, rows: seq<TableRow>, job: int) {
    && (forall i, j :: 0 <= i < j < |sorted| ==> sorted[i].number <= sorted[j].number)
    && exists at, own :: Selection(at, own, rows) && multiset(sorted) == multiset(own) &&
         forall n :: 0 <= n < |rows| ==> (n in at <==> rows[n].job == job)
  }

  lemma OrderIsOf(sorted: seq<TableRow>, rows: seq<TableRow>, job: int)
    requires ByRowNumber(sorted) && multiset(sorted) == multiset(RowsOf(rows, job))
    ensures IsOrderOf(sorted, rows, job)
  {
    var at := RowsOfWhere(rows, job);
  }

  lemma PageIsTaken<T>(s: seq<T>, page: seq<T>, skip: int, take: int, first: nat, i: nat)
    requires first == (if skip < 0 then 0 else skip) && first <= i && |page| == i - first
    requires if i <= |s| then page == s[first..i] else page == []
    requires take < 0 || |page| <= take
    requires i >= |s| || |page| == take
    ensures page == Page(s, skip, take)
  {
  }

  lemma PageInOrder(page: seq<TableRow>, sorted: seq<TableRow>, rows: seq<TableRow>, job: int, skip: int, take: int)
    requires ByRowNumber(sorted) && multiset(sorted) == multiset(RowsOf(rows, job)) && page == Page(sorted, skip, take)
    ensures exists order :: IsOrderOf(order, rows, job) && IsSlice(page, order, skip, take)
  {
    hide IsOrderOf, IsSlice;
    PageIsSlice(sorted, skip, take);
    OrderIsOf(sorted, rows, job);
  }

  predicate ByRowNumber(rows: seq<TableRow>) {
    forall i, j :: 0 <= i < j < |rows| ==> rows[i].number <= rows[j].number
  }

  /** A page of the rows of a job in the order of their numbers. */
  ghost predicate IsPageOf(page: seq<TableRow>, rows: seq<TableRow>, job: int, skip: int, take: int) {
    exists sorted ::
      && ByRowNumber(sorted) && multiset(sorted) == multiset(RowsOf(rows, job))
      && page == Page(sorted, skip, take)
  }

  function Insert(sorted: seq<TableRow>, r: TableRow): seq<TableRow> {
    if sorted == [] || sorted[|sorted| - 1].number <= r.number then sorted + [r]
    else Insert(sorted[..|sorted| - 1], r) + [sorted[|sorted| - 1]]
  }

  /** The rows of a job by row number. */
  function ByNumber(rows: seq<TableRow>, job: int): seq<TableRow> {
    if rows == [] then []
    else
      var before, r := ByNumber(rows[..|rows| - 1], job), rows[|rows| - 1];
      if r.job == job then Insert(before, r) else before
  }

  class JobRepository {
    var matches: seq<Match>
    var tableRows: seq<TableRow>
    var fieldValues: FieldValues

    constructor ()
      ensures matches == [] && tableRows == [] && fieldValues == map[]
    {
      matches, tableRows, fieldValues := [], [], map[];
    }

    method AddResults(evts: seq<Match>, dbOk: bool) returns (ok: bool)
      modifies this`matches
      ensures ok == (evts == [] || dbOk)
      ensures matches == old(matches) + if ok then evts else []
    {
      if evts == [] {
        return true;
      }
      if dbOk {
        matches := matches + evts;
      }
      ok := dbOk;
    }

    method AddTableResults(rows: seq<TableRow>, dbOk: bool) returns (ok: bool)
      modifies this`tableRows
      ensures ok == (rows == [] || dbOk)
      ensures tableRows == old(tableRows) + if ok then rows else []
    {
      if rows == [] {
        return true;
      }
      if dbOk {
        tableRows := tableRows + rows;
      }
      ok := dbOk;
    }

    /** An insert without any row is not SQL, so an empty list is an error. */
    method AddFieldStats(job: int, fields: seq<FieldStat>, dbOk: bool) returns (ok: bool)
      modifies this`fieldValues
      ensures ok == (fields != [] && dbOk)
      ensures fieldValues == if ok then UpsertAll(old(fieldValues), job, fields) else old(fieldValues)
    {
      ok := fields != [] && dbOk;
      if ok {
        ghost var was := fieldValues;
        for i := 0 to |fields|
          invariant fieldValues == UpsertAll(was, job, fields[..i])
        {
          assert fields[..i + 1][..i] == fields[..i];
          fieldValues := Upsert(fieldValues, job, fields[i]);
        }
        assert fields[..|fields|] == fields;
      }
    }

    method GetTableResults(job: int, skip: int, take: int) returns (page: seq<TableRow>)
      ensures IsPageOf(page, tableRows, job, skip, take)
      ensures exists sorted :: IsOrderOf(sorted, tableRows, job) && IsSlice(page, sorted, skip, take)
    {
      hide IsOrderOf, IsSlice, ByRowNumber, RowsOf, Page;
      var sorted := OrderByNumber(tableRows, job);
      page := [];
      var first := if skip < 0 then 0 else skip;
      var i := first;
      while i < |sorted| && (take < 0 || |page| < take)
        invariant first <= i && |page| == i - first
        invariant i <= |sorted| || page == []
        invariant i <= |sorted| ==> page == sorted[first..i]
        invariant take < 0 || |page| <= take
        decreases |sorted| - i
      {
        page := page + [sorted[i]];
        i := i + 1;
      }
      PageIsTaken(sorted, page, skip, take, first, i);
      assert IsPageOf(page, tableRows, job, skip, take);
      PageInOrder(page, sorted, tableRows, job, skip, take);
    }
  }

  /** The database's part: the job's rows by number, in any order among equal numbers. */
  method OrderByNumber(rows: seq<TableRow>, job: int) returns (sorted: seq<TableRow>)
    ensures ByRowNumber(sorted) && multiset(sorted) == multiset(RowsOf(rows, job))
  {
    sorted := [];
    for i := 0 to |rows|
      invariant ByRowNumber(sorted) && multiset(sorted) == multiset(RowsOf(rows[..i], job))
    {
      assert rows[..i + 1][..i] == rows[..i];
      if rows[i].job == job {
        sorted := PutInOrder(sorted, rows[i]);
      }
    }
    assert rows[..|rows|] == rows;
  }

  method PutInOrder(sorted: seq<TableRow>, r: TableRow) returns (more: seq<TableRow>)
    requires ByRowNumber(sorted)
    ensures ByRowNumber(more) && multiset(more) == multiset(sorted) + multiset{r}
  {
    var k := |sorted|;
    while k > 0 && sorted[k - 1].number > r.number
      invariant 0 <= k <= |sorted|
      invariant k < |sorted| ==> r.number < sorted[k].number
    {
      k := k - 1;
    }
    more := sorted[..k] + [r] + sorted[k..];
    StaysInOrder(sorted, k, r);
  }

  lemma StaysInOrder(sorted: seq<TableRow>, k: nat, r: TableRow)
    requires ByRowNumber(sorted) && k <= |sorted|
    requires k > 0 ==> sorted[k - 1].number <= r.number
    requires k < |sorted| ==> r.number <= sorted[k].number
    ensures var more := sorted[..k] + [r] + sorted[k..];
            ByRowNumber(more) && multiset(more) == multiset(sorted) + multiset{r}
  {
    var low, high := sorted[..k], sorted[k..];
    AroundPosition(sorted, k, r);
    InOrderAround(low, r, high);
    SameRows(sorted, k, r);
  }

  lemma SameRows(sorted: seq<TableRow>, k: nat, r: TableRow)
    requires k <= |sorted|
    ensures multiset(sorted[..k] + [r] + sorted[k..]) == multiset(sorted) + multiset{r}
  {
    assert sorted == sorted[..k] + sorted[k..];
  }

  lemma AroundPosition(sorted: seq<TableRow>, k: nat, r: TableRow)
    requires ByRowNumber(sorted) && k <= |sorted|
    requires k > 0 ==> sorted[k - 1].number <= r.number
    requires k < |sorted| ==> r.number <= sorted[k].number
    ensures ByRowNumber(sorted[..k] + sorted[k..])
    ensures forall i :: 0 <= i < |sorted[..k]| ==> sorted[..k][i].number <= r.number
    ensures forall i :: 0 <= i < |sorted[k..]| ==> r.number <= sorted[k..][i].number
  {
    assert sorted[..k] + sorted[k..] == sorted;
    forall i | 0 <= i < k
      ensures sorted[i].number <= r.number
    {
      assert i < k - 1 ==> sorted[i].number <= sorted[k - 1].number;
    }
    forall i | k <= i < |sorted|
      ensures r.number <= sorted[i].number
    {
      assert k < i ==> sorted[k].number <= sorted[i].number;
    }
  }

  lemma InOrderAround(low: seq<TableRow>, r: TableRow, high: seq<TableRow>)
    requires ByRowNumber(low + high)
    requires forall i :: 0 <= i < |low| ==> low[i].number <= r.number
    requires forall i :: 0 <= i < |high| ==> r.number <= high[i].number
    ensures ByRowNumber(low + [r] + high)
  {
    var all, more, k := low + high, low + [r] + high, |low|;
    forall i, j | 0 <= i < j < |more|
      ensures more[i].number <= more[j].number
    {
      if i == k {
        assert more[j] == high[j - k - 1];
      } else if j == k {
        assert more[i] == low[i];
      } else {
        assert more[i] == all[if i < k then i else i - 1];
        assert more[j] == all[if j < k then j else j - 1];
      }
    }
  }

  // ---- The engine ----

  /** One result that the engine takes from the pipeline of a job, and the fate of the two writes it leads to. */
  datatype Delivery = Delivery(job: int, res: StepResult, rowsOk: bool, statsOk: bool)

  /** The output type of each job's pipeline. */
  type OutputTypes = int -> PipelineCompiler.PipeType

  datatype Db = Db(matches: seq<Match>, tableRows: seq<TableRow>, fieldValues: FieldValues, rowNumbers: map<int, nat>)

  function RowNumber(db: Db, job: int): nat {
    if job in db.rowNumbers then db.rowNumbers[job] else 0
  }

  /** What of a result the job's output type makes the engine look at, as field maps. */
  function Records(types: OutputTypes, d: Delivery): seq<Fields> {
    match types(d.job)
    case Events => Map(FieldsOf, d.res.events)
    case Rows => d.res.rows
    case _ => []
  }

  /** The effect of one result: rows that could not be written are skipped together with their statistics, but their
      row numbers are used up. */
  function Handle(types: OutputTypes, db: Db, d: Delivery): Db {
    var records := Records(types, d);
    var counted := if d.rowsOk && d.statsOk then AddOccurrences(db.fieldValues, d.job, records) else db.fieldValues;
    match types(d.job)
    case Events =>
      db.(matches := db.matches + (if d.rowsOk then Map(ToMatch(d.job), d.res.events) else []), fieldValues := counted)
    case Rows =>
      if records == [] then db
      else
        var n := RowNumber(db, d.job);
        db.(tableRows := db.tableRows + (if d.rowsOk then Numbered(d.job, n, records) else []),
            fieldValues := counted,
            rowNumbers := db.rowNumbers[d.job := n + |records|])
    case _ => db
  }

  /** What one result adds, written out. Events become matches with their ids and timestamps, rows get the next numbers
      of their job, which are used up even if the write fails; and if both writes succeed, each value of a field is
      counted once for every record that has it. Nothing else changes. */
  lemma HandledExactly(types: OutputTypes, db: Db, d: Delivery)
    ensures var after := Handle(types, db, d);
            && (types(d.job) == PipelineCompiler.Events ==>
                  && after.tableRows == db.tableRows && after.rowNumbers == db.rowNumbers
                  && after.matches == db.matches + (if d.rowsOk
                       then seq(|d.res.events|, i requires 0 <= i < |d.res.events| =>
                         Match(d.job, d.res.events[i].id, d.res.events[i].timestamp))
                       else [])
                  && forall k: Key :: Count(after.fieldValues, k) == Count(db.fieldValues, k) +
                       if d.rowsOk && d.statsOk && k.job == d.job
                       then |set n: nat | n < |d.res.events| && k.field in d.res.events[n].fields &&
                                          d.res.events[n].fields[k.field] == k.value| else 0)
            && (types(d.job) == PipelineCompiler.Rows ==>
                  && after.matches == db.matches
                  && (forall j :: RowNumber(after, j) ==
                        RowNumber(db, j) + if j == d.job then |d.res.rows| else 0)
                  && after.tableRows == db.tableRows + (if d.rowsOk
                       then seq(|d.res.rows|, i requires 0 <= i < |d.res.rows| =>
                         TableRow(d.job, RowNumber(db, d.job) + i, d.res.rows[i]))
                       else [])
                  && forall k: Key :: Count(after.fieldValues, k) == Count(db.fieldValues, k) +
                       if d.rowsOk && d.statsOk && k.job == d.job
                       then |set n: nat | n < |d.res.rows| && k.field in d.res.rows[n] &&
                                          d.res.rows[n][k.field] == k.value| else 0)
            && (types(d.job) != PipelineCompiler.Events && types(d.job) != PipelineCompiler.Rows ==> after == db)
  {
    var records := Records(types, d);
    forall k: Key
      ensures Count(AddOccurrences(db.fieldValues, d.job, records), k) == Count(db.fieldValues, k) +
              if k.job == d.job then |PositionsOf(records, k.field, k.value)| else 0
    {
      CountAdded(db.fieldValues, d.job, records, k);
      OccurrencesAreRecords(records, k.field, k.value);
    }
    AddNothing(db.fieldValues, d.job);
    assert db.tableRows + [] == db.tableRows && db.matches + [] == db.matches;
    hide AddOccurrences;
    if types(d.job) == PipelineCompiler.Events {
      assert Map(ToMatch(d.job), d.res.events) ==
        seq(|d.res.events|, i requires 0 <= i < |d.res.events| =>
          Match(d.job, d.res.events[i].id, d.res.events[i].timestamp));
      forall k: Key
        ensures PositionsOf(records, k.field, k.value) ==
                set n: nat | n < |d.res.events| && k.field in d.res.events[n].fields &&
                             d.res.events[n].fields[k.field] == k.value
      {
      }
    }
  }

  lemma NothingToCount(t: FieldValues, job: int, stats: seq<FieldStat>, records: seq<Fields>)
    requires IsTallyOf(stats, records) && stats == []
    ensures AddOccurrences(t, job, records) == t
  {
    UpsertCountsRecords(t, job, stats, records);
  }

  class JobEngine {
    const repo: JobRepository
    /** The variable rowNumber of each job's goroutine. */
    var rowNumbers: map<int, nat>

    constructor ()
      ensures Contents() == Db([], [], map[], map[]) && fresh(repo)
    {
      repo := new JobRepository();
      rowNumbers := map[];
    }

    ghost function Contents(): Db
      reads this, repo
    {
      Db(repo.matches, repo.tableRows, repo.fieldValues, rowNumbers)
    }

    method AddStats(job: int, fields: seq<FieldStat>, dbOk: bool, ghost records: seq<Fields>)
      requires IsTallyOf(fields, records)
      modifies repo`fieldValues
      ensures repo.fieldValues ==
              if dbOk then AddOccurrences(old(repo.fieldValues), job, records) else old(repo.fieldValues)
    {
      var _ := repo.AddFieldStats(job, fields, dbOk);
      if fields == [] {
        NothingToCount(old(repo.fieldValues), job, fields, records);
      } else {
        UpsertCountsRecords(old(repo.fieldValues), job, fields, records);
      }
    }

    method CountEvents(job: int, evts: seq<Event>, dbOk: bool)
      modifies repo`fieldValues
      ensures repo.fieldValues ==
              if dbOk then AddOccurrences(old(repo.fieldValues), job, Map(FieldsOf, evts)) else old(repo.fieldValues)
    {
      var fields := GatherFieldStats(evts);
      AddStats(job, fields, dbOk, Map(FieldsOf, evts));
    }

    method CountRows(job: int, rows: seq<Fields>, dbOk: bool)
      modifies repo`fieldValues
      ensures repo.fieldValues ==
              if dbOk then AddOccurrences(old(repo.fieldValues), job, rows) else old(repo.fieldValues)
    {
      var fields := GatherFieldStatsFromTable(rows);
      AddStats(job, fields, dbOk, rows);
    }

    /** One turn of the loop that reads a job's results. */
    method HandleResult(types: OutputTypes, d: Delivery)
      modifies this, repo
      ensures Contents() == Handle(types, old(Contents()), d)
    {
      if types(d.job) == PipelineCompiler.Events {
        if d.res.events != [] {
          var converted := [];
          for i := 0 to |d.res.events|
            invariant converted == Map(ToMatch(d.job), d.res.events)[..i]
          {
            converted := converted + [Match(d.job, d.res.events[i].id, d.res.events[i].timestamp)];
          }
          var ok := repo.AddResults(converted, d.rowsOk);
          if ok {
            CountEvents(d.job, d.res.events, d.statsOk);
          }
        } else {
          NothingToCount(repo.fieldValues, d.job, [], Records(types, d));
        }
      } else if types(d.job) == PipelineCompiler.Rows {
        if d.res.rows != [] {
          var first := if d.job in rowNumbers then rowNumbers[d.job] else 0;
          var rowNumber := first;
          var rows := [];
          for i := 0 to |d.res.rows|
            invariant rowNumber == first + i
            invariant rows == Numbered(d.job, first, d.res.rows)[..i]
          {
            rows := rows + [TableRow(d.job, rowNumber, d.res.rows[i])];
            rowNumber := rowNumber + 1;
          }
          rowNumbers := rowNumbers[d.job := rowNumber];
          var ok := repo.AddTableResults(rows, d.rowsOk);
          if ok {
            CountRows(d.job, d.res.rows, d.statsOk);
          }
        }
      }
    }

    /** Any interleaving of the loops of all jobs. */
    method Run(types: OutputTypes, ds: seq<Delivery>)
      requires Contents() == Db([], [], map[], map[])
      modifies this, repo
      ensures Contents() == After(types, ds)
    {
      for i := 0 to |ds|
        invariant Contents() == After(types, ds[..i])
      {
        assert ds[..i + 1][..i] == ds[..i];
        HandleResult(types, ds[i]);
      }
      assert ds[..|ds|] == ds;
    }
  }

  function After(types: OutputTypes, ds: seq<Delivery>): Db {
    if ds == [] then Db([], [], map[], map[])
    else Handle(types, After(types, ds[..|ds| - 1]), ds[|ds| - 1])
  }

  // ---- What a job's statistics say ----

  /** The records of a job in the order of arrival. */
  function Received(types: OutputTypes, ds: seq<Delivery>, job: int): seq<Fields> {
    if ds == [] then []
    else
      var d := ds[|ds| - 1];
      Received(types, ds[..|ds| - 1], job) + if d.job == job then Records(types, d) else []
  }

  /** Those of them whose writes have both succeeded. */
  function Counted(types: OutputTypes, ds: seq<Delivery>, job: int): seq<Fields> {
    if ds == [] then []
    else
      var d := ds[|ds| - 1];
      Counted(types, ds[..|ds| - 1], job) + if d.job == job && d.rowsOk && d.statsOk then Records(types, d) else []
  }

  /** The statistics of every job are at any time a recount of the records whose writes have succeeded, however these
      were divided into results and whatever other jobs did in between. */
  lemma {:induction false} StatsAreARecount(types: OutputTypes, ds: seq<Delivery>, k: Key)
    ensures var t := After(types, ds).fieldValues;
            var n := Occurrences(Counted(types, ds, k.job), k.field, k.value);
            Count(t, k) == n && (k in t <==> n > 0)
  {
    assert Count(After(types, []).fieldValues, k) == Occurrences([], k.field, k.value) == 0;
    assert k !in After(types, []).fieldValues;
    hide AddOccurrences, Occurrences, Count, Records, Handle;
    if ds != [] {
      var init, d := ds[..|ds| - 1], ds[|ds| - 1];
      var records, counted := Records(types, d), Counted(types, init, k.job);
      StatsAreARecount(types, init, k);
      ValuesStep(types, After(types, init), d);
      CountAdded(After(types, init).fieldValues, d.job, records, k);
      OccurrencesAppend(counted, records, k.field, k.value);
      assert counted + [] == counted;
    }
  }

  lemma ValuesStep(types: OutputTypes, db: Db, d: Delivery)
    ensures Handle(types, db, d).fieldValues ==
            if d.rowsOk && d.statsOk then AddOccurrences(db.fieldValues, d.job, Records(types, d)) else db.fieldValues
  {
    AddNothing(db.fieldValues, d.job);
  }

  lemma CountAdded(t: FieldValues, job: int, records: seq<Fields>, k: Key)
    ensures var n := if k.job == job then Occurrences(records, k.field, k.value) else 0;
            && Count(AddOccurrences(t, job, records), k) == Count(t, k) + n
            && (k in AddOccurrences(t, job, records) <==> k in t || n > 0)
  {
    InKeysOf(job, records, k);
    OccursIff(records, k.field, k.value);
  }

  lemma AddNothing(t: FieldValues, job: int)
    ensures AddOccurrences(t, job, []) == t
  {
    assert KeysOf(job, []) == {};
  }

  predicate LosesNothing(types: OutputTypes, d: Delivery) {
    (d.rowsOk && d.statsOk) || forall i :: 0 <= i < |Records(types, d)| ==> Records(types, d)[i] == map[]
  }

  /** The statistics of a job count everything it has received if and only if every result with a failed write was one
      without any fields. */
  lemma {:induction false} StatsCompleteIff(types: OutputTypes, ds: seq<Delivery>, job: int)
    ensures (forall f, v :: Count(After(types, ds).fieldValues, Key(job, f, v)) ==
                            Occurrences(Received(types, ds, job), f, v)) <==>
            (forall i :: 0 <= i < |ds| && ds[i].job == job ==> LosesNothing(types, ds[i]))
  {
    forall f, v
      ensures Count(After(types, ds).fieldValues, Key(job, f, v)) == Occurrences(Counted(types, ds, job), f, v)
    {
      StatsAreARecount(types, ds, Key(job, f, v));
    }
    if i :| 0 <= i < |ds| && ds[i].job == job && !LosesNothing(types, ds[i]) {
      var f, v := LostValue(types, ds, job, i);
    } else {
      forall f, v
        ensures Occurrences(Counted(types, ds, job), f, v) == Occurrences(Received(types, ds, job), f, v)
      {
        NothingLost(types, ds, job, f, v);
      }
    }
  }

  lemma {:induction false} CountedAtMostReceived(types: OutputTypes, ds: seq<Delivery>, job: int, f: string, v: string)
    ensures Occurrences(Counted(types, ds, job), f, v) <= Occurrences(Received(types, ds, job), f, v)
  {
    if ds != [] {
      var init, d := ds[..|ds| - 1], ds[|ds| - 1];
      CountedAtMostReceived(types, init, job, f, v);
      var a, b := Counted(types, init, job), Received(types, init, job);
      OccurrencesAppend(a, Records(types, d), f, v);
      OccurrencesAppend(b, Records(types, d), f, v);
      assert a + [] == a && b + [] == b;
    }
  }

  lemma {:induction false} LostValue(types: OutputTypes, ds: seq<Delivery>, job: int, i: nat)
    returns (f: string, v: string)
    requires i < |ds| && ds[i].job == job && !LosesNothing(types, ds[i])
    ensures Occurrences(Counted(types, ds, job), f, v) < Occurrences(Received(types, ds, job), f, v)
  {
    var init, d := ds[..|ds| - 1], ds[|ds| - 1];
    var a, b, records := Counted(types, init, job), Received(types, init, job), Records(types, d);
    if i < |init| {
      f, v := LostValue(types, init, job, i);
    } else {
      var j :| 0 <= j < |records| && records[j] != map[];
      f :| f in records[j];
      v := records[j][f];
      OccursIff(records, f, v);
      CountedAtMostReceived(types, init, job, f, v);
    }
    OccurrencesAppend(a, records, f, v);
    OccurrencesAppend(b, records, f, v);
    assert a + [] == a && b + [] == b;
  }

  lemma {:induction false} NothingLost(types: OutputTypes, ds: seq<Delivery>, job: int, f: string, v: string)
    requires forall i :: 0 <= i < |ds| && ds[i].job == job ==> LosesNothing(types, ds[i])
    ensures Occurrences(Counted(types, ds, job), f, v) == Occurrences(Received(types, ds, job), f, v)
  {
    if ds != [] {
      var init, d := ds[..|ds| - 1], ds[|ds| - 1];
      NothingLost(types, init, job, f, v);
      var a, b, records := Counted(types, init, job), Received(types, init, job), Records(types, d);
      OccurrencesAppend(a, records, f, v);
      OccurrencesAppend(b, records, f, v);
      assert a + [] == a && b + [] == b;
      if d.job == job && !(d.rowsOk && d.statsOk) {
        OccursIff(records, f, v);
      }
    }
  }

  // ---- Distinct values ----

  /** GetFieldValues: the value column for one field of a job. */
  function GetFieldValues(t: FieldValues, job: int, field: string): map<string, nat> {
    map k | k in t && k.job == job && k.field == field :: k.value := t[k]
  }

  /** GetFieldOccurences: the number of JobFieldValues rows for each field of a job. */
  function GetFieldOccurences(t: FieldValues, job: int): map<string, nat> {
    map k | k in t && k.job == job :: k.field := |GetFieldValues(t, job, k.field)|
  }

  function DistinctValues(records: seq<Fields>, field: string): set<string> {
    set i | 0 <= i < |records| && field in records[i] :: records[i][field]
  }

  /** The count that is shown for a field is the number of its distinct values among the counted records, and a field
      is shown if and only if one of them has it. */
  lemma {:induction false} FieldOccurencesCountDistinct(types: OutputTypes, ds: seq<Delivery>, job: int, field: string)
    ensures var records := Counted(types, ds, job);
            var m := GetFieldOccurences(After(types, ds).fieldValues, job);
            && (field in m <==> exists i :: 0 <= i < |records| && field in records[i])
            && (field in m ==> m[field] == |DistinctValues(records, field)|)
  {
    FieldValuesAreARecount(types, ds, job, field);
    var records, t := Counted(types, ds, job), After(types, ds).fieldValues;
    hide After, Counted;
    FieldShownIff(t, job, field);
    HasDistinctIff(records, field);
    var values := GetFieldValues(t, job, field);
    assert |values| == |values.Keys|;
  }

  lemma HasDistinctIff(records: seq<Fields>, field: string)
    ensures DistinctValues(records, field) != {} <==> exists i :: 0 <= i < |records| && field in records[i]
  {
    if i :| 0 <= i < |records| && field in records[i] {
      assert records[i][field] in DistinctValues(records, field);
    }
  }

  lemma FieldShownIff(t: FieldValues, job: int, field: string)
    ensures var m, values := GetFieldOccurences(t, job), GetFieldValues(t, job, field);
            && (field in m <==> values.Keys != {})
            && (field in m ==> m[field] == |values|)
  {
    var m, values := GetFieldOccurences(t, job), GetFieldValues(t, job, field);
    if v :| v in values {
      assert Key(job, field, v) in t;
    }
    if field in m {
      var k :| k in t && k.job == job && k.field == field;
      assert k.value in values;
    }
  }

  /** The values of a field, with how often each occurs among the counted records. */
  lemma {:induction false} FieldValuesAreARecount(types: OutputTypes, ds: seq<Delivery>, job: int, field: string)
    ensures var m := GetFieldValues(After(types, ds).fieldValues, job, field);
            && m.Keys == DistinctValues(Counted(types, ds, job), field)
            && forall v :: v in m ==> m[v] == Occurrences(Counted(types, ds, job), field, v)
  {
    var t := After(types, ds).fieldValues;
    var m := GetFieldValues(t, job, field);
    forall v
      ensures v in m <==> Key(job, field, v) in t
      ensures v in m ==> m[v] == t[Key(job, field, v)]
      ensures v in m <==> v in DistinctValues(Counted(types, ds, job), field)
      ensures v in m ==> m[v] == Occurrences(Counted(types, ds, job), field, v)
    {
      StatsAreARecount(types, ds, Key(job, field, v));
      OccursIff(Counted(types, ds, job), field, v);
    }
  }

  // ---- Table rows ----

  predicate Ascending(rows: seq<TableRow>) {
    forall i, j :: 0 <= i < j < |rows| ==> rows[i].number < rows[j].number
  }

  lemma {:induction false} ByNumberAppend(t: seq<TableRow>, job: int, from: nat, rows: seq<Fields>)
    requires forall i :: 0 <= i < |ByNumber(t, job)| ==> ByNumber(t, job)[i].number < from
    ensures ByNumber(t + Numbered(job, from, rows), job) == ByNumber(t, job) + Numbered(job, from, rows)
  {
    if rows == [] {
      assert t + Numbered(job, from, rows) == t;
      assert ByNumber(t, job) + Numbered(job, from, rows) == ByNumber(t, job);
    } else {
      var n := |rows| - 1;
      var r := TableRow(job, from + n, rows[n]);
      var init := Numbered(job, from, rows[..n]);
      ByNumberAppend(t, job, from, rows[..n]);
      ByNumberSnoc(t + init, job, r);
      assert Numbered(job, from, rows) == init + [r];
      assert t + Numbered(job, from, rows) == t + init + [r];
    }
  }

  lemma ByNumberSnoc(t: seq<TableRow>, job: int, r: TableRow)
    requires r.job == job
    requires var rows := ByNumber(t, job); rows == [] || rows[|rows| - 1].number <= r.number
    ensures ByNumber(t + [r], job) == ByNumber(t, job) + [r]
  {
    assert (t + [r])[..|t|] == t;
  }

  /** A row keeps the number of its arrival, and a query by row number finds the rows in the order of arrival. */
  ghost predicate Fit(rows: seq<TableRow>, received: seq<Fields>, job: int) {
    && |rows| <= |received|
    && Ascending(rows)
    && (forall i :: 0 <= i < |rows| ==>
          rows[i].number < |received| && rows[i] == TableRow(job, rows[i].number, received[rows[i].number]))
  }

  lemma FitAppend(rows: seq<TableRow>, received: seq<Fields>, records: seq<Fields>, job: int)
    requires Fit(rows, received, job)
    ensures Fit(rows + Numbered(job, |received|, records), received + records, job)
    ensures rows + Numbered(job, |received|, records) == Numbered(job, 0, received + records) <==>
            rows == Numbered(job, 0, received)
  {
    var more, all := Numbered(job, |received|, records), Numbered(job, 0, received);
    NumberedAppend(job, received, records);
    if rows + more == all + more {
      assert (rows + more)[..|rows|] == rows && (all + more)[..|rows|] == all[..|rows|];
      assert |rows + more| == |all + more|;
    }
  }

  lemma FitSkip(rows: seq<TableRow>, received: seq<Fields>, records: seq<Fields>, job: int)
    requires Fit(rows, received, job)
    ensures Fit(rows, received + records, job)
    ensures records != [] ==> rows != Numbered(job, 0, received + records)
  {
  }

  lemma NumberedAppend(job: int, a: seq<Fields>, b: seq<Fields>)
    ensures Numbered(job, 0, a + b) == Numbered(job, 0, a) + Numbered(job, |a|, b)
  {
  }

  ghost function StoredRows(types: OutputTypes, ds: seq<Delivery>, job: int): seq<TableRow> {
    ByNumber(After(types, ds).tableRows, job)
  }

  /** The next row number is the number of rows received; the stored rows are numbered 0, 1, ... without a gap and
      complete if and only if no write of rows has failed. */
  lemma {:induction false} RowsKeepTheirNumbers(types: OutputTypes, ds: seq<Delivery>, job: int)
    requires types(job) == PipelineCompiler.Rows
    ensures RowNumber(After(types, ds), job) == |Received(types, ds, job)|
    ensures Fit(StoredRows(types, ds, job), Received(types, ds, job), job)
    ensures StoredRows(types, ds, job) == Numbered(job, 0, Received(types, ds, job)) <==>
            forall i :: 0 <= i < |ds| && ds[i].job == job ==> ds[i].rowsOk || ds[i].res.rows == []
  {
    if ds != [] {
      var init, d := ds[..|ds| - 1], ds[|ds| - 1];
      RowsKeepTheirNumbers(types, init, job);
      RowStep(types, init, d, job);
      assert ds == init + [d];
    }
  }

  lemma RowStep(types: OutputTypes, init: seq<Delivery>, d: Delivery, job: int)
    requires types(job) == PipelineCompiler.Rows
    requires RowNumber(After(types, init), job) == |Received(types, init, job)|
    requires Fit(StoredRows(types, init, job), Received(types, init, job), job)
    ensures var ds := init + [d];
            && RowNumber(After(types, ds), job) == |Received(types, ds, job)|
            && Fit(StoredRows(types, ds, job), Received(types, ds, job), job)
            && (StoredRows(types, ds, job) == Numbered(job, 0, Received(types, ds, job)) <==>
                StoredRows(types, init, job) == Numbered(job, 0, Received(types, init, job)) &&
                (d.job == job ==> d.rowsOk || d.res.rows == []))
  {
    var ds := init + [d];
    var db, db' := After(types, init), After(types, ds);
    var records, received := Records(types, d), Received(types, init, job);
    StepOf(types, init, d, job);
    hide After, Received, Handle, Records, Fit, Numbered, ByNumber;
    if d.job != job {
      OtherRows(db.tableRows, job, RowNumber(db, d.job), records, d.job);
    } else if d.rowsOk {
      NumbersBelow(types, init, job);
      ByNumberAppend(db.tableRows, job, |received|, records);
      FitAppend(StoredRows(types, init, job), received, records, job);
    } else {
      FitSkip(StoredRows(types, init, job), received, records, job);
      assert received + [] == received;
    }
  }

  lemma NumbersBelow(types: OutputTypes, ds: seq<Delivery>, job: int)
    requires Fit(StoredRows(types, ds, job), Received(types, ds, job), job)
    ensures forall i :: 0 <= i < |StoredRows(types, ds, job)| ==>
              StoredRows(types, ds, job)[i].number < |Received(types, ds, job)|
  {
  }

  lemma StepOf(types: OutputTypes, init: seq<Delivery>, d: Delivery, job: int)
    requires types(job) == PipelineCompiler.Rows
    ensures var ds := init + [d];
            var db, db' := After(types, init), After(types, ds);
            var records, n := Records(types, d), RowNumber(After(types, init), d.job);
            && Received(types, ds, job) == (if d.job == job then Received(types, init, job) + records
              else Received(types, init, job))
            && (d.job == job ==> records == d.res.rows)
            && RowNumber(db', job) == RowNumber(db, job) + (if d.job == job then |records| else 0)
            && (db'.tableRows == db.tableRows || db'.tableRows == db.tableRows + Numbered(d.job, n, records))
            && (d.job == job && d.rowsOk ==> db'.tableRows == db.tableRows + Numbered(d.job, n, records))
            && (d.job == job && !d.rowsOk ==> db'.tableRows == db.tableRows)
  {
    var ds := init + [d];
    assert ds[..|ds| - 1] == init;
    assert Received(types, init, job) + [] == Received(types, init, job);
    assert After(types, init).tableRows + [] == After(types, init).tableRows;
  }

  lemma {:induction false} OtherRows(t: seq<TableRow>, job: int, from: nat, rows: seq<Fields>, other: int)
    requires other != job
    ensures ByNumber(t + Numbered(other, from, rows), job) == ByNumber(t, job)
  {
    if rows == [] {
      assert t + Numbered(other, from, rows) == t;
    } else {
      var n := |rows| - 1;
      var all := t + Numbered(other, from, rows);
      OtherRows(t, job, from, rows[..n], other);
      assert all[..|all| - 1] == t + Numbered(other, from, rows[..n]);
    }
  }

  lemma {:induction false} InsertKeepsRows(sorted: seq<TableRow>, r: TableRow)
    ensures multiset(Insert(sorted, r)) == multiset(sorted) + multiset{r}
  {
    if sorted != [] && sorted[|sorted| - 1].number > r.number {
      var n := |sorted| - 1;
      InsertKeepsRows(sorted[..n], r);
      assert sorted == sorted[..n] + [sorted[n]];
    }
  }

  lemma {:induction false} ByNumberKeepsRows(rows: seq<TableRow>, job: int)
    ensures multiset(ByNumber(rows, job)) == multiset(RowsOf(rows, job))
  {
    if rows != [] {
      var n := |rows| - 1;
      ByNumberKeepsRows(rows[..n], job);
      InsertKeepsRows(ByNumber(rows[..n], job), rows[n]);
    }
  }

  lemma LastIsSame(a: seq<TableRow>, b: seq<TableRow>)
    requires a != [] && b != [] && Ascending(a) && ByRowNumber(b) && multiset(a) == multiset(b)
    ensures a[|a| - 1] == b[|b| - 1]
  {
    var x, y := a[|a| - 1], b[|b| - 1];
    assert x in multiset(a) && y in multiset(b);
    assert x in multiset(b) && y in multiset(a);
    assert x in b && y in a;
    var i :| 0 <= i < |b| && b[i] == x;
    var j :| 0 <= j < |a| && a[j] == y;
    assert x.number <= y.number;
  }

  lemma WithoutLast(a: seq<TableRow>)
    requires a != []
    ensures var n := |a| - 1; a == a[..n] + [a[n]] && multiset(a[..n]) == multiset(a) - multiset{a[n]}
    ensures Ascending(a) ==> Ascending(a[..|a| - 1])
    ensures ByRowNumber(a) ==> ByRowNumber(a[..|a| - 1])
  {
    assert a == a[..|a| - 1] + [a[|a| - 1]];
  }

  /** Rows with different numbers have only one order. */
  lemma {:induction false} OrderIsUnique(a: seq<TableRow>, b: seq<TableRow>)
    requires Ascending(a) && ByRowNumber(b) && multiset(a) == multiset(b)
    ensures a == b
  {
    hide Ascending, ByRowNumber;
    assert |a| == |multiset(a)| == |multiset(b)| == |b|;
    if a != [] {
      LastIsSame(a, b);
      WithoutLast(a);
      WithoutLast(b);
      OrderIsUnique(a[..|a| - 1], b[..|b| - 1]);
    }
  }

  /** When all writes of rows have succeeded, a page is the matching slice of the rows received, numbered from 0. */
  lemma {:induction false} PagesAreSlices(types: OutputTypes, ds: seq<Delivery>, job: int, page: seq<TableRow>,
                                          skip: int, take: int)
    requires types(job) == PipelineCompiler.Rows
    requires forall i :: 0 <= i < |ds| && ds[i].job == job ==> ds[i].rowsOk || ds[i].res.rows == []
    requires IsPageOf(page, After(types, ds).tableRows, job, skip, take)
    ensures page == Page(Numbered(job, 0, Received(types, ds, job)), skip, take)
  {
    var rows := After(types, ds).tableRows;
    var sorted :| ByRowNumber(sorted) && multiset(sorted) == multiset(RowsOf(rows, job)) &&
      page == Page(sorted, skip, take);
    RowsKeepTheirNumbers(types, ds, job);
    ByNumberKeepsRows(rows, job);
    OrderIsUnique(ByNumber(rows, job), sorted);
  }

  /** The page row by row: it holds as many rows as are asked for and left behind the skipped ones, and row i of it is
      the one received as number skip + i. */
  lemma PageOfRows(types: OutputTypes, ds: seq<Delivery>, job: int, page: seq<TableRow>, skip: int, take: int)
    requires types(job) == PipelineCompiler.Rows
    requires forall i :: 0 <= i < |ds| && ds[i].job == job ==> ds[i].rowsOk || ds[i].res.rows == []
    requires IsPageOf(page, After(types, ds).tableRows, job, skip, take)
    ensures var received := Received(types, ds, job);
            var from := if skip > 0 then skip else 0;
            var left := if from < |received| then |received| - from else 0;
            && |page| == (if 0 <= take < left then take else left)
            && forall i :: 0 <= i < |page| ==>
                 page[i].job == job && page[i].number == from + i && page[i].values == received[from + i]
  {
    PagesAreSlices(types, ds, job, page, skip, take);
    hide After, Received, IsPageOf, Page;
    PageIsSlice(Numbered(job, 0, Received(types, ds, job)), skip, take);
  }

  /** Consecutive pages of one size: page k skips the k pages before it. */
  ghost predicate ArePages(pages: seq<seq<TableRow>>, rows: seq<TableRow>, job: int, size: nat) {
    forall k :: 0 <= k < |pages| ==> IsPageOf(pages[k], rows, job, k * size, size)
  }

  lemma {:induction false} FirstPages<T>(s: seq<T>, pages: seq<seq<T>>, size: nat)
    requires size > 0 && forall k :: 0 <= k < |pages| ==> IsSlice(pages[k], s, k * size, size)
    ensures Flatten(pages) == s[..if |pages| * size < |s| then |pages| * size else |s|]
  {
    hide IsSlice, Flatten;
    if pages == [] {
      FlattenNone<T>();
    } else {
      var n := |pages| - 1;
      FirstPages(s, pages[..n], size);
      FlattenSnoc(pages[..n], pages[n]);
      assert pages == pages[..n] + [pages[n]];
      NextPage(s, pages[n], n * size, size);
      OneMore(n, size);
    }
  }

  lemma OneMore(n: nat, size: nat)
    ensures (n + 1) * size == n * size + size
  {
  }

  lemma NextPage<T>(s: seq<T>, page: seq<T>, skip: nat, take: nat)
    requires IsSlice(page, s, skip, take)
    ensures s[..if skip < |s| then skip else |s|] + page == s[..if skip + take < |s| then skip + take else |s|]
  {
  }

  /** Read page by page, with a fixed number of rows on each, until nothing is left, a table comes back as it was
      received: every row once, in the order of arrival and numbered from 0. */
  lemma {:induction false} PagesTogether(types: OutputTypes, ds: seq<Delivery>, job: int, pages: seq<seq<TableRow>>,
                                         size: nat)
    requires types(job) == PipelineCompiler.Rows && size > 0
    requires forall i :: 0 <= i < |ds| && ds[i].job == job ==> ds[i].rowsOk || ds[i].res.rows == []
    requires ArePages(pages, After(types, ds).tableRows, job, size)
    requires |pages| * size >= |Received(types, ds, job)|
    ensures var all, received := Flatten(pages), Received(types, ds, job);
            |all| == |received| &&
            forall i :: 0 <= i < |all| ==> all[i].job == job && all[i].number == i && all[i].values == received[i]
  {
    var all := Numbered(job, 0, Received(types, ds, job));
    forall k | 0 <= k < |pages|
      ensures IsSlice(pages[k], all, k * size, size)
    {
      assert IsPageOf(pages[k], After(types, ds).tableRows, job, k * size, size);
      PagesAreSlices(types, ds, job, pages[k], k * size, size);
      PageIsSlice(all, k * size, size);
    }
    hide IsSlice, IsPageOf, After, Received;
    FirstPages(all, pages, size);
    assert all[..|all|] == all;
  }

  // ---- Matches ----

  function MatchesOf(matches: seq<Match>, job: int): seq<Match> {
    if matches == [] then []
    else
      var m := matches[|matches| - 1];
      MatchesOf(matches[..|matches| - 1], job) + if m.job == job then [m] else []
  }

  lemma {:induction false} MatchesAppend(a: seq<Match>, b: seq<Match>, job: int)
    ensures MatchesOf(a + b, job) == MatchesOf(a, job) + MatchesOf(b, job)
  {
    if b == [] {
      assert a + b == a;
      assert MatchesOf(a, job) + [] == MatchesOf(a, job);
    } else {
      var n := |b| - 1;
      assert (a + b)[..|a + b| - 1] == a + b[..n];
      MatchesAppend(a, b[..n], job);
    }
  }

  lemma {:induction false} MatchesOfOne(evts: seq<Event>, other: int, job: int)
    ensures MatchesOf(Map(ToMatch(other), evts), job) == if other == job then Map(ToMatch(job), evts) else []
  {
    if evts != [] {
      var n := |evts| - 1;
      MatchesOfOne(evts[..n], other, job);
      assert Map(ToMatch(other), evts)[..n] == Map(ToMatch(other), evts[..n]);
      assert Map(ToMatch(job), evts) == Map(ToMatch(job), evts[..n]) + [ToMatch(job)(evts[n])];
    }
  }

  lemma MapAppend<A, B>(f: A -> B, a: seq<A>, b: seq<A>)
    ensures Map(f, a + b) == Map(f, a) + Map(f, b)
  {
  }

  /** When all writes of results have succeeded, the matches stored for a job are its events in the order of arrival. */
  lemma {:induction false} MatchesAreResults(types: OutputTypes, ds: seq<Delivery>, job: int)
    requires types(job) == PipelineCompiler.Events
    requires forall i :: 0 <= i < |ds| && ds[i].job == job ==> ds[i].rowsOk
    ensures MatchesOf(After(types, ds).matches, job) == Map(ToMatch(job), EventsIn(ResultsOf(ds, job)))
    ensures var stored, evts := MatchesOf(After(types, ds).matches, job), EventsIn(ResultsOf(ds, job));
            |stored| == |evts| && forall i :: 0 <= i < |stored| ==>
              stored[i].job == job && stored[i].event == evts[i].id && stored[i].timestamp == evts[i].timestamp
  {
    if ds != [] {
      var init, d := ds[..|ds| - 1], ds[|ds| - 1];
      MatchesAreResults(types, init, job);
      MatchStep(types, After(types, init), d, job);
      var results := ResultsOf(init, job);
      if d.job == job {
        assert (results + [d.res])[..|results|] == results;
        assert EventsIn(results + [d.res]) == EventsIn(results) + d.res.events;
        MapAppend(ToMatch(job), EventsIn(results), d.res.events);
      } else {
        assert results + [] == results;
      }
    }
  }

  lemma MatchStep(types: OutputTypes, db: Db, d: Delivery, job: int)
    requires types(job) == PipelineCompiler.Events && (d.job == job ==> d.rowsOk)
    ensures MatchesOf(Handle(types, db, d).matches, job) ==
            MatchesOf(db.matches, job) + if d.job == job then Map(ToMatch(job), d.res.events) else []
  {
    var more := Map(ToMatch(d.job), d.res.events);
    MatchesAppend(db.matches, more, job);
    MatchesAppend(db.matches, [], job);
    MatchesOfOne(d.res.events, d.job, job);
    assert MatchesOf(db.matches, job) + [] == MatchesOf(db.matches, job);
    assert db.matches + [] == db.matches;
  }

  // ---- From the query to the stored statistics ----

  /** The results that reached the engine for one job, in order. */
  function ResultsOf(ds: seq<Delivery>, job: int): seq<StepResult> {
    if ds == [] then []
    else
      var d := ds[|ds| - 1];
      ResultsOf(ds[..|ds| - 1], job) + if d.job == job then [d.res] else []
  }

  /** All records of a sequence of results. */
  function RecordsOf(t: PipelineCompiler.PipeType, results: seq<StepResult>): seq<Fields> {
    if results == [] then []
    else
      var r := results[|results| - 1];
      RecordsOf(t, results[..|results| - 1]) +
      match t
      case Events => Map(FieldsOf, r.events)
      case Rows => r.rows
      case _ => []
  }

  lemma {:induction false} ReceivedIsResults(types: OutputTypes, ds: seq<Delivery>, job: int)
    ensures Received(types, ds, job) == RecordsOf(types(job), ResultsOf(ds, job))
  {
    if ds != [] {
      var init, d := ds[..|ds| - 1], ds[|ds| - 1];
      ReceivedIsResults(types, init, job);
      var results := ResultsOf(init, job);
      if d.job == job {
        assert ResultsOf(ds, job) == results + [d.res];
        assert (results + [d.res])[..|results|] == results;
      } else {
        assert ResultsOf(ds, job) == results;
      }
    }
  }

  /** A job runs the steps of a query concurrently, under any schedule and beside any other jobs. If it ends without
      being cancelled and its writes succeed, what it has stored is what the steps yield one after the other: its
      statistics are a recount of that result, and for a table each page is the matching slice of its rows. */
  lemma {:induction false} JobStoresQueryResult(steps: seq<PipelineCompiler.Step>, input: seq<StepResult>,
                                                run: seq<Network.Action>, types: OutputTypes, ds: seq<Delivery>,
                                                job: int)
    requires steps != [] && steps[0].IsGenerator()
    requires forall i :: 0 <= i < |steps| ==> steps[i].Honest()
    requires var compiled := steps[PipelineCompiler.LastGenerator(steps)..];
             && (compiled[0].behaviour.Generate? && (forall i :: 1 <= i < |compiled| ==>
               compiled[i].behaviour.Transform?))
             && var p := PipelineCompiler.ProgramOf(compiled);
                && Network.IsRun(p, run)
                && Network.StateAfter(p, run).consumer.Finished? && !Network.StateAfter(p, run).cancelled
                && ResultsOf(ds, job) == Network.StateAfter(p, run).received
    requires forall i :: 0 <= i < |ds| && ds[i].job == job ==> ds[i].rowsOk && ds[i].statsOk
    ensures var expected := RecordsOf(types(job), PipelineCompiler.RunAll(steps, input));
            var db := After(types, ds);
            && (forall f, v :: Count(db.fieldValues, Key(job, f, v)) == Occurrences(expected, f, v))
            && (types(job) == PipelineCompiler.Rows ==>
                  forall page, skip, take :: IsPageOf(page, db.tableRows, job, skip, take) ==>
                    IsSlice(page, Numbered(job, 0, expected), skip, take))
  {
    PipelineCompiler.ExecutionRefinesQuery(steps, input, run);
    ReceivedIsResults(types, ds, job);
    StatsCompleteIff(types, ds, job);
    if types(job) == PipelineCompiler.Rows {
      forall page, skip, take | IsPageOf(page, After(types, ds).tableRows, job, skip, take)
        ensures IsSlice(page, Numbered(job, 0, Received(types, ds, job)), skip, take)
      {
        PagesAreSlices(types, ds, job, page, skip, take);
        PageIsSlice(Numbered(job, 0, Received(types, ds, job)), skip, take);
      }
    }
  }
}
