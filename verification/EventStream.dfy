/** Keyset paging over a table that changes meanwhile, and the retention task built on it
    (plugins/sqlite_events/SqliteEventRepository.go FilterStream, plugins/tasks/DeleteOldEventsTask.go Run). */
module EventStream {
  import opened Common

  /** filterStreamPageSize. */
  const PAGE_SIZE: nat := 1000

  datatype Row = Row(id: nat, timestamp: int, raw: string)

  /** What a search asks for; time limits included. */
  type Filter = Row -> bool

  predicate Before(r: Row, last: Option<int>) {
    last.None? || r.timestamp < last.value
  }

  /** The rows the next page is taken from. */
  function Candidates(table: set<Row>, filter: Filter, maxId: nat, last: Option<int>): set<Row> {
    set r | r in table && filter(r) && r.id <= maxId && Before(r, last)
  }

  predicate Distinct<T(==)>(s: seq<T>) {
    forall i, j :: 0 <= i < j < |s| ==> s[i] != s[j]
  }

  predicate Descending(p: seq<Row>) {
    forall i, j :: 0 <= i < j < |p| ==> p[i].timestamp >= p[j].timestamp
  }

  /** A result of ORDER BY timestamp DESC LIMIT: any order among equal timestamps is allowed. */
  predicate IsPage(p: seq<Row>, candidates: set<Row>) {
    && Distinct(p) && Descending(p)
    && (forall r :: r in p ==> r in candidates)
    && |p| == (if |candidates| < PAGE_SIZE then |candidates| else PAGE_SIZE)
    && (forall r, q :: r in candidates && r !in p && q in p ==> r.timestamp <= q.timestamp)
  }

  function LastTimestamp(p: seq<Row>, last: Option<int>): Option<int> {
    if p == [] then last else Some(p[|p| - 1].timestamp)
  }

  // ---- The stream as written ----

  /** Matching rows, older than all before, none twice and newest first; at most 1000, and all that there are if there
      is room for them, or else no older ones than those left out. */
  ghost predicate IsNextPage(p: seq<Row>, table: set<Row>, filter: Filter, maxId: nat, last: Option<int>) {
    && |p| <= 1000
    && (forall i, j :: 0 <= i < j < |p| ==> p[i] != p[j] && p[i].timestamp >= p[j].timestamp)
    && (forall r :: r in p ==>
          r in table && filter(r) && r.id <= maxId && (last.Some? ==> r.timestamp < last.value))
    && (forall r :: r in table ==>
          r in p || !filter(r) || r.id > maxId || (last.Some? && r.timestamp >= last.value) ||
            (|p| == 1000 && forall q :: q in p ==> r.timestamp <= q.timestamp))
  }

  lemma PageMeaning(p: seq<Row>, table: set<Row>, filter: Filter, maxId: nat, last: Option<int>)
    requires IsPage(p, Candidates(table, filter, maxId, last))
    ensures IsNextPage(p, table, filter, maxId, last)
  {
    var candidates := Candidates(table, filter, maxId, last);
    if |p| < PAGE_SIZE {
      DistinctCard(p);
      SubsetOfSameSize(Rows(p), candidates);
    }
    forall r | r in table && r !in p && r in candidates
      ensures |p| == 1000
    {
      assert r in candidates && r !in Rows(p);
    }
  }

  /** One call of FilterStream, advanced page by page; the table is whatever it is when the query runs. */
  class FilterStream {
    const filter: Filter
    const maxId: nat
    var lastTimestamp: Option<int>
    var done: bool

    constructor (filter: Filter, maxId: nat)
      ensures this.filter == filter && this.maxId == maxId && lastTimestamp == None && !done
    {
      this.filter, this.maxId := filter, maxId;
      lastTimestamp, done := None, false;
    }

    method NextPage(table: set<Row>) returns (evts: seq<Row>)
      requires !done
      modifies this
      ensures IsPage(evts, Candidates(table, filter, maxId, old(lastTimestamp)))
      ensures lastTimestamp == LastTimestamp(evts, old(lastTimestamp))
      ensures done == (|evts| < PAGE_SIZE)
      ensures IsNextPage(evts, table, filter, maxId, old(lastTimestamp)) && done == (|evts| < 1000)
      ensures lastTimestamp == if evts == [] then old(lastTimestamp) else Some(evts[|evts| - 1].timestamp)
    {
      hide IsPage, IsNextPage, Candidates;
      var found := Query(Candidates(table, filter, maxId, lastTimestamp));
      evts := [];
      var eventsInPage := 0;
      for i := 0 to |found|
        invariant !done && eventsInPage == i && evts == found[..i]
        invariant lastTimestamp == LastTimestamp(found[..i], old(lastTimestamp))
      {
        evts := evts + [found[i]];
        eventsInPage := eventsInPage + 1;
        lastTimestamp := Some(found[i].timestamp);
      }
      assert found[..|found|] == found;
      if eventsInPage < PAGE_SIZE {
        done := true;
      }
      PageMeaning(evts, table, filter, maxId, old(lastTimestamp));
    }
  }

  lemma {:induction false} NewestExists(s: set<Row>)
    requires s != {}
    ensures exists r :: r in s && forall q :: q in s ==> q.timestamp <= r.timestamp
    decreases |s|
  {
    var r :| r in s;
    var rest := s - {r};
    if rest == {} {
      assert forall q :: q in s ==> q == r || q in rest;
    } else {
      NewestExists(rest);
      var m :| m in rest && forall q :: q in rest ==> q.timestamp <= m.timestamp;
      var best := if m.timestamp < r.timestamp then r else m;
      forall q | q in s
        ensures q.timestamp <= best.timestamp
      {
        assert q == r || q in rest;
      }
    }
  }

  /** The database's part: the newest rows first. */
  method Query(candidates: set<Row>) returns (p: seq<Row>)
    ensures IsPage(p, candidates)
  {
    p := [];
    var rest := candidates;
    while rest != {} && |p| < PAGE_SIZE
      invariant Distinct(p) && Descending(p)
      invariant forall r :: r in p <==> r in candidates && r !in rest
      invariant rest <= candidates
      invariant |p| + |rest| == |candidates| && |p| <= PAGE_SIZE
      invariant forall r, q :: r in rest && q in p ==> r.timestamp <= q.timestamp
      decreases rest
    {
      NewestExists(rest);
      var r :| r in rest && forall q :: q in rest ==> q.timestamp <= r.timestamp;
      assert r !in p;
      p := p + [r];
      rest := rest - {r};
    }
  }

  // ---- A stream while the table changes ----

  /** The pages sent so far, and which of them a consumer has deleted. */
  datatype Stream = Stream(table: set<Row>, last: Option<int>, pages: seq<seq<Row>>, done: bool, deleted: set<nat>)

  datatype Action =
    | Page(rows: seq<Row>)  // the next query, with its result
    | Insert(row: Row)      // somebody adds an event
    | DeletePage(j: nat)    // the consumer deletes the events of a page it has received
    | Delete(ids: set<nat>) // somebody else deletes any events, sent or not

  /** What does not change during a stream: the search, the largest id at the start, the rows that matched then. */
  datatype Search = Search(filter: Filter, maxId: nat, table: set<Row>) {
    function Wanted(): set<Row> {
      set r | r in table && filter(r)
    }

    predicate Valid() {
      && (forall r :: r in table ==> r.id <= maxId)
      && (forall r, q :: r in table && q in table && r.id == q.id ==> r == q)
    }
  }

  function Init(s: Search): Stream {
    Stream(s.table, None, [], false, {})
  }

  function WithoutIds(table: set<Row>, page: seq<Row>): set<Row> {
    set r | r in table && forall q :: q in page ==> q.id != r.id
  }

  predicate Enabled(s: Search, st: Stream, a: Action) {
    match a
    case Page(rows) => !st.done && IsPage(rows, Candidates(st.table, s.filter, s.maxId, st.last))
    case Insert(row) => row.id > s.maxId
    case DeletePage(j) => j < |st.pages|
    case Delete(ids) => true
  }

  function Apply(s: Search, st: Stream, a: Action): Stream
    requires Enabled(s, st, a)
  {
    match a
    case Page(rows) =>
      st.(last := LastTimestamp(rows, st.last), pages := st.pages + [rows], done := |rows| < PAGE_SIZE)
    case Insert(row) => st.(table := st.table + {row})
    case DeletePage(j) => st.(table := WithoutIds(st.table, st.pages[j]), deleted := st.deleted + {j})
    case Delete(ids) => st.(table := set r | r in st.table && r.id !in ids)
  }

  /** Nobody but the consumer deletes, and only what it has received. */
  predicate OnlySentDeleted(run: seq<Action>) {
    forall k :: 0 <= k < |run| ==> !run[k].Delete?
  }

  /** Which states a run of these actions can reach. */
  predicate IsRun(s: Search, run: seq<Action>)
    decreases |run|, 0
  {
    run == [] || (IsRun(s, run[..|run| - 1]) && Enabled(s, StateAfter(s, run[..|run| - 1]), run[|run| - 1]))
  }

  function StateAfter(s: Search, run: seq<Action>): Stream
    requires IsRun(s, run)
    decreases |run|, 1
  {
    if run == [] then Init(s) else Apply(s, StateAfter(s, run[..|run| - 1]), run[|run| - 1])
  }

  // ---- What is emitted ----

  function Rows(p: seq<Row>): set<Row> {
    set r | r in p
  }

  function Emitted(pages: seq<seq<Row>>): set<Row> {
    if pages == [] then {} else Emitted(pages[..|pages| - 1]) + Rows(pages[|pages| - 1])
  }

  /** The wanted rows no query will look at any more although they were not sent. */
  function Lost(s: Search, st: Stream): set<Row> {
    set r | r in s.Wanted() && r !in Emitted(st.pages) && !Before(r, st.last)
  }

  lemma {:induction false} DistinctCard(p: seq<Row>)
    requires Distinct(p)
    ensures |Rows(p)| == |p|
  {
    if p != [] {
      var init, last := p[..|p| - 1], p[|p| - 1];
      DistinctCard(init);
      assert Rows(p) == Rows(init) + {last};
      assert last !in init;
    }
  }

  /** Everything the table still has to offer is exactly the wanted rows below the last timestamp. */
  predicate Intact(s: Search, st: Stream) {
    Candidates(st.table, s.filter, s.maxId, st.last) == set r | r in s.Wanted() && Before(r, st.last)
  }

  /** Pages get strictly older, so that no row is sent twice. */
  predicate Ordered(pages: seq<seq<Row>>) {
    && (forall i :: 0 <= i < |pages| ==> Distinct(pages[i]) && Descending(pages[i]))
    && (forall i, j, r, q :: 0 <= i < j < |pages| && r in pages[i] && q in pages[j] ==> q.timestamp < r.timestamp)
  }

  predicate Counted(st: Stream) {
    if st.done then st.pages != [] && (|st.pages| - 1) * PAGE_SIZE <= |Emitted(st.pages)| < |st.pages| * PAGE_SIZE
    else |Emitted(st.pages)| == |st.pages| * PAGE_SIZE
  }

  /** The rows with old ids are some of those that existed at the start. */
  predicate NothingNew(s: Search, st: Stream) {
    forall r :: r in st.table && r.id <= s.maxId ==> r in s.table
  }

  /** Of the rows that existed at the start only sent ones have disappeared. */
  predicate TableOk(s: Search, st: Stream) {
    && NothingNew(s, st)
    && (forall r :: r in s.table && r !in Emitted(st.pages) ==> r in st.table)
  }

  /** The last timestamp is the smallest one sent. */
  predicate LastOk(st: Stream) {
    && (forall r :: r in Emitted(st.pages) ==> !Before(r, st.last))
    && (st.last.Some? ==> exists r :: r in Emitted(st.pages) && r.timestamp == st.last.value)
  }

  predicate DoneOk(s: Search, st: Stream) {
    st.done ==> forall r :: r in s.Wanted() && Before(r, st.last) ==> r in Emitted(st.pages)
  }

  predicate Inv(s: Search, st: Stream) {
    && s.Valid()
    && Emitted(st.pages) <= s.Wanted()
    && TableOk(s, st) && LastOk(st) && DoneOk(s, st)
    && Ordered(st.pages) && Counted(st)
  }

  lemma InvIntact(s: Search, st: Stream)
    requires Inv(s, st)
    ensures Intact(s, st)
  {
  }

  lemma EmittedSnoc(pages: seq<seq<Row>>, p: seq<Row>)
    ensures Emitted(pages + [p]) == Emitted(pages) + Rows(p)
  {
    assert (pages + [p])[..|pages|] == pages;
  }

  lemma {:induction false} InPages(pages: seq<seq<Row>>, r: Row)
    ensures r in Emitted(pages) <==> exists i :: 0 <= i < |pages| && r in pages[i]
  {
    if pages != [] {
      var init := pages[..|pages| - 1];
      InPages(init, r);
      if r in Emitted(init) {
        var i :| 0 <= i < |init| && r in init[i];
        assert r in pages[i];
      }
    }
  }

  lemma PageKeepsOrder(s: Search, st: Stream, p: seq<Row>)
    requires Ordered(st.pages) && LastOk(st) && Enabled(s, st, Page(p))
    ensures Ordered(st.pages + [p])
  {
    var pages := st.pages + [p];
    forall i, j, r: Row, q: Row | 0 <= i < j < |pages| && r in pages[i] && q in pages[j]
      ensures q.timestamp < r.timestamp
    {
      if j == |st.pages| {
        InPages(st.pages, r);
        assert !Before(r, st.last) && Before(q, st.last);
      }
    }
  }

  lemma PageCounts(s: Search, st: Stream, p: seq<Row>)
    requires Counted(st) && LastOk(st) && Enabled(s, st, Page(p))
    ensures |Emitted(st.pages + [p])| == |Emitted(st.pages)| + |p|
    ensures Counted(Apply(s, st, Page(p)))
  {
    EmittedSnoc(st.pages, p);
    DistinctCard(p);
    forall r | r in Emitted(st.pages)
      ensures r !in Rows(p)
    {
    }
    assert Emitted(st.pages) !! Rows(p);
    assert (|st.pages| + 1) * PAGE_SIZE == |st.pages| * PAGE_SIZE + PAGE_SIZE;
  }

  lemma PageTakesAll(p: seq<Row>, candidates: set<Row>)
    requires IsPage(p, candidates) && |p| < PAGE_SIZE
    ensures Rows(p) == candidates
  {
    DistinctCard(p);
    assert Rows(p) <= candidates;
    SubsetOfSameSize(Rows(p), candidates);
  }

  lemma SubsetOfSameSize(a: set<Row>, b: set<Row>)
    requires a <= b && |a| >= |b|
    ensures a == b
  {
    assert |b - a| == |b| - |a|;
    assert forall r :: r in b ==> r in a || r in b - a;
  }

  lemma PageEmitsWanted(s: Search, st: Stream, p: seq<Row>)
    requires Emitted(st.pages) <= s.Wanted() && NothingNew(s, st) && Enabled(s, st, Page(p))
    ensures Emitted(st.pages + [p]) <= s.Wanted()
  {
    EmittedSnoc(st.pages, p);
  }

  lemma PageKeepsTable(s: Search, st: Stream, p: seq<Row>)
    requires TableOk(s, st) && Enabled(s, st, Page(p))
    ensures TableOk(s, Apply(s, st, Page(p)))
  {
    hide IsPage;
    EmittedSnoc(st.pages, p);
  }

  lemma PageKeepsLast(s: Search, st: Stream, p: seq<Row>)
    requires LastOk(st) && Enabled(s, st, Page(p))
    ensures LastOk(Apply(s, st, Page(p)))
  {
    var st' := Apply(s, st, Page(p));
    EmittedSnoc(st.pages, p);
    if p != [] {
      var lowest := p[|p| - 1];
      assert lowest in p;
      forall r | r in Emitted(st'.pages)
        ensures !Before(r, st'.last)
      {
        if r !in p {
          assert !Before(r, st.last);
        }
      }
      assert lowest in Emitted(st'.pages);
    } else {
      assert Rows(p) == {};
    }
  }

  lemma PageKeepsDone(s: Search, st: Stream, p: seq<Row>)
    requires Inv(s, st) && Enabled(s, st, Page(p))
    ensures DoneOk(s, Apply(s, st, Page(p)))
  {
    hide Ordered, Counted, LastOk;
    EmittedSnoc(st.pages, p);
    InvIntact(s, st);
    var candidates := Candidates(st.table, s.filter, s.maxId, st.last);
    if |p| < PAGE_SIZE {
      PageTakesAll(p, candidates);
      var st' := Apply(s, st, Page(p));
      forall r | r in s.Wanted() && Before(r, st'.last)
        ensures r in Emitted(st'.pages)
      {
        LowerLast(p, candidates, st.last, r);
        assert r in candidates;
      }
    }
  }

  lemma LowerLast(p: seq<Row>, candidates: set<Row>, last: Option<int>, r: Row)
    requires IsPage(p, candidates) && (forall q :: q in candidates ==> Before(q, last))
    requires Before(r, LastTimestamp(p, last))
    ensures Before(r, last)
  {
    if p != [] {
      assert p[|p| - 1] in p;
    }
  }

  lemma PageKeepsInv(s: Search, st: Stream, p: seq<Row>)
    requires Inv(s, st) && Enabled(s, st, Page(p))
    ensures Inv(s, Apply(s, st, Page(p)))
  {
    assert NothingNew(s, st);
    hide Ordered, Counted, TableOk, NothingNew, LastOk, DoneOk, IsPage;
    PageEmitsWanted(s, st, p);
    PageKeepsTable(s, st, p);
    PageKeepsLast(s, st, p);
    PageKeepsDone(s, st, p);
    PageKeepsOrder(s, st, p);
    PageCounts(s, st, p);
  }

  lemma DeleteKeepsInv(s: Search, st: Stream, j: nat)
    requires Inv(s, st) && j < |st.pages|
    ensures Inv(s, Apply(s, st, DeletePage(j)))
  {
    var st' := Apply(s, st, DeletePage(j));
    forall r | r in s.table && r !in Emitted(st.pages)
      ensures r in st'.table
    {
      forall q | q in st.pages[j]
        ensures q.id != r.id
      {
        InPages(st.pages, q);
        assert q in s.table;
      }
    }
  }

  lemma ApplyKeepsInv(s: Search, st: Stream, a: Action)
    requires Inv(s, st) && Enabled(s, st, a) && !a.Delete?
    ensures Inv(s, Apply(s, st, a))
  {
    match a
    case Page(p) => PageKeepsInv(s, st, p);
    case Insert(row) =>
    case DeletePage(j) => DeleteKeepsInv(s, st, j);
  }

  lemma {:induction false} RunKeepsInv(s: Search, run: seq<Action>)
    requires s.Valid() && IsRun(s, run) && OnlySentDeleted(run)
    ensures Inv(s, StateAfter(s, run))
  {
    if run != [] {
      RunKeepsInv(s, run[..|run| - 1]);
      ApplyKeepsInv(s, StateAfter(s, run[..|run| - 1]), run[|run| - 1]);
    }
  }

  // ---- Whatever anybody deletes ----

  /** A row that is still in the table and that no later query will look at has been sent, or shares its timestamp with
      the last row of some page. */
  ghost predicate MissedOnlyByTies(s: Search, st: Stream) {
    forall r :: r in st.table && r in s.Wanted() && r !in Emitted(st.pages) ==>
      (!Before(r, st.last) ==> EndsPage(st.pages, r.timestamp)) && (st.done ==> !Before(r, st.last))
  }

  predicate EndsPage(pages: seq<seq<Row>>, t: int) {
    exists i :: 0 <= i < |pages| && pages[i] != [] && pages[i][|pages[i]| - 1].timestamp == t
  }

  ghost predicate Sound(s: Search, st: Stream) {
    && s.Valid()
    && Emitted(st.pages) <= s.Wanted()
    && NothingNew(s, st) && LastOk(st) && Ordered(st.pages) && Counted(st)
    && MissedOnlyByTies(s, st)
  }

  lemma PageMisses(s: Search, st: Stream, p: seq<Row>)
    requires s.Valid() && MissedOnlyByTies(s, st) && Enabled(s, st, Page(p))
    ensures MissedOnlyByTies(s, Apply(s, st, Page(p)))
  {
    hide Ordered, Counted, LastOk, Emitted;
    var st' := Apply(s, st, Page(p));
    var candidates := Candidates(st.table, s.filter, s.maxId, st.last);
    EmittedSnoc(st.pages, p);
    forall r | r in st'.table && r in s.Wanted() && r !in Emitted(st'.pages)
      ensures (!Before(r, st'.last) ==> EndsPage(st'.pages, r.timestamp)) && (st'.done ==> !Before(r, st'.last))
    {
      assert r !in p && r !in Emitted(st.pages);
      if Before(r, st.last) {
        assert r in candidates;
        MissedByPage(candidates, p, r, st.last);
        assert st'.pages[|st.pages|] == p;
      } else {
        var i :| 0 <= i < |st.pages| && st.pages[i] != [] && st.pages[i][|st.pages[i]| - 1].timestamp == r.timestamp;
        assert st'.pages[i] == st.pages[i];
        if Before(r, st'.last) {
          LowerLast(p, candidates, st.last, r);
        }
      }
    }
  }

  lemma MissedByPage(candidates: set<Row>, p: seq<Row>, r: Row, last: Option<int>)
    requires IsPage(p, candidates) && r in candidates && r !in p
    ensures |p| == PAGE_SIZE && r.timestamp <= p[|p| - 1].timestamp
    ensures !Before(r, LastTimestamp(p, last)) ==> p[|p| - 1].timestamp == r.timestamp
  {
    if |p| < PAGE_SIZE {
      PageTakesAll(p, candidates);
    }
  }

  lemma PageKeepsSound(s: Search, st: Stream, p: seq<Row>)
    requires Sound(s, st) && Enabled(s, st, Page(p))
    ensures Sound(s, Apply(s, st, Page(p)))
  {
    hide Ordered, Counted, LastOk, MissedOnlyByTies, Emitted, IsPage;
    PageEmitsWanted(s, st, p);
    PageKeepsLast(s, st, p);
    PageKeepsOrder(s, st, p);
    PageCounts(s, st, p);
    PageMisses(s, st, p);
  }

  lemma MissesShrink(s: Search, st: Stream, st': Stream)
    requires s.Valid() && MissedOnlyByTies(s, st)
    requires forall r :: r in st'.table && r.id <= s.maxId ==> r in st.table
    requires st'.pages == st.pages && st'.last == st.last && st'.done == st.done
    ensures MissedOnlyByTies(s, st')
  {
    hide Emitted, EndsPage;
  }

  lemma OldRowsOnly(s: Search, st: Stream, st': Stream)
    requires Sound(s, st)
    requires forall r :: r in st'.table && r.id <= s.maxId ==> r in st.table
    requires st'.pages == st.pages && st'.last == st.last && st'.done == st.done
    ensures Sound(s, st')
  {
    hide Ordered, Emitted, MissedOnlyByTies;
    MissesShrink(s, st, st');
  }

  lemma ApplyKeepsSound(s: Search, st: Stream, a: Action)
    requires Sound(s, st) && Enabled(s, st, a)
    ensures Sound(s, Apply(s, st, a))
  {
    hide Sound, IsPage;
    if a.Page? {
      PageKeepsSound(s, st, a.rows);
    } else {
      OldRowsOnly(s, st, Apply(s, st, a));
    }
  }

  lemma {:induction false} RunIsSound(s: Search, run: seq<Action>)
    requires s.Valid() && IsRun(s, run)
    ensures Sound(s, StateAfter(s, run))
  {
    if run != [] {
      RunIsSound(s, run[..|run| - 1]);
      ApplyKeepsSound(s, StateAfter(s, run[..|run| - 1]), run[|run| - 1]);
    }
  }

  lemma PageBound(s: Search, st: Stream)
    requires Emitted(st.pages) <= s.Wanted() && Counted(st)
    ensures |st.pages| <= |s.Wanted()| / PAGE_SIZE + 1
  {
    SubsetSize(Emitted(st.pages), s.Wanted());
  }

  /** In every run, whatever anybody inserts and deletes meanwhile: only wanted rows that existed at the start are sent,
      none of them twice, newest first, strictly older from page to page; and the number of pages is bounded. */
  lemma StreamIsSound(s: Search, run: seq<Action>)
    requires s.Valid() && IsRun(s, run)
    ensures var st := StateAfter(s, run);
            && (forall i, r :: 0 <= i < |st.pages| && r in st.pages[i] ==> r in s.table && s.filter(r))
            && Ordered(st.pages)
            && |st.pages| <= |s.Wanted()| / 1000 + 1
  {
    hide Ordered, LastOk, Counted, IsRun, MissedOnlyByTies;
    RunIsSound(s, run);
    var st := StateAfter(s, run);
    PageBound(s, st);
    forall i, r | 0 <= i < |st.pages| && r in st.pages[i]
      ensures r in s.table && s.filter(r)
    {
      InPages(st.pages, r);
    }
  }

  /** Under the same conditions a wanted row that nobody has deleted is missing from an ended stream only if it has the
      timestamp of the last row of some page. */
  lemma SurvivorsAreSent(s: Search, run: seq<Action>, r: Row)
    requires s.Valid() && IsRun(s, run) && StateAfter(s, run).done
    requires r in s.Wanted() && r in StateAfter(s, run).table
    ensures r in Emitted(StateAfter(s, run).pages) || EndsPage(StateAfter(s, run).pages, r.timestamp)
  {
    hide IsRun, Ordered, LastOk, Counted, EndsPage, Emitted;
    RunIsSound(s, run);
  }

  lemma SubsetSize(a: set<Row>, b: set<Row>)
    requires a <= b
    ensures |a| <= |b|
  {
    assert |b - a| == |b| - |a|;
  }

  // ---- Completeness, and exactly when ----

  function AtLeast(rows: set<Row>, t: int): set<Row> {
    set r | r in rows && r.timestamp >= t
  }

  /** No group of equal timestamps straddles a page break: for every page break there is a time such that exactly
      the rows from then on fill the pages before the break. */
  ghost predicate TieFree(rows: set<Row>) {
    forall k: nat :: 1 <= k && k * PAGE_SIZE < |rows| ==> Boundary(rows, k)
  }

  ghost predicate Boundary(rows: set<Row>, k: nat) {
    exists t :: |AtLeast(rows, t)| == k * PAGE_SIZE
  }

  /** What is lost stays lost. */
  lemma LostForGood(s: Search, st: Stream, a: Action)
    requires Inv(s, st) && Enabled(s, st, a)
    ensures Lost(s, st) <= Lost(s, Apply(s, st, a))
  {
    hide Ordered, Counted, TableOk, LastOk, DoneOk, Emitted;
    if a.Page? {
      EmittedSnoc(st.pages, a.rows);
      assert forall r :: r in a.rows ==> Before(r, st.last);
      assert a.rows != [] ==> Before(a.rows[|a.rows| - 1], st.last);
    }
  }

  /** As long as nothing is lost, the rows sent are those from the last timestamp on. */
  lemma EmittedIsTop(s: Search, st: Stream)
    requires Inv(s, st) && Lost(s, st) == {} && st.last.Some?
    ensures Emitted(st.pages) == AtLeast(s.Wanted(), st.last.value)
  {
    forall r | r in AtLeast(s.Wanted(), st.last.value)
      ensures r in Emitted(st.pages)
    {
      assert r in Emitted(st.pages) || r in Lost(s, st);
    }
  }

  /** Two sets of newest rows are nested. */
  lemma TopsNested(rows: set<Row>, t: int, u: int)
    requires |AtLeast(rows, t)| < |AtLeast(rows, u)|
    ensures AtLeast(rows, t) <= AtLeast(rows, u)
  {
    if u > t {
      SubsetSize(AtLeast(rows, u), AtLeast(rows, t));
    }
  }

  /** A full page that fits between two boundaries takes exactly the rows between them. */
  lemma PageIsSlice(p: seq<Row>, candidates: set<Row>, slice: set<Row>, t: int)
    requires IsPage(p, candidates) && |p| == PAGE_SIZE
    requires slice == AtLeast(candidates, t) && |slice| == PAGE_SIZE
    ensures Rows(p) == slice
  {
    DistinctCard(p);
    if q :| q in p && q !in slice {
      forall r | r in slice
        ensures r in p
      {
        assert r in p || r.timestamp <= q.timestamp;
      }
      SubsetOfSameSize(slice, Rows(p));
    } else {
      SubsetOfSameSize(Rows(p), slice);
    }
  }

  lemma NextBoundary(s: Search, st: Stream, p: seq<Row>, u: int)
    requires Inv(s, st) && Lost(s, st) == {} && Enabled(s, st, Page(p)) && |p| == PAGE_SIZE
    requires |AtLeast(s.Wanted(), u)| == (|st.pages| + 1) * PAGE_SIZE
    ensures Emitted(st.pages + [p]) == AtLeast(s.Wanted(), u)
  {
    hide Ordered, IsPage;
    var candidates := Candidates(st.table, s.filter, s.maxId, st.last);
    var top := AtLeast(s.Wanted(), u);
    InvIntact(s, st);
    EmittedSnoc(st.pages, p);
    assert (|st.pages| + 1) * PAGE_SIZE == |st.pages| * PAGE_SIZE + PAGE_SIZE;
    if st.last.Some? {
      EmittedIsTop(s, st);
      TopsNested(s.Wanted(), st.last.value, u);
    } else {
      assert Emitted(st.pages) == {};
    }
    var slice := AtLeast(candidates, u);
    assert top == Emitted(st.pages) + slice by {
      forall r | r in top
        ensures r in Emitted(st.pages) + slice
      {
        assert r in Emitted(st.pages) || Before(r, st.last) || r in Lost(s, st);
      }
    }
    assert Emitted(st.pages) !! slice;
    PageIsSlice(p, candidates, slice, u);
  }

  /** Without ties at the page breaks a page loses nothing. */
  lemma TieFreeLosesNothing(s: Search, st: Stream, a: Action)
    requires Inv(s, st) && Enabled(s, st, a) && TieFree(s.Wanted()) && Lost(s, st) == {}
    ensures Lost(s, Apply(s, st, a)) == {}
  {
    if a.Page? {
      var p := a.rows;
      var st' := Apply(s, st, a);
      EmittedSnoc(st.pages, p);
      InvIntact(s, st);
      var candidates := Candidates(st.table, s.filter, s.maxId, st.last);
      var k := |st.pages| + 1;
      if |p| == PAGE_SIZE && k * PAGE_SIZE < |s.Wanted()| {
        assert Boundary(s.Wanted(), k);
        var u :| |AtLeast(s.Wanted(), u)| == k * PAGE_SIZE;
        NextBoundary(s, st, p, u);
        assert p[|p| - 1] in Emitted(st'.pages);
      } else {
        PageTakesRest(s, st, p);
      }
    }
  }

  /** A page that is not full, or fills up the last page break, takes all that is left. */
  lemma PageTakesRest(s: Search, st: Stream, p: seq<Row>)
    requires Inv(s, st) && Enabled(s, st, Page(p)) && Lost(s, st) == {}
    requires |p| < PAGE_SIZE || (|st.pages| + 1) * PAGE_SIZE >= |s.Wanted()|
    ensures Lost(s, Apply(s, st, Page(p))) == {}
  {
    var candidates := Candidates(st.table, s.filter, s.maxId, st.last);
    InvIntact(s, st);
    EmittedSnoc(st.pages, p);
    if |p| < PAGE_SIZE {
      PageTakesAll(p, candidates);
    } else {
      PageCounts(s, st, p);
      PageKeepsInv(s, st, p);
      SubsetOfSameSize(Emitted(st.pages + [p]), s.Wanted());
    }
  }

  ghost predicate BoundariesSoFar(s: Search, st: Stream) {
    forall k: nat :: 1 <= k && k * PAGE_SIZE <= |Emitted(st.pages)| && (st.done ==> k < |st.pages|) ==>
      Boundary(s.Wanted(), k)
  }

  lemma BoundariesGrow(s: Search, st: Stream, p: seq<Row>)
    requires Inv(s, st) && Enabled(s, st, Page(p))
    requires BoundariesSoFar(s, st)
    requires Lost(s, Apply(s, st, Page(p))) == {}
    ensures BoundariesSoFar(s, Apply(s, st, Page(p)))
  {
    var st' := Apply(s, st, Page(p));
    PageKeepsInv(s, st, p);
    PageCounts(s, st, p);
    forall k: nat | 1 <= k && k * PAGE_SIZE <= |Emitted(st'.pages)| && (st'.done ==> k < |st'.pages|)
      ensures Boundary(s.Wanted(), k)
    {
      if k * PAGE_SIZE > |st.pages| * PAGE_SIZE {
        EmittedIsTop(s, st');
        assert k == |st'.pages|;
        assert |AtLeast(s.Wanted(), st'.last.value)| == k * PAGE_SIZE;
      }
    }
  }

  lemma {:induction false} RunIff(s: Search, run: seq<Action>)
    requires s.Valid() && IsRun(s, run) && OnlySentDeleted(run)
    ensures TieFree(s.Wanted()) ==> Lost(s, StateAfter(s, run)) == {}
    ensures Lost(s, StateAfter(s, run)) == {} ==> BoundariesSoFar(s, StateAfter(s, run))
  {
    if run != [] {
      var init, a := run[..|run| - 1], run[|run| - 1];
      var st := StateAfter(s, init);
      RunIff(s, init);
      RunKeepsInv(s, init);
      LostForGood(s, st, a);
      if TieFree(s.Wanted()) {
        TieFreeLosesNothing(s, st, a);
      }
      if Lost(s, Apply(s, st, a)) == {} && a.Page? {
        BoundariesGrow(s, st, a.rows);
      }
    }
  }

  /** A stream that has ended has sent all the wanted rows exactly if no page break of the full result falls inside
      a group of equal timestamps. Rows inserted meanwhile, and deletes of rows already sent, make no difference. */
  lemma {:induction false} StreamCompleteIff(s: Search, run: seq<Action>)
    requires s.Valid() && IsRun(s, run) && OnlySentDeleted(run) && StateAfter(s, run).done
    ensures Emitted(StateAfter(s, run).pages) == s.Wanted() <==> TieFree(s.Wanted())
  {
    var st := StateAfter(s, run);
    RunKeepsInv(s, run);
    RunIff(s, run);
    if Emitted(st.pages) == s.Wanted() {
      assert Lost(s, st) == {};
      forall k: nat | 1 <= k && k * PAGE_SIZE < |s.Wanted()|
        ensures Boundary(s.Wanted(), k)
      {
        assert k >= |st.pages| ==> k * PAGE_SIZE >= |st.pages| * PAGE_SIZE;
      }
    }
    if TieFree(s.Wanted()) {
      forall r | r in s.Wanted()
        ensures r in Emitted(st.pages)
      {
        assert r in Emitted(st.pages) || r in Lost(s, st);
      }
    }
  }

  ghost predicate IsTop(top: set<Row>, rows: set<Row>, t: int) {
    forall r :: r in top <==> r in rows && r.timestamp >= t
  }

  /** The same in terms of the table at the start: every row that matched then is on some page if and only if for every
      full page of the matching rows there is a time from which on exactly these many rows match. */
  lemma {:induction false} CompleteExactly(s: Search, run: seq<Action>, wanted: set<Row>)
    requires s.Valid() && IsRun(s, run) && OnlySentDeleted(run) && StateAfter(s, run).done
    requires forall r :: r in wanted <==> r in s.table && s.filter(r)
    ensures var pages := StateAfter(s, run).pages;
            (forall r :: r in wanted ==> exists i :: 0 <= i < |pages| && r in pages[i]) <==>
            (forall k: nat ::
               1 <= k && k * 1000 < |wanted| ==> exists top, t :: IsTop(top, wanted, t) && |top| == k * 1000)
  {
    hide IsRun, StateAfter, Ordered, Counted, LastOk, DoneOk, TableOk, Emitted, TieFree, IsTop;
    var pages := StateAfter(s, run).pages;
    assert wanted == s.Wanted();
    SentIsWanted(s, run);
    StreamCompleteIff(s, run);
    TieFreeMeaning(wanted);
    forall r
      ensures r in Emitted(pages) <==> exists i :: 0 <= i < |pages| && r in pages[i]
    {
      InPages(pages, r);
    }
  }

  lemma SentIsWanted(s: Search, run: seq<Action>)
    requires s.Valid() && IsRun(s, run) && OnlySentDeleted(run)
    ensures Emitted(StateAfter(s, run).pages) <= s.Wanted()
  {
    RunKeepsInv(s, run);
  }

  lemma TieFreeMeaning(rows: set<Row>)
    ensures TieFree(rows) <==>
            (forall k: nat :: 1 <= k && k * 1000 < |rows| ==> exists top, t :: IsTop(top, rows, t) && |top| == k * 1000)
  {
    forall k: nat
      ensures Boundary(rows, k) <==> exists top, t :: IsTop(top, rows, t) && |top| == k * 1000
    {
      if top, t :| IsTop(top, rows, t) && |top| == k * 1000 {
        assert top == AtLeast(rows, t);
      }
      if t :| |AtLeast(rows, t)| == k * PAGE_SIZE {
        assert IsTop(AtLeast(rows, t), rows, t);
      }
    }
    if TieFree(rows) {
      forall k: nat | 1 <= k && k * 1000 < |rows|
        ensures exists top, t :: IsTop(top, rows, t) && |top| == k * 1000
      {
        assert Boundary(rows, k);
      }
    }
  }

  // ---- Retention ----

  /** What the retention task has removed. */
  function Removed(st: Stream): set<Row>
    requires forall j: nat :: j in st.deleted ==> j < |st.pages|
  {
    set j, r | j in st.deleted && r in st.pages[j] :: r
  }

  /** The rows missing from the table are those of the deleted pages. */
  predicate Tracks(s: Search, st: Stream) {
    && (forall j: nat :: j in st.deleted ==> j < |st.pages|)
    && (forall r :: r in s.table ==> (r in st.table <==> r !in Removed(st)))
  }

  lemma DeleteTracks(s: Search, st: Stream, j: nat)
    requires Inv(s, st) && Tracks(s, st) && j < |st.pages|
    ensures Tracks(s, Apply(s, st, DeletePage(j)))
  {
    hide Ordered, Counted, LastOk, DoneOk;
    var st' := Apply(s, st, DeletePage(j));
    forall r: Row
      ensures r in Removed(st') <==> r in Removed(st) || r in st.pages[j]
    {
    }
    forall r | r in s.table
      ensures (exists q :: q in st.pages[j] && q.id == r.id) <==> r in st.pages[j]
    {
      forall q | q in st.pages[j]
        ensures q in s.table
      {
        InPages(st.pages, q);
      }
    }
  }

  lemma InsertTracks(s: Search, st: Stream, row: Row)
    requires Inv(s, st) && Tracks(s, st) && row.id > s.maxId
    ensures Tracks(s, Apply(s, st, Insert(row)))
  {
    hide Ordered, Counted, LastOk, DoneOk, TableOk;
    assert Removed(st.(table := st.table + {row})) == Removed(st);
  }

  lemma PageTracks(s: Search, st: Stream, p: seq<Row>)
    requires Tracks(s, st) && Enabled(s, st, Page(p))
    ensures Tracks(s, Apply(s, st, Page(p)))
  {
    hide IsPage;
    var st' := Apply(s, st, Page(p));
    assert forall j: nat :: j in st.deleted ==> st'.pages[j] == st.pages[j];
    assert Removed(st') == Removed(st);
  }

  lemma {:induction false} RunTracks(s: Search, run: seq<Action>)
    requires s.Valid() && IsRun(s, run) && OnlySentDeleted(run)
    ensures Tracks(s, StateAfter(s, run))
  {
    assert Tracks(s, Init(s));
    hide Tracks, Inv;
    if run != [] {
      var init, a := run[..|run| - 1], run[|run| - 1];
      RunTracks(s, init);
      RunKeepsInv(s, init);
      match a
      case Page(rows) => PageTracks(s, StateAfter(s, init), rows);
      case Insert(row) => InsertTracks(s, StateAfter(s, init), row);
      case DeletePage(j) => DeleteTracks(s, StateAfter(s, init), j);
    }
  }

  /** The retention task wants the events up to a cut-off. */
  function UpTo(cutoff: int): Filter {
    (r: Row) => r.timestamp <= cutoff
  }

  /** However page queries, deletes and inserts interleave, nothing newer than the cut-off is ever deleted, nor
      anything added after the start. */
  lemma RetentionIsSafe(cutoff: int, s: Search, run: seq<Action>, r: Row)
    requires s.filter == UpTo(cutoff) && s.Valid() && IsRun(s, run) && OnlySentDeleted(run)
    requires r in s.table && r !in StateAfter(s, run).table
    ensures r.timestamp <= cutoff
    ensures exists j ::
              j in StateAfter(s, run).deleted && j < |StateAfter(s, run).pages| && r in StateAfter(s, run).pages[j]
  {
    hide IsRun, Ordered, Counted, LastOk, DoneOk, TableOk;
    var st := StateAfter(s, run);
    RunKeepsInv(s, run);
    RunTracks(s, run);
    var j :| j in st.deleted && r in st.pages[j];
    InPages(st.pages, r);
  }

  lemma AllRemoved(st: Stream)
    requires forall j: nat :: j in st.deleted <==> j < |st.pages|
    ensures Removed(st) == Emitted(st.pages)
  {
    forall r: Row
      ensures r in Removed(st) <==> r in Emitted(st.pages)
    {
      InPages(st.pages, r);
    }
  }

  /** When the stream has ended and every delete has succeeded, all the events that were too old at the start are
      gone exactly if no page break fell inside a group of equal timestamps. */
  lemma RetentionCompleteIff(s: Search, run: seq<Action>)
    requires s.Valid() && IsRun(s, run) && OnlySentDeleted(run)
    requires StateAfter(s, run).done
    requires forall j: nat :: j in StateAfter(s, run).deleted <==> j < |StateAfter(s, run).pages|
    ensures (forall r :: r in s.Wanted() ==> r !in StateAfter(s, run).table) <==> TieFree(s.Wanted())
  {
    hide IsRun, Ordered, Counted, LastOk, DoneOk, TableOk, TieFree;
    var st := StateAfter(s, run);
    RunKeepsInv(s, run);
    RunTracks(s, run);
    StreamCompleteIff(s, run);
    AllRemoved(st);
  }

  // ---- The retention task as written, under any schedule ----

  /** Who moves next: the stream's goroutine, somebody who adds an event, or the retention task with the next page it
      has. */
  datatype Choice = QueryPage | AddEvent(row: Row) | HandlePage(deleteOk: bool)

  predicate AllDeletesOk(schedule: seq<Choice>) {
    forall n :: 0 <= n < |schedule| && schedule[n].HandlePage? ==> schedule[n].deleteOk
  }

  function Queries(schedule: seq<Choice>): nat {
    if schedule == [] then 0
    else Queries(schedule[..|schedule| - 1]) + if schedule[|schedule| - 1].QueryPage? then 1 else 0
  }

  function Handles(schedule: seq<Choice>): nat {
    if schedule == [] then 0
    else Handles(schedule[..|schedule| - 1]) + if schedule[|schedule| - 1].HandlePage? then 1 else 0
  }

  /** More than this many queries, and after them more than this many turns of the task. */
  ghost predicate LongEnough(schedule: seq<Choice>, bound: nat) {
    exists k: nat :: k <= |schedule| && Queries(schedule[..k]) > bound && Handles(schedule[k..]) > bound
  }

  /** How far the stream and the task have come. */
  datatype Counts = Counts(done: bool, pages: nat, handled: nat, allDeleted: bool)

  ghost predicate Progress(schedule: seq<Choice>, n: nat, k: nat, bound: nat, c: Counts)
    requires n <= |schedule| && k <= |schedule|
  {
    && (AllDeletesOk(schedule) ==> c.allDeleted)
    && c.handled <= c.pages <= bound + 1
    && (!c.done ==> c.pages <= bound && c.pages == Queries(schedule[..n]))
    && (k <= n && Queries(schedule[..k]) > bound ==>
          c.done && (c.handled == c.pages || c.handled >= Handles(schedule[k..n])))
  }

  lemma EnoughAt(schedule: seq<Choice>, bound: nat) returns (k: nat)
    ensures k <= |schedule|
    ensures LongEnough(schedule, bound) ==> Queries(schedule[..k]) > bound && Handles(schedule[k..]) > bound
  {
    k := 0;
    if LongEnough(schedule, bound) {
      k :| k <= |schedule| && Queries(schedule[..k]) > bound && Handles(schedule[k..]) > bound;
    }
  }

  lemma ProgressStarts(schedule: seq<Choice>, k: nat, bound: nat)
    requires k <= |schedule|
    ensures Progress(schedule, 0, k, bound, Counts(false, 0, 0, true))
  {
    assert schedule[..0] == [];
  }

  lemma ProgressStep(schedule: seq<Choice>, n: nat, k: nat, bound: nat, c: Counts, d: Counts)
    requires n < |schedule| && k <= |schedule| && Progress(schedule, n, k, bound, c)
    requires d.pages <= bound + 1 && (!d.done ==> d.pages <= bound)
    requires match schedule[n]
             case QueryPage => if c.done then d == c else d == c.(done := d.done, pages := c.pages + 1)
             case AddEvent(_) => d == c
             case HandlePage(ok) =>
               d == if c.handled < c.pages then c.(handled := c.handled + 1, allDeleted := c.allDeleted && ok) else c
    ensures Progress(schedule, n + 1, k, bound, d)
  {
    assert schedule[..n + 1][..n] == schedule[..n];
    assert k <= n ==> schedule[k..n + 1][..n - k] == schedule[k..n];
    assert k == n + 1 ==> schedule[k..n + 1] == [];
  }

  lemma ProgressEnds(schedule: seq<Choice>, k: nat, bound: nat, c: Counts)
    requires k <= |schedule| && Progress(schedule, |schedule|, k, bound, c)
    requires LongEnough(schedule, bound) ==> Queries(schedule[..k]) > bound && Handles(schedule[k..]) > bound
    ensures AllDeletesOk(schedule) && LongEnough(schedule, bound) ==> c.done && c.handled == c.pages && c.allDeleted
  {
    assert schedule[k..|schedule|] == schedule[k..];
  }

  lemma PagesSoFar(s: Search, run: seq<Action>, st: Stream, handled: nat, allDeleted: bool)
    requires s.Valid() && Follows(s, run, st, handled, allDeleted)
    ensures |st.pages| <= |s.Wanted()| / 1000 + 1 && (!st.done ==> |st.pages| <= |s.Wanted()| / 1000)
  {
    RunKeepsInv(s, run);
    PageBound(s, StateAfter(s, run));
    SubsetSize(Emitted(st.pages), s.Wanted());
  }

  lemma RunSnoc(s: Search, run: seq<Action>, a: Action)
    requires IsRun(s, run) && Enabled(s, StateAfter(s, run), a)
    ensures IsRun(s, run + [a]) && StateAfter(s, run + [a]) == Apply(s, StateAfter(s, run), a)
  {
    assert (run + [a])[..|run|] == run;
  }

  /** The run that the variables of the task and of its stream stand for. */
  ghost predicate Follows(s: Search, run: seq<Action>, st: Stream, handled: nat, allDeleted: bool) {
    && IsRun(s, run) && OnlySentDeleted(run)
    && StateAfter(s, run).(deleted := st.deleted) == st
    && handled <= |st.pages|
    && (allDeleted ==> forall j: nat :: j in StateAfter(s, run).deleted <==> j < handled)
  }

  lemma FollowsStart(s: Search)
    ensures Follows(s, [], Stream(s.table, None, [], false, {}), 0, true)
  {
    assert IsRun(s, []) && StateAfter(s, []) == Init(s);
  }

  lemma FollowsPage(s: Search, run: seq<Action>, st: Stream, handled: nat, allDeleted: bool, page: seq<Row>)
    requires Follows(s, run, st, handled, allDeleted) && !st.done
    requires IsPage(page, Candidates(st.table, s.filter, s.maxId, st.last))
    ensures Follows(s, run + [Page(page)],
                    st.(last := LastTimestamp(page, st.last), pages := st.pages + [page], done := |page| < PAGE_SIZE),
                    handled, allDeleted)
  {
    hide IsRun, StateAfter, IsPage, Candidates;
    RunSnoc(s, run, Page(page));
  }

  lemma FollowsInsert(s: Search, run: seq<Action>, st: Stream, handled: nat, allDeleted: bool, row: Row)
    requires Follows(s, run, st, handled, allDeleted) && row.id > s.maxId
    ensures Follows(s, run + [Insert(row)], st.(table := st.table + {row}), handled, allDeleted)
  {
    hide IsRun, StateAfter, IsPage;
    RunSnoc(s, run, Insert(row));
  }

  lemma FollowsDelete(s: Search, run: seq<Action>, st: Stream, handled: nat, allDeleted: bool)
    requires Follows(s, run, st, handled, allDeleted) && handled < |st.pages|
    ensures Follows(s, run + [DeletePage(handled)], st.(table := WithoutIds(st.table, st.pages[handled])), handled + 1,
                    allDeleted)
    ensures Follows(s, run, st, handled + 1, false)
  {
    hide IsRun, StateAfter, IsPage, WithoutIds;
    RunSnoc(s, run, DeletePage(handled));
  }

  method IdsOf(evts: seq<Row>) returns (ids: seq<nat>)
    ensures |ids| == |evts| && forall i :: 0 <= i < |evts| ==> ids[i] == evts[i].id
  {
    ids := [];
    for n := 0 to |evts|
      invariant |ids| == n && forall i :: 0 <= i < n ==> ids[i] == evts[i].id
    {
      ids := ids + [evts[n].id];
    }
  }

  lemma SameWithoutIds(table: set<Row>, page: seq<Row>, ids: seq<nat>)
    requires |ids| == |page| && forall i :: 0 <= i < |page| ==> ids[i] == page[i].id
    ensures (set r | r in table && r.id !in ids) == WithoutIds(table, page)
  {
    forall r | r in table
      ensures r.id in ids <==> exists q :: q in page && q.id == r.id
    {
      if r.id in ids {
        var i :| 0 <= i < |ids| && ids[i] == r.id;
        assert page[i] in page;
      }
      if q :| q in page && q.id == r.id {
        var i :| 0 <= i < |page| && page[i] == q;
        assert ids[i] == r.id;
      }
    }
  }

  /** The retention task next to its stream and other writers. Nothing newer than the cut-off is deleted; and if all
      pages have been sent and deleted, everything that was too old at the start is gone exactly if no page break fell
      inside a group of equal timestamps. */
  method RunRetention(cutoff: int, s: Search, schedule: seq<Choice>) returns (table: set<Row>, finished: bool)
    requires s.Valid() && s.filter == UpTo(cutoff)
    requires forall n :: 0 <= n < |schedule| && schedule[n].AddEvent? ==> schedule[n].row.id > s.maxId
    ensures forall r :: r in s.table && r.timestamp > cutoff ==> r in table
    ensures finished ==> ((forall r :: r in s.table && r.timestamp <= cutoff ==> r !in table) <==>
                          TieFree(set r | r in s.table && r.timestamp <= cutoff))
    ensures AllDeletesOk(schedule) && LongEnough(schedule, |set r | r in s.table && r.timestamp <= cutoff| / 1000) ==>
              finished
  {
    hide IsPage, IsNextPage, TieFree, Candidates, Progress, LongEnough, AllDeletesOk, WithoutIds, LastTimestamp,
      Follows;
    ghost var bound := |s.Wanted()| / 1000;
    assert (set r | r in s.table && r.timestamp <= cutoff) == s.Wanted();
    ghost var k := EnoughAt(schedule, bound);
    ProgressStarts(schedule, k, bound);
    FollowsStart(s);
    var stream := new FilterStream(s.filter, s.maxId);
    table := s.table;
    var pages: seq<seq<Row>> := [];
    var handled, allDeleted := 0, true;
    ghost var run: seq<Action> := [];
    for n := 0 to |schedule|
      invariant stream.filter == s.filter && stream.maxId == s.maxId && 0 <= handled
      invariant Follows(s, run, Stream(table, stream.lastTimestamp, pages, stream.done, {}), handled, allDeleted)
      invariant Progress(schedule, n, k, bound, Counts(stream.done, |pages|, handled, allDeleted))
    {
      ghost var st := Stream(table, stream.lastTimestamp, pages, stream.done, {});
      ghost var before := Counts(stream.done, |pages|, handled, allDeleted);
      match schedule[n] {
        case QueryPage =>
          if !stream.done {
            var page := stream.NextPage(table);
            FollowsPage(s, run, st, handled, allDeleted, page);
            pages := pages + [page];
            run := run + [Page(page)];
          }
        case AddEvent(row) =>
          FollowsInsert(s, run, st, handled, allDeleted, row);
          table := table + {row};
          run := run + [Insert(row)];
        case HandlePage(deleteOk) =>
          if handled < |pages| {
            FollowsDelete(s, run, st, handled, allDeleted);
            if deleteOk {
              table := DeletePageFrom(table, pages[handled]);
              run := run + [DeletePage(handled)];
            } else {
              allDeleted := false;
            }
            handled := handled + 1;
          }
      }
      PagesSoFar(s, run, Stream(table, stream.lastTimestamp, pages, stream.done, {}), handled, allDeleted);
      ProgressStep(schedule, n, k, bound, before, Counts(stream.done, |pages|, handled, allDeleted));
    }
    ProgressEnds(schedule, k, bound, Counts(stream.done, |pages|, handled, allDeleted));
    finished := stream.done && handled == |pages| && allDeleted;
    RetentionSummary(cutoff, s, run, Stream(table, stream.lastTimestamp, pages, stream.done, {}), handled, allDeleted);
  }

  method DeletePageFrom(table: set<Row>, page: seq<Row>) returns (left: set<Row>)
    ensures left == WithoutIds(table, page)
  {
    var ids := IdsOf(page);
    SameWithoutIds(table, page, ids);
    left := set r | r in table && r.id !in ids;
  }

  lemma RetentionSummary(cutoff: int, s: Search, run: seq<Action>, st: Stream, handled: nat, allDeleted: bool)
    requires s.Valid() && s.filter == UpTo(cutoff) && Follows(s, run, st, handled, allDeleted)
    ensures forall r :: r in s.table && r.timestamp > cutoff ==> r in st.table
    ensures st.done && handled == |st.pages| && allDeleted ==>
      ((forall r :: r in s.Wanted() ==> r !in st.table) <==> TieFree(s.Wanted()))
  {
    hide IsRun, StateAfter, TieFree;
    forall r | r in s.table && r.timestamp > cutoff
      ensures r in st.table
    {
      if r !in StateAfter(s, run).table {
        RetentionIsSafe(cutoff, s, run, r);
      }
    }
    if st.done && handled == |st.pages| && allDeleted {
      RetentionCompleteIff(s, run);
    }
  }
}
