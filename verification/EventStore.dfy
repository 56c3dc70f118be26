/** The SQLite event repository (plugins/sqlite_events/SqliteEventRepository.go): the Events table with its
    AUTOINCREMENT counter and uniqueness key, and the full-text table EventRaws that is joined to it by rowid. */
module EventStore {
  import opened Common

  datatype Event = Event(raw: string, host: string, source: string, sourceId: string, timestamp: int, offset: int)

  /** UNIQUE(host, source, timestamp, offset). */
  datatype Key = Key(host: string, source: string, timestamp: int, offset: int)

  datatype EventRow = EventRow(id: nat, host: string, source: string, sourceId: string, timestamp: int, offset: int)

  datatype RawRow = RawRow(rowid: nat, raw: string, source: string, host: string)

  /** Both tables in id order; lastId is the AUTOINCREMENT counter of Events. */
  datatype Store = Store(events: seq<EventRow>, lastId: nat, raws: seq<RawRow>)

  const EMPTY := Store([], 0, [])

  function KeyOf(e: Event): Key {
    Key(e.host, e.source, e.timestamp, e.offset)
  }

  function RowKey(r: EventRow): Key {
    Key(r.host, r.source, r.timestamp, r.offset)
  }

  function RowFor(id: nat, e: Event): EventRow {
    EventRow(id, e.host, e.source, e.sourceId, e.timestamp, e.offset)
  }

  function RawFor(id: nat, e: Event): RawRow {
    RawRow(id, e.raw, e.source, e.host)
  }

  predicate HasKey(rows: seq<EventRow>, k: Key) {
    exists i :: 0 <= i < |rows| && RowKey(rows[i]) == k
  }

  predicate HasId(rows: seq<EventRow>, id: nat) {
    exists i :: 0 <= i < |rows| && rows[i].id == id
  }

  predicate HasRowid(raws: seq<RawRow>, id: nat) {
    exists i :: 0 <= i < |raws| && raws[i].rowid == id
  }

  /** SELECT MAX(rowid) FROM EventRaws, with 0 for NULL. */
  function MaxRowid(raws: seq<RawRow>): nat {
    if raws == [] then 0 else raws[|raws| - 1].rowid
  }

  // ---- Agreement of the two tables ----

  /** Row i of one table belongs to row i of the other. */
  predicate Pair(r: EventRow, w: RawRow) {
    r.id == w.rowid && r.source == w.source && r.host == w.host
  }

  ghost predicate Agrees(s: Store) {
    && |s.events| == |s.raws|
    && (forall i :: 0 <= i < |s.events| ==> Pair(s.events[i], s.raws[i]))
    && (forall i :: 0 <= i < |s.events| ==> 1 <= s.events[i].id <= s.lastId)
    && (forall i, j :: 0 <= i < j < |s.events| ==> s.events[i].id < s.events[j].id)
    && (forall i, j :: 0 <= i < j < |s.events| ==> RowKey(s.events[i]) != RowKey(s.events[j]))
  }

  function Joined(r: EventRow, w: RawRow): Event {
    Event(w.raw, r.host, r.source, r.sourceId, r.timestamp, r.offset)
  }

  /** Events INNER JOIN EventRaws ON rowid = id, in id order. */
  function View(s: Store): (v: seq<Event>)
    requires |s.events| == |s.raws|
    ensures |v| == |s.events|
  {
    seq(|s.events|, i requires 0 <= i < |s.events| => Joined(s.events[i], s.raws[i]))
  }

  predicate InView(v: seq<Event>, k: Key) {
    exists i :: 0 <= i < |v| && KeyOf(v[i]) == k
  }

  /** The specification of adding: each event once, in the order of first arrival. */
  function Dedup(v: seq<Event>, es: seq<Event>): seq<Event> {
    if es == [] then v
    else
      var before, e := Dedup(v, es[..|es| - 1]), es[|es| - 1];
      if InView(before, KeyOf(e)) then before else before + [e]
  }

  lemma KeysInView(s: Store, k: Key)
    requires |s.events| == |s.raws|
    ensures InView(View(s), k) <==> HasKey(s.events, k)
  {
    forall i | 0 <= i < |s.events|
      ensures KeyOf(View(s)[i]) == RowKey(s.events[i])
    {
    }
    if HasKey(s.events, k) {
      var i :| 0 <= i < |s.events| && RowKey(s.events[i]) == k;
      assert KeyOf(View(s)[i]) == k;
    }
  }

  // ---- One by one ----

  /** A duplicate is skipped and consumes no id. None is the rolled back transaction of a rowid that is taken. */
  function AddOne(s: Store, e: Event): Option<Store> {
    if HasKey(s.events, KeyOf(e)) then Some(s)
    else
      var id := s.lastId + 1;
      if HasRowid(s.raws, id) then None
      else Some(Store(s.events + [RowFor(id, e)], id, s.raws + [RawFor(id, e)]))
  }

  function AddAll(s: Store, es: seq<Event>): Option<Store> {
    if es == [] then Some(s)
    else match AddAll(s, es[..|es| - 1])
      case None => None
      case Some(s') => AddOne(s', es[|es| - 1])
  }

  lemma NextRowidFree(s: Store)
    requires Agrees(s)
    ensures !HasRowid(s.raws, s.lastId + 1)
  {
    forall i | 0 <= i < |s.raws|
      ensures s.raws[i].rowid != s.lastId + 1
    {
      assert Pair(s.events[i], s.raws[i]);
    }
  }

  lemma AddOneAgrees(s: Store, e: Event)
    requires Agrees(s)
    ensures AddOne(s, e).Some? && Agrees(AddOne(s, e).value)
    ensures View(AddOne(s, e).value) == Dedup(View(s), [e])
  {
    KeysInView(s, KeyOf(e));
    assert Dedup(View(s), [e][..0]) == View(s);
    if !HasKey(s.events, KeyOf(e)) {
      NextRowidFree(s);
      var s' := AddOne(s, e).value;
      assert RowKey(s'.events[|s.events|]) == KeyOf(e);
      assert View(s') == View(s) + [e];
    }
  }

  lemma {:induction false} DedupSnoc(v: seq<Event>, es: seq<Event>, e: Event)
    ensures Dedup(v, es + [e]) == Dedup(Dedup(v, es), [e])
  {
    assert (es + [e])[..|es|] == es;
    assert Dedup(Dedup(v, es), [e][..0]) == Dedup(v, es);
  }

  /** Over any batch: the tables keep agreeing, nothing is rolled back, and the join gains each new event once. */
  lemma {:induction false} AddAllAgrees(s: Store, es: seq<Event>)
    requires Agrees(s)
    ensures AddAll(s, es).Some? && Agrees(AddAll(s, es).value)
    ensures View(AddAll(s, es).value) == Dedup(View(s), es)
  {
    if es != [] {
      var init := es[..|es| - 1];
      AddAllAgrees(s, init);
      AddOneAgrees(AddAll(s, init).value, es[|es| - 1]);
      DedupSnoc(View(s), init, es[|es| - 1]);
      assert es == init + [es[|es| - 1]];
    }
  }

  // ---- Deleting ----

  function KeepRows(rows: seq<EventRow>, ids: set<nat>): seq<EventRow> {
    if rows == [] then []
    else KeepRows(rows[..|rows| - 1], ids) + if rows[|rows| - 1].id in ids then [] else [rows[|rows| - 1]]
  }

  function KeepRaws(raws: seq<RawRow>, ids: set<nat>): seq<RawRow> {
    if raws == [] then []
    else KeepRaws(raws[..|raws| - 1], ids) + if raws[|raws| - 1].rowid in ids then [] else [raws[|raws| - 1]]
  }

  function Delete(s: Store, ids: set<nat>): Store {
    Store(KeepRows(s.events, ids), s.lastId, KeepRaws(s.raws, ids))
  }

  lemma {:induction false} KeptRowsWhere(rows: seq<EventRow>, ids: set<nat>) returns (at: seq<nat>)
    ensures Selection(at, KeepRows(rows, ids), rows)
    ensures forall n :: 0 <= n < |rows| ==> (n in at <==> rows[n].id !in ids)
  {
    at := [];
    if rows != [] {
      var init, last := rows[..|rows| - 1], rows[|rows| - 1];
      at := KeptRowsWhere(init, ids);
      SelectionSnoc(at, KeepRows(init, ids), init, last);
      assert rows == init + [last];
      assert KeepRows(init, ids) + [] == KeepRows(init, ids);
      if last.id !in ids {
        at := at + [|init|];
      }
    }
  }

  lemma {:induction false} KeptRawsWhere(raws: seq<RawRow>, ids: set<nat>) returns (at: seq<nat>)
    ensures Selection(at, KeepRaws(raws, ids), raws)
    ensures forall n :: 0 <= n < |raws| ==> (n in at <==> raws[n].rowid !in ids)
  {
    at := [];
    if raws != [] {
      var init, last := raws[..|raws| - 1], raws[|raws| - 1];
      at := KeptRawsWhere(init, ids);
      SelectionSnoc(at, KeepRaws(init, ids), init, last);
      assert raws == init + [last];
      assert KeepRaws(init, ids) + [] == KeepRaws(init, ids);
      if last.rowid !in ids {
        at := at + [|init|];
      }
    }
  }

  /** A delete leaves, in both tables and in order, exactly the rows with other ids, and no id is used again. */
  lemma DeleteExactly(s: Store, ids: set<nat>)
    ensures Delete(s, ids).lastId == s.lastId
    ensures exists at :: Selection(at, Delete(s, ids).events, s.events) &&
              forall n :: 0 <= n < |s.events| ==> (n in at <==> s.events[n].id !in ids)
    ensures exists at :: Selection(at, Delete(s, ids).raws, s.raws) &&
              forall n :: 0 <= n < |s.raws| ==> (n in at <==> s.raws[n].rowid !in ids)
  {
    var rowsAt := KeptRowsWhere(s.events, ids);
    var rawsAt := KeptRawsWhere(s.raws, ids);
  }

  /** What is left of the join: the events whose id is not deleted. */
  function Remaining(s: Store, ids: set<nat>): seq<Event>
    requires |s.events| == |s.raws|
    decreases |s.events|
  {
    if s.events == [] then []
    else
      var n := |s.events| - 1;
      Remaining(Store(s.events[..n], s.lastId, s.raws[..n]), ids) +
      if s.events[n].id in ids then [] else [Joined(s.events[n], s.raws[n])]
  }

  lemma AgreesPrefix(s: Store, n: nat)
    requires Agrees(s) && n <= |s.events|
    ensures Agrees(Store(s.events[..n], s.lastId, s.raws[..n]))
  {
  }

  lemma {:induction false} KeptRowsFrom(rows: seq<EventRow>, ids: set<nat>, i: nat)
    requires i < |KeepRows(rows, ids)|
    ensures exists j :: 0 <= j < |rows| && rows[j] == KeepRows(rows, ids)[i] && rows[j].id !in ids
  {
    var n := |rows| - 1;
    var kept := KeepRows(rows[..n], ids);
    if i < |kept| {
      KeptRowsFrom(rows[..n], ids, i);
      var j :| 0 <= j < n && rows[..n][j] == kept[i] && rows[..n][j].id !in ids;
      assert rows[j] == KeepRows(rows, ids)[i];
    } else {
      assert rows[n] == KeepRows(rows, ids)[i];
    }
  }

  lemma AppendRow(s: Store, r: EventRow, w: RawRow)
    requires Agrees(s) && Pair(r, w) && 1 <= r.id <= s.lastId
    requires forall i :: 0 <= i < |s.events| ==> s.events[i].id < r.id && RowKey(s.events[i]) != RowKey(r)
    ensures Agrees(Store(s.events + [r], s.lastId, s.raws + [w]))
    ensures View(Store(s.events + [r], s.lastId, s.raws + [w])) == View(s) + [Joined(r, w)]
  {
  }

  lemma KeptBeforeLast(s: Store, ids: set<nat>)
    requires Agrees(s) && s.events != []
    ensures var n := |s.events| - 1;
            var kept := KeepRows(s.events[..n], ids);
            forall i :: 0 <= i < |kept| ==> kept[i].id < s.events[n].id && RowKey(kept[i]) != RowKey(s.events[n])
  {
    var n := |s.events| - 1;
    var kept := KeepRows(s.events[..n], ids);
    forall i | 0 <= i < |kept|
      ensures kept[i].id < s.events[n].id && RowKey(kept[i]) != RowKey(s.events[n])
    {
      KeptRowsFrom(s.events[..n], ids, i);
    }
  }

  lemma LastPair(s: Store)
    requires Agrees(s) && s.events != []
    ensures var n := |s.events| - 1;
            |s.raws| == n + 1 && Pair(s.events[n], s.raws[n]) && s.events[n].id == s.raws[n].rowid &&
              1 <= s.events[n].id <= s.lastId
  {
  }

  lemma DeleteStep(s: Store, ids: set<nat>, n: nat)
    requires |s.events| == |s.raws| == n + 1 && s.events[n].id == s.raws[n].rowid
    ensures var kept := Delete(Store(s.events[..n], s.lastId, s.raws[..n]), ids);
            Delete(s, ids) ==
            if s.events[n].id in ids then kept
            else Store(kept.events + [s.events[n]], s.lastId, kept.raws + [s.raws[n]])
  {
    var kept := Delete(Store(s.events[..n], s.lastId, s.raws[..n]), ids);
    assert kept.events + [] == kept.events && kept.raws + [] == kept.raws;
  }

  /** Deleting by id removes the same rows from both tables. */
  lemma {:induction false} DeleteAgrees(s: Store, ids: set<nat>)
    requires Agrees(s)
    ensures Agrees(Delete(s, ids))
    ensures View(Delete(s, ids)) == Remaining(s, ids)
    decreases |s.events|
  {
    hide Agrees, View, Pair, Delete, RowKey;
    AgreesShape(s);
    if s.events == [] {
      DeleteEmpty(s, ids);
    } else {
      var n := |s.events| - 1;
      var init := Store(s.events[..n], s.lastId, s.raws[..n]);
      LastPair(s);
      AgreesPrefix(s, n);
      DeleteAgrees(init, ids);
      DeleteStep(s, ids, n);
      var kept := Delete(init, ids);
      if s.events[n].id in ids {
        assert Remaining(init, ids) + [] == Remaining(init, ids);
      } else {
        KeptBeforeLast(s, ids);
        DeleteKeeps(init, ids);
        AppendRow(kept, s.events[n], s.raws[n]);
      }
    }
  }

  lemma AgreesShape(s: Store)
    requires Agrees(s)
    ensures |s.events| == |s.raws|
  {
  }

  lemma DeleteKeeps(s: Store, ids: set<nat>)
    ensures Delete(s, ids).events == KeepRows(s.events, ids) && Delete(s, ids).lastId == s.lastId
  {
  }

  lemma DeleteEmpty(s: Store, ids: set<nat>)
    requires s.events == [] && s.raws == []
    ensures Agrees(Delete(s, ids)) && View(Delete(s, ids)) == []
  {
  }

  // ---- Any history of one-by-one batches and deletes ----

  datatype Op = AddBatch(events: seq<Event>) | DeleteBatch(ids: set<nat>)

  function Apply(s: Store, op: Op): Option<Store> {
    match op
    case AddBatch(es) => AddAll(s, es)
    case DeleteBatch(ids) => Some(Delete(s, ids))
  }

  function History(ops: seq<Op>): Option<Store> {
    if ops == [] then Some(EMPTY)
    else match History(ops[..|ops| - 1])
      case None => None
      case Some(s) => Apply(s, ops[|ops| - 1])
  }

  /** No history makes the tables disagree or a transaction fail. */
  lemma {:induction false} HistoryAgrees(ops: seq<Op>)
    ensures History(ops).Some? && Agrees(History(ops).value)
  {
    if ops != [] {
      HistoryAgrees(ops[..|ops| - 1]);
      var s := History(ops[..|ops| - 1]).value;
      match ops[|ops| - 1]
      case AddBatch(es) => AddAllAgrees(s, es);
      case DeleteBatch(ids) => DeleteAgrees(s, ids);
    }
  }

  /** What a history amounts to, without tables: every id with the event that it was given to. */
  datatype Entry = Entry(id: nat, event: Event)
  datatype Ledger = Ledger(entries: seq<Entry>, lastId: nat)

  predicate Known(entries: seq<Entry>, k: Key) {
    exists i :: 0 <= i < |entries| && KeyOf(entries[i].event) == k
  }

  function Record(l: Ledger, es: seq<Event>): Ledger {
    if es == [] then l
    else
      var before, e := Record(l, es[..|es| - 1]), es[|es| - 1];
      if Known(before.entries, KeyOf(e)) then before
      else Ledger(before.entries + [Entry(before.lastId + 1, e)], before.lastId + 1)
  }

  function Strike(entries: seq<Entry>, ids: set<nat>): seq<Entry> {
    if entries == [] then []
    else
      var last := entries[|entries| - 1];
      Strike(entries[..|entries| - 1], ids) + if last.id in ids then [] else [last]
  }

  function LedgerOf(ops: seq<Op>): Ledger {
    if ops == [] then Ledger([], 0)
    else
      var l := LedgerOf(ops[..|ops| - 1]);
      match ops[|ops| - 1]
      case AddBatch(es) => Record(l, es)
      case DeleteBatch(ids) => l.(entries := Strike(l.entries, ids))
  }

  /** The two tables that hold a ledger: each id with the columns and with the text of its own event. */
  function EventRows(entries: seq<Entry>): (r: seq<EventRow>)
    ensures |r| == |entries|
  {
    seq(|entries|, i requires 0 <= i < |entries| => RowFor(entries[i].id, entries[i].event))
  }

  function RawRows(entries: seq<Entry>): (r: seq<RawRow>)
    ensures |r| == |entries|
  {
    seq(|entries|, i requires 0 <= i < |entries| => RawFor(entries[i].id, entries[i].event))
  }

  function TablesOf(l: Ledger): Store {
    Store(EventRows(l.entries), l.lastId, RawRows(l.entries))
  }

  predicate IdsUsed(l: Ledger) {
    forall i :: 0 <= i < |l.entries| ==> 1 <= l.entries[i].id <= l.lastId
  }

  lemma KnownKeys(entries: seq<Entry>, k: Key)
    ensures Known(entries, k) <==> HasKey(EventRows(entries), k)
  {
    forall i | 0 <= i < |entries|
      ensures RowKey(EventRows(entries)[i]) == KeyOf(entries[i].event)
    {
    }
    if Known(entries, k) {
      var i :| 0 <= i < |entries| && KeyOf(entries[i].event) == k;
      assert RowKey(EventRows(entries)[i]) == k;
    }
  }

  lemma AddOneRecords(l: Ledger, e: Event)
    requires IdsUsed(l)
    ensures var l' := if Known(l.entries, KeyOf(e)) then l
      else Ledger(l.entries + [Entry(l.lastId + 1, e)], l.lastId + 1);
            AddOne(TablesOf(l), e) == Some(TablesOf(l')) && IdsUsed(l')
  {
    KnownKeys(l.entries, KeyOf(e));
    if !Known(l.entries, KeyOf(e)) {
      var more := l.entries + [Entry(l.lastId + 1, e)];
      assert EventRows(more) == EventRows(l.entries) + [RowFor(l.lastId + 1, e)];
      assert RawRows(more) == RawRows(l.entries) + [RawFor(l.lastId + 1, e)];
      forall i | 0 <= i < |l.entries|
        ensures RawRows(l.entries)[i].rowid != l.lastId + 1
      {
      }
    }
  }

  lemma {:induction false} AddAllRecords(l: Ledger, es: seq<Event>)
    requires IdsUsed(l)
    ensures AddAll(TablesOf(l), es) == Some(TablesOf(Record(l, es))) && IdsUsed(Record(l, es))
  {
    if es != [] {
      AddAllRecords(l, es[..|es| - 1]);
      AddOneRecords(Record(l, es[..|es| - 1]), es[|es| - 1]);
    }
  }

  lemma {:induction false} DeleteStrikes(entries: seq<Entry>, ids: set<nat>)
    ensures KeepRows(EventRows(entries), ids) == EventRows(Strike(entries, ids))
    ensures KeepRaws(RawRows(entries), ids) == RawRows(Strike(entries, ids))
    ensures forall e :: e in Strike(entries, ids) ==> e in entries && e.id !in ids
  {
    if entries != [] {
      var n := |entries| - 1;
      DeleteStrikes(entries[..n], ids);
      assert EventRows(entries)[..n] == EventRows(entries[..n]);
      assert RawRows(entries)[..n] == RawRows(entries[..n]);
      var kept := Strike(entries[..n], ids);
      if entries[n].id in ids {
        assert kept + [] == kept;
      } else {
        assert EventRows(kept + [entries[n]]) == EventRows(kept) + [EventRows(entries)[n]];
        assert RawRows(kept + [entries[n]]) == RawRows(kept) + [RawRows(entries)[n]];
      }
    }
  }

  /** After any history the tables hold exactly the ledger: every id with the columns of its event in one table and
      with that event's own text in the other, whatever was deleted and added again in between. */
  lemma {:induction false} HistoryIsLedger(ops: seq<Op>)
    ensures History(ops) == Some(TablesOf(LedgerOf(ops)))
    ensures IdsUsed(LedgerOf(ops))
  {
    if ops != [] {
      var l := LedgerOf(ops[..|ops| - 1]);
      HistoryIsLedger(ops[..|ops| - 1]);
      match ops[|ops| - 1]
      case AddBatch(es) => AddAllRecords(l, es);
      case DeleteBatch(ids) =>
        DeleteStrikes(l.entries, ids);
        forall i | 0 <= i < |Strike(l.entries, ids)|
          ensures 1 <= Strike(l.entries, ids)[i].id <= l.lastId
        {
          assert Strike(l.entries, ids)[i] in l.entries;
        }
    }
  }

  /** Every event in the tables came with one of the batches. */
  predicate AddedBy(ops: seq<Op>, e: Event) {
    exists n :: 0 <= n < |ops| && ops[n].AddBatch? && e in ops[n].events
  }

  lemma {:induction false} RecordedFrom(l: Ledger, es: seq<Event>, x: Entry)
    requires x in Record(l, es).entries
    ensures x in l.entries || x.event in es
  {
    if es != [] {
      var init := es[..|es| - 1];
      if x in Record(l, init).entries {
        RecordedFrom(l, init, x);
      }
    }
  }

  lemma {:induction false} NothingInvented(ops: seq<Op>, x: Entry)
    requires x in LedgerOf(ops).entries
    ensures AddedBy(ops, x.event)
  {
    var init, n := ops[..|ops| - 1], |ops| - 1;
    var l := LedgerOf(init);
    match ops[n] {
      case AddBatch(es) => RecordedFrom(l, es, x);
      case DeleteBatch(ids) => DeleteStrikes(l.entries, ids);
    }
    if x in l.entries {
      NothingInvented(init, x);
      var k :| 0 <= k < |init| && init[k].AddBatch? && x.event in init[k].events;
      assert ops[k] == init[k];
    }
  }

  // ---- The tables column by column ----

  /** The event has the host, source, timestamp and offset of one of the rows or of one of the events. */
  ghost predicate Repeats(e: Event, rows: seq<EventRow>, es: seq<Event>) {
    || (exists r :: r in rows && r.host == e.host && r.source == e.source && r.timestamp == e.timestamp &&
          r.offset == e.offset)
    || (exists x :: x in es && x.host == e.host && x.source == e.source && x.timestamp == e.timestamp &&
          x.offset == e.offset)
  }

  /** The positions of the events of a batch that repeat no row and no earlier event of the batch. */
  ghost predicate FirstArrivals(at: seq<nat>, rows: seq<EventRow>, es: seq<Event>) {
    && (forall i, j :: 0 <= i < j < |at| ==> at[i] < at[j])
    && (forall i :: 0 <= i < |at| ==> at[i] < |es|)
    && (forall n :: 0 <= n < |es| ==> (n in at <==> !Repeats(es[n], rows, es[..n])))
  }

  /** More rows behind the old ones: for each of these events one with its columns, under the given id. */
  ghost predicate RowsAdded(after: seq<EventRow>, rows: seq<EventRow>, ids: seq<nat>, at: seq<nat>, es: seq<Event>)
    requires forall i :: 0 <= i < |at| ==> at[i] < |es|
  {
    && rows <= after && |after| - |rows| == |ids| == |at|
    && forall i :: 0 <= i < |at| ==>
         after[|rows| + i] == EventRow(ids[i], es[at[i]].host, es[at[i]].source, es[at[i]].sourceId,
                                       es[at[i]].timestamp, es[at[i]].offset)
  }

  ghost predicate RawsAdded(after: seq<RawRow>, raws: seq<RawRow>, ids: seq<nat>, at: seq<nat>, es: seq<Event>)
    requires forall i :: 0 <= i < |at| ==> at[i] < |es|
  {
    && raws <= after && |after| - |raws| == |ids| == |at|
    && forall i :: 0 <= i < |at| ==>
         after[|raws| + i] == RawRow(ids[i], es[at[i]].raw, es[at[i]].source, es[at[i]].host)
  }

  /** Consecutive ids after the last one. */
  function NextIds(lastId: nat, count: nat): (r: seq<nat>)
    ensures |r| == count && forall i :: 0 <= i < count ==> r[i] == lastId + 1 + i
  {
    seq(count, i => lastId + 1 + i)
  }

  /** The ids of the attempted rows at some positions of a batch. */
  function IdsAt(lastId: nat, at: seq<nat>): (r: seq<nat>)
    ensures |r| == |at| && forall i :: 0 <= i < |at| ==> r[i] == lastId + 1 + at[i]
  {
    seq(|at|, i requires 0 <= i < |at| => lastId + 1 + at[i])
  }

  lemma RowsLike(rows: seq<EventRow>, e: Event)
    ensures HasKey(rows, KeyOf(e)) <==> exists r ::
      r in rows && r.host == e.host && r.source == e.source && r.timestamp == e.timestamp && r.offset == e.offset
  {
    if HasKey(rows, KeyOf(e)) {
      var i :| 0 <= i < |rows| && RowKey(rows[i]) == KeyOf(e);
      assert rows[i] in rows;
    }
    forall r | r in rows && RowKey(r) == KeyOf(e)
      ensures HasKey(rows, KeyOf(e))
    {
      var i :| 0 <= i < |rows| && rows[i] == r;
    }
  }

  lemma RepeatsIff(rows: seq<EventRow>, es: seq<Event>, e: Event)
    ensures Repeats(e, rows, es) <==> HasKey(rows, KeyOf(e)) || exists x :: x in es && KeyOf(x) == KeyOf(e)
  {
    RowsLike(rows, e);
  }

  /** One event on any tables: a repeat changes nothing, a rowid that is taken is an error, and otherwise each table
      gets a row under the next id. */
  lemma AddOneExactly(s: Store, e: Event)
    ensures Repeats(e, s.events, []) ==> AddOne(s, e) == Some(s)
    ensures !Repeats(e, s.events, []) && (exists w :: w in s.raws && w.rowid == s.lastId + 1) ==> AddOne(s, e).None?
    ensures !Repeats(e, s.events, []) && (forall w :: w in s.raws ==> w.rowid != s.lastId + 1) ==>
      AddOne(s, e) == Some(Store(
        s.events + [EventRow(s.lastId + 1, e.host, e.source, e.sourceId, e.timestamp, e.offset)],
        s.lastId + 1,
        s.raws + [RawRow(s.lastId + 1, e.raw, e.source, e.host)]))
  {
    RepeatsIff(s.events, [], e);
    if HasRowid(s.raws, s.lastId + 1) {
      var i :| 0 <= i < |s.raws| && s.raws[i].rowid == s.lastId + 1;
      assert s.raws[i] in s.raws;
    }
    forall w | w in s.raws && w.rowid == s.lastId + 1
      ensures HasRowid(s.raws, s.lastId + 1)
    {
      var i :| 0 <= i < |s.raws| && s.raws[i] == w;
    }
  }

  lemma ArrivalStep(at: seq<nat>, rows: seq<EventRow>, es: seq<Event>, e: Event)
    requires FirstArrivals(at, rows, es)
    ensures FirstArrivals(if Repeats(e, rows, es) then at else at + [|es|], rows, es + [e])
  {
    hide Repeats;
    var all := es + [e];
    assert |es| !in at;
    assert all[..|es|] == es;
    forall n | 0 <= n < |es|
      ensures all[n] == es[n] && all[..n] == es[..n]
    {
    }
  }

  lemma RowsSnoc(after: seq<EventRow>, rows: seq<EventRow>, ids: seq<nat>, at: seq<nat>, es: seq<Event>, e: Event,
                 id: nat)
    requires forall i :: 0 <= i < |at| ==> at[i] < |es|
    requires RowsAdded(after, rows, ids, at, es)
    ensures RowsAdded(after, rows, ids, at, es + [e])
    ensures RowsAdded(after + [RowFor(id, e)], rows, ids + [id], at + [|es|], es + [e])
  {
  }

  lemma RawsSnoc(after: seq<RawRow>, raws: seq<RawRow>, ids: seq<nat>, at: seq<nat>, es: seq<Event>, e: Event, id: nat)
    requires forall i :: 0 <= i < |at| ==> at[i] < |es|
    requires RawsAdded(after, raws, ids, at, es)
    ensures RawsAdded(after, raws, ids, at, es + [e])
    ensures RawsAdded(after + [RawFor(id, e)], raws, ids + [id], at + [|es|], es + [e])
  {
  }

  /** The keys after a batch are those before it and those of its events. */
  lemma {:induction false} KeysAfter(s: Store, es: seq<Event>, k: Key)
    requires AddAll(s, es).Some?
    ensures HasKey(AddAll(s, es).value.events, k) <==> HasKey(s.events, k) || exists x :: x in es && KeyOf(x) == k
  {
    if es != [] {
      var init, e := es[..|es| - 1], es[|es| - 1];
      KeysAfter(s, init, k);
      KeysAfterOne(AddAll(s, init).value, e, k);
      assert es == init + [e];
    }
  }

  lemma KeysWithRow(rows: seq<EventRow>, id: nat, e: Event, k: Key)
    ensures HasKey(rows + [RowFor(id, e)], k) <==> HasKey(rows, k) || KeyOf(e) == k
  {
    var more := rows + [RowFor(id, e)];
    assert RowKey(more[|rows|]) == KeyOf(e);
    if HasKey(rows, k) {
      var i :| 0 <= i < |rows| && RowKey(rows[i]) == k;
      assert RowKey(more[i]) == k;
    }
  }

  lemma KeysAfterOne(s: Store, e: Event, k: Key)
    requires AddOne(s, e).Some?
    ensures HasKey(AddOne(s, e).value.events, k) <==> HasKey(s.events, k) || KeyOf(e) == k
  {
    KeysWithRow(s.events, s.lastId + 1, e, k);
  }

  lemma NoArrivals(rows: seq<EventRow>, raws: seq<RawRow>, lastId: nat)
    ensures FirstArrivals([], rows, []) && RowsAdded(rows, rows, [], [], []) && RawsAdded(raws, raws, [], [], [])
    ensures NextIds(lastId, 0) == [] && IdsAt(lastId, []) == []
  {
  }

  lemma AddedRow(s: Store, e: Event)
    requires AddOne(s, e).Some?
    ensures AddOne(s, e).value ==
            if HasKey(s.events, KeyOf(e)) then s
            else Store(s.events + [RowFor(s.lastId + 1, e)], s.lastId + 1, s.raws + [RawFor(s.lastId + 1, e)])
  {
  }

  /** t are the tables s with the first arrivals among some events added under the next ids. */
  ghost predicate HasArrivals(t: Store, s: Store, at: seq<nat>, es: seq<Event>) {
    && (forall i :: 0 <= i < |at| ==> at[i] < |es|)
    && FirstArrivals(at, s.events, es)
    && t.lastId == s.lastId + |at|
    && RowsAdded(t.events, s.events, NextIds(s.lastId, |at|), at, es)
    && RawsAdded(t.raws, s.raws, NextIds(s.lastId, |at|), at, es)
  }

  ghost predicate IsAdded(t: Store, s: Store, es: seq<Event>) {
    exists at :: HasArrivals(t, s, at, es)
  }

  lemma NothingArrived(s: Store)
    ensures HasArrivals(s, s, [], [])
  {
    NoArrivals(s.events, s.raws, s.lastId);
  }

  lemma NextArrival(t: Store, s: Store, at: seq<nat>, es: seq<Event>, e: Event)
    requires HasArrivals(t, s, at, es) && AddOne(t, e).Some?
    requires HasKey(t.events, KeyOf(e)) <==> Repeats(e, s.events, es)
    ensures HasArrivals(AddOne(t, e).value, s, if Repeats(e, s.events, es) then at else at + [|es|], es + [e])
  {
    hide AddOne, FirstArrivals, RowsAdded, RawsAdded, HasKey, Repeats, RowFor, RawFor, KeyOf;
    var ids := NextIds(s.lastId, |at|);
    AddedRow(t, e);
    ArrivalStep(at, s.events, es, e);
    RowsSnoc(t.events, s.events, ids, at, es, e, t.lastId + 1);
    RawsSnoc(t.raws, s.raws, ids, at, es, e, t.lastId + 1);
    assert NextIds(s.lastId, |at| + 1) == ids + [t.lastId + 1];
  }

  /** One by one, the first arrivals get consecutive ids. */
  lemma {:induction false} AddAllWhere(s: Store, es: seq<Event>) returns (at: seq<nat>)
    requires AddAll(s, es).Some?
    ensures HasArrivals(AddAll(s, es).value, s, at, es)
  {
    hide AddOne, HasArrivals, HasKey, Repeats, FirstArrivals, RowsAdded, RawsAdded, KeyOf;
    at := [];
    if es == [] {
      NothingArrived(s);
    } else {
      var init, e := es[..|es| - 1], es[|es| - 1];
      at := AddAllWhere(s, init);
      var t := AddAll(s, init).value;
      KeysAfter(s, init, KeyOf(e));
      RepeatsIff(s.events, init, e);
      NextArrival(t, s, at, init, e);
      assert es == init + [e];
      if !Repeats(e, s.events, init) {
        at := at + [|init|];
      }
    }
  }

  /** Any batch on tables that agree: exactly the events that repeat neither a row nor an earlier event of the batch get
      a row in each table, in order and under the next ids, with their own columns and their own text. */
  lemma AddAllExactly(s: Store, es: seq<Event>)
    requires Agrees(s)
    ensures AddAll(s, es).Some?
    ensures IsAdded(AddAll(s, es).value, s, es)
  {
    AddAllAgrees(s, es);
    var at := AddAllWhere(s, es);
  }

  /** One more event at the end of a batch changes the join if and only if nothing stored, and nothing before it in the
      batch, has its host, source, timestamp and offset. */
  lemma AddedIff(s: Store, es: seq<Event>, e: Event)
    requires Agrees(s)
    ensures AddAll(s, es).Some? && AddAll(s, es + [e]).Some?
    ensures var before, after := AddAll(s, es).value, AddAll(s, es + [e]).value;
            && |before.events| == |before.raws| && |after.events| == |after.raws|
            && View(after) == (if Repeats(e, s.events, es) then View(before) else View(before) + [e])
  {
    var all := es + [e];
    assert all[..|all| - 1] == es;
    AddAllAgrees(s, es);
    AddAllAgrees(s, all);
    KeysAfter(s, es, KeyOf(e));
    RepeatsIff(s.events, es, e);
    KeysInView(AddAll(s, es).value, KeyOf(e));
  }

  /** Whatever was added and deleted, no two rows have the same host, source, timestamp and offset. */
  lemma NoTwoRowsAlike(ops: seq<Op>)
    ensures History(ops).Some?
    ensures forall i, j :: 0 <= i < j < |History(ops).value.events| ==>
      var a, b := History(ops).value.events[i], History(ops).value.events[j];
      a.host != b.host || a.source != b.source || a.timestamp != b.timestamp || a.offset != b.offset
  {
    HistoryAgrees(ops);
    var rows := History(ops).value.events;
    forall i, j | 0 <= i < j < |rows|
      ensures RowKey(rows[i]) != RowKey(rows[j])
    {
    }
  }

  // ---- The whole batch in two statements ----

  /** INSERT OR IGNORE of the first n events: every attempted row takes an id, and the duplicates are left out. */
  function InsertOrIgnore(events: seq<EventRow>, lastId: nat, es: seq<Event>, n: nat): seq<EventRow>
    requires n <= |es|
  {
    if n == 0 then events
    else
      var before := InsertOrIgnore(events, lastId, es, n - 1);
      if HasKey(before, KeyOf(es[n - 1])) then before else before + [RowFor(lastId + n, es[n - 1])]
  }

  lemma {:induction false} KeysAfterInsert(rows: seq<EventRow>, lastId: nat, es: seq<Event>, n: nat, k: Key)
    requires n <= |es|
    ensures HasKey(InsertOrIgnore(rows, lastId, es, n), k) <==>
            HasKey(rows, k) || exists x :: x in es[..n] && KeyOf(x) == k
    decreases n
  {
    if n > 0 {
      KeysAfterInsert(rows, lastId, es, n - 1, k);
      KeysWithRow(InsertOrIgnore(rows, lastId, es, n - 1), lastId + n, es[n - 1], k);
      assert es[..n] == es[..n - 1] + [es[n - 1]];
    }
  }

  /** In the bulk insert the first arrivals get the ids of their places in the batch. */
  lemma {:induction false} InsertWhere(rows: seq<EventRow>, lastId: nat, es: seq<Event>, n: nat)
    returns (at: seq<nat>)
    requires n <= |es|
    ensures (forall i :: 0 <= i < |at| ==> at[i] < n) && FirstArrivals(at, rows, es[..n])
    ensures RowsAdded(InsertOrIgnore(rows, lastId, es, n), rows, IdsAt(lastId, at), at, es[..n])
    decreases n
  {
    hide FirstArrivals, RowsAdded, HasKey, Repeats, RowFor, KeyOf, IdsAt;
    at := [];
    if n == 0 {
      NoArrivals(rows, [], lastId);
      assert es[..n] == [];
    } else {
      var init, e := es[..n - 1], es[n - 1];
      at := InsertWhere(rows, lastId, es, n - 1);
      var before := InsertOrIgnore(rows, lastId, es, n - 1);
      KeysAfterInsert(rows, lastId, es, n - 1, KeyOf(e));
      RepeatsIff(rows, init, e);
      ArrivalStep(at, rows, init, e);
      RowsSnoc(before, rows, IdsAt(lastId, at), at, init, e, lastId + n);
      assert es[..n] == init + [e];
      assert IdsAt(lastId, at + [|init|]) == IdsAt(lastId, at) + [lastId + n];
      if !HasKey(before, KeyOf(e)) {
        at := at + [|init|];
      }
    }
  }

  /** The first arrivals of the batch are added under the ids of their places in it. */
  ghost predicate IsInserted(after: seq<EventRow>, rows: seq<EventRow>, lastId: nat, es: seq<Event>) {
    exists at :: FirstArrivals(at, rows, es) && RowsAdded(after, rows, IdsAt(lastId, at), at, es)
  }

  lemma InsertedExactly(rows: seq<EventRow>, lastId: nat, es: seq<Event>)
    ensures IsInserted(InsertOrIgnore(rows, lastId, es, |es|), rows, lastId, es)
  {
    var at := InsertWhere(rows, lastId, es, |es|);
    assert es[..|es|] == es;
  }

  /** INSERT INTO EventRaws: consecutive rowids after the largest one. */
  function InsertRaws(raws: seq<RawRow>, es: seq<Event>): (r: seq<RawRow>)
    ensures |r| == |raws| + |es|
  {
    raws + seq(|es|, k requires 0 <= k < |es| => RawFor(MaxRowid(raws) + k + 1, es[k]))
  }

  /** The condition of the clean-up statement. */
  predicate Orphan(w: RawRow, events: seq<EventRow>, low: nat, high: nat) {
    && !HasId(events, w.rowid)
    && low < w.rowid <= high
    && events != [] && w.rowid != events[|events| - 1].id
  }

  function DropOrphans(raws: seq<RawRow>, events: seq<EventRow>, low: nat, high: nat): seq<RawRow> {
    if raws == [] then []
    else
      var last := raws[|raws| - 1];
      DropOrphans(raws[..|raws| - 1], events, low, high) + if Orphan(last, events, low, high) then [] else [last]
  }

  lemma {:induction false} CleanedWhere(raws: seq<RawRow>, events: seq<EventRow>, low: nat, high: nat)
    returns (at: seq<nat>)
    ensures Selection(at, DropOrphans(raws, events, low, high), raws)
    ensures forall n :: 0 <= n < |raws| ==> (n in at <==> !Orphan(raws[n], events, low, high))
  {
    hide Orphan;
    at := [];
    if raws != [] {
      var init, last := raws[..|raws| - 1], raws[|raws| - 1];
      at := CleanedWhere(init, events, low, high);
      SelectionSnoc(at, DropOrphans(init, events, low, high), init, last);
      assert raws == init + [last];
      assert DropOrphans(init, events, low, high) + [] == DropOrphans(init, events, low, high);
      if !Orphan(last, events, low, high) {
        at := at + [|init|];
      }
    }
  }

  lemma OrphanIff(w: RawRow, events: seq<EventRow>, low: nat, high: nat)
    ensures Orphan(w, events, low, high) <==>
            low < w.rowid <= high && events != [] && forall r :: r in events ==> r.id != w.rowid
  {
    if HasId(events, w.rowid) {
      var i :| 0 <= i < |events| && events[i].id == w.rowid;
      assert events[i] in events;
    } else {
      forall r | r in events
        ensures r.id != w.rowid
      {
        var i :| 0 <= i < |events| && events[i] == r;
      }
    }
  }

  /** All raw rows are left, in order, but those in the range whose number no event has. */
  ghost predicate IsCleaned(after: seq<RawRow>, raws: seq<RawRow>, events: seq<EventRow>, low: nat, high: nat) {
    exists at :: Selection(at, after, raws) && forall n ::
      0 <= n < |raws| ==>
        (n !in at <==> low < raws[n].rowid <= high && events != [] && forall r :: r in events ==> r.id != raws[n].rowid)
  }

  lemma CleanedExactly(raws: seq<RawRow>, events: seq<EventRow>, low: nat, high: nat)
    ensures IsCleaned(DropOrphans(raws, events, low, high), raws, events, low, high)
  {
    hide Orphan, DropOrphans, Selection;
    var at := CleanedWhere(raws, events, low, high);
    forall n | 0 <= n < |raws|
      ensures n !in at <==> low < raws[n].rowid <= high && events != [] &&
                            forall r :: r in events ==> r.id != raws[n].rowid
    {
      OrphanIff(raws[n], events, low, high);
    }
  }

  /** An empty batch is a syntax error in SQL. */
  function AddTrueBatch(s: Store, es: seq<Event>): Option<Store> {
    if es == [] then None
    else
      var low := MaxRowid(s.raws);
      var events := InsertOrIgnore(s.events, s.lastId, es, |es|);
      Some(Store(events, s.lastId + |es|, DropOrphans(InsertRaws(s.raws, es), events, low, low + |es|)))
  }

  lemma MaxRowidIsLargest(s: Store)
    requires Agrees(s)
    ensures s.raws == [] ==> MaxRowid(s.raws) == 0
    ensures s.raws != [] ==> exists w :: w in s.raws && w.rowid == MaxRowid(s.raws)
    ensures forall w :: w in s.raws ==> w.rowid <= MaxRowid(s.raws)
  {
    RowidsBounded(s);
    assert s.raws != [] ==> s.raws[|s.raws| - 1] in s.raws;
    forall w | w in s.raws
      ensures w.rowid <= MaxRowid(s.raws)
    {
      var i :| 0 <= i < |s.raws| && s.raws[i] == w;
    }
  }

  /** The next ids of the two tables are the same. */
  predicate Aligned(s: Store) {
    MaxRowid(s.raws) == s.lastId
  }

  /** A row with a given new id, unless it is a duplicate. */
  function AddAt(s: Store, id: nat, e: Event): Store {
    if HasKey(s.events, KeyOf(e)) then s.(lastId := id)
    else Store(s.events + [RowFor(id, e)], id, s.raws + [RawFor(id, e)])
  }

  /** The store after the first n rows of a batch, if each raw row were dropped at once. */
  function Partial(s: Store, es: seq<Event>, n: nat): Store
    requires n <= |es|
    decreases n
  {
    if n == 0 then s else AddAt(Partial(s, es, n - 1), s.lastId + n, es[n - 1])
  }

  lemma AgreesMore(s: Store, lastId: nat)
    requires Agrees(s) && s.lastId <= lastId
    ensures Agrees(s.(lastId := lastId)) && View(s.(lastId := lastId)) == View(s)
  {
  }

  lemma AddAtAgrees(s: Store, id: nat, e: Event)
    requires Agrees(s) && s.lastId < id
    ensures Agrees(AddAt(s, id, e))
    ensures View(AddAt(s, id, e)) == Dedup(View(s), [e])
  {
    AgreesMore(s, id);
    KeysInView(s, KeyOf(e));
    assert Dedup(View(s), [e][..0]) == View(s);
    if !HasKey(s.events, KeyOf(e)) {
      forall i | 0 <= i < |s.events|
        ensures RowKey(s.events[i]) != RowKey(RowFor(id, e))
      {
      }
      AppendRow(s.(lastId := id), RowFor(id, e), RawFor(id, e));
      assert Joined(RowFor(id, e), RawFor(id, e)) == e;
    }
  }

  lemma {:induction false} PartialEvents(s: Store, es: seq<Event>, n: nat)
    requires n <= |es|
    ensures Partial(s, es, n).lastId == s.lastId + n
    ensures Partial(s, es, n).events == InsertOrIgnore(s.events, s.lastId, es, n)
    decreases n
  {
    if n > 0 {
      PartialEvents(s, es, n - 1);
    }
  }

  lemma AddAtStep(before: Store, id: nat, e: Event, v: seq<Event>, init: seq<Event>)
    requires Agrees(before) && before.lastId < id && View(before) == Dedup(v, init)
    ensures Agrees(AddAt(before, id, e)) && View(AddAt(before, id, e)) == Dedup(v, init + [e])
  {
    AddAtAgrees(before, id, e);
    DedupSnoc(v, init, e);
  }

  lemma {:induction false} PartialAgrees(s: Store, es: seq<Event>, n: nat)
    requires Agrees(s) && n <= |es|
    ensures Agrees(Partial(s, es, n))
    ensures View(Partial(s, es, n)) == Dedup(View(s), es[..n])
    decreases n
  {
    hide AddAt;
    if n == 0 {
      assert es[..0] == [];
    } else {
      PartialAgrees(s, es, n - 1);
      PartialEvents(s, es, n - 1);
      AddAtStep(Partial(s, es, n - 1), s.lastId + n, es[n - 1], View(s), es[..n - 1]);
      assert es[..n] == es[..n - 1] + [es[n - 1]];
    }
  }

  lemma {:induction false} PartialKeepsRows(s: Store, es: seq<Event>, m: nat, n: nat)
    requires m <= n <= |es|
    ensures Partial(s, es, m).events <= Partial(s, es, n).events
    decreases n
  {
    if m < n {
      PartialKeepsRows(s, es, m, n - 1);
    }
  }

  lemma {:induction false} LaterIds(s: Store, es: seq<Event>, k: nat, n: nat, i: nat)
    requires Agrees(s) && k <= n <= |es|
    requires |Partial(s, es, k).events| <= i < |Partial(s, es, n).events|
    ensures Partial(s, es, n).events[i].id > s.lastId + k
    decreases n
  {
    if k < n {
      PartialKeepsRows(s, es, n - 1, n);
      if i < |Partial(s, es, n - 1).events| {
        LaterIds(s, es, k, n - 1, i);
      }
    }
  }

  /** A batch id is in the final table exactly if its row was inserted. */
  lemma BatchIds(s: Store, es: seq<Event>, n: nat, k: nat)
    requires Agrees(s) && 1 <= k <= n <= |es|
    ensures HasId(Partial(s, es, n).events, s.lastId + k) <==>
            !HasKey(Partial(s, es, k - 1).events, KeyOf(es[k - 1]))
  {
    var before, mid, after := Partial(s, es, k - 1), Partial(s, es, k), Partial(s, es, n);
    PartialKeepsRows(s, es, k, n);
    PartialAgrees(s, es, k - 1);
    PartialEvents(s, es, k - 1);
    if !HasKey(before.events, KeyOf(es[k - 1])) {
      assert after.events[|before.events|] == mid.events[|before.events|] == RowFor(s.lastId + k, es[k - 1]);
    } else {
      forall i | 0 <= i < |after.events|
        ensures after.events[i].id != s.lastId + k
      {
        if i < |mid.events| {
          assert after.events[i] == mid.events[i] == before.events[i];
        } else {
          LaterIds(s, es, k, n, i);
        }
      }
    }
  }

  lemma BatchNotEmpty(s: Store, es: seq<Event>)
    requires es != []
    ensures Partial(s, es, |es|).events != []
  {
    PartialKeepsRows(s, es, 1, |es|);
    assert Partial(s, es, 0) == s;
    assert s.events == [] ==> !HasKey(s.events, KeyOf(es[0]));
  }

  lemma {:induction false} DropNothing(raws: seq<RawRow>, events: seq<EventRow>, low: nat, high: nat)
    requires forall i :: 0 <= i < |raws| ==> raws[i].rowid <= low
    ensures DropOrphans(raws, events, low, high) == raws
  {
    if raws != [] {
      DropNothing(raws[..|raws| - 1], events, low, high);
    }
  }

  lemma RowidsBounded(s: Store)
    requires Agrees(s)
    ensures forall i :: 0 <= i < |s.raws| ==> s.raws[i].rowid <= MaxRowid(s.raws) <= s.lastId
  {
    forall i | 0 <= i < |s.raws|
      ensures s.raws[i].rowid <= MaxRowid(s.raws) <= s.lastId
    {
      assert Pair(s.events[i], s.raws[i]) && Pair(s.events[|s.raws| - 1], s.raws[|s.raws| - 1]);
    }
  }

  /** Of the raw rows of a batch the clean-up drops exactly those of duplicates. */
  lemma OrphansAreDuplicates(s: Store, es: seq<Event>, n: nat)
    requires Agrees(s) && 1 <= n <= |es|
    ensures Orphan(RawFor(s.lastId + n, es[n - 1]), Partial(s, es, |es|).events, s.lastId, s.lastId + |es|) <==>
            HasKey(Partial(s, es, n - 1).events, KeyOf(es[n - 1]))
  {
    var events := Partial(s, es, |es|).events;
    BatchIds(s, es, |es|, n);
    BatchNotEmpty(s, es);
    if events[|events| - 1].id == s.lastId + n {
      assert HasId(events, s.lastId + n);
    }
  }

  lemma DropSnoc(raws: seq<RawRow>, w: RawRow, events: seq<EventRow>, low: nat, high: nat)
    ensures DropOrphans(raws + [w], events, low, high) ==
            DropOrphans(raws, events, low, high) + (if Orphan(w, events, low, high) then [] else [w])
  {
    assert (raws + [w])[..|raws|] == raws;
  }

  lemma InsertRawsStart(raws: seq<RawRow>, es: seq<Event>)
    ensures InsertRaws(raws, es)[..|raws|] == raws
  {
  }

  lemma InsertRawsStep(raws: seq<RawRow>, es: seq<Event>, n: nat)
    requires 1 <= n <= |es|
    ensures var all := InsertRaws(raws, es);
            all[..|raws| + n] == all[..|raws| + n - 1] + [RawFor(MaxRowid(raws) + n, es[n - 1])]
  {
  }

  lemma PartialStart(s: Store, es: seq<Event>)
    ensures Partial(s, es, 0) == s
  {
  }

  lemma PartialRaws(s: Store, es: seq<Event>, n: nat)
    requires 1 <= n <= |es|
    ensures var before := Partial(s, es, n - 1);
            Partial(s, es, n).raws ==
            before.raws + (if HasKey(before.events, KeyOf(es[n - 1])) then [] else [RawFor(s.lastId + n, es[n - 1])])
  {
  }

  /** Dropping the orphans at the end is the same as dropping each one at once. */
  lemma {:induction false} DropIsPartial(s: Store, es: seq<Event>, n: nat)
    requires Agrees(s) && Aligned(s) && n <= |es|
    ensures DropOrphans(InsertRaws(s.raws, es)[..|s.raws| + n], Partial(s, es, |es|).events, s.lastId,
      s.lastId + |es|) ==
            Partial(s, es, n).raws
    decreases n
  {
    hide Partial, HasKey, Agrees, Orphan, InsertRaws, DropOrphans;
    var events, low, high := Partial(s, es, |es|).events, s.lastId, s.lastId + |es|;
    var all := InsertRaws(s.raws, es);
    if n == 0 {
      InsertRawsStart(s.raws, es);
      RowidsBounded(s);
      DropNothing(s.raws, events, low, high);
      PartialStart(s, es);
    } else {
      DropIsPartial(s, es, n - 1);
      var w := RawFor(low + n, es[n - 1]);
      InsertRawsStep(s.raws, es, n);
      DropSnoc(all[..|s.raws| + n - 1], w, events, low, high);
      OrphansAreDuplicates(s, es, n);
      PartialRaws(s, es, n);
    }
  }

  lemma TrueBatchIsPartial(s: Store, es: seq<Event>)
    requires Agrees(s) && Aligned(s) && es != []
    ensures AddTrueBatch(s, es) == Some(Partial(s, es, |es|))
  {
    hide Agrees, HasKey, DropOrphans;
    DropIsPartial(s, es, |es|);
    PartialEvents(s, es, |es|);
    var all := InsertRaws(s.raws, es);
    assert all[..|s.raws| + |es|] == all;
  }

  /** Whether the last event of a batch is new to the store and to the batch. */
  predicate LastIsNew(v: seq<Event>, es: seq<Event>)
    requires es != []
  {
    !InView(Dedup(v, es[..|es| - 1]), KeyOf(es[|es| - 1]))
  }

  lemma AddAtAligned(s: Store, id: nat, e: Event)
    requires Agrees(s) && s.lastId < id
    ensures Aligned(AddAt(s, id, e)) <==> !InView(View(s), KeyOf(e))
  {
    KeysInView(s, KeyOf(e));
    RowidsBounded(s);
  }

  lemma PartialAligned(s: Store, es: seq<Event>)
    requires Agrees(s) && es != []
    ensures Aligned(Partial(s, es, |es|)) <==> LastIsNew(View(s), es)
  {
    hide Agrees, AddAt, HasKey, InView, View, Dedup, Aligned;
    var n := |es|;
    PartialAgrees(s, es, n - 1);
    PartialEvents(s, es, n - 1);
    AddAtAligned(Partial(s, es, n - 1), s.lastId + n, es[n - 1]);
  }

  /** On aligned tables the two statements have the effect of inserting one by one: the same events in the join, in
      the same order, duplicates inside the batch included. The tables stay aligned exactly if the last event of
      the batch was not a duplicate. */
  lemma TrueBatchRefines(s: Store, es: seq<Event>)
    requires Agrees(s) && Aligned(s) && es != []
    ensures var t, u := AddTrueBatch(s, es), AddAll(s, es);
            && t.Some? && Agrees(t.value)
            && u.Some? && Agrees(u.value)
            && View(t.value) == View(u.value) == Dedup(View(s), es)
            && (Aligned(t.value) <==> LastIsNew(View(s), es))
  {
    TrueBatchIsPartial(s, es);
    PartialAgrees(s, es, |es|);
    PartialAligned(s, es);
    AddAllAgrees(s, es);
    assert es[..|es|] == es;
  }

  /** A delete keeps the tables aligned exactly if it spares the newest event. */
  lemma DeleteAligned(s: Store, ids: set<nat>)
    requires Agrees(s) && Aligned(s)
    ensures Aligned(Delete(s, ids)) <==> s.lastId !in ids || s.lastId == 0
  {
    if s.events != [] {
      var n := |s.events| - 1;
      assert Pair(s.events[n], s.raws[n]);
      DeleteAgrees(s, ids);
      var t := Delete(s, ids);
      if s.lastId in ids && t.raws != [] {
        var m := |t.raws| - 1;
        assert Pair(t.events[m], t.raws[m]);
        KeptRowsFrom(s.events, ids, m);
      }
    }
  }

  // ---- Batches on tables that are not aligned ----

  /** How far the ids of the two tables are apart. */
  function Gap(s: Store): int {
    s.lastId - MaxRowid(s.raws)
  }

  predicate AllNew(s: Store, es: seq<Event>) {
    && (forall i :: 0 <= i < |es| ==> !HasKey(s.events, KeyOf(es[i])))
    && (forall i, j :: 0 <= i < j < |es| ==> KeyOf(es[i]) != KeyOf(es[j]))
  }

  function NewRows(lastId: nat, es: seq<Event>): (r: seq<EventRow>)
    ensures |r| == |es|
  {
    seq(|es|, i requires 0 <= i < |es| => RowFor(lastId + 1 + i, es[i]))
  }

  function NewRaws(lastId: nat, es: seq<Event>): (r: seq<RawRow>)
    ensures |r| == |es|
  {
    seq(|es|, i requires 0 <= i < |es| => RawFor(lastId + 1 + i, es[i]))
  }

  /** The texts that stay: the first `gap` are lost, and each of the others stands at the id of an earlier event. */
  function ShiftedRaws(lastId: nat, es: seq<Event>, gap: nat): seq<RawRow> {
    if gap >= |es| then [] else NewRaws(lastId, es[gap..])
  }

  /** Every event of the batch has its own text at its id. */
  ghost predicate JoinedWithOwnTexts(t: Store, lastId: nat, es: seq<Event>) {
    forall i :: 0 <= i < |es| ==> RawFor(lastId + 1 + i, es[i]) in t.raws
  }

  lemma {:induction false} InsertAllNew(s: Store, es: seq<Event>, n: nat)
    requires AllNew(s, es) && n <= |es|
    ensures InsertOrIgnore(s.events, s.lastId, es, n) == s.events + NewRows(s.lastId, es[..n])
  {
    if n > 0 {
      InsertAllNew(s, es, n - 1);
      var rows := NewRows(s.lastId, es[..n - 1]);
      forall i | 0 <= i < |s.events + rows|
        ensures RowKey((s.events + rows)[i]) != KeyOf(es[n - 1])
      {
        if i < |s.events| {
          assert RowKey(s.events[i]) != KeyOf(es[n - 1]);
        }
      }
      assert NewRows(s.lastId, es[..n]) == rows + [RowFor(s.lastId + n, es[n - 1])];
    } else {
      assert s.events + NewRows(s.lastId, es[..0]) == s.events;
    }
  }

  /** The raw row of event k keeps its place exactly if some event of the batch has taken that number as its id. */
  lemma NewOrphans(s: Store, es: seq<Event>, k: nat)
    requires Agrees(s) && k < |es|
    ensures var low := MaxRowid(s.raws);
            Orphan(RawFor(low + k + 1, es[k]), s.events + NewRows(s.lastId, es), low, low + |es|) <==> k < Gap(s)
  {
    var low, events := MaxRowid(s.raws), s.events + NewRows(s.lastId, es);
    RowidsBounded(s);
    var n := |s.events|;
    assert n > 0 ==> Pair(s.events[n - 1], s.raws[n - 1]);
    assert forall i :: 0 <= i < n ==> s.events[i].id <= low;
    assert events[|events| - 1].id == s.lastId + |es|;
    if k >= Gap(s) {
      assert events[n + k - Gap(s)].id == low + k + 1;
      assert HasId(events, low + k + 1);
    }
  }

  lemma DropShiftsStart(s: Store, es: seq<Event>, events: seq<EventRow>)
    requires Agrees(s) && Gap(s) >= 0
    ensures var low := MaxRowid(s.raws);
            DropOrphans(InsertRaws(s.raws, es)[..|s.raws| + 0], events, low, low + |es|) ==
            s.raws + ShiftedRaws(s.lastId, es[..0], Gap(s))
  {
    hide Agrees, DropOrphans, InsertRaws;
    InsertRawsStart(s.raws, es);
    RowidsBounded(s);
    DropNothing(s.raws, events, MaxRowid(s.raws), MaxRowid(s.raws) + |es|);
    assert ShiftedRaws(s.lastId, es[..0], Gap(s)) == [];
  }

  lemma DropOne(raws: seq<RawRow>, es: seq<Event>, events: seq<EventRow>, low: nat, k: nat)
    requires 1 <= k <= |es| && low == MaxRowid(raws)
    ensures DropOrphans(InsertRaws(raws, es)[..|raws| + k], events, low, low + |es|) ==
            DropOrphans(InsertRaws(raws, es)[..|raws| + (k - 1)], events, low, low + |es|) +
            if Orphan(RawFor(low + k, es[k - 1]), events, low, low + |es|) then [] else [RawFor(low + k, es[k - 1])]
  {
    hide Orphan, DropOrphans, InsertRaws, RawFor;
    InsertRawsStep(raws, es, k);
    DropSnoc(InsertRaws(raws, es)[..|raws| + k - 1], RawFor(low + k, es[k - 1]), events, low, low + |es|);
  }

  lemma {:induction false} DropShifts(s: Store, es: seq<Event>, k: nat)
    requires Agrees(s) && k <= |es| && Gap(s) >= 0
    ensures var low := MaxRowid(s.raws);
            DropOrphans(InsertRaws(s.raws, es)[..|s.raws| + k], s.events + NewRows(s.lastId, es), low, low + |es|) ==
            s.raws + ShiftedRaws(s.lastId, es[..k], Gap(s))
  {
    hide Agrees, Orphan, DropOrphans, InsertRaws, RawFor, NewRows, ShiftedRaws, MaxRowid;
    var low, events := MaxRowid(s.raws), s.events + NewRows(s.lastId, es);
    if k == 0 {
      DropShiftsStart(s, es, events);
    } else {
      DropShifts(s, es, k - 1);
      DropOne(s.raws, es, events, low, k);
      NewOrphans(s, es, k - 1);
      GapIsNatural(s);
      ShiftOne(s.lastId, es, k, Gap(s));
    }
  }

  lemma NewRawsSnoc(lastId: nat, es: seq<Event>, e: Event)
    ensures NewRaws(lastId, es + [e]) == NewRaws(lastId, es) + [RawFor(lastId + 1 + |es|, e)]
  {
  }

  lemma ShiftOne(lastId: nat, es: seq<Event>, k: nat, gap: nat)
    requires 1 <= k <= |es| && gap <= lastId
    ensures ShiftedRaws(lastId, es[..k], gap) ==
            ShiftedRaws(lastId, es[..k - 1], gap) +
            if k - 1 < gap then [] else [RawFor(lastId - gap + k, es[k - 1])]
  {
    hide RawFor, NewRaws;
    if k > gap {
      var before := es[..k - 1][gap..];
      assert es[..k][gap..] == before + [es[k - 1]];
      NewRawsSnoc(lastId, before, es[k - 1]);
      NoRaws(lastId);
    }
  }

  lemma NoRaws(lastId: nat)
    ensures NewRaws(lastId, []) == []
  {
  }

  /** A batch of new events on any agreeing tables: every event gets its row, but the texts are shifted by the gap.
      Event i is joined with the text of event i + gap, and the last `gap` events with none. */
  lemma NewBatchIsShifted(s: Store, es: seq<Event>)
    requires Agrees(s) && AllNew(s, es) && es != []
    ensures Gap(s) >= 0
    ensures AddTrueBatch(s, es) ==
            Some(Store(s.events + NewRows(s.lastId, es), s.lastId + |es|,
                       s.raws + ShiftedRaws(s.lastId, es, Gap(s))))
  {
    hide Agrees, AllNew, Orphan, DropOrphans, InsertRaws, ShiftedRaws, NewRows;
    GapIsNatural(s);
    InsertAllNew(s, es, |es|);
    DropShifts(s, es, |es|);
    assert es[..|es|] == es;
    var all := InsertRaws(s.raws, es);
    assert all[..|s.raws| + |es|] == all;
  }

  lemma GapIsNatural(s: Store)
    requires Agrees(s)
    ensures 0 <= Gap(s) <= s.lastId
  {
    RowidsBounded(s);
    assert s.raws == [] || s.raws[|s.raws| - 1].rowid <= s.lastId;
  }

  lemma NewRowsFound(events: seq<EventRow>, lastId: nat, es: seq<Event>, i: nat)
    requires i < |es|
    ensures var all := events + NewRows(lastId, es);
            RowFor(lastId + 1 + i, es[i]) in all && HasKey(all, KeyOf(es[i]))
  {
    var all := events + NewRows(lastId, es);
    assert all[|events| + i] == RowFor(lastId + 1 + i, es[i]);
    assert RowKey(all[|events| + i]) == KeyOf(es[i]);
  }

  lemma AlignedTexts(s: Store, t: Store, es: seq<Event>)
    requires t.raws == s.raws + ShiftedRaws(s.lastId, es, 0) && es != []
    ensures JoinedWithOwnTexts(t, s.lastId, es) && HasRowid(t.raws, s.lastId + |es|)
  {
    var n := |s.raws|;
    assert es[0..] == es;
    assert t.raws == s.raws + NewRaws(s.lastId, es);
    forall i | 0 <= i < |es|
      ensures RawFor(s.lastId + 1 + i, es[i]) in t.raws
    {
      assert t.raws[n + i] == RawFor(s.lastId + 1 + i, es[i]);
    }
    assert t.raws[n + |es| - 1] == RawFor(s.lastId + |es|, es[|es| - 1]);
  }

  lemma LastTextMissing(s: Store, t: Store, es: seq<Event>)
    requires Agrees(s) && es != [] && Gap(s) > 0 && t.raws == s.raws + ShiftedRaws(s.lastId, es, Gap(s))
    ensures !HasRowid(t.raws, s.lastId + |es|) && !JoinedWithOwnTexts(t, s.lastId, es)
  {
    RowidsBounded(s);
    var n, shifted := |s.raws|, ShiftedRaws(s.lastId, es, Gap(s));
    forall i | 0 <= i < |t.raws|
      ensures t.raws[i].rowid < s.lastId + |es|
    {
      if i < n {
        assert t.raws[i] == s.raws[i];
      } else {
        assert t.raws[i] == shifted[i - n];
        assert shifted[i - n].rowid == s.lastId + 1 + i - n;
      }
    }
    assert RawFor(s.lastId + |es|, es[|es| - 1]) !in t.raws;
  }

  /** What alignment is for: a batch of new events is joined with its own texts if and only if the tables were aligned.
      Otherwise the last event shows up with no text at all, and a retry is refused as a duplicate. */
  lemma NewBatchJoinedIffAligned(s: Store, es: seq<Event>)
    requires Agrees(s) && AllNew(s, es) && es != []
    ensures AddTrueBatch(s, es).Some?
    ensures var t := AddTrueBatch(s, es).value;
            && (forall i :: 0 <= i < |es| ==>
                  RowFor(s.lastId + 1 + i, es[i]) in t.events && HasKey(t.events, KeyOf(es[i])))
            && (JoinedWithOwnTexts(t, s.lastId, es) <==> Aligned(s))
            && (HasRowid(t.raws, s.lastId + |es|) <==> Aligned(s))
  {
    NewBatchIsShifted(s, es);
    GapIsNatural(s);
    hide Agrees, AllNew, ShiftedRaws, NewRows, RowFor, KeyOf, HasKey, HasRowid, JoinedWithOwnTexts;
    var t := AddTrueBatch(s, es).value;
    forall i | 0 <= i < |es|
      ensures RowFor(s.lastId + 1 + i, es[i]) in t.events && HasKey(t.events, KeyOf(es[i]))
    {
      NewRowsFound(s.events, s.lastId, es, i);
    }
    if Aligned(s) {
      AlignedTexts(s, t, es);
    } else {
      LastTextMissing(s, t, es);
    }
  }

  /** A batch of nothing but duplicates leaves the tables as they are but widens the gap by its length. */
  lemma RetryWidensGap(s: Store, es: seq<Event>)
    requires Agrees(s) && es != []
    requires forall i :: 0 <= i < |es| ==> HasKey(s.events, KeyOf(es[i]))
    ensures AddTrueBatch(s, es) == Some(s.(lastId := s.lastId + |es|))
    ensures Agrees(s.(lastId := s.lastId + |es|)) && Gap(s.(lastId := s.lastId + |es|)) == Gap(s) + |es|
  {
    hide Agrees, HasKey, DropOrphans, InsertRaws, InsertOrIgnore, KeyOf;
    AgreesMore(s, s.lastId + |es|);
    HasKeyNotEmpty(s.events, KeyOf(es[0]));
    IgnoreKnown(s.events, s.lastId, es, |es|);
    DropAllNew(s, es, |es|);
    var all := InsertRaws(s.raws, es);
    assert all[..|s.raws| + |es|] == all;
  }

  lemma HasKeyNotEmpty(rows: seq<EventRow>, k: Key)
    requires HasKey(rows, k)
    ensures rows != []
  {
  }

  lemma {:induction false} IgnoreKnown(events: seq<EventRow>, lastId: nat, es: seq<Event>, n: nat)
    requires n <= |es| && forall i :: 0 <= i < |es| ==> HasKey(events, KeyOf(es[i]))
    ensures InsertOrIgnore(events, lastId, es, n) == events
  {
    if n > 0 {
      IgnoreKnown(events, lastId, es, n - 1);
    }
  }

  lemma AllOrphans(s: Store, es: seq<Event>, k: nat)
    requires Agrees(s) && s.events != [] && k < |es|
    ensures var low := MaxRowid(s.raws); Orphan(RawFor(low + k + 1, es[k]), s.events, low, low + |es|)
  {
    RowidsBounded(s);
    forall i | 0 <= i < |s.events|
      ensures s.events[i].id <= MaxRowid(s.raws)
    {
      assert Pair(s.events[i], s.raws[i]);
    }
  }

  lemma {:induction false} DropAllNew(s: Store, es: seq<Event>, k: nat)
    requires Agrees(s) && s.events != [] && k <= |es|
    ensures var low := MaxRowid(s.raws);
            DropOrphans(InsertRaws(s.raws, es)[..|s.raws| + k], s.events, low, low + |es|) == s.raws
  {
    hide Agrees, Orphan, DropOrphans, InsertRaws, MaxRowid, RawFor;
    var low := MaxRowid(s.raws);
    if k == 0 {
      InsertRawsStart(s.raws, es);
      RowidsBounded(s);
      DropNothing(s.raws, s.events, low, low + |es|);
    } else {
      DropAllNew(s, es, k - 1);
      DropOne(s.raws, es, s.events, low, k);
      AllOrphans(s, es, k - 1);
      assert s.raws + [] == s.raws;
    }
  }

  // ---- Any history in batch mode ----

  /** The first n events of a batch: every one takes an id, and the new ones are recorded under theirs. */
  function BatchRecord(l: Ledger, es: seq<Event>, n: nat): Ledger
    requires n <= |es|
  {
    if n == 0 then l
    else
      var before, e := BatchRecord(l, es, n - 1), es[n - 1];
      if Known(before.entries, KeyOf(e)) then before.(lastId := l.lastId + n)
      else Ledger(before.entries + [Entry(l.lastId + n, e)], l.lastId + n)
  }

  function BatchLedgerOf(ops: seq<Op>): Ledger {
    if ops == [] then Ledger([], 0)
    else
      var l := BatchLedgerOf(ops[..|ops| - 1]);
      match ops[|ops| - 1]
      case AddBatch(es) => BatchRecord(l, es, |es|)
      case DeleteBatch(ids) => l.(entries := Strike(l.entries, ids))
  }

  /** The tables themselves; an empty batch is an error and changes nothing. */
  function BatchHistory(ops: seq<Op>): Store {
    if ops == [] then EMPTY
    else
      var s := BatchHistory(ops[..|ops| - 1]);
      match ops[|ops| - 1]
      case AddBatch(es) => if es == [] then s else AddTrueBatch(s, es).value
      case DeleteBatch(ids) => Delete(s, ids)
  }

  /** The newest id is still in the ledger. */
  predicate Level(l: Ledger) {
    l.lastId == if l.entries == [] then 0 else l.entries[|l.entries| - 1].id
  }

  predicate NothingNew(l: Ledger, es: seq<Event>) {
    forall i :: 0 <= i < |es| ==> Known(l.entries, KeyOf(es[i]))
  }

  predicate EverythingNew(l: Ledger, es: seq<Event>) {
    && (forall i :: 0 <= i < |es| ==> !Known(l.entries, KeyOf(es[i])))
    && (forall i, j :: 0 <= i < j < |es| ==> KeyOf(es[i]) != KeyOf(es[j]))
  }

  /** Every batch that brings something new meets a ledger that is level. */
  predicate LevelThroughout(ops: seq<Op>) {
    forall k :: 0 <= k < |ops| && ops[k].AddBatch? ==>
      var l := BatchLedgerOf(ops[..k]); Level(l) || NothingNew(l, ops[k].events)
  }

  lemma LevelIsAligned(l: Ledger)
    ensures Level(l) <==> Aligned(TablesOf(l))
  {
  }

  lemma {:induction false} PartialRecords(l: Ledger, es: seq<Event>, n: nat)
    requires n <= |es|
    ensures Partial(TablesOf(l), es, n) == TablesOf(BatchRecord(l, es, n))
    decreases n
  {
    if n > 0 {
      PartialRecords(l, es, n - 1);
      var before, e := BatchRecord(l, es, n - 1), es[n - 1];
      KnownKeys(before.entries, KeyOf(e));
      var more := before.entries + [Entry(l.lastId + n, e)];
      assert EventRows(more) == EventRows(before.entries) + [RowFor(l.lastId + n, e)];
      assert RawRows(more) == RawRows(before.entries) + [RawFor(l.lastId + n, e)];
    }
  }

  lemma {:induction false} RecordNothingNew(l: Ledger, es: seq<Event>, n: nat)
    requires n <= |es| && NothingNew(l, es)
    ensures BatchRecord(l, es, n) == l.(lastId := l.lastId + n)
    decreases n
  {
    if n > 0 {
      RecordNothingNew(l, es, n - 1);
    }
  }

  lemma RecordedAgrees(l: Ledger, es: seq<Event>)
    requires Agrees(TablesOf(l))
    ensures Agrees(TablesOf(BatchRecord(l, es, |es|)))
  {
    PartialRecords(l, es, |es|);
    PartialAgrees(TablesOf(l), es, |es|);
  }

  /** The tables of a ledger agree, whether or not the database has come to hold them. */
  lemma {:induction false} LedgerAgrees(ops: seq<Op>)
    ensures Agrees(TablesOf(BatchLedgerOf(ops)))
  {
    if ops != [] {
      var l := BatchLedgerOf(ops[..|ops| - 1]);
      LedgerAgrees(ops[..|ops| - 1]);
      match ops[|ops| - 1]
      case AddBatch(es) => RecordedAgrees(l, es);
      case DeleteBatch(ids) =>
        DeleteStrikes(l.entries, ids);
        DeleteAgrees(TablesOf(l), ids);
    }
  }

  lemma LevelBatch(l: Ledger, es: seq<Event>)
    requires Agrees(TablesOf(l)) && es != [] && (Level(l) || NothingNew(l, es))
    ensures AddTrueBatch(TablesOf(l), es) == Some(TablesOf(BatchRecord(l, es, |es|)))
  {
    LevelIsAligned(l);
    PartialRecords(l, es, |es|);
    hide Agrees, Level, Aligned, AddTrueBatch, BatchRecord, Partial, Gap;
    if Aligned(TablesOf(l)) {
      TrueBatchIsPartial(TablesOf(l), es);
    } else {
      forall i | 0 <= i < |es|
        ensures HasKey(TablesOf(l).events, KeyOf(es[i]))
      {
        KnownKeys(l.entries, KeyOf(es[i]));
      }
      RetryWidensGap(TablesOf(l), es);
      RecordNothingNew(l, es, |es|);
    }
  }

  /** In batch mode, too, the tables hold the ledger of any history, each event with its own text, as long as every
      batch with something new meets a level ledger. */
  lemma {:induction false} BatchHistoryIsLedger(ops: seq<Op>)
    requires LevelThroughout(ops)
    ensures BatchHistory(ops) == TablesOf(BatchLedgerOf(ops))
  {
    if ops == [] {
      assert EventRows([]) == [] && RawRows([]) == [];
    } else {
      var n := |ops| - 1;
      var init, l := ops[..n], BatchLedgerOf(ops[..n]);
      forall k | 0 <= k < n && init[k].AddBatch?
        ensures Level(BatchLedgerOf(init[..k])) || NothingNew(BatchLedgerOf(init[..k]), init[k].events)
      {
        assert init[..k] == ops[..k] && init[k] == ops[k];
      }
      BatchHistoryIsLedger(init);
      LedgerAgrees(init);
      match ops[n]
      case AddBatch(es) =>
        if es != [] {
          LevelBatch(l, es);
        }
      case DeleteBatch(ids) => DeleteStrikes(l.entries, ids);
    }
  }

  /** A batch of new events only that meets a ledger that is not level breaks the correspondence at once. */
  lemma UnlevelBatch(l: Ledger, es: seq<Event>)
    requires Agrees(TablesOf(l)) && es != [] && !Level(l) && EverythingNew(l, es)
    ensures AddTrueBatch(TablesOf(l), es) != Some(TablesOf(BatchRecord(l, es, |es|)))
  {
    var s := TablesOf(l);
    LevelIsAligned(l);
    forall i | 0 <= i < |es|
      ensures !HasKey(s.events, KeyOf(es[i]))
    {
      KnownKeys(l.entries, KeyOf(es[i]));
    }
    NewBatchJoinedIffAligned(s, es);
    RecordedLast(l, es);
  }

  lemma RecordedLast(l: Ledger, es: seq<Event>)
    requires es != [] && EverythingNew(l, es)
    ensures HasRowid(TablesOf(BatchRecord(l, es, |es|)).raws, l.lastId + |es|)
  {
    hide EverythingNew, Known, KeyOf, HasRowid, BatchRecord, RawRows;
    var n := |es| - 1;
    var before := BatchRecord(l, es, n).entries;
    RecordEverythingNew(l, es, n);
    NewAfterOthers(l, es, n, before);
    RecordOneNew(l, es, n);
    RawOfLast(before, Entry(l.lastId + |es|, es[n]));
  }

  lemma RecordOneNew(l: Ledger, es: seq<Event>, n: nat)
    requires n < |es| && !Known(BatchRecord(l, es, n).entries, KeyOf(es[n]))
    ensures BatchRecord(l, es, n + 1).entries == BatchRecord(l, es, n).entries + [Entry(l.lastId + n + 1, es[n])]
  {
  }

  lemma RawOfLast(entries: seq<Entry>, x: Entry)
    ensures HasRowid(RawRows(entries + [x]), x.id)
  {
    assert RawRows(entries + [x])[|entries|].rowid == x.id;
  }

  lemma {:induction false} RecordEverythingNew(l: Ledger, es: seq<Event>, n: nat)
    requires n <= |es| && EverythingNew(l, es)
    ensures var entries := BatchRecord(l, es, n).entries;
            && |entries| == |l.entries| + n
            && l.entries <= entries
            && forall i :: 0 <= i < n ==> entries[|l.entries| + i].event == es[i]
    decreases n
  {
    if n > 0 {
      RecordEverythingNew(l, es, n - 1);
      NewAfterOthers(l, es, n - 1, BatchRecord(l, es, n - 1).entries);
    }
  }

  lemma NewAfterOthers(l: Ledger, es: seq<Event>, n: nat, entries: seq<Entry>)
    requires n < |es| && EverythingNew(l, es)
    requires |entries| == |l.entries| + n && l.entries <= entries
    requires forall i :: 0 <= i < n ==> entries[|l.entries| + i].event == es[i]
    ensures !Known(entries, KeyOf(es[n]))
  {
    forall i | 0 <= i < |entries|
      ensures KeyOf(entries[i].event) != KeyOf(es[n])
    {
      if i < |l.entries| {
        assert entries[i] == l.entries[i];
        assert !Known(l.entries, KeyOf(es[n]));
      } else {
        assert entries[i].event == es[i - |l.entries|];
      }
    }
  }

  /** For histories whose batches bring only new events or none, the condition is exact. */
  lemma BatchHistoryIff(ops: seq<Op>)
    requires forall k :: 0 <= k < |ops| && ops[k].AddBatch? ==>
               var l := BatchLedgerOf(ops[..k]); NothingNew(l, ops[k].events) || EverythingNew(l, ops[k].events)
    ensures (forall k :: 0 <= k <= |ops| ==> BatchHistory(ops[..k]) == TablesOf(BatchLedgerOf(ops[..k]))) <==>
            LevelThroughout(ops)
  {
    if LevelThroughout(ops) {
      forall k | 0 <= k <= |ops|
        ensures BatchHistory(ops[..k]) == TablesOf(BatchLedgerOf(ops[..k]))
      {
        forall j | 0 <= j < k && ops[..k][j].AddBatch?
          ensures var l := BatchLedgerOf(ops[..k][..j]); Level(l) || NothingNew(l, ops[..k][j].events)
        {
          assert ops[..k][..j] == ops[..j] && ops[..k][j] == ops[j];
        }
        BatchHistoryIsLedger(ops[..k]);
      }
    } else {
      var k :| 0 <= k < |ops| && ops[k].AddBatch? && !Level(BatchLedgerOf(ops[..k])) &&
               !NothingNew(BatchLedgerOf(ops[..k]), ops[k].events);
      LedgerAgrees(ops[..k]);
      UnlevelBatch(BatchLedgerOf(ops[..k]), ops[k].events);
      assert ops[..k + 1][..k] == ops[..k];
      assert BatchHistory(ops[..k]) == TablesOf(BatchLedgerOf(ops[..k])) ==>
             BatchHistory(ops[..k + 1]) != TablesOf(BatchLedgerOf(ops[..k + 1]));
    }
  }

  // ---- The repository ----

  function IdSet(ids: seq<nat>): set<nat> {
    set id | id in ids
  }

  /** What a commit can come to. */
  datatype Commit = Committed | FailedWithoutEffect | FailedWithEffect

  class EventRepository {
    const trueBatch: bool
    var events: seq<EventRow>
    var lastId: nat
    var raws: seq<RawRow>

    constructor (trueBatch: bool)
      ensures Contents() == EMPTY && this.trueBatch == trueBatch
    {
      this.trueBatch := trueBatch;
      events, lastId, raws := [], 0, [];
    }

    function Contents(): Store
      reads this
    {
      Store(events, lastId, raws)
    }

    /** The caller is not told if the commit fails: a batch that is lost in this way counts as added. */
    method AddBatch(batch: seq<Event>, commits: bool) returns (ok: bool)
      modifies this
      ensures var r := if trueBatch then AddTrueBatch(old(Contents()), batch) else AddAll(old(Contents()), batch);
              ok == r.Some? && Contents() == if ok && commits then r.value else old(Contents())
      ensures trueBatch ==> (ok <==> batch != [])
      ensures !trueBatch && Agrees(old(Contents())) ==>
        ok && (commits ==> IsAdded(Contents(), old(Contents()), batch))
      ensures trueBatch && ok && commits ==>
        lastId == old(lastId) + |batch| && IsInserted(events, old(events), old(lastId), batch)
    {
      if trueBatch {
        ok := AddBatchTrueBatch(batch, commits);
      } else {
        ok := AddBatchOneByOne(batch, commits);
      }
    }

    /** A transaction: on an error the tables are put back. */
    method AddBatchOneByOne(batch: seq<Event>, commits: bool) returns (ok: bool)
      modifies this
      ensures var r := AddAll(old(Contents()), batch);
              ok == r.Some? && Contents() == if ok && commits then r.value else old(Contents())
      ensures Agrees(old(Contents())) ==>
        ok && (commits ==> IsAdded(Contents(), old(Contents()), batch))
    {
      var savedEvents, savedId, savedRaws := events, lastId, raws;
      if Agrees(Contents()) {
        AddAllExactly(Contents(), batch);
      }
      hide Agrees, IsAdded, KeyOf, RowFor, RawFor, HasKey, HasRowid;
      for i := 0 to |batch|
        invariant AddAll(old(Contents()), batch[..i]) == Some(Contents())
      {
        assert batch[..i + 1][..i] == batch[..i];
        var evt := batch[i];
        if HasKey(events, KeyOf(evt)) {
          continue;
        }
        var id := lastId + 1;
        if HasRowid(raws, id) {
          FailureStays(old(Contents()), batch, i + 1);
          events, lastId, raws := savedEvents, savedId, savedRaws;
          return false;
        }
        events := events + [RowFor(id, evt)];
        lastId := id;
        raws := raws + [RawFor(id, evt)];
      }
      assert batch[..|batch|] == batch;
      if !commits {
        events, lastId, raws := savedEvents, savedId, savedRaws;
      }
      return true;
    }

    method AddBatchTrueBatch(batch: seq<Event>, commits: bool) returns (ok: bool)
      modifies this
      ensures var r := AddTrueBatch(old(Contents()), batch);
              ok == r.Some? && Contents() == if ok && commits then r.value else old(Contents())
      ensures ok <==> batch != []
      ensures ok && commits ==> lastId == old(lastId) + |batch| && IsInserted(events, old(events), old(lastId), batch)
    {
      hide IsInserted, IsCleaned, DropOrphans, InsertRaws, InsertOrIgnore, MaxRowid;
      if |batch| == 0 {
        return false;
      }
      var savedEvents, savedId, savedRaws := events, lastId, raws;
      var prevMaxId := MaxRowid(raws);
      InsertEvents(batch);
      var newMaxId := prevMaxId + |batch|;
      raws := InsertRaws(raws, batch);
      CleanUp(prevMaxId, newMaxId);
      if !commits {
        events, lastId, raws := savedEvents, savedId, savedRaws;
      }
      return true;
    }

    method InsertEvents(batch: seq<Event>)
      modifies `events, `lastId
      ensures events == InsertOrIgnore(old(events), old(lastId), batch, |batch|)
      ensures lastId == old(lastId) + |batch|
      ensures IsInserted(events, old(events), old(lastId), batch)
    {
      InsertedExactly(events, lastId, batch);
      hide IsInserted;
      for i := 0 to |batch|
        invariant events == InsertOrIgnore(old(events), old(lastId), batch, i)
        invariant lastId == old(lastId) + i
      {
        lastId := lastId + 1;
        if !HasKey(events, KeyOf(batch[i])) {
          events := events + [RowFor(lastId, batch[i])];
        }
      }
    }

    method CleanUp(low: nat, high: nat)
      modifies `raws
      ensures raws == DropOrphans(old(raws), events, low, high)
      ensures IsCleaned(raws, old(raws), events, low, high)
    {
      CleanedExactly(raws, events, low, high);
      hide Orphan, IsCleaned;
      var kept := [];
      for i := 0 to |raws|
        invariant kept == DropOrphans(raws[..i], events, low, high)
      {
        assert raws[..i + 1][..i] == raws[..i];
        if !Orphan(raws[i], events, low, high) {
          kept := kept + [raws[i]];
        }
      }
      assert raws[..|raws|] == raws;
      raws := kept;
    }

    /** A transaction of two statements, each of which the database may refuse. After a failing commit, which is an
        error of an unknown state, the rows may be gone or not. */
    method DeleteBatch(ids: seq<nat>, eventsOk: bool, rawsOk: bool, commit: Commit) returns (ok: bool)
      modifies this
      ensures ok == (ids == [] || (eventsOk && rawsOk && commit.Committed?))
      ensures Contents() ==
              if ids == [] || (eventsOk && rawsOk && !commit.FailedWithoutEffect?)
              then Delete(old(Contents()), IdSet(ids)) else old(Contents())
      ensures eventsOk && rawsOk && !commit.FailedWithoutEffect? ==>
        && (exists at :: Selection(at, events, old(events)) &&
              forall n :: 0 <= n < |old(events)| ==> (n in at <==> old(events)[n].id !in ids))
        && (exists at :: Selection(at, raws, old(raws)) &&
              forall n :: 0 <= n < |old(raws)| ==> (n in at <==> old(raws)[n].rowid !in ids))
    {
      DeleteExactly(Contents(), IdSet(ids));
      hide Selection;
      var all := IdSet(ids);
      if |ids| == 0 {
        assert all == {};
        DeleteNothing(Contents());
        return true;
      }
      if !eventsOk {
        return false;
      }
      var keptEvents, keptRaws := [], [];
      for i := 0 to |events|
        invariant keptEvents == KeepRows(events[..i], all)
      {
        assert events[..i + 1][..i] == events[..i];
        if events[i].id !in all {
          keptEvents := keptEvents + [events[i]];
        }
      }
      var saved, savedRaws := events, raws;
      assert saved[..|saved|] == saved;
      events := keptEvents;
      if !rawsOk {
        events := saved;
        return false;
      }
      for i := 0 to |raws|
        invariant keptRaws == KeepRaws(raws[..i], all)
      {
        assert raws[..i + 1][..i] == raws[..i];
        if raws[i].rowid !in all {
          keptRaws := keptRaws + [raws[i]];
        }
      }
      assert raws[..|raws|] == raws;
      raws := keptRaws;
      if commit.FailedWithoutEffect? {
        events, raws := saved, savedRaws;
      }
      return commit.Committed?;
    }
  }

  lemma {:induction false} FailureStays(s: Store, es: seq<Event>, n: nat)
    requires n <= |es|
    ensures AddAll(s, es[..n]).None? ==> AddAll(s, es).None?
    decreases |es|
  {
    if n < |es| {
      assert es[..|es| - 1][..n] == es[..n];
      FailureStays(s, es[..|es| - 1], n);
    } else {
      assert es[..n] == es;
    }
  }

  lemma DeleteNothing(s: Store)
    ensures Delete(s, {}) == s
  {
    KeepAllRows(s.events);
    KeepAllRaws(s.raws);
  }

  lemma {:induction false} KeepAllRows(rows: seq<EventRow>)
    ensures KeepRows(rows, {}) == rows
  {
    if rows != [] {
      KeepAllRows(rows[..|rows| - 1]);
    }
  }

  lemma {:induction false} KeepAllRaws(raws: seq<RawRow>)
    ensures KeepRaws(raws, {}) == raws
  {
    if raws != [] {
      KeepAllRaws(raws[..|raws| - 1]);
    }
  }
}
