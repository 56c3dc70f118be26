/** What the pipeline steps do to one batch (plugins/steps). */
module Steps {
  import opened Common
  import opened SearchParser

  type Fields = map<string, string>

  datatype Event = Event(id: int, raw: string, timestamp: int, host: string, source: string, sourceId: string,
    fields: Fields)

  datatype StepResult = StepResult(events: seq<Event>, rows: seq<Fields>)

  function EventsIn(results: seq<StepResult>): seq<Event> {
    if results == [] then []
    else EventsIn(results[..|results| - 1]) + results[|results| - 1].events
  }

  /** Reading a Go map: a missing key yields the empty string. */
  function Get(m: Fields, key: string): string {
    if key in m then m[key] else ""
  }

  function Filter<T>(keep: T -> bool, s: seq<T>): seq<T> {
    if s == [] then []
    else Filter(keep, s[..|s| - 1]) + if keep(s[|s| - 1]) then [s[|s| - 1]] else []
  }

  lemma {:induction false} FilterSelects<T>(keep: T -> bool, s: seq<T>) returns (at: seq<nat>)
    ensures Selection(at, Filter(keep, s), s)
    ensures forall n :: 0 <= n < |s| ==> (n in at <==> keep(s[n]))
  {
    at := [];
    if s != [] {
      var init, last := s[..|s| - 1], s[|s| - 1];
      at := FilterSelects(keep, init);
      SelectionSnoc(at, Filter(keep, init), init, last);
      assert s == init + [last];
      if keep(last) {
        at := at + [|init|];
      } else {
        assert Filter(keep, init) + [] == Filter(keep, init);
      }
    }
  }

  // ---- where ----

  /** Events are asked for the lower-cased key, table rows for the key as written. */
  predicate EventMatches(wanted: Fields, e: Event) {
    forall k :: k in wanted ==> Get(e.fields, Lower(k)) == wanted[k]
  }

  predicate RowMatches(wanted: Fields, row: Fields) {
    forall k :: k in wanted ==> Get(row, k) == wanted[k]
  }

  function EventFilter(wanted: Fields): Event -> bool {
    e => EventMatches(wanted, e)
  }

  function RowFilter(wanted: Fields): Fields -> bool {
    row => RowMatches(wanted, row)
  }

  function Where(wanted: Fields, r: StepResult): StepResult {
    StepResult(Filter(EventFilter(wanted), r.events), Filter(RowFilter(wanted), r.rows))
  }

  method MatchesAll(wanted: Fields, actual: Fields, lower: bool) returns (matches: bool)
    ensures matches <==> forall k :: k in wanted ==> Get(actual, if lower then Lower(k) else k) == wanted[k]
  {
    matches := true;
    var keys := wanted.Keys;
    while keys != {}
      invariant keys <= wanted.Keys
      invariant matches <==>
        forall k :: k in wanted && k !in keys ==> Get(actual, if lower then Lower(k) else k) == wanted[k]
      decreases |keys|
    {
      var k :| k in keys;
      var actualValue := Get(actual, if lower then Lower(k) else k);
      if actualValue != wanted[k] {
        matches := false;
      }
      keys := keys - {k};
    }
  }

  /** Of the events exactly those are kept, in order, whose lower-cased fields have the wanted values, and of the rows
      those with the wanted values under the names as written. */
  lemma WhereKeepsMatches(wanted: Fields, res: StepResult)
    ensures var events := Where(wanted, res).events;
            exists at :: Selection(at, events, res.events) && forall n :: 0 <= n < |res.events| ==>
              (n in at <==> forall k :: k in wanted ==>
                (if Lower(k) in res.events[n].fields then res.events[n].fields[Lower(k)] else "") == wanted[k])
    ensures var rows := Where(wanted, res).rows;
            exists at :: Selection(at, rows, res.rows) && forall n :: 0 <= n < |res.rows| ==>
              (n in at <==> forall k :: k in wanted ==> (if k in res.rows[n] then res.rows[n][k] else "") == wanted[k])
  {
    hide Filter, Selection;
    var at := FilterSelects(EventFilter(wanted), res.events);
    var rowsAt := FilterSelects(RowFilter(wanted), res.rows);
  }

  method WhereBatch(wanted: Fields, res: StepResult) returns (out: StepResult)
    ensures out == Where(wanted, res)
    ensures exists at :: Selection(at, out.events, res.events) && forall n :: 0 <= n < |res.events| ==>
      (n in at <==> forall k :: k in wanted ==>
        (if Lower(k) in res.events[n].fields then res.events[n].fields[Lower(k)] else "") == wanted[k])
    ensures exists at :: Selection(at, out.rows, res.rows) && forall n :: 0 <= n < |res.rows| ==>
      (n in at <==> forall k :: k in wanted ==> (if k in res.rows[n] then res.rows[n][k] else "") == wanted[k])
  {
    var retEvents := [];
    for i := 0 to |res.events|
      invariant retEvents == Filter(EventFilter(wanted), res.events[..i])
    {
      var matches := MatchesAll(wanted, res.events[i].fields, true);
      assert res.events[..i + 1][..i] == res.events[..i];
      if matches {
        retEvents := retEvents + [res.events[i]];
      }
    }
    assert res.events[..|res.events|] == res.events;
    var retRows := [];
    for i := 0 to |res.rows|
      invariant retRows == Filter(RowFilter(wanted), res.rows[..i])
    {
      var matches := MatchesAll(wanted, res.rows[i], false);
      assert res.rows[..i + 1][..i] == res.rows[..i];
      if matches {
        retRows := retRows + [res.rows[i]];
      }
    }
    assert res.rows[..|res.rows|] == res.rows;
    out := StepResult(retEvents, retRows);
    WhereKeepsMatches(wanted, res);
  }

  // ---- table ----

  function Project(columns: seq<string>, e: Event): Fields {
    map f | f in columns :: Get(e.fields, f)
  }

  function Projection(columns: seq<string>): Event -> Fields {
    e => Project(columns, e)
  }

  function Table(columns: seq<string>, r: StepResult): StepResult {
    StepResult(r.events, Map(Projection(columns), r.events))
  }

  method TableBatch(columns: seq<string>, res: StepResult) returns (out: StepResult)
    ensures out == Table(columns, res)
    ensures out.events == res.events && |out.rows| == |res.events|
    ensures forall i :: 0 <= i < |out.rows| ==>
      forall c :: c in out.rows[i] <==> c in columns
    ensures forall i, c :: 0 <= i < |out.rows| && c in columns ==>
      out.rows[i][c] == if c in res.events[i].fields then res.events[i].fields[c] else ""
  {
    var ret := [];
    for i := 0 to |res.events|
      invariant |ret| == i
      invariant forall j :: 0 <= j < i ==> ret[j] == Project(columns, res.events[j])
    {
      var m: Fields := map[];
      for j := 0 to |columns|
        invariant m == map f | f in columns[..j] :: Get(res.events[i].fields, f)
      {
        assert columns[..j + 1] == columns[..j] + [columns[j]];
        m := m[columns[j] := Get(res.events[i].fields, columns[j])];
      }
      assert columns[..|columns|] == columns;
      ret := ret + [m];
    }
    out := res.(rows := ret);
  }

  // ---- rex ----

  /** The text the extractor is run on, if the event has it. */
  function RexInput(field: string, e: Event): Option<string> {
    if field == "_raw" then Some(e.raw)
    else if field == "source" then Some(e.source)
    else if field == "host" then Some(e.host)
    else if field in e.fields then Some(e.fields[field])
    else None
  }

  /** `extract` stands for the regular expression; extracted fields overwrite existing ones. */
  function RexEvent(field: string, extract: string -> Fields, e: Event): Event {
    match RexInput(field, e)
    case None => e
    case Some(text) => e.(fields := e.fields + extract(text))
  }

  /** The text is the event's own text, source or host under these three names, even if it has a field of that name,
      and otherwise the field; an event without the field stays as it is. Only the fields change. */
  lemma RexMeaning(field: string, extract: string -> Fields, e: Event)
    ensures RexEvent(field, extract, e).(fields := e.fields) == e
    ensures var fields := RexEvent(field, extract, e).fields;
            && (field == "_raw" ==> fields == e.fields + extract(e.raw))
            && (field == "source" ==> fields == e.fields + extract(e.source))
            && (field == "host" ==> fields == e.fields + extract(e.host))
            && (field !in {"_raw", "source", "host"} ==>
                  fields == e.fields + if field in e.fields then extract(e.fields[field]) else map[])
  {
    assert e.fields + map[] == e.fields;
  }

  function Rex(field: string, extract: string -> Fields, r: StepResult): StepResult {
    StepResult(Map(e => RexEvent(field, extract, e), r.events), r.rows)
  }

  /** An event whose fields the rex step changes in place. */
  class EventCell {
    const id: int
    const raw: string
    const timestamp: int
    const host: string
    const source: string
    const sourceId: string
    var fields: Fields

    constructor (e: Event)
      ensures Value() == e
    {
      id, raw, timestamp, host, source, sourceId, fields :=
        e.id, e.raw, e.timestamp, e.host, e.source, e.sourceId, e.fields;
    }

    function Value(): Event
      reads this
    {
      Event(id, raw, timestamp, host, source, sourceId, fields)
    }
  }

  method MergeFields(evt: EventCell, newFields: Fields)
    modifies evt
    ensures evt.fields == old(evt.fields) + newFields
  {
    var keys := newFields.Keys;
    while keys != {}
      invariant keys <= newFields.Keys
      invariant evt.fields == old(evt.fields) + (map k | k in newFields && k !in keys :: newFields[k])
      decreases |keys|
    {
      var k :| k in keys;
      evt.fields := evt.fields[k := newFields[k]];
      keys := keys - {k};
    }
    assert newFields == map k | k in newFields && k !in keys :: newFields[k];
  }

  method RexOne(field: string, extract: string -> Fields, evt: EventCell)
    modifies evt
    ensures evt.Value() == RexEvent(field, extract, old(evt.Value()))
  {
    var present := field in evt.fields;
    var fieldValue := Get(evt.fields, field);
    if field == "_raw" {
      fieldValue := evt.raw;
    } else if field == "source" {
      fieldValue := evt.source;
    } else if field == "host" {
      fieldValue := evt.host;
    } else if !present {
      return;
    }
    MergeFields(evt, extract(fieldValue));
  }

  /** The events of a batch are separate objects; the step updates each of them once. */
  method RexBatch(field: string, extract: string -> Fields, events: seq<EventCell>)
    requires forall i, j :: 0 <= i < j < |events| ==> events[i] != events[j]
    modifies events
    ensures forall i :: 0 <= i < |events| ==> events[i].Value() == RexEvent(field, extract, old(events[i].Value()))
  {
    hide RexEvent;
    for n := 0 to |events|
      invariant forall i :: 0 <= i < n ==> events[i].Value() == RexEvent(field, extract, old(events[i].Value()))
      invariant forall i :: n <= i < |events| ==> events[i].Value() == old(events[i].Value())
    {
      RexOne(field, extract, events[n]);
    }
  }

  // ---- Laws ----

  function Both<T>(p: T -> bool, q: T -> bool): T -> bool {
    x => p(x) && q(x)
  }

  function Compose<A, B, C>(f: A -> B, g: B -> C): A -> C {
    x => g(f(x))
  }

  lemma {:induction false} FilterTwice<T>(p: T -> bool, q: T -> bool, s: seq<T>)
    ensures Filter(q, Filter(p, s)) == Filter(Both(p, q), s)
  {
    if s != [] {
      var init, last := s[..|s| - 1], s[|s| - 1];
      FilterTwice(p, q, init);
      var kept := Filter(p, init);
      if p(last) {
        var more := kept + [last];
        assert Filter(p, s) == more && more[..|more| - 1] == kept && more[|more| - 1] == last;
      } else {
        assert Filter(p, s) == kept + [] == kept;
        assert Filter(Both(p, q), s) == Filter(Both(p, q), init) + [];
      }
    }
  }

  lemma {:induction false} FilterSame<T>(p: T -> bool, q: T -> bool, s: seq<T>)
    requires forall i :: 0 <= i < |s| ==> p(s[i]) == q(s[i])
    ensures Filter(p, s) == Filter(q, s)
  {
    if s != [] {
      FilterSame(p, q, s[..|s| - 1]);
    }
  }

  lemma {:induction false} FilterMap<A, B>(f: A -> B, p: B -> bool, s: seq<A>)
    ensures Filter(p, Map(f, s)) == Map(f, Filter(Compose(f, p), s))
  {
    if s != [] {
      var init, last := s[..|s| - 1], s[|s| - 1];
      FilterMap(f, p, init);
      assert Map(f, s)[..|s| - 1] == Map(f, init);
    }
  }

  lemma FilterCommutes<T>(p: T -> bool, q: T -> bool, s: seq<T>)
    ensures Filter(p, Filter(q, s)) == Filter(q, Filter(p, s))
  {
    FilterTwice(p, q, s);
    FilterTwice(q, p, s);
    FilterSame(Both(p, q), Both(q, p), s);
  }

  /** Two where steps can be swapped. */
  lemma WhereCommutes(a: Fields, b: Fields, r: StepResult)
    ensures Where(a, Where(b, r)) == Where(b, Where(a, r))
  {
    FilterCommutes(EventFilter(a), EventFilter(b), r.events);
    FilterCommutes(RowFilter(a), RowFilter(b), r.rows);
  }

  /** A where step on lower-case columns of a table gives the same result before the table step as after it. */
  lemma WhereBeforeTable(wanted: Fields, columns: seq<string>, r: StepResult)
    requires forall k :: k in wanted ==> k in columns && Lower(k) == k
    ensures Where(wanted, Table(columns, r)) == Table(columns, Where(wanted, r))
  {
    FilterMap(Projection(columns), RowFilter(wanted), r.events);
    forall e: Event
      ensures RowMatches(wanted, Project(columns, e)) == EventMatches(wanted, e)
    {
      forall k | k in wanted
        ensures Get(Project(columns, e), k) == Get(e.fields, Lower(k))
      {
      }
    }
    FilterSame(Compose(Projection(columns), RowFilter(wanted)), EventFilter(wanted), r.events);
  }
}
