/** The two generator steps over stored events (plugins/steps/SearchPipelineStep.go, SurroundingPipelineStep.go) and
    the decision which events a search keeps (plugins/steps/Fragments.go). */
module SearchStep {
  import opened Common
  import opened SearchParser
  import opened Steps

  datatype StoredEvent =
    StoredEvent(id: int, raw: string, timestamp: int, host: string, source: string, sourceId: string)

  /** Patterns by field name, as a search holds them for its wanted and its unwanted values. */
  type Patterns = map<string, seq<string>>

  /** What lies outside this module: the file configuration of a source with its field extraction, and whether a
      value matches a pattern. */
  datatype Environment = Environment(extract: string -> Option<string -> Fields>, matches: (string, string) -> bool)

  /** The order in which a range loop visits the keys of a map; Go promises none. */
  ghost predicate IsOrder(order: seq<string>, m: Patterns) {
    && (forall k :: k in order <==> k in m)
    && forall i, j :: 0 <= i < j < |order| ==> order[i] != order[j]
  }

  /** The fields a search sees: those of the lower-cased text, then host and source. */
  function SearchFields(parse: string -> Fields, e: StoredEvent): Fields {
    parse(Lower(e.raw))["host" := e.host]["source" := e.source]
  }

  predicate AnyMatch(env: Environment, patterns: seq<string>, value: string) {
    exists i :: 0 <= i < |patterns| && env.matches(patterns[i], value)
  }

  predicate Matches(env: Environment, wanted: Patterns, fields: Fields, k: string)
    requires k in wanted
  {
    k in fields && AnyMatch(env, wanted[k], fields[k])
  }

  /** The loop over the unwanted values: the first field that is missing or matches ends it. */
  predicate Rejected(env: Environment, unwanted: Patterns, fields: Fields, order: seq<string>)
    requires forall k :: k in order ==> k in unwanted
  {
    if order == [] then false
    else if order[0] !in fields then false
    else Matches(env, unwanted, fields, order[0]) || Rejected(env, unwanted, fields, order[1..])
  }

  ghost predicate Included(env: Environment, wanted: Patterns, unwanted: Patterns, fields: Fields, order: seq<string>)
    requires IsOrder(order, unwanted)
  {
    (forall k :: k in wanted ==> Matches(env, wanted, fields, k)) && !Rejected(env, unwanted, fields, order)
  }

  method AnyValueMatches(env: Environment, values: seq<string>, evtValue: string) returns (anyMatch: bool)
    ensures anyMatch == AnyMatch(env, values, evtValue)
  {
    anyMatch := false;
    for i := 0 to |values|
      invariant anyMatch <==> exists j :: 0 <= j < i && env.matches(values[j], evtValue)
    {
      if env.matches(values[i], evtValue) {
        anyMatch := true;
      }
    }
  }

  method ShouldIncludeEvent(env: Environment, parse: string -> Fields, evt: StoredEvent, wanted: Patterns,
                            unwanted: Patterns, wantedOrder: seq<string>, unwantedOrder: seq<string>)
    returns (evtFields: Fields, included: bool)
    requires IsOrder(wantedOrder, wanted) && IsOrder(unwantedOrder, unwanted)
    ensures evtFields == SearchFields(parse, evt)
    ensures included == Included(env, wanted, unwanted, evtFields, unwantedOrder)
    ensures forall k :: k in evtFields <==> k in parse(Lower(evt.raw)) || k == "host" || k == "source"
    ensures evtFields["host"] == evt.host && evtFields["source"] == evt.source
    ensures forall k :: k in evtFields && k != "host" && k != "source" ==> evtFields[k] == parse(Lower(evt.raw))[k]
  {
    evtFields := parse(Lower(evt.raw));
    evtFields := evtFields["host" := evt.host];
    evtFields := evtFields["source" := evt.source];
    included := AllWantedMatch(env, wanted, evtFields, wantedOrder);
    var rejected := AnyUnwantedMatches(env, unwanted, evtFields, unwantedOrder);
    if rejected {
      included := false;
    }
  }

  /** The loop over the wanted values. */
  method AllWantedMatch(env: Environment, wanted: Patterns, fields: Fields, order: seq<string>) returns (included: bool)
    requires IsOrder(order, wanted)
    ensures included <==> forall k :: k in wanted ==> Matches(env, wanted, fields, k)
  {
    included := true;
    for i := 0 to |order|
      invariant included && forall j :: 0 <= j < i ==> Matches(env, wanted, fields, order[j])
    {
      var key := order[i];
      var anyMatch := false;
      if key in fields {
        anyMatch := AnyValueMatches(env, wanted[key], fields[key]);
      }
      if !anyMatch {
        assert !Matches(env, wanted, fields, key);
        return false;
      }
    }
  }

  /** The loop over the unwanted values. */
  method AnyUnwantedMatches(env: Environment, unwanted: Patterns, fields: Fields, order: seq<string>)
    returns (rejected: bool)
    requires IsOrder(order, unwanted)
    ensures rejected == Rejected(env, unwanted, fields, order)
  {
    ghost var all := Rejected(env, unwanted, fields, order);
    assert order[0..] == order;
    for i := 0 to |order|
      invariant all == Rejected(env, unwanted, fields, order[i..])
    {
      var key := order[i];
      assert order[i..][0] == key && order[i..][1..] == order[i + 1..];
      if key !in fields {
        return false;
      }
      var anyMatch := AnyValueMatches(env, unwanted[key], fields[key]);
      if anyMatch {
        return true;
      }
    }
    return false;
  }

  // ---- When the order of a map decides ----

  ghost predicate SomeMissing(unwanted: Patterns, fields: Fields) {
    exists k :: k in unwanted && k !in fields
  }

  ghost predicate SomeUnwanted(env: Environment, unwanted: Patterns, fields: Fields) {
    exists k :: k in unwanted && Matches(env, unwanted, fields, k)
  }

  lemma {:induction false} RejectedOnlyIfUnwanted(env: Environment, unwanted: Patterns, fields: Fields,
                                                  order: seq<string>)
    requires forall k :: k in order ==> k in unwanted
    ensures Rejected(env, unwanted, fields, order) ==> exists k :: k in order && Matches(env, unwanted, fields, k)
  {
    if order != [] && order[0] in fields && !Matches(env, unwanted, fields, order[0]) {
      RejectedOnlyIfUnwanted(env, unwanted, fields, order[1..]);
    }
  }

  lemma {:induction false} RejectedIfNoneMissing(env: Environment, unwanted: Patterns, fields: Fields,
                                                 order: seq<string>, k: string)
    requires forall j :: j in order ==> j in unwanted && j in fields
    requires k in order && Matches(env, unwanted, fields, k)
    ensures Rejected(env, unwanted, fields, order)
  {
    if order[0] != k {
      RejectedIfNoneMissing(env, unwanted, fields, order[1..], k);
    }
  }

  lemma {:induction false} OrderOf(keys: set<string>) returns (order: seq<string>)
    ensures forall k :: k in order <==> k in keys
    ensures forall i, j :: 0 <= i < j < |order| ==> order[i] != order[j]
  {
    if keys == {} {
      order := [];
    } else {
      var k :| k in keys;
      var rest := OrderOf(keys - {k});
      order := [k] + rest;
    }
  }

  lemma OrderFrom(m: Patterns, first: string) returns (order: seq<string>)
    requires first in m
    ensures IsOrder(order, m) && order[0] == first
  {
    var rest := OrderOf(m.Keys - {first});
    order := [first] + rest;
  }

  /** The decision on unwanted values depends on the order in which the map is visited if and only if the event misses
      one of the fields while another one matches. */
  lemma RejectionDependsOnOrderIff(env: Environment, unwanted: Patterns, fields: Fields)
    ensures (exists a, b :: IsOrder(a, unwanted) && IsOrder(b, unwanted) &&
                            Rejected(env, unwanted, fields, a) && !Rejected(env, unwanted, fields, b)) <==>
            SomeMissing(unwanted, fields) && SomeUnwanted(env, unwanted, fields)
  {
    if SomeMissing(unwanted, fields) && SomeUnwanted(env, unwanted, fields) {
      var missing :| missing in unwanted && missing !in fields;
      var matching :| matching in unwanted && Matches(env, unwanted, fields, matching);
      var a := OrderFrom(unwanted, matching);
      var b := OrderFrom(unwanted, missing);
      assert Rejected(env, unwanted, fields, a) && !Rejected(env, unwanted, fields, b);
    } else {
      forall a, b | IsOrder(a, unwanted) && IsOrder(b, unwanted) && Rejected(env, unwanted, fields, a)
        ensures Rejected(env, unwanted, fields, b)
      {
        RejectedOnlyIfUnwanted(env, unwanted, fields, a);
        var k :| k in a && Matches(env, unwanted, fields, k);
        RejectedIfNoneMissing(env, unwanted, fields, b, k);
      }
    }
  }

  /** Field i of the loop matches one of its unwanted patterns, and neither it nor any field before it is missing. */
  ghost predicate StopsAt(env: Environment, unwanted: Patterns, fields: Fields, order: seq<string>, i: nat)
    requires forall k :: k in order ==> k in unwanted
  {
    && i < |order|
    && (forall j :: 0 <= j <= i ==> order[j] in fields)
    && exists p :: p in unwanted[order[i]] && env.matches(p, fields[order[i]])
  }

  lemma {:induction false} RejectedIff(env: Environment, unwanted: Patterns, fields: Fields, order: seq<string>)
    requires forall k :: k in order ==> k in unwanted
    ensures Rejected(env, unwanted, fields, order) <==> exists i: nat :: StopsAt(env, unwanted, fields, order, i)
  {
    if order != [] {
      var rest := order[1..];
      RejectedIff(env, unwanted, fields, rest);
      forall i: nat | order[0] in fields
        ensures StopsAt(env, unwanted, fields, rest, i) <==> StopsAt(env, unwanted, fields, order, i + 1)
      {
        assert forall j :: 0 <= j < |rest| ==> rest[j] == order[j + 1];
        assert StopsAt(env, unwanted, fields, rest, i) ==> forall j :: 0 < j <= i + 1 ==> order[j] == rest[j - 1];
      }
      if Matches(env, unwanted, fields, order[0]) {
        assert StopsAt(env, unwanted, fields, order, 0);
      }
      if i: nat :| StopsAt(env, unwanted, fields, order, i) {
        assert order[0] in fields;
        assert i > 0 ==> StopsAt(env, unwanted, fields, rest, i - 1);
      }
    }
  }

  /** Otherwise an event is kept if and only if every wanted field matches one of its patterns and no unwanted field
      matches any of its own. */
  lemma IncludedMeaning(env: Environment, wanted: Patterns, unwanted: Patterns, fields: Fields, order: seq<string>)
    requires IsOrder(order, unwanted)
    requires !(SomeMissing(unwanted, fields) && SomeUnwanted(env, unwanted, fields))
    ensures Included(env, wanted, unwanted, fields, order) <==>
            (forall k :: k in wanted ==> k in fields && exists p :: p in wanted[k] && env.matches(p, fields[k])) &&
            (forall k, p :: k in unwanted && k in fields && p in unwanted[k] ==> !env.matches(p, fields[k]))
  {
    assert forall k :: k in wanted ==>
      (Matches(env, wanted, fields, k) <==> k in fields && exists p :: p in wanted[k] && env.matches(p, fields[k]));
    RejectedOnlyIfUnwanted(env, unwanted, fields, order);
    if SomeUnwanted(env, unwanted, fields) {
      var k :| k in unwanted && Matches(env, unwanted, fields, k);
      RejectedIfNoneMissing(env, unwanted, fields, order, k);
    }
  }

  // ---- The search step ----

  /** A search with the order in which its maps happen to be visited for each event. */
  datatype SearchJob = SearchJob(env: Environment, wanted: Patterns, unwanted: Patterns,
                                 wantedOrder: StoredEvent -> seq<string>, unwantedOrder: StoredEvent -> seq<string>)
  {
    ghost predicate Valid() {
      forall e :: IsOrder(wantedOrder(e), wanted) && IsOrder(unwantedOrder(e), unwanted)
    }

    ghost predicate Keeps(e: StoredEvent)
      requires Valid()
    {
      env.extract(e.source).Some? &&
      Included(env, wanted, unwanted, SearchFields(env.extract(e.source).value, e), unwantedOrder(e))
    }

    function Show(e: StoredEvent): Event {
      var fields := if env.extract(e.source).Some? then SearchFields(env.extract(e.source).value, e) else map[];
      Event(e.id, e.raw, e.timestamp, e.host, e.source, e.sourceId, fields)
    }
  }

  /** What the search step sends for one page of stored events. */
  ghost function Found(job: SearchJob, evts: seq<StoredEvent>): seq<Event>
    requires job.Valid()
  {
    if evts == [] then []
    else
      var e := evts[|evts| - 1];
      Found(job, evts[..|evts| - 1]) + if job.Keeps(e) then [job.Show(e)] else []
  }

  /** The events sent stand for those stored events, in order, that have a file configuration and are to be included,
      each with all its columns and with the fields its configuration extracts. */
  ghost predicate FoundAt(job: SearchJob, at: seq<nat>, retEvts: seq<Event>, evts: seq<StoredEvent>)
    requires job.Valid()
  {
    && |at| == |retEvts|
    && (forall i, j :: 0 <= i < j < |at| ==> at[i] < at[j])
    && (forall i :: 0 <= i < |at| ==> at[i] < |evts|)
    && (forall n :: 0 <= n < |evts| ==>
          (n in at <==> Kept(job.env, job.wanted, job.unwanted, evts[n], job.unwantedOrder(evts[n]))))
    && (forall i :: 0 <= i < |at| ==>
          IsShown(job.env, evts[at[i]], retEvts[i]))
  }

  ghost predicate Kept(env: Environment, wanted: Patterns, unwanted: Patterns, e: StoredEvent, order: seq<string>)
    requires IsOrder(order, unwanted)
  {
    env.extract(e.source).Some? &&
    var fields := SearchFields(env.extract(e.source).value, e);
    (forall k :: k in wanted ==> k in fields && exists p :: p in wanted[k] && env.matches(p, fields[k])) &&
    forall i: nat :: !StopsAt(env, unwanted, fields, order, i)
  }

  ghost predicate IsShown(env: Environment, e: StoredEvent, shown: Event) {
    && shown.id == e.id && shown.raw == e.raw && shown.timestamp == e.timestamp
    && shown.host == e.host && shown.source == e.source && shown.sourceId == e.sourceId
    && env.extract(e.source).Some? && shown.fields == SearchFields(env.extract(e.source).value, e)
  }

  lemma KeptMeaning(job: SearchJob, e: StoredEvent)
    requires job.Valid()
    ensures job.Keeps(e) <==> Kept(job.env, job.wanted, job.unwanted, e, job.unwantedOrder(e))
    ensures job.Keeps(e) ==> IsShown(job.env, e, job.Show(e))
  {
    var env, wanted := job.env, job.wanted;
    if env.extract(e.source).Some? {
      var fields := SearchFields(env.extract(e.source).value, e);
      RejectedIff(env, job.unwanted, fields, job.unwantedOrder(e));
      assert forall k :: k in wanted ==>
        (Matches(env, wanted, fields, k) <==> k in fields && exists p :: p in wanted[k] && env.matches(p, fields[k]));
    }
  }

  lemma {:induction false} FoundWhere(job: SearchJob, evts: seq<StoredEvent>) returns (at: seq<nat>)
    requires job.Valid()
    ensures FoundAt(job, at, Found(job, evts), evts)
  {
    at := [];
    if evts != [] {
      var init, e := evts[..|evts| - 1], evts[|evts| - 1];
      at := FoundWhere(job, init);
      KeptMeaning(job, e);
      hide Kept, IsShown;
      assert |init| !in at;
      if job.Keeps(e) {
        at := at + [|init|];
      }
      assert forall n :: 0 <= n < |init| ==> evts[n] == init[n];
    }
  }

  method SearchPage(job: SearchJob, evts: seq<StoredEvent>) returns (retEvts: seq<Event>)
    requires job.Valid()
    ensures retEvts == Found(job, evts)
    ensures exists at :: FoundAt(job, at, retEvts, evts)
  {
    retEvts := [];
    for i := 0 to |evts|
      invariant retEvts == Found(job, evts[..i])
    {
      var evt := evts[i];
      assert evts[..i + 1][..i] == evts[..i];
      var ifc := job.env.extract(evt.source);
      if ifc.None? {
        continue;
      }
      var evtFields, included := ShouldIncludeEvent(job.env, ifc.value, evt, job.wanted, job.unwanted,
                                                   job.wantedOrder(evt), job.unwantedOrder(evt));
      if included {
        retEvts := retEvts + [Event(evt.id, evt.raw, evt.timestamp, evt.host, evt.source, evt.sourceId, evtFields)];
      }
    }
    assert evts[..|evts|] == evts;
    var at := FoundWhere(job, evts);
  }

  /** The batches of the search step: one for each page of the stream, empty ones included. */
  method SearchPages(job: SearchJob, pages: seq<seq<StoredEvent>>) returns (batches: seq<StepResult>)
    requires job.Valid()
    ensures |batches| == |pages|
    ensures forall i :: 0 <= i < |pages| ==> batches[i] == StepResult(Found(job, pages[i]), [])
    ensures EventsIn(batches) == Found(job, Flatten(pages))
  {
    batches := [];
    for i := 0 to |pages|
      invariant |batches| == i
      invariant forall j :: 0 <= j < i ==> batches[j] == StepResult(Found(job, pages[j]), [])
    {
      var retEvts := SearchPage(job, pages[i]);
      batches := batches + [StepResult(retEvts, [])];
    }
    PagesDoNotMatter(job, pages, batches);
  }

  lemma {:induction false} FoundAppend(job: SearchJob, a: seq<StoredEvent>, b: seq<StoredEvent>)
    requires job.Valid()
    ensures Found(job, a + b) == Found(job, a) + Found(job, b)
  {
    if b == [] {
      assert a + b == a;
      assert Found(job, a) + [] == Found(job, a);
    } else {
      var n := |b| - 1;
      assert (a + b)[..|a + b| - 1] == a + b[..n];
      FoundAppend(job, a, b[..n]);
    }
  }

  /** How the stored events are divided into pages makes no difference to what a search finds. */
  lemma {:induction false} PagesDoNotMatter(job: SearchJob, pages: seq<seq<StoredEvent>>, batches: seq<StepResult>)
    requires job.Valid() && |batches| == |pages|
    requires forall i :: 0 <= i < |pages| ==> batches[i].events == Found(job, pages[i])
    ensures EventsIn(batches) == Found(job, Flatten(pages))
  {
    if pages != [] {
      var n := |pages| - 1;
      PagesDoNotMatter(job, pages[..n], batches[..n]);
      assert pages == pages[..n] + [pages[n]];
      FlattenSnoc(pages[..n], pages[n]);
      FoundAppend(job, Flatten(pages[..n]), pages[n]);
    }
  }

  // ---- The surrounding step ----

  /** The zero value of an event. */
  function Blank(): Event {
    Event(0, "", 0, "", "", "", map[])
  }

  function Surround(env: Environment, e: StoredEvent): Event {
    match env.extract(e.source)
    case None => Blank()
    case Some(parse) => Event(e.id, e.raw, e.timestamp, e.host, e.source, e.sourceId, parse(Lower(e.raw)))
  }

  /** Every event keeps its place; one without a file configuration, which the log calls ignored, is sent as a blank
      event instead of being left out. */
  method SurroundingPage(env: Environment, evts: seq<StoredEvent>) returns (retEvts: array<Event>)
    ensures fresh(retEvts) && retEvts.Length == |evts|
    ensures forall i :: 0 <= i < |evts| ==> retEvts[i] == Surround(env, evts[i])
    ensures forall i :: 0 <= i < |evts| && env.extract(evts[i].source).None? ==>
      retEvts[i] == Event(0, "", 0, "", "", "", map[])
    ensures forall i :: 0 <= i < |evts| && env.extract(evts[i].source).Some? ==>
      && retEvts[i].id == evts[i].id && retEvts[i].raw == evts[i].raw && retEvts[i].timestamp == evts[i].timestamp
      && retEvts[i].host == evts[i].host && retEvts[i].source == evts[i].source
      && retEvts[i].sourceId == evts[i].sourceId
      && retEvts[i].fields == env.extract(evts[i].source).value(Lower(evts[i].raw))
  {
    retEvts := new Event[|evts|](_ => Blank());
    for i := 0 to |evts|
      invariant forall j :: 0 <= j < i ==> retEvts[j] == Surround(env, evts[j])
      invariant forall j :: i <= j < |evts| ==> retEvts[j] == Blank()
    {
      var evt := evts[i];
      var ifc := env.extract(evt.source);
      if ifc.None? {
        continue;
      }
      var evtFields := ifc.value(Lower(evt.raw));
      retEvts[i] := Event(evt.id, evt.raw, evt.timestamp, evt.host, evt.source, evt.sourceId, evtFields);
    }
  }
}
