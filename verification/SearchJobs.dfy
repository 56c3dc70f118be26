/** From the database to the stored result of a search job: the pages of the stream, the events the search step keeps of
    them, the batches that reach the engine, and what the engine stores. */
module SearchJobs {
  import opened Common
  import Steps
  import EventStream
  import SearchStep
  import Network = PipelineNetwork
  import PipelineCompiler
  import JobStats

  type Columns = EventStream.Row -> SearchStep.StoredEvent

  /** What the search step sends when these are the pages of its stream. */
  ghost function Batches(job: SearchStep.SearchJob, columns: Columns, pages: seq<seq<EventStream.Row>>)
    : (r: seq<Steps.StepResult>)
    requires job.Valid()
    ensures |r| == |pages|
    ensures forall i :: 0 <= i < |pages| ==> r[i] == Steps.StepResult(SearchStep.Found(job, Map(columns, pages[i])), [])
  {
    seq(|pages|, i requires 0 <= i < |pages| => Steps.StepResult(SearchStep.Found(job, Map(columns, pages[i])), []))
  }

  lemma FirstBatches(job: SearchStep.SearchJob, columns: Columns, pages: seq<seq<EventStream.Row>>, n: nat)
    requires job.Valid() && n <= |pages|
    ensures Batches(job, columns, pages)[..n] == Batches(job, columns, pages[..n])
  {
  }

  lemma {:induction false} FoundInPages(job: SearchStep.SearchJob, columns: Columns, pages: seq<seq<EventStream.Row>>)
    requires job.Valid()
    ensures Steps.EventsIn(Batches(job, columns, pages)) == SearchStep.Found(job, Map(columns, Flatten(pages)))
  {
    if pages != [] {
      var n := |pages| - 1;
      var batches := Batches(job, columns, pages);
      FoundInPages(job, columns, pages[..n]);
      FirstBatches(job, columns, pages, n);
      hide SearchStep.Found, Flatten, Batches, Map;
      assert pages == pages[..n] + [pages[n]];
      FlattenSnoc(pages[..n], pages[n]);
      JobStats.MapAppend(columns, Flatten(pages[..n]), pages[n]);
      SearchStep.FoundAppend(job, Map(columns, Flatten(pages[..n])), Map(columns, pages[n]));
    }
  }

  // ---- The rows of all pages ----

  lemma {:induction false} InFlatten(pages: seq<seq<EventStream.Row>>, r: EventStream.Row)
    ensures r in Flatten(pages) <==> r in EventStream.Emitted(pages)
  {
    if pages != [] {
      var n := |pages| - 1;
      InFlatten(pages[..n], r);
      assert pages == pages[..n] + [pages[n]];
      FlattenSnoc(pages[..n], pages[n]);
    }
  }

  lemma OrderedInit(pages: seq<seq<EventStream.Row>>)
    requires EventStream.Ordered(pages) && pages != []
    ensures var n := |pages| - 1;
            && EventStream.Ordered(pages[..n])
            && EventStream.Distinct(pages[n]) && EventStream.Descending(pages[n])
            && forall r, q :: r in EventStream.Emitted(pages[..n]) && q in pages[n] ==> q.timestamp < r.timestamp
  {
    var n := |pages| - 1;
    forall r, q | r in EventStream.Emitted(pages[..n]) && q in pages[n]
      ensures q.timestamp < r.timestamp
    {
      EventStream.InPages(pages[..n], r);
      var i :| 0 <= i < n && r in pages[..n][i];
      assert r in pages[i];
    }
  }

  /** The pages one after the other are one list without repetitions, newest first. */
  lemma {:induction false} PagesInOrder(pages: seq<seq<EventStream.Row>>)
    requires EventStream.Ordered(pages)
    ensures EventStream.Distinct(Flatten(pages)) && EventStream.Descending(Flatten(pages))
  {
    if pages != [] {
      var n := |pages| - 1;
      OrderedInit(pages);
      PagesInOrder(pages[..n]);
      assert pages == pages[..n] + [pages[n]];
      FlattenSnoc(pages[..n], pages[n]);
      var before := Flatten(pages[..n]);
      forall r | r in before
        ensures r in EventStream.Emitted(pages[..n])
      {
        InFlatten(pages[..n], r);
      }
      AppendOrdered(before, pages[n]);
    }
  }

  lemma AppendOrdered(a: seq<EventStream.Row>, b: seq<EventStream.Row>)
    requires EventStream.Distinct(a) && EventStream.Descending(a)
    requires EventStream.Distinct(b) && EventStream.Descending(b)
    requires forall r, q :: r in a && q in b ==> q.timestamp < r.timestamp
    ensures EventStream.Distinct(a + b) && EventStream.Descending(a + b)
  {
    var all := a + b;
    forall i, j | 0 <= i < j < |all|
      ensures all[i] != all[j] && all[i].timestamp >= all[j].timestamp
    {
      assert all[i] == if i < |a| then a[i] else b[i - |a|];
      assert all[j] == if j < |a| then a[j] else b[j - |a|];
      assert i < |a| <= j ==> a[i] in a && b[j - |a|] in b;
    }
  }

  // ---- The stored result ----

  /** What a search job has stored, given the rows it went through: one match for each event it keeps, in their order,
      and for each field value the number of kept events that have it. */
  ghost predicate StoredExactly(db: JobStats.Db, id: int, job: SearchStep.SearchJob, columns: Columns,
                                rows: seq<EventStream.Row>)
    requires job.Valid()
  {
    var kept := SearchStep.Found(job, Map(columns, rows));
    && JobStats.MatchesOf(db.matches, id) == Map(JobStats.ToMatch(id), kept)
    && forall f, v :: JobStats.Count(db.fieldValues, JobStats.Key(id, f, v)) ==
                      JobStats.Occurrences(Map(JobStats.FieldsOf, kept), f, v)
  }

  ghost predicate AllRows(s: EventStream.Search, rows: seq<EventStream.Row>) {
    EventStream.Distinct(rows) && EventStream.Descending(rows) && forall r :: r in rows <==> r in s.Wanted()
  }

  /** A search job whose stream has ended and which has finished without a cancellation or a failed write has stored
      exactly the events it keeps of those that matched at its start, each once and newest first, if no page break
      falls inside a group of equal timestamps: whatever was inserted meanwhile, under any schedule and beside any
      other jobs. */
  lemma {:induction false} SearchJobIsExact(s: EventStream.Search, stream: seq<EventStream.Action>,
                                            job: SearchStep.SearchJob, columns: Columns, run: seq<Network.Action>,
                                            types: JobStats.OutputTypes, ds: seq<JobStats.Delivery>, id: int)
    requires s.Valid() && EventStream.IsRun(s, stream) && EventStream.OnlySentDeleted(stream)
    requires EventStream.StateAfter(s, stream).done && EventStream.TieFree(s.Wanted())
    requires job.Valid() && types(id) == PipelineCompiler.Events
    requires var p := Network.Program(Batches(job, columns, EventStream.StateAfter(s, stream).pages), true, []);
             && Network.IsRun(p, run)
             && Network.StateAfter(p, run).consumer.Finished? && !Network.StateAfter(p, run).cancelled
             && JobStats.ResultsOf(ds, id) == Network.StateAfter(p, run).received
    requires forall i :: 0 <= i < |ds| && ds[i].job == id ==> ds[i].rowsOk && ds[i].statsOk
    ensures exists rows :: AllRows(s, rows) && StoredExactly(JobStats.After(types, ds), id, job, columns, rows)
  {
    var pages := EventStream.StateAfter(s, stream).pages;
    var batches := Batches(job, columns, pages);
    AllPages(s, stream);
    Network.FinishedIsComplete(Network.Program(batches, true, []), run);
    assert JobStats.ResultsOf(ds, id) == batches;
    FoundInPages(job, columns, pages);
    ResultsStored(types, ds, id);
    assert AllRows(s, Flatten(pages)) && StoredExactly(JobStats.After(types, ds), id, job, columns, Flatten(pages));
  }

  lemma AllPages(s: EventStream.Search, stream: seq<EventStream.Action>)
    requires s.Valid() && EventStream.IsRun(s, stream) && EventStream.OnlySentDeleted(stream)
    requires EventStream.StateAfter(s, stream).done && EventStream.TieFree(s.Wanted())
    ensures AllRows(s, Flatten(EventStream.StateAfter(s, stream).pages))
  {
    hide EventStream.IsRun, EventStream.TieFree;
    var pages := EventStream.StateAfter(s, stream).pages;
    EventStream.StreamIsSound(s, stream);
    EventStream.StreamCompleteIff(s, stream);
    PagesInOrder(pages);
    forall r
      ensures r in Flatten(pages) <==> r in s.Wanted()
    {
      InFlatten(pages, r);
    }
  }

  lemma ResultsStored(types: JobStats.OutputTypes, ds: seq<JobStats.Delivery>, id: int)
    requires types(id) == PipelineCompiler.Events
    requires forall i :: 0 <= i < |ds| && ds[i].job == id ==> ds[i].rowsOk && ds[i].statsOk
    ensures var evts, db := Steps.EventsIn(JobStats.ResultsOf(ds, id)), JobStats.After(types, ds);
            && JobStats.MatchesOf(db.matches, id) == Map(JobStats.ToMatch(id), evts)
            && forall f, v :: JobStats.Count(db.fieldValues, JobStats.Key(id, f, v)) ==
                              JobStats.Occurrences(Map(JobStats.FieldsOf, evts), f, v)
  {
    JobStats.MatchesAreResults(types, ds, id);
    JobStats.ReceivedIsResults(types, ds, id);
    JobStats.StatsCompleteIff(types, ds, id);
    RecordsAreFields(JobStats.ResultsOf(ds, id));
  }

  lemma {:induction false} RecordsAreFields(results: seq<Steps.StepResult>)
    ensures JobStats.RecordsOf(PipelineCompiler.Events, results) == Map(JobStats.FieldsOf, Steps.EventsIn(results))
  {
    if results != [] {
      var n := |results| - 1;
      RecordsAreFields(results[..n]);
      JobStats.MapAppend(JobStats.FieldsOf, Steps.EventsIn(results[..n]), results[n].events);
    }
  }
}
