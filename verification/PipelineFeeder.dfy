/** A job together with the goroutine that reads the database for its search step
    (plugins/sqlite_events/SqliteEventRepository.go FilterStream, plugins/steps/SearchPipelineStep.go Execute). It
    offers page after page on a channel without a buffer and never looks at the cancellation. */
module PipelineFeeder {
  import opened Common
  import opened PipelineNetwork
  import opened PipelineCancellation

  /** The feeder runs a query, or blocks on offering a page, or has returned and closed its channel. */
  datatype Feeder = Querying | Offering | Returned

  datatype Job<B> = Job(net: Net<B>, feeder: Feeder)

  datatype JobAction =
    | Step(a: Action)  // of the step goroutines and the engine; Produce takes the page on offer
    | Feed             // a query of the feeder has come back: there is one more page, or none

  /** Only a search step has a feeder; the surrounding step asks the repository itself. */
  function Start<B>(p: Program<B>): Job<B> {
    Job(Init(p), if p.watches then Querying else Returned)
  }

  /** The search step takes what is offered, and sees the end of its input when the feeder has closed the channel. */
  predicate CanDo<B>(p: Program<B>, j: Job<B>, x: JobAction)
    requires Shape(p, j.net)
  {
    match x
    case Feed => j.feeder.Querying?
    case Step(a) =>
      && Enabled(p, j.net, a)
      && (p.watches && a.Produce? ==> j.feeder.Offering?)
      && (p.watches && a == Exit(0) && !j.net.cancelled ==> j.feeder.Returned?)
  }

  function Do<B>(p: Program<B>, j: Job<B>, x: JobAction): Job<B>
    requires Shape(p, j.net) && CanDo(p, j, x)
  {
    match x
    case Feed => j.(feeder := if j.net.produced < |p.gen| then Offering else Returned)
    case Step(a) => Job(Apply(p, j.net, a), if p.watches && a.Produce? then Querying else j.feeder)
  }

  predicate IsJobRun<B>(p: Program<B>, xs: seq<JobAction>)
    decreases |xs|, 0
  {
    xs == [] ||
    (var init := xs[..|xs| - 1];
     IsJobRun(p, init) && Shape(p, JobAfter(p, init).net) && CanDo(p, JobAfter(p, init), xs[|xs| - 1]))
  }

  function JobAfter<B>(p: Program<B>, xs: seq<JobAction>): Job<B>
    requires IsJobRun(p, xs)
    decreases |xs|, 1
  {
    if xs == [] then Start(p) else Do(p, JobAfter(p, xs[..|xs| - 1]), xs[|xs| - 1])
  }

  lemma JobSnoc<B>(p: Program<B>, xs: seq<JobAction>, x: JobAction)
    requires IsJobRun(p, xs) && Shape(p, JobAfter(p, xs).net) && CanDo(p, JobAfter(p, xs), x)
    ensures IsJobRun(p, xs + [x]) && JobAfter(p, xs + [x]) == Do(p, JobAfter(p, xs), x)
  {
    assert (xs + [x])[..|xs|] == xs;
  }

  // ---- The job and its step goroutines ----

  function NetRun(xs: seq<JobAction>): seq<Action> {
    if xs == [] then []
    else NetRun(xs[..|xs| - 1]) + match xs[|xs| - 1] case Feed => [] case Step(a) => [a]
  }

  predicate FeederOk<B>(p: Program<B>, j: Job<B>) {
    && j.net.produced <= |p.gen|
    && (j.feeder.Offering? ==> p.watches && j.net.produced < |p.gen|)
    && (j.feeder.Returned? ==> !p.watches || j.net.produced == |p.gen|)
    && (!p.watches ==> j.feeder.Returned?)
  }

  lemma DoKeepsFeeder<B>(p: Program<B>, j: Job<B>, x: JobAction)
    requires Shape(p, j.net) && FeederOk(p, j) && CanDo(p, j, x)
    ensures FeederOk(p, Do(p, j, x))
  {
  }

  /** Without the feeder's steps a run of the job is a run of its step goroutines. */
  lemma {:induction false} Projects<B>(p: Program<B>, xs: seq<JobAction>)
    requires IsJobRun(p, xs)
    ensures IsRun(p, NetRun(xs)) && JobAfter(p, xs).net == StateAfter(p, NetRun(xs))
    ensures Shape(p, JobAfter(p, xs).net) && FeederOk(p, JobAfter(p, xs))
  {
    hide Enabled, Apply, FeederOk, CanDo;
    if xs == [] {
      StartOk(p);
    } else {
      var init, x := xs[..|xs| - 1], xs[|xs| - 1];
      Projects(p, init);
      DoKeepsFeeder(p, JobAfter(p, init), x);
      if x.Step? {
        StepCanDo(p, JobAfter(p, init), x);
        RunSnoc(p, NetRun(init), x.a);
      } else {
        assert NetRun(init) + [] == NetRun(init);
      }
    }
  }

  lemma StartOk<B>(p: Program<B>)
    ensures IsRun(p, []) && Shape(p, Start(p).net) && FeederOk(p, Start(p))
  {
  }

  lemma StepCanDo<B>(p: Program<B>, j: Job<B>, x: JobAction)
    requires Shape(p, j.net) && CanDo(p, j, x) && x.Step?
    ensures Enabled(p, j.net, x.a)
  {
  }

  /** Conversely the feeder can keep up with every run of the step goroutines, without a page on offer at the end. */
  lemma {:induction false} Lift<B>(p: Program<B>, run: seq<Action>) returns (xs: seq<JobAction>)
    requires IsRun(p, run)
    ensures IsJobRun(p, xs) && JobAfter(p, xs).net == StateAfter(p, run) && !JobAfter(p, xs).feeder.Offering?
  {
    if run == [] {
      xs := [];
    } else {
      var init, a := run[..|run| - 1], run[|run| - 1];
      var before := Lift(p, init);
      Projects(p, before);
      xs := LiftOne(p, before, a);
    }
  }

  lemma LiftOne<B>(p: Program<B>, before: seq<JobAction>, a: Action) returns (xs: seq<JobAction>)
    requires IsJobRun(p, before) && Shape(p, JobAfter(p, before).net) && FeederOk(p, JobAfter(p, before))
    requires !JobAfter(p, before).feeder.Offering? && Enabled(p, JobAfter(p, before).net, a)
    ensures IsJobRun(p, xs) && JobAfter(p, xs).net == Apply(p, JobAfter(p, before).net, a)
    ensures !JobAfter(p, xs).feeder.Offering?
  {
    var j := JobAfter(p, before);
    hide Apply, Enabled;
    if j.feeder.Querying? && (a.Produce? || (a == Exit(0) && !j.net.cancelled)) {
      NeedsFeeder(p, j, a);
      JobSnoc(p, before, Feed);
      JobSnoc(p, before + [Feed], Step(a));
      xs := before + [Feed] + [Step(a)];
    } else {
      ProduceNeedsMore(p, j, a);
      JobSnoc(p, before, Step(a));
      xs := before + [Step(a)];
    }
  }

  lemma ProduceNeedsMore<B>(p: Program<B>, j: Job<B>, a: Action)
    requires Shape(p, j.net) && FeederOk(p, j) && Enabled(p, j.net, a)
    ensures a.Produce? && p.watches ==> !j.feeder.Returned?
  {
  }

  lemma NeedsFeeder<B>(p: Program<B>, j: Job<B>, a: Action)
    requires Shape(p, j.net) && FeederOk(p, j) && Enabled(p, j.net, a) && j.feeder.Querying?
    requires a.Produce? || (a == Exit(0) && !j.net.cancelled)
    ensures CanDo(p, Do(p, j, Feed), Step(a))
    ensures !Do(p, Do(p, j, Feed), Step(a)).feeder.Offering?
  {
  }

  // ---- Which goroutines end ----

  /** Nothing can happen any more, except that somebody cancels the job. */
  ghost predicate JobAtRest<B>(p: Program<B>, j: Job<B>) {
    Shape(p, j.net) && forall x: JobAction :: x != Step(Cancel) ==> !CanDo(p, j, x)
  }

  lemma RestProjects<B>(p: Program<B>, j: Job<B>)
    requires JobAtRest(p, j) && FeederOk(p, j)
    ensures AtRest(p, j.net) && !j.feeder.Querying?
  {
    assert !CanDo(p, j, Feed);
    forall a: Action | !a.Cancel?
      ensures !Enabled(p, j.net, a)
    {
      assert !CanDo(p, j, Step(a));
    }
  }

  lemma RestLifts<B>(p: Program<B>, j: Job<B>)
    requires AtRest(p, j.net) && !j.feeder.Querying?
    ensures JobAtRest(p, j)
  {
  }

  /** A run of the step goroutines that has come to rest, with the feeder gone as far as it can. */
  lemma LiftToRest<B>(p: Program<B>, run: seq<Action>) returns (xs: seq<JobAction>)
    requires IsRun(p, run) && AtRest(p, StateAfter(p, run))
    ensures IsJobRun(p, xs) && JobAtRest(p, JobAfter(p, xs)) && JobAfter(p, xs).net == StateAfter(p, run)
    ensures p.watches && StateAfter(p, run).produced < |p.gen| ==> JobAfter(p, xs).feeder.Offering?
  {
    xs := Lift(p, run);
    Projects(p, xs);
    if JobAfter(p, xs).feeder.Querying? {
      JobSnoc(p, xs, Feed);
      xs := xs + [Feed];
    }
    RestLifts(p, JobAfter(p, xs));
  }

  ghost predicate AllEnded<B>(p: Program<B>, j: Job<B>) {
    AllExited(p, j.net) && j.feeder.Returned?
  }

  /** A search with at least one page, cancelled at once: the steps and the engine return, and the feeder has a page
      that nobody will ever take. */
  lemma CancelledSearch<B>(p: Program<B>) returns (xs: seq<JobAction>)
    requires p.watches && p.gen != []
    ensures IsJobRun(p, xs) && JobAtRest(p, JobAfter(p, xs)) && JobAfter(p, xs).feeder.Offering?
    ensures AllExited(p, JobAfter(p, xs).net)
  {
    var quit := GiveUp(p, 0, p.Stages());
    NothingProduced(p, quit);
    RunSnoc(p, quit, Finish);
    var run := quit + [Finish];
    RunKeepsInv(p, run);
    var n := StateAfter(p, run);
    forall i | 0 <= i < p.Stages()
      ensures n.stages[i].Exited?
    {
      assert ExitedProperly(p, n, i);
    }
    assert AtRest(p, n);
    xs := LiftToRest(p, run);
  }

  lemma NothingProduced<B>(p: Program<B>, run: seq<Action>)
    requires IsRun(p, run) && GivenUp(p, StateAfter(p, run), 0, p.Stages())
    ensures StateAfter(p, run).produced == 0
  {
    var n := StateAfter(p, run);
    RunKeepsInv(p, run);
    assert Flow(p, n, 0) && ExitedProperly(p, n, 0);
    assert |p.gen[..n.produced]| == n.produced;
  }

  /** Once the search step has gone, the feeder's page stays on offer in every continuation. */
  lemma {:induction false} OfferedForGood<B>(p: Program<B>, xs: seq<JobAction>, more: seq<JobAction>)
    requires IsJobRun(p, xs) && IsJobRun(p, xs + more) && Shape(p, JobAfter(p, xs).net)
    requires JobAfter(p, xs).feeder.Offering? && JobAfter(p, xs).net.stages[0].Exited?
    ensures Shape(p, JobAfter(p, xs + more).net)
    ensures JobAfter(p, xs + more).feeder.Offering? && JobAfter(p, xs + more).net.stages[0].Exited?
  {
    if more == [] {
      assert xs + more == xs;
    } else {
      var init, x := more[..|more| - 1], more[|more| - 1];
      assert (xs + more)[..|xs + more| - 1] == xs + init;
      OfferedForGood(p, xs, init);
      StaysOffered(p, JobAfter(p, xs + init), x);
    }
  }

  lemma StaysOffered<B>(p: Program<B>, j: Job<B>, x: JobAction)
    requires Shape(p, j.net) && CanDo(p, j, x) && j.feeder.Offering? && j.net.stages[0].Exited?
    ensures Shape(p, Do(p, j, x).net) && Do(p, j, x).feeder.Offering? && Do(p, j, x).net.stages[0].Exited?
  {
  }

  /** Without a cancellation every goroutine of a job ends, its feeder included, and everything is delivered. */
  lemma UncancelledJobEnds<B>(p: Program<B>, xs: seq<JobAction>)
    requires IsJobRun(p, xs) && JobAtRest(p, JobAfter(p, xs)) && !JobAfter(p, xs).net.cancelled
    ensures AllEnded(p, JobAfter(p, xs)) && JobAfter(p, xs).net.received == Sequential(p)
  {
    var j := JobAfter(p, xs);
    Projects(p, xs);
    RestProjects(p, j);
    MaximalRunDelivers(p, NetRun(xs));
    RunKeepsInv(p, NetRun(xs));
    assert ExitedProperly(p, j.net, 0);
  }

  ghost predicate AlwaysEnds<B>(p: Program<B>) {
    forall xs :: IsJobRun(p, xs) && JobAtRest(p, JobAfter(p, xs)) ==> AllEnded(p, JobAfter(p, xs))
  }

  /** Whatever the schedule and whenever a job is cancelled, all its goroutines end, the feeder included, exactly if the
      generator has no more batches than a channel has room for, and if it is a search, no batches at all. */
  lemma AllGoroutinesEndIff<B>(p: Program<B>)
    ensures AlwaysEnds(p) <==> |p.gen| <= 100 && (p.gen == [] || !p.watches)
  {
    if |p.gen| > CAPACITY {
      var stuck := GetStuck(p, 0);
      var more := RunToRest(p, stuck);
      StuckForGood(p, stuck, more, 0);
      var xs := LiftToRest(p, stuck + more);
      assert !AllEnded(p, JobAfter(p, xs));
    } else if p.watches && p.gen != [] {
      var xs := CancelledSearch(p);
      assert !AllEnded(p, JobAfter(p, xs));
    } else {
      forall xs | IsJobRun(p, xs) && JobAtRest(p, JobAfter(p, xs))
        ensures AllEnded(p, JobAfter(p, xs))
      {
        Projects(p, xs);
        RestProjects(p, JobAfter(p, xs));
        FewBatchesEnd(p, NetRun(xs));
      }
    }
  }
}
