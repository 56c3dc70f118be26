/** What cancelling a job can leave behind: results that are missing without notice, and goroutines that never end. */
module PipelineCancellation {
  import opened Common
  import opened PipelineNetwork

  // ---- Cancellation: incomplete jobs ----

  lemma RunSnoc<B>(p: Program<B>, run: seq<Action>, a: Action)
    requires IsRun(p, run) && Shape(p, StateAfter(p, run)) && Enabled(p, StateAfter(p, run), a)
    ensures IsRun(p, run + [a]) && StateAfter(p, run + [a]) == Apply(p, StateAfter(p, run), a)
    ensures Shape(p, StateAfter(p, run + [a]))
  {
    assert (run + [a])[..|run|] == run;
    ApplyKeepsShape(p, StateAfter(p, run), a);
  }

  /** Nothing has been sent, and the stages from..upTo have returned because of a cancellation. */
  predicate GivenUp<B>(p: Program<B>, n: Net<B>, from: nat, upTo: nat) {
    && Shape(p, n) && n.cancelled && n.consumer.Reading? && n.received == []
    && (forall j :: from <= j < p.Stages() ==> n.channels[j].sent == [])
    && (forall j :: from <= j < upTo && j < p.Stages() ==> n.channels[j].closed)
    && (forall j :: upTo <= j < p.Stages() ==> n.stages[j].Idle?)
  }

  lemma GiveUpOne<B>(p: Program<B>, n: Net<B>, from: nat, upTo: nat)
    requires GivenUp(p, n, from, upTo) && from <= upTo < p.Stages() && (from > 0 || p.watches)
    ensures Shape(p, n) && Enabled(p, n, Exit(upTo)) && GivenUp(p, Apply(p, n, Exit(upTo)), from, upTo + 1)
  {
  }

  lemma CancelFirst<B>(p: Program<B>, from: nat)
    ensures IsRun(p, [Cancel]) && GivenUp(p, StateAfter(p, [Cancel]), from, from)
  {
    assert IsRun(p, []);
    RunSnoc(p, [], Cancel);
    assert [] + [Cancel] == [Cancel];
  }

  lemma {:induction false} GiveUp<B>(p: Program<B>, from: nat, upTo: nat) returns (run: seq<Action>)
    requires from <= upTo <= p.Stages() && (from > 0 || p.watches)
    ensures IsRun(p, run) && GivenUp(p, StateAfter(p, run), from, upTo)
  {
    hide Apply, Enabled, GivenUp;
    if upTo == from {
      CancelFirst(p, from);
      run := [Cancel];
    } else {
      var before := GiveUp(p, from, upTo - 1);
      GiveUpOne(p, StateAfter(p, before), from, upTo - 1);
      RunSnoc(p, before, Exit(upTo - 1));
      run := before + [Exit(upTo - 1)];
    }
  }

  /** A generator that runs alone and does not look at the cancellation has sent everything when it returns. */
  lemma {:induction false} LoneGenerator<B>(p: Program<B>, run: seq<Action>)
    requires p.fs == [] && !p.watches && IsRun(p, run)
    ensures Shape(p, StateAfter(p, run))
    ensures StateAfter(p, run).stages[0].Exited? ==> StateAfter(p, run).produced == |p.gen|
  {
    if run != [] {
      var init := run[..|run| - 1];
      LoneGenerator(p, init);
      ApplyKeepsShape(p, StateAfter(p, init), run[|run| - 1]);
    }
  }

  ghost predicate AlwaysComplete<B>(p: Program<B>) {
    forall run :: IsRun(p, run) && StateAfter(p, run).consumer.Finished? ==>
      StateAfter(p, run).received == Sequential(p)
  }

  /** A cancelled job can be recorded as finished with batches missing, unless there is nothing to deliver or a lone
      generator that does not look at the cancellation. */
  lemma FinishedIsCompleteIff<B>(p: Program<B>)
    ensures AlwaysComplete(p) <==> p.gen == [] || (p.fs == [] && !p.watches)
  {
    if p.gen != [] && (p.fs != [] || p.watches) {
      var run := FinishedAfterCancel(p);
    } else {
      forall run | IsRun(p, run) && StateAfter(p, run).consumer.Finished?
        ensures StateAfter(p, run).received == Sequential(p)
      {
        if p.gen == [] {
          ReceivedIsPrefix(p, run);
        } else {
          LoneGeneratorDelivers(p, run);
        }
      }
    }
  }

  lemma LoneGeneratorDelivers<B>(p: Program<B>, run: seq<Action>)
    requires p.fs == [] && !p.watches && IsRun(p, run) && StateAfter(p, run).consumer.Finished?
    ensures StateAfter(p, run).received == Sequential(p)
  {
    var n := StateAfter(p, run);
    RunKeepsInv(p, run);
    LoneGenerator(p, run);
    assert Flow(p, n, 0) && ExitedProperly(p, n, 0);
    var c := n.channels[0];
    assert c.sent[..c.taken] == c.sent && c.sent + [] == c.sent;
    assert p.gen[..n.produced] == p.gen;
  }

  /** The job is cancelled at once, every stage that looks at the cancellation returns, and the engine sees its input
      closed before it looks at the cancellation itself. */
  lemma FinishedAfterCancel<B>(p: Program<B>) returns (run: seq<Action>)
    requires p.gen != [] && (p.fs != [] || p.watches)
    ensures IsRun(p, run)
    ensures StateAfter(p, run).consumer.Finished?
    ensures StateAfter(p, run).received == [] != Sequential(p)
  {
    var quit := GiveUp(p, if p.watches then 0 else 1, p.Stages());
    RunSnoc(p, quit, Finish);
    run := quit + [Finish];
  }

  // ---- Cancellation: goroutines that never end ----

  /** Stage i blocks on a full channel, and whoever should read it has gone. */
  predicate Stuck<B>(p: Program<B>, n: Net<B>, i: nat) {
    && Shape(p, n) && i < p.Stages()
    && n.stages[i].Holding? && n.channels[i].Pending() >= CAPACITY
    && (if i == |p.fs| then !n.consumer.Reading? else n.stages[i + 1].Exited?)
  }

  lemma StaysStuck<B>(p: Program<B>, n: Net<B>, a: Action, i: nat)
    requires Stuck(p, n, i) && Enabled(p, n, a)
    ensures Stuck(p, Apply(p, n, a), i) && Apply(p, n, a).stages[i] == n.stages[i]
  {
  }

  /** From then on the stage holds the same batch in every continuation of the run: its goroutine never ends. */
  lemma {:induction false} StuckForGood<B>(p: Program<B>, run: seq<Action>, more: seq<Action>, i: nat)
    requires IsRun(p, run) && Stuck(p, StateAfter(p, run), i) && IsRun(p, run + more)
    ensures Stuck(p, StateAfter(p, run + more), i)
    ensures StateAfter(p, run + more).stages[i] == StateAfter(p, run).stages[i]
  {
    if more == [] {
      assert run + more == run;
    } else {
      var init, a := more[..|more| - 1], more[|more| - 1];
      assert (run + more)[..|run + more| - 1] == run + init;
      StuckForGood(p, run, init, i);
      hide Apply, Enabled, Stuck;
      StaysStuck(p, StateAfter(p, run + init), a, i);
    }
  }

  /** k batches lie in channel i, which nobody reads; the channels before it are empty. */
  predicate Piled<B>(p: Program<B>, n: Net<B>, i: nat, k: nat) {
    && Shape(p, n) && i < p.Stages() && n.consumer.Reading? && !n.cancelled
    && (forall m :: 0 <= m < i ==> n.channels[m].Pending() == 0)
    && |n.channels[i].sent| == k && n.channels[i].taken == 0
  }

  predicate AllIdle<B>(p: Program<B>, n: Net<B>, i: nat, k: nat) {
    Piled(p, n, i, k) && n.produced == k && forall m :: 0 <= m < p.Stages() ==> n.stages[m].Idle?
  }

  predicate OneHolds<B>(p: Program<B>, n: Net<B>, i: nat, k: nat, j: nat) {
    && Piled(p, n, i, k) && n.produced == k + 1 && j <= i && n.stages[j].Holding?
    && forall m :: 0 <= m < p.Stages() && m != j ==> n.stages[m].Idle?
  }

  lemma SendOn<B>(p: Program<B>, n: Net<B>, i: nat, k: nat, j: nat)
    requires OneHolds(p, n, i, k, j) && j < i
    ensures Enabled(p, n, Send(j)) && Shape(p, Apply(p, n, Send(j)))
    ensures var n' := Apply(p, n, Send(j));
            Enabled(p, n', Take(j + 1)) && OneHolds(p, Apply(p, n', Take(j + 1)), i, k, j + 1)
  {
  }

  lemma PassOn<B>(p: Program<B>, before: seq<Action>, i: nat, k: nat, j: nat) returns (run: seq<Action>)
    requires IsRun(p, before) && OneHolds(p, StateAfter(p, before), i, k, j) && j < i
    ensures IsRun(p, run) && OneHolds(p, StateAfter(p, run), i, k, j + 1)
  {
    SendOn(p, StateAfter(p, before), i, k, j);
    hide Apply, Enabled, OneHolds;
    RunSnoc(p, before, Send(j));
    RunSnoc(p, before + [Send(j)], Take(j + 1));
    run := before + [Send(j)] + [Take(j + 1)];
  }

  /** A batch travels from stage j to stage i. */
  lemma {:induction false} Carry<B>(p: Program<B>, before: seq<Action>, i: nat, k: nat, j: nat)
    returns (run: seq<Action>)
    requires IsRun(p, before) && OneHolds(p, StateAfter(p, before), i, k, j)
    ensures IsRun(p, run) && OneHolds(p, StateAfter(p, run), i, k, i)
    decreases i - j
  {
    if j == i {
      run := before;
    } else {
      var passed := PassOn(p, before, i, k, j);
      run := Carry(p, passed, i, k, j + 1);
    }
  }

  lemma ProduceAndCarry<B>(p: Program<B>, before: seq<Action>, i: nat, k: nat) returns (run: seq<Action>)
    requires IsRun(p, before) && AllIdle(p, StateAfter(p, before), i, k) && k < |p.gen|
    ensures IsRun(p, run) && OneHolds(p, StateAfter(p, run), i, k, i)
  {
    RunSnoc(p, before, Produce);
    run := Carry(p, before + [Produce], i, k, 0);
  }

  lemma {:induction false} PileUp<B>(p: Program<B>, i: nat, k: nat) returns (run: seq<Action>)
    requires i < p.Stages() && k <= CAPACITY && k <= |p.gen|
    ensures IsRun(p, run) && AllIdle(p, StateAfter(p, run), i, k)
  {
    if k == 0 {
      run := [];
    } else {
      var before := PileUp(p, i, k - 1);
      var held := ProduceAndCarry(p, before, i, k - 1);
      RunSnoc(p, held, Send(i));
      run := held + [Send(i)];
    }
  }

  /** The channel of stage i fills up, the job is cancelled, and its reader looks at the cancellation first. */
  lemma GetStuck<B>(p: Program<B>, i: nat) returns (run: seq<Action>)
    requires i < p.Stages() && |p.gen| > CAPACITY
    ensures IsRun(p, run) && Stuck(p, StateAfter(p, run), i)
  {
    var full := PileUp(p, i, CAPACITY);
    var held := ProduceAndCarry(p, full, i, CAPACITY);
    RunSnoc(p, held, Cancel);
    var leave := if i == |p.fs| then Abort else Exit(i + 1);
    RunSnoc(p, held + [Cancel], leave);
    run := held + [Cancel] + [leave];
  }

  lemma HoldingNeedsBatches<B>(p: Program<B>, n: Net<B>, i: nat)
    requires Inv(p, n) && i < p.Stages() && n.stages[i].Holding?
    ensures |n.channels[i].sent| < |p.gen|
  {
    assert Flow(p, n, i);
    if i > 0 {
      SentIsPrefix(p, n, i - 1);
    }
  }

  ghost predicate CanGetStuck<B>(p: Program<B>, i: nat) {
    exists run :: IsRun(p, run) && Stuck(p, StateAfter(p, run), i)
  }

  /** Any stage can get stuck for good exactly if the generator has more batches than a channel has room for. */
  lemma StuckIff<B>(p: Program<B>, i: nat)
    requires i < p.Stages()
    ensures CanGetStuck(p, i) <==> |p.gen| > 100
  {
    if |p.gen| > CAPACITY {
      var run := GetStuck(p, i);
    } else {
      forall run | IsRun(p, run)
        ensures !Stuck(p, StateAfter(p, run), i)
      {
        RunKeepsInv(p, run);
        if StateAfter(p, run).stages[i].Holding? {
          HoldingNeedsBatches(p, StateAfter(p, run), i);
        }
      }
    }
  }

  /** Nothing can happen any more, except that somebody cancels the job. */
  ghost predicate AtRest<B>(p: Program<B>, n: Net<B>) {
    Shape(p, n) && forall a: Action :: !a.Cancel? ==> !Enabled(p, n, a)
  }

  predicate AllExited<B>(p: Program<B>, n: Net<B>) {
    Shape(p, n) && forall i :: 0 <= i < p.Stages() ==> n.stages[i].Exited?
  }

  lemma RunShape<B>(p: Program<B>, run: seq<Action>)
    requires IsRun(p, run)
    ensures Shape(p, StateAfter(p, run))
  {
    RunKeepsInv(p, run);
  }

  lemma {:induction false} RunToRest<B>(p: Program<B>, run: seq<Action>) returns (more: seq<Action>)
    requires IsRun(p, run)
    ensures IsRun(p, run + more) && AtRest(p, StateAfter(p, run + more))
    decreases |p.gen| + p.Stages() * (2 * |p.gen| + 1) + 2 - |run|
  {
    hide Enabled, Apply, Inv;
    RunsAreBounded(p, run);
    RunShape(p, run);
    if a: Action :| !a.Cancel? && Enabled(p, StateAfter(p, run), a) {
      RunSnoc(p, run, a);
      RunsAreBounded(p, run + [a]);
      var rest := RunToRest(p, run + [a]);
      more := [a] + rest;
      assert run + more == run + [a] + rest;
    } else {
      more := [];
      assert run + more == run;
    }
  }

  /** At rest with few batches: no channel is full, so no stage blocks, and a stage that does not block can go on. */
  lemma FewBatchesEnd<B>(p: Program<B>, run: seq<Action>)
    requires IsRun(p, run) && AtRest(p, StateAfter(p, run)) && |p.gen| <= CAPACITY
    ensures AllExited(p, StateAfter(p, run))
  {
    var n := StateAfter(p, run);
    RunKeepsInv(p, run);
    if !n.cancelled {
      MaximalRunDelivers(p, run);
    } else {
      forall i | 0 <= i < p.Stages()
        ensures n.stages[i].Exited?
      {
        if n.stages[i].Holding? {
          HoldingNeedsBatches(p, n, i);
        }
        assert n.stages[i].Holding? ==> Enabled(p, n, Send(i));
        assert n.stages[i].Idle? ==> Enabled(p, n, Exit(i)) || Enabled(p, n, Produce);
      }
    }
  }

  /** Whatever the schedule and whenever a job is cancelled, all its goroutines end, exactly if the generator has no
      more batches than a channel has room for. */
  lemma GoroutinesEndIff<B>(p: Program<B>)
    ensures (forall run :: IsRun(p, run) && AtRest(p, StateAfter(p, run)) ==> AllExited(p, StateAfter(p, run))) <==>
            |p.gen| <= 100
  {
    if |p.gen| <= CAPACITY {
      forall run | IsRun(p, run) && AtRest(p, StateAfter(p, run))
        ensures AllExited(p, StateAfter(p, run))
      {
        FewBatchesEnd(p, run);
      }
    } else {
      var run := GetStuck(p, 0);
      var more := RunToRest(p, run);
      StuckForGood(p, run, more, 0);
      assert !AllExited(p, StateAfter(p, run + more));
    }
  }
}
