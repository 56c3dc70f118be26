/** A compiled pipeline in execution: one goroutine per step, bounded channels between them, and the job engine
    reading the last one (internal/pipeline/Pipeline.go Execute, the Execute methods of plugins/steps,
    internal/jobs/Engine.go StartJob).

    Every interleaving is a sequence of actions. A channel is kept with its whole history, so that its buffer is the
    part of `sent` that has not been taken. Stage 0 is the generator; it never reads its input channel, so channel i
    is the output of stage i. */
module PipelineNetwork {
  import opened Common

  /** pipeBufferSize. */
  const CAPACITY: nat := 100

  datatype Channel<B> = Channel(sent: seq<B>, taken: nat, closed: bool) {
    function Pending(): int {
      |sent| - taken
    }
  }

  /** A stage waits at its select, or blocks on sending a batch, or has returned and closed its output. */
  datatype Stage<B> = Idle | Holding(batch: B) | Exited

  datatype Consumer = Reading | Finished | Aborted

  datatype Net<B> = Net(
    produced: nat, channels: seq<Channel<B>>, stages: seq<Stage<B>>,
    received: seq<B>, consumer: Consumer, cancelled: bool)

  /** The generator's batches, whether it looks at the cancellation before it sends (the search step does, the
      surrounding step does not), and the functions of the steps after it, which all do. */
  datatype Program<!B> = Program(gen: seq<B>, watches: bool, fs: seq<B -> B>) {
    function Stages(): nat {
      |fs| + 1
    }
  }

  datatype Action =
    | Produce        // the generator computes its next batch
    | Take(i: nat)   // stage i receives a batch and computes its result
    | Send(i: nat)   // stage i puts its batch into its output channel
    | Exit(i: nat)   // stage i returns: its input has ended, or it saw the cancellation
    | Receive        // the engine receives a batch
    | Finish         // the engine sees the output closed
    | Abort          // the engine sees the cancellation
    | Cancel

  function Init<B>(p: Program<B>): Net<B> {
    Net(0, seq(p.Stages(), _ => Channel([], 0, false)), seq(p.Stages(), _ => Idle), [], Reading, false)
  }

  predicate Shape<B>(p: Program<B>, n: Net<B>) {
    && |n.channels| == |n.stages| == p.Stages()
    && n.produced <= |p.gen|
    && forall i :: 0 <= i < p.Stages() ==> n.channels[i].taken <= |n.channels[i].sent|
  }

  predicate InputEnded<B>(p: Program<B>, n: Net<B>, i: nat)
    requires Shape(p, n) && i < p.Stages()
  {
    if i == 0 then n.produced == |p.gen| else n.channels[i - 1].closed && n.channels[i - 1].Pending() == 0
  }

  predicate Enabled<B>(p: Program<B>, n: Net<B>, a: Action)
    requires Shape(p, n)
  {
    var last := n.channels[p.Stages() - 1];
    match a
    case Produce => n.stages[0].Idle? && n.produced < |p.gen|
    case Take(i) => 0 < i < p.Stages() && n.stages[i].Idle? && n.channels[i - 1].Pending() > 0
    case Send(i) => i < p.Stages() && n.stages[i].Holding? && n.channels[i].Pending() < CAPACITY
    case Exit(i) => i < p.Stages() && n.stages[i].Idle? && (InputEnded(p, n, i) || (n.cancelled &&
      (i > 0 || p.watches)))
    case Receive => n.consumer.Reading? && last.Pending() > 0
    case Finish => n.consumer.Reading? && last.closed && last.Pending() == 0
    case Abort => n.consumer.Reading? && n.cancelled
    case Cancel => !n.cancelled
  }

  function Apply<B>(p: Program<B>, n: Net<B>, a: Action): Net<B>
    requires Shape(p, n) && Enabled(p, n, a)
  {
    match a
    case Produce =>
      n.(produced := n.produced + 1, stages := n.stages[0 := Holding(p.gen[n.produced])])
    case Take(i) =>
      var c := n.channels[i - 1];
      n.(channels := n.channels[i - 1 := c.(taken := c.taken + 1)],
         stages := n.stages[i := Holding(p.fs[i - 1](c.sent[c.taken]))])
    case Send(i) =>
      var c := n.channels[i];
      n.(channels := n.channels[i := c.(sent := c.sent + [n.stages[i].batch])], stages := n.stages[i := Idle])
    case Exit(i) =>
      n.(channels := n.channels[i := n.channels[i].(closed := true)], stages := n.stages[i := Exited])
    case Receive =>
      var i := p.Stages() - 1;
      var c := n.channels[i];
      n.(channels := n.channels[i := c.(taken := c.taken + 1)], received := n.received + [c.sent[c.taken]])
    case Finish => n.(consumer := Finished)
    case Abort => n.(consumer := Aborted)
    case Cancel => n.(cancelled := true)
  }

  // ---- Runs ----

  predicate IsRun<B>(p: Program<B>, run: seq<Action>)
    decreases |run|, 0
  {
    run == [] ||
    (var init := run[..|run| - 1];
     IsRun(p, init) && Shape(p, StateAfter(p, init)) && Enabled(p, StateAfter(p, init), run[|run| - 1]))
  }

  /** The state a run leads to. */
  function StateAfter<B>(p: Program<B>, run: seq<Action>): Net<B>
    requires IsRun(p, run)
    decreases |run|, 1
  {
    if run == [] then Init(p) else Apply(p, StateAfter(p, run[..|run| - 1]), run[|run| - 1])
  }

  // ---- The sequential reference ----

  /** What comes out of the first k steps after the generator when each batch is passed through them in turn. */
  function Image<B>(p: Program<B>, k: nat): (r: seq<B>)
    requires k <= |p.fs|
    ensures |r| == |p.gen|
  {
    if k == 0 then p.gen else Map(p.fs[k - 1], Image(p, k - 1))
  }

  function Sequential<B>(p: Program<B>): seq<B> {
    Image(p, |p.fs|)
  }

  // ---- The invariant ----

  function Held<B>(s: Stage<B>): seq<B> {
    if s.Holding? then [s.batch] else []
  }

  /** The batches stage i has taken so far. */
  function TakenBy<B>(p: Program<B>, n: Net<B>, i: nat): seq<B>
    requires Shape(p, n) && i < p.Stages()
  {
    if i == 0 then p.gen[..n.produced] else n.channels[i - 1].sent[..n.channels[i - 1].taken]
  }

  function Output<B>(p: Program<B>, n: Net<B>, i: nat): seq<B>
    requires Shape(p, n) && i < p.Stages()
  {
    n.channels[i].sent + Held(n.stages[i])
  }

  /** Stage i has sent, or is about to send, its function of everything it has taken so far and of nothing else. */
  ghost predicate Flow<B>(p: Program<B>, n: Net<B>, i: nat)
    requires Shape(p, n) && i < p.Stages()
  {
    Output(p, n, i) ==
    if i == 0 then TakenBy(p, n, i) else Map(p.fs[i - 1], TakenBy(p, n, i))
  }

  /** Without cancellation a stage has returned only when there was nothing left for it to do. */
  ghost predicate ExitedProperly<B>(p: Program<B>, n: Net<B>, i: nat)
    requires Shape(p, n) && i < p.Stages()
  {
    && (n.channels[i].closed <==> n.stages[i].Exited?)
    && (n.stages[i].Exited? && !n.cancelled ==> InputEnded(p, n, i))
  }

  ghost predicate Inv<B>(p: Program<B>, n: Net<B>) {
    && Shape(p, n)
    && (forall i :: 0 <= i < p.Stages() ==> Flow(p, n, i))
    && (forall i :: 0 <= i < p.Stages() ==> ExitedProperly(p, n, i))
    && (forall i :: 0 <= i < p.Stages() ==> n.channels[i].Pending() <= CAPACITY)
    && n.received == n.channels[p.Stages() - 1].sent[..n.channels[p.Stages() - 1].taken]
    && (n.consumer.Finished? ==> n.channels[p.Stages() - 1].closed && n.channels[p.Stages() - 1].Pending() == 0)
    && (n.consumer.Aborted? ==> n.cancelled)
  }

  lemma MapSnoc<A, B>(f: A -> B, s: seq<A>, x: A)
    ensures Map(f, s + [x]) == Map(f, s) + [f(x)]
  {
  }

  lemma ApplyKeepsShape<B>(p: Program<B>, n: Net<B>, a: Action)
    requires Shape(p, n) && Enabled(p, n, a)
    ensures Shape(p, Apply(p, n, a))
  {
  }

  lemma TakeTakes<B>(p: Program<B>, n: Net<B>, j: nat, i: nat)
    requires Shape(p, n) && Enabled(p, n, Take(j)) && i < p.Stages()
    ensures var c, n' := n.channels[j - 1], Apply(p, n, Take(j));
            && Shape(p, n')
            && TakenBy(p, n', i) == TakenBy(p, n, i) + (if i == j then [c.sent[c.taken]] else [])
  {
    ApplyKeepsShape(p, n, Take(j));
    var c := n.channels[j - 1];
    assert c.sent[..c.taken + 1] == c.sent[..c.taken] + [c.sent[c.taken]];
  }

  lemma OthersTakeNothing<B>(p: Program<B>, n: Net<B>, a: Action, i: nat)
    requires Shape(p, n) && Enabled(p, n, a) && i < p.Stages()
    requires !a.Take? && !(a.Produce? && i == 0)
    ensures Shape(p, Apply(p, n, a)) && TakenBy(p, Apply(p, n, a), i) == TakenBy(p, n, i)
  {
    ApplyKeepsShape(p, n, a);
    if a.Send? && a.i + 1 == i {
      var c := n.channels[a.i];
      assert (c.sent + [n.stages[a.i].batch])[..c.taken] == c.sent[..c.taken];
    }
  }

  lemma OutputAfter<B>(p: Program<B>, n: Net<B>, a: Action, i: nat)
    requires Shape(p, n) && Enabled(p, n, a) && i < p.Stages()
    ensures Shape(p, Apply(p, n, a))
    ensures Output(p, Apply(p, n, a), i) == Output(p, n, i) +
            if a == Take(i) then [p.fs[i - 1](n.channels[i - 1].sent[n.channels[i - 1].taken])]
            else if a.Produce? && i == 0 then [p.gen[n.produced]]
            else []
  {
    ApplyKeepsShape(p, n, a);
  }

  lemma FlowGrows<B>(f: B -> B, out: seq<B>, taken: seq<B>, x: B)
    requires out == Map(f, taken)
    ensures out + [f(x)] == Map(f, taken + [x])
  {
    MapSnoc(f, taken, x);
  }

  lemma FlowAfterTake<B>(p: Program<B>, n: Net<B>, i: nat)
    requires Shape(p, n) && Enabled(p, n, Take(i)) && Flow(p, n, i)
    ensures Shape(p, Apply(p, n, Take(i))) && Flow(p, Apply(p, n, Take(i)), i)
  {
    hide Apply, TakenBy, Output, Map;
    TakeTakes(p, n, i, i);
    OutputAfter(p, n, Take(i), i);
    var c := n.channels[i - 1];
    FlowGrows(p.fs[i - 1], Output(p, n, i), TakenBy(p, n, i), c.sent[c.taken]);
  }

  lemma ApplyKeepsFlow<B>(p: Program<B>, n: Net<B>, a: Action, i: nat)
    requires Shape(p, n) && Enabled(p, n, a) && i < p.Stages() && Flow(p, n, i)
    ensures Shape(p, Apply(p, n, a)) && Flow(p, Apply(p, n, a), i)
  {
    OutputAfter(p, n, a, i);
    if a == Take(i) {
      FlowAfterTake(p, n, i);
    } else if a.Take? {
      TakeTakes(p, n, a.i, i);
    } else if a.Produce? && i == 0 {
      assert p.gen[..n.produced + 1] == p.gen[..n.produced] + [p.gen[n.produced]];
    } else {
      OthersTakeNothing(p, n, a, i);
    }
  }

  lemma ApplyKeepsExits<B>(p: Program<B>, n: Net<B>, a: Action, i: nat)
    requires Inv(p, n) && Enabled(p, n, a) && i < p.Stages()
    ensures Shape(p, Apply(p, n, a)) && ExitedProperly(p, Apply(p, n, a), i)
  {
    assert ExitedProperly(p, n, i);
    if i > 0 {
      assert ExitedProperly(p, n, i - 1);
    }
    ApplyKeepsShape(p, n, a);
  }

  lemma ApplyKeepsConsumer<B>(p: Program<B>, n: Net<B>, a: Action)
    requires Inv(p, n) && Enabled(p, n, a)
    ensures var n', last := Apply(p, n, a), p.Stages() - 1;
            && Shape(p, n')
            && n'.received == n'.channels[last].sent[..n'.channels[last].taken]
            && (n'.consumer.Finished? ==> n'.channels[last].closed && n'.channels[last].Pending() == 0)
  {
    ApplyKeepsShape(p, n, a);
    var last := p.Stages() - 1;
    assert ExitedProperly(p, n, last);
    var c := n.channels[last];
    if a.Receive? {
      assert c.sent[..c.taken + 1] == c.sent[..c.taken] + [c.sent[c.taken]];
    } else if a == Send(last) {
      assert (c.sent + [n.stages[last].batch])[..c.taken] == c.sent[..c.taken];
    }
  }

  lemma ApplyKeepsInv<B>(p: Program<B>, n: Net<B>, a: Action)
    requires Inv(p, n) && Enabled(p, n, a)
    ensures Inv(p, Apply(p, n, a))
  {
    var n' := Apply(p, n, a);
    ApplyKeepsShape(p, n, a);
    forall i | 0 <= i < p.Stages()
      ensures Flow(p, n', i) && ExitedProperly(p, n', i) && n'.channels[i].Pending() <= CAPACITY
    {
      ApplyKeepsFlow(p, n, a, i);
      ApplyKeepsExits(p, n, a, i);
    }
    ApplyKeepsConsumer(p, n, a);
  }

  lemma {:induction false} RunKeepsInv<B>(p: Program<B>, run: seq<Action>)
    requires IsRun(p, run)
    ensures Inv(p, StateAfter(p, run))
  {
    if run != [] {
      RunKeepsInv(p, run[..|run| - 1]);
      ApplyKeepsInv(p, StateAfter(p, run[..|run| - 1]), run[|run| - 1]);
    }
  }

  // ---- Safety: the result does not depend on the schedule ----

  lemma MapPrefix<A, B>(f: A -> B, s: seq<A>, t: seq<A>)
    requires s <= t
    ensures Map(f, s) <= Map(f, t)
  {
  }

  lemma {:induction false} SentIsPrefix<B>(p: Program<B>, n: Net<B>, i: nat)
    requires Inv(p, n) && i < p.Stages()
    ensures n.channels[i].sent <= Image(p, i)
  {
    assert Flow(p, n, i);
    if i > 0 {
      SentIsPrefix(p, n, i - 1);
      var before := n.channels[i - 1];
      MapPrefix(p.fs[i - 1], before.sent[..before.taken], Image(p, i - 1));
    }
  }

  /** In every run, at every moment and whether or not the job is cancelled, the batches the engine has received are
      a prefix of what the steps yield one after the other. */
  lemma ReceivedIsPrefix<B>(p: Program<B>, run: seq<Action>)
    requires IsRun(p, run)
    ensures StateAfter(p, run).received <= Sequential(p)
  {
    var n := StateAfter(p, run);
    RunKeepsInv(p, run);
    SentIsPrefix(p, n, |p.fs|);
    var c := n.channels[|p.fs|];
    assert c.sent[..c.taken] <= c.sent;
  }

  lemma {:induction false} ExitedIsComplete<B>(p: Program<B>, n: Net<B>, i: nat)
    requires Inv(p, n) && !n.cancelled && i < p.Stages() && n.stages[i].Exited?
    ensures n.channels[i].sent == Image(p, i)
    ensures forall j :: 0 <= j <= i ==> n.stages[j].Exited?
  {
    assert Flow(p, n, i) && ExitedProperly(p, n, i);
    if i > 0 {
      assert ExitedProperly(p, n, i - 1);
      ExitedIsComplete(p, n, i - 1);
      var before := n.channels[i - 1];
      assert before.sent[..before.taken] == before.sent;
    } else {
      assert p.gen[..|p.gen|] == p.gen;
    }
  }

  /** If the engine sees the end of an uncancelled job it has received all of it, and every goroutine is done. */
  lemma FinishedIsComplete<B>(p: Program<B>, run: seq<Action>)
    requires IsRun(p, run)
    requires StateAfter(p, run).consumer.Finished? && !StateAfter(p, run).cancelled
    ensures StateAfter(p, run).received == Sequential(p)
    ensures forall i :: 0 <= i < p.Stages() ==> StateAfter(p, run).stages[i].Exited?
  {
    var n := StateAfter(p, run);
    RunKeepsInv(p, run);
    assert ExitedProperly(p, n, |p.fs|);
    ExitedIsComplete(p, n, |p.fs|);
    var c := n.channels[|p.fs|];
    assert c.sent[..c.taken] == c.sent;
  }

  // ---- Progress ----

  /** A stage that has room for its output either can move itself, or some stage before it can. */
  lemma {:induction false} StageCanMove<B>(p: Program<B>, n: Net<B>, i: nat) returns (a: Action)
    requires Inv(p, n) && i < p.Stages()
    requires !n.stages[i].Exited? && n.channels[i].Pending() < CAPACITY
    ensures !a.Cancel? && Enabled(p, n, a)
  {
    if n.stages[i].Holding? {
      a := Send(i);
    } else if i == 0 {
      a := if n.produced < |p.gen| then Produce else Exit(0);
    } else if n.channels[i - 1].Pending() > 0 {
      a := Take(i);
    } else {
      assert ExitedProperly(p, n, i - 1);
      if n.channels[i - 1].closed {
        a := Exit(i);
      } else {
        a := StageCanMove(p, n, i - 1);
      }
    }
  }

  /** As long as the engine is reading, something other than a cancellation can happen. */
  lemma NoDeadlock<B>(p: Program<B>, run: seq<Action>) returns (a: Action)
    requires IsRun(p, run) && StateAfter(p, run).consumer.Reading?
    ensures Shape(p, StateAfter(p, run)) && !a.Cancel? && Enabled(p, StateAfter(p, run), a)
  {
    var n, last := StateAfter(p, run), |p.fs|;
    RunKeepsInv(p, run);
    assert ExitedProperly(p, n, last);
    if n.channels[last].Pending() > 0 {
      a := Receive;
    } else if n.channels[last].closed {
      a := Finish;
    } else {
      a := StageCanMove(p, n, last);
    }
  }

  // ---- Termination ----

  function ChannelWork<B>(cs: seq<Channel<B>>): nat {
    if cs == [] then 0
    else |cs[0].sent| + cs[0].taken + (if cs[0].closed then 1 else 0) + ChannelWork(cs[1..])
  }

  /** How much of the run is behind us: batches produced, sends, receives, closed channels, the engine's decision. */
  function Work<B>(n: Net<B>): nat {
    n.produced + ChannelWork(n.channels) + (if n.consumer.Reading? then 0 else 1) + (if n.cancelled then 1 else 0)
  }

  lemma {:induction false} ChannelWorkUpdate<B>(cs: seq<Channel<B>>, i: nat, c: Channel<B>)
    requires i < |cs|
    ensures ChannelWork(cs[i := c]) - (|c.sent| + c.taken + (if c.closed then 1 else 0)) ==
            ChannelWork(cs) - (|cs[i].sent| + cs[i].taken + (if cs[i].closed then 1 else 0))
  {
    if i == 0 {
      assert cs[0 := c][1..] == cs[1..];
    } else {
      assert cs[i := c][1..] == cs[1..][i - 1 := c];
      ChannelWorkUpdate(cs[1..], i - 1, c);
    }
  }

  lemma ApplyWorks<B>(p: Program<B>, n: Net<B>, a: Action)
    requires Inv(p, n) && Enabled(p, n, a)
    ensures Work(Apply(p, n, a)) == Work(n) + 1
  {
    var n' := Apply(p, n, a);
    match a
    case Produce =>
    case Take(i) => ChannelWorkUpdate(n.channels, i - 1, n'.channels[i - 1]);
    case Send(i) => ChannelWorkUpdate(n.channels, i, n'.channels[i]);
    case Exit(i) =>
      assert ExitedProperly(p, n, i);
      ChannelWorkUpdate(n.channels, i, n'.channels[i]);
    case Receive => ChannelWorkUpdate(n.channels, p.Stages() - 1, n'.channels[p.Stages() - 1]);
    case Finish =>
    case Abort =>
    case Cancel =>
  }

  lemma {:induction false} ChannelWorkBound<B>(cs: seq<Channel<B>>, m: nat)
    requires forall i :: 0 <= i < |cs| ==> |cs[i].sent| <= m && cs[i].taken <= m
    ensures ChannelWork(cs) <= |cs| * (2 * m + 1)
  {
    if cs != [] {
      ChannelWorkBound(cs[1..], m);
      assert |cs| * (2 * m + 1) == (|cs| - 1) * (2 * m + 1) + 2 * m + 1;
    }
  }

  lemma {:induction false} RunWorks<B>(p: Program<B>, run: seq<Action>)
    requires IsRun(p, run)
    ensures Work(StateAfter(p, run)) == |run|
  {
    if run == [] {
      InitWork(p, p.Stages());
    } else {
      RunWorks(p, run[..|run| - 1]);
      RunKeepsInv(p, run[..|run| - 1]);
      ApplyWorks(p, StateAfter(p, run[..|run| - 1]), run[|run| - 1]);
    }
  }

  lemma {:induction false} InitWork<B>(p: Program<B>, k: nat)
    ensures ChannelWork<B>(seq(k, _ => Channel([], 0, false))) == 0
  {
    if k > 0 {
      var cs: seq<Channel<B>> := seq(k, _ => Channel([], 0, false));
      assert cs[1..] == seq(k - 1, _ => Channel([], 0, false));
      InitWork(p, k - 1);
    }
  }

  /** Every run, under every schedule, is finite: its length has a bound in the number of batches and steps. */
  lemma RunsAreBounded<B>(p: Program<B>, run: seq<Action>)
    requires IsRun(p, run)
    ensures |run| <= |p.gen| + p.Stages() * (2 * |p.gen| + 1) + 2
  {
    var n := StateAfter(p, run);
    RunKeepsInv(p, run);
    RunWorks(p, run);
    forall i | 0 <= i < p.Stages()
      ensures |n.channels[i].sent| <= |p.gen| && n.channels[i].taken <= |p.gen|
    {
      SentIsPrefix(p, n, i);
    }
    ChannelWorkBound(n.channels, |p.gen|);
  }

  /** A run that was not cancelled and cannot go on has delivered exactly the sequential result. */
  lemma MaximalRunDelivers<B>(p: Program<B>, run: seq<Action>)
    requires IsRun(p, run) && Shape(p, StateAfter(p, run)) && !StateAfter(p, run).cancelled
    requires forall a: Action :: !a.Cancel? ==> !Enabled(p, StateAfter(p, run), a)
    ensures StateAfter(p, run).consumer.Finished?
    ensures StateAfter(p, run).received == Sequential(p)
    ensures forall i :: 0 <= i < p.Stages() ==> StateAfter(p, run).stages[i].Exited?
  {
    RunKeepsInv(p, run);
    if StateAfter(p, run).consumer.Reading? {
      var a := NoDeadlock(p, run);
      assert false;
    }
    FinishedIsComplete(p, run);
  }
}
