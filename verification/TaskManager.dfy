/** Task workers across configuration changes (internal/tasks/TaskManager.go). Every goroutine takes small steps: the
    manager inside UpdateConfig, and one worker for each call of ScheduleTask. A worker is known by its number,
    which also stands for its context and its isCancelled channel. */
module TaskManager {
  import opened Common

  datatype TaskConfig = TaskConfig(enabled: bool, interval: nat, settings: int)

  /** The tasks section of the configuration, by task name. */
  type Config = map<string, TaskConfig>

  /** An entry of the taskData map. */
  datatype TaskData = TaskData(worker: nat, config: TaskConfig, running: bool)

  datatype Status = Waiting | Running | Exited

  /** `token` is the content of the isCancelled channel, which has room for one. */
  datatype Worker = Worker(name: string, config: TaskConfig, status: Status, cancelled: bool, token: bool)

  /** Where the manager is in UpdateConfig. */
  datatype Phase =
    | Idle
    | Cancelling(todo: set<string>)
    | Awaiting(todo: set<string>, name: string, worker: nat)
    | Scheduling(todo: set<string>)

  datatype State = State(cfg: Config, taskData: map<string, TaskData>, workers: seq<Worker>, phase: Phase,
    stopped: bool)

  datatype Action =
    | Update(cfg: Config)      // UpdateConfig is called
    | CancelNext(name: string) // cancel the worker of one task, or find that the task has none
    | ReceiveToken             // the worker waited for has confirmed
    | RemoveTasks              // drop the entries of disabled and missing tasks
    | Schedule(name: string)
    | Return
    | Tick(w: nat)             // the ticker fires and the worker looks at it
    | RunEnds(w: nat)
    | Stop(w: nat)             // the worker sees its context done, confirms and returns
    | StopAll                  // the program's own context is cancelled

  /** Enabled tasks have a positive interval: time.NewTicker panics on any other. */
  predicate ValidConfig(cfg: Config) {
    forall n :: n in cfg && cfg[n].enabled ==> cfg[n].interval > 0
  }

  function EnabledIn(cfg: Config): set<string> {
    set n | n in cfg && cfg[n].enabled
  }

  /** What ScheduleTask takes for a task without a configuration: disabled, every hour, no settings. */
  function Unconfigured(): TaskConfig {
    TaskConfig(false, 3_600_000_000_000, 0)
  }

  /** NewTaskManager calls UpdateConfig before anybody else can. */
  function Init(known: set<string>, cfg: Config): State {
    State(cfg, map[], [], Cancelling(known), false)
  }

  predicate Enabled(known: set<string>, s: State, a: Action) {
    match a
    case Update(cfg) => s.phase.Idle? && ValidConfig(cfg)
    case CancelNext(name) => s.phase.Cancelling? && name in s.phase.todo
    case ReceiveToken => s.phase.Awaiting? && s.phase.worker < |s.workers| && s.workers[s.phase.worker].token
    case RemoveTasks => s.phase.Cancelling? && s.phase.todo == {}
    case Schedule(name) => s.phase.Scheduling? && name in s.phase.todo
    case Return => s.phase.Scheduling? && s.phase.todo == {}
    case Tick(w) => w < |s.workers| && s.workers[w].status == Waiting
    case RunEnds(w) => w < |s.workers| && s.workers[w].status == Running
    case Stop(w) => w < |s.workers| && s.workers[w].status == Waiting && (s.workers[w].cancelled || s.stopped)
    case StopAll => true
  }

  function SetWorker(s: State, w: nat, x: Worker): State
    requires w < |s.workers|
  {
    s.(workers := s.workers[w := x])
  }

  /** A worker writes its own copy of its entry back, whatever the map holds by then. */
  function Store(s: State, w: nat, running: bool): State
    requires w < |s.workers|
  {
    s.(taskData := s.taskData[s.workers[w].name := TaskData(w, s.workers[w].config, running)])
  }

  function Apply(known: set<string>, s: State, a: Action): State
    requires Enabled(known, s, a)
  {
    match a
    case Update(cfg) => s.(cfg := cfg, phase := Cancelling(known))
    case CancelNext(name) =>
      var todo := s.phase.todo - {name};
      if name in s.taskData then
        var w := s.taskData[name].worker;
        if w < |s.workers| then
          SetWorker(s, w, s.workers[w].(cancelled := true)).(phase := Awaiting(todo, name, w))
        else s
      else s.(phase := Cancelling(todo))
    case ReceiveToken =>
      var w := s.phase.worker;
      SetWorker(s, w, s.workers[w].(token := false)).(phase := Cancelling(s.phase.todo))
    case RemoveTasks =>
      s.(taskData := map n | n in s.taskData && (n !in known || n in EnabledIn(s.cfg)) :: s.taskData[n],
         phase := Scheduling(EnabledIn(s.cfg)))
    case Schedule(name) =>
      var s' := s.(phase := Scheduling(s.phase.todo - {name}));
      if name !in known then s'
      else
        var config := if name in s.cfg then s.cfg[name] else Unconfigured();
        s'.(taskData := s.taskData[name := TaskData(|s.workers|, config, false)],
            workers := s.workers + [Worker(name, config, Waiting, false, false)])
    case Return => s.(phase := Idle)
    case Tick(w) =>
      if s.workers[w].config.enabled
      then SetWorker(Store(s, w, true), w, s.workers[w].(status := Running))
      else s
    case RunEnds(w) => SetWorker(Store(s, w, false), w, s.workers[w].(status := Waiting))
    case Stop(w) => SetWorker(s, w, s.workers[w].(status := Exited, token := true))
    case StopAll => s.(stopped := true)
  }

  predicate IsRun(known: set<string>, cfg: Config, run: seq<Action>)
    decreases |run|, 0
  {
    if run == [] then ValidConfig(cfg)
    else
      var init := run[..|run| - 1];
      IsRun(known, cfg, init) && Enabled(known, StateAfter(known, cfg, init), run[|run| - 1])
  }

  function StateAfter(known: set<string>, cfg: Config, run: seq<Action>): State
    requires IsRun(known, cfg, run)
    decreases |run|, 1
  {
    if run == [] then Init(known, cfg)
    else Apply(known, StateAfter(known, cfg, run[..|run| - 1]), run[|run| - 1])
  }

  // ---- The invariant ----

  predicate Live(s: State, w: nat) {
    w < |s.workers| && s.workers[w].status != Exited
  }

  /** The worker of a task has neither confirmed nor will it have to again: only between the confirmation and the
      task's next scheduling. */
  predicate MayBeGone(s: State, name: string) {
    match s.phase
    case Idle => false
    case Cancelling(todo) => name !in todo
    case Awaiting(todo, awaited, _) => name !in todo && name != awaited
    case Scheduling(todo) => name in todo
  }

  /** Each entry names a worker of its task, with its settings. */
  predicate EntryOk(known: set<string>, s: State, name: string)
    requires name in s.taskData
  {
    var w := s.taskData[name].worker;
    && name in known
    && w < |s.workers|
    && s.workers[w].name == name && s.workers[w].config == s.taskData[name].config
    && (if MayBeGone(s, name) then s.workers[w].status == Exited else Live(s, w) || s.workers[w].token)
    && (Live(s, w) && s.workers[w].cancelled ==> s.phase.Awaiting? && s.phase.name == name)
  }

  /** A live worker is the one its task's entry names, and it has not confirmed yet. */
  predicate WorkerOk(s: State, w: nat)
    requires w < |s.workers|
  {
    && (Live(s, w) ==>
          s.workers[w].name in s.taskData && s.taskData[s.workers[w].name].worker == w && !s.workers[w].token)
    && (s.workers[w].status == Exited ==> s.workers[w].cancelled || s.stopped)
  }

  /** Entries that will not be scheduled again hold what the current configuration says. */
  predicate ConfigOk(known: set<string>, s: State) {
    match s.phase
    case Idle =>
      s.taskData.Keys == EnabledIn(s.cfg) * known &&
      forall n :: n in s.taskData && n in s.cfg ==> s.taskData[n].config == s.cfg[n]
    case Scheduling(todo) =>
      && todo <= EnabledIn(s.cfg)
      && s.taskData.Keys <= EnabledIn(s.cfg) * known
      && (forall n :: n in EnabledIn(s.cfg) && n in known && n !in todo ==>
            n in s.taskData && s.taskData[n].config == s.cfg[n])
    case _ => true
  }

  predicate PhaseOk(known: set<string>, s: State) {
    match s.phase
    case Cancelling(todo) => todo <= known
    case Awaiting(todo, name, w) =>
      todo <= known && name !in todo && name in s.taskData && s.taskData[name].worker == w && w < |s.workers| &&
      s.workers[w].cancelled
    case _ => true
  }

  predicate Inv(known: set<string>, s: State) {
    && (forall n :: n in s.taskData ==> EntryOk(known, s, n))
    && (forall w :: 0 <= w < |s.workers| ==> WorkerOk(s, w))
    && ConfigOk(known, s)
    && PhaseOk(known, s)
  }

  lemma WorkerStepKeepsEntry(known: set<string>, s: State, a: Action, n: string)
    requires a.Tick? || a.RunEnds? || a.Stop?
    requires Enabled(known, s, a) && n in s.taskData && EntryOk(known, s, n) && WorkerOk(s, a.w)
    ensures var s' := Apply(known, s, a); n in s'.taskData && EntryOk(known, s', n)
  {
  }

  lemma ManagerStepKeepsEntry(known: set<string>, s: State, a: Action, n: string)
    requires !a.Tick? && !a.RunEnds? && !a.Stop?
    requires Enabled(known, s, a) && PhaseOk(known, s) && n in s.taskData && EntryOk(known, s, n)
    requires a.Schedule? ==> a.name in EnabledIn(s.cfg)
    requires WorkerOk(s, s.taskData[n].worker)
    requires a.CancelNext? && a.name in s.taskData ==> EntryOk(known, s, a.name)
    requires a.ReceiveToken? ==>
               EntryOk(known, s, s.phase.name) && WorkerOk(s, s.phase.worker)
    ensures var s' := Apply(known, s, a); n in s'.taskData ==> EntryOk(known, s', n)
  {
  }

  lemma EntriesKept(known: set<string>, s: State, a: Action)
    requires Inv(known, s) && Enabled(known, s, a)
    ensures forall n :: n in Apply(known, s, a).taskData ==> EntryOk(known, Apply(known, s, a), n)
  {
    hide EntryOk, WorkerOk, ConfigOk;
    var s' := Apply(known, s, a);
    ScheduledIsEnabled(known, s);
    forall n | n in s'.taskData
      ensures EntryOk(known, s', n)
    {
      if a.Tick? || a.RunEnds? || a.Stop? {
        assert WorkerOk(s, a.w);
        NameKnown(s, a.w);
        WorkerStepKeepsEntry(known, s, a, n);
      } else if n in s.taskData {
        assert EntryOk(known, s, n);
        EntryWorker(known, s, n);
        assert WorkerOk(s, s.taskData[n].worker);
        ManagerStepKeepsEntry(known, s, a, n);
      } else {
        NewEntryOk(known, s, a.name);
      }
    }
  }

  lemma ScheduledIsEnabled(known: set<string>, s: State)
    requires ConfigOk(known, s)
    ensures s.phase.Scheduling? ==> s.phase.todo <= EnabledIn(s.cfg)
  {
  }

  lemma NameKnown(s: State, w: nat)
    requires w < |s.workers| && WorkerOk(s, w)
    ensures Live(s, w) ==> s.workers[w].name in s.taskData
  {
  }

  lemma EntryWorker(known: set<string>, s: State, n: string)
    requires n in s.taskData && EntryOk(known, s, n)
    ensures n in known && s.taskData[n].worker < |s.workers|
  {
  }

  lemma NewEntryOk(known: set<string>, s: State, n: string)
    requires Enabled(known, s, Schedule(n)) && n in known
    ensures n in Apply(known, s, Schedule(n)).taskData && EntryOk(known, Apply(known, s, Schedule(n)), n)
  {
  }

  lemma WorkerStepKeepsWorker(known: set<string>, s: State, a: Action, w: nat)
    requires a.Tick? || a.RunEnds? || a.Stop?
    requires Enabled(known, s, a) && w < |s.workers| && WorkerOk(s, w) && WorkerOk(s, a.w)
    ensures WorkerOk(Apply(known, s, a), w)
  {
  }

  lemma ManagerStepKeepsWorker(known: set<string>, s: State, a: Action, w: nat)
    requires !a.Tick? && !a.RunEnds? && !a.Stop?
    requires Enabled(known, s, a) && w < |s.workers| && WorkerOk(s, w)
    requires s.workers[w].name in s.taskData ==> EntryOk(known, s, s.workers[w].name)
    ensures WorkerOk(Apply(known, s, a), w)
  {
  }

  lemma NewWorkerOk(known: set<string>, s: State, a: Action, w: nat)
    requires Enabled(known, s, a) && |s.workers| <= w < |Apply(known, s, a).workers|
    ensures WorkerOk(Apply(known, s, a), w)
  {
  }

  lemma WorkersKept(known: set<string>, s: State, a: Action)
    requires Inv(known, s) && Enabled(known, s, a)
    ensures forall w :: 0 <= w < |Apply(known, s, a).workers| ==> WorkerOk(Apply(known, s, a), w)
  {
    hide EntryOk, WorkerOk, ConfigOk, PhaseOk, Apply;
    var s' := Apply(known, s, a);
    forall w | 0 <= w < |s'.workers|
      ensures WorkerOk(s', w)
    {
      if w >= |s.workers| {
        NewWorkerOk(known, s, a, w);
      } else if a.Tick? || a.RunEnds? || a.Stop? {
        assert WorkerOk(s, a.w);
        WorkerStepKeepsWorker(known, s, a, w);
      } else {
        ManagerStepKeepsWorker(known, s, a, w);
      }
    }
  }

  lemma WorkerStepKeepsConfig(known: set<string>, s: State, a: Action)
    requires a.Tick? || a.RunEnds? || a.Stop?
    requires ConfigOk(known, s) && PhaseOk(known, s) && Enabled(known, s, a) && WorkerOk(s, a.w)
    requires s.workers[a.w].name in s.taskData ==> EntryOk(known, s, s.workers[a.w].name)
    ensures ConfigOk(known, Apply(known, s, a)) && PhaseOk(known, Apply(known, s, a))
  {
    var s' := Apply(known, s, a);
    var n := s.workers[a.w].name;
    assert n in s.taskData && s.taskData[n].config == s.workers[a.w].config;
    assert s'.taskData.Keys == s.taskData.Keys;
    assert forall m :: m in s.taskData ==> s'.taskData[m].config == s.taskData[m].config;
    assert forall m :: m in s.taskData ==> s'.taskData[m].worker == s.taskData[m].worker;
  }

  lemma ManagerStepKeepsConfig(known: set<string>, s: State, a: Action)
    requires !a.Tick? && !a.RunEnds? && !a.Stop?
    requires ConfigOk(known, s) && PhaseOk(known, s) && Enabled(known, s, a)
    requires s.taskData.Keys <= known
    requires a.CancelNext? && a.name in s.taskData ==> EntryOk(known, s, a.name)
    ensures ConfigOk(known, Apply(known, s, a)) && PhaseOk(known, Apply(known, s, a))
  {
  }

  lemma ConfigKept(known: set<string>, s: State, a: Action)
    requires Inv(known, s) && Enabled(known, s, a)
    ensures ConfigOk(known, Apply(known, s, a)) && PhaseOk(known, Apply(known, s, a))
  {
    hide EntryOk, WorkerOk, ConfigOk, PhaseOk, Apply;
    if a.Tick? || a.RunEnds? || a.Stop? {
      assert WorkerOk(s, a.w);
      WorkerStepKeepsConfig(known, s, a);
    } else {
      forall n | n in s.taskData
        ensures n in known
      {
        EntryWorker(known, s, n);
      }
      ManagerStepKeepsConfig(known, s, a);
    }
  }

  lemma {:induction false} RunKeepsInv(known: set<string>, cfg: Config, run: seq<Action>)
    requires IsRun(known, cfg, run)
    ensures Inv(known, StateAfter(known, cfg, run))
  {
    if run != [] {
      var init, a := run[..|run| - 1], run[|run| - 1];
      RunKeepsInv(known, cfg, init);
      var s := StateAfter(known, cfg, init);
      EntriesKept(known, s, a);
      WorkersKept(known, s, a);
      ConfigKept(known, s, a);
    }
  }

  // ---- What follows ----

  /** At any moment each task has at most one live worker; in particular two runs of a task never overlap. */
  lemma {:induction false} OneWorkerPerTask(known: set<string>, cfg: Config, run: seq<Action>, v: nat, w: nat)
    requires IsRun(known, cfg, run)
    requires var s := StateAfter(known, cfg, run);
             Live(s, v) && Live(s, w) && s.workers[v].name == s.workers[w].name
    ensures v == w
  {
    var s := StateAfter(known, cfg, run);
    RunKeepsInv(known, cfg, run);
    assert WorkerOk(s, v) && WorkerOk(s, w);
  }

  /** When UpdateConfig has returned, and unless the whole program is stopping, the live workers are exactly those of
      the known enabled tasks, each with the settings of the current configuration, and none of them is cancelled. */
  lemma ReturnedMeansApplied(known: set<string>, cfg: Config, run: seq<Action>)
    requires IsRun(known, cfg, run)
    requires StateAfter(known, cfg, run).phase.Idle? && !StateAfter(known, cfg, run).stopped
    ensures var s := StateAfter(known, cfg, run);
            && (forall w: nat :: Live(s, w) ==>
                  var x := s.workers[w];
                  x.name in known && x.name in s.cfg && s.cfg[x.name].enabled && x.config == s.cfg[x.name] &&
                    !x.cancelled)
            && (forall n :: n in known && n in s.cfg && s.cfg[n].enabled ==>
                  exists w: nat :: Live(s, w) && s.workers[w].name == n)
  {
    var s := StateAfter(known, cfg, run);
    RunKeepsInv(known, cfg, run);
    forall w: nat | Live(s, w)
      ensures var x := s.workers[w];
              x.name in known && x.name in s.cfg && s.cfg[x.name].enabled && x.config == s.cfg[x.name] && !x.cancelled
    {
      assert WorkerOk(s, w);
      assert EntryOk(known, s, s.workers[w].name);
    }
    forall n | n in known && n in s.cfg && s.cfg[n].enabled
      ensures exists w: nat :: Live(s, w) && s.workers[w].name == n
    {
      assert n in s.taskData.Keys;
      assert EntryOk(known, s, n);
      LastTokenTaken(known, cfg, run, n);
      assert Live(s, s.taskData[n].worker);
    }
  }

  /** The current configuration is the one of the last call of UpdateConfig, or the initial one if there was none. */
  lemma {:induction false} LastConfigCounts(known: set<string>, cfg: Config, run: seq<Action>, last: int)
    requires IsRun(known, cfg, run) && -1 <= last < |run| && (last >= 0 ==> run[last].Update?)
    requires forall i :: last < i < |run| ==> !run[i].Update?
    ensures StateAfter(known, cfg, run).cfg == if last < 0 then cfg else run[last].cfg
  {
    if last < |run| - 1 {
      var init := run[..|run| - 1];
      LastConfigCounts(known, cfg, init, last);
    }
  }

  /** A worker that was never cancelled has not confirmed anything, unless the whole program is stopping. */
  lemma {:induction false} LastTokenTaken(known: set<string>, cfg: Config, run: seq<Action>, n: string)
    requires IsRun(known, cfg, run) && StateAfter(known, cfg, run).phase.Idle? && !StateAfter(known, cfg, run).stopped
    requires n in StateAfter(known, cfg, run).taskData
    ensures Live(StateAfter(known, cfg, run), StateAfter(known, cfg, run).taskData[n].worker)
  {
    RunKeepsInv(known, cfg, run);
    FreshEntries(known, cfg, run);
    var s := StateAfter(known, cfg, run);
    var w := s.taskData[n].worker;
    assert EntryOk(known, s, n) && WorkerOk(s, w);
  }

  predicate DoneWith(s: State, n: string) {
    s.phase.Idle? || (s.phase.Scheduling? && n !in s.phase.todo)
  }

  predicate FreshEntry(s: State, n: string)
    requires n in s.taskData
  {
    DoneWith(s, n) && s.taskData[n].worker < |s.workers| ==> !s.workers[s.taskData[n].worker].cancelled
  }

  /** Entries that UpdateConfig is done with have not been cancelled. */
  predicate Fresh(s: State) {
    forall n :: n in s.taskData ==> FreshEntry(s, n)
  }

  lemma {:induction false} FreshEntries(known: set<string>, cfg: Config, run: seq<Action>)
    requires IsRun(known, cfg, run)
    ensures Fresh(StateAfter(known, cfg, run))
  {
    if run != [] {
      var init, a := run[..|run| - 1], run[|run| - 1];
      FreshEntries(known, cfg, init);
      RunKeepsInv(known, cfg, init);
      FreshKept(known, StateAfter(known, cfg, init), a);
    }
  }

  lemma WorkerStepKeepsFresh(known: set<string>, s: State, a: Action, n: string)
    requires a.Tick? || a.RunEnds? || a.Stop?
    requires Enabled(known, s, a) && WorkerOk(s, a.w) && n in s.taskData && FreshEntry(s, n) && EntryOk(known, s, n)
    ensures var s' := Apply(known, s, a); n in s'.taskData && FreshEntry(s', n)
  {
  }

  lemma ManagerStepKeepsFresh(known: set<string>, s: State, a: Action, n: string)
    requires !a.Tick? && !a.RunEnds? && !a.Stop?
    requires Enabled(known, s, a) && n in Apply(known, s, a).taskData
    requires n in s.taskData ==> FreshEntry(s, n) && EntryOk(known, s, n)
    ensures FreshEntry(Apply(known, s, a), n)
  {
  }

  lemma FreshKept(known: set<string>, s: State, a: Action)
    requires Inv(known, s) && Enabled(known, s, a) && Fresh(s)
    ensures Fresh(Apply(known, s, a))
  {
    hide EntryOk, WorkerOk, ConfigOk, PhaseOk, Apply, FreshEntry;
    var s' := Apply(known, s, a);
    forall n | n in s'.taskData
      ensures FreshEntry(s', n)
    {
      if a.Tick? || a.RunEnds? || a.Stop? {
        assert WorkerOk(s, a.w);
        NameKnown(s, a.w);
        WorkerStepAddsNoEntry(known, s, a);
        WorkerStepKeepsFresh(known, s, a, n);
      } else {
        ManagerStepKeepsFresh(known, s, a, n);
      }
    }
  }

  lemma WorkerStepAddsNoEntry(known: set<string>, s: State, a: Action)
    requires a.Tick? || a.RunEnds? || a.Stop?
    requires Enabled(known, s, a) && (Live(s, a.w) ==> s.workers[a.w].name in s.taskData)
    ensures Apply(known, s, a).taskData.Keys == s.taskData.Keys
  {
  }

  predicate TickersOk(s: State) {
    ValidConfig(s.cfg) && forall w :: 0 <= w < |s.workers| ==> s.workers[w].config.interval > 0
  }

  lemma TickersKept(known: set<string>, s: State, a: Action)
    requires TickersOk(s) && ConfigOk(known, s) && Enabled(known, s, a)
    ensures TickersOk(Apply(known, s, a))
  {
    var s' := Apply(known, s, a);
    assert a.Schedule? ==> a.name in EnabledIn(s.cfg);
    forall w | 0 <= w < |s'.workers|
      ensures s'.workers[w].config.interval > 0
    {
      assert w < |s.workers| ==> s'.workers[w].config == s.workers[w].config;
    }
  }

  /** As long as all configurations are valid, every worker that is ever started has an interval its ticker accepts:
      only enabled tasks are scheduled, and the default for missing ones is never needed. */
  lemma {:induction false} TickersStart(known: set<string>, cfg: Config, run: seq<Action>)
    requires IsRun(known, cfg, run)
    ensures TickersOk(StateAfter(known, cfg, run))
  {
    if run != [] {
      var init, a := run[..|run| - 1], run[|run| - 1];
      TickersStart(known, cfg, init);
      RunKeepsInv(known, cfg, init);
      TickersKept(known, StateAfter(known, cfg, init), a);
    }
  }

  /** UpdateConfig never waits in vain: the worker it waits for has confirmed, or is live, knows it is cancelled, and
      can go on by itself until it confirms. */
  lemma WaitEnds(known: set<string>, cfg: Config, run: seq<Action>) returns (a: Action)
    requires IsRun(known, cfg, run) && StateAfter(known, cfg, run).phase.Awaiting?
    ensures var s := StateAfter(known, cfg, run);
            && a in [ReceiveToken, RunEnds(s.phase.worker), Stop(s.phase.worker)]
            && Enabled(known, s, a)
  {
    var s := StateAfter(known, cfg, run);
    RunKeepsInv(known, cfg, run);
    assert EntryOk(known, s, s.phase.name);
    var w := s.phase.worker;
    a := if s.workers[w].token then ReceiveToken
         else if s.workers[w].status == Running then RunEnds(w)
         else Stop(w);
  }

  lemma StaysGone(known: set<string>, s: State, a: Action, w: nat)
    requires Enabled(known, s, a) && w < |s.workers| && s.workers[w].status == Exited
    ensures var s' := Apply(known, s, a);
            w < |s'.workers| && s'.workers[w].status == Exited && (s'.workers[w].token ==> s.workers[w].token)
  {
  }

  /** A worker confirms once: in every continuation of the run a worker that has returned stays gone, and if its
      confirmation has been received its channel is never filled again. */
  lemma {:induction false} ConfirmsOnce(known: set<string>, cfg: Config, run: seq<Action>, more: seq<Action>, w: nat)
    requires IsRun(known, cfg, run) && IsRun(known, cfg, run + more)
    requires w < |StateAfter(known, cfg, run).workers| && StateAfter(known, cfg, run).workers[w].status == Exited
    ensures var s, s' := StateAfter(known, cfg, run), StateAfter(known, cfg, run + more);
            w < |s'.workers| && s'.workers[w].status == Exited && (s'.workers[w].token ==> s.workers[w].token)
  {
    if more == [] {
      assert run + more == run;
    } else {
      var init, a := more[..|more| - 1], more[|more| - 1];
      assert (run + more)[..|run + more| - 1] == run + init;
      ConfirmsOnce(known, cfg, run, init, w);
      StaysGone(known, StateAfter(known, cfg, run + init), a, w);
    }
  }

  // ---- What a worker does ----

  /** The entry of a task says that it is running if and only if its worker is. */
  predicate ShowsRunning(s: State, w: nat)
    requires w < |s.workers|
  {
    Live(s, w) && s.workers[w].name in s.taskData && s.taskData[s.workers[w].name].worker == w ==>
      (s.taskData[s.workers[w].name].running <==> s.workers[w].status == Running)
  }

  lemma ShowsRunningKept(known: set<string>, s: State, a: Action, w: nat)
    requires Enabled(known, s, a) && w < |Apply(known, s, a).workers|
    requires w < |s.workers| ==> ShowsRunning(s, w) && WorkerOk(s, w)
    ensures ShowsRunning(Apply(known, s, a), w)
  {
  }

  lemma {:induction false} EntriesShowRunning(known: set<string>, cfg: Config, run: seq<Action>, w: nat)
    requires IsRun(known, cfg, run) && w < |StateAfter(known, cfg, run).workers|
    ensures ShowsRunning(StateAfter(known, cfg, run), w)
  {
    if run != [] {
      var init, a := run[..|run| - 1], run[|run| - 1];
      var s := StateAfter(known, cfg, init);
      RunKeepsInv(known, cfg, init);
      hide ShowsRunning, Enabled, Apply, WorkerOk, EntryOk, ConfigOk, PhaseOk;
      if w < |s.workers| {
        EntriesShowRunning(known, cfg, init, w);
        assert WorkerOk(s, w);
      }
      ShowsRunningKept(known, s, a, w);
    }
  }

  /** The next tick starts a run of the task if it is enabled, and nothing otherwise. */
  predicate TickStarts(known: set<string>, s: State, w: nat)
    requires w < |s.workers|
  {
    var x := s.workers[w];
    && Enabled(known, s, Tick(w))
    && var after := Apply(known, s, Tick(w));
       && after.workers == s.workers[w := x.(status := if x.config.enabled then Running else Waiting)]
       && x.name in after.taskData && after.taskData[x.name].running == x.config.enabled
  }

  /** A run ends with the worker waiting again; until then it neither looks at its ticker nor at a cancellation. */
  predicate RunComesToEnd(known: set<string>, s: State, w: nat)
    requires w < |s.workers|
  {
    var x := s.workers[w];
    && !Enabled(known, s, Tick(w)) && !Enabled(known, s, Stop(w)) && Enabled(known, s, RunEnds(w))
    && var after := Apply(known, s, RunEnds(w));
       && after.workers == s.workers[w := x.(status := Waiting)]
       && x.name in after.taskData && !after.taskData[x.name].running
  }

  /** The worker can confirm and return exactly if it or the whole program has been cancelled. */
  predicate StopsIfCancelled(known: set<string>, s: State, w: nat)
    requires w < |s.workers|
  {
    var x := s.workers[w];
    && (Enabled(known, s, Stop(w)) <==> x.cancelled || s.stopped)
    && (Enabled(known, s, Stop(w)) ==>
          Apply(known, s, Stop(w)).workers == s.workers[w := x.(status := Exited, token := true)])
    && Enabled(known, Apply(known, s, StopAll), Stop(w))
  }

  lemma TickTurn(known: set<string>, s: State, w: nat)
    requires Live(s, w) && s.workers[w].status == Waiting && WorkerOk(s, w) && ShowsRunning(s, w)
    ensures TickStarts(known, s, w)
  {
    var x := s.workers[w];
    assert !x.config.enabled ==> s.workers == s.workers[w := x.(status := Waiting)];
  }

  lemma RunTurn(known: set<string>, s: State, w: nat)
    requires Live(s, w) && s.workers[w].status == Running
    ensures RunComesToEnd(known, s, w)
  {
  }

  lemma StopTurn(known: set<string>, s: State, w: nat)
    requires Live(s, w) && s.workers[w].status == Waiting
    ensures StopsIfCancelled(known, s, w)
  {
  }

  /** In every state a run can reach a live worker waits or runs its task, as the entry of the task shows, and can go on
      by itself in exactly these ways; no other worker is touched by that. */
  lemma WorkerTurns(known: set<string>, cfg: Config, run: seq<Action>, w: nat)
    requires IsRun(known, cfg, run) && Live(StateAfter(known, cfg, run), w)
    ensures var s := StateAfter(known, cfg, run);
            var x := s.workers[w];
            && x.name in s.taskData && s.taskData[x.name].worker == w
            && (s.taskData[x.name].running <==> x.status == Running)
            && (x.status == Waiting ==> TickStarts(known, s, w) && StopsIfCancelled(known, s, w))
            && (x.status == Running ==> RunComesToEnd(known, s, w))
  {
    hide IsRun, StateAfter, Enabled, Apply, TickStarts, StopsIfCancelled, RunComesToEnd, EntryOk, ConfigOk, PhaseOk;
    var s := StateAfter(known, cfg, run);
    RunKeepsInv(known, cfg, run);
    EntriesShowRunning(known, cfg, run, w);
    assert WorkerOk(s, w);
    if s.workers[w].status == Waiting {
      TickTurn(known, s, w);
      StopTurn(known, s, w);
    } else {
      RunTurn(known, s, w);
    }
  }

  /** What is left to do in UpdateConfig, in steps of its own. */
  function StepsLeft(s: State): nat {
    match s.phase
    case Idle => 0
    case Cancelling(todo) => 2 * |todo| + |EnabledIn(s.cfg)| + 2
    case Awaiting(todo, _, _) => 2 * |todo| + |EnabledIn(s.cfg)| + 3
    case Scheduling(todo) => |todo| + 1
  }

  predicate ManagerStep(a: Action) {
    a.CancelNext? || a.ReceiveToken? || a.RemoveTasks? || a.Schedule? || a.Return?
  }

  /** Every step of UpdateConfig brings it closer to its end, and no step of a worker sets it back. */
  lemma UpdateConfigAdvances(known: set<string>, s: State, a: Action)
    requires Inv(known, s) && Enabled(known, s, a) && !a.Update?
    ensures StepsLeft(Apply(known, s, a)) + (if ManagerStep(a) then 1 else 0) <= StepsLeft(s)
  {
    if a.CancelNext? {
      assert |s.phase.todo - {a.name}| == |s.phase.todo| - 1;
      if a.name in s.taskData {
        assert EntryOk(known, s, a.name);
      }
    }
    if a.Schedule? {
      assert |s.phase.todo - {a.name}| == |s.phase.todo| - 1;
    }
  }

  function ManagerSteps(actions: seq<Action>): nat {
    if actions == [] then 0
    else ManagerSteps(actions[..|actions| - 1]) + if ManagerStep(actions[|actions| - 1]) then 1 else 0
  }

  /** Until it is called again, UpdateConfig takes a bounded number of steps, however the workers' steps come in
      between; together with WaitEnds this means that it returns. */
  lemma {:induction false} UpdateConfigEnds(known: set<string>, cfg: Config, run: seq<Action>, more: seq<Action>)
    requires IsRun(known, cfg, run) && IsRun(known, cfg, run + more)
    requires forall i :: 0 <= i < |more| ==> !more[i].Update?
    ensures ManagerSteps(more) + StepsLeft(StateAfter(known, cfg, run + more)) <= StepsLeft(StateAfter(known, cfg, run))
  {
    hide Apply, Enabled, StepsLeft, Inv, ManagerStep;
    if more == [] {
      assert run + more == run;
    } else {
      var init, a := more[..|more| - 1], more[|more| - 1];
      assert (run + more)[..|run + more| - 1] == run + init;
      UpdateConfigEnds(known, cfg, run, init);
      RunKeepsInv(known, cfg, run + init);
      UpdateConfigAdvances(known, StateAfter(known, cfg, run + init), a);
    }
  }
}
