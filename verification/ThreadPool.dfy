/** The thread pool. */
module ThreadPool {
  // Worker loops over a task queue, Enqueue, WaitAll and the destructor, as atomic steps. Critical
  // sections are one step each; Enqueue and the destructor notify outside the lock, so their
  // notifications are steps of their own. Tasks are numbered in the order of acceptance.

  // ---------- the protected state ----------

  datatype Core = Core(tasks: seq<nat>, unfinished: nat, stop: bool)

  /** What the pool's mutex protects. The last clause of each method says that it is a step of the pool. */
  class Pool {
    var tasks: seq<nat>
    var unfinishedTasks: nat
    var stop: bool

    constructor ()
      ensures Protected() == Core([], 0, false)
      ensures forall n :: Initial(n).core == Protected()
    {
      tasks, unfinishedTasks, stop := [], 0, false;
    }

    ghost function Protected(): Core
      reads this
    {
      Core(tasks, unfinishedTasks, stop)
    }

    /** The critical section of Enqueue. */
    method Enqueue(task: nat) returns (accepted: bool)
      modifies this
      ensures accepted == !old(stop)
      ensures Protected() == if accepted then Accept(old(Protected()), task) else old(Protected())
      ensures forall s: State | s.core == old(Protected()) && s.accepted == task :: Apply(s, Action.Enqueue).core == Protected()
    {
      if stop { return false; }
      tasks := tasks + [task];
      unfinishedTasks := unfinishedTasks + 1;
      return true;
    }

    /** The critical section of a worker that has passed its wait: a task, or none when the pool
        has stopped and the queue is empty. */
    method Take() returns (task: seq<nat>)
      requires stop || tasks != []
      modifies this
      ensures task == [] <==> old(tasks) == []
      ensures task != [] ==> task == old(tasks)[..1] && Protected() == old(Protected()).(tasks := old(tasks)[1..])
      ensures task == [] ==> Protected() == old(Protected())
      ensures forall s: State, i: nat | s.core == old(Protected()) && Enabled(s, WorkerLocks(i)) ::
                var t := Apply(s, WorkerLocks(i));
                t.core == Protected() && t.workers[i] == if task == [] then Exited else Took(task[0])
    {
      if stop && tasks == [] { return []; }
      task := [tasks[0]];
      tasks := tasks[1..];
    }

    /** The critical section after a task: WaitAll callers are notified at zero. */
    method CountOff() returns (notify: bool)
      requires unfinishedTasks > 0
      modifies this
      ensures Protected() == old(Protected()).(unfinished := old(unfinishedTasks) - 1)
      ensures notify <==> unfinishedTasks == 0
      ensures forall s: State, i: nat | s.core == old(Protected()) && Enabled(s, Action.CountOff(i)) ::
                Apply(s, Action.CountOff(i)).core == Protected() && (notify ==> Apply(s, Action.CountOff(i)).waiting == 0)
    {
      unfinishedTasks := unfinishedTasks - 1;
      notify := unfinishedTasks == 0;
    }

    /** The test of WaitAll, on entry and after every wakeup. */
    method Passes() returns (pass: bool)
      ensures pass <==> unfinishedTasks == 0
      ensures forall s: State | s.core == Protected() :: pass <==> Apply(s, WaitAll).waiting == s.waiting
      ensures forall s: State | s.core == Protected() && Enabled(s, WaiterRuns) ::
                pass <==> Apply(s, WaiterRuns).waiting == s.waiting
    {
      pass := unfinishedTasks == 0;
    }

    /** The critical section of the destructor. */
    method SetStop()
      modifies this
      ensures Protected() == old(Protected()).(stop := true)
      ensures forall s: State | s.core == old(Protected()) && !s.core.stop :: Apply(s, Action.SetStop).core == Protected()
    {
      stop := true;
    }
  }

  function Accept(c: Core, task: nat): (r: Core) {
    c.(tasks := c.tasks + [task], unfinished := c.unfinished + 1)
  }

  // ---------- steps ----------

  datatype Worker =
    | Ready              // about to take the lock
    | Asleep
    | Woken              // notified, about to take the lock again
    | Took(task: nat)    // holds a task it has not started
    | Running(task: nat)
    | Ran(task: nat)     // has run the task and not counted it off
    | Exited

  datatype State = State(
    core: Core,
    active: nat,            // _activeThreads
    workers: seq<Worker>,
    notifies: nat,          // Enqueue calls that accepted a task and have not notified yet
    stopNotify: bool,       // the destructor has set the flag and not notified yet
    waiting: nat,           // WaitAll callers asleep
    wokenWaiters: nat,      // WaitAll callers notified, about to check again
    // history
    accepted: nat,          // number of tasks accepted: their numbers are below this
    runs: seq<nat>,         // tasks in the order they were started
    finished: seq<nat>      // tasks in the order they were counted off
  )

  datatype Action =
    | Enqueue
    | EnqueueNotifies(pick: nat)
    | WorkerLocks(who: nat)
    | WorkerStirs(who: nat)
    | StartTask(who: nat)
    | EndTask(who: nat)
    | CountOff(who: nat)
    | WaitAll
    | WaiterRuns
    | WaiterStirs
    | SetStop
    | StopNotifies

  predicate Enabled(s: State, act: Action) {
    match act
    case EnqueueNotifies(i) =>
      s.notifies > 0 && (Sleepers(s.workers) > 0 ==> i < |s.workers| && s.workers[i].Asleep?)
    case WorkerLocks(i) => i < |s.workers| && (s.workers[i].Ready? || s.workers[i].Woken?)
    case WorkerStirs(i) => i < |s.workers| && s.workers[i].Asleep?
    case StartTask(i) => i < |s.workers| && s.workers[i].Took?
    case EndTask(i) => i < |s.workers| && s.workers[i].Running? && s.active > 0
    case CountOff(i) => i < |s.workers| && s.workers[i].Ran? && s.core.unfinished > 0
    case WaiterRuns => s.wokenWaiters > 0
    case WaiterStirs => s.waiting > 0
    case SetStop => !s.core.stop
    case StopNotifies => s.stopNotify
    case _ => true
  }

  /** A worker that holds the lock: wait, exit, or take the oldest task. */
  function Locked(s: State, i: nat): (r: State)
    requires i < |s.workers|
  {
    if !s.core.stop && s.core.tasks == [] then s.(workers := s.workers[i := Asleep])
    else if s.core.tasks == [] then s.(workers := s.workers[i := Exited])
    else s.(core := s.core.(tasks := s.core.tasks[1..]), workers := s.workers[i := Took(s.core.tasks[0])])
  }

  function WakeAll(ws: seq<Worker>): (r: seq<Worker>)
    ensures |r| == |ws|
    ensures forall i | 0 <= i < |ws| :: r[i] == if ws[i].Asleep? then Woken else ws[i]
  {
    seq(|ws|, i requires 0 <= i < |ws| => if ws[i].Asleep? then Woken else ws[i])
  }

  function Apply(s: State, act: Action): (r: State)
    requires Enabled(s, act)
  {
    match act
    case Enqueue =>
      if s.core.stop then s
      else s.(core := Accept(s.core, s.accepted), accepted := s.accepted + 1, notifies := s.notifies + 1)
    case EnqueueNotifies(i) =>
      var t := s.(notifies := s.notifies - 1);
      if Sleepers(s.workers) > 0 then t.(workers := s.workers[i := Woken]) else t
    case WorkerLocks(i) => Locked(s, i)
    case WorkerStirs(i) => s.(workers := s.workers[i := Woken])
    case StartTask(i) =>
      s.(active := s.active + 1, workers := s.workers[i := Running(s.workers[i].task)], runs := s.runs + [s.workers[i].task])
    case EndTask(i) => s.(active := s.active - 1, workers := s.workers[i := Ran(s.workers[i].task)])
    case CountOff(i) =>
      var n := s.core.unfinished - 1;
      var t := s.(core := s.core.(unfinished := n), workers := s.workers[i := Ready], finished := s.finished + [s.workers[i].task]);
      if n == 0 then t.(waiting := 0, wokenWaiters := s.wokenWaiters + s.waiting) else t
    case WaitAll => if s.core.unfinished == 0 then s else s.(waiting := s.waiting + 1)
    case WaiterRuns =>
      var t := s.(wokenWaiters := s.wokenWaiters - 1);
      if s.core.unfinished == 0 then t else t.(waiting := s.waiting + 1)
    case WaiterStirs => s.(waiting := s.waiting - 1, wokenWaiters := s.wokenWaiters + 1)
    case SetStop => s.(core := s.core.(stop := true), stopNotify := true)
    case StopNotifies => s.(stopNotify := false, workers := WakeAll(s.workers))
  }

  /** The constructor: at least two workers when none are asked for. */
  function Initial(threadCount: nat): (s: State) {
    State(Core([], 0, false), 0, seq(if threadCount == 0 then 2 else threadCount, _ => Ready), 0, false, 0, 0, 0, [], [])
  }

  ghost predicate Next(s: State, t: State) {
    exists act :: Enabled(s, act) && t == Apply(s, act)
  }

  ghost predicate IsRun(run: seq<State>) {
    && run != []
    && (exists n :: run[0] == Initial(n))
    && forall i | 0 < i < |run| :: Next(run[i - 1], run[i])
  }

  // ---------- counting workers ----------

  function One(b: bool): nat {
    if b then 1 else 0
  }

  function Sleepers(ws: seq<Worker>): (n: nat) {
    if ws == [] then 0 else Sleepers(ws[..|ws| - 1]) + One(ws[|ws| - 1].Asleep?)
  }

  function Wakened(ws: seq<Worker>): (n: nat) {
    if ws == [] then 0 else Wakened(ws[..|ws| - 1]) + One(ws[|ws| - 1].Woken?)
  }

  function Busy(ws: seq<Worker>): (n: nat) {
    if ws == [] then 0 else Busy(ws[..|ws| - 1]) + One(ws[|ws| - 1].Running?)
  }

  predicate Holds(w: Worker) {
    w.Took? || w.Running? || w.Ran?
  }

  function HeldBy(w: Worker): multiset<nat> {
    if Holds(w) then multiset{w.task} else multiset{}
  }

  function StartedBy(w: Worker): multiset<nat> {
    if w.Running? || w.Ran? then multiset{w.task} else multiset{}
  }

  /** The tasks workers have taken and not counted off. */
  function Held(ws: seq<Worker>): (m: multiset<nat>) {
    if ws == [] then multiset{} else Held(ws[..|ws| - 1]) + HeldBy(ws[|ws| - 1])
  }

  /** Of those, the ones that were started. */
  function Started(ws: seq<Worker>): (m: multiset<nat>) {
    if ws == [] then multiset{} else Started(ws[..|ws| - 1]) + StartedBy(ws[|ws| - 1])
  }

  lemma {:induction false} CountsUpdate(ws: seq<Worker>, i: nat, w: Worker)
    requires i < |ws|
    ensures Sleepers(ws[i := w]) == Sleepers(ws) - One(ws[i].Asleep?) + One(w.Asleep?)
    ensures Wakened(ws[i := w]) == Wakened(ws) - One(ws[i].Woken?) + One(w.Woken?)
    ensures Busy(ws[i := w]) == Busy(ws) - One(ws[i].Running?) + One(w.Running?)
  {
    if i < |ws| - 1 { CountsUpdate(ws[..|ws| - 1], i, w); }
  }

  lemma AddBoth(a: multiset<nat>, x: multiset<nat>, b: multiset<nat>, y: multiset<nat>, c: multiset<nat>)
    requires a + x == b + y
    ensures (a + c) + x == (b + c) + y
  {
    assert (a + c) + x == (a + x) + c && (b + c) + y == (b + y) + c;
  }

  lemma {:induction false} HeldUpdate(ws: seq<Worker>, i: nat, w: Worker)
    requires i < |ws|
    ensures Held(ws[i := w]) + HeldBy(ws[i]) == Held(ws) + HeldBy(w)
  {
    hide HeldBy;
    var front := ws[..|ws| - 1];
    if i < |ws| - 1 {
      HeldUpdate(front, i, w);
      AddBoth(Held(front[i := w]), HeldBy(ws[i]), Held(front), HeldBy(w), HeldBy(ws[|ws| - 1]));
    } else {
      assert Held(front) + HeldBy(w) + HeldBy(ws[i]) == Held(front) + HeldBy(ws[i]) + HeldBy(w);
    }
  }

  lemma {:induction false} StartedUpdate(ws: seq<Worker>, i: nat, w: Worker)
    requires i < |ws|
    ensures Started(ws[i := w]) + StartedBy(ws[i]) == Started(ws) + StartedBy(w)
  {
    hide StartedBy;
    var front := ws[..|ws| - 1];
    if i < |ws| - 1 {
      StartedUpdate(front, i, w);
      AddBoth(Started(front[i := w]), StartedBy(ws[i]), Started(front), StartedBy(w), StartedBy(ws[|ws| - 1]));
    } else {
      assert Started(front) + StartedBy(w) + StartedBy(ws[i]) == Started(front) + StartedBy(ws[i]) + StartedBy(w);
    }
  }

  lemma {:induction false} WakeAllCounts(ws: seq<Worker>)
    ensures Sleepers(WakeAll(ws)) == 0 && Wakened(WakeAll(ws)) == Wakened(ws) + Sleepers(ws)
    ensures Busy(WakeAll(ws)) == Busy(ws)
  {
    if ws != [] {
      WakeAllCounts(ws[..|ws| - 1]);
      WakeAllFront(ws);
      hide WakeAll;
    }
  }

  lemma {:induction false} WakeAllTasks(ws: seq<Worker>)
    ensures Held(WakeAll(ws)) == Held(ws) && Started(WakeAll(ws)) == Started(ws)
  {
    if ws != [] {
      WakeAllTasks(ws[..|ws| - 1]);
      WakeAllFront(ws);
      var w := ws[|ws| - 1];
      assert HeldBy(if w.Asleep? then Woken else w) == HeldBy(w);
      assert StartedBy(if w.Asleep? then Woken else w) == StartedBy(w);
      hide WakeAll, HeldBy, StartedBy;
    }
  }

  lemma WakeAllFront(ws: seq<Worker>)
    requires ws != []
    ensures WakeAll(ws)[..|ws| - 1] == WakeAll(ws[..|ws| - 1])
  {
  }

  /** The numbers from a up to b. */
  function Range(a: nat, b: nat): (r: seq<nat>)
    requires a <= b
    ensures |r| == b - a && forall i | 0 <= i < |r| :: r[i] == a + i
  {
    seq(b - a, i => a + i)
  }

  // ---------- invariant ----------

  /** The queue holds, in order, the accepted tasks from some number on; each task below it is
      held by one worker or finished, and each started task was started once. */
  ghost predicate TasksOk(s: State) {
    exists k :: TasksFrom(s, k)
  }

  predicate TasksFrom(s: State, k: nat) {
    && k <= s.accepted && s.core.tasks == Range(k, s.accepted)
    && multiset(Range(0, k)) == Held(s.workers) + multiset(s.finished)
    && multiset(s.runs) == Started(s.workers) + multiset(s.finished)
  }

  predicate CountsOk(s: State) {
    && s.core.unfinished == |s.core.tasks| + |Held(s.workers)|
    && s.active == Busy(s.workers)
  }

  /** A worker sleeps only if the woken ones and the notifications still to come cover the queue;
      on a stopped pool only while the destructor's notification is still to come. */
  predicate WorkersCovered(s: State) {
    && (Sleepers(s.workers) > 0 ==> Wakened(s.workers) + s.notifies >= |s.core.tasks|)
    && (Sleepers(s.workers) > 0 && s.core.stop ==> s.stopNotify)
  }

  predicate ExitsOk(s: State) {
    forall i | 0 <= i < |s.workers| :: s.workers[i].Exited? ==> s.core.stop && s.core.tasks == []
  }

  ghost predicate Inv(s: State) {
    TasksOk(s) && CountsOk(s) && WorkersCovered(s) && ExitsOk(s) && (s.waiting > 0 ==> s.core.unfinished > 0)
  }

  lemma RangeSnoc(a: nat, b: nat)
    requires a <= b
    ensures Range(a, b + 1) == Range(a, b) + [b]
  {
  }

  lemma RangeMultiset(k: nat)
    ensures multiset(Range(0, k + 1)) == multiset(Range(0, k)) + multiset{k}
  {
    RangeSnoc(0, k);
  }

  lemma {:induction false} EnqueueKeeps(s: State)
    requires Inv(s) && !s.core.stop
    ensures Inv(Apply(s, Enqueue))
  {
    hide Held, Started, Sleepers, Wakened, Busy, Range;
    var t := Apply(s, Enqueue);
    var k :| TasksFrom(s, k);
    RangeSnoc(k, s.accepted);
    assert TasksFrom(t, k);
  }

  lemma {:induction false} NotifyKeeps(s: State, i: nat)
    requires Inv(s) && Enabled(s, EnqueueNotifies(i))
    ensures Inv(Apply(s, EnqueueNotifies(i)))
  {
    hide Held, Started, Sleepers, Wakened, Busy, Range;
    var t := Apply(s, EnqueueNotifies(i));
    if Sleepers(s.workers) > 0 {
      CountsUpdate(s.workers, i, Woken);
      SameTasks(s.workers, i, Woken);
    }
    var k :| TasksFrom(s, k);
    assert TasksFrom(t, k);
  }

  /** A worker that holds nothing before and after leaves the task counts alone. */
  lemma {:induction false} SameTasks(ws: seq<Worker>, i: nat, w: Worker)
    requires i < |ws| && HeldBy(ws[i]) == HeldBy(w) && StartedBy(ws[i]) == StartedBy(w)
    ensures Held(ws[i := w]) == Held(ws) && Started(ws[i := w]) == Started(ws)
  {
    hide Held, Started, HeldBy, StartedBy;
    HeldUpdate(ws, i, w);
    StartedUpdate(ws, i, w);
    CancelEnd(Held(ws[i := w]), Held(ws), HeldBy(w));
    CancelEnd(Started(ws[i := w]), Started(ws), StartedBy(w));
  }

  lemma CancelEnd(a: multiset<nat>, b: multiset<nat>, c: multiset<nat>)
    requires a + c == b + c
    ensures a == b
  {
    assert a == (a + c) - c && b == (b + c) - c;
  }

  /** A worker wakes, sleeps again or exits: it holds no task before or after. */
  lemma {:induction false} IdleMoveKeeps(s: State, i: nat, w: Worker)
    requires Inv(s) && i < |s.workers| && !Holds(s.workers[i]) && !s.workers[i].Exited?
    requires w.Woken? || (w.Asleep? && s.core.tasks == [] && !s.core.stop) || (w.Exited? && s.core.stop && s.core.tasks == [])
    ensures Inv(s.(workers := s.workers[i := w]))
  {
    hide Held, Started, Sleepers, Wakened, Busy, Range;
    var t := s.(workers := s.workers[i := w]);
    CountsUpdate(s.workers, i, w);
    SameTasks(s.workers, i, w);
    var k :| TasksFrom(s, k);
    assert TasksFrom(t, k);
  }

  lemma {:induction false} TookUpdate(ws: seq<Worker>, i: nat, task: nat)
    requires i < |ws| && (ws[i].Ready? || ws[i].Woken?)
    ensures var t := ws[i := Took(task)]; Held(t) == Held(ws) + multiset{task} && Started(t) == Started(ws)
  {
    hide Held, Started;
    var w := Took(task);
    HeldUpdate(ws, i, w);
    StartedUpdate(ws, i, w);
    assert HeldBy(ws[i]) == multiset{} == StartedBy(ws[i]) == StartedBy(w) && HeldBy(w) == multiset{task};
    AddNothing(Held(ws[i := w]));
    AddNothing(Started(ws[i := w]));
    AddNothing(Started(ws));
  }

  lemma AddNothing(a: multiset<nat>)
    ensures a + multiset{} == a
  {
  }

  lemma {:induction false} TakeTasks(s: State, t: State, k: nat)
    requires TasksFrom(s, k) && k < s.accepted && t.accepted == s.accepted && t.core.tasks == s.core.tasks[1..]
    requires t.runs == s.runs && t.finished == s.finished
    requires Held(t.workers) == Held(s.workers) + multiset{k} && Started(t.workers) == Started(s.workers)
    ensures TasksFrom(t, k + 1)
  {
    hide Held, Started, Range;
    RangeMultiset(k);
  }

  lemma {:induction false} TakeKeeps(s: State, i: nat)
    requires Inv(s) && Enabled(s, WorkerLocks(i)) && s.core.tasks != []
    ensures Inv(Apply(s, WorkerLocks(i)))
  {
    hide Held, Started, Sleepers, Wakened, Busy, Range;
    var t := Apply(s, WorkerLocks(i));
    var w := Took(s.core.tasks[0]);
    CountsUpdate(s.workers, i, w);
    TookUpdate(s.workers, i, s.core.tasks[0]);
    var k :| TasksFrom(s, k);
    TakeTasks(s, t, k);
  }

  lemma {:induction false} StartKeeps(s: State, i: nat)
    requires Inv(s) && Enabled(s, StartTask(i))
    ensures Inv(Apply(s, StartTask(i)))
  {
    hide Held, Started, Sleepers, Wakened, Busy, Range;
    var t := Apply(s, StartTask(i));
    var task := s.workers[i].task;
    CountsUpdate(s.workers, i, Running(task));
    HeldUpdate(s.workers, i, Running(task));
    StartedUpdate(s.workers, i, Running(task));
    CancelEnd(Held(t.workers), Held(s.workers), multiset{task});
    assert Started(t.workers) == Started(s.workers) + multiset{task};
    var k :| TasksFrom(s, k);
    assert multiset(t.runs) == multiset(s.runs) + multiset{task};
    assert TasksFrom(t, k);
  }

  lemma {:induction false} EndKeeps(s: State, i: nat)
    requires Inv(s) && Enabled(s, EndTask(i))
    ensures Inv(Apply(s, EndTask(i)))
  {
    hide Held, Started, Sleepers, Wakened, Busy, Range;
    var t := Apply(s, EndTask(i));
    var task := s.workers[i].task;
    CountsUpdate(s.workers, i, Ran(task));
    SameTasks(s.workers, i, Ran(task));
    var k :| TasksFrom(s, k);
    assert TasksFrom(t, k);
  }

  lemma {:induction false} ReadyUpdate(ws: seq<Worker>, i: nat)
    requires i < |ws| && ws[i].Ran?
    ensures var t := ws[i := Ready];
            Held(t) + multiset{ws[i].task} == Held(ws) && Started(t) + multiset{ws[i].task} == Started(ws)
  {
    hide Held, Started;
    HeldUpdate(ws, i, Ready);
    StartedUpdate(ws, i, Ready);
    assert HeldBy(Ready) == multiset{} == StartedBy(Ready);
    AddNothing(Held(ws));
    AddNothing(Started(ws));
  }

  lemma {:induction false} FinishTasks(s: State, t: State, task: nat, k: nat)
    requires TasksFrom(s, k) && t.accepted == s.accepted && t.core.tasks == s.core.tasks
    requires t.runs == s.runs && t.finished == s.finished + [task]
    requires Held(t.workers) + multiset{task} == Held(s.workers) && Started(t.workers) + multiset{task} == Started(s.workers)
    ensures TasksFrom(t, k)
  {
    hide Held, Started, Range;
    assert multiset(t.finished) == multiset(s.finished) + multiset{task};
  }

  lemma {:induction false} CountOffKeeps(s: State, i: nat)
    requires Inv(s) && Enabled(s, CountOff(i))
    ensures Inv(Apply(s, CountOff(i)))
  {
    hide Held, Started, Sleepers, Wakened, Busy, Range;
    var t := Apply(s, CountOff(i));
    var task := s.workers[i].task;
    CountsUpdate(s.workers, i, Ready);
    ReadyUpdate(s.workers, i);
    var k :| TasksFrom(s, k);
    FinishTasks(s, t, task, k);
  }

  lemma {:induction false} StopNotifyKeeps(s: State)
    requires Inv(s)
    ensures Inv(s.(stopNotify := false, workers := WakeAll(s.workers)))
  {
    hide Held, Started, Sleepers, Wakened, Busy, Range;
    var t := s.(stopNotify := false, workers := WakeAll(s.workers));
    WakeAllCounts(s.workers);
    WakeAllTasks(s.workers);
    var k :| TasksFrom(s, k);
    assert TasksFrom(t, k);
  }

  lemma {:induction false} FlagKeeps(s: State, t: State)
    requires Inv(s) && t.workers == s.workers && t.accepted == s.accepted && t.runs == s.runs && t.finished == s.finished
    requires t.core.tasks == s.core.tasks && t.core.unfinished == s.core.unfinished && t.active == s.active && t.notifies == s.notifies
    requires (s.core.stop ==> t.core.stop && t.stopNotify == s.stopNotify) && (t.core.stop && !s.core.stop ==> t.stopNotify)
    requires t.waiting > 0 ==> t.core.unfinished > 0
    ensures Inv(t)
  {
    hide Held, Started, Sleepers, Wakened, Busy, Range;
    var k :| TasksFrom(s, k);
    assert TasksFrom(t, k);
  }

  lemma {:induction false} StepKeeps(s: State, act: Action)
    requires Inv(s) && Enabled(s, act)
    ensures Inv(Apply(s, act))
  {
    hide Inv;
    match act
    case Enqueue => if !s.core.stop { EnqueueKeeps(s); }
    case EnqueueNotifies(i) => NotifyKeeps(s, i);
    case WorkerLocks(i) =>
      if s.core.tasks != [] { TakeKeeps(s, i); }
      else { IdleMoveKeeps(s, i, if s.core.stop then Exited else Asleep); }
    case WorkerStirs(i) => IdleMoveKeeps(s, i, Woken);
    case StartTask(i) => StartKeeps(s, i);
    case EndTask(i) => EndKeeps(s, i);
    case CountOff(i) => CountOffKeeps(s, i);
    case StopNotifies => StopNotifyKeeps(s);
    case _ => WaitersOk(s); FlagKeeps(s, Apply(s, act));
  }

  lemma WaitersOk(s: State)
    requires Inv(s)
    ensures s.waiting > 0 ==> s.core.unfinished > 0
  {
  }

  lemma {:induction false} InitialOk(n: nat)
    ensures Inv(Initial(n))
  {
    var s := Initial(n);
    NobodyYet(s.workers);
    assert Range(0, 0) == [];
    assert TasksFrom(s, 0);
  }

  lemma {:induction false} NobodyYet(ws: seq<Worker>)
    requires forall i | 0 <= i < |ws| :: ws[i] == Ready
    ensures Sleepers(ws) == 0 == Busy(ws) && Held(ws) == multiset{} && Started(ws) == multiset{}
  {
    if ws != [] { NobodyYet(ws[..|ws| - 1]); }
  }

  lemma {:induction false} RunKeeps(run: seq<State>, i: nat)
    requires IsRun(run) && i < |run|
    ensures Inv(run[i]) && |run[i].workers| == |run[0].workers| > 0
  {
    hide Inv, Enabled, Apply;
    if i == 0 {
      var n :| run[0] == Initial(n);
      InitialOk(n);
    } else {
      RunKeeps(run, i - 1);
      assert Next(run[i - 1], run[i]);
      var act :| Enabled(run[i - 1], act) && run[i] == Apply(run[i - 1], act);
      StepKeeps(run[i - 1], act);
      SameWorkers(run[i - 1], act);
    }
  }

  lemma SameWorkers(s: State, act: Action)
    requires Enabled(s, act)
    ensures |Apply(s, act).workers| == |s.workers|
  {
  }

  // ---------- what holds in every run ----------

  /** No wakeup is lost: a sleeping worker is backed by woken workers and outstanding Enqueue
      notifications for every queued task; after stop a worker sleeps only while the destructor's
      notify_all is outstanding; no WaitAll caller sleeps with nothing unfinished. */
  lemma {:induction false} NoWakeupIsLost(run: seq<State>, i: nat)
    requires IsRun(run) && i < |run|
    ensures var s := run[i];
            && (Sleepers(s.workers) > 0 ==> Wakened(s.workers) + s.notifies >= |s.core.tasks|)
            && (Sleepers(s.workers) > 0 && s.core.stop ==> s.stopNotify)
            && (s.waiting > 0 ==> s.core.unfinished > 0)
  {
    hide IsRun;
    RunKeeps(run, i);
  }

  /** The counters are exact: unfinished tasks are the queued ones and the ones workers hold, and
      the active count is the number of running workers. So no decrement can go below zero. */
  lemma {:induction false} CountersExact(run: seq<State>, i: nat)
    requires IsRun(run) && i < |run|
    ensures run[i].core.unfinished == |run[i].core.tasks| + |Held(run[i].workers)|
    ensures run[i].active == Busy(run[i].workers)
    ensures forall w | 0 <= w < |run[i].workers| ::
              (run[i].workers[w].Ran? ==> Enabled(run[i], CountOff(w))) && (run[i].workers[w].Running? ==> Enabled(run[i], EndTask(w)))
  {
    hide IsRun, Held, Busy, Sleepers, Wakened, Started, Range;
    RunKeeps(run, i);
    var s := run[i];
    forall w | 0 <= w < |s.workers|
      ensures (s.workers[w].Ran? ==> Enabled(s, CountOff(w))) && (s.workers[w].Running? ==> Enabled(s, EndTask(w)))
    {
      HolderCounts(s.workers, w);
    }
  }

  lemma {:induction false} HolderCounts(ws: seq<Worker>, w: nat)
    requires w < |ws|
    ensures Holds(ws[w]) ==> |Held(ws)| > 0
    ensures ws[w].Running? ==> Busy(ws) > 0
  {
    hide Held, Busy, Sleepers, Wakened;
    CountsUpdate(ws, w, Ready);
    HeldUpdate(ws, w, Ready);
    if Holds(ws[w]) {
      assert Held(ws) == Held(ws[w := Ready]) + multiset{ws[w].task};
    }
  }

  /** Every accepted task is in exactly one place: queued, held by one worker, or finished; and
      it is started at most once, exactly once when it is finished. */
  lemma {:induction false} ExactlyOnce(run: seq<State>, i: nat, task: nat)
    requires IsRun(run) && i < |run| && task < run[i].accepted
    ensures var s := run[i];
            && multiset(s.core.tasks)[task] + Held(s.workers)[task] + multiset(s.finished)[task] == 1
            && multiset(s.runs)[task] <= 1
            && (task in s.finished ==> multiset(s.runs)[task] == 1)
  {
    hide IsRun, Held, Started, Range;
    RunKeeps(run, i);
    var s := run[i];
    var k :| TasksFrom(s, k);
    RangeCounts(0, k, task);
    RangeCounts(k, s.accepted, task);
    StartedHeld(s.workers);
    assert multiset(s.runs)[task] == Started(s.workers)[task] + multiset(s.finished)[task];
    assert Started(s.workers)[task] <= Held(s.workers)[task];
    if task in s.finished { assert multiset(s.finished)[task] > 0; }
  }

  lemma {:induction false} RangeCounts(a: nat, b: nat, task: nat)
    requires a <= b
    ensures multiset(Range(a, b))[task] == One(a <= task < b)
    decreases b - a
  {
    if a < b {
      RangeCounts(a, b - 1, task);
      RangeSnoc(a, b - 1);
      hide Range;
    }
  }

  lemma {:induction false} StartedHeld(ws: seq<Worker>)
    ensures Started(ws) <= Held(ws)
  {
    if ws != [] { StartedHeld(ws[..|ws| - 1]); }
  }

  /** Nothing is unfinished exactly when every task accepted so far has finished, exactly once. */
  lemma {:induction false} NothingUnfinished(run: seq<State>, i: nat)
    requires IsRun(run) && i < |run|
    ensures run[i].core.unfinished == 0 <==> multiset(run[i].finished) == multiset(Range(0, run[i].accepted))
  {
    hide IsRun, Held, Started, Range;
    RunKeeps(run, i);
    var s := run[i];
    var k :| TasksFrom(s, k);
    if s.core.unfinished == 0 {
      assert Held(s.workers) == multiset{} by { assert |Held(s.workers)| == 0; }
    }
    if multiset(s.finished) == multiset(Range(0, s.accepted)) {
      assert |multiset(s.finished)| == s.accepted && |multiset(Range(0, k))| == k;
      assert |Held(s.workers) + multiset(s.finished)| == |Held(s.workers)| + |multiset(s.finished)|;
    }
  }

  /** A call of WaitAll passes, without sleeping, exactly when every task accepted so far has finished;
      and a woken caller leaves exactly when every task accepted by then has. */
  lemma {:induction false} WaitAllPassesExactly(run: seq<State>, i: nat)
    requires IsRun(run) && i < |run|
    ensures Apply(run[i], WaitAll).waiting == run[i].waiting <==>
            multiset(run[i].finished) == multiset(Range(0, run[i].accepted))
    ensures Enabled(run[i], WaiterRuns) ==>
              (Apply(run[i], WaiterRuns).waiting == run[i].waiting <==>
               multiset(run[i].finished) == multiset(Range(0, run[i].accepted)))
  {
    hide IsRun, Range;
    NothingUnfinished(run, i);
  }

  /** When all workers have exited the queue is empty and every accepted task has finished. */
  lemma {:induction false} ShutdownDrains(run: seq<State>, i: nat)
    requires IsRun(run) && i < |run| && forall w | 0 <= w < |run[i].workers| :: run[i].workers[w].Exited?
    ensures run[i].core.tasks == [] && run[i].core.unfinished == 0
    ensures multiset(run[i].finished) == multiset(Range(0, run[i].accepted))
  {
    hide IsRun, Range;
    RunKeeps(run, i);
    assert run[i].workers[0].Exited?;
    NothingHeld(run[i].workers);
    NothingUnfinished(run, i);
  }

  /** The pool does not stall: while a task is queued and every accepted task has been notified,
      some worker is neither asleep nor gone. */
  lemma {:induction false} QueueHasWorker(run: seq<State>, i: nat) returns (w: nat)
    requires IsRun(run) && i < |run| && run[i].core.tasks != [] && run[i].notifies == 0
    ensures w < |run[i].workers| && !run[i].workers[w].Asleep? && !run[i].workers[w].Exited?
  {
    hide IsRun;
    RunKeeps(run, i);
    w := FindAwake(run[i].workers);
  }

  lemma {:induction false} FindAwake(ws: seq<Worker>) returns (w: nat)
    requires ws != [] && (Sleepers(ws) > 0 ==> Wakened(ws) > 0) && forall i | 0 <= i < |ws| :: !ws[i].Exited?
    ensures w < |ws| && !ws[w].Asleep? && !ws[w].Exited?
  {
    if !ws[|ws| - 1].Asleep? {
      w := |ws| - 1;
    } else {
      assert Wakened(ws[..|ws| - 1]) > 0;
      w := FindAwake(ws[..|ws| - 1]);
    }
  }

  /** The pool has the number of workers it was made with, or two when none were asked for; and what is
      queued is, in the order of acceptance, the tasks that no worker has taken yet. */
  lemma {:induction false} QueueInOrder(run: seq<State>, i: nat, n: nat)
    requires IsRun(run) && i < |run| && run[0] == Initial(n)
    ensures |run[i].workers| == if n == 0 then 2 else n
    ensures |run[i].core.tasks| <= run[i].accepted
    ensures forall j | 0 <= j < |run[i].core.tasks| ::
              run[i].core.tasks[j] == run[i].accepted - |run[i].core.tasks| + j
  {
    hide IsRun, Held, Started;
    RunKeeps(run, i);
    var k :| TasksFrom(run[i], k);
  }

  /** The WaitAll calls inside, asleep or woken. */
  function Waiters(s: State): nat {
    s.waiting + s.wokenWaiters
  }

  /** A WaitAll call stays inside exactly while something is unfinished, and is woken, spurious wakeups
      apart, only when nothing is unfinished any more. */
  lemma {:induction false} WaitAllOutcome(s: State, act: Action)
    requires Enabled(s, act)
    ensures var t := Apply(s, act);
            Waiters(t) == Waiters(s) + One(act.WaitAll? && s.core.unfinished > 0) - One(act.WaiterRuns? && s.core.unfinished == 0)
    ensures var t := Apply(s, act);
            t.waiting < s.waiting ==>
              (act.WaiterStirs? && t.waiting == s.waiting - 1) || (act.CountOff? && t.core.unfinished == 0 == t.waiting)
    ensures act.WaiterStirs? ==> Apply(s, act).waiting < s.waiting
  {
    hide WakeAll;
  }

  /** Enqueue accepts a task, and then notifies once, exactly when the destructor has not been called. */
  lemma EnqueueOutcome(s: State)
    ensures var t := Apply(s, Enqueue);
            && t.accepted == s.accepted + One(!s.core.stop)
            && t.notifies == s.notifies + One(!s.core.stop)
            && t.core.tasks == s.core.tasks + if s.core.stop then [] else [s.accepted]
    ensures !s.core.stop ==> Apply(s, SetStop).core.stop
  {
  }

  lemma {:induction false} StepStaysStopped(s: State, act: Action)
    requires Enabled(s, act)
    ensures s.core.stop ==> Apply(s, act).core.stop && Apply(s, act).accepted == s.accepted
  {
    hide WakeAll;
  }

  /** From the destructor's first step on nothing is accepted any more. */
  lemma {:induction false} StoppedForever(run: seq<State>, i: nat, j: nat)
    requires IsRun(run) && i <= j < |run| && run[i].core.stop
    ensures run[j].core.stop && run[j].accepted == run[i].accepted
    decreases j - i
  {
    hide Enabled, Apply;
    if i < j {
      StoppedForever(run, i, j - 1);
      assert Next(run[j - 1], run[j]);
      var act :| Enabled(run[j - 1], act) && run[j] == Apply(run[j - 1], act);
      StepStaysStopped(run[j - 1], act);
    }
  }

  /** A new pool has no task, no caller and no notification outstanding. */
  lemma {:induction false} NewPoolIsIdle(n: nat)
    ensures var s := Initial(n);
            && s.core == Core([], 0, false) && s.active == 0 && s.notifies == 0 && !s.stopNotify
            && s.waiting == 0 == s.wokenWaiters && s.accepted == 0 && s.runs == [] && s.finished == []
  {
    var workers := Initial(n).workers;
    assert Initial(n) == State(Core([], 0, false), 0, workers, 0, false, 0, 0, 0, [], []);
  }

  // ---------- every call returns in the end ----------

  /** The steps that the pool takes by itself. New calls and spurious wakeups are not among them. */
  predicate Internal(act: Action) {
    !(act.Enqueue? || act.WaitAll? || act.SetStop? || act.WorkerStirs? || act.WaiterStirs?)
  }

  /** The steps a held task still needs. */
  function StepsLeft(w: Worker): nat {
    match w
    case Took(_) => 3
    case Running(_) => 2
    case Ran(_) => 1
    case _ => 0
  }

  function HeldSteps(ws: seq<Worker>): (n: nat) {
    if ws == [] then 0 else HeldSteps(ws[..|ws| - 1]) + StepsLeft(ws[|ws| - 1])
  }

  /** The workers about to take the lock. */
  function Looking(ws: seq<Worker>): (n: nat) {
    if ws == [] then 0 else Looking(ws[..|ws| - 1]) + One(ws[|ws| - 1].Ready? || ws[|ws| - 1].Woken?)
  }

  /** The steps the accepted tasks still need. */
  function TaskSteps(s: State): (n: nat) {
    4 * |s.core.tasks| + HeldSteps(s.workers)
  }

  /** A bound on the steps until the next step of a task. */
  function OtherSteps(s: State): (n: nat) {
    2 * s.notifies + Looking(s.workers) + s.wokenWaiters + if s.stopNotify then |s.workers| + 1 else 0
  }

  lemma {:induction false} StepsUpdate(ws: seq<Worker>, i: nat, w: Worker)
    requires i < |ws|
    ensures HeldSteps(ws[i := w]) == HeldSteps(ws) - StepsLeft(ws[i]) + StepsLeft(w)
    ensures Looking(ws[i := w]) == Looking(ws) - One(ws[i].Ready? || ws[i].Woken?) + One(w.Ready? || w.Woken?)
  {
    hide StepsLeft;
    if i < |ws| - 1 { StepsUpdate(ws[..|ws| - 1], i, w); }
  }

  lemma {:induction false} WakeAllSteps(ws: seq<Worker>)
    ensures HeldSteps(WakeAll(ws)) == HeldSteps(ws) && Looking(WakeAll(ws)) <= |ws|
  {
    if ws != [] {
      WakeAllSteps(ws[..|ws| - 1]);
      WakeAllFront(ws);
      hide WakeAll;
    }
  }

  /** Every internal step brings the pool closer to rest: left to itself, it stops after finitely many. */
  lemma {:induction false} InternalStepsEnd(s: State, act: Action)
    requires Enabled(s, act) && Internal(act)
    ensures var t := Apply(s, act);
            TaskSteps(t) < TaskSteps(s) || (TaskSteps(t) == TaskSteps(s) && OtherSteps(t) < OtherSteps(s))
  {
    hide HeldSteps, Looking, WakeAll;
    match act
    case EnqueueNotifies(i) => if Sleepers(s.workers) > 0 { StepsUpdate(s.workers, i, Woken); }
    case WorkerLocks(i) =>
      StepsUpdate(s.workers, i, Asleep);
      StepsUpdate(s.workers, i, Exited);
      if s.core.tasks != [] { StepsUpdate(s.workers, i, Took(s.core.tasks[0])); }
    case StartTask(i) => StepsUpdate(s.workers, i, Running(s.workers[i].task));
    case EndTask(i) => StepsUpdate(s.workers, i, Ran(s.workers[i].task));
    case CountOff(i) => StepsUpdate(s.workers, i, Ready);
    case StopNotifies => WakeAllSteps(s.workers);
    case _ =>
  }

  /** No internal step can be taken. */
  ghost predicate AtRest(s: State) {
    forall act | Internal(act) :: !Enabled(s, act)
  }

  /** When the pool has come to rest every accepted task has finished and every WaitAll caller has left;
      if the destructor has been called, every worker has exited, so that it can join them. */
  lemma {:induction false} RestMeansDone(run: seq<State>, i: nat)
    requires IsRun(run) && i < |run| && AtRest(run[i])
    ensures var s := run[i];
            && s.core.tasks == [] && multiset(s.finished) == multiset(Range(0, s.accepted))
            && s.waiting == 0 && s.wokenWaiters == 0
            && forall w | 0 <= w < |s.workers| :: s.workers[w].Exited? || (s.workers[w].Asleep? && !s.core.stop)
  {
    hide IsRun, Range;
    RunKeeps(run, i);
    NothingUnfinished(run, i);
    var s := run[i];
    RestingWorkers(s);
    NothingHeld(s.workers);
    if s.core.tasks != [] { var w := QueueHasWorker(run, i); }
    forall w | 0 <= w < |s.workers| ensures s.workers[w].Exited? || (s.workers[w].Asleep? && !s.core.stop) {
      if s.workers[w].Asleep? { AsleepCounts(s.workers, w); }
    }
  }

  lemma {:induction false} RestingWorkers(s: State)
    requires AtRest(s) && CountsOk(s)
    ensures forall w | 0 <= w < |s.workers| :: s.workers[w].Exited? || s.workers[w].Asleep?
    ensures s.notifies == 0 && s.wokenWaiters == 0 && !s.stopNotify
  {
    hide Held, Busy, Sleepers;
    forall w | 0 <= w < |s.workers| ensures s.workers[w].Exited? || s.workers[w].Asleep? {
      HolderCounts(s.workers, w);
      assert !Enabled(s, WorkerLocks(w)) && !Enabled(s, StartTask(w)) && !Enabled(s, EndTask(w)) && !Enabled(s, CountOff(w));
    }
    assert !Enabled(s, WaiterRuns) && !Enabled(s, StopNotifies);
    var pick := if Sleepers(s.workers) > 0 then SomeAsleep(s.workers) else 0;
    assert !Enabled(s, EnqueueNotifies(pick));
  }

  /** A sleeping worker, when there is one. */
  function SomeAsleep(ws: seq<Worker>): (i: nat)
    requires Sleepers(ws) > 0
    ensures i < |ws| && ws[i].Asleep?
  {
    if ws[|ws| - 1].Asleep? then |ws| - 1 else SomeAsleep(ws[..|ws| - 1])
  }

  lemma {:induction false} AsleepCounts(ws: seq<Worker>, i: nat)
    requires i < |ws| && ws[i].Asleep?
    ensures Sleepers(ws) > 0
  {
    if i < |ws| - 1 { AsleepCounts(ws[..|ws| - 1], i); }
  }

  lemma {:induction false} NothingHeld(ws: seq<Worker>)
    requires forall i | 0 <= i < |ws| :: ws[i].Exited? || ws[i].Asleep?
    ensures Held(ws) == multiset{}
  {
    if ws != [] { NothingHeld(ws[..|ws| - 1]); }
  }
}
