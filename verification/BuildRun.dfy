/**
 The semaphores of one batch build: the scheduler loop takes a slot token, then
 a global token, and hands both to a task goroutine, while refreshes swap the
 slots of the pools. Every interleaving of these steps is a run.
 */
module BuildRun {
  import opened Options

  type SlotId = nat
  type TaskId = nat

  /** A task releases its slot token, then its global token, then signals the wait group. */
  datatype Task = Running(slot: SlotId) | SlotReleased | GlobalReleased | Finished

  datatype Phase = Scheduling | Waiting | Returned

  /**
   `tokens` counts every slot ever made, in a pool or dropped; `hand` is the slot
   the scheduler has picked but not yet given to a task; `seen` its last snapshot.
   */
  datatype State = State(
    pools: map<string, map<string, SlotId>>,
    tokens: map<SlotId, nat>,
    global: nat,
    hand: Option<SlotId>,
    seen: set<SlotId>,
    tasks: map<TaskId, Task>,
    waitGroup: nat,
    cancelled: bool,
    phase: Phase)

  datatype Step =
    | TakeSnapshot(platform: string)
    | Pick(slot: SlotId)
    | Launch(task: TaskId)
    | Abandon
    | StopScheduling
    | ReleaseSlot(task: TaskId)
    | ReleaseGlobal(task: TaskId)
    | SignalDone(task: TaskId)
    | CancelBuild
    | Refresh(platform: string, addresses: set<string>, made: map<string, SlotId>)
    | WaitReturns

  const Start := State(map[], map[], 0, None, {}, map[], 0, false, Scheduling)

  function PoolOf(s: State, platform: string): map<string, SlotId> {
    if platform in s.pools then s.pools[platform] else map[]
  }

  /** A refresh makes one new slot for each address that has none, each its own. */
  ghost predicate RefreshOk(s: State, platform: string, addresses: set<string>, made: map<string, SlotId>) {
    && made.Keys == addresses - PoolOf(s, platform).Keys
    && (forall a <- made :: made[a] !in s.tokens)
    && (forall a, b | a in made && b in made :: made[a] == made[b] ==> a == b)
  }

  /** A channel send waits for room and a receive for a token. */
  ghost predicate Enabled(s: State, capacity: nat, step: Step) {
    match step
    case TakeSnapshot(platform) => s.phase == Scheduling && s.hand.None?
    case Pick(slot) => s.phase == Scheduling && s.hand.None? && slot in s.seen && slot in s.tokens
        && s.tokens[slot] < capacity
    case Launch(task) => s.phase == Scheduling && s.hand.Some? && s.global < capacity && task !in s.tasks
    case Abandon => s.phase == Scheduling && s.hand.Some? && s.cancelled && s.hand.value in s.tokens
        && s.tokens[s.hand.value] > 0
    case StopScheduling => s.phase == Scheduling && s.hand.None?
    case ReleaseSlot(task) =>
      task in s.tasks && s.tasks[task].Running? && s.tasks[task].slot in s.tokens && s.tokens[s.tasks[task].slot] > 0
    case ReleaseGlobal(task) => task in s.tasks && s.tasks[task].SlotReleased? && s.global > 0
    case SignalDone(task) => task in s.tasks && s.tasks[task].GlobalReleased? && s.waitGroup > 0
    case CancelBuild => true
    case Refresh(platform, addresses, made) => RefreshOk(s, platform, addresses, made)
    case WaitReturns => s.phase == Waiting && s.waitGroup == 0
  }

  ghost function Apply(s: State, capacity: nat, step: Step): State
    requires Enabled(s, capacity, step)
  {
    match step
    case TakeSnapshot(platform) => s.(seen := PoolOf(s, platform).Values)
    case Pick(slot) => s.(tokens := s.tokens[slot := s.tokens[slot] + 1], hand := Some(slot))
    case Launch(task) =>
      s.(global := s.global + 1, hand := None, tasks := s.tasks[task := Running(s.hand.value)],
          waitGroup := s.waitGroup + 1)
    case Abandon =>
      s.(tokens := s.tokens[s.hand.value := s.tokens[s.hand.value] - 1], hand := None, phase := Waiting)
    case StopScheduling => s.(phase := Waiting)
    case ReleaseSlot(task) =>
      var slot := s.tasks[task].slot;
      s.(tokens := s.tokens[slot := s.tokens[slot] - 1], tasks := s.tasks[task := SlotReleased])
    case ReleaseGlobal(task) => s.(global := s.global - 1, tasks := s.tasks[task := GlobalReleased])
    case SignalDone(task) => s.(waitGroup := s.waitGroup - 1, tasks := s.tasks[task := Finished])
    case CancelBuild => s.(cancelled := true)
    case Refresh(platform, addresses, made) =>
      s.(pools := s.pools[platform := Refreshed(PoolOf(s, platform), addresses, made)],
         tokens := s.tokens + map slot | slot in made.Values :: 0)
    case WaitReturns => s.(phase := Returned)
  }

  function Refreshed(pool: map<string, SlotId>, addresses: set<string>, made: map<string, SlotId>): map<string, SlotId>
    requires addresses <= pool.Keys + made.Keys
  {
    map a | a in addresses :: if a in pool then pool[a] else made[a]
  }

  ghost predicate Leads(s: State, capacity: nat, steps: seq<Step>, t: State)
    decreases |steps|
  {
    if steps == [] then s == t
    else Enabled(s, capacity, steps[0]) && Leads(Apply(s, capacity, steps[0]), capacity, steps[1..], t)
  }

  // ---------- the invariant ----------

  ghost function Holders(tasks: map<TaskId, Task>, slot: SlotId): set<TaskId> {
    set t | t in tasks && tasks[t] == Running(slot)
  }

  predicate HoldsGlobal(task: Task) {
    task.Running? || task.SlotReleased?
  }

  ghost function Runners(tasks: map<TaskId, Task>): set<TaskId> {
    set t | t in tasks && tasks[t].Running?
  }

  ghost function GlobalHolders(tasks: map<TaskId, Task>): set<TaskId> {
    set t | t in tasks && HoldsGlobal(tasks[t])
  }

  ghost function Unfinished(tasks: map<TaskId, Task>): set<TaskId> {
    set t | t in tasks && !tasks[t].Finished?
  }

  ghost predicate Known(s: State) {
    && (forall p <- s.pools :: forall a <- s.pools[p] :: s.pools[p][a] in s.tokens)
    && s.seen <= s.tokens.Keys
    && (s.hand.Some? ==> s.hand.value in s.tokens)
    && (forall t <- s.tasks :: s.tasks[t].Running? ==> s.tasks[t].slot in s.tokens)
  }

  /** Every semaphore holds exactly one token per holder, and no more than it has room for. */
  ghost predicate Exact(s: State, capacity: nat) {
    && (forall slot <- s.tokens ::
          s.tokens[slot] == |Holders(s.tasks, slot)| + (if s.hand == Some(slot) then 1 else 0) <= capacity)
    && s.global == |GlobalHolders(s.tasks)| <= capacity
    && s.waitGroup == |Unfinished(s.tasks)|
    && (s.phase != Scheduling ==> s.hand.None?)
    && (s.phase == Returned ==> s.waitGroup == 0)
  }

  ghost predicate Inv(s: State, capacity: nat) {
    Known(s) && Exact(s, capacity)
  }

  lemma KnownKept(s: State, capacity: nat, step: Step)
    requires Inv(s, capacity) && Enabled(s, capacity, step)
    ensures Known(Apply(s, capacity, step))
  {
  }

  function One(b: bool): nat { if b then 1 else 0 }

  /** Moving one task shifts each count by what that task held before and holds after. */
  lemma TaskMoves(tasks: map<TaskId, Task>, t: TaskId, to: Task)
    ensures var moved, from := tasks[t := to], if t in tasks then Some(tasks[t]) else None;
            && (forall slot: SlotId ::
                  |Holders(moved, slot)| ==
                  |Holders(tasks, slot)| + One(to == Running(slot)) - One(from == Some(Running(slot))))
            && |Runners(moved)| == |Runners(tasks)| + One(to.Running?) - One(from.Some? && from.value.Running?)
            && |GlobalHolders(moved)| ==
               |GlobalHolders(tasks)| + One(HoldsGlobal(to)) - One(from.Some? && HoldsGlobal(from.value))
            && |Unfinished(moved)| ==
               |Unfinished(tasks)| + One(!to.Finished?) - One(from.Some? && !from.value.Finished?)
  {
    var moved := tasks[t := to];
    forall slot: SlotId ensures
      |Holders(moved, slot)| ==
      |Holders(tasks, slot)| + One(to == Running(slot)) - One(t in tasks && tasks[t] == Running(slot))
    {
      Toggle(Holders(tasks, slot), Holders(moved, slot), t);
    }
    Toggle(Runners(tasks), Runners(moved), t);
    Toggle(GlobalHolders(tasks), GlobalHolders(moved), t);
    Toggle(Unfinished(tasks), Unfinished(moved), t);
  }

  lemma Toggle(a: set<TaskId>, b: set<TaskId>, t: TaskId)
    requires a - {t} == b - {t}
    ensures |b| == |a| + One(t in b) - One(t in a)
  {
    var rest := a - {t};
    assert a == if t in a then rest + {t} else rest;
    assert b == if t in b then rest + {t} else rest;
  }

  lemma TaskStepKeeps(s: State, capacity: nat, step: Step)
    requires Inv(s, capacity) && Enabled(s, capacity, step)
    requires step.ReleaseSlot? || step.ReleaseGlobal? || step.SignalDone?
    ensures Exact(Apply(s, capacity, step), capacity)
    ensures var t := Apply(s, capacity, step); t.phase == s.phase && Remaining(t.tasks) == Remaining(s.tasks) - 1
  {
    TaskMoves(s.tasks, step.task, Apply(s, capacity, step).tasks[step.task]);
  }

  lemma ExactKept(s: State, capacity: nat, step: Step)
    requires Inv(s, capacity) && Enabled(s, capacity, step)
    ensures Exact(Apply(s, capacity, step), capacity)
  {
    if step.Launch? {
      LaunchKeeps(s, capacity, step);
    } else if step.Refresh? {
      RefreshKeeps(s, capacity, step);
    } else if step.ReleaseSlot? || step.ReleaseGlobal? || step.SignalDone? {
      TaskStepKeeps(s, capacity, step);
    } else {
      SchedulerKeeps(s, capacity, step);
    }
  }

  lemma LaunchKeeps(s: State, capacity: nat, step: Step)
    requires Inv(s, capacity) && Enabled(s, capacity, step) && step.Launch?
    ensures Exact(Apply(s, capacity, step), capacity)
  {
    TaskMoves(s.tasks, step.task, Running(s.hand.value));
  }

  lemma RefreshKeeps(s: State, capacity: nat, step: Step)
    requires Inv(s, capacity) && Enabled(s, capacity, step) && step.Refresh?
    ensures Exact(Apply(s, capacity, step), capacity)
  {
    assert forall slot | slot in step.made.Values :: Holders(s.tasks, slot) == {};
  }

  lemma SchedulerKeeps(s: State, capacity: nat, step: Step)
    requires Inv(s, capacity) && Enabled(s, capacity, step)
    requires !step.Launch? && !step.Refresh? && !step.ReleaseSlot? && !step.ReleaseGlobal? && !step.SignalDone?
    ensures Exact(Apply(s, capacity, step), capacity)
  {
  }

  lemma {:induction false} InvHolds(s: State, capacity: nat, steps: seq<Step>, t: State)
    requires Inv(s, capacity) && Leads(s, capacity, steps, t)
    ensures Inv(t, capacity)
    decreases |steps|
  {
    if steps != [] {
      KnownKept(s, capacity, steps[0]);
      ExactKept(s, capacity, steps[0]);
      InvHolds(Apply(s, capacity, steps[0]), capacity, steps[1..], t);
    }
  }

  // ---------- what every run keeps ----------

  ghost predicate Reachable(s: State, capacity: nat) {
    exists steps: seq<Step> :: Leads(Start, capacity, steps, s)
  }

  lemma ReachableInv(s: State, capacity: nat)
    requires Reachable(s, capacity)
    ensures Inv(s, capacity)
  {
    var steps: seq<Step> :| Leads(Start, capacity, steps, s);
    assert Inv(Start, capacity);
    InvHolds(Start, capacity, steps, s);
  }

  /**
   One token per holder in every semaphore, of a live or a dropped slot: the
   scheduler's own hand and the running tasks on the slot; one global token per
   task that has not given it back, so at most `capacity` tasks run.
   */
  lemma TokensMatchHolders(s: State, capacity: nat)
    requires Reachable(s, capacity)
    ensures forall slot <- s.tokens ::
        s.tokens[slot] == |Holders(s.tasks, slot)| + One(s.hand == Some(slot)) <= capacity
    ensures s.global == |GlobalHolders(s.tasks)| <= capacity
  {
    ReachableInv(s, capacity);
  }

  /** No release ever blocks, even on a slot that a refresh has dropped. */
  lemma ReleasesNeverBlock(s: State, capacity: nat, task: TaskId)
    requires Reachable(s, capacity)
    ensures task in s.tasks && s.tasks[task].Running? ==> Enabled(s, capacity, ReleaseSlot(task))
    ensures task in s.tasks && s.tasks[task].SlotReleased? ==> Enabled(s, capacity, ReleaseGlobal(task))
    ensures task in s.tasks && s.tasks[task].GlobalReleased? ==> Enabled(s, capacity, SignalDone(task))
    ensures s.hand.Some? && s.cancelled ==> Enabled(s, capacity, Abandon)
  {
    ReachableInv(s, capacity);
    if task in s.tasks {
      assert s.tasks[task].Running? ==> task in Holders(s.tasks, s.tasks[task].slot);
      assert HoldsGlobal(s.tasks[task]) ==> task in GlobalHolders(s.tasks);
      assert !s.tasks[task].Finished? ==> task in Unfinished(s.tasks);
    }
  }

  /** When the wait returns, every token of every semaphore is back. */
  lemma AllTokensReturned(s: State, capacity: nat)
    requires Reachable(s, capacity) && s.phase == Returned
    ensures forall slot <- s.tokens :: s.tokens[slot] == 0
    ensures s.global == 0
    ensures forall t <- s.tasks :: s.tasks[t] == Finished
  {
    ReachableInv(s, capacity);
    assert Unfinished(s.tasks) == {};
    assert forall t <- s.tasks :: t !in Unfinished(s.tasks);
    assert GlobalHolders(s.tasks) == {};
    forall slot <- s.tokens ensures s.tokens[slot] == 0 {
      assert Holders(s.tasks, slot) == {};
    }
  }

  /** The address is in the pool of the platform at every state of the run. */
  ghost predicate StaysIn(s: State, capacity: nat, steps: seq<Step>, platform: string, address: string)
    decreases |steps|
  {
    && address in PoolOf(s, platform)
    && (steps != [] ==> Enabled(s, capacity, steps[0])
                        && StaysIn(Apply(s, capacity, steps[0]), capacity, steps[1..], platform, address))
  }

  /** An address that stays through all refreshes keeps its slot; a refresh itself moves no token. */
  lemma {:induction false} StayingAddressKeepsSlot(s: State, capacity: nat, steps: seq<Step>, t: State,
        platform: string, address: string)
    requires Leads(s, capacity, steps, t) && StaysIn(s, capacity, steps, platform, address)
    ensures address in PoolOf(t, platform) && PoolOf(t, platform)[address] == PoolOf(s, platform)[address]
    decreases |steps|
  {
    if steps != [] {
      StayingAddressKeepsSlot(Apply(s, capacity, steps[0]), capacity, steps[1..], t, platform, address);
    }
  }

  lemma RefreshMovesNoToken(s: State, capacity: nat, platform: string, addresses: set<string>,
        made: map<string, SlotId>)
    requires Reachable(s, capacity) && Enabled(s, capacity, Refresh(platform, addresses, made))
    ensures var t := Apply(s, capacity, Refresh(platform, addresses, made));
            && (forall slot <- s.tokens :: slot in t.tokens && t.tokens[slot] == s.tokens[slot])
            && (forall slot <- t.tokens :: slot !in s.tokens ==> t.tokens[slot] == 0 && Holders(t.tasks, slot) == {})
            && (forall a <- addresses :: a in PoolOf(s, platform) ==> PoolOf(t, platform)[a] == PoolOf(s, platform)[a])
  {
    ReachableInv(s, capacity);
  }

  /** The releases and signals still due. */
  ghost function Remaining(tasks: map<TaskId, Task>): nat {
    |Runners(tasks)| + |GlobalHolders(tasks)| + |Unfinished(tasks)|
  }

  /** A waiting build is never stuck: releasing in any order of tasks leads to its return. */
  lemma {:induction false} WaitCanReturn(s: State, capacity: nat) returns (steps: seq<Step>, t: State)
    requires Inv(s, capacity) && s.phase == Waiting
    ensures Leads(s, capacity, steps, t) && t.phase == Returned && |steps| == Remaining(s.tasks) + 1
    decreases Remaining(s.tasks)
  {
    var step := WaitReturns;
    var rest: seq<Step> := [];
    if s.waitGroup == 0 {
      NothingRemains(s.tasks);
      t := Apply(s, capacity, step);
    } else {
      assert Unfinished(s.tasks) != {};
      var task :| task in Unfinished(s.tasks);
      assert s.tasks[task].Running? ==> task in Holders(s.tasks, s.tasks[task].slot);
      assert HoldsGlobal(s.tasks[task]) ==> task in GlobalHolders(s.tasks);
      step := if s.tasks[task].Running? then ReleaseSlot(task)
              else if s.tasks[task].SlotReleased? then ReleaseGlobal(task) else SignalDone(task);
      KnownKept(s, capacity, step);
      TaskStepKeeps(s, capacity, step);
      rest, t := WaitCanReturn(Apply(s, capacity, step), capacity);
    }
    steps := [step] + rest;
    assert steps[1..] == rest;
  }

  lemma NothingRemains(tasks: map<TaskId, Task>)
    requires Unfinished(tasks) == {}
    ensures Remaining(tasks) == 0
  {
    assert forall t <- tasks :: t !in Unfinished(tasks);
    assert Runners(tasks) == {} && GlobalHolders(tasks) == {};
  }
}
