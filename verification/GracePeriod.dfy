/** Swapping and reclaiming the classifier table while workers use it: every worker holds its own lock
    around its two reads of the table pointer and the classification; the sync swaps the pointer,
    passes through every worker lock once and only then frees the old table. */
module GracePeriod {

  /** Where a worker is. Outside holds no lock; Loaded has read the pointer it will classify with. */
  datatype Worker = Outside | Entered | Checked | Loaded(table: nat) | Classified

  datatype Holder = Nobody | ItsWorker | TheSync

  /** Where the sync is: building context ctx, about to install a table, about to take or release
      the lock of worker i, done with the locks, about to free the old table. NULL is 0. */
  datatype Sync =
    | Resting
    | Building(ctx: nat)
    | Installing(table: nat)
    | Passing(i: nat, prev: nat, table: nat)
    | Holding(i: nat, prev: nat, table: nat)
    | Freeing(prev: nat)

  /** alive maps each context that exists to its name; contexts are numbered in order of creation,
      so a number is never used again. nameModel picks the next name. emptied records that a table was
      ever replaced by none. */
  datatype State = State(
    workers: seq<Worker>, locks: seq<Holder>, live: nat, sync: Sync,
    alive: map<nat, int>, created: nat, nameModel: int, emptied: bool)

  datatype Step =
    | Lock(w: nat) | Check(w: nat) | Load(w: nat) | Classify(w: nat) | Unlock(w: nat)
    | Create | CreateFails | SetupFails | NoRules | Built | Install | PassLock | PassUnlock | Finish | Free

  const NULL: nat := 0

  function Start(n: nat): State {
    State(seq(n, _ => Outside), seq(n, _ => Nobody), NULL, Resting, map[], 0, 0, false)
  }

  predicate WorkerAt(s: State, w: nat, at: Worker) {
    w < |s.workers| && w < |s.locks| && s.workers[w] == at
  }

  /** The steps possible in a state; check says whether the sync waits for the workers. */
  predicate Can(s: State, step: Step, check: bool) {
    match step
    case Lock(w) => WorkerAt(s, w, Outside) && s.locks[w] == Nobody
    case Check(w) => WorkerAt(s, w, Entered)
    case Load(w) => WorkerAt(s, w, Checked)
    case Classify(w) => w < |s.workers| && s.workers[w].Loaded?
    case Unlock(w) => WorkerAt(s, w, Classified)
    case Create => s.sync.Resting?
    case CreateFails => s.sync.Resting?
    case SetupFails => s.sync.Building?
    case NoRules => s.sync.Building?
    case Built => s.sync.Building?
    case Install => s.sync.Installing?
    case PassLock => s.sync.Passing? && s.sync.i < |s.locks| && s.locks[s.sync.i] == Nobody && check
    case PassUnlock => s.sync.Holding? && s.sync.i < |s.locks|
    case Finish => s.sync.Passing? && (s.sync.i >= |s.locks| || !check)
    case Free => s.sync.Freeing?
  }

  /** An existing context of that name, if there is one. */
  ghost predicate NameTaken(s: State, name: int) {
    exists c :: c in s.alive && s.alive[c] == name
  }

  /** Creating by name returns the context that has the name, if one exists. */
  ghost function CreateContext(s: State): State {
    if c :| c in s.alive && s.alive[c] == s.nameModel then s.(sync := Building(c))
    else
      var c := s.created + 1;
      s.(sync := Building(c), alive := s.alive[c := s.nameModel], created := c)
  }

  /** The other of the two names. */
  function Flip(model: int): int {
    if model == 0 then 1 else 0
  }

  function Freed(s: State, ctx: nat): State {
    if ctx == NULL then s else s.(alive := s.alive - {ctx})
  }

  ghost function Take(s: State, step: Step, check: bool): State
    requires Can(s, step, check)
  {
    match step
    case Lock(w) => s.(workers := s.workers[w := Entered], locks := s.locks[w := ItsWorker])
    case Check(w) => s.(workers := s.workers[w := if s.live != NULL then Checked else Classified])
    case Load(w) => s.(workers := s.workers[w := Loaded(s.live)])
    case Classify(w) => s.(workers := s.workers[w := Classified])
    case Unlock(w) => s.(workers := s.workers[w := Outside], locks := s.locks[w := Nobody])
    case Create => CreateContext(s)
    case CreateFails => s
    case SetupFails => Freed(s, s.sync.ctx).(sync := Resting)
    case NoRules => Freed(s, s.sync.ctx).(sync := Installing(NULL))
    case Built => s.(sync := Installing(s.sync.ctx))
    case Install => s.(live := s.sync.table, sync := Passing(0, s.live, s.sync.table),
                       emptied := s.emptied || (s.live != NULL && s.sync.table == NULL))
    case PassLock => s.(locks := s.locks[s.sync.i := TheSync], sync := Holding(s.sync.i, s.sync.prev, s.sync.table))
    case PassUnlock => s.(locks := s.locks[s.sync.i := Nobody], sync := Passing(s.sync.i + 1, s.sync.prev, s.sync.table))
    case Finish => s.(nameModel := if s.sync.table != NULL then Flip(s.nameModel) else s.nameModel,
                      sync := Freeing(s.sync.prev))
    case Free => Freed(s, s.sync.prev).(sync := Resting)
  }

  ghost predicate Runs(s: State, trace: seq<Step>, check: bool)
    decreases |trace|
  {
    trace == [] || (Can(s, trace[0], check) && Runs(Take(s, trace[0], check), trace[1..], check))
  }

  ghost function After(s: State, trace: seq<Step>, check: bool): State
    requires Runs(s, trace, check)
    decreases |trace|
  {
    if trace == [] then s else After(Take(s, trace[0], check), trace[1..], check)
  }

  // ---------- What every run keeps ----------

  /** The contexts that exist are the live one and the one the sync is busy with. */
  function Busy(sync: Sync): nat {
    match sync
    case Resting => NULL
    case Building(ctx) => ctx
    case Installing(table) => table
    case Passing(_, prev, _) => prev
    case Holding(_, prev, _) => prev
    case Freeing(prev) => prev
  }

  ghost predicate ContextsOk(s: State) {
    && (forall c :: c in s.alive <==> c != NULL && (c == s.live || c == Busy(s.sync)))
    && (forall c :: c in s.alive ==> c <= s.created)
    && (s.live != NULL ==> s.live != Busy(s.sync))
    && (s.sync.Building? ==> s.sync.ctx != NULL)
    && (s.sync.Passing? || s.sync.Holding? ==> s.live == s.sync.table)
  }

  /** The name the live table may not have once the sync rests. */
  ghost predicate NamesOk(s: State) {
    && (s.nameModel == 0 || s.nameModel == 1)
    && (forall c :: c in s.alive ==>
          s.alive[c] == match s.sync
            case Resting => Flip(s.nameModel)
            case Building(ctx) => if c == ctx then s.nameModel else Flip(s.nameModel)
            case Installing(table) => if c == table then s.nameModel else Flip(s.nameModel)
            case Passing(_, prev, table) => if c == table then s.nameModel else Flip(s.nameModel)
            case Holding(_, prev, table) => if c == table then s.nameModel else Flip(s.nameModel)
            case Freeing(prev) => if c == prev && s.live != NULL then s.nameModel else Flip(s.nameModel))
  }

  ghost predicate LocksOk(s: State) {
    && |s.locks| == |s.workers|
    && forall w :: 0 <= w < |s.workers| ==> LockOk(s, w)
  }

  ghost predicate LockOk(s: State, w: nat)
    requires |s.locks| == |s.workers| && w < |s.workers|
  {
    && (s.locks[w] == ItsWorker <==> s.workers[w] != Outside)
    && (s.locks[w] == TheSync <==> s.sync.Holding? && s.sync.i == w)
  }

  /** The workers the sync has not yet seen outside their critical section since the swap. */
  ghost predicate NotYetPassed(s: State, w: nat) {
    (s.sync.Passing? && w >= s.sync.i) || (s.sync.Holding? && w > s.sync.i)
  }

  /** A worker's table is the live one, or the old one if the sync has not yet passed that worker. */
  ghost predicate TableOk(s: State, w: nat)
    requires w < |s.workers|
  {
    s.workers[w].Loaded? ==>
      var t := s.workers[w].table;
      t == NULL || t == s.live || (NotYetPassed(s, w) && t == s.sync.prev)
  }

  ghost predicate Inv(s: State) {
    ContextsOk(s) && NamesOk(s) && LocksOk(s) && forall w :: 0 <= w < |s.workers| ==> TableOk(s, w)
  }

  /** No worker is about to classify with a table that has been freed. */
  ghost predicate Safe(s: State) {
    forall w :: 0 <= w < |s.workers| && s.workers[w].Loaded? ==>
      s.workers[w].table == NULL || s.workers[w].table in s.alive
  }

  lemma InvIsSafe(s: State)
    requires Inv(s)
    ensures Safe(s)
  {
    forall w | 0 <= w < |s.workers| && s.workers[w].Loaded?
      ensures s.workers[w].table == NULL || s.workers[w].table in s.alive
    {
      assert TableOk(s, w);
    }
  }

  /** Every worker that is about to classify does so with the live table or none. */
  ghost predicate Fresh(s: State) {
    forall w :: 0 <= w < |s.workers| && s.workers[w].Loaded? ==>
      s.workers[w].table == NULL || s.workers[w].table == s.live
  }

  lemma InvIsFresh(s: State)
    requires Inv(s) && !s.sync.Passing? && !s.sync.Holding?
    ensures Fresh(s)
  {
    forall w | 0 <= w < |s.workers| && s.workers[w].Loaded?
      ensures s.workers[w].table == NULL || s.workers[w].table == s.live
    {
      assert TableOk(s, w);
    }
  }

  lemma StartInv(n: nat)
    ensures Inv(Start(n))
  {
  }

  lemma WorkerStepKeeps(s: State, step: Step)
    requires Inv(s) && Can(s, step, true)
    requires step.Lock? || step.Check? || step.Load? || step.Classify? || step.Unlock?
    ensures Inv(Take(s, step, true))
  {
    var s' := Take(s, step, true);
    forall w | 0 <= w < |s'.workers| ensures LockOk(s', w) && TableOk(s', w) {
      assert LockOk(s, w) && TableOk(s, w);
    }
  }

  lemma BuildStepKeeps(s: State, step: Step)
    requires Inv(s) && Can(s, step, true)
    requires step.Create? || step.CreateFails? || step.SetupFails? || step.NoRules? || step.Built?
    ensures Inv(Take(s, step, true))
  {
    assert s.live != NULL ==> s.live in s.alive;
    var s' := Take(s, step, true);
    forall w | 0 <= w < |s'.workers| ensures LockOk(s', w) && TableOk(s', w) {
      assert LockOk(s, w) && TableOk(s, w);
    }
  }

  lemma InstallKeeps(s: State)
    requires Inv(s) && Can(s, Install, true)
    ensures Inv(Take(s, Install, true))
  {
    var s' := Take(s, Install, true);
    forall w | 0 <= w < |s'.workers| ensures LockOk(s', w) && TableOk(s', w) {
      assert LockOk(s, w) && TableOk(s, w);
    }
  }

  lemma PassStepKeeps(s: State, step: Step)
    requires Inv(s) && Can(s, step, true)
    requires step.PassLock? || step.PassUnlock? || step.Finish? || step.Free?
    ensures Inv(Take(s, step, true))
  {
    var s' := Take(s, step, true);
    forall w | 0 <= w < |s'.workers| ensures LockOk(s', w) && TableOk(s', w) {
      assert LockOk(s, w) && TableOk(s, w);
    }
  }

  lemma SwapStepKeeps(s: State, step: Step)
    requires Inv(s) && Can(s, step, true)
    requires step.Install? || step.PassLock? || step.PassUnlock? || step.Finish? || step.Free?
    ensures Inv(Take(s, step, true))
  {
    hide Inv, Take, Can;
    if step.Install? {
      InstallKeeps(s);
    } else {
      PassStepKeeps(s, step);
    }
  }

  lemma StepKeeps(s: State, step: Step)
    requires Inv(s) && Can(s, step, true)
    ensures Inv(Take(s, step, true))
  {
    hide Inv, Take, Can;
    match step {
      case Lock(_) => WorkerStepKeeps(s, step);
      case Check(_) => WorkerStepKeeps(s, step);
      case Load(_) => WorkerStepKeeps(s, step);
      case Classify(_) => WorkerStepKeeps(s, step);
      case Unlock(_) => WorkerStepKeeps(s, step);
      case Create => BuildStepKeeps(s, step);
      case CreateFails => BuildStepKeeps(s, step);
      case SetupFails => BuildStepKeeps(s, step);
      case NoRules => BuildStepKeeps(s, step);
      case Built => BuildStepKeeps(s, step);
      case _ => SwapStepKeeps(s, step);
    }
  }

  lemma {:induction false} RunKeeps(s: State, trace: seq<Step>)
    requires Inv(s) && Runs(s, trace, true)
    ensures Inv(After(s, trace, true))
    decreases |trace|
  {
    if trace != [] {
      StepKeeps(s, trace[0]);
      RunKeeps(Take(s, trace[0], true), trace[1..]);
    }
  }

  // ---------- Results over whole runs ----------

  /** In every run, with any number of workers and any mix of successful, failed and empty builds: no
      worker classifies with a freed table, at most two contexts exist, and whenever the sync rests
      exactly the live one exists, or none. Unless the sync is passing through the locks, every worker
      that classifies does so with the live table or none. */
  lemma EveryRunIsSafe(n: nat, trace: seq<Step>)
    requires Runs(Start(n), trace, true)
    ensures var s := After(Start(n), trace, true);
            && Safe(s) && |s.alive| <= 2
            && (s.sync.Resting? ==> s.alive.Keys == if s.live == NULL then {} else {s.live})
            && (!s.sync.Passing? && !s.sync.Holding? ==> Fresh(s))
  {
    var s := After(Start(n), trace, true);
    StartInv(n);
    RunKeeps(Start(n), trace);
    InvIsSafe(s);
    if !s.sync.Passing? && !s.sync.Holding? {
      InvIsFresh(s);
    }
    hide Safe, Fresh;
    var two := {s.live, Busy(s.sync)};
    assert two == s.alive.Keys + (two - s.alive.Keys);
  }

  /** In every run a create starts a new context: no context that exists has the name it asks for,
      and in particular the live table does not. */
  lemma NamesNeverClash(n: nat, trace: seq<Step>)
    requires Runs(Start(n), trace, true) && After(Start(n), trace, true).sync.Resting?
    ensures var s := After(Start(n), trace, true);
            !NameTaken(s, s.nameModel) && CreateContext(s).sync.ctx !in s.alive
  {
    StartInv(n);
    RunKeeps(Start(n), trace);
  }

  lemma Prepend(s: State, step: Step, rest: seq<Step>, check: bool)
    requires Can(s, step, check) && Runs(Take(s, step, check), rest, check)
    ensures Runs(s, [step] + rest, check)
    ensures After(s, [step] + rest, check) == After(Take(s, step, check), rest, check)
  {
    assert ([step] + rest)[1..] == rest;
  }

  // ---------- The pointer is read twice ----------

  /** As long as no table was ever replaced by none, a worker that saw a table loads a table. */
  ghost predicate NoneLost(s: State) {
    !s.emptied ==> forall w :: 0 <= w < |s.workers| ==>
          (s.workers[w].Checked? ==> s.live != NULL) && (s.workers[w].Loaded? ==> s.workers[w].table != NULL)
  }

  lemma StepKeepsNoneLost(s: State, step: Step)
    requires NoneLost(s) && Can(s, step, true)
    ensures NoneLost(Take(s, step, true))
    ensures s.emptied ==> Take(s, step, true).emptied
  {
  }

  lemma {:induction false} RunKeepsNoneLost(s: State, trace: seq<Step>)
    requires NoneLost(s) && Runs(s, trace, true)
    ensures NoneLost(After(s, trace, true))
    decreases |trace|
  {
    if trace != [] {
      StepKeepsNoneLost(s, trace[0]);
      RunKeepsNoneLost(Take(s, trace[0], true), trace[1..]);
    }
  }

  /** A classification with no table needs an empty rule set installed over a table first; over all
      interleavings the exact condition is TableLoads.LoadsNoneIff. */
  lemma LoadsATable(n: nat, trace: seq<Step>, w: nat)
    requires Runs(Start(n), trace, true)
    ensures var s := After(Start(n), trace, true);
            w < |s.workers| && s.workers[w].Loaded? && !s.emptied ==> s.workers[w].table != NULL
  {
    RunKeepsNoneLost(Start(n), trace);
  }

  /** One worker, with the first table installed and after the whole first sync. */
  const INSTALLED: State := State([Outside], [Nobody], 1, Passing(0, NULL, 1), map[1 := 0], 1, 0, false)
  const SYNCED: State := State([Outside], [Nobody], 1, Resting, map[1 := 0], 1, 1, false)

  lemma InstallAndRun(rest: seq<Step>) returns (trace: seq<Step>)
    requires Runs(INSTALLED, rest, true)
    ensures Runs(Start(1), trace, true) && After(Start(1), trace, true) == After(INSTALLED, rest, true)
  {
    hide Runs, After;
    var s0 := Start(1);
    var s1 := Take(s0, Create, true);
    var s2 := Take(s1, Built, true);
    assert Take(s2, Install, true) == INSTALLED;
    Prepend(s2, Install, rest, true);
    Prepend(s1, Built, [Install] + rest, true);
    Prepend(s0, Create, [Built] + ([Install] + rest), true);
    trace := [Create] + ([Built] + ([Install] + rest));
  }

  lemma SyncAndRun(rest: seq<Step>) returns (trace: seq<Step>)
    requires Runs(SYNCED, rest, true)
    ensures Runs(Start(1), trace, true) && After(Start(1), trace, true) == After(SYNCED, rest, true)
  {
    hide Runs, After, Start;
    var s3 := INSTALLED;
    var s4 := Take(s3, PassLock, true);
    var s5 := Take(s4, PassUnlock, true);
    var s6 := Take(s5, Finish, true);
    assert Take(s6, Free, true) == SYNCED;
    Prepend(s6, Free, rest, true);
    Prepend(s5, Finish, [Free] + rest, true);
    Prepend(s4, PassUnlock, [Finish] + ([Free] + rest), true);
    Prepend(s3, PassLock, [PassUnlock] + ([Finish] + ([Free] + rest)), true);
    trace := InstallAndRun([PassLock] + ([PassUnlock] + ([Finish] + ([Free] + rest))));
  }

  /** And with one, it can happen: the table is replaced by none between the two reads. */
  lemma MayLoadNone()
    ensures exists trace :: Runs(Start(1), trace, true) && After(Start(1), trace, true).workers == [Loaded(NULL)]
  {
    var rest := NoneBetweenReads(SYNCED);
    hide Runs, After;
    var trace := SyncAndRun(rest);
  }

  lemma NoneBetweenReads(s: State) returns (trace: seq<Step>)
    requires s.workers == [Outside] && s.locks == [Nobody] && s.sync.Resting? && s.live != NULL
    ensures Runs(s, trace, true) && After(s, trace, true).workers == [Loaded(NULL)]
  {
    var s1 := Take(s, Lock(0), true);
    var s2 := Take(s1, Check(0), true);
    var s3 := Take(s2, Create, true);
    var s4 := Take(s3, NoRules, true);
    var s5 := Take(s4, Install, true);
    assert Runs(Take(s5, Load(0), true), [], true) && After(Take(s5, Load(0), true), [], true).workers == [Loaded(NULL)];
    hide Runs, After;
    Prepend(s5, Load(0), [], true);
    Prepend(s4, Install, [Load(0)], true);
    Prepend(s3, NoRules, [Install] + [Load(0)], true);
    Prepend(s2, Create, [NoRules] + ([Install] + [Load(0)]), true);
    Prepend(s1, Check(0), [Create] + ([NoRules] + ([Install] + [Load(0)])), true);
    Prepend(s, Lock(0), [Check(0)] + ([Create] + ([NoRules] + ([Install] + [Load(0)]))), true);
    trace := [Lock(0)] + ([Check(0)] + ([Create] + ([NoRules] + ([Install] + [Load(0)]))));
  }

  // ---------- Why the sync waits ----------

  /** A new table in place of the live one, which is freed. */
  ghost function Swapped(s: State): State {
    var next := s.created + 1;
    Freed(s.(live := next, alive := s.alive[next := s.nameModel], created := next, nameModel := Flip(s.nameModel)), s.live)
  }

  /** One whole sync that does not wait, and then the rest of a run. */
  lemma SwapAndRun(s: State, rest: seq<Step>) returns (trace: seq<Step>, s': State)
    requires s.sync.Resting? && !NameTaken(s, s.nameModel) && s.live <= s.created
    requires Runs(Swapped(s), rest, false)
    ensures s' == Swapped(s) && Runs(s, trace, false) && After(s, trace, false) == After(s', rest, false)
  {
    var s1 := Take(s, Create, false);
    var s2 := Take(s1, Built, false);
    var s3 := Take(s2, Install, false);
    var s4 := Take(s3, Finish, false);
    s' := Take(s4, Free, false);
    assert s' == Swapped(s);
    Prepend(s4, Free, rest, false);
    Prepend(s3, Finish, [Free] + rest, false);
    Prepend(s2, Install, [Finish] + ([Free] + rest), false);
    Prepend(s1, Built, [Install] + ([Finish] + ([Free] + rest)), false);
    Prepend(s, Create, [Built] + ([Install] + ([Finish] + ([Free] + rest))), false);
    trace := [Create] + ([Built] + ([Install] + ([Finish] + ([Free] + rest))));
  }

  /** Without passing the worker locks a worker can be left holding a freed table. */
  lemma WithoutWaitingUnsafe()
    ensures exists trace :: Runs(Start(1), trace, false) && !Safe(After(Start(1), trace, false))
  {
    var s0 := Start(1);
    var s1 := Swapped(s0);
    var s2 := Take(s1, Lock(0), false);
    var s3 := Take(s2, Check(0), false);
    var s4 := Take(s3, Load(0), false);
    var s5 := Swapped(s4);
    assert s4.workers[0] == Loaded(1) && s5.workers == s4.workers && 1 !in s5.alive;
    var swap, last := SwapAndRun(s4, []);
    Prepend(s3, Load(0), swap, false);
    Prepend(s2, Check(0), [Load(0)] + swap, false);
    Prepend(s1, Lock(0), [Check(0)] + ([Load(0)] + swap), false);
    var trace, first := SwapAndRun(s0, [Lock(0)] + ([Check(0)] + ([Load(0)] + swap)));
    assert After(s0, trace, false) == s5;
  }
}
