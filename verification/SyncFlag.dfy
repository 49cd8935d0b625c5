/** The sync flag in shared memory: the REST process (its request loop and the thread a sync request
    starts) and the VPP process coordinate through it, so that the table is built from one snapshot of
    the rules. VPP may restart at any time; the shared memory survives. */
module SyncFlag {
  import opened Options


  const SYNC_FAILED: int := -2
  const SYNC_OK: int := 0
  const PREPARE_SYNC: int := 1
  const NEED_SYNC: int := 2
  const STILL_SYNC: int := 3

  const INT_LIMIT: int := 0x8000_0000

  /** The request loop handles one request at a time: a guarded change of rules, a sync request, or a
      reset, which saves flag and count, wipes and restores them. A request that finds the flag positive
      is refused. */
  datatype Loop = Idle | Changing | Patching | Starting | Restoring(flag: int, times: int)

  /** The thread a sync request starts. */
  datatype Thread = NoThread | Syncing | Setting | Failing

  /** The VPP sync process; Scanning has read the first |seen| slots. */
  datatype Vpp<T> = Waiting | Recovering | Looking | Claiming | Scanning(seen: seq<T>) | Counting | Masking

  /** snapshot is the store at the last PREPARE; table is what the last successful sync was built from;
      torn records that a count was ever left unmasked. */
  datatype State<T> = State(
    flag: int, times: int, slots: seq<T>, io: Loop, thread: Thread, vpp: Vpp<T>,
    snapshot: seq<T>, table: Option<seq<T>>, torn: bool)

  datatype Step<T> =
    | Refuse | Begin | Change(i: nat, value: T) | End | PatchCheck | Prepare | StartThread | Wipe(empty: T) | Restore
    | CheckNeed | Raise | SetNeed | SetFailed
    | Wake | Recover | Look | Claim | Read | Succeed | Fail | Count | Mask | Restart

  function Start<T>(slots: seq<T>): State<T> {
    State(SYNC_OK, 0, slots, Idle, NoThread, Waiting, slots, None, false)
  }

  predicate Can<T>(s: State<T>, step: Step<T>) {
    match step
    case Refuse => s.io.Idle? && s.flag > 0
    case Begin => s.io.Idle? && s.flag <= 0
    case Change(i, _) => s.io.Changing? && i < |s.slots|
    case End => s.io.Changing?
    case PatchCheck => s.io.Idle? && s.flag <= 0
    case Prepare => s.io.Patching?
    case StartThread => s.io.Starting?
    case Wipe(_) => s.io.Idle? && s.flag <= 0
    case Restore => s.io.Restoring?
    case CheckNeed => s.thread.Syncing?
    case Raise => s.thread.Syncing?
    case SetNeed => s.thread.Setting?
    case SetFailed => s.thread.Failing?
    case Wake => s.vpp.Waiting?
    case Recover => s.vpp.Recovering?
    case Look => s.vpp.Looking?
    case Claim => s.vpp.Claiming?
    case Read => s.vpp.Scanning? && |s.vpp.seen| < |s.slots|
    case Succeed => s.vpp.Scanning? && |s.vpp.seen| >= |s.slots|
    case Fail => s.vpp.Scanning?
    case Count => s.vpp.Counting?
    case Mask => s.vpp.Masking?
    case Restart => true
  }

  /** Adding one to an int. */
  function Increment(x: int): int {
    if x + 1 == INT_LIMIT then -INT_LIMIT else x + 1
  }

  /** The low 31 bits of an int. */
  function Low31(x: int): int {
    x % INT_LIMIT
  }

  /** The step leaves a negative count behind that nothing is about to mask: a restart between the
      increment and the mask, or a reset that puts back a count it saved there. */
  predicate Tears<T>(s: State<T>, step: Step<T>) {
    (step.Restart? && s.vpp.Masking? && s.times < 0)
    || (step.Restore? && s.io.Restoring? && s.io.times < 0 && !s.vpp.Masking?)
  }

  function Take<T>(s: State<T>, step: Step<T>): State<T>
    requires Can(s, step)
  {
    match step
    case Refuse => s
    case Begin => s.(io := Changing)
    case Change(i, value) => s.(slots := s.slots[i := value])
    case End => s.(io := Idle)
    case PatchCheck => s.(io := Patching)
    case Prepare =>
      if s.flag <= 0 then s.(flag := PREPARE_SYNC, snapshot := s.slots, io := Starting) else s.(io := Idle)
    case StartThread => s.(io := Idle, thread := Syncing)
    case Wipe(empty) => s.(io := Restoring(s.flag, s.times), flag := 0, times := 0,
                           slots := seq(|s.slots|, _ => empty))
    case Restore => s.(flag := s.io.flag, times := s.io.times, io := Idle, torn := s.torn || Tears(s, step))
    case CheckNeed => s.(thread := if s.flag != STILL_SYNC then Setting else Failing)
    case Raise => s.(thread := Failing)
    case SetNeed => s.(flag := NEED_SYNC, thread := NoThread)
    case SetFailed => s.(flag := SYNC_FAILED, thread := NoThread)
    case Wake => s.(vpp := if s.flag == STILL_SYNC then Recovering else Looking)
    case Recover => s.(flag := SYNC_FAILED, vpp := Looking)
    case Look => s.(vpp := if s.flag == NEED_SYNC then Claiming else Waiting)
    case Claim => s.(flag := STILL_SYNC, vpp := Scanning([]))
    case Read => s.(vpp := Scanning(s.vpp.seen + [s.slots[|s.vpp.seen|]]))
    case Succeed => s.(flag := SYNC_OK, table := Some(s.vpp.seen), vpp := Counting)
    case Fail => s.(flag := SYNC_FAILED, vpp := Waiting)
    case Count => s.(times := Increment(s.times), vpp := Masking)
    case Mask => s.(times := Low31(s.times), vpp := Waiting)
    case Restart => s.(vpp := Waiting, table := None, torn := s.torn || Tears(s, step))
  }

  predicate Runs<T>(s: State<T>, trace: seq<Step<T>>)
    decreases |trace|
  {
    trace == [] || (Can(s, trace[0]) && Runs(Take(s, trace[0]), trace[1..]))
  }

  function After<T>(s: State<T>, trace: seq<Step<T>>): State<T>
    requires Runs(s, trace)
    decreases |trace|
  {
    if trace == [] then s else After(Take(s, trace[0]), trace[1..])
  }

  // ---------- What every run keeps ----------

  ghost predicate LoopOk<T>(s: State<T>) {
    && (s.io.Changing? || s.io.Patching? || s.io.Restoring? ==> s.flag <= 0)
    && (s.io.Restoring? ==> s.io.flag == SYNC_FAILED || s.io.flag == SYNC_OK)
    && (s.io.Starting? ==> s.flag == PREPARE_SYNC && s.thread.NoThread?)
  }

  ghost predicate ThreadOk<T>(s: State<T>) {
    && (!s.thread.NoThread? ==> s.flag == PREPARE_SYNC)
    && (s.flag == PREPARE_SYNC ==> !s.thread.NoThread? || s.io.Starting?)
  }

  ghost predicate VppOk<T>(s: State<T>) {
    && (s.vpp.Recovering? ==> s.flag == STILL_SYNC)
    && (s.vpp.Claiming? ==> s.flag == NEED_SYNC)
    && (s.vpp.Scanning? ==> s.flag == STILL_SYNC && s.vpp.seen <= s.snapshot)
  }

  ghost predicate IntRange(x: int) {
    -INT_LIMIT <= x < INT_LIMIT
  }

  /** Until a count is torn, only the one step from the largest int makes it negative. */
  ghost predicate TimesOk<T>(s: State<T>) {
    && IntRange(s.times) && (s.io.Restoring? ==> IntRange(s.io.times))
    && (!s.torn && s.times < 0 ==> s.vpp.Masking? && s.times == -INT_LIMIT)
    && (!s.torn && s.io.Restoring? && s.io.times < 0 ==> s.io.times == -INT_LIMIT)
  }

  ghost predicate Inv<T>(s: State<T>) {
    && s.flag in {SYNC_FAILED, SYNC_OK, PREPARE_SYNC, NEED_SYNC, STILL_SYNC}
    && (s.flag > 0 ==> s.slots == s.snapshot)
    && LoopOk(s) && ThreadOk(s) && VppOk(s) && TimesOk(s)
  }

  lemma StartInv<T>(slots: seq<T>)
    ensures Inv(Start(slots))
  {
  }

  lemma StepKeeps<T>(s: State<T>, step: Step<T>)
    requires Inv(s) && Can(s, step)
    ensures Inv(Take(s, step))
  {
  }

  lemma {:induction false} RunKeeps<T>(s: State<T>, trace: seq<Step<T>>)
    requires Inv(s) && Runs(s, trace)
    ensures Inv(After(s, trace))
    decreases |trace|
  {
    if trace != [] {
      StepKeeps(s, trace[0]);
      RunKeeps(Take(s, trace[0]), trace[1..]);
    }
  }

  // ---------- Results ----------

  datatype Party = RequestLoop | SyncThread | VppProcess

  /** Who may write the flag when it has a value. */
  function OwnerOf(flag: int): Party {
    if flag <= 0 then RequestLoop else if flag == PREPARE_SYNC then SyncThread else VppProcess
  }

  function PartyOf<T>(step: Step<T>): Party {
    match step
    case Refuse => RequestLoop
    case Begin => RequestLoop
    case Change(_, _) => RequestLoop
    case End => RequestLoop
    case PatchCheck => RequestLoop
    case Prepare => RequestLoop
    case StartThread => RequestLoop
    case Wipe(_) => RequestLoop
    case Restore => RequestLoop
    case CheckNeed => SyncThread
    case Raise => SyncThread
    case SetNeed => SyncThread
    case SetFailed => SyncThread
    case _ => VppProcess
  }

  /** In every run each value of the flag has one party that may replace it, so no write is lost. */
  lemma OneWriter<T>(slots: seq<T>, trace: seq<Step<T>>, step: Step<T>)
    requires Runs(Start(slots), trace) && Can(After(Start(slots), trace), step)
    ensures var s := After(Start(slots), trace);
            Take(s, step).flag != s.flag ==> PartyOf(step) == OwnerOf(s.flag)
  {
    StartInv(slots);
    RunKeeps(Start(slots), trace);
  }

  /** The two setters with a test never refuse: the thread never finds STILL, the request loop never
      finds a positive flag after its own check. The thread it starts is the only one. */
  lemma SettersNeverRefuse<T>(slots: seq<T>, trace: seq<Step<T>>)
    requires Runs(Start(slots), trace)
    ensures var s := After(Start(slots), trace);
            && (s.thread.Syncing? ==> Take(s, CheckNeed).thread.Setting?)
            && (s.io.Patching? ==> Take(s, Prepare).flag == PREPARE_SYNC)
            && (s.io.Starting? ==> s.thread.NoThread?)
  {
    StartInv(slots);
    RunKeeps(Start(slots), trace);
  }

  /** The flag of every run has one of the five values the status report knows; -1 stays free to mean
      that the shared memory is not linked. */
  lemma FlagValues<T>(slots: seq<T>, trace: seq<Step<T>>)
    requires Runs(Start(slots), trace)
    ensures After(Start(slots), trace).flag in {-2, 0, 1, 2, 3}
  {
    StartInv(slots);
    RunKeeps(Start(slots), trace);
  }

  /** In every run the flag goes the rounds of a sync one move at a time: from rest (0 or -2) to prepared
      (1), needed (2) and under way (3), and from each of them to failed, but to 0 from under way only. */
  lemma FlagMoves<T>(slots: seq<T>, trace: seq<Step<T>>, step: Step<T>)
    requires Runs(Start(slots), trace) && Can(After(Start(slots), trace), step)
    ensures var s := After(Start(slots), trace);
            var before, flag := s.flag, Take(s, step).flag;
            flag != before ==>
              || (before <= 0 && flag <= 1 && (flag == 1 ==> step == Prepare))
              || (before == 1 && flag == 2) || (before == 2 && flag == 3)
              || (before == 1 && flag == -2) || (before == 3 && (flag == 0 || flag == -2))
  {
    StartInv(slots);
    RunKeeps(Start(slots), trace);
  }

  /** In every run a step that ends a sync tells the truth: either the flag is 0 and the step has made the
      table the rules in the store, or the flag is -2 and the table is the one from before. Apart from such a
      step only a restart touches the table. */
  lemma ReportsTruth<T>(slots: seq<T>, trace: seq<Step<T>>, step: Step<T>)
    requires Runs(Start(slots), trace) && Can(After(Start(slots), trace), step)
    ensures var s := After(Start(slots), trace);
            var s' := Take(s, step);
            s.flag > 0 && s'.flag <= 0 ==>
              (s'.flag == 0 && s'.table == Some(s.slots)) || (s'.flag == -2 && s'.table == s.table)
    ensures var s := After(Start(slots), trace);
            var s' := Take(s, step);
            s'.table != s.table ==> (s.flag == 3 && s'.flag == 0) || step == Restart
  {
    StartInv(slots);
    RunKeeps(Start(slots), trace);
    var s := After(Start(slots), trace);
    assert s.vpp.Scanning? && |s.vpp.seen| >= |s.slots| ==> s.vpp.seen == s.slots;
  }

  /** A guarded request at rest gives any slot any value and nothing else changes. */
  lemma ChangeGoesThrough<T>(s: State<T>, i: nat, value: T)
    requires s.io.Idle? && s.flag <= 0 && i < |s.slots|
    ensures var steps := [Begin, Change(i, value), End];
            Runs(s, steps) && After(s, steps) == s.(slots := s.slots[i := value])
  {
    var s1, none: seq<Step<T>> := Take(s, Begin), [];
    var s2 := Take(s1, Change(i, value));
    assert Runs(Take(s2, End), none) && After(Take(s2, End), none) == s.(slots := s.slots[i := value]);
    hide Take, Can, Runs, After;
    Prepend(s2, End, none);
    assert [End] + none == [End];
    Prepend(s1, Change(i, value), [End]);
    Prepend(s, Begin, [Change(i, value)] + [End]);
    assert [Begin] + ([Change(i, value)] + [End]) == [Begin, Change(i, value), End];
  }

  ghost predicate NoRestore<T>(trace: seq<Step<T>>) {
    forall i :: 0 <= i < |trace| ==> !trace[i].Restore?
  }

  lemma {:induction false} StaysWiped<T>(s: State<T>, trace: seq<Step<T>>)
    requires s.io.Restoring? && Runs(s, trace) && NoRestore(trace)
    ensures After(s, trace).io == s.io && After(s, trace).slots == s.slots
    decreases |trace|
  {
    if trace != [] {
      assert !trace[0].Restore?;
      StaysWiped(Take(s, trace[0]), trace[1..]);
    }
  }

  /** A reset, whatever the other parties do while it runs, empties every slot and ends with the flag and the
      count it began with. */
  lemma ResetKeepsFlag<T>(s: State<T>, empty: T, others: seq<Step<T>>)
    requires Can(s, Wipe(empty)) && Runs(Take(s, Wipe(empty)), others) && NoRestore(others)
    ensures var s1 := After(Take(s, Wipe(empty)), others);
            && Can(s1, Restore)
            && var s' := Take(s1, Restore);
               s'.flag == s.flag && s'.times == s.times && s'.io == Idle
               && |s'.slots| == |s.slots| && forall i :: 0 <= i < |s.slots| ==> s'.slots[i] == empty
  {
    StaysWiped(Take(s, Wipe(empty)), others);
  }

  ghost predicate PositiveThroughout<T>(s: State<T>, trace: seq<Step<T>>)
    requires Runs(s, trace)
    decreases |trace|
  {
    s.flag > 0 && (trace != [] ==> PositiveThroughout(Take(s, trace[0]), trace[1..]))
  }

  /** From PREPARE until the flag is back at or below 0 no rule changes. */
  lemma {:induction false} RulesFrozen<T>(s: State<T>, trace: seq<Step<T>>)
    requires Inv(s) && Runs(s, trace) && PositiveThroughout(s, trace)
    ensures After(s, trace).slots == s.slots && After(s, trace).snapshot == s.snapshot
    decreases |trace|
  {
    if trace != [] {
      StepKeeps(s, trace[0]);
      RulesFrozen(Take(s, trace[0]), trace[1..]);
    }
  }

  /** In every run a successful sync has built its table from one snapshot: the store as it was at
      PREPARE, which is the store as it is when the sync reports success. */
  lemma TableIsSnapshot<T>(slots: seq<T>, trace: seq<Step<T>>)
    requires Runs(Start(slots), trace) && Can(After(Start(slots), trace), Succeed)
    ensures var s := After(Start(slots), trace);
            Take(s, Succeed).table == Some(s.snapshot) == Some(s.slots)
  {
    StartInv(slots);
    RunKeeps(Start(slots), trace);
    var s := After(Start(slots), trace);
    assert s.vpp.seen == s.snapshot;
  }

  // ---------- The sync count ----------

  /** The count is at rest outside [0, 2^31). */
  ghost predicate OutOfRange<T>(s: State<T>) {
    !s.vpp.Masking? && !(0 <= s.times < INT_LIMIT)
  }

  /** In every run a count at rest outside [0, 2^31) is negative, and was torn. */
  lemma TimesInRange<T>(slots: seq<T>, trace: seq<Step<T>>)
    requires Runs(Start(slots), trace)
    ensures var s := After(Start(slots), trace);
            OutOfRange(s) ==> s.torn && -INT_LIMIT <= s.times < 0
  {
    StartInv(slots);
    RunKeeps(Start(slots), trace);
  }

  /** Exactly the tearing steps put it there. */
  lemma LeavesRangeIff<T>(slots: seq<T>, trace: seq<Step<T>>, step: Step<T>)
    requires Runs(Start(slots), trace) && Can(After(Start(slots), trace), step)
    ensures var s := After(Start(slots), trace);
            !OutOfRange(s) ==> (OutOfRange(Take(s, step)) <==> Tears(s, step))
  {
    StartInv(slots);
    RunKeeps(Start(slots), trace);
  }

  /** The first tear of a run finds the count where the increment of 2^31 - 1 put it, and between
      increment and mask an untorn count is negative exactly there. */
  lemma FirstTear<T>(slots: seq<T>, trace: seq<Step<T>>, step: Step<T>)
    requires Runs(Start(slots), trace) && Can(After(Start(slots), trace), step)
    requires !After(Start(slots), trace).torn
    ensures var s := After(Start(slots), trace);
            && (Tears(s, step) ==> Take(s, step).times == -INT_LIMIT == Increment(INT_LIMIT - 1))
            && (step.Count? ==> (Take(s, step).times < 0 <==> s.times == INT_LIMIT - 1))
  {
    StartInv(slots);
    RunKeeps(Start(slots), trace);
  }

  // ---------- Runs that leave the range ----------

  lemma Prepend<T>(s: State<T>, step: Step<T>, rest: seq<Step<T>>)
    requires Can(s, step) && Runs(Take(s, step), rest)
    ensures Runs(s, [step] + rest) && After(s, [step] + rest) == After(Take(s, step), rest)
  {
    assert ([step] + rest)[1..] == rest;
  }

  lemma {:induction false} Append<T>(s: State<T>, front: seq<Step<T>>, rest: seq<Step<T>>)
    requires Runs(s, front) && Runs(After(s, front), rest)
    ensures Runs(s, front + rest) && After(s, front + rest) == After(After(s, front), rest)
    decreases |front|
  {
    if front == [] {
      assert front + rest == rest;
    } else {
      Append(Take(s, front[0]), front[1..], rest);
      assert front + rest == [front[0]] + (front[1..] + rest);
      Prepend(s, front[0], front[1..] + rest);
    }
  }

  /** An empty store at rest with a given count. */
  function AtRest(times: int, table: Option<seq<int>>, torn: bool): State<int> {
    State(SYNC_OK, times, [], Idle, NoThread, Waiting, [], table, torn)
  }

  /** One sync request up to the moment its success has been written and not yet counted. */
  lemma SyncToCount(times: int, table: Option<seq<int>>, torn: bool) returns (trace: seq<Step<int>>)
    ensures Runs(AtRest(times, table, torn), trace)
    ensures After(AtRest(times, table, torn), trace) == AtRest(times, Some([]), torn).(vpp := Counting)
  {
    var request := RequestToNeed(times, table, torn);
    var need := AtRest(times, table, torn).(flag := NEED_SYNC);
    var s1 := Take(need, Wake);
    var s2 := Take(s1, Look);
    var s3 := Take(s2, Claim);
    Prepend(s3, Succeed, []);
    Prepend(s2, Claim, [Succeed]);
    Prepend(s1, Look, [Claim] + [Succeed]);
    Prepend(need, Wake, [Look] + ([Claim] + [Succeed]));
    trace := request + ([Wake] + ([Look] + ([Claim] + [Succeed])));
    Append(AtRest(times, table, torn), request, [Wake] + ([Look] + ([Claim] + [Succeed])));
  }

  lemma RequestToNeed(times: int, table: Option<seq<int>>, torn: bool) returns (trace: seq<Step<int>>)
    ensures Runs(AtRest(times, table, torn), trace)
    ensures After(AtRest(times, table, torn), trace) == AtRest(times, table, torn).(flag := NEED_SYNC)
  {
    var s0 := AtRest(times, table, torn);
    var s1 := Take(s0, PatchCheck);
    var s2 := Take(s1, Prepare);
    var s3 := Take(s2, StartThread);
    var s4 := Take(s3, CheckNeed);
    Prepend(s4, SetNeed, []);
    Prepend(s3, CheckNeed, [SetNeed]);
    Prepend(s2, StartThread, [CheckNeed] + [SetNeed]);
    Prepend(s1, Prepare, [StartThread] + ([CheckNeed] + [SetNeed]));
    Prepend(s0, PatchCheck, [Prepare] + ([StartThread] + ([CheckNeed] + [SetNeed])));
    trace := [PatchCheck] + ([Prepare] + ([StartThread] + ([CheckNeed] + [SetNeed])));
  }

  /** A whole sync adds one. */
  lemma OneSync(times: int, table: Option<seq<int>>) returns (trace: seq<Step<int>>)
    requires 0 <= times < INT_LIMIT - 1
    ensures Runs(AtRest(times, table, false), trace)
    ensures After(AtRest(times, table, false), trace) == AtRest(times + 1, Some([]), false)
  {
    var front := SyncToCount(times, table, false);
    var s := AtRest(times, Some([]), false).(vpp := Counting);
    Prepend(Take(s, Count), Mask, []);
    Prepend(s, Count, [Mask]);
    Append(AtRest(times, table, false), front, [Count] + [Mask]);
    trace := front + ([Count] + [Mask]);
  }

  /** A sync whose update a restart cuts in two, from a count whose increment is negative. */
  lemma TornSync(times: int, table: Option<seq<int>>, torn: bool) returns (trace: seq<Step<int>>)
    requires Increment(times) < 0
    ensures Runs(AtRest(times, table, torn), trace)
    ensures After(AtRest(times, table, torn), trace) == AtRest(Increment(times), None, true)
  {
    var front := SyncToCount(times, table, torn);
    var s := AtRest(times, Some([]), torn).(vpp := Counting);
    Prepend(Take(s, Count), Restart, []);
    Prepend(s, Count, [Restart]);
    Append(AtRest(times, table, torn), front, [Count] + [Restart]);
    trace := front + ([Count] + [Restart]);
  }

  lemma {:induction false} CountTo(times: nat) returns (trace: seq<Step<int>>, table: Option<seq<int>>)
    requires times < INT_LIMIT
    ensures Runs(Start<int>([]), trace) && After(Start<int>([]), trace) == AtRest(times, table, false)
    decreases times
  {
    if times == 0 {
      trace, table := [], None;
    } else {
      var front, before := CountTo(times - 1);
      var last := OneSync(times - 1, before);
      Append(Start([]), front, last);
      trace, table := front + last, Some([]);
    }
  }

  lemma {:induction false} CountToNegative(k: nat) returns (trace: seq<Step<int>>)
    requires k < INT_LIMIT
    ensures Runs(Start<int>([]), trace) && After(Start<int>([]), trace) == AtRest(k - INT_LIMIT, None, true)
    decreases k
  {
    var front: seq<Step<int>>, last: seq<Step<int>>;
    if k == 0 {
      var table;
      front, table := CountTo(INT_LIMIT - 1);
      last := TornSync(INT_LIMIT - 1, table, false);
    } else {
      front := CountToNegative(k - 1);
      last := TornSync(k - 1 - INT_LIMIT, None, true);
    }
    Append(Start([]), front, last);
    trace := front + last;
  }

  ghost predicate RestsAt(trace: seq<Step<int>>, times: int) {
    Runs(Start<int>([]), trace) && After(Start<int>([]), trace).vpp.Waiting? && After(Start<int>([]), trace).times == times
  }

  /** Every int, the negative ones too, is the count at rest after some run, and nothing else is. */
  lemma RestingCounts(times: int)
    ensures (exists trace :: RestsAt(trace, times)) <==> -0x8000_0000 <= times <= 0x7FFF_FFFF
  {
    if 0 <= times < INT_LIMIT {
      var trace, table := CountTo(times);
      assert RestsAt(trace, times);
    } else if -INT_LIMIT <= times < 0 {
      var trace := CountToNegative(times + INT_LIMIT);
      assert RestsAt(trace, times);
    } else {
      forall trace ensures !RestsAt(trace, times) {
        if Runs(Start<int>([]), trace) {
          StartInv<int>([]);
          RunKeeps(Start<int>([]), trace);
        }
      }
    }
  }

  // ---------- Recovery ----------

  ghost predicate OthersOnly<T>(trace: seq<Step<T>>) {
    forall i :: 0 <= i < |trace| ==> PartyOf(trace[i]) != VppProcess
  }

  /** While the flag says STILL nothing the request loop and the thread do moves it. */
  lemma {:induction false} OthersLeaveStill<T>(s: State<T>, trace: seq<Step<T>>)
    requires Inv(s) && s.flag == STILL_SYNC && Runs(s, trace) && OthersOnly(trace)
    ensures var s' := After(s, trace); Inv(s') && s'.flag == STILL_SYNC && s'.vpp == s.vpp && s'.slots == s.slots
    decreases |trace|
  {
    if trace != [] {
      StepKeeps(s, trace[0]);
      assert PartyOf(trace[0]) != VppProcess;
      OthersLeaveStill(Take(s, trace[0]), trace[1..]);
    }
  }

  /** A VPP that restarts in the middle of a sync marks it failed on its next round, whatever the
      request loop and the thread do before that round and within it. */
  lemma RestartRecovers<T>(slots: seq<T>, before: seq<Step<T>>, others: seq<Step<T>>, more: seq<Step<T>>)
    requires Runs(Start(slots), before) && After(Start(slots), before).flag == STILL_SYNC
    requires OthersOnly(others) && Runs(Take(After(Start(slots), before), Restart), others)
    requires var s1 := After(Take(After(Start(slots), before), Restart), others);
             Can(s1, Wake) ==> OthersOnly(more) && Runs(Take(s1, Wake), more)
    ensures var s1 := After(Take(After(Start(slots), before), Restart), others);
            && Can(s1, Wake) && Can(After(Take(s1, Wake), more), Recover)
            && Take(After(Take(s1, Wake), more), Recover).flag == SYNC_FAILED
  {
    StartInv(slots);
    RunKeeps(Start(slots), before);
    var s := After(Start(slots), before);
    StepKeeps(s, Restart);
    OthersLeaveStill(Take(s, Restart), others);
    var s1 := After(Take(s, Restart), others);
    StepKeeps(s1, Wake);
    OthersLeaveStill(Take(s1, Wake), more);
  }
}
