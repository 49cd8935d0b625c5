/** Which sequences of syncs can let a worker classify with no table although it saw one: the two reads of
    the table pointer, over all interleavings of the workers with a given sequence of sync steps. */
module TableLoads {
  import opened GracePeriod

  predicate OfWorker(step: Step) {
    step.Lock? || step.Check? || step.Load? || step.Classify? || step.Unlock?
  }

  /** The steps of the sync among the steps of a run. */
  function SyncSteps(trace: seq<Step>): (syncs: seq<Step>) {
    if trace == [] then []
    else if OfWorker(trace[0]) then SyncSteps(trace[1..])
    else [trace[0]] + SyncSteps(trace[1..])
  }

  /** At some point of the run worker w is about to classify with no table. */
  ghost predicate LoadsNone(s: State, trace: seq<Step>, w: nat)
    requires Runs(s, trace, true)
    decreases |trace|
  {
    || (w < |s.workers| && s.workers[w] == Loaded(NULL))
    || (trace != [] && LoadsNone(Take(s, trace[0], true), trace[1..], w))
  }

  /** A table has been built, and in a later sync, installed by now, there were no rules. */
  ghost predicate Empties(syncs: seq<Step>) {
    exists i, j :: 0 <= i < j && j + 1 < |syncs| && syncs[i] == Built && syncs[j] == NoRules
  }

  /** The same, installed or not. */
  ghost predicate FindsNoRules(syncs: seq<Step>) {
    exists i, j :: 0 <= i < j < |syncs| && syncs[i] == Built && syncs[j] == NoRules
  }

  lemma EmptiesNext(done: seq<Step>, step: Step)
    ensures Empties(done + [step]) <==> FindsNoRules(done)
    ensures FindsNoRules(done + [step]) <==> FindsNoRules(done) || (Built in done && step == NoRules)
    ensures Empties(done) ==> FindsNoRules(done)
  {
    var more := done + [step];
    if i, j :| 0 <= i < j < |done| && done[i] == Built && done[j] == NoRules {
      assert more[i] == Built && more[j] == NoRules;
    }
    if i, j :| 0 <= i < j && j + 1 < |more| && more[i] == Built && more[j] == NoRules {
      assert done[i] == Built && done[j] == NoRules;
    }
    if i, j :| 0 <= i < j < |more| && more[i] == Built && more[j] == NoRules {
      assert done[i] == Built && (j < |done| ==> done[j] == NoRules);
    }
    if Built in done && step == NoRules {
      var i :| 0 <= i < |done| && done[i] == Built;
      assert more[i] == Built && more[|done|] == NoRules;
    }
  }

  /** The pointer and its history are determined by the outcomes so far. */
  ghost predicate History(s: State, done: seq<Step>) {
    && (s.emptied <==> Empties(done))
    && (s.live != NULL || (s.sync.Installing? && s.sync.table != NULL) ==> Built in done)
    && (s.sync.Installing? && s.sync.table == NULL && Built in done ==> FindsNoRules(done))
    && (!s.emptied && Built in done ==> s.live != NULL || (s.sync.Installing? && s.sync.table != NULL))
    && (!s.emptied && FindsNoRules(done) ==> s.live != NULL && s.sync == Installing(NULL))
  }

  lemma HistoryStep(s: State, done: seq<Step>, step: Step)
    requires ContextsOk(s) && History(s, done) && Can(s, step, true)
    ensures History(Take(s, step, true), if OfWorker(step) then done else done + [step])
  {
    EmptiesNext(done, step);
    hide Empties, FindsNoRules;
  }

  lemma SyncStepsNext(done: seq<Step>, trace: seq<Step>)
    requires trace != []
    ensures done + SyncSteps(trace) == (if OfWorker(trace[0]) then done else done + [trace[0]]) + SyncSteps(trace[1..])
  {
  }

  /** A table was ever replaced by none exactly when the outcomes say so, in every interleaving. */
  lemma {:induction false} RunHistory(s: State, done: seq<Step>, trace: seq<Step>)
    requires Inv(s) && History(s, done) && Runs(s, trace, true)
    ensures History(After(s, trace, true), done + SyncSteps(trace))
    decreases |trace|
  {
    if trace == [] {
      assert done + SyncSteps(trace) == done;
    } else {
      var step := trace[0];
      var s', more := Take(s, step, true), if OfWorker(step) then done else done + [step];
      HistoryStep(s, done, step);
      StepKeeps(s, step);
      hide Inv, History, Take, Can;
      RunHistory(s', more, trace[1..]);
      SyncStepsNext(done, trace);
    }
  }

  lemma {:induction false} EmptiedStays(s: State, trace: seq<Step>)
    requires s.emptied && Runs(s, trace, true)
    ensures After(s, trace, true).emptied
    decreases |trace|
  {
    if trace != [] {
      EmptiedStays(Take(s, trace[0], true), trace[1..]);
    }
  }

  /** A worker loads none only after a table was replaced by none. */
  lemma {:induction false} LoadsNoneAfter(s: State, trace: seq<Step>, w: nat)
    requires NoneLost(s) && Runs(s, trace, true) && LoadsNone(s, trace, w)
    ensures After(s, trace, true).emptied
    decreases |trace|
  {
    if s.emptied {
      EmptiedStays(s, trace);
    } else {
      StepKeepsNoneLost(s, trace[0]);
      LoadsNoneAfter(Take(s, trace[0], true), trace[1..], w);
    }
  }

  // ---------- Which table is live ----------

  /** How many contexts the sync steps create. */
  function Creates(syncs: seq<Step>): nat {
    if syncs == [] then 0 else Creates(syncs[..|syncs| - 1]) + if syncs[|syncs| - 1] == Create then 1 else 0
  }

  /** What the last install has put in place: the context created last if it had been built, or none. */
  function Latest(syncs: seq<Step>): nat {
    if syncs == [] then NULL
    else
      var front, last := syncs[..|syncs| - 1], syncs[|syncs| - 1];
      if last != Install then Latest(front)
      else if front != [] && front[|front| - 1] == Built then Creates(front)
      else NULL
  }

  ghost predicate Outcomes(s: State, done: seq<Step>) {
    && s.live == Latest(done) && s.created == Creates(done)
    && (s.sync.Building? ==> s.sync.ctx == s.created)
    && (s.sync.Installing? ==> done != [] && s.sync.table == if done[|done| - 1] == Built then s.created else NULL)
  }

  lemma OutcomesStep(s: State, done: seq<Step>, step: Step)
    requires Inv(s) && Outcomes(s, done) && Can(s, step, true)
    ensures Outcomes(Take(s, step, true), if OfWorker(step) then done else done + [step])
  {
    var more := done + [step];
    assert more[..|more| - 1] == done && more[|done|] == step;
  }

  lemma {:induction false} RunOutcomes(s: State, done: seq<Step>, trace: seq<Step>)
    requires Inv(s) && Outcomes(s, done) && Runs(s, trace, true)
    ensures Outcomes(After(s, trace, true), done + SyncSteps(trace))
    decreases |trace|
  {
    if trace == [] {
      assert done + SyncSteps(trace) == done;
    } else {
      var step := trace[0];
      var s', more := Take(s, step, true), if OfWorker(step) then done else done + [step];
      OutcomesStep(s, done, step);
      StepKeeps(s, step);
      hide Inv, Outcomes, Take, Can;
      RunOutcomes(s', more, trace[1..]);
      SyncStepsNext(done, trace);
    }
  }

  /** In every run the live table is the one the most recent install was about: the context of the most recent
      create if it had been built, and none if there were no rules. */
  lemma LiveIsLatest(n: nat, trace: seq<Step>)
    requires Runs(Start(n), trace, true)
    ensures After(Start(n), trace, true).live == Latest(SyncSteps(trace))
  {
    StartInv(n);
    assert Outcomes(Start(n), []);
    hide Inv;
    RunOutcomes(Start(n), [], trace);
    assert [] + SyncSteps(trace) == SyncSteps(trace);
  }

  // ---------- Between the two reads ----------

  ghost predicate AllOutside(s: State) {
    forall w :: 0 <= w < |s.workers| ==> s.workers[w] == Outside
  }

  /** Worker w in its section, after its first read, after both. */
  ghost function InSection(s: State, w: nat, at: Worker): State
    requires w < |s.workers| == |s.locks|
  {
    s.(workers := s.workers[w := at], locks := s.locks[w := ItsWorker])
  }

  lemma EntersSection(s: State, w: nat)
    requires Inv(s) && s.sync == Installing(NULL) && s.live != NULL && w < |s.workers| && s.workers[w] == Outside
    ensures |s.locks| == |s.workers| && s.locks[w] == Nobody && Can(s, Install, true)
    ensures Can(s, Lock(w), true) && Take(s, Lock(w), true) == InSection(s, w, Entered)
    ensures var s1 := InSection(s, w, Entered); Can(s1, Check(w), true) && Take(s1, Check(w), true) == InSection(s, w, Checked)
    ensures var s2 := InSection(s, w, Checked);
      Can(s2, Install, true) && Take(s2, Install, true) == InSection(Take(s, Install, true), w, Checked)
  {
    assert LockOk(s, w);
  }

  lemma LeavesSection(s: State, w: nat)
    requires w < |s.workers| == |s.locks| && s.live == NULL && s.workers[w] == Outside && s.locks[w] == Nobody
    ensures var s3 := InSection(s, w, Checked); Can(s3, Load(w), true) && Take(s3, Load(w), true) == InSection(s, w, Loaded(NULL))
    ensures var s4 := InSection(s, w, Loaded(NULL));
      Can(s4, Classify(w), true) && Take(s4, Classify(w), true) == InSection(s, w, Classified)
    ensures var s5 := InSection(s, w, Classified); Can(s5, Unlock(w), true) && Take(s5, Unlock(w), true) == s
  {
  }

  /** In every state of every run in which the sync is about to replace a table by none, a worker outside
      its critical section can load none: it takes its lock and sees the table before the sync's step. */
  lemma LoadsNoneHere(s: State, w: nat)
    requires Inv(s) && s.sync == Installing(NULL) && s.live != NULL && w < |s.workers| && s.workers[w] == Outside
    ensures var steps := [Lock(w), Check(w), Install, Load(w)];
      Runs(s, steps, true) && After(s, steps, true).workers == s.workers[w := Loaded(NULL)]
  {
    EntersSection(s, w);
    var after := Take(s, Install, true);
    assert after.live == NULL && after.workers == s.workers && after.locks == s.locks;
    LeavesSection(after, w);
    assert Runs(InSection(after, w, Loaded(NULL)), [], true);
    hide Inv, Take, Can;
    Prepend(InSection(after, w, Checked), Load(w), [], true);
    Prepend(InSection(s, w, Checked), Install, [Load(w)], true);
    Prepend(InSection(s, w, Entered), Check(w), [Install, Load(w)], true);
    Prepend(s, Lock(w), [Check(w), Install, Load(w)], true);
  }

  lemma Ahead(s: State, step: Step, rest: seq<Step>, w: nat) returns (trace: seq<Step>)
    requires Can(s, step, true) && Runs(Take(s, step, true), rest, true)
    ensures trace == [step] + rest && Runs(s, trace, true)
    ensures SyncSteps(trace) == if OfWorker(step) then SyncSteps(rest) else [step] + SyncSteps(rest)
    ensures LoadsNone(s, trace, w) <==> (w < |s.workers| && s.workers[w] == Loaded(NULL)) || LoadsNone(Take(s, step, true), rest, w)
  {
    trace := [step] + rest;
    assert trace[1..] == rest;
  }

  /** The same, followed by the rest of a run after the sync's step. */
  lemma LoadsNoneBefore(s: State, w: nat, rest: seq<Step>) returns (trace: seq<Step>)
    requires Inv(s) && s.sync == Installing(NULL) && s.live != NULL && w < |s.workers| && s.workers[w] == Outside
    requires Runs(Take(s, Install, true), rest, true)
    ensures Runs(s, trace, true) && SyncSteps(trace) == [Install] + SyncSteps(rest) && LoadsNone(s, trace, w)
  {
    EntersSection(s, w);
    var after := Take(s, Install, true);
    assert after.live == NULL && after.workers == s.workers && after.locks == s.locks;
    LeavesSection(after, w);
    hide Inv, Runs, LoadsNone, SyncSteps, Take, Can;
    trace := Ahead(InSection(after, w, Classified), Unlock(w), rest, w);
    trace := Ahead(InSection(after, w, Loaded(NULL)), Classify(w), trace, w);
    trace := Ahead(InSection(after, w, Checked), Load(w), trace, w);
    hide InSection;
    trace := Ahead(InSection(s, w, Checked), Install, trace, w);
    trace := Ahead(InSection(s, w, Entered), Check(w), trace, w);
    trace := Ahead(s, Lock(w), trace, w);
  }

  /** A run of sync steps alone that replaces a table by none can be interleaved so that w loads none. */
  lemma {:induction false} Interleave(s: State, syncs: seq<Step>, w: nat) returns (trace: seq<Step>)
    requires Inv(s) && AllOutside(s) && w < |s.workers| && !s.emptied
    requires Runs(s, syncs, true) && After(s, syncs, true).emptied && forall k :: 0 <= k < |syncs| ==> !OfWorker(syncs[k])
    ensures Runs(s, trace, true) && SyncSteps(trace) == syncs && LoadsNone(s, trace, w)
    decreases |syncs|
  {
    var step, rest := syncs[0], syncs[1..];
    var s' := Take(s, step, true);
    assert !OfWorker(step);
    SyncStepsOfSyncs(rest);
    if step == Install && s.sync.table == NULL && s.live != NULL {
      trace := LoadsNoneBefore(s, w, rest);
    } else {
      StepKeeps(s, step);
      hide Inv;
      assert s'.workers == s.workers && !s'.emptied;
      trace := Interleave(s', rest, w);
      trace := Ahead(s, step, trace, w);
    }
    assert syncs == [step] + rest;
  }

  lemma {:induction false} SyncStepsOfSyncs(syncs: seq<Step>)
    requires forall k :: 0 <= k < |syncs| ==> !OfWorker(syncs[k])
    ensures SyncSteps(syncs) == syncs
  {
    if syncs != [] {
      SyncStepsOfSyncs(syncs[1..]);
    }
  }

  // ---------- The exact condition ----------

  /** A run of n workers and the sync in which the sync takes exactly these steps. */
  ghost predicate Interleaves(n: nat, trace: seq<Step>, syncs: seq<Step>) {
    Runs(Start(n), trace, true) && SyncSteps(trace) == syncs
  }

  lemma StartHistory(n: nat)
    ensures History(Start(n), []) && NoneLost(Start(n)) && AllOutside(Start(n))
  {
  }

  /** For a given sequence of sync steps and a given worker, some interleaving lets the worker classify with
      no table after it saw one exactly when a table was built and a later sync installed none. */
  lemma LoadsNoneIff(n: nat, syncs: seq<Step>, w: nat)
    requires w < n && Runs(Start(n), syncs, true) && forall k :: 0 <= k < |syncs| ==> !OfWorker(syncs[k])
    ensures (exists trace :: Interleaves(n, trace, syncs) && LoadsNone(Start(n), trace, w)) <==> Empties(syncs)
  {
    StartInv(n);
    StartHistory(n);
    hide Empties;
    if trace :| Interleaves(n, trace, syncs) && LoadsNone(Start(n), trace, w) {
      LoadsNoneAfter(Start(n), trace, w);
      RunHistory(Start(n), [], trace);
      assert [] + SyncSteps(trace) == syncs;
    }
    if Empties(syncs) {
      SyncStepsOfSyncs(syncs);
      RunHistory(Start(n), [], syncs);
      assert [] + SyncSteps(syncs) == syncs;
      var trace := Interleave(Start(n), syncs, w);
      assert Interleaves(n, trace, syncs);
    }
  }
}
