/** Hit counting: 32-bit counters per worker and rule, their last synced values, and 64-bit totals per
    rule that a sync brings up to date from the modular differences. */
module HitStats {
  import opened Words

  const WORD64: nat := 0x1_0000_0000_0000_0000
  const GROUPS: nat := 1
  const RULES: nat := 4096
  const CELLS: nat := GROUPS * RULES

  /** The position of a rule (1-based) of a group (0-based) among the totals. */
  function RuleIndex(group: nat, rule: nat): nat
    requires rule > 0
  {
    group * RULES + rule - 1
  }

  /** The position of a worker's counter for a rule in the flat array. */
  function FlatIndex(worker: nat, group: nat, rule: nat): nat
    requires rule > 0
  {
    worker * GROUPS * RULES + group * RULES + rule - 1
  }

  /** Two counters never share a cell, and every cell is inside the array. */
  lemma FlatIndexInjective(w: nat, g: nat, r: nat, w': nat, g': nat, r': nat, workers: nat)
    requires w < workers && g < GROUPS && 0 < r <= RULES
    requires w' < workers && g' < GROUPS && 0 < r' <= RULES
    ensures FlatIndex(w, g, r) == FlatIndex(w', g', r') ==> w == w' && g == g' && r == r'
    ensures FlatIndex(w, g, r) < workers * CELLS
    ensures FlatIndex(w, g, r) == 4096 * w + r - 1 && RuleIndex(g, r) == r - 1
  {
    QuotientUnique(FlatIndex(w, g, r), CELLS, w, RuleIndex(g, r));
    QuotientUnique(FlatIndex(w', g', r'), CELLS, w', RuleIndex(g', r'));
    Monotone(w + 1, workers, CELLS);
  }

  /** The 32-bit difference of two counters. */
  function Minus(a: nat, b: nat): nat {
    (a - b) % WORD
  }

  /** A counter that was at `from` and counted n hits shows n modulo 2^32, so the difference is the
      number of hits exactly when there were fewer than 2^32. */
  lemma DifferenceIff(from: nat, n: nat)
    requires from < WORD
    ensures Minus((from + n) % WORD, from) == n % WORD
    ensures Minus((from + n) % WORD, from) == n <==> n < WORD
  {
    var q := (from + n) / WORD;
    assert (from + n) % WORD - from == n - q * WORD;
    ModShift(n, q);
  }

  lemma ModShift(n: nat, q: nat)
    ensures (n - q * WORD) % WORD == n % WORD
    decreases q
  {
    if q > 0 {
      ModShift(n, q - 1);
      assert n - q * WORD == n - (q - 1) * WORD - WORD;
    }
  }

  /** The hits of rule q not yet synced, over the first k workers. */
  ghost function Unsynced(pending: seq<nat>, q: nat, k: nat): (s: nat)
    requires q < CELLS && k * CELLS <= |pending|
  {
    if k == 0 then 0 else Cell(k - 1, q, k); Unsynced(pending, q, k - 1) + pending[(k - 1) * CELLS + q]
  }

  lemma Cell(w: nat, q: nat, k: nat)
    requires w < k && q < CELLS
    ensures w * CELLS + q < k * CELLS
  {
    Monotone(w + 1, k, CELLS);
  }

  /** Changing one cell changes the sum of its rule only, by the same amount. */
  lemma {:induction false} UnsyncedUpdate(pending: seq<nat>, q: nat, k: nat, w: nat, p: nat, x: nat)
    requires q < CELLS && p < CELLS && k * CELLS <= |pending| && w * CELLS + p < |pending|
    ensures Unsynced(pending[w * CELLS + p := x], q, k) ==
            Unsynced(pending, q, k) + if q == p && w < k then x - pending[w * CELLS + p] else 0
    decreases k
  {
    if k > 0 {
      Cell(k - 1, q, k);
      UnsyncedUpdate(pending, q, k - 1, w, p, x);
      QuotientUnique((k - 1) * CELLS + q, CELLS, k - 1, q);
      QuotientUnique(w * CELLS + p, CELLS, w, p);
    }
  }

  lemma {:induction false} NothingUnsynced(pending: seq<nat>, q: nat, k: nat)
    requires q < CELLS && k * CELLS <= |pending| && forall w :: 0 <= w < k ==> Synced(pending, w, q)
    ensures Unsynced(pending, q, k) == 0
    decreases k
  {
    if k > 0 {
      Cell(k - 1, q, k);
      NothingUnsynced(pending, q, k - 1);
      assert Synced(pending, k - 1, q);
    }
  }

  /** No counter has gone round since its last sync. */
  ghost predicate NoRounds(pending: seq<nat>) {
    forall i :: 0 <= i < |pending| ==> pending[i] < WORD
  }

  ghost predicate Synced(pending: seq<nat>, w: nat, q: nat) {
    w * CELLS + q < |pending| && pending[w * CELLS + q] == 0
  }

  // ---------- The accounts ----------

  /** since counts, without bound, the hits of each rule since its last clear; pending, per worker and
      rule, those that no sync has seen yet; lost, those that a sync has passed over. */
  datatype Counts = Counts(global: seq<nat>, synced: seq<nat>, total: seq<nat>,
                           pending: seq<nat>, since: seq<nat>, lost: seq<nat>)

  ghost predicate CellOk(c: Counts, i: nat)
    requires i < |c.global| == |c.synced| == |c.pending|
  {
    c.synced[i] < WORD && c.global[i] == (c.synced[i] + c.pending[i]) % WORD
  }

  ghost predicate RuleOk(c: Counts, workers: nat, q: nat)
    requires |c.total| == |c.since| == |c.lost| == CELLS && workers * CELLS <= |c.pending| && q < CELLS
  {
    (c.total[q] + (Unsynced(c.pending, q, workers) + c.lost[q])) % WORD64 == c.since[q] % WORD64 && c.total[q] < WORD64
  }

  ghost predicate Shaped(c: Counts, workers: nat) {
    |c.global| == |c.synced| == |c.pending| == workers * CELLS && |c.total| == |c.since| == |c.lost| == CELLS
  }

  /** Conservation: for every rule, total plus unsynced plus lost hits is the hits since the last clear,
      modulo 2^64; every counter is its synced value plus its unsynced hits, modulo 2^32. */
  ghost predicate Conserved(c: Counts, workers: nat) {
    Shaped(c, workers)
    && (forall i {:trigger CellOk(c, i)} :: 0 <= i < workers * CELLS ==> CellOk(c, i))
    && (forall q {:trigger RuleOk(c, workers, q)} :: 0 <= q < CELLS ==> RuleOk(c, workers, q))
  }

  /** One hit of rule q counted by worker w. */
  ghost function AfterHit(c: Counts, workers: nat, w: nat, q: nat): Counts
    requires Shaped(c, workers) && w < workers && q < CELLS
  {
    Cell(w, q, workers);
    var i := w * CELLS + q;
    c.(global := c.global[i := (c.global[i] + 1) % WORD], pending := c.pending[i := c.pending[i] + 1],
       since := c.since[q := c.since[q] + 1])
  }

  /** What a sync of a counter with so many unsynced hits passes over: whole rounds of 2^32. */
  function Rounds(pending: nat): (n: nat)
    ensures n == 0 <==> pending < WORD
    ensures n % 0x1_0000_0000 == 0 && 0 <= pending - n < 0x1_0000_0000
  {
    pending - pending % WORD
  }

  /** The counter of worker w for rule q synced, while `extra` hits land between the two reads the sync
      makes of it. */
  ghost function AfterSync(c: Counts, workers: nat, w: nat, q: nat, extra: nat): Counts
    requires Shaped(c, workers) && w < workers && q < CELLS
  {
    Cell(w, q, workers);
    var i := w * CELLS + q;
    var second := (c.global[i] + extra) % WORD;
    Counts(c.global[i := second], c.synced[i := second],
           c.total[q := (c.total[q] + Minus(c.global[i], c.synced[i])) % WORD64],
           c.pending[i := 0], c.since[q := c.since[q] + extra], c.lost[q := c.lost[q] + Rounds(c.pending[i]) + extra])
  }

  lemma AddWords(n: nat, k: nat)
    ensures (k * WORD64 + n) % WORD64 == n % WORD64
    decreases k
  {
    if k > 0 {
      AddWords(n, k - 1);
      assert k * WORD64 + n == (k - 1) * WORD64 + n + WORD64;
    }
  }

  lemma AddBoth(a: nat, b: nat, e: nat)
    requires a % WORD64 == b % WORD64
    ensures (a + e) % WORD64 == (b + e) % WORD64
  {
    var r := a % WORD64;
    assert a + e == a / WORD64 * WORD64 + (r + e) && b + e == b / WORD64 * WORD64 + (r + e);
    AddWords(r + e, a / WORD64);
    AddWords(r + e, b / WORD64);
  }

  lemma ModLeft(a: nat, b: nat)
    ensures (a % WORD64 + b) % WORD64 == (a + b) % WORD64
  {
    assert a + b == a / WORD64 * WORD64 + (a % WORD64 + b);
    AddWords(a % WORD64 + b, a / WORD64);
  }

  /** A hit keeps the accounts. */
  lemma HitKeeps(c: Counts, workers: nat, w: nat, q: nat)
    requires Conserved(c, workers) && w < workers && q < CELLS
    ensures Conserved(AfterHit(c, workers, w, q), workers)
  {
    Cell(w, q, workers);
    var c', i := AfterHit(c, workers, w, q), w * CELLS + q;
    forall j | 0 <= j < workers * CELLS ensures CellOk(c', j) {
      assert CellOk(c, j);
    }
    forall p | 0 <= p < CELLS ensures RuleOk(c', workers, p) {
      assert RuleOk(c, workers, p);
      UnsyncedUpdate(c.pending, p, workers, w, q, c.pending[i] + 1);
      if p == q {
        AddBoth(c.total[q] + (Unsynced(c.pending, q, workers) + c.lost[q]), c.since[q], 1);
      }
    }
  }

  lemma {:induction false} PendingWithin(pending: seq<nat>, q: nat, k: nat, w: nat)
    requires q < CELLS && w < k && k * CELLS <= |pending| && w * CELLS + q < |pending|
    ensures pending[w * CELLS + q] <= Unsynced(pending, q, k)
    decreases k
  {
    Cell(k - 1, q, k);
    if w < k - 1 {
      PendingWithin(pending, q, k - 1, w);
    }
  }

  /** The sum of a rule's accounts when a counter with p unsynced hits is synced. */
  lemma SyncedSum(total: nat, unsynced: nat, lost: nat, since: nat, p: nat, extra: nat)
    requires p <= unsynced && (total + (unsynced + lost)) % WORD64 == since % WORD64
    ensures ((total + p % WORD) % WORD64 + (unsynced - p + (lost + Rounds(p) + extra))) % WORD64 == (since + extra) % WORD64
  {
    ModLeft(total + p % WORD, unsynced - p + (lost + Rounds(p) + extra));
    AddBoth(total + (unsynced + lost), since, extra);
    assert total + p % WORD + (unsynced - p + (lost + Rounds(p) + extra)) == total + (unsynced + lost) + extra;
  }

  /** So does syncing one counter, whatever lands meanwhile: what the total misses is exactly the whole
      rounds of 2^32 the counter had gone through and the hits between the sync's two reads. */
  lemma SyncKeeps(c: Counts, workers: nat, w: nat, q: nat, extra: nat)
    requires Conserved(c, workers) && w < workers && q < CELLS
    ensures Conserved(AfterSync(c, workers, w, q, extra), workers)
  {
    Cell(w, q, workers);
    var c', i := AfterSync(c, workers, w, q, extra), w * CELLS + q;
    assert CellOk(c, i);
    DifferenceIff(c.synced[i], c.pending[i]);
    forall j | 0 <= j < workers * CELLS ensures CellOk(c', j) {
      assert CellOk(c, j);
    }
    hide Minus, Rounds;
    forall p | 0 <= p < CELLS ensures RuleOk(c', workers, p) {
      assert RuleOk(c, workers, p);
      UnsyncedUpdate(c.pending, p, workers, w, q, 0);
      if p == q {
        PendingWithin(c.pending, q, workers, w);
        SyncedSum(c.total[q], Unsynced(c.pending, q, workers), c.lost[q], c.since[q], c.pending[i], extra);
      }
    }
  }

  /** What is stored accounts for every hit of rule q since its last clear. */
  ghost predicate CountsAll(c: Counts, workers: nat, q: nat)
    requires Shaped(c, workers) && q < CELLS
  {
    (c.total[q] + Unsynced(c.pending, q, workers)) % WORD64 == c.since[q] % WORD64
  }

  lemma AddsNothingIff(x: nat, e: nat, s: nat)
    requires (x + e) % WORD64 == s % WORD64
    ensures x % WORD64 == s % WORD64 <==> e % WORD64 == 0
  {
    var r, f := x % WORD64, e % WORD64;
    assert x + e == (x / WORD64 + e / WORD64) * WORD64 + (r + f);
    AddWords(r + f, x / WORD64 + e / WORD64);
  }

  lemma CountsAllIff(c: Counts, workers: nat, q: nat)
    requires Conserved(c, workers) && q < CELLS
    ensures CountsAll(c, workers, q) <==> c.lost[q] % WORD64 == 0
  {
    assert RuleOk(c, workers, q);
    AddsNothingIff(c.total[q] + Unsynced(c.pending, q, workers), c.lost[q], c.since[q]);
  }

  /** If what is stored accounts for every hit of a rule, it does so after a sync of one of its counters
      exactly when the counter's whole rounds of 2^32 and the hits between the two reads are together a
      multiple of 2^64. */
  lemma SyncCountsAllIff(c: Counts, workers: nat, w: nat, q: nat, extra: nat)
    requires Conserved(c, workers) && w < workers && q < CELLS && w * CELLS + q < |c.pending| && CountsAll(c, workers, q)
    ensures CountsAll(AfterSync(c, workers, w, q, extra), workers, q) <==>
            (Rounds(c.pending[w * CELLS + q]) + extra) % WORD64 == 0
  {
    var c', n := AfterSync(c, workers, w, q, extra), Rounds(c.pending[w * CELLS + q]) + extra;
    SyncKeeps(c, workers, w, q, extra);
    CountsAllIff(c, workers, q);
    CountsAllIff(c', workers, q);
    assert c'.lost[q] == c.lost[q] + n;
    hide Conserved, CountsAll, Rounds;
    SumOfNone(c.lost[q], n);
  }

  lemma SumOfNone(a: nat, b: nat)
    requires a % WORD64 == 0
    ensures (a + b) % WORD64 == b % WORD64
  {
    AddWords(b, a / WORD64);
  }

  /** A sync of a counter loses nothing exactly when the counter had fewer than 2^32 unsynced hits and
      none landed between the two reads. */
  lemma SyncLosesNothingIff(c: Counts, workers: nat, w: nat, q: nat, extra: nat)
    requires Conserved(c, workers) && w < workers && q < CELLS && w * CELLS + q < |c.pending|
    ensures AfterSync(c, workers, w, q, extra).lost == c.lost <==> c.pending[w * CELLS + q] < WORD && extra == 0
  {
    var c' := AfterSync(c, workers, w, q, extra);
    assert c'.lost[q] == c.lost[q] + Rounds(c.pending[w * CELLS + q]) + extra;
    assert c.lost[q := c.lost[q]] == c.lost;
  }

  /** Once every worker's counter of a rule is synced, its total and what syncs lost are the hits since
      the last clear. */
  lemma TotalIsHits(c: Counts, workers: nat, q: nat)
    requires Conserved(c, workers) && q < CELLS && forall w :: 0 <= w < workers ==> Synced(c.pending, w, q)
    ensures (c.total[q] + c.lost[q]) % WORD64 == c.since[q] % WORD64
    ensures c.lost[q] == 0 ==> c.total[q] == c.since[q] % 0x1_0000_0000_0000_0000
  {
    assert RuleOk(c, workers, q);
    NothingUnsynced(c.pending, q, workers);
  }

  // ---------- Clearing ----------

  /** The total of rule q set to 0: only unsynced hits count from here. */
  ghost function AfterZero(c: Counts, workers: nat, q: nat): Counts
    requires Shaped(c, workers) && q < CELLS
  {
    c.(total := c.total[q := 0], since := c.since[q := Unsynced(c.pending, q, workers)], lost := c.lost[q := 0])
  }

  /** The unsynced hits of worker w on rule q dropped as well. */
  ghost function AfterForget(c: Counts, workers: nat, w: nat, q: nat): Counts
    requires Shaped(c, workers) && w < workers && q < CELLS
  {
    Cell(w, q, workers);
    var i := w * CELLS + q;
    var pending := c.pending[i := 0];
    c.(synced := c.synced[i := c.global[i]], pending := pending, since := c.since[q := Unsynced(pending, q, workers)])
  }

  lemma ZeroKeeps(c: Counts, workers: nat, q: nat)
    requires Conserved(c, workers) && q < CELLS
    ensures Conserved(AfterZero(c, workers, q), workers)
  {
    var c' := AfterZero(c, workers, q);
    forall j | 0 <= j < workers * CELLS ensures CellOk(c', j) {
      assert CellOk(c, j);
    }
    forall p | 0 <= p < CELLS ensures RuleOk(c', workers, p) {
      assert RuleOk(c, workers, p);
    }
  }

  lemma ForgetKeeps(c: Counts, workers: nat, w: nat, q: nat)
    requires Conserved(c, workers) && w < workers && q < CELLS && c.total[q] == c.lost[q] == 0
    ensures Conserved(AfterForget(c, workers, w, q), workers)
  {
    Cell(w, q, workers);
    var c' := AfterForget(c, workers, w, q);
    forall j | 0 <= j < workers * CELLS ensures CellOk(c', j) {
      assert CellOk(c, j);
    }
    forall p | 0 <= p < CELLS ensures RuleOk(c', workers, p) {
      assert RuleOk(c, workers, p);
      UnsyncedUpdate(c.pending, p, workers, w, q, 0);
    }
  }

  ghost function Zeros(n: nat): (z: seq<nat>)
    ensures |z| == n && forall i :: 0 <= i < n ==> z[i] == 0
  {
    seq(n, _ => 0)
  }

  lemma StartConserved(workers: nat)
    ensures var z, n := Zeros(workers * CELLS), Zeros(CELLS); Conserved(Counts(z, z, n, z, n, n), workers)
  {
    var z, n := Zeros(workers * CELLS), Zeros(CELLS);
    CountsCleared(Counts(z, z, n, z, n, n), workers);
  }

  /** A hit between the two reads of a sync is counted nowhere. */
  lemma RacedHitIsLost() returns (c: Counts)
    ensures Conserved(c, 1)
    ensures var c' := AfterSync(c, 1, 0, 0, 1); c'.since[0] == 1 && c'.total[0] == 0 && c'.pending[0] == 0
  {
    StartConserved(1);
    var z, n := Zeros(1 * CELLS), Zeros(CELLS);
    c := Counts(z, z, n, z, n, n);
  }

  lemma ClearedConserved(c: Counts, workers: nat)
    requires Conserved(c, workers)
    ensures Conserved(Counts(c.global, c.global, Zeros(CELLS), Zeros(workers * CELLS), Zeros(CELLS), Zeros(CELLS)), workers)
  {
    forall j | 0 <= j < workers * CELLS ensures c.global[j] < WORD {
      assert CellOk(c, j);
    }
    CountsCleared(c, workers);
  }

  /** With nothing unsynced and every total 0 the accounts hold for any counter values. */
  lemma CountsCleared(c: Counts, workers: nat)
    requires |c.global| == workers * CELLS && forall j :: 0 <= j < |c.global| ==> c.global[j] < WORD
    ensures Conserved(Counts(c.global, c.global, Zeros(CELLS), Zeros(workers * CELLS), Zeros(CELLS), Zeros(CELLS)), workers)
  {
    var z := Zeros(workers * CELLS);
    var c' := Counts(c.global, c.global, Zeros(CELLS), z, Zeros(CELLS), Zeros(CELLS));
    forall p | 0 <= p < CELLS ensures RuleOk(c', workers, p) {
      forall w | 0 <= w < workers ensures Synced(z, w, p) {
        Cell(w, p, workers);
      }
      NothingUnsynced(z, p, workers);
    }
  }

  // ---------- The counters in memory ----------

  class Stats {
    const workers: nat
    const global: array<nat>
    const synced: array<nat>
    const total: array<nat>
    ghost var pending: seq<nat>
    ghost var since: seq<nat>
    ghost var lost: seq<nat>

    ghost function View(): Counts
      reads this, global, synced, total
    {
      Counts(global[..], synced[..], total[..], pending, since, lost)
    }

    ghost predicate Valid()
      reads this, global, synced, total
    {
      global != synced && synced != total && global != total && Conserved(View(), workers)
    }

    /** The counters start at zero. */
    constructor (workers: nat)
      ensures Valid() && this.workers == workers && since == lost == Zeros(CELLS)
      ensures fresh(global) && fresh(synced) && fresh(total)
    {
      this.workers := workers;
      var g := new nat[workers * CELLS](_ => 0);
      var s := new nat[workers * CELLS](_ => 0);
      var t := new nat[CELLS](_ => 0);
      global, synced, total := g, s, t;
      pending, since, lost := Zeros(workers * CELLS), Zeros(CELLS), Zeros(CELLS);
      new;
      StartConserved(workers);
      hide Conserved;
      ghost var z, n := Zeros(workers * CELLS), Zeros(CELLS);
      assert View() == Counts(z, z, n, z, n, n);
    }

    /** A worker counts a hit of a rule. */
    method Hit(w: nat, group: nat, rule: nat)
      requires Valid() && w < workers && group < GROUPS && 0 < rule <= RULES
      modifies `pending, `since, global
      ensures Valid() && since == old(since[RuleIndex(group, rule) := since[RuleIndex(group, rule)] + 1])
      ensures total[..] == old(total[..])
    {
      ghost var q := RuleIndex(group, rule);
      Cell(w, q, workers);
      HitKeeps(View(), workers, w, q);
      var i := FlatIndex(w, group, rule);
      assert i == w * CELLS + q;
      hide Conserved;
      pending := pending[i := pending[i] + 1];
      since := since[q := since[q] + 1];
      global[i] := (global[i] + 1) % WORD;
      assert View() == AfterHit(old(View()), workers, w, q);
    }

    /** The body of the sync loops. */
    method SyncCell(w: nat, q: nat)
      requires Valid() && w < workers && q < CELLS
      modifies `pending, `lost, synced, total
      ensures Valid() && since == old(since) && global[..] == old(global[..])
      ensures w * CELLS + q < |pending| && pending == old(pending)[w * CELLS + q := 0]
      ensures lost == old(lost)[q := old(lost)[q] + Rounds(old(pending)[w * CELLS + q])]
      ensures NoRounds(old(pending)) ==> lost == old(lost) && NoRounds(pending)
      ensures forall v, p {:trigger Synced(pending, v, p)} :: Synced(old(pending), v, p) ==> Synced(pending, v, p)
    {
      Cell(w, q, workers);
      SyncKeeps(View(), workers, w, q, 0);
      SyncLosesNothingIff(View(), workers, w, q, 0);
      var i := w * CELLS + q;
      assert CellOk(View(), i) && (global[i] + 0) % WORD == global[i];
      hide Conserved, Rounds, Minus;
      total[q] := (total[q] + Minus(global[i], synced[i])) % WORD64;
      synced[i] := global[i];
      lost := lost[q := lost[q] + Rounds(pending[i])];
      pending := pending[i := 0];
      assert View() == AfterSync(old(View()), workers, w, q, 0);
    }

    /** "sf acl sync stat group .. rule ..": afterwards the rule's total and what syncs of it have lost are
        its hits since the last clear, and nothing more is lost if no counter has gone round. */
    method SyncOne(group: int, rule: int) returns (ok: bool)
      requires Valid()
      modifies `pending, `lost, synced, total
      ensures Valid() && since == old(since) && global[..] == old(global[..])
      ensures ok <==> 0 < group <= GROUPS && 0 < rule <= RULES
      ensures ok ==> var q := RuleIndex(group - 1, rule); (total[q] + lost[q]) % WORD64 == since[q] % WORD64
      ensures NoRounds(old(pending)) ==> lost == old(lost)
      ensures !ok ==> View() == old(View())
    {
      if group <= 0 || group > GROUPS || rule <= 0 || rule > RULES {
        return false;
      }
      var q := RuleIndex(group - 1, rule);
      for w := 0 to workers
        invariant Valid() && since == old(since) && global[..] == old(global[..])
        invariant NoRounds(old(pending)) ==> lost == old(lost) && NoRounds(pending)
        invariant forall v :: 0 <= v < w ==> Synced(pending, v, q)
      {
        SyncCell(w, q);
      }
      TotalIsHits(View(), workers, q);
      ok := true;
    }

    /** "sf acl sync stat all": the same for every rule. */
    method SyncAll()
      requires Valid()
      modifies `pending, `lost, synced, total
      ensures Valid() && since == old(since) && global[..] == old(global[..])
      ensures forall q :: 0 <= q < CELLS ==> (total[q] + lost[q]) % WORD64 == since[q] % WORD64
      ensures NoRounds(old(pending)) ==> lost == old(lost)
    {
      for w := 0 to workers
        invariant Valid() && since == old(since) && global[..] == old(global[..])
        invariant NoRounds(old(pending)) ==> lost == old(lost) && NoRounds(pending)
        invariant forall v, p :: 0 <= v < w && 0 <= p < CELLS ==> Synced(pending, v, p)
      {
        for q := 0 to CELLS
          invariant Valid() && since == old(since) && global[..] == old(global[..])
          invariant NoRounds(old(pending)) ==> lost == old(lost) && NoRounds(pending)
          invariant forall v, p :: 0 <= v < w && 0 <= p < CELLS ==> Synced(pending, v, p)
          invariant forall p :: 0 <= p < q ==> Synced(pending, w, p)
        {
          SyncCell(w, q);
        }
      }
      forall q | 0 <= q < CELLS ensures (total[q] + lost[q]) % WORD64 == since[q] % WORD64 {
        TotalIsHits(View(), workers, q);
      }
    }

    /** "sf acl clear stat group .. rule ..": the rule starts again from zero hits. */
    method ClearOne(group: int, rule: int) returns (ok: bool)
      requires Valid()
      modifies `pending, `since, `lost, synced, total
      ensures Valid() && global[..] == old(global[..])
      ensures ok <==> 0 < group <= GROUPS && 0 < rule <= RULES
      ensures since == if ok then old(since)[RuleIndex(group - 1, rule) := 0] else old(since)
      ensures lost == if ok then old(lost)[RuleIndex(group - 1, rule) := 0] else old(lost)
      ensures total[..] == if ok then old(total[..])[RuleIndex(group - 1, rule) := 0] else old(total[..])
    {
      if group <= 0 || group > GROUPS || rule <= 0 || rule > RULES {
        return false;
      }
      var q := RuleIndex(group - 1, rule);
      ClearTotal(q);
      ghost var totals := total[..];
      for w := 0 to workers
        invariant Valid() && global[..] == old(global[..]) && total[..] == totals && total[q] == 0
        invariant lost == old(lost)[q := 0]
        invariant since == old(since)[q := Unsynced(pending, q, workers)]
        invariant forall v :: 0 <= v < w ==> Synced(pending, v, q)
      {
        ForgetCell(w, q);
      }
      NothingUnsynced(pending, q, workers);
      ok := true;
    }

    /** acl_clear_rule_hit_single: only the total is reset, so the rule restarts from its unsynced hits. */
    method ClearSingle(group: int, rule: int) returns (code: int)
      requires Valid()
      modifies `since, `lost, total
      ensures Valid() && code == if 0 < group <= GROUPS && 0 < rule <= RULES then 0 else -1
      ensures code == 0 ==> var q := RuleIndex(group - 1, rule);
                            && total[..] == old(total[..])[q := 0] && lost == old(lost)[q := 0]
                            && since == old(since)[q := Unsynced(pending, q, workers)]
      ensures code != 0 ==> View() == old(View())
    {
      if group <= 0 || group > GROUPS {
        return -1;
      }
      if rule <= 0 || rule > RULES {
        return -1;
      }
      ClearTotal(RuleIndex(group - 1, rule));
      code := 0;
    }

    method ClearTotal(q: nat)
      requires Valid() && q < CELLS
      modifies `since, `lost, total
      ensures Valid() && total[..] == old(total[..])[q := 0] && lost == old(lost)[q := 0]
      ensures since == old(since)[q := Unsynced(pending, q, workers)]
    {
      ZeroKeeps(View(), workers, q);
      hide Conserved;
      total[q] := 0;
      since := since[q := Unsynced(pending, q, workers)];
      lost := lost[q := 0];
      assert View() == AfterZero(old(View()), workers, q);
    }

    method ForgetCell(w: nat, q: nat)
      requires Valid() && w < workers && q < CELLS && total[q] == 0 && q < |lost| && lost[q] == 0
      modifies `pending, `since, synced
      ensures Valid() && w * CELLS + q < |pending| && pending == old(pending)[w * CELLS + q := 0]
      ensures since == old(since)[q := Unsynced(pending, q, workers)]
      ensures forall v, p {:trigger Synced(pending, v, p)} :: Synced(old(pending), v, p) ==> Synced(pending, v, p)
    {
      Cell(w, q, workers);
      ForgetKeeps(View(), workers, w, q);
      var i := w * CELLS + q;
      hide Conserved;
      synced[i] := global[i];
      pending := pending[i := 0];
      since := since[q := Unsynced(pending, q, workers)];
      assert View() == AfterForget(old(View()), workers, w, q);
    }

    /** "sf acl clear stat all": the counters' present values become the synced ones. */
    method ClearAll()
      requires Valid()
      modifies `pending, `since, `lost, synced, total
      ensures Valid() && global[..] == old(global[..])
      ensures since == lost == Zeros(CELLS) == total[..]
    {
      ClearedConserved(View(), workers);
      assert Shaped(View(), workers);
      hide Conserved;
      forall i | 0 <= i < synced.Length {
        synced[i] := global[i];
      }
      forall q | 0 <= q < total.Length {
        total[q] := 0;
      }
      pending, since, lost := Zeros(workers * CELLS), Zeros(CELLS), Zeros(CELLS);
      assert synced[..] == global[..] && total[..] == Zeros(CELLS);
      assert View() == Counts(old(global[..]), old(global[..]), Zeros(CELLS), Zeros(workers * CELLS), Zeros(CELLS), Zeros(CELLS));
    }
  }
}
