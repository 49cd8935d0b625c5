/** Weighted round robin: the scanning scheduler driven by the weights' greatest common divisor and
    maximum, and its exact fairness. */
module Wrr {
  import opened Words
  import opened Weights

  // ---------- Scanning a stream ----------

  /** How many of the positions a, ..., a + len - 1 satisfy f. */
  ghost function Count(f: nat -> bool, a: nat, len: nat): (k: nat)
    decreases len
  {
    if len == 0 then 0 else Count(f, a, len - 1) + if f(a + len - 1) then 1 else 0
  }

  lemma {:induction false} CountSplit(f: nat -> bool, a: nat, len1: nat, len2: nat)
    ensures Count(f, a, len1 + len2) == Count(f, a, len1) + Count(f, a + len1, len2)
    decreases len2
  {
    if len2 > 0 {
      CountSplit(f, a, len1, len2 - 1);
      assert len1 + len2 - 1 == len1 + (len2 - 1) && a + (len1 + len2) - 1 == (a + len1) + len2 - 1;
    }
  }

  /** f holds where exactly one of g and h does, and nowhere else. */
  ghost predicate Joins(f: nat -> bool, g: nat -> bool, h: nat -> bool, p: nat) {
    (f(p) <==> g(p) || h(p)) && !(g(p) && h(p))
  }

  lemma {:induction false} CountJoins(f: nat -> bool, g: nat -> bool, h: nat -> bool, a: nat, len: nat)
    requires forall p :: Joins(f, g, h, p)
    ensures Count(f, a, len) == Count(g, a, len) + Count(h, a, len)
    decreases len
  {
    if len > 0 {
      CountJoins(f, g, h, a, len - 1);
      assert Joins(f, g, h, a + len - 1);
    }
  }

  lemma {:induction false} CountNone(f: nat -> bool, a: nat, len: nat)
    requires forall p :: !f(p)
    ensures Count(f, a, len) == 0
    decreases len
  {
    if len > 0 {
      CountNone(f, a, len - 1);
    }
  }

  lemma {:induction false} SameCount(f: nat -> bool, g: nat -> bool, a: nat, len: nat)
    requires forall p :: f(p) == g(p)
    ensures Count(f, a, len) == Count(g, a, len)
    decreases len
  {
    if len > 0 {
      SameCount(f, g, a, len - 1);
    }
  }

  ghost predicate SameLater(f: nat -> bool, t: nat, p: nat) {
    f(p + t) == f(p)
  }

  ghost predicate Repeats(f: nat -> bool, t: nat) {
    forall p: nat :: SameLater(f, t, p)
  }

  /** Where a window starts does not matter when it is one period long. */
  lemma {:induction false} WindowMoves(f: nat -> bool, t: nat, a: nat)
    requires Repeats(f, t)
    ensures Count(f, a, t) == Count(f, 0, t)
    decreases a
  {
    if a > 0 {
      WindowMoves(f, t, a - 1);
      CountSplit(f, a - 1, 1, t);
      CountSplit(f, a - 1, t, 1);
      assert SameLater(f, t, a - 1);
      assert Count(f, a - 1, 0) == 0 && Count(f, a - 1 + t, 0) == 0;
    }
  }

  /** next(p) is the first position after p at which stop holds. */
  ghost predicate IsNext(stop: nat -> bool, p: nat, r: nat) {
    p < r && forall q: nat :: p < q <= r ==> (stop(q) <==> q == r)
  }

  ghost predicate StopsNext(stop: nat -> bool, next: nat -> nat) {
    forall p: nat :: IsNext(stop, p, next(p))
  }

  /** The position after k calls that start at p. */
  ghost function After(next: nat -> nat, k: nat, p: nat): (r: nat) {
    if k == 0 then p else next(After(next, k - 1, p))
  }

  /** How many of the first k calls from p end at a position satisfying f. */
  ghost function Visits(next: nat -> nat, f: nat -> bool, k: nat, p: nat): (v: nat) {
    if k == 0 then 0 else Visits(next, f, k - 1, p) + if f(After(next, k, p)) then 1 else 0
  }

  /** Calls and stops are in step: as many calls as a window has stops end at its last stop. */
  lemma {:induction false} CallsFollowStops(stop: nat -> bool, next: nat -> nat, p: nat, len: nat)
    requires StopsNext(stop, next)
    ensures var r := After(next, Count(stop, p + 1, len), p);
            r <= p + len < next(r) && (stop(p + len) && len > 0 ==> r == p + len)
    decreases len
  {
    if len > 0 {
      CallsFollowStops(stop, next, p, len - 1);
      assert p + 1 + len - 1 == p + len;
      var k := Count(stop, p + 1, len - 1);
      var r := After(next, k, p);
      assert stop(p + len) <==> next(r) == p + len;
      if stop(p + len) {
        assert After(next, k + 1, p) == p + len;
      }
    }
  }

  lemma {:induction false} VisitsAreCounted(stop: nat -> bool, next: nat -> nat, f: nat -> bool, p: nat, len: nat)
    requires StopsNext(stop, next) && forall q :: f(q) ==> stop(q)
    ensures Visits(next, f, Count(stop, p + 1, len), p) == Count(f, p + 1, len)
    decreases len
  {
    if len > 0 {
      VisitsAreCounted(stop, next, f, p, len - 1);
      CallsFollowStops(stop, next, p, len);
      assert p + 1 + len - 1 == p + len;
    }
  }

  lemma {:induction false} SameNext(stop: nat -> bool, next: nat -> nat, p: nat, q: nat)
    requires StopsNext(stop, next) && p <= q < next(p)
    ensures next(q) == next(p)
  {
    var a, b := next(p), next(q);
    assert stop(a) && stop(b);
  }

  /** Over a period that holds s stops, the answers from call 1 on repeat with cycle s. */
  lemma {:induction false} CallsRepeat(stop: nat -> bool, next: nat -> nat, t: nat, k: nat, p: nat)
    requires StopsNext(stop, next) && Repeats(stop, t)
    ensures After(next, k + 1 + Count(stop, 0, t), p) == After(next, k + 1, p) + t
    decreases k
  {
    var s := Count(stop, 0, t);
    hide Count, IsNext;
    if k == 0 {
      FirstCallRepeats(stop, next, t, p);
      assert 0 + 1 + s == 1 + s;
    } else {
      CallsRepeat(stop, next, t, k - 1, p);
      NextShifts(stop, next, t, After(next, k, p));
      assert k - 1 + 1 + s == k + s;
    }
  }

  lemma FirstCallRepeats(stop: nat -> bool, next: nat -> nat, t: nat, p: nat)
    requires StopsNext(stop, next) && Repeats(stop, t)
    ensures After(next, 1 + Count(stop, 0, t), p) == After(next, 1, p) + t
  {
    var s := Count(stop, 0, t);
    WindowMoves(stop, t, p + 1);
    CallsFollowStops(stop, next, p, t);
    hide Count, IsNext;
    SameNext(stop, next, After(next, s, p), p + t);
    NextShifts(stop, next, t, p);
    assert After(next, 0, p) == p;
  }

  lemma NextShifts(stop: nat -> bool, next: nat -> nat, t: nat, p: nat)
    requires StopsNext(stop, next) && Repeats(stop, t)
    ensures next(p + t) == next(p) + t
  {
    var a, b := next(p), next(p + t);
    assert SameLater(stop, t, a);
    if p + t < b {
      assert SameLater(stop, t, b - t);
    }
  }

  // ---------- The schedule, unrolled ----------

  /** What put_action_config leaves behind: the weights, a common divisor and the maximum. */
  datatype Config = Config(weights: seq<nat>, gcd: nat, max: nat)

  ghost predicate Ok(c: Config) {
    |c.weights| > 0 && c.gcd > 0 && DividesAll(c.gcd, c.weights) && IsMax(c.max, c.weights)
    && forall i :: 0 <= i < |c.weights| ==> c.weights[i] > 0
  }

  type Plan = c: Config | Ok(c) ghost witness Config([1], 1, 1)

  /** The number of values the threshold takes: gcd, 2 gcd, ..., max. */
  ghost function Levels(c: Plan): (k: nat)
    ensures k > 0 && k * c.gcd == c.max
  {
    var i :| 0 <= i < |c.weights| && c.weights[i] == c.max;
    assert Divides(c.gcd, c.weights[i]);
    c.max / c.gcd
  }

  datatype Scan = Scan(index: nat, cw: nat)

  /** One iteration of the scanning loop, with the threshold already started. */
  ghost function Advance(c: Plan, s: Scan): Scan {
    if s.index + 1 < |c.weights| then Scan(s.index + 1, s.cw)
    else Scan(0, if s.cw + c.gcd > c.max then c.gcd else s.cw + c.gcd)
  }

  /** Position p of the endless scan that starts at index 0 with the lowest threshold. */
  ghost function At(c: Plan, p: nat): (s: Scan)
    ensures s.index < |c.weights| && c.gcd <= s.cw <= c.max
  {
    Monotone(1, Levels(c), c.gcd);
    if p == 0 then Scan(0, c.gcd) else Advance(c, At(c, p - 1))
  }

  ghost predicate StopsAt(c: Plan, s: Scan)
    requires s.index < |c.weights|
  {
    c.weights[s.index] >= s.cw
  }

  /** The loop returns at these positions ... */
  ghost function Stop(c: Plan): nat -> bool {
    (p: nat) => StopsAt(c, At(c, p))
  }

  /** ... and at these with answer i. */
  ghost function StopOn(c: Plan, i: nat): nat -> bool {
    (p: nat) => StopsAt(c, At(c, p)) && At(c, p).index == i
  }

  ghost function Period(c: Plan): (t: nat)
    ensures t >= |c.weights|
  {
    Monotone(1, Levels(c), |c.weights|);
    Levels(c) * |c.weights|
  }

  lemma AdvanceAt(c: Plan, p: nat)
    ensures At(c, p + 1) == Advance(c, At(c, p))
  {
  }

  lemma ScanOn(c: Plan, p: nat, s: Scan)
    requires At(c, p) == s && s.index + 1 < |c.weights|
    ensures At(c, p + 1) == Scan(s.index + 1, s.cw)
  {
    AdvanceAt(c, p);
  }

  /** Round k scans every index in order with threshold (k + 1) gcd. */
  lemma {:induction false} RoundScans(c: Plan, k: nat, j: nat)
    requires k < Levels(c) && j < |c.weights|
    ensures At(c, k * |c.weights| + j) == Scan(j, (k + 1) * c.gcd)
    decreases k, j
  {
    hide At, Advance, Levels;
    var n, start := |c.weights|, k * |c.weights|;
    if j > 0 {
      RoundScans(c, k, j - 1);
      ScanOn(c, start + (j - 1), Scan(j - 1, (k + 1) * c.gcd));
      assert start + (j - 1) + 1 == start + j;
    } else if k > 0 {
      RoundScans(c, k - 1, n - 1);
      NextRound(c, k - 1);
      assert k - 1 + 1 == k && k - 1 + 2 == k + 1 && start + j == k * n;
    } else {
      ScanStarts(c);
      assert start + j == 0 && (k + 1) * c.gcd == c.gcd;
    }
  }

  lemma ScanStarts(c: Plan)
    ensures At(c, 0) == Scan(0, c.gcd)
  {
  }

  lemma RoundEnds(c: Plan, k: nat)
    requires At(c, k * |c.weights| + (|c.weights| - 1)) == Scan(|c.weights| - 1, (k + 1) * c.gcd)
    ensures At(c, (k + 1) * |c.weights|) == Scan(0, if (k + 2) * c.gcd > c.max then c.gcd else (k + 2) * c.gcd)
  {
    hide At;
    var n := |c.weights|;
    var last := k * n + (n - 1);
    assert (k + 1) * n == last + 1;
    AdvanceAt(c, last);
    assert (k + 1) * c.gcd + c.gcd == (k + 2) * c.gcd;
  }

  lemma NextRound(c: Plan, k: nat)
    requires At(c, k * |c.weights| + (|c.weights| - 1)) == Scan(|c.weights| - 1, (k + 1) * c.gcd)
    requires k + 1 < Levels(c)
    ensures At(c, (k + 1) * |c.weights|) == Scan(0, (k + 2) * c.gcd)
  {
    hide At, Advance;
    RoundEnds(c, k);
    Monotone(k + 2, Levels(c), c.gcd);
  }

  /** After the last round the scan is back where it started, so it repeats for ever. */
  lemma {:induction false} Periodic(c: Plan, p: nat)
    ensures At(c, p + Period(c)) == At(c, p)
    decreases p
  {
    var n, k := |c.weights|, Levels(c);
    if p == 0 {
      RoundScans(c, k - 1, n - 1);
      RoundEnds(c, k - 1);
      assert (k + 1) * c.gcd == c.max + c.gcd;
      assert k - 1 + 1 == k && k - 1 + 2 == k + 1;
    } else {
      Periodic(c, p - 1);
      AdvanceAt(c, p - 1);
      AdvanceAt(c, p - 1 + Period(c));
    }
  }

  lemma StopsRepeat(c: Plan, i: nat)
    ensures Repeats(Stop(c), Period(c)) && Repeats(StopOn(c, i), Period(c))
  {
    hide At;
    forall p: nat ensures SameLater(Stop(c), Period(c), p) && SameLater(StopOn(c, i), Period(c), p) {
      Periodic(c, p);
    }
  }

  // ---------- The loop ends ----------

  ghost function Heaviest(c: Plan): (i: nat)
    ensures i < |c.weights| && c.weights[i] == c.max
  {
    var i :| 0 <= i < |c.weights| && c.weights[i] == c.max;
    i
  }

  /** How far an index is from the heaviest one, at which every threshold is met. */
  ghost function Distance(c: Plan, index: nat): (d: nat)
    requires index < |c.weights|
    ensures d < |c.weights|
  {
    var t := Heaviest(c);
    if index <= t then t - index else t + |c.weights| - index
  }

  /** The first stop after p; at most one round away. */
  ghost function NextStop(c: Plan, p: nat): (r: nat)
    ensures p < r <= p + 1 + Distance(c, At(c, p + 1).index) <= p + |c.weights|
    decreases Distance(c, At(c, p + 1).index)
  {
    AdvanceAt(c, p + 1);
    if StopsAt(c, At(c, p + 1)) then p + 1 else NextStop(c, p + 1)
  }

  lemma NextStopStep(c: Plan, p: nat)
    ensures NextStop(c, p) == if StopsAt(c, At(c, p + 1)) then p + 1 else NextStop(c, p + 1)
    ensures !StopsAt(c, At(c, p + 1)) ==> Distance(c, At(c, p + 2).index) < Distance(c, At(c, p + 1).index)
  {
    AdvanceAt(c, p + 1);
  }

  ghost function Next(c: Plan): nat -> nat {
    (p: nat) => NextStop(c, p)
  }

  lemma {:induction false} NextStopIsFirst(c: Plan, p: nat, q: nat)
    requires p < q <= NextStop(c, p)
    ensures Stop(c)(q) <==> q == NextStop(c, p)
    decreases q - p
  {
    hide At, Distance;
    if !StopsAt(c, At(c, p + 1)) && q > p + 1 {
      NextStopIsFirst(c, p + 1, q);
    }
  }

  lemma NextStops(c: Plan)
    ensures StopsNext(Stop(c), Next(c))
  {
    forall p: nat, q: nat | p < q <= NextStop(c, p) ensures Stop(c)(q) <==> q == NextStop(c, p) {
      NextStopIsFirst(c, p, q);
    }
    hide Stop, At, NextStop;
    assert forall p: nat :: IsNext(Stop(c), p, Next(c)(p));
  }

  // ---------- One period ----------

  /** Round k, read up to offset j, stops on index i once if i has been passed and its weight reaches
      the round's threshold. */
  lemma {:induction false} RoundStops(c: Plan, i: nat, k: nat, j: nat)
    requires i < |c.weights| && k < Levels(c) && j <= |c.weights|
    ensures Count(StopOn(c, i), k * |c.weights|, j) == if i < j && c.weights[i] >= (k + 1) * c.gcd then 1 else 0
    decreases j
  {
    if j > 0 {
      var n := |c.weights|;
      RoundStops(c, i, k, j - 1);
      RoundScans(c, k, j - 1);
      assert k * n + (j - 1) == k * n + j - 1;
    }
  }

  lemma Reaches(w: nat, g: nat, k: nat)
    requires g > 0
    ensures w >= k * g <==> w / g >= k
  {
    if w / g >= k {
      Monotone(k, w / g, g);
    } else {
      Monotone(w / g + 1, k, g);
    }
  }

  /** The calls per cycle that index i is entitled to. */
  ghost function Quota(c: Plan, i: nat): (q: nat)
    requires i < |c.weights|
  {
    c.weights[i] / c.gcd
  }

  /** After k full rounds index i has been returned once per threshold it reaches. */
  lemma {:induction false} RoundsStops(c: Plan, i: nat, k: nat)
    requires i < |c.weights| && k <= Levels(c)
    ensures Count(StopOn(c, i), 0, k * |c.weights|) == if k <= Quota(c, i) then k else Quota(c, i)
    decreases k
  {
    hide StopOn, At, Levels;
    if k == 0 {
      assert k * |c.weights| == 0;
    } else {
      Reaches(c.weights[i], c.gcd, k);
      hide Count, Quota;
      var n := |c.weights|;
      var start := (k - 1) * n;
      RoundsStops(c, i, k - 1);
      assert k * n == start + n;
      CountSplit(StopOn(c, i), 0, start, n);
      RoundStops(c, i, k - 1, n);
    }
  }

  lemma PeriodStopsOn(c: Plan, i: nat, a: nat)
    requires i < |c.weights|
    ensures Count(StopOn(c, i), a, Period(c)) == Quota(c, i)
  {
    StopsRepeat(c, i);
    WindowMoves(StopOn(c, i), Period(c), a);
    RoundsStops(c, i, Levels(c));
    Reaches(c.weights[i], c.gcd, Levels(c) + 1);
    assert (Levels(c) + 1) * c.gcd == c.max + c.gcd;
  }

  function Sum(s: seq<nat>): nat {
    if s == [] then 0 else Sum(s[..|s| - 1]) + s[|s| - 1]
  }

  ghost function StopsBelow(c: Plan, j: nat): nat -> bool {
    (p: nat) => StopsAt(c, At(c, p)) && At(c, p).index < j
  }

  lemma OneMoreIndex(c: Plan, j: nat, a: nat, len: nat)
    ensures Count(StopsBelow(c, j + 1), a, len) == Count(StopsBelow(c, j), a, len) + Count(StopOn(c, j), a, len)
  {
    hide Count, At;
    CountJoins(StopsBelow(c, j + 1), StopsBelow(c, j), StopOn(c, j), a, len);
  }

  lemma {:induction false} PeriodStopsBelow(c: Plan, j: nat, a: nat)
    requires j <= |c.weights|
    ensures Divides(c.gcd, Sum(c.weights[..j]))
    ensures Count(StopsBelow(c, j), a, Period(c)) == Sum(c.weights[..j]) / c.gcd
    decreases j
  {
    hide Count, At, StopsAt;
    if j == 0 {
      CountNone(StopsBelow(c, j), a, Period(c));
    } else {
      hide Divides, StopsBelow, StopOn;
      PeriodStopsBelow(c, j - 1, a);
      PeriodStopsOn(c, j - 1, a);
      OneMoreIndex(c, j - 1, a, Period(c));
      SumStep(c, j - 1);
    }
  }

  lemma SumStep(c: Plan, j: nat)
    requires j < |c.weights| && Divides(c.gcd, Sum(c.weights[..j]))
    ensures Divides(c.gcd, Sum(c.weights[..j + 1]))
    ensures Sum(c.weights[..j + 1]) / c.gcd == Sum(c.weights[..j]) / c.gcd + c.weights[j] / c.gcd
  {
    assert c.weights[..j + 1][..j] == c.weights[..j];
    var x := Multiple(c.gcd, Sum(c.weights[..j]));
    var y := Multiple(c.gcd, c.weights[j]);
    assert Sum(c.weights[..j + 1]) == (x + y) * c.gcd;
    MultipleDivides(c.gcd, x + y);
    MultipleDivides(c.gcd, x);
    MultipleDivides(c.gcd, y);
  }

  // ---------- Fairness ----------

  /** The number of calls in one fair cycle. */
  ghost function Cycle(c: Plan): (s: nat) {
    Sum(c.weights) / c.gcd
  }

  lemma PeriodHasCycle(c: Plan, a: nat)
    ensures Count(Stop(c), a, Period(c)) == Cycle(c) && Divides(c.gcd, Sum(c.weights))
  {
    PeriodStopsBelow(c, |c.weights|, a);
    SameCount(Stop(c), StopsBelow(c, |c.weights|), a, Period(c));
    assert c.weights[..|c.weights|] == c.weights;
  }

  /** Exact fairness: from any position, the next sum / gcd calls return index i exactly
      weight / gcd times, with nothing lost to either division; if the scheduler stood on an index
      it had returned, they bring index and threshold back to where they were. */
  lemma ExactlyFair(c: Plan, p: nat, i: nat)
    requires i < |c.weights|
    ensures Divides(c.gcd, c.weights[i]) && Divides(c.gcd, Sum(c.weights))
    ensures Visits(Next(c), StopOn(c, i), Cycle(c), p) == c.weights[i] / c.gcd
    ensures Stop(c)(p) ==> var r := After(Next(c), Cycle(c), p); r == p + Period(c) && At(c, r) == At(c, p)
  {
    hide Count, At, Next, After, Visits;
    assert forall q :: StopOn(c, i)(q) ==> Stop(c)(q);
    hide Stop, StopOn, StopsAt;
    NextStops(c);
    PeriodHasCycle(c, p + 1);
    CallsFollowStops(Stop(c), Next(c), p, Period(c));
    VisitsAreCounted(Stop(c), Next(c), StopOn(c, i), p, Period(c));
    PeriodStopsOn(c, i, p + 1);
    Periodic(c, p);
  }

  /** The sequence of answers repeats with that cycle, from any position at all. */
  lemma AnswersRepeat(c: Plan, p: nat, k: nat)
    ensures At(c, After(Next(c), k + 1 + Cycle(c), p)) == At(c, After(Next(c), k + 1, p))
  {
    hide Count, Stop, Next, After, At;
    NextStops(c);
    StopsRepeat(c, 0);
    PeriodHasCycle(c, 0);
    CallsRepeat(Stop(c), Next(c), Period(c), k, p);
    Periodic(c, After(Next(c), k + 1, p));
  }

  /** The sum cw + gcd is formed only when the index wraps. None of these sums leaves the range of
      an int exactly when the largest weight and the gcd together stay in it. */
  lemma NoOverflowIff(c: Plan)
    ensures (forall p: nat :: At(c, p + 1).index == 0 ==> At(c, p).cw + c.gcd <= INT_MAX)
            <==> c.max + c.gcd <= INT_MAX
  {
    var n, k := |c.weights|, Levels(c);
    RoundScans(c, k - 1, n - 1);
    var p := (k - 1) * n + (n - 1);
    AdvanceAt(c, p);
    assert At(c, p).cw == c.max && At(c, p + 1).index == 0;
  }

  // ---------- What is stored between calls ----------

  /** The index answered last and the threshold, an int that wraps. */
  datatype Stored = Stored(index: nat, cw: int)

  /** Weights and their number fit an int. */
  ghost predicate InInts(c: Config) {
    c.max <= INT_MAX && |c.weights| <= INT_MAX
  }

  /** One iteration of the loop. */
  function Iterated(c: Config, s: Stored): (s': Stored)
    requires |c.weights| > 0
    ensures s'.index == (s.index + 1) % WORD % |c.weights|
    ensures s.cw <= c.max && c.gcd <= c.max ==> s'.cw <= c.max
  {
    var index := (s.index + 1) % WORD % |c.weights|;
    if index != 0 && s.cw != 0 then Stored(index, s.cw)
    else
      var sum := Int32(s.cw + c.gcd);
      Stored(index, if sum > c.max then c.gcd else sum)
  }

  /** In plain numbers: the index moves to the next one, or from the last to the first; the threshold stays
      while the index is in its round, and otherwise grows by the divisor, starting again above the maximum
      and turning negative where the sum leaves an int. */
  lemma IteratedMeans(c: Config, s: Stored)
    requires 0 < |c.weights| <= 0x7FFF_FFFF && s.index < |c.weights| && c.max <= 0x7FFF_FFFF
    requires -0x8000_0000 <= s.cw <= c.max && 0 < c.gcd <= c.max
    ensures var s', sum := Iterated(c, s), s.cw + c.gcd;
      && s'.index == (if s.index + 1 < |c.weights| then s.index + 1 else 0)
      && s'.cw == if s'.index != 0 && s.cw != 0 then s.cw
                  else if sum > 0x7FFF_FFFF then sum - 0x1_0000_0000
                  else if sum > c.max then c.gcd
                  else sum
  {
    NextIndex(s.index, |c.weights|);
    SumWraps(s.cw + c.gcd);
    hide Int32;
  }

  lemma SumWraps(x: int)
    requires -0x8000_0000 <= x <= 0xFFFF_FFFE
    ensures Int32(x) == if x > 0x7FFF_FFFF then x - 0x1_0000_0000 else x
  {
  }

  lemma NextIndex(index: nat, n: nat)
    requires index < n <= INT_MAX
    ensures (index + 1) % WORD % n == if index + 1 < n then index + 1 else 0
  {
    QuotientUnique(index + 1, WORD, 0, index + 1);
    if index + 1 < n {
      QuotientUnique(index + 1, n, 0, index + 1);
    } else {
      QuotientUnique(index + 1, n, 1, 0);
    }
  }

  lemma GcdBelowMax(c: Plan)
    ensures c.gcd <= c.max
  {
    Monotone(1, Levels(c), c.gcd);
  }

  /** An iteration that meets no threshold brings the scan closer to the heaviest index, whatever the
      threshold has wrapped to. */
  lemma IterationCloser(c: Plan, s: Stored)
    requires InInts(c) && s.cw <= c.max && s.index < |c.weights| && c.weights[s.index] < s.cw
    ensures Iterated(c, s).cw <= c.max
    ensures Distance(c, Iterated(c, s).index) < Distance(c, s.index)
  {
    GcdBelowMax(c);
    NextIndex(s.index, |c.weights|);
  }

  /** What is stored after a call: the result of the first iteration that meets its threshold. */
  ghost function Answered(c: Plan, s: Stored): (r: Stored)
    requires InInts(c) && s.cw <= c.max
    ensures r.index < |c.weights| && r.cw <= c.weights[r.index] <= c.max
    decreases Distance(c, (s.index + 1) % WORD % |c.weights|)
  {
    var s' := Iterated(c, s);
    GcdBelowMax(c);
    if c.weights[s'.index] >= s'.cw then s'
    else
      IterationCloser(c, s');
      Answered(c, s')
  }

  lemma AnsweredStep(c: Plan, s: Stored)
    requires InInts(c) && s.cw <= c.max
    ensures Iterated(c, s).cw <= c.max
    ensures var s' := Iterated(c, s);
      if c.weights[s'.index] >= s'.cw then Answered(c, s) == s'
      else Answered(c, s) == Answered(c, s') && Distance(c, Iterated(c, s').index) < Distance(c, s'.index)
  {
    hide Distance;
    GcdBelowMax(c);
    if c.weights[Iterated(c, s).index] < Iterated(c, s).cw {
      IterationCloser(c, Iterated(c, s));
    }
  }

  /** What is stored after k calls. */
  ghost function Calls(c: Plan, k: nat, s: Stored): (r: Stored)
    requires InInts(c) && s.cw <= c.max
    ensures r.cw <= c.max
  {
    if k == 0 then s else Answered(c, Calls(c, k - 1, s))
  }

  lemma NoCall(c: Plan, s: Stored)
    requires InInts(c) && s.cw <= c.max
    ensures Calls(c, 0, s) == s
  {
  }

  lemma NextCall(c: Plan, k: nat, s: Stored)
    requires InInts(c) && s.cw <= c.max && k > 0
    ensures Calls(c, k, s) == Answered(c, Calls(c, k - 1, s))
  {
  }

  /** How many of k calls answered i. */
  ghost function Returned(c: Plan, i: nat, k: nat, s: Stored): nat
    requires InInts(c) && s.cw <= c.max
  {
    if k == 0 then 0 else Returned(c, i, k - 1, s) + if Calls(c, k, s).index == i then 1 else 0
  }

  // ---------- The schedule it follows ----------

  /** What is stored stands at position p. A freshly configured action has cw == 0; the first iteration
      then starts the lowest threshold at the next index, so it counts as standing just before that. */
  ghost predicate Stands(c: Plan, p: nat, s: Stored) {
    if s.cw == 0 then At(c, p + 1) == Scan((s.index + 1) % WORD % |c.weights|, c.gcd)
    else s.cw > 0 && At(c, p) == Scan(s.index, s.cw)
  }

  /** Sums of threshold and gcd fit an int. */
  ghost predicate SumsFit(c: Config) {
    c.max + c.gcd <= INT_MAX && |c.weights| <= INT_MAX
  }

  lemma IterationAdvances(c: Plan, p: nat, s: Stored)
    requires Stands(c, p, s) && SumsFit(c)
    ensures var s' := Iterated(c, s);
      Stands(c, p + 1, s') && s'.cw > 0 && At(c, p + 1) == Scan(s'.index, s'.cw)
  {
    assert c.gcd > 0;
    GcdBelowMax(c);
    hide At, Levels, Ok;
    if s.cw > 0 {
      AdvanceAt(c, p);
      NextIndex(s.index, |c.weights|);
      SumIsInt(s.cw + c.gcd);
    } else {
      SumIsInt(c.gcd);
    }
  }

  lemma SumIsInt(x: nat)
    requires x <= INT_MAX
    ensures Int32(x) == x
  {
    QuotientUnique(x, WORD, 0, x);
  }

  /** r stands on the next stop q of the schedule after p. */
  ghost predicate OnNextStop(c: Plan, p: nat, q: nat, r: Stored) {
    r.cw > 0 && q == NextStop(c, p) <= p + |c.weights| && At(c, q) == Scan(r.index, r.cw)
  }

  lemma StoredBounded(c: Plan, p: nat, s: Stored)
    requires Stands(c, p, s)
    ensures 0 <= s.cw <= c.max
  {
  }

  /** A call goes to the next stop of the schedule. */
  lemma {:induction false} AnsweredIsNextStop(c: Plan, p: nat, s: Stored)
    requires Stands(c, p, s) && SumsFit(c)
    ensures s.cw <= c.max
    ensures var r := Answered(c, s); Stands(c, NextStop(c, p), r) && r.cw > 0 && At(c, NextStop(c, p)) == Scan(r.index, r.cw)
    decreases Distance(c, At(c, p + 1).index)
  {
    StoredBounded(c, p, s);
    hide At, Stands, Distance, NextStop, Iterated;
    IterationAdvances(c, p, s);
    NextStopStep(c, p);
    if !StopsAt(c, At(c, p + 1)) {
      AnsweredIsNextStop(c, p + 1, Iterated(c, s));
    }
  }

  /** From the first call on, what is stored is the position of the schedule that the calls reach. */
  ghost predicate StoredAt(c: Plan, p: nat, s: Stored) {
    s.cw > 0 && At(c, p) == Scan(s.index, s.cw) && Stop(c)(p)
  }

  lemma AnsweredStops(c: Plan, p: nat, s: Stored)
    requires Stands(c, p, s) && SumsFit(c)
    ensures s.cw <= c.max && StoredAt(c, Next(c)(p), Answered(c, s)) && Stands(c, Next(c)(p), Answered(c, s))
  {
    StoredBounded(c, p, s);
    hide At, Stands, Answered;
    AnsweredIsNextStop(c, p, s);
    NextStopIsFirst(c, p, NextStop(c, p));
  }

  lemma NextAnswer(c: Plan, p: nat, s: Stored)
    requires InInts(c) && s.cw <= c.max && (SumsFit(c) ==> Stands(c, p, s))
    ensures var r, q := Answered(c, s), NextStop(c, p); SumsFit(c) ==> Stands(c, q, r) && OnNextStop(c, p, q, r)
  {
    hide At, NextStop, Stands, Answered;
    if SumsFit(c) {
      AnsweredIsNextStop(c, p, s);
    }
  }

  lemma {:induction false} CallsFollow(c: Plan, p: nat, s: Stored, k: nat)
    requires Stands(c, p, s) && SumsFit(c) && s.cw <= c.max
    ensures Stands(c, After(Next(c), k, p), Calls(c, k, s))
    ensures k > 0 ==> StoredAt(c, After(Next(c), k, p), Calls(c, k, s))
    decreases k
  {
    hide Stands, Answered, StoredAt, Next, Ok;
    if k > 0 {
      CallsFollow(c, p, s, k - 1);
      AnsweredStops(c, After(Next(c), k - 1, p), Calls(c, k - 1, s));
    }
  }

  lemma StopsOnIndex(c: Plan, i: nat, p: nat, s: Stored)
    requires StoredAt(c, p, s)
    ensures StopOn(c, i)(p) <==> s.index == i
  {
  }

  lemma {:induction false} ReturnedAreVisits(c: Plan, p: nat, s: Stored, i: nat, k: nat)
    requires Stands(c, p, s) && SumsFit(c) && s.cw <= c.max
    ensures Returned(c, i, k, s) == Visits(Next(c), StopOn(c, i), k, p)
    decreases k
  {
    hide Stands, Answered, StoredAt, Next, Ok, StopOn;
    if k > 0 {
      ReturnedAreVisits(c, p, s, i, k - 1);
      CallsFollow(c, p, s, k);
      StopsOnIndex(c, i, After(Next(c), k, p), Calls(c, k, s));
    }
  }

  /** The stored scheduler is exactly fair: in the next sum / gcd calls index i is answered weight / gcd
      times; standing on an answered index, what is stored then is what was stored before. */
  lemma FairAnswers(c: Plan, p: nat, s: Stored, i: nat)
    requires Stands(c, p, s) && SumsFit(c) && i < |c.weights|
    ensures s.cw <= c.max
    ensures Returned(c, i, Cycle(c), s) == Quota(c, i)
    ensures 0 < s.cw <= c.weights[At(c, p).index] ==> Calls(c, Cycle(c), s) == s
  {
    StoredBounded(c, p, s);
    CallsFollow(c, p, s, Cycle(c));
    ReturnedAreVisits(c, p, s, i, Cycle(c));
    ExactlyFair(c, p, i);
    hide At, Calls, Returned, After, Visits;
    if 0 < s.cw <= c.weights[At(c, p).index] {
      CycleNotEmpty(c);
    }
  }

  lemma CycleNotEmpty(c: Plan)
    ensures Cycle(c) > 0
  {
    PeriodHasCycle(c, 0);
    var q := Multiple(c.gcd, Sum(c.weights));
    MultipleDivides(c.gcd, q);
    assert Sum(c.weights) >= c.weights[|c.weights| - 1] > 0;
  }

  /** A position just before the lowest threshold starts at the next index. */
  ghost function StartPos(c: Plan, index: nat): nat {
    Period(c) + (index + 1) % WORD % |c.weights| - 1
  }

  /** A freshly configured action stands there, whatever its index. */
  lemma FreshStands(c: Plan, index: nat)
    ensures Stands(c, StartPos(c, index), Stored(index, 0))
  {
    var i := (index + 1) % WORD % |c.weights|;
    RoundScans(c, 0, i);
    assert 0 * |c.weights| + i == i && (0 + 1) * c.gcd == c.gcd;
    Periodic(c, i);
  }

  // ---------- Taking turns ----------

  /** Position p is index i's turn. */
  ghost function Turn(n: nat, i: nat): nat -> bool
    requires n > 0
  {
    (p: nat) => p % n == i
  }

  lemma NextTurn(n: nat, p: nat)
    requires n > 0
    ensures (p + 1) % n == if p % n + 1 < n then p % n + 1 else 0
    ensures (p + n) % n == p % n
  {
    var q, r := p / n, p % n;
    assert p == q * n + r && (q + 1) * n == q * n + n;
    if r + 1 < n {
      QuotientUnique(p + 1, n, q, r + 1);
    } else {
      QuotientUnique(p + 1, n, q + 1, 0);
    }
    QuotientUnique(p + n, n, q + 1, r);
  }

  lemma {:induction false} FirstTurns(n: nat, i: nat, len: nat)
    requires i < n && len <= n
    ensures Count(Turn(n, i), 0, len) == if i < len then 1 else 0
    decreases len
  {
    if len > 0 {
      FirstTurns(n, i, len - 1);
      QuotientUnique(len - 1, n, 0, len - 1);
    }
  }

  /** Wherever a round starts, each index has one turn in it. */
  lemma RoundTurns(n: nat, i: nat, a: nat)
    requires i < n
    ensures Count(Turn(n, i), a, n) == 1
  {
    forall p: nat ensures SameLater(Turn(n, i), n, p) {
      NextTurn(n, p);
    }
    WindowMoves(Turn(n, i), n, a);
    FirstTurns(n, i, n);
  }

  lemma {:induction false} RoundsTurns(n: nat, i: nat, a: nat, k: nat, len: nat)
    requires i < n && len == k * n
    ensures Count(Turn(n, i), a, len) == k
    decreases k
  {
    if k > 0 {
      OneRoundLess(n, k, len);
      RoundsTurns(n, i, a, k - 1, len - n);
      RoundTurns(n, i, a + (len - n));
      CountSplit(Turn(n, i), a, len - n, n);
    }
  }

  lemma OneRoundLess(n: nat, k: nat, len: nat)
    requires k > 0 && len == k * n
    ensures len - n == (k - 1) * n >= 0
  {
  }

  ghost predicate InTurn(c: Plan, s: Stored, a: nat, m: nat)
    requires InInts(c) && s.cw <= c.max && m > 0
  {
    Calls(c, m, s).index == (a + m - 1) % |c.weights|
  }

  lemma {:induction false} ReturnedInTurn(c: Plan, s: Stored, a: nat, i: nat, len: nat)
    requires InInts(c) && s.cw <= c.max && forall m :: 0 < m <= len ==> InTurn(c, s, a, m)
    ensures Returned(c, i, len, s) == Count(Turn(|c.weights|, i), a, len)
    decreases len
  {
    hide Calls;
    if len > 0 {
      ReturnedInTurn(c, s, a, i, len - 1);
      assert InTurn(c, s, a, len);
    }
  }

  ghost predicate AllEqual(c: Plan) {
    forall i :: 0 <= i < |c.weights| ==> c.weights[i] == c.max
  }

  lemma EqualAnswer(c: Plan, s: Stored)
    requires InInts(c) && s.cw <= c.max && AllEqual(c)
    ensures Answered(c, s).index == (s.index + 1) % WORD % |c.weights|
  {
    AnsweredStep(c, s);
  }

  /** Equal weights meet every threshold, so the indices take turns, whatever the threshold wraps to. */
  lemma {:induction false} EqualTurns(c: Plan, s: Stored, a: nat, m: nat)
    requires InInts(c) && s.cw <= c.max && AllEqual(c) && m > 0
    requires a == (s.index + 1) % WORD % |c.weights|
    ensures InTurn(c, s, a, m)
    decreases m
  {
    var n, before := |c.weights|, Calls(c, m - 1, s);
    hide Answered, Calls, AllEqual;
    NextCall(c, m, s);
    EqualAnswer(c, before);
    if m == 1 {
      NoCall(c, s);
      QuotientUnique(a, n, 0, a);
    } else {
      EqualTurns(c, s, a, m - 1);
      NextTurn(n, a + m - 2);
      NextIndex(before.index, n);
    }
  }

  lemma {:induction false} SumEqual(c: Plan, k: nat)
    requires AllEqual(c) && k <= |c.weights|
    ensures Sum(c.weights[..k]) == k * c.max
    decreases k
  {
    if k > 0 {
      SumEqual(c, k - 1);
      assert c.weights[..k][..k - 1] == c.weights[..k - 1];
    }
  }

  /** So equal weights are served exactly, from whatever is stored. */
  lemma EqualIsFair(c: Plan, s: Stored, i: nat)
    requires InInts(c) && s.cw <= c.max && AllEqual(c) && i < |c.weights|
    ensures Returned(c, i, Cycle(c), s) == Quota(c, i)
  {
    var n, a, k := |c.weights|, (s.index + 1) % WORD % |c.weights|, Levels(c);
    SumEqual(c, n);
    assert c.weights[..n] == c.weights;
    assert n * (k * c.gcd) == (k * n) * c.gcd;
    MultipleDivides(c.gcd, k * n);
    MultipleDivides(c.gcd, k);
    forall m | 0 < m <= k * n ensures InTurn(c, s, a, m) {
      EqualTurns(c, s, a, m);
    }
    hide Calls, InTurn, Returned;
    ReturnedInTurn(c, s, a, i, k * n);
    RoundsTurns(n, i, a, k, k * n);
  }

  // ---------- When the threshold wraps ----------

  ghost function Iterations(c: Plan, k: nat, s: Stored): (r: Stored) {
    if k == 0 then s else Iterated(c, Iterations(c, k - 1, s))
  }

  /** After k iterations from the start of the schedule what is stored is its position k. */
  ghost predicate Follows(c: Plan, k: nat) {
    Iterations(c, k, Stored(0, c.gcd)) == Stored(At(c, k).index, At(c, k).cw)
  }

  /** What is stored follows the schedule for ever exactly when the largest weight and the gcd together
      fit an int: otherwise the sum at the end of the last round wraps to a negative threshold. */
  lemma FollowsScheduleIff(c: Plan)
    requires InInts(c)
    ensures (forall k: nat :: Follows(c, k)) <==> SumsFit(c)
  {
    if SumsFit(c) {
      forall k: nat ensures Follows(c, k) {
        FollowsOn(c, k);
      }
    } else if Follows(c, Period(c) - 1) {
      LeavesSchedule(c);
    }
  }

  lemma {:induction false} FollowsOn(c: Plan, k: nat)
    requires SumsFit(c)
    ensures Follows(c, k)
    decreases k
  {
    if k == 0 {
      ScanStarts(c);
    } else {
      FollowsOn(c, k - 1);
      hide At, Iterated;
      IterationAdvances(c, k - 1, Iterations(c, k - 1, Stored(0, c.gcd)));
    }
  }

  lemma LeavesSchedule(c: Plan)
    requires InInts(c) && !SumsFit(c) && Follows(c, Period(c) - 1)
    ensures !Follows(c, Period(c))
  {
    LastOfPeriod(c);
    WrapsTo(c);
    hide At, Iterated;
  }

  lemma LastOfPeriod(c: Plan)
    ensures At(c, Period(c) - 1) == Scan(|c.weights| - 1, c.max)
  {
    var n, k := |c.weights|, Levels(c);
    RoundScans(c, k - 1, n - 1);
    hide At, Levels;
    assert (k - 1) * n == k * n - n;
  }

  /** What is stored after the last round of the schedule when the next threshold wraps. */
  function Wrapped(c: Config): Stored {
    Stored(0, c.max + c.gcd - WORD)
  }

  lemma WrapsTo(c: Plan)
    requires InInts(c) && !SumsFit(c)
    ensures Iterated(c, Stored(|c.weights| - 1, c.max)) == Wrapped(c)
    ensures -INT_MAX - 1 <= Wrapped(c).cw < 0
  {
    GcdBelowMax(c);
    NextIndex(|c.weights| - 1, |c.weights|);
    QuotientUnique(c.max + c.gcd, WORD, 0, c.max + c.gcd);
  }

  // ---------- The class ----------

  lemma PositiveIsOk(weights: seq<int>, gcd: int, mw: int)
    requires |weights| > 0 && AllPositive(weights) && AllInts(weights) && gcd > 0
    requires IsMax(mw, weights) && IsGcdOf(Magnitude(gcd), Magnitudes(weights))
    ensures 0 < mw <= INT_MAX && Ok(Config(weights, gcd, mw))
  {
    assert Magnitudes(weights) == weights;
  }

  class Balancer {
    var weights: seq<int>
    var cw: int
    var gcd: int
    var mw: int
    var index: nat
    ghost var pos: nat

    /** The stored weights are positive, and so are their divisor and maximum. */
    ghost predicate Positive()
      reads this
    {
      AllPositive(weights) && gcd > 0 && mw > 0
    }

    ghost function Configured(): (c: Config)
      requires Positive()
      reads this
    {
      Config(weights, gcd, mw)
    }

    ghost function State(): Stored
      reads this
    {
      Stored(index, cw)
    }

    ghost predicate Valid()
      reads this
    {
      && Positive() && Ok(Configured()) && InInts(Configured()) && cw <= mw
      && (SumsFit(Configured()) ==> Stands(Configured(), pos, State()))
    }

    /** put_action_config, for all C ints: the weights are copied, the threshold is reset, gcd and maximum
        computed; the index keeps whatever the copied action holds. The process ends in a division by 0
        exactly when a first weight of 0 is followed by another. Positive weights give a scheduler in order. */
    method PutAction(newWeights: seq<int>, newIndex: nat) returns (r: Division)
      requires 0 < |newWeights| <= INT_MAX && AllInts(newWeights) && newIndex < WORD
      modifies this
      ensures weights == newWeights && cw == 0 && index == newIndex
      ensures r.ByZero? <==> |weights| > 1 && weights[0] == 0
      ensures r.Overflow? ==> -INT_MAX - 1 in weights
      ensures r.Value? ==> gcd == r.divisor && IsMax(mw, weights)
      ensures r.Value? ==> if weights[0] == 0 then gcd == 0 else IsGcdOf(Magnitude(gcd), Magnitudes(weights))
      ensures AllPositive(weights) ==> r.Value? && Valid()
    {
      weights := newWeights;
      index := newIndex;
      cw := 0;
      r, mw := WeightCalcMax(weights);
      if r.Value? {
        gcd := r.divisor;
      }
      if AllPositive(weights) {
        PositiveIsOk(weights, gcd, mw);
        hide Stands, Ok, IsMax, IsGcdOf;
        FreshStands(Configured(), index);
        pos := StartPos(Configured(), index);
      }
    }

    /** The next index; where it wraps, or when the threshold is 0, the next threshold. */
    method Iterate()
      requires |weights| > 0 && Positive()
      modifies `cw, `index
      ensures Positive() && State() == Iterated(Configured(), old(State()))
    {
      index := (index + 1) % WORD % |weights|;
      if index == 0 || cw == 0 {
        cw := Int32(cw + gcd);
        if cw > mw {
          cw := gcd;
        }
      }
    }

    /** load_balance_get_weight_index: always ends, on an index whose weight meets the stored threshold.
        While sums fit an int that is the next stop of the schedule, at most one round on. */
    method GetWeightIndex() returns (r: nat)
      requires Valid()
      modifies `cw, `index, `pos
      ensures Valid() && r == index < |weights| && cw <= weights[index]
      ensures State() == Answered(Configured(), old(State()))
      ensures SumsFit(Configured()) ==> OnNextStop(Configured(), old(pos), pos, State())
    {
      ghost var c: Plan, stop := Configured(), NextStop(Configured(), pos);
      ghost var end := Answered(c, State());
      NextAnswer(c, pos, State());
      hide NextStop, Distance, Stands, Ok, Answered, Iterated, SumsFit, OnNextStop;
      while true
        invariant Positive() && Configured() == c && cw <= mw && Answered(c, State()) == end
        decreases Distance(c, Iterated(c, State()).index)
      {
        AnsweredStep(c, State());
        Iterate();
        if weights[index] >= cw {
          pos := stop;
          return index;
        }
      }
    }

    /** Counts one more call. */
    method CountCall(counts: seq<nat>, ghost k: nat, ghost s: Stored) returns (more: seq<nat>)
      requires Valid() && s.cw <= mw
      requires CountsCalls(Configured(), counts, k, s) && State() == Calls(Configured(), k, s)
      modifies `cw, `index, `pos
      ensures Valid() && CountsCalls(Configured(), more, k + 1, s) && State() == Calls(Configured(), k + 1, s)
    {
      OneMoreCall(Configured(), counts, k, s);
      hide Answered, Stands, SumsFit, Ok, OnNextStop, CountsCalls;
      var r := GetWeightIndex();
      more := counts[r := counts[r] + 1];
    }

    /** As many calls as a fair cycle has: how often each index was answered. That is weight / gcd
        if sums fit an int or the weights are equal; while sums fit, a scheduler that had answered before is
        back where it was. */
    method ServeCycle() returns (counts: seq<nat>)
      requires Valid()
      modifies `cw, `index, `pos
      ensures Valid() && CountsCalls(Configured(), counts, Cycle(Configured()), old(State()))
      ensures SumsFit(Configured()) || AllEqual(Configured()) ==> FairCounts(Configured(), counts)
      ensures SumsFit(Configured()) && old(index < |weights| && 0 < cw <= weights[index]) ==> State() == old(State())
    {
      ghost var c: Plan, s, p := Configured(), State(), pos;
      counts := seq(|weights|, _ => 0);
      assert CountsCalls(c, counts, 0, s) && Calls(c, 0, s) == s;
      hide Stands, SumsFit, AllEqual, Ok, CountsCalls, FairCounts, Cycle;
      for k := 0 to Sum(weights) / gcd
        invariant Valid() && Configured() == c && State() == Calls(c, k, s)
        invariant CountsCalls(c, counts, k, s)
      {
        counts := CountCall(counts, k, s);
      }
      CountedIsFair(c, counts, p, s);
    }
  }

  /** Each index has been answered as often as counts says in k calls. */
  ghost predicate CountsCalls(c: Plan, counts: seq<nat>, k: nat, s: Stored)
    requires InInts(c) && s.cw <= c.max
  {
    |counts| == |c.weights| && forall i :: 0 <= i < |counts| ==> counts[i] == Returned(c, i, k, s)
  }

  /** Every index has its exact share of a cycle. */
  ghost predicate FairCounts(c: Plan, counts: seq<nat>) {
    |counts| == |c.weights| && forall i :: 0 <= i < |counts| ==> counts[i] == c.weights[i] / c.gcd
  }

  lemma OneMoreCall(c: Plan, counts: seq<nat>, k: nat, s: Stored)
    requires InInts(c) && s.cw <= c.max && CountsCalls(c, counts, k, s)
    ensures Calls(c, k + 1, s) == Answered(c, Calls(c, k, s)) && |counts| == |c.weights|
    ensures var r := Calls(c, k + 1, s).index; CountsCalls(c, counts[r := counts[r] + 1], k + 1, s)
  {
    hide Answered;
  }

  lemma CountedIsFair(c: Plan, counts: seq<nat>, p: nat, s: Stored)
    requires InInts(c) && s.cw <= c.max && (SumsFit(c) ==> Stands(c, p, s))
    requires CountsCalls(c, counts, Sum(c.weights) / c.gcd, s)
    ensures CountsCalls(c, counts, Cycle(c), s) && (SumsFit(c) || AllEqual(c) ==> FairCounts(c, counts))
    ensures SumsFit(c) && s.index < |c.weights| && 0 < s.cw <= c.weights[s.index] ==> Calls(c, Cycle(c), s) == s
  {
    hide Returned, Calls, Sum;
    CycleIsFair(c, p, s);
  }

  lemma CycleIsFair(c: Plan, p: nat, s: Stored)
    requires InInts(c) && s.cw <= c.max && (SumsFit(c) ==> Stands(c, p, s))
    ensures SumsFit(c) || AllEqual(c) ==>
              forall i :: 0 <= i < |c.weights| ==> Returned(c, i, Cycle(c), s) == c.weights[i] / c.gcd
    ensures SumsFit(c) && s.index < |c.weights| && 0 < s.cw <= c.weights[s.index] ==> Calls(c, Cycle(c), s) == s
  {
    hide Returned, Calls, Cycle;
    if SumsFit(c) {
      forall i | 0 <= i < |c.weights|
        ensures Returned(c, i, Cycle(c), s) == c.weights[i] / c.gcd
      {
        FairAnswers(c, p, s, i);
      }
      FairAnswers(c, p, s, 0);
    } else if AllEqual(c) {
      forall i | 0 <= i < |c.weights|
        ensures Returned(c, i, Cycle(c), s) == c.weights[i] / c.gcd
      {
        EqualIsFair(c, s, i);
      }
    }
  }

  // ---------- Weights for which it is not fair ----------

  lemma AnswersNow(c: Plan, s: Stored, r: Stored)
    requires InInts(c) && s.cw <= c.max && Iterated(c, s) == r && c.weights[r.index] >= r.cw
    ensures Answered(c, s) == r
  {
    AnsweredStep(c, s);
  }

  lemma AnswersLater(c: Plan, s: Stored, s': Stored, r: Stored)
    requires InInts(c) && s.cw <= c.max && Iterated(c, s) == s' && c.weights[s'.index] < s'.cw
    requires Iterated(c, s') == r && c.weights[r.index] >= r.cw
    ensures Answered(c, s) == r
  {
    AnsweredStep(c, s);
    AnswersNow(c, s', r);
  }

  const WRAPPING: Config := Config([0x6000_0000, 0x2000_0000], 0x2000_0000, 0x6000_0000)

  lemma WrappingOk()
    ensures Ok(WRAPPING) && InInts(WRAPPING) && !SumsFit(WRAPPING)
  {
    var c := WRAPPING;
    forall i | 0 <= i < |c.weights| ensures Divides(c.gcd, c.weights[i]) {
    }
    assert c.weights[0] == c.max;
  }

  lemma WrappingStarts()
    ensures Ok(WRAPPING) && InInts(WRAPPING)
    ensures Calls(WRAPPING, 4, Stored(1, 0)) == Stored(0, 0x6000_0000) && Returned(WRAPPING, 1, 4, Stored(1, 0)) == 1
  {
    WrappingOk();
    var c: Plan, g, s := WRAPPING, 0x2000_0000, Stored(1, 0);
    hide Answered;
    AnswersNow(c, s, Stored(0, g));
    AnswersNow(c, Stored(0, g), Stored(1, g));
    AnswersNow(c, Stored(1, g), Stored(0, 2 * g));
    AnswersLater(c, Stored(0, 2 * g), Stored(1, 2 * g), Stored(0, 3 * g));
    hide Iterated;
    assert Calls(c, 1, s) == Stored(0, g) && Calls(c, 2, s) == Stored(1, g) && Calls(c, 3, s) == Stored(0, 2 * g);
  }

  lemma WrappingGoesOn()
    ensures Ok(WRAPPING) && InInts(WRAPPING) && Returned(WRAPPING, 1, 4, Stored(0, 0x6000_0000)) == 2
  {
    WrappingOk();
    var c: Plan, g, s := WRAPPING, 0x2000_0000, Stored(0, 0x6000_0000);
    hide Answered;
    AnswersLater(c, s, Stored(1, 3 * g), Stored(0, -4 * g));
    AnswersNow(c, Stored(0, -4 * g), Stored(1, -4 * g));
    AnswersNow(c, Stored(1, -4 * g), Stored(0, -3 * g));
    AnswersNow(c, Stored(0, -3 * g), Stored(1, -3 * g));
    hide Iterated;
    assert Calls(c, 1, s) == Stored(0, -4 * g) && Calls(c, 2, s) == Stored(1, -4 * g) && Calls(c, 3, s) == Stored(0, -3 * g);
  }

  /** With weights 3:1 times 2^29 the threshold wraps in the second cycle of four calls, and from there
      on the two indices take turns: index 1 is answered once in the first cycle and twice in the second. */
  lemma UnfairWhenWrapped()
    ensures Ok(WRAPPING) && InInts(WRAPPING) && Cycle(WRAPPING) == 4 && Quota(WRAPPING, 1) == 1
    ensures var first := Stored(1, 0); var second := Calls(WRAPPING, 4, first);
      Returned(WRAPPING, 1, 4, first) == 1 && Returned(WRAPPING, 1, 4, second) == 2
  {
    WrappingStarts();
    WrappingGoesOn();
    hide Returned, Calls;
    var w := WRAPPING.weights;
    assert Sum(w) == 0x8000_0000 by { assert w[..1] == [0x6000_0000] && w[..1][..0] == []; }
  }
}
