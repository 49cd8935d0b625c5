/** When the scheduler's answers are exactly fair for ever: the sums that wrap, and what the indices get
    from there on. */
module WrrFairness {
  import opened Words
  import opened Weights
  import opened Wrr

  // ---------- Calls in a row ----------

  lemma {:induction false} CallsAdd(c: Plan, j: nat, k: nat, s: Stored)
    requires InInts(c) && s.cw <= c.max
    ensures Calls(c, j + k, s) == Calls(c, k, Calls(c, j, s))
    decreases k
  {
    hide Answered;
    if k > 0 {
      CallsAdd(c, j, k - 1, s);
    }
  }

  lemma OneCall(c: Plan, s: Stored)
    requires InInts(c) && s.cw <= c.max
    ensures Calls(c, 1, s) == Answered(c, s)
  {
    hide Answered;
    assert Calls(c, 0, s) == s;
  }

  lemma {:induction false} SameCalls(c: Plan, k: nat, s: Stored, s': Stored)
    requires InInts(c) && s.cw <= c.max && s'.cw <= c.max && Answered(c, s) == Answered(c, s') && k > 0
    ensures Calls(c, k, s) == Calls(c, k, s')
    decreases k
  {
    hide Answered;
    if k == 1 {
      OneCall(c, s);
      OneCall(c, s');
    } else {
      SameCalls(c, k - 1, s, s');
    }
  }

  lemma WeightAtLeastGcd(c: Plan, i: nat)
    requires i < |c.weights|
    ensures c.gcd <= c.weights[i]
  {
    var q := Multiple(c.gcd, c.weights[i]);
    Monotone(1, q, c.gcd);
  }

  // ---------- Up to the first sum that wraps ----------

  /** Only the last round of the schedule ends with a sum beyond the largest weight. */
  lemma SumWithinMax(c: Plan, p: nat)
    requires p + 1 < Period(c) && At(c, p).index + 1 == |c.weights|
    ensures At(c, p).cw + c.gcd <= c.max
  {
    hide At;
    var n, k, j := |c.weights|, p / |c.weights|, p % |c.weights|;
    assert p == k * n + j;
    FactorLess(k, Levels(c), n);
    RoundScans(c, k, j);
    assert (k + 1) * n == p + 1;
    FactorLess(k + 1, Levels(c), n);
    Monotone(k + 2, Levels(c), c.gcd);
    assert (k + 1) * c.gcd + c.gcd == (k + 2) * c.gcd;
  }

  ghost function StoredFor(a: Scan): Stored {
    Stored(a.index, a.cw)
  }

  lemma IteratesWithinPeriod(c: Plan, p: nat)
    requires InInts(c) && p + 1 < Period(c)
    ensures Iterated(c, StoredFor(At(c, p))) == StoredFor(At(c, p + 1))
  {
    var a := At(c, p);
    AdvanceAt(c, p);
    assert c.gcd > 0;
    if a.index + 1 == |c.weights| {
      SumWithinMax(c, p);
      SumIsInt(a.cw + c.gcd);
    }
    hide At, Period;
    NextIndex(a.index, |c.weights|);
  }

  /** From any position of the schedule's first period the calls come to the wrapped threshold. */
  lemma {:induction false} ReachesWrapped(c: Plan, p: nat, s: Stored) returns (k: nat)
    requires InInts(c) && !SumsFit(c) && p < Period(c) && s == StoredFor(At(c, p))
    ensures k > 0 && s.cw <= c.max && Calls(c, k, s) == Wrapped(c)
    decreases Period(c) - p
  {
    var s' := Iterated(c, s);
    hide At, Period, Calls, Iterated, Answered;
    AnsweredStep(c, s);
    OneCall(c, s);
    if p + 1 == Period(c) {
      LastOfPeriod(c);
      WrapsTo(c);
      k := 1;
    } else {
      IteratesWithinPeriod(c, p);
      var rest := ReachesWrapped(c, p + 1, s');
      if c.weights[s'.index] >= s'.cw {
        CallsAdd(c, 1, rest, s);
        k := 1 + rest;
      } else {
        SameCalls(c, rest, s, s');
        k := rest;
      }
    }
  }

  /** So they do from a freshly configured action, whatever its index. */
  lemma FreshReachesWrapped(c: Plan, index: nat) returns (k: nat)
    requires InInts(c) && !SumsFit(c)
    ensures Calls(c, k, Stored(index, 0)) == Wrapped(c)
  {
    var s, j := Stored(index, 0), (index + 1) % WORD % |c.weights|;
    GcdBelowMax(c);
    SumIsInt(c.gcd);
    assert Iterated(c, s) == Stored(j, c.gcd);
    hide At, Calls, Iterated, Answered;
    RoundScans(c, 0, j);
    assert 0 * |c.weights| + j == j && (0 + 1) * c.gcd == c.gcd;
    WeightAtLeastGcd(c, j);
    AnsweredStep(c, s);
    OneCall(c, s);
    var rest := ReachesWrapped(c, j, Stored(j, c.gcd));
    CallsAdd(c, 1, rest, s);
    k := 1 + rest;
  }

  // ---------- From there on ----------

  /** The thresholds of the next rounds are no larger than the gcd, and negative before the last. */
  lemma StaysLow(c: Plan, r: nat)
    requires InInts(c) && !SumsFit(c) && r <= Levels(c)
    ensures Wrapped(c).cw <= Wrapped(c).cw + r * c.gcd < c.gcd
    ensures r < Levels(c) ==> Wrapped(c).cw + r * c.gcd < 0
  {
    Monotone(r, Levels(c), c.gcd);
    if r < Levels(c) {
      Monotone(r + 1, Levels(c), c.gcd);
      assert (r + 1) * c.gcd == r * c.gcd + c.gcd;
    }
  }

  /** What is stored at index j of round r after the wrap. */
  ghost predicate LowAt(c: Plan, r: nat, j: nat, s: Stored) {
    s.index == j && (s.cw == Wrapped(c).cw + r * c.gcd || (r == Levels(c) && s.cw == c.gcd))
  }

  lemma NextLow(c: Plan, r: nat, j: nat, s: Stored)
    requires InInts(c) && !SumsFit(c) && j + 1 < |c.weights| && r <= Levels(c) && LowAt(c, r, j, s)
    ensures LowAt(c, r, j + 1, Iterated(c, s))
  {
    StaysLow(c, r);
    GcdBelowMax(c);
    NextIndex(j, |c.weights|);
    SumIsInt(c.gcd);
    hide Levels, Wrapped;
  }

  lemma NextLowRound(c: Plan, r: nat, s: Stored)
    requires InInts(c) && !SumsFit(c) && r < Levels(c) && LowAt(c, r, |c.weights| - 1, s)
    ensures LowAt(c, r + 1, 0, Iterated(c, s))
  {
    StaysLow(c, r);
    StaysLow(c, r + 1);
    WrapsTo(c);
    GcdBelowMax(c);
    NextIndex(|c.weights| - 1, |c.weights|);
    assert (r + 1) * c.gcd == r * c.gcd + c.gcd;
    hide Levels, Wrapped;
    SmallSum(s.cw + c.gcd);
  }

  lemma SmallSum(x: int)
    requires -INT_MAX - 1 <= x <= INT_MAX
    ensures Int32(x) == x
  {
    if x < 0 {
      QuotientUnique(x + WORD, WORD, 0, x + WORD);
      assert x % WORD == (x + WORD) % WORD;
    } else {
      QuotientUnique(x, WORD, 0, x);
    }
  }

  lemma LowIsMet(c: Plan, r: nat, j: nat, s: Stored)
    requires InInts(c) && !SumsFit(c) && r <= Levels(c) && j < |c.weights| && LowAt(c, r, j, s)
    ensures s.index == j && s.cw <= c.weights[j]
  {
    StaysLow(c, r);
    WeightAtLeastGcd(c, j);
  }

  /** The next call answers the next index. */
  lemma NextLowAnswer(c: Plan, r: nat, j: nat, s: Stored)
    requires InInts(c) && !SumsFit(c) && s.cw <= c.max && j < |c.weights| && r <= Levels(c) && LowAt(c, r, j, s)
    ensures j + 1 < |c.weights| ==> LowAt(c, r, j + 1, Answered(c, s))
    ensures j + 1 == |c.weights| && r < Levels(c) ==> LowAt(c, r + 1, 0, Answered(c, s))
  {
    AnsweredStep(c, s);
    hide Levels, LowAt, Answered, Iterated;
    if j + 1 < |c.weights| {
      NextLow(c, r, j, s);
      LowIsMet(c, r, j + 1, Iterated(c, s));
    } else if r < Levels(c) {
      NextLowRound(c, r, s);
      LowIsMet(c, r + 1, 0, Iterated(c, s));
    }
  }

  /** For max/gcd + 1 rounds after the wrap the indices take turns. */
  lemma {:induction false} LowRounds(c: Plan, r: nat, j: nat, m: nat)
    requires InInts(c) && !SumsFit(c) && r <= Levels(c) && j < |c.weights| && m == r * |c.weights| + j
    requires Wrapped(c).cw <= c.max
    ensures LowAt(c, r, j, Calls(c, m, Wrapped(c)))
    decreases r, j
  {
    var n, w := |c.weights|, Wrapped(c);
    hide Levels, LowAt, Answered, Calls, Wrapped;
    if m > 0 {
      NextCall(c, m, w);
    }
    if j > 0 {
      LowRounds(c, r, j - 1, m - 1);
      NextLowAnswer(c, r, j - 1, Calls(c, m - 1, w));
    } else if r > 0 {
      OneRoundLess(n, r, m);
      LowRounds(c, r - 1, n - 1, m - 1);
      NextLowAnswer(c, r - 1, n - 1, Calls(c, m - 1, w));
    } else {
      assert m == 0;
      LowStarts(c);
      NoCall(c, w);
    }
  }

  lemma LowStarts(c: Plan)
    ensures LowAt(c, 0, 0, Wrapped(c))
  {
  }

  // ---------- Turns are not shares ----------

  /** Who has the first turn of a window has no fewer turns in it than anyone else. */
  lemma {:induction false} FirstInTurn(n: nat, i: nat, h: nat, a: nat, len: nat)
    requires i < n && h < n && a % n == i
    ensures Count(Turn(n, h), a, len) <= Count(Turn(n, i), a, len)
    decreases len
  {
    if len >= n {
      NextTurn(n, a);
      FirstInTurn(n, i, h, a + n, len - n);
      RoundTurns(n, i, a);
      RoundTurns(n, h, a);
      CountSplit(Turn(n, i), a, n, len - n);
      CountSplit(Turn(n, h), a, n, len - n);
    } else if len > 0 {
      RoundTurns(n, h, a);
      CountSplit(Turn(n, h), a, len, n - len);
      CountSplit(Turn(n, i), a, 1, len - 1);
      assert Count(Turn(n, i), a, 0) == 0;
    }
  }

  lemma {:induction false} SumBelow(c: Plan, light: nat, k: nat)
    requires light < |c.weights| && c.weights[light] < c.max && k <= |c.weights|
    ensures Sum(c.weights[..k]) + (if light < k then 1 else 0) <= k * c.max
    decreases k
  {
    if k > 0 {
      SumBelow(c, light, k - 1);
      assert c.weights[..k][..k - 1] == c.weights[..k - 1];
      assert k * c.max == (k - 1) * c.max + c.max;
    }
  }

  /** Unequal weights make a cycle shorter than max/gcd rounds. */
  lemma CycleBelow(c: Plan, light: nat)
    requires light < |c.weights| && c.weights[light] < c.max
    ensures Cycle(c) < Levels(c) * |c.weights|
  {
    var n, k := |c.weights|, Levels(c);
    SumBelow(c, light, n);
    assert c.weights[..n] == c.weights;
    hide Sum;
    Regroup(n, k, c.gcd);
    DivBelow(Sum(c.weights), n * k, c.gcd);
  }

  lemma LowTurn(c: Plan, p: nat)
    requires InInts(c) && !SumsFit(c) && p < (Levels(c) + 1) * |c.weights| && Wrapped(c).cw <= c.max
    ensures Calls(c, p, Wrapped(c)).index == p % |c.weights|
  {
    var n := |c.weights|;
    var r, j := p / n, p % n;
    assert p == r * n + j;
    hide Calls, Levels;
    FactorLess(r, Levels(c) + 1, n);
    LowRounds(c, r, j, p);
  }

  lemma LowInTurn(c: Plan, k: nat, s: Stored, m: nat)
    requires InInts(c) && !SumsFit(c) && m > 0 && k + m < (Levels(c) + 1) * |c.weights|
    requires s.cw <= c.max && Wrapped(c).cw <= c.max && s == Calls(c, k, Wrapped(c))
    ensures InTurn(c, s, k + 1, m)
  {
    hide Calls, Levels, Wrapped;
    CallsAdd(c, k, m, Wrapped(c));
    LowTurn(c, k + m);
  }

  /** In the turns after the wrap there is a window of one cycle in which a lighter index is answered no
      less often than the heaviest. */
  lemma UnfairAfterWrap(c: Plan, light: nat) returns (k: nat)
    requires InInts(c) && !SumsFit(c) && light < |c.weights| && c.weights[light] < c.max
    requires Wrapped(c).cw <= c.max
    ensures var s := Calls(c, k, Wrapped(c));
      Returned(c, Heaviest(c), Cycle(c), s) <= Returned(c, light, Cycle(c), s)
  {
    var n, h, len := |c.weights|, Heaviest(c), Cycle(c);
    k := if light > 0 then light - 1 else n - 1;
    var s := Calls(c, k, Wrapped(c));
    CycleBelow(c, light);
    hide Calls, Returned, Cycle, Heaviest, Levels, InTurn;
    assert (Levels(c) + 1) * n == Levels(c) * n + n;
    var a := k + 1;
    forall m | 0 < m <= len ensures InTurn(c, s, a, m) {
      LowInTurn(c, k, s, m);
    }
    ReturnedInTurn(c, s, a, light, len);
    ReturnedInTurn(c, s, a, h, len);
    if light > 0 {
      QuotientUnique(light, n, 0, light);
    } else {
      QuotientUnique(n, n, 1, 0);
    }
    FirstInTurn(n, light, h, a, len);
  }

  // ---------- The exact condition ----------

  /** In the cycle of calls that starts after k calls index i is answered its exact share. */
  ghost predicate FairWindow(c: Plan, s: Stored, k: nat, i: nat)
    requires InInts(c) && s.cw <= c.max && i < |c.weights|
  {
    Returned(c, i, Cycle(c), Calls(c, k, s)) == Quota(c, i)
  }

  ghost predicate FairForEver(c: Plan, s: Stored)
    requires InInts(c) && s.cw <= c.max
  {
    forall k: nat, i: nat :: i < |c.weights| ==> FairWindow(c, s, k, i)
  }

  lemma SumsFitIsFair(c: Plan, index: nat, k: nat, i: nat)
    requires InInts(c) && SumsFit(c) && i < |c.weights|
    ensures FairWindow(c, Stored(index, 0), k, i)
  {
    var p, s := StartPos(c, index), Stored(index, 0);
    FreshStands(c, index);
    hide Stands, Calls, Returned, After, StartPos;
    CallsFollow(c, p, s, k);
    FairAnswers(c, After(Next(c), k, p), Calls(c, k, s), i);
  }

  lemma QuotaBelow(c: Plan, light: nat)
    requires light < |c.weights| && c.weights[light] < c.max
    ensures Quota(c, light) < Quota(c, Heaviest(c))
  {
    var q := Multiple(c.gcd, c.weights[light]);
    MultipleDivides(c.gcd, q);
    MultipleDivides(c.gcd, Levels(c));
    if q >= Levels(c) {
      Monotone(Levels(c), q, c.gcd);
    }
  }

  lemma UnequalIsUnfair(c: Plan, index: nat)
    requires InInts(c) && !SumsFit(c) && !AllEqual(c)
    ensures !FairForEver(c, Stored(index, 0))
  {
    var light :| 0 <= light < |c.weights| && c.weights[light] != c.max;
    var h, s := Heaviest(c), Stored(index, 0);
    hide Calls, Returned, Cycle, Heaviest;
    var k := FreshReachesWrapped(c, index);
    var k' := UnfairAfterWrap(c, light);
    CallsAdd(c, k, k', s);
    QuotaBelow(c, light);
    hide Quota;
    assert !FairWindow(c, s, k + k', light) || !FairWindow(c, s, k + k', h);
  }

  /** A freshly configured action serves every index exactly its share in every cycle of calls, from any
      call on, exactly when the largest weight and the gcd together fit an int or all weights are equal. */
  lemma FairForEverIff(c: Plan, index: nat)
    requires InInts(c)
    ensures FairForEver(c, Stored(index, 0)) <==> SumsFit(c) || AllEqual(c)
  {
    if SumsFit(c) || AllEqual(c) {
      forall k: nat, i: nat | i < |c.weights| ensures FairWindow(c, Stored(index, 0), k, i) {
        if SumsFit(c) {
          SumsFitIsFair(c, index, k, i);
        } else {
          EqualIsFair(c, Calls(c, k, Stored(index, 0)), i);
        }
      }
    } else {
      UnequalIsUnfair(c, index);
    }
  }
}
