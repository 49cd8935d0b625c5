/** The registrations of shared-memory regions: a linked list that is split by memory type, has its
    configuration part sorted by name in place, and is joined again. */
module Registrations {
  import opened Words

  /** A region's name, without its terminator. */
  type Name = seq<Byte>

  const CONFIG: nat := 0
  const STAT: nat := 1
  const TYPE_COUNT: nat := 2

  /** What a registration says about its region. */
  datatype Entry = Entry(name: Name, memType: nat, len: Word)

  // ---------- Comparing names ----------

  /** strcmp: negative, zero or positive. */
  function Compare(a: Name, b: Name): int {
    if a == [] then (if b == [] then 0 else -1)
    else if b == [] then 1
    else if a[0] != b[0] then ByteDifference(a[0], b[0])
    else Compare(a[1..], b[1..])
  }

  function ByteDifference(a: int, b: int): int {
    a - b
  }

  lemma {:induction false} CompareEqual(a: Name, b: Name)
    ensures Compare(a, b) == 0 <==> a == b
    decreases |a|
  {
    if a != [] && b != [] && a[0] == b[0] {
      CompareEqual(a[1..], b[1..]);
      assert a == [a[0]] + a[1..] && b == [b[0]] + b[1..];
    }
  }

  lemma {:induction false} CompareFlips(a: Name, b: Name)
    ensures Compare(a, b) == -Compare(b, a)
    decreases |a|
  {
    if a != [] && b != [] && a[0] == b[0] {
      CompareFlips(a[1..], b[1..]);
    }
  }

  lemma Trichotomy(a: Name, b: Name)
    ensures a != b ==> Compare(a, b) < 0 || Compare(b, a) < 0
    ensures Compare(a, b) > 0 <==> Compare(b, a) < 0
  {
    CompareEqual(a, b);
    CompareFlips(a, b);
  }

  lemma {:induction false} LessChains(a: Name, b: Name, c: Name)
    requires Compare(a, b) < 0 && Compare(b, c) < 0
    ensures Compare(a, c) < 0
    decreases |a|
  {
    if a != [] && a[0] == b[0] && b[0] == c[0] {
      LessChains(a[1..], b[1..], c[1..]);
    }
  }

  /** Of two names the one with the smaller byte at the first difference comes first, and so does a name that
      goes on as the other one does until it ends. */
  lemma {:induction false} FirstDifferenceDecides(common: Name, a: Byte, b: Byte, s: Name, t: Name)
    ensures a < b ==> Compare(common + [a] + s, common + [b] + t) < 0
    ensures Compare(common, common + [b] + t) < 0
    decreases |common|
  {
    var x, y := common + [a] + s, common + [b] + t;
    if common == [] {
      assert x[0] == a && y[0] == b;
    } else {
      FirstDifferenceDecides(common[1..], a, b, s, t);
      assert x[1..] == common[1..] + [a] + s && y[1..] == common[1..] + [b] + t;
    }
  }

  ghost predicate Increasing(s: seq<Entry>) {
    forall i, j :: 0 <= i < j < |s| ==> Compare(s[i].name, s[j].name) < 0
  }

  ghost predicate DistinctNames(s: seq<Entry>) {
    forall i, j :: 0 <= i < j < |s| ==> s[i].name != s[j].name
  }

  /** There is only one way to put given entries in increasing order. */
  lemma {:induction false} OrderIsUnique(a: seq<Entry>, b: seq<Entry>)
    requires Increasing(a) && Increasing(b) && forall e :: e in a <==> e in b
    ensures a == b
    decreases |a|
  {
    if a == [] {
      assert b == [] by { assert forall i :: 0 <= i < |b| ==> b[i] in b; }
    } else {
      assert a[0] in b && b != [] && b[0] in a;
      FirstIsSame(a, b);
      forall e ensures e in a[1..] <==> e in b[1..] {
        TailHas(a, e);
        TailHas(b, e);
      }
      OrderIsUnique(a[1..], b[1..]);
      assert a == [a[0]] + a[1..] && b == [b[0]] + b[1..];
    }
  }

  lemma FirstIsSame(a: seq<Entry>, b: seq<Entry>)
    requires Increasing(a) && Increasing(b) && a != [] && b != [] && a[0] in b && b[0] in a
    ensures a[0] == b[0]
  {
    var i :| 0 <= i < |b| && b[i] == a[0];
    var j :| 0 <= j < |a| && a[j] == b[0];
    if i > 0 && j > 0 {
      assert Compare(b[0].name, a[0].name) < 0 && Compare(a[0].name, b[0].name) < 0;
      CompareFlips(a[0].name, b[0].name);
    }
  }

  lemma TailHas(a: seq<Entry>, e: Entry)
    requires Increasing(a) && a != []
    ensures e in a[1..] <==> e in a && e != a[0]
  {
    CompareEqual(a[0].name, a[0].name);
    if e in a && e != a[0] {
      var i :| 0 <= i < |a| && a[i] == e;
      assert a[1..][i - 1] == e;
    }
  }

  // ---------- Linked lists ----------

  class Registration {
    const entry: Entry
    var next: Registration?

    constructor (entry: Entry, next: Registration?)
      ensures this.entry == entry && this.next == next
    {
      this.entry := entry;
      this.next := next;
    }
  }

  ghost predicate NoRepeat(s: seq<Registration>) {
    forall i, j :: 0 <= i < j < |s| ==> s[i] != s[j]
  }

  function First(s: seq<Registration>): Registration? {
    if s == [] then null else s[0]
  }

  function Last(s: seq<Registration>): Registration? {
    if s == [] then null else s[|s| - 1]
  }

  ghost predicate LinkAt(s: seq<Registration>, i: nat)
    requires i < |s|
    reads s[i]
  {
    s[i].next == if i + 1 < |s| then s[i + 1] else null
  }

  /** s is linked in order and ends the list. */
  ghost predicate Linked(s: seq<Registration>)
    reads s
  {
    NoRepeat(s) && forall i {:trigger LinkAt(s, i)} :: 0 <= i < |s| ==> LinkAt(s, i)
  }

  function Entries(s: seq<Registration>): (e: seq<Entry>)
    ensures |e| == |s| && forall i :: 0 <= i < |s| ==> e[i] == s[i].entry
  {
    seq(|s|, i requires 0 <= i < |s| => s[i].entry)
  }

  /** s with x put in front of position k. */
  function Inserted(s: seq<Registration>, k: nat, x: Registration): (r: seq<Registration>)
    requires k <= |s|
    ensures |r| == |s| + 1
  {
    s[..k] + [x] + s[k..]
  }

  ghost predicate Between(s: seq<Registration>, k: nat, x: Registration)
    requires k <= |s|
  {
    && (forall i :: 0 <= i < k ==> Compare(s[i].entry.name, x.entry.name) < 0)
    && (forall i :: k <= i < |s| ==> Compare(x.entry.name, s[i].entry.name) < 0)
  }

  lemma FitsBetween(s: seq<Registration>, k: nat, x: Registration)
    requires k <= |s| && Increasing(Entries(s))
    requires k > 0 ==> Compare(s[k - 1].entry.name, x.entry.name) < 0
    requires k < |s| ==> Compare(x.entry.name, s[k].entry.name) < 0
    ensures Between(s, k, x)
  {
    var e := Entries(s);
    hide Compare;
    forall i | 0 <= i < k ensures Compare(s[i].entry.name, x.entry.name) < 0 {
      if i < k - 1 {
        LessChains(e[i].name, e[k - 1].name, x.entry.name);
      }
    }
    forall i | k <= i < |s| ensures Compare(x.entry.name, s[i].entry.name) < 0 {
      if i > k {
        LessChains(x.entry.name, e[k].name, e[i].name);
      }
    }
  }

  lemma InsertedIncreases(s: seq<Registration>, k: nat, x: Registration)
    requires k <= |s| && Increasing(Entries(s)) && Between(s, k, x)
    ensures Increasing(Entries(Inserted(s, k, x)))
  {
    hide Compare;
    var r, e := Inserted(s, k, x), Entries(s);
    forall i, j | 0 <= i < j < |r| ensures Compare(Entries(r)[i].name, Entries(r)[j].name) < 0 {
      if j == k {
        assert r[i] == s[i] && r[j] == x;
      } else if i == k {
        assert r[j] == s[j - 1] && r[i] == x;
      } else {
        var i0, j0 := if i < k then i else i - 1, if j < k then j else j - 1;
        assert r[i] == s[i0] && r[j] == s[j0];
        assert Compare(e[i0].name, e[j0].name) < 0;
      }
    }
  }

  lemma InsertedHolds(s: seq<Registration>, k: nat, x: Registration)
    requires k <= |s| && NoRepeat(s) && x !in s
    ensures NoRepeat(Inserted(s, k, x)) && multiset(Inserted(s, k, x)) == multiset(s) + multiset{x}
  {
    assert s == s[..k] + s[k..];
  }

  lemma TakeOne<T>(s: seq<T>, k: nat)
    requires k < |s|
    ensures s[k..] == [s[k]] + s[k + 1..] && s[k..][1..] == s[k + 1..]
    ensures s[..k + 1] == s[..k] + [s[k]] && multiset(s[..k + 1]) == multiset(s[..k]) + multiset{s[k]}
  {
  }

  lemma NextLinked(s: seq<Registration>)
    requires s != [] && Linked(s)
    ensures s[0].next == First(s[1..]) && Linked(s[1..])
  {
    assert LinkAt(s, 0);
    forall i | 0 <= i < |s| - 1 ensures LinkAt(s[1..], i) {
      assert LinkAt(s, i + 1);
    }
  }

  /** Relinking for an insertion. */
  lemma InsertedLinks(s: seq<Registration>, k: nat, x: Registration)
    requires k <= |s| && NoRepeat(s) && x !in s
    requires forall i {:trigger LinkAt(s, i)} :: 0 <= i < |s| && i != k - 1 ==> LinkAt(s, i)
    requires (k > 0 ==> s[k - 1].next == x) && x.next == if k < |s| then s[k] else null
    ensures Linked(Inserted(s, k, x))
  {
    InsertedHolds(s, k, x);
    var r := Inserted(s, k, x);
    forall i | 0 <= i < |r| ensures LinkAt(r, i) {
      if i < k - 1 {
        assert LinkAt(s, i);
      } else if i > k {
        assert LinkAt(s, i - 1);
      }
    }
  }

  ghost predicate Apart(a: seq<Registration>, b: seq<Registration>) {
    forall i :: 0 <= i < |a| ==> a[i] !in b
  }

  /** Only the links of its own members matter to a list. */
  twostate lemma StillLinked(s: seq<Registration>)
    requires old(Linked(s)) && forall i :: 0 <= i < |s| ==> s[i].next == old(s[i].next)
    ensures Linked(s)
  {
    forall i | 0 <= i < |s| ensures LinkAt(s, i) {
      assert old(LinkAt(s, i));
    }
  }

  // ---------- Sorting ----------

  /** The search for the place of a registration that does not come first: after prev, before next. The
      search compares as the original does and never runs past the place. */
  method FindPlace(head: Registration, reg: Registration, ghost s: seq<Registration>)
    returns (prev: Registration, next: Registration?, ghost k: nat)
    requires s != [] && Linked(s) && head == First(s)
    requires Increasing(Entries(s)) && forall i :: 0 <= i < |s| ==> s[i].entry.name != reg.entry.name
    requires Compare(reg.entry.name, head.entry.name) >= 0
    ensures 1 <= k <= |s| && prev == s[k - 1] && next == if k < |s| then s[k] else null
    ensures Between(s, k, reg)
  {
    hide Compare, Increasing;
    Trichotomy(head.entry.name, reg.entry.name);
    assert LinkAt(s, 0);
    prev, next := head, head.next;
    k := 1;
    while next != null
      invariant 1 <= k <= |s| && prev == s[k - 1] && next == if k < |s| then s[k] else null
      invariant Compare(prev.entry.name, reg.entry.name) < 0
      decreases |s| - k
    {
      Trichotomy(next.entry.name, reg.entry.name);
      if Compare(prev.entry.name, reg.entry.name) < 0 {
        if Compare(next.entry.name, reg.entry.name) > 0 {
          break;
        }
      }
      assert LinkAt(s, k);
      prev := next;
      next := prev.next;
      k := k + 1;
    }
    FitsBetween(s, k, reg);
  }

  /** Puts one registration into a sorted non-empty list. */
  method InsertByName(head: Registration, tail: Registration, reg: Registration,
                      ghost s: seq<Registration>, ghost left: seq<Registration>)
    returns (newHead: Registration, newTail: Registration, ghost k: nat)
    requires s != [] && Linked(s) && head == First(s) && tail == Last(s) && reg !in s
    requires Increasing(Entries(s)) && forall i :: 0 <= i < |s| ==> s[i].entry.name != reg.entry.name
    requires Linked(left) && Apart(left, s + [reg])
    modifies s, reg
    ensures Linked(left)
    ensures k <= |s| && Linked(Inserted(s, k, reg)) && Increasing(Entries(Inserted(s, k, reg)))
    ensures newHead == First(Inserted(s, k, reg)) && newTail == Last(Inserted(s, k, reg))
  {
    hide Compare, Increasing;
    newHead, newTail := head, tail;
    if Compare(reg.entry.name, head.entry.name) < 0 {
      k := 0;
      FitsBetween(s, k, reg);
      reg.next := head;
      newHead := reg;
    } else {
      var prev, next;
      prev, next, k := FindPlace(head, reg, s);
      reg.next := next;
      prev.next := reg;
      if next == null {
        newTail := reg;
      }
    }
    InsertedIncreases(s, k, reg);
    InsertedLinks(s, k, reg);
    StillLinked(left);
  }

  /** The first registration starts the list, any other is inserted. */
  method Place(head: Registration?, tail: Registration?, reg: Registration,
               ghost s: seq<Registration>, ghost left: seq<Registration>)
    returns (newHead: Registration, newTail: Registration, ghost r: seq<Registration>)
    requires Linked(s) && head == First(s) && (s != [] ==> tail == Last(s)) && reg !in s
    requires Increasing(Entries(s)) && forall i :: 0 <= i < |s| ==> s[i].entry.name != reg.entry.name
    requires Linked(left) && Apart(left, s + [reg])
    modifies s, reg
    ensures Linked(left)
    ensures Linked(r) && Increasing(Entries(r)) && multiset(r) == multiset(s) + multiset{reg}
    ensures newHead == First(r) && newTail == Last(r)
  {
    if head == null {
      reg.next := null;
      newHead, newTail, r := reg, reg, [reg];
      StillLinked(left);
    } else {
      hide Compare, Increasing;
      ghost var k;
      newHead, newTail, k := InsertByName(head, tail, reg, s, left);
      InsertedHolds(s, k, reg);
      r := Inserted(s, k, reg);
    }
  }

  /** What has been sorted is apart from what is still on the list. */
  lemma SortedApart(s: seq<Registration>, k: nat, sorted: seq<Registration>)
    requires NoRepeat(s) && DistinctNames(Entries(s)) && k < |s| && multiset(sorted) == multiset(s[..k])
    ensures forall i :: 0 <= i < |sorted| ==> sorted[i] in s
    ensures s[k] !in sorted && Apart(s[k + 1..], sorted + [s[k]])
    ensures forall i :: 0 <= i < |sorted| ==> sorted[i].entry.name != s[k].entry.name
  {
    forall i | 0 <= i < |sorted|
      ensures exists j :: 0 <= j < k && s[j] == sorted[i]
      ensures sorted[i].entry.name != s[k].entry.name
    {
      assert sorted[i] in multiset(sorted);
      assert sorted[i] in s[..k];
      var j :| 0 <= j < k && s[j] == sorted[i];
      assert Entries(s)[j].name != Entries(s)[k].name;
    }
  }

  /** sort_shm_config_reg_by_name: takes the registrations off the list one by one and places each. */
  method SortByName(head: Registration?, tail: Registration?, ghost s: seq<Registration>, ghost others: seq<Registration>)
    returns (newHead: Registration?, newTail: Registration?, ghost sorted: seq<Registration>)
    requires Linked(s) && head == First(s) && tail == Last(s) && DistinctNames(Entries(s))
    requires Linked(others) && Apart(others, s)
    modifies s
    ensures Linked(others)
    ensures Linked(sorted) && Increasing(Entries(sorted)) && multiset(sorted) == multiset(s)
    ensures newHead == First(sorted) && newTail == Last(sorted)
  {
    var rest := head;
    newHead, newTail, sorted := null, tail, [];
    ghost var k, left := 0, s;
    assert Increasing(Entries(sorted));
    hide Compare, Increasing;
    while rest != null
      invariant 0 <= k <= |s| && left == s[k..] && rest == First(left) && Linked(left)
      invariant Linked(sorted) && Increasing(Entries(sorted)) && multiset(sorted) == multiset(s[..k])
      invariant newHead == First(sorted) && (if k > 0 then newTail == Last(sorted) else newTail == tail)
      decreases |s| - k
    {
      var reg := rest;
      SortedApart(s, k, sorted);
      TakeOne(s, k);
      NextLinked(left);
      left := s[k + 1..];
      rest := reg.next;
      newHead, newTail, sorted := Place(newHead, newTail, reg, sorted, left);
      k := k + 1;
    }
    assert k == |s| && s[..k] == s;
    StillLinked(others);
  }

  // ---------- Splitting and joining ----------

  /** The registrations of one memory type, in list order. */
  function OfType(s: seq<Registration>, t: nat): (r: seq<Registration>)
    decreases |s|
  {
    if s == [] then []
    else OfType(s[..|s| - 1], t) + if s[|s| - 1].entry.memType == t then [s[|s| - 1]] else []
  }

  lemma {:induction false} OfTypeIn(s: seq<Registration>, t: nat, x: Registration)
    ensures x in OfType(s, t) <==> x in s && x.entry.memType == t
    decreases |s|
  {
    if s != [] {
      OfTypeIn(s[..|s| - 1], t, x);
      assert s == s[..|s| - 1] + [s[|s| - 1]];
    }
  }

  lemma {:induction false} OfTypeKeepsApart(s: seq<Registration>, t: nat)
    requires NoRepeat(s)
    ensures NoRepeat(OfType(s, t))
    decreases |s|
  {
    if s != [] {
      OfTypeKeepsApart(s[..|s| - 1], t);
      OfTypeIn(s[..|s| - 1], t, s[|s| - 1]);
    }
  }

  lemma OfTypeStep(s: seq<Registration>, t: nat, k: nat)
    requires k < |s|
    ensures OfType(s[..k + 1], t) == OfType(s[..k], t) + if s[k].entry.memType == t then [s[k]] else []
  {
    assert s[..k + 1][..k] == s[..k];
  }

  ghost predicate TypesOk(s: seq<Registration>) {
    forall i :: 0 <= i < |s| ==> s[i].entry.memType < TYPE_COUNT
  }

  lemma {:induction false} OfTypeDistinct(s: seq<Registration>, t: nat)
    requires DistinctNames(Entries(s))
    ensures DistinctNames(Entries(OfType(s, t)))
    decreases |s|
  {
    if s != [] {
      var n := |s| - 1;
      OfTypeDistinct(s[..n], t);
      var r := OfType(s[..n], t);
      forall i | 0 <= i < |r| ensures r[i].entry.name != s[n].entry.name {
        OfTypeIn(s[..n], t, r[i]);
        var j :| 0 <= j < n && s[j] == r[i];
        assert Entries(s)[j].name != Entries(s)[n].name;
      }
    }
  }

  /** Hanging one registration to the end of a list, away from two other lists. */
  method Append(head: Registration?, tail: Registration?, reg: Registration, ghost s: seq<Registration>,
                ghost left: seq<Registration>, ghost other: seq<Registration>)
    returns (newHead: Registration, newTail: Registration)
    requires Linked(s) && head == First(s) && tail == Last(s) && reg !in s
    requires Linked(left) && Linked(other) && Apart(left, s + [reg]) && Apart(other, s + [reg])
    modifies reg, tail
    ensures Linked(s + [reg]) && newHead == First(s + [reg]) && newTail == reg
    ensures Linked(left) && Linked(other)
  {
    if head == null {
      newHead := reg;
    } else {
      newHead := head;
      tail.next := reg;
    }
    newTail := reg;
    newTail.next := null;
    forall i | 0 <= i < |s + [reg]| ensures LinkAt(s + [reg], i) {
      if i + 1 < |s| {
        assert LinkAt(s, i);
      }
    }
    StillLinked(left);
    StillLinked(other);
  }

  /** A part of the first k registrations is apart from the next one, from those behind it, and with
      the next one from the other part. */
  ghost predicate PartApart(s: seq<Registration>, k: nat, part: seq<Registration>, other: seq<Registration>)
    requires k < |s|
  {
    && s[k] !in part && Apart(s[k + 1..], part + [s[k]]) && Apart(other, part + [s[k]])
    && forall i :: 0 <= i < |part| ==> part[i] in s
  }

  lemma PartsApart(s: seq<Registration>, k: nat, t: nat)
    requires NoRepeat(s) && k < |s| && t < TYPE_COUNT
    ensures PartApart(s, k, OfType(s[..k], t), OfType(s[..k], 1 - t))
  {
    var part, other := OfType(s[..k], t), OfType(s[..k], 1 - t);
    forall i | 0 <= i < |part| ensures part[i] in s[..k] {
      OfTypeIn(s[..k], t, part[i]);
    }
    assert forall x :: x in s[..k] ==> exists j :: 0 <= j < k && s[j] == x;
    var left := s[k + 1..];
    forall i | 0 <= i < |left| ensures left[i] !in part + [s[k]] {
      assert left[i] == s[k + 1 + i];
    }
    forall i | 0 <= i < |other| ensures other[i] !in part && other[i] != s[k] {
      OfTypeIn(s[..k], 1 - t, other[i]);
      OfTypeIn(s[..k], t, other[i]);
    }
  }

  function OnlyIf(c: bool, x: Registration): seq<Registration> {
    if c then [x] else []
  }

  /** Hangs one registration to the list of its type. */
  method HangOne(configHead: Registration?, configTail: Registration?, statHead: Registration?, statTail: Registration?,
                 reg: Registration,
                 ghost configs: seq<Registration>, ghost stats: seq<Registration>, ghost left: seq<Registration>)
    returns (configHead': Registration?, configTail': Registration?, statHead': Registration?, statTail': Registration?)
    requires Linked(configs) && configHead == First(configs) && configTail == Last(configs)
    requires Linked(stats) && statHead == First(stats) && statTail == Last(stats)
    requires Linked(left) && Apart(left, configs + [reg]) && Apart(left, stats + [reg])
    requires Apart(configs, stats + [reg]) && Apart(stats, configs + [reg]) && reg !in configs && reg !in stats
    modifies reg, configTail, statTail
    ensures var s := configs + OnlyIf(reg.entry.memType == CONFIG, reg);
            Linked(s) && configHead' == First(s) && configTail' == Last(s)
    ensures var s := stats + OnlyIf(reg.entry.memType != CONFIG, reg);
            Linked(s) && statHead' == First(s) && statTail' == Last(s)
    ensures Linked(left)
  {
    configHead', configTail', statHead', statTail' := configHead, configTail, statHead, statTail;
    if reg.entry.memType == CONFIG {
      assert stats + [] == stats;
      configHead', configTail' := Append(configHead, configTail, reg, configs, left, stats);
    } else {
      assert configs + [] == configs;
      statHead', statTail' := Append(statHead, statTail, reg, stats, left, configs);
    }
  }

  /** The first half of sort_shm_map_reg_outside: one list per memory type, each in list order. */
  method Split(head: Registration?, ghost s: seq<Registration>)
    returns (configHead: Registration?, configTail: Registration?, statHead: Registration?, statTail: Registration?)
    requires Linked(s) && head == First(s) && TypesOk(s)
    modifies s
    ensures Linked(OfType(s, CONFIG)) && configHead == First(OfType(s, CONFIG)) && configTail == Last(OfType(s, CONFIG))
    ensures Linked(OfType(s, STAT)) && statHead == First(OfType(s, STAT)) && statTail == Last(OfType(s, STAT))
  {
    hide OfType, NoRepeat, Linked, Apart;
    configHead, configTail, statHead, statTail := null, null, null, null;
    var rest := head;
    ghost var k, left := 0, s;
    ghost var configs: seq<Registration>, stats: seq<Registration> := [], [];
    NothingSplit(s);
    while rest != null
      invariant 0 <= k <= |s| && left == s[k..] && rest == First(left) && Linked(left)
      invariant configs == OfType(s[..k], CONFIG) && stats == OfType(s[..k], STAT)
      invariant Linked(configs) && configHead == First(configs) && configTail == Last(configs)
      invariant Linked(stats) && statHead == First(stats) && statTail == Last(stats)
      decreases |s| - k
    {
      var reg := rest;
      NextLinked(left);
      SplitStep(s, k);
      left := s[k + 1..];
      rest := reg.next;
      configHead, configTail, statHead, statTail :=
        HangOne(configHead, configTail, statHead, statTail, reg, configs, stats, left);
      configs := configs + OnlyIf(reg.entry.memType == CONFIG, reg);
      stats := stats + OnlyIf(reg.entry.memType != CONFIG, reg);
      k := k + 1;
    }
  }

  lemma NothingSplit(s: seq<Registration>)
    requires Linked(s)
    ensures NoRepeat(s) && Linked([])
    ensures OfType(s[..0], CONFIG) == OfType(s[..0], STAT) == [] && s[..|s|] == s
  {
  }

  lemma SplitStep(s: seq<Registration>, k: nat)
    requires NoRepeat(s) && TypesOk(s) && k < |s|
    ensures OfType(s[..k + 1], CONFIG) == OfType(s[..k], CONFIG) + OnlyIf(s[k].entry.memType == CONFIG, s[k])
    ensures OfType(s[..k + 1], STAT) == OfType(s[..k], STAT) + OnlyIf(s[k].entry.memType != CONFIG, s[k])
    ensures s[k..] == [s[k]] + s[k + 1..] && s[k..][1..] == s[k + 1..] && s[k] in s
    ensures PartApart(s, k, OfType(s[..k], CONFIG), OfType(s[..k], STAT))
    ensures PartApart(s, k, OfType(s[..k], STAT), OfType(s[..k], CONFIG))
  {
    hide OfType, PartApart, NoRepeat;
    PartsApart(s, k, CONFIG);
    PartsApart(s, k, STAT);
    OfTypeStep(s, CONFIG, k);
    OfTypeStep(s, STAT, k);
    TakeOne(s, k);
  }

  lemma JoinedLinks(a: seq<Registration>, b: seq<Registration>)
    requires NoRepeat(a) && Linked(b) && Apart(b, a)
    requires forall i {:trigger LinkAt(a, i)} :: 0 <= i < |a| - 1 ==> LinkAt(a, i)
    requires a != [] ==> a[|a| - 1].next == First(b)
    ensures Linked(a + b)
  {
    var r := a + b;
    forall i | 0 <= i < |r| ensures LinkAt(r, i) {
      if i < |a| - 1 {
        assert LinkAt(a, i);
      } else if i >= |a| {
        assert LinkAt(b, i - |a|);
      }
    }
    forall i, j | 0 <= i < j < |r| ensures r[i] != r[j] {
      if i < |a| && j >= |a| {
        assert b[j - |a|] !in a && r[i] == a[i] && r[j] == b[j - |a|];
      }
    }
  }

  /** The second half: the statistics are hung to the end of the configurations. */
  method Join(configHead: Registration?, configTail: Registration?, statHead: Registration?,
              ghost configs: seq<Registration>, ghost stats: seq<Registration>) returns (head: Registration?)
    requires Linked(configs) && configHead == First(configs) && configTail == Last(configs)
    requires Linked(stats) && statHead == First(stats) && Apart(stats, configs)
    modifies configTail
    ensures Linked(configs + stats) && head == First(configs + stats)
  {
    if configHead == null {
      assert configs + stats == stats;
      return statHead;
    }
    head := configHead;
    if statHead != null {
      assert forall i {:trigger LinkAt(configs, i)} :: 0 <= i < |configs| ==> LinkAt(configs, i);
      configTail.next := statHead;
      StillLinked(stats);
    } else {
      assert LinkAt(configs, |configs| - 1);
    }
    JoinedLinks(configs, stats);
  }

  lemma SortedPartApart(s: seq<Registration>, sorted: seq<Registration>)
    requires NoRepeat(s) && multiset(sorted) == multiset(OfType(s, CONFIG))
    ensures Apart(OfType(s, STAT), sorted)
    ensures forall i :: 0 <= i < |sorted| ==> sorted[i] in s
  {
    var stats := OfType(s, STAT);
    forall i | 0 <= i < |stats| ensures stats[i] !in sorted {
      OfTypeIn(s, STAT, stats[i]);
      OfTypeIn(s, CONFIG, stats[i]);
      assert stats[i] !in multiset(sorted);
    }
    forall i | 0 <= i < |sorted| ensures sorted[i] in s {
      assert sorted[i] in multiset(sorted);
      OfTypeIn(s, CONFIG, sorted[i]);
    }
  }

  /** sort_shm_map_reg_outside: configurations in increasing order of name, then statistics in list
      order. */
  method Arrange(head: Registration?, ghost s: seq<Registration>)
    returns (newHead: Registration?, ghost sorted: seq<Registration>)
    requires Linked(s) && head == First(s) && TypesOk(s) && DistinctNames(Entries(s))
    modifies s
    ensures Increasing(Entries(sorted)) && multiset(sorted) == multiset(OfType(s, CONFIG))
    ensures Linked(sorted + OfType(s, STAT)) && newHead == First(sorted + OfType(s, STAT))
  {
    ghost var configs, stats := OfType(s, CONFIG), OfType(s, STAT);
    var configHead, configTail, statHead, statTail := Split(head, s);
    OfTypeDistinct(s, CONFIG);
    SortedPartApart(s, configs);
    configHead, configTail, sorted := SortByName(configHead, configTail, configs, stats);
    SortedPartApart(s, sorted);
    newHead := Join(configHead, configTail, statHead, sorted, stats);
  }

  /** Whatever order the registrations were linked in, the configurations come out in the same order:
      only the set of their entries matters. */
  lemma SameConfigOrder(s: seq<Registration>, s': seq<Registration>, a: seq<Registration>, b: seq<Registration>)
    requires multiset(a) == multiset(OfType(s, CONFIG)) && multiset(b) == multiset(OfType(s', CONFIG))
    requires Increasing(Entries(a)) && Increasing(Entries(b))
    requires forall e :: e in Entries(OfType(s, CONFIG)) <==> e in Entries(OfType(s', CONFIG))
    ensures Entries(a) == Entries(b)
  {
    forall e ensures e in Entries(a) <==> e in Entries(b) {
      PermutedEntries(a, OfType(s, CONFIG), e);
      PermutedEntries(b, OfType(s', CONFIG), e);
    }
    OrderIsUnique(Entries(a), Entries(b));
  }

  lemma PermutedEntries(a: seq<Registration>, b: seq<Registration>, e: Entry)
    requires multiset(a) == multiset(b)
    ensures e in Entries(a) <==> e in Entries(b)
  {
    if e in Entries(a) {
      var i :| 0 <= i < |a| && a[i].entry == e;
      assert a[i] in multiset(a);
      assert a[i] in b;
      var j :| 0 <= j < |b| && b[j] == a[i];
      assert Entries(b)[j] == e;
    }
    if e in Entries(b) {
      var i :| 0 <= i < |b| && b[i].entry == e;
      assert b[i] in multiset(b);
      assert b[i] in a;
      var j :| 0 <= j < |a| && a[j] == b[i];
      assert Entries(a)[j] == e;
    }
  }
}
