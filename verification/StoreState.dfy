/** The whole rule store as a value: the outer-id map over the two families' tables, its invariant,
    and the map of rules it stands for. */
module StoreState {
  import opened SlotBitmap
  import opened HashChains
  import opened RuleMap
  import opened TupleTable

  const TYPE_NONE: nat := 0
  const TYPE_TUPLE4: nat := 1
  const TYPE_TUPLE6: nat := 2

  datatype MapEntry = MapEntry(ruleType: nat, actual: nat)

  const NO_RULE: MapEntry := MapEntry(TYPE_NONE, 0)

  datatype State = State(ruleMap: seq<MapEntry>, v4: Table, v6: Table)

  /** The chains of both families, known to the proof only. */
  datatype Chains = Chains(v4: seq<seq<nat>>, v6: seq<seq<nat>>)

  function TableOf(st: State, v6: bool): Table {
    if v6 then st.v6 else st.v4
  }

  function TypeOf(v6: bool): nat {
    if v6 then TYPE_TUPLE6 else TYPE_TUPLE4
  }

  function ChainsOf(c: Chains, v6: bool): seq<seq<nat>> {
    if v6 then c.v6 else c.v4
  }

  ghost predicate StateShape(st: State) {
    |st.ruleMap| == MAX_RULE_PER_GROUP && TableShape(st.v4) && TableShape(st.v6)
  }

  /** Outer id o names no rule, or a used slot of the right family that names o back. */
  ghost predicate EntryOk(st: State, o: nat)
    requires StateShape(st) && ValidOuter(o)
  {
    var e := st.ruleMap[o - 1];
    e == NO_RULE
    || ((e.ruleType == TYPE_TUPLE4 || e.ruleType == TYPE_TUPLE6)
        && var t := TableOf(st, e.ruleType == TYPE_TUPLE6);
           e.actual in t.used && t.owners[e.actual - 1].outer == o)
  }

  /** A used slot's owner names the slot back. */
  ghost predicate OwnerOk(st: State, v6: bool, s: nat)
    requires StateShape(st) && ValidSlot(s)
  {
    var t := TableOf(st, v6);
    s in t.used ==>
      && ValidOuter(t.owners[s - 1].outer)
      && st.ruleMap[t.owners[s - 1].outer - 1] == MapEntry(TypeOf(v6), s)
  }

  /** The outer-id map and the two families' reverse maps are mutual inverses. */
  ghost predicate MapsOk(st: State) {
    && StateShape(st)
    && (forall o {:trigger EntryOk(st, o)} :: ValidOuter(o) ==> EntryOk(st, o))
    && (forall v6, s {:trigger OwnerOk(st, v6, s)} :: ValidSlot(s) ==> OwnerOk(st, v6, s))
  }

  ghost predicate StoreFacts(st: State, hash: HashIndex, c: Chains) {
    && MapsOk(st)
    && TableOk(st.v4, false, hash, c.v4) && TableOk(st.v6, true, hash, c.v6)
  }

  /** The store invariant. Most proofs need it only as a whole: they hide StoreFacts and call Open where
      they do not. */
  ghost predicate StoreOk(st: State, hash: HashIndex, c: Chains) {
    StateShape(st) && StoreFacts(st, hash, c)
  }

  lemma Open(st: State, hash: HashIndex, c: Chains)
    requires StoreOk(st, hash, c)
    ensures MapsOk(st) && TableOk(st.v4, false, hash, c.v4) && TableOk(st.v6, true, hash, c.v6)
  {
  }

  function RuleAt(st: State, o: nat): Rule
    requires |st.ruleMap| == MAX_RULE_PER_GROUP && |st.v4.cfgs| == |st.v6.cfgs| == MAX_SLOTS
    requires ValidOuter(o) && ValidSlot(st.ruleMap[o - 1].actual)
  {
    var e := st.ruleMap[o - 1];
    var v6 := e.ruleType == TYPE_TUPLE6;
    Rule(v6, TableOf(st, v6).cfgs[e.actual - 1])
  }

  /** The rules a store holds. */
  ghost function RulesIn(st: State): Rules
    requires StateShape(st)
  {
    map o: nat | 1 <= o <= MAX_RULE_PER_GROUP && st.ruleMap[o - 1] != NO_RULE && ValidSlot(st.ruleMap[o - 1].actual)
      :: RuleAt(st, o)
  }

  lemma EmptyStore(st: State, hash: HashIndex)
    requires |st.ruleMap| == MAX_RULE_PER_GROUP && forall i :: 0 <= i < MAX_RULE_PER_GROUP ==> st.ruleMap[i] == NO_RULE
    requires EmptyTable(st.v4, false, hash) && EmptyTable(st.v6, true, hash)
    ensures StoreOk(st, hash, Chains(NoChains(), NoChains())) && RulesIn(st) == map[]
  {
  }

  // ---------- Looking up by content ----------

  lemma OwnerOfSlot(st: State, hash: HashIndex, c: Chains, v6: bool, s: nat)
    requires StoreOk(st, hash, c) && s in TableOf(st, v6).used
    ensures var t := TableOf(st, v6); var o := t.owners[s - 1].outer;
      && t.owners[s - 1].valid && ValidOuter(o)
      && o in RulesIn(st) && RulesIn(st)[o] == Rule(v6, t.cfgs[s - 1])
  {
    Open(st, hash, c);
    assert OwnerOk(st, v6, s);
    assert SlotOk(TableOf(st, v6), v6, hash, ChainsOf(c, v6), s);
  }

  lemma SlotOfOwner(st: State, hash: HashIndex, c: Chains, o: nat)
    requires StoreOk(st, hash, c) && o in RulesIn(st)
    ensures var e := st.ruleMap[o - 1]; var r := RulesIn(st)[o]; var t := TableOf(st, r.v6);
      && ValidOuter(o) && e == MapEntry(TypeOf(r.v6), e.actual)
      && e.actual in t.used && t.cfgs[e.actual - 1] == r.cfg && t.owners[e.actual - 1].outer == o
      && ValidRule(r)
  {
    Open(st, hash, c);
    assert EntryOk(st, o);
    var e := st.ruleMap[o - 1];
    var v6 := e.ruleType == TYPE_TUPLE6;
    assert SlotOk(TableOf(st, v6), v6, hash, ChainsOf(c, v6), e.actual);
  }

  /** The content lookup finds a used slot exactly when some outer id holds the rule, and then its owner. */
  lemma FoundIsOwner(st: State, hash: HashIndex, c: Chains, v6: bool, cfg: RuleCfg, s: nat)
    requires StoreOk(st, hash, c) && s in TableOf(st, v6).used && TableOf(st, v6).cfgs[s - 1] == cfg
    requires Injective(RulesIn(st))
    ensures Owner(RulesIn(st), Rule(v6, cfg)) == TableOf(st, v6).owners[s - 1].outer != 0
  {
    OwnerOfSlot(st, hash, c, v6, s);
  }

  lemma NotFoundIsNew(st: State, hash: HashIndex, c: Chains, v6: bool, cfg: RuleCfg)
    requires StoreOk(st, hash, c)
    requires Absent(st, v6, cfg)
    ensures forall o :: o in RulesIn(st) ==> RulesIn(st)[o] != Rule(v6, cfg)
    ensures Owner(RulesIn(st), Rule(v6, cfg)) == 0
  {
    Open(st, hash, c);
    forall o | o in RulesIn(st) ensures RulesIn(st)[o] != Rule(v6, cfg) {
      SlotOfOwner(st, hash, c, o);
    }
  }

  // ---------- The map is well formed ----------

  lemma RulesInjective(st: State, hash: HashIndex, c: Chains)
    requires StoreOk(st, hash, c)
    ensures Injective(RulesIn(st))
  {
    Open(st, hash, c);
    var m := RulesIn(st);
    forall i, j | i in m && j in m && m[i] == m[j] ensures i == j {
      SlotOfOwner(st, hash, c, i);
      SlotOfOwner(st, hash, c, j);
    }
  }

  function SlotFor(st: State, o: nat): nat {
    if |st.ruleMap| == MAX_RULE_PER_GROUP && ValidOuter(o) then st.ruleMap[o - 1].actual else 0
  }

  function IdFor(t: Table, s: nat): nat {
    if |t.owners| == MAX_SLOTS && ValidSlot(s) then t.owners[s - 1].outer else 0
  }

  lemma SlotForId(st: State, hash: HashIndex, c: Chains, v6: bool, o: nat)
    requires StoreOk(st, hash, c) && o in Ids(RulesIn(st), v6)
    ensures SlotFor(st, o) in TableOf(st, v6).used && IdFor(TableOf(st, v6), SlotFor(st, o)) == o
  {
    Open(st, hash, c);
    SlotOfOwner(st, hash, c, o);
  }

  lemma IdForSlot(st: State, hash: HashIndex, c: Chains, v6: bool, s: nat)
    requires StoreOk(st, hash, c) && s in TableOf(st, v6).used
    ensures IdFor(TableOf(st, v6), s) in Ids(RulesIn(st), v6) && SlotFor(st, IdFor(TableOf(st, v6), s)) == s
  {
    Open(st, hash, c);
    OwnerOfSlot(st, hash, c, v6, s);
    assert OwnerOk(st, v6, s);
  }

  /** The family's ids and its used slots are in bijection. */
  lemma AsManyIdsAsSlots(st: State, hash: HashIndex, c: Chains, v6: bool)
    requires StoreOk(st, hash, c)
    ensures |Ids(RulesIn(st), v6)| == |TableOf(st, v6).used|
  {
    Open(st, hash, c);
    var ids, slots := Ids(RulesIn(st), v6), TableOf(st, v6).used;
    var toSlot, toId := (o: nat) => SlotFor(st, o), (s: nat) => IdFor(TableOf(st, v6), s);
    assert |ids| <= |slots| by {
      forall o | o in ids ensures toSlot(o) in slots && toId(toSlot(o)) == o {
        SlotForId(st, hash, c, v6, o);
      }
      InjectionSize(ids, slots, toSlot, toId);
    }
    assert |slots| <= |ids| by {
      forall s | s in slots ensures toId(s) in ids && toSlot(toId(s)) == s {
        IdForSlot(st, hash, c, v6, s);
      }
      InjectionSize(slots, ids, toId, toSlot);
    }
  }

  lemma {:induction false} InjectionSize(a: set<nat>, b: set<nat>, f: nat -> nat, g: nat -> nat)
    requires forall x :: x in a ==> f(x) in b && g(f(x)) == x
    ensures |a| <= |b|
  {
    if x :| x in a {
      var a', b' := a - {x}, b - {f(x)};
      assert forall y :: y in a' ==> f(y) in b' by {
        forall y | y in a' ensures f(y) in b' {
          assert g(f(y)) == y && g(f(x)) == x;
        }
      }
      InjectionSize(a', b', f, g);
    }
  }

  predicate Within(s: nat, n: nat) {
    1 <= s <= n
  }

  lemma {:induction false} RangeSize(n: nat)
    ensures |set s: nat | 1 <= s <= n && Within(s, n)| == n
  {
    var range := set s: nat | 1 <= s <= n && Within(s, n);
    if n > 0 {
      var k: nat := n - 1;
      RangeSize(k);
      assert range == (set s: nat | 1 <= s <= k && Within(s, k)) + {n};
    } else {
      assert range == {};
    }
  }

  lemma SameSize<T>(a: set<T>, b: set<T>)
    requires a <= b && |a| == |b|
    ensures a == b
  {
    assert b == a + (b - a);
  }

  /** The allocator has no free slot exactly when the family holds FAMILY_SLOTS rules. */
  lemma FullIff(st: State, hash: HashIndex, c: Chains, v6: bool)
    requires StoreOk(st, hash, c)
    ensures (forall s :: ValidSlot(s) ==> s in TableOf(st, v6).used) <==> |Ids(RulesIn(st), v6)| == FAMILY_SLOTS
    ensures |Ids(RulesIn(st), v6)| <= FAMILY_SLOTS
  {
    Open(st, hash, c);
    var used := TableOf(st, v6).used;
    var all := set s: nat | 1 <= s <= MAX_SLOTS && Within(s, MAX_SLOTS);
    AsManyIdsAsSlots(st, hash, c, v6);
    RangeSize(MAX_SLOTS);
    SubsetSize(used, all);
    if |used| == MAX_SLOTS {
      SameSize(used, all);
      forall s | ValidSlot(s) ensures s in TableOf(st, v6).used {
        assert s in all;
      }
    }
    if forall s :: ValidSlot(s) ==> s in TableOf(st, v6).used {
      assert used == all;
    }
  }

  /** A store with more rules of one family than there are buckets has one whose slot, released as
      written, leaves the family's table in order under no chains. */
  lemma CrowdedFamilyBreaks(st: State, hash: HashIndex, c: Chains, v6: bool) returns (o: nat)
    requires StoreOk(st, hash, c) && |Ids(RulesIn(st), v6)| > BUCKET_CNT
    ensures o in Ids(RulesIn(st), v6) && Linkable(TableOf(st, v6), hash, SlotFor(st, o))
    ensures forall chains :: !TableOk(ReleasedAsWritten(TableOf(st, v6), hash, SlotFor(st, o)), v6, hash, chains)
  {
    Open(st, hash, c);
    hide StoreFacts, MapsOk, TableOk, RulesIn;
    AsManyIdsAsSlots(st, hash, c, v6);
    var s := CrowdedBreaks(TableOf(st, v6), v6, hash, ChainsOf(c, v6));
    IdForSlot(st, hash, c, v6, s);
    o := IdFor(TableOf(st, v6), s);
  }

  lemma RulesInOk(st: State, hash: HashIndex, c: Chains)
    requires StoreOk(st, hash, c)
    ensures RulesOk(RulesIn(st))
  {
    Open(st, hash, c);
    RulesInjective(st, hash, c);
    FullIff(st, hash, c, false);
    FullIff(st, hash, c, true);
    forall o | o in RulesIn(st) ensures ValidOuter(o) && ValidRule(RulesIn(st)[o]) {
      SlotOfOwner(st, hash, c, o);
    }
  }

  // ---------- The steps of an update ----------

  function WithTable(st: State, v6: bool, t: Table): State {
    if v6 then st.(v6 := t) else st.(v4 := t)
  }

  function WithChains(c: Chains, v6: bool, chains: seq<seq<nat>>): Chains {
    if v6 then c.(v6 := chains) else c.(v4 := chains)
  }

  /** st' has t' for the table of one family and is otherwise st up to its outer-id map. */
  ghost predicate Updated(st: State, st': State, v6: bool, t': Table)
  {
    StateShape(st) && TableShape(t') && |st'.ruleMap| == MAX_RULE_PER_GROUP
    && TableOf(st', v6) == t' && TableOf(st', !v6) == TableOf(st, !v6)
  }

  lemma MapsAfterWrite(st: State, st': State, v6: bool, t': Table)
    requires MapsOk(st) && Updated(st, st', v6, t') && st'.ruleMap == st.ruleMap
    requires t'.owners == TableOf(st, v6).owners && t'.used == TableOf(st, v6).used
    ensures MapsOk(st')
  {
    forall o | ValidOuter(o) ensures EntryOk(st', o) { assert EntryOk(st, o); }
    forall f, x | ValidSlot(x) ensures OwnerOk(st', f, x) { assert OwnerOk(st, f, x); }
  }

  lemma MapsAfterDelete(st: State, st': State, v6: bool, t': Table, o: nat, s: nat)
    requires MapsOk(st) && Updated(st, st', v6, t') && ValidOuter(o) && ValidSlot(s)
    requires st.ruleMap[o - 1] == MapEntry(TypeOf(v6), s) && st'.ruleMap == st.ruleMap[o - 1 := NO_RULE]
    requires t'.owners == TableOf(st, v6).owners[s - 1 := NO_OWNER] && t'.used == TableOf(st, v6).used - {s}
    ensures MapsOk(st')
  {
    assert EntryOk(st, o);
    forall x | ValidOuter(x) ensures EntryOk(st', x) { assert EntryOk(st, x); }
    forall f, x | ValidSlot(x) ensures OwnerOk(st', f, x) { assert OwnerOk(st, f, x); }
  }

  lemma MapsAfterInsert(st: State, st': State, v6: bool, t': Table, o: nat, s: nat)
    requires MapsOk(st) && Updated(st, st', v6, t') && ValidOuter(o) && ValidSlot(s) && s !in TableOf(st, v6).used
    requires st.ruleMap[o - 1] == NO_RULE && st'.ruleMap == st.ruleMap[o - 1 := MapEntry(TypeOf(v6), s)]
    requires t'.owners == TableOf(st, v6).owners[s - 1 := MapRule(true, 1, o)] && t'.used == TableOf(st, v6).used + {s}
    ensures MapsOk(st')
  {
    forall x | ValidOuter(x) ensures EntryOk(st', x) { assert EntryOk(st, x); }
    forall f, x | ValidSlot(x) ensures OwnerOk(st', f, x) { assert OwnerOk(st, f, x); }
  }

  /** An outer id whose entry and whose slot's configuration stay keeps its rule. */
  lemma SameRule(st: State, st': State, v6: bool, t': Table, o: nat)
    requires MapsOk(st) && Updated(st, st', v6, t') && ValidOuter(o) && st'.ruleMap[o - 1] == st.ruleMap[o - 1]
    requires forall x :: x in TableOf(st, v6).used ==> t'.cfgs[x - 1] == TableOf(st, v6).cfgs[x - 1]
    ensures o in RulesIn(st') <==> o in RulesIn(st)
    ensures o in RulesIn(st) ==> RulesIn(st')[o] == RulesIn(st)[o]
  {
    assert EntryOk(st, o);
  }

  lemma RulesAfterWrite(st: State, st': State, v6: bool, t': Table)
    requires MapsOk(st) && Updated(st, st', v6, t') && st'.ruleMap == st.ruleMap
    requires forall x :: x in TableOf(st, v6).used ==> t'.cfgs[x - 1] == TableOf(st, v6).cfgs[x - 1]
    ensures RulesIn(st') == RulesIn(st)
  {
    forall x | ValidOuter(x)
      ensures x in RulesIn(st') <==> x in RulesIn(st)
      ensures x in RulesIn(st) ==> RulesIn(st')[x] == RulesIn(st)[x]
    {
      SameRule(st, st', v6, t', x);
    }
  }

  lemma RulesAfter(st: State, st': State, v6: bool, t': Table, o: nat)
    requires MapsOk(st) && Updated(st, st', v6, t') && ValidOuter(o) && t'.cfgs == TableOf(st, v6).cfgs
    requires forall x :: ValidOuter(x) && x != o ==> st'.ruleMap[x - 1] == st.ruleMap[x - 1]
    ensures RulesIn(st') - {o} == RulesIn(st) - {o}
  {
    forall x | ValidOuter(x) && x != o
      ensures x in RulesIn(st') <==> x in RulesIn(st)
      ensures x in RulesIn(st) ==> RulesIn(st')[x] == RulesIn(st)[x]
    {
      SameRule(st, st', v6, t', x);
    }
  }

  /** Writing a configuration into a free slot. */
  function WrittenIn(st: State, v6: bool, s: nat, cfg: RuleCfg): State
    requires |TableOf(st, v6).cfgs| == MAX_SLOTS && ValidSlot(s)
  {
    WithTable(st, v6, Written(TableOf(st, v6), s, cfg))
  }

  /** Releasing the slot of outer id o and clearing its entry. */
  ghost function Deleted(st: State, hash: HashIndex, o: nat, v6: bool): State
    requires |st.ruleMap| == MAX_RULE_PER_GROUP && ValidOuter(o)
    requires Linkable(TableOf(st, v6), hash, st.ruleMap[o - 1].actual)
  {
    WithTable(st, v6, Released(TableOf(st, v6), hash, st.ruleMap[o - 1].actual)).(ruleMap := st.ruleMap[o - 1 := NO_RULE])
  }

  /** Giving slot s to outer id o. */
  ghost function Inserted(st: State, hash: HashIndex, o: nat, v6: bool, s: nat): State
    requires |st.ruleMap| == MAX_RULE_PER_GROUP && ValidOuter(o) && Linkable(TableOf(st, v6), hash, s)
  {
    WithTable(st, v6, Occupied(TableOf(st, v6), hash, s, o)).(ruleMap := st.ruleMap[o - 1 := MapEntry(TypeOf(v6), s)])
  }

  lemma WriteStep(st: State, hash: HashIndex, c: Chains, v6: bool, s: nat, cfg: RuleCfg)
    requires StoreOk(st, hash, c) && ValidSlot(s) && s !in TableOf(st, v6).used
    ensures StoreOk(WrittenIn(st, v6, s, cfg), hash, c) && RulesIn(WrittenIn(st, v6, s, cfg)) == RulesIn(st)
  {
    Open(st, hash, c);
    var t := TableOf(st, v6);
    var st', t' := WrittenIn(st, v6, s, cfg), Written(t, s, cfg);
    assert MapsOk(st') by { MapsAfterWrite(st, st', v6, t'); }
    assert RulesIn(st') == RulesIn(st) by { RulesAfterWrite(st, st', v6, t'); }
    WriteKeeps(t, v6, hash, ChainsOf(c, v6), s, cfg);
  }

  /** What an update needs to know of the entry it is about to delete. */
  lemma EntryFacts(st: State, hash: HashIndex, c: Chains, o: nat)
    requires StoreOk(st, hash, c) && ValidOuter(o) && st.ruleMap[o - 1].ruleType != TYPE_NONE
    ensures var e := st.ruleMap[o - 1]; var v6 := e.ruleType == TYPE_TUPLE6; var t := TableOf(st, v6);
      && e == MapEntry(TypeOf(v6), e.actual) && e.actual in t.used && Linkable(t, hash, e.actual)
      && |ChainsOf(c, v6)| == BUCKET_CNT && e.actual in ChainsOf(c, v6)[hash(t.cfgs[e.actual - 1])]
  {
    Open(st, hash, c);
    assert EntryOk(st, o);
    var v6 := st.ruleMap[o - 1].ruleType == TYPE_TUPLE6;
    assert SlotOk(TableOf(st, v6), v6, hash, ChainsOf(c, v6), st.ruleMap[o - 1].actual);
  }

  /** What an entry of the outer-id map says about the map of rules. */
  lemma EntryMeans(st: State, hash: HashIndex, c: Chains, o: nat)
    requires StoreOk(st, hash, c) && ValidOuter(o)
    ensures o in RulesIn(st) <==> st.ruleMap[o - 1].ruleType != TYPE_NONE
    ensures var e := st.ruleMap[o - 1]; var v6 := e.ruleType == TYPE_TUPLE6;
      e.ruleType != TYPE_NONE ==>
        && e == MapEntry(TypeOf(v6), e.actual) && ValidSlot(e.actual)
        && RulesIn(st)[o] == Rule(v6, TableOf(st, v6).cfgs[e.actual - 1])
  {
    Open(st, hash, c);
    assert EntryOk(st, o);
  }

  lemma RulesAfterDelete(st: State, hash: HashIndex, o: nat, v6: bool)
    requires MapsOk(st) && ValidOuter(o) && st.ruleMap[o - 1].ruleType == TypeOf(v6)
    requires Linkable(TableOf(st, v6), hash, st.ruleMap[o - 1].actual)
    ensures MapsOk(Deleted(st, hash, o, v6))
    ensures o in RulesIn(st) && RulesIn(Deleted(st, hash, o, v6)) == RulesIn(st) - {o}
  {
    var st', s := Deleted(st, hash, o, v6), st.ruleMap[o - 1].actual;
    var t' := Released(TableOf(st, v6), hash, s);
    assert EntryOk(st, o);
    MapsAfterDelete(st, st', v6, t', o, s);
    RulesAfter(st, st', v6, t', o);
    assert o in RulesIn(st) && o !in RulesIn(st');
    hide RulesIn;
    GoneElsewhere(RulesIn(st), RulesIn(st'), o);
  }

  lemma RulesAfterInsert(st: State, hash: HashIndex, o: nat, v6: bool, s: nat)
    requires MapsOk(st) && ValidOuter(o) && st.ruleMap[o - 1] == NO_RULE
    requires Linkable(TableOf(st, v6), hash, s) && s !in TableOf(st, v6).used
    ensures MapsOk(Inserted(st, hash, o, v6, s))
    ensures RulesIn(Inserted(st, hash, o, v6, s)) == RulesIn(st)[o := Rule(v6, TableOf(st, v6).cfgs[s - 1])]
  {
    var st', t' := Inserted(st, hash, o, v6, s), Occupied(TableOf(st, v6), hash, s, o);
    MapsAfterInsert(st, st', v6, t', o, s);
    RulesAfter(st, st', v6, t', o);
    assert o in RulesIn(st') && RulesIn(st')[o] == Rule(v6, t'.cfgs[s - 1]);
    SameElsewhere(RulesIn(st), RulesIn(st'), o, Rule(v6, t'.cfgs[s - 1]));
  }

  lemma SameElsewhere<K, V>(m: map<K, V>, m': map<K, V>, k: K, v: V)
    requires m' - {k} == m - {k} && k in m' && m'[k] == v
    ensures m' == m[k := v]
  {
    forall x | x in m && x != k ensures x in m' && m'[x] == m[x] {
      assert x in m - {k};
    }
    forall x | x in m' && x != k ensures x in m {
      assert x in m' - {k};
    }
  }

  lemma GoneElsewhere<K, V>(m: map<K, V>, m': map<K, V>, k: K)
    requires m' - {k} == m - {k} && k !in m'
    ensures m' == m - {k}
  {
    assert m' - {k} == m';
  }

  /** Deleting removes exactly the rule o. */
  lemma DeleteStep(st: State, hash: HashIndex, c: Chains, o: nat, v6: bool) returns (c': Chains)
    requires StoreOk(st, hash, c) && ValidOuter(o) && st.ruleMap[o - 1].ruleType == TypeOf(v6)
    requires Linkable(TableOf(st, v6), hash, st.ruleMap[o - 1].actual)
    ensures StoreOk(Deleted(st, hash, o, v6), hash, c')
    ensures o in RulesIn(st) && RulesIn(Deleted(st, hash, o, v6)) == RulesIn(st) - {o}
  {
    assert MapsOk(st) by { Open(st, hash, c); }
    RulesAfterDelete(st, hash, o, v6);
    c' := DeleteChains(st, hash, c, o, v6);
  }

  lemma DeleteChains(st: State, hash: HashIndex, c: Chains, o: nat, v6: bool) returns (c': Chains)
    requires StoreOk(st, hash, c) && ValidOuter(o) && st.ruleMap[o - 1].ruleType == TypeOf(v6)
    requires Linkable(TableOf(st, v6), hash, st.ruleMap[o - 1].actual)
    ensures TableOk(Deleted(st, hash, o, v6).v4, false, hash, c'.v4)
    ensures TableOk(Deleted(st, hash, o, v6).v6, true, hash, c'.v6)
  {
    Open(st, hash, c);
    EntryFacts(st, hash, c, o);
    var t, s, chains := TableOf(st, v6), st.ruleMap[o - 1].actual, ChainsOf(c, v6);
    var b := hash(t.cfgs[s - 1]);
    var i :| 0 <= i < |chains[b]| && chains[b][i] == s;
    ReleaseKeeps(t, v6, hash, chains, i, s);
    c' := WithChains(c, v6, chains[b := Without(chains[b], i)]);
  }

  /** Inserting adds exactly the rule o. */
  lemma InsertStep(st: State, hash: HashIndex, c: Chains, o: nat, v6: bool, s: nat) returns (c': Chains)
    requires StoreOk(st, hash, c) && ValidOuter(o) && st.ruleMap[o - 1] == NO_RULE
    requires Linkable(TableOf(st, v6), hash, s) && s !in TableOf(st, v6).used
    requires ValidRule(Rule(v6, TableOf(st, v6).cfgs[s - 1]))
    requires var t := TableOf(st, v6); forall x :: x in t.used ==> t.cfgs[x - 1] != t.cfgs[s - 1]
    ensures StoreOk(Inserted(st, hash, o, v6, s), hash, c')
    ensures RulesIn(Inserted(st, hash, o, v6, s)) == RulesIn(st)[o := Rule(v6, TableOf(st, v6).cfgs[s - 1])]
  {
    assert MapsOk(st) by { Open(st, hash, c); }
    RulesAfterInsert(st, hash, o, v6, s);
    c' := InsertChains(st, hash, c, o, v6, s);
  }

  lemma InsertChains(st: State, hash: HashIndex, c: Chains, o: nat, v6: bool, s: nat) returns (c': Chains)
    requires StoreOk(st, hash, c) && ValidOuter(o)
    requires Linkable(TableOf(st, v6), hash, s) && s !in TableOf(st, v6).used
    requires ValidRule(Rule(v6, TableOf(st, v6).cfgs[s - 1]))
    requires var t := TableOf(st, v6); forall x :: x in t.used ==> t.cfgs[x - 1] != t.cfgs[s - 1]
    ensures TableOk(Inserted(st, hash, o, v6, s).v4, false, hash, c'.v4)
    ensures TableOk(Inserted(st, hash, o, v6, s).v6, true, hash, c'.v6)
  {
    Open(st, hash, c);
    var t, chains := TableOf(st, v6), ChainsOf(c, v6);
    var b := hash(t.cfgs[s - 1]);
    OccupyKeeps(t, v6, hash, chains, s, o);
    c' := WithChains(c, v6, chains[b := [s] + chains[b]]);
  }

  lemma DeleteOutcome(st: State, hash: HashIndex, c: Chains, o: nat, v6: bool) returns (c': Chains)
    requires StoreOk(st, hash, c) && ValidOuter(o) && st.ruleMap[o - 1].ruleType != TYPE_NONE
    requires v6 == (st.ruleMap[o - 1].ruleType == TYPE_TUPLE6)
    ensures Linkable(TableOf(st, v6), hash, st.ruleMap[o - 1].actual)
    ensures StoreOk(Deleted(st, hash, o, v6), hash, c')
    ensures o in RulesIn(st) && RulesIn(Deleted(st, hash, o, v6)) == RulesIn(st) - {o}
    ensures KeepsSlots(st, Deleted(st, hash, o, v6))
  {
    EntryFacts(st, hash, c, o);
    c' := DeleteStep(st, hash, c, o, v6);
  }

  /** Slot s is free and holds a configuration no used slot has. */
  ghost predicate FreeHolding(st: State, v6: bool, s: nat, cfg: RuleCfg)
    requires StateShape(st)
  {
    var t := TableOf(st, v6);
    && ValidSlot(s) && s !in t.used && t.cfgs[s - 1] == cfg
    && forall x :: x in t.used ==> t.cfgs[x - 1] != cfg
  }

  ghost predicate Absent(st: State, v6: bool, cfg: RuleCfg)
    requires StateShape(st)
  {
    var t := TableOf(st, v6);
    forall x :: x in t.used ==> t.cfgs[x - 1] != cfg
  }

  lemma InsertOutcome(st: State, hash: HashIndex, c: Chains, o: nat, rule: Rule, s: nat) returns (c': Chains)
    requires StoreOk(st, hash, c) && ValidOuter(o) && o !in RulesIn(st)
    requires FreeHolding(st, rule.v6, s, rule.cfg) && ValidRule(rule) && hash(rule.cfg) < BUCKET_CNT
    ensures Linkable(TableOf(st, rule.v6), hash, s)
    ensures StoreOk(Inserted(st, hash, o, rule.v6, s), hash, c')
    ensures RulesIn(Inserted(st, hash, o, rule.v6, s)) == RulesIn(st)[o := rule]
  {
    Open(st, hash, c);
    assert EntryOk(st, o);
    c' := InsertStep(st, hash, c, o, rule.v6, s);
  }

  /** The configurations stay and no slot becomes used. */
  ghost predicate KeepsSlots(st: State, st': State) {
    && st'.v4.cfgs == st.v4.cfgs && st'.v6.cfgs == st.v6.cfgs
    && st'.v4.used <= st.v4.used && st'.v6.used <= st.v6.used
  }
}
