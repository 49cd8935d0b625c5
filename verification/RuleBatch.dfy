/** A batch POST or PUT of rules, with the atomic variant that rolls back. */
module RuleBatch {
  import opened RuleMap
  import opened RuleStore
  import opened StoreState

  datatype GroupText = NoGroup | Group(id: int)

  datatype RuleText = NotDecimal | Decimal(id: nat)

  /** The body of one rule: unusable in shape, raising on conversion, without all and only the expected
      members, or convertible. */
  datatype RuleData = Unusable(reason: string) | IllTyped | WrongMembers | Convertible(v6: bool, input: RuleInput)

  /** One rule of a request, in the order the request lists them. */
  datatype Item = Item(group: GroupText, rule: RuleText, data: RuleData)

  datatype Step = Reject | Raise | Attempt(group: int, id: nat, input: RuleInput)

  datatype Reply = Done(failed: bool) | Raised

  /** What the handler does with an item before it reaches the store, check by check. */
  function StepOf(item: Item): Step {
    if item.group.NoGroup? then Reject
    else if item.group.id > MAX_RULE_GROUP_CNT || item.group.id <= 0 then Reject
    else if item.rule.NotDecimal? then Reject
    else if item.rule.id <= 0 || item.rule.id > MAX_RULE_PER_GROUP then Reject
    else match item.data
      case Unusable(_) => Reject
      case WrongMembers => Reject
      case IllTyped => Raise
      case Convertible(v6, input) =>
        if input.isIpv6 != (if v6 then 1 else 0) || !AcceptsInput(input) then Reject
        else Attempt(item.group.id, item.rule.id, input)
  }

  /** An item reaches the store exactly with a group and an id in range and an accepted rule of the family it
      names, and then under its own group and id with its own rule. It raises exactly when it passes the checks
      of group and id and its rule is ill-typed. */
  lemma StepMeans(item: Item)
    ensures forall group, id, input :: StepOf(item) == Attempt(group, id, input) <==>
      && item == Item(Group(group), Decimal(id), Convertible(input.isIpv6 == 1, input))
      && group == 1 && 1 <= id <= 4096 && AcceptsInput(input)
    ensures StepOf(item).Raise? <==>
      item.group == Group(1) && item.rule.Decimal? && 1 <= item.rule.id <= 4096 && item.data.IllTyped?
  {
  }

  // ---------- Specification: a run of creating items ----------

  /** The map after one item was handled, and whether it was stored. */
  ghost function Handled(m: Rules, item: Item, isPost: bool): (Rules, bool) {
    var s := StepOf(item);
    if s.Attempt? then
      var (m', code) := Try(m, s.group, s.id, s.input, isPost);
      (m', code == 0)
    else (m, false)
  }

  /** The item is stored as a new rule of m. */
  ghost predicate Creates(m: Rules, item: Item) {
    Handled(m, item, true).1
  }

  ghost function After(m: Rules, item: Item): Rules {
    Handled(m, item, true).0
  }

  /** m after POSTing all the items. */
  ghost function Posted(m: Rules, items: seq<Item>): Rules {
    if items == [] then m else After(Posted(m, items[..|items| - 1]), items[|items| - 1])
  }

  /** The position of the first item that creates nothing. */
  ghost function StopAt(m: Rules, items: seq<Item>): (k: nat)
    ensures k <= |items|
  {
    if items == [] then 0
    else
      var k := StopAt(m, items[..|items| - 1]);
      if k < |items| - 1 then k
      else if Creates(Posted(m, items[..|items| - 1]), items[|items| - 1]) then |items|
      else |items| - 1
  }

  ghost function IdsOf(items: seq<Item>): set<nat> {
    set i | 0 <= i < |items| && StepOf(items[i]).Attempt? :: StepOf(items[i]).id
  }

  /** The first k items all create. */
  ghost predicate AllCreate(m: Rules, items: seq<Item>) {
    forall i :: 0 <= i < |items| ==> Creates(Posted(m, items[..i]), items[i])
  }

  lemma OneMoreCreates(m: Rules, items: seq<Item>, item: Item)
    requires AllCreate(m, items) && Creates(Posted(m, items), item)
    ensures AllCreate(m, items + [item])
  {
    hide Creates, Posted;
    var more := items + [item];
    forall i | 0 <= i < |more| ensures Creates(Posted(m, more[..i]), more[i]) {
      assert more[..i] == if i < |items| then items[..i] else items;
    }
  }

  lemma {:induction false} StopAtMeans(m: Rules, items: seq<Item>)
    ensures var k := StopAt(m, items);
      AllCreate(m, items[..k]) && (k < |items| ==> !Creates(Posted(m, items[..k]), items[k]))
  {
    hide Creates, Posted;
    if items != [] {
      var front, last := items[..|items| - 1], items[|items| - 1];
      StopAtMeans(m, front);
      var k := StopAt(m, items);
      if k < |front| {
        assert front[..k] == items[..k] && front[k] == items[k];
      } else {
        assert front[..|front|] == front == items[..|front|];
        if k == |items| {
          OneMoreCreates(m, front, last);
          assert items[..k] == front + [last];
        }
      }
    }
  }

  ghost predicate Holds(m: Rules, item: Item) {
    var s := StepOf(item);
    s.Attempt? && AcceptsInput(s.input) && s.id in m && m[s.id] == RuleOf(s.input)
  }

  ghost predicate DistinctIds(items: seq<Item>) {
    forall i, j :: 0 <= i < j < |items| && StepOf(items[i]).Attempt? && StepOf(items[j]).Attempt?
      ==> StepOf(items[i]).id != StepOf(items[j]).id
  }

  /** m' is m with each item's rule added under an id that was free. */
  ghost predicate Added(m: Rules, m': Rules, items: seq<Item>) {
    && IdsOf(items) !! m.Keys && m'.Keys == m.Keys + IdsOf(items) && DistinctIds(items)
    && (forall id :: id in m ==> m'[id] == m[id])
    && (forall i :: 0 <= i < |items| ==> Holds(m', items[i]))
  }

  lemma AddedStep(m: Rules, m1: Rules, items: seq<Item>, n: nat)
    requires n + 1 == |items| && Added(m, m1, items[..n])
    requires var s := StepOf(items[n]); s.Attempt? && AcceptsInput(s.input) && s.id !in m1
    ensures var s := StepOf(items[n]); Added(m, m1[s.id := RuleOf(s.input)], items)
  {
    hide StepOf, AcceptsInput, RuleOf;
    var s, front := StepOf(items[n]), items[..n];
    var m' := m1[s.id := RuleOf(s.input)];
    assert IdsOf(items) == IdsOf(front) + {s.id};
    forall i | 0 <= i < |items| ensures Holds(m', items[i]) {
      if i < n {
        assert front[i] == items[i] && Holds(m1, front[i]);
      }
    }
    forall i | 0 <= i < n ensures StepOf(items[i]).id != s.id {
      assert Holds(m1, front[i]);
    }
    assert forall i, j :: 0 <= i < j < n ==> front[i] == items[i] && front[j] == items[j];
  }

  lemma CreateAdds(m: Rules, item: Item)
    requires RulesOk(m) && Creates(m, item)
    ensures RulesOk(After(m, item))
    ensures var s := StepOf(item);
      s.Attempt? && AcceptsInput(s.input) && s.id !in m && After(m, item) == m[s.id := RuleOf(s.input)]
  {
    var s := StepOf(item);
    hide RulesOk, StepOf, AcceptsInput, RuleOf;
    PostChangesOnlyOnCreate(m, s.group, s.id, s.input);
    TryKeeps(m, s.group, s.id, s.input, true);
  }

  /** A run of creating items keeps every old rule and adds each item's rule. */
  lemma {:induction false} PostedAdds(m: Rules, items: seq<Item>)
    requires RulesOk(m) && AllCreate(m, items)
    ensures RulesOk(Posted(m, items)) && Added(m, Posted(m, items), items)
  {
    hide RulesOk, StepOf, AcceptsInput, RuleOf, Handled;
    if items == [] {
      assert IdsOf(items) == {};
    } else {
      var n := |items| - 1;
      var front := items[..n];
      forall i | 0 <= i < n ensures front[..i] == items[..i] && Creates(Posted(m, front[..i]), front[i]) {
        assert Creates(Posted(m, items[..i]), items[i]);
      }
      PostedAdds(m, front);
      hide Added, AllCreate;
      assert Creates(Posted(m, front), items[n]);
      CreateAdds(Posted(m, front), items[n]);
      AddedStep(m, Posted(m, front), items, n);
    }
  }

  // ---------- Rolling back ----------

  /** m1 without the ids of the items: what the rollback has left. */
  ghost function RolledBack(m1: Rules, items: seq<Item>): Rules {
    m1 - IdsOf(items)
  }

  lemma RolledBackAll(m: Rules, m1: Rules, items: seq<Item>)
    requires Added(m, m1, items)
    ensures RolledBack(m1, items) == m
  {
    assert (m1 - IdsOf(items)).Keys == m.Keys;
  }

  lemma RolledBackStep(m: Rules, m1: Rules, items: seq<Item>, j: nat)
    requires Added(m, m1, items) && j < |items|
    ensures Holds(RolledBack(m1, items[..j]), items[j])
    ensures RolledBack(m1, items[..j]) - {StepOf(items[j]).id} == RolledBack(m1, items[..j + 1])
  {
    var s := StepOf(items[j]);
    assert Holds(m1, items[j]);
    assert IdsOf(items[..j + 1]) == IdsOf(items[..j]) + {s.id};
    forall i | 0 <= i < j && StepOf(items[..j][i]).Attempt? ensures StepOf(items[..j][i]).id != s.id {
      assert items[..j][i] == items[i];
    }
    assert s.id !in IdsOf(items[..j]);
  }

  // ---------- The handler ----------

  method TryItem(store: Store, item: Item, isPost: bool) returns (ok: bool, raised: bool)
    requires store.Valid()
    modifies store`chains, store.footprint
    ensures store.Valid()
    ensures raised == StepOf(item).Raise?
    ensures (store.Rules(), ok) == Handled(old(store.Rules()), item, isPost)
  {
    match StepOf(item)
    case Reject =>
      ok, raised := false, false;
    case Raise =>
      ok, raised := false, true;
    case Attempt(group, id, input) =>
      var code := store.TryMapNewRule(group, id, input, isPost);
      ok, raised := code == 0, false;
  }

  /** POSTs the next item of a request whose items so far have all been created. */
  method PostNext(store: Store, ghost m: Rules, items: seq<Item>, created: nat) returns (ok: bool, raised: bool)
    requires store.Valid() && created < |items| && created <= StopAt(m, items)
    requires store.Rules() == Posted(m, items[..created])
    modifies store`chains, store.footprint
    ensures store.Valid() && ok == (created < StopAt(m, items))
    ensures store.Rules() == Posted(m, items[..if ok then created + 1 else created])
    ensures raised == (!ok && StepOf(items[created]).Raise?)
  {
    hide StopAt, Posted, StepOf, StoreFacts, RulesIn, Handled;
    StopHere(m, items, created);
    PostedNext(m, items, created);
    Refused(Posted(m, items[..created]), items[created]);
    ok, raised := TryItem(store, items[created], true);
  }

  /** POSTs items until one creates nothing: how many were created, and whether that one raised. */
  method PostUntilFailure(store: Store, items: seq<Item>) returns (created: nat, raised: bool)
    requires store.Valid()
    modifies store`chains, store.footprint
    ensures store.Valid()
    ensures created == StopAt(old(store.Rules()), items)
    ensures store.Rules() == Posted(old(store.Rules()), items[..created])
    ensures raised == (created < |items| && StepOf(items[created]).Raise?)
  {
    ghost var m := store.Rules();
    created, raised := 0, false;
    assert items[..0] == [];
    hide StepOf, StopAt, StoreFacts, RulesIn;
    var going := true;
    while created < |items| && going
      invariant created <= StopAt(m, items) && store.Valid()
      invariant store.Rules() == Posted(m, items[..created])
      invariant !going ==> created == StopAt(m, items) < |items|
      invariant raised == (!going && StepOf(items[created]).Raise?)
      decreases |items| - created, going
    {
      going, raised := PostNext(store, m, items, created);
      if going {
        created := created + 1;
      }
    }
  }

  lemma Refused(m: Rules, item: Item)
    ensures StepOf(item).Raise? ==> !Creates(m, item)
    ensures !Creates(m, item) ==> After(m, item) == m
  {
  }

  lemma PostedNext(m: Rules, items: seq<Item>, i: nat)
    requires i < |items|
    ensures Posted(m, items[..i + 1]) == After(Posted(m, items[..i]), items[i])
  {
    assert items[..i + 1][..i] == items[..i];
  }

  /** The map an atomic POST leaves: a rejected item undoes the request, a raised exception does not. */
  ghost function Outcome(m: Rules, items: seq<Item>): Rules {
    var k := StopAt(m, items);
    if k == |items| then Posted(m, items)
    else if StepOf(items[k]).Raise? then Posted(m, items[..k])
    else m
  }

  ghost function ReplyTo(m: Rules, items: seq<Item>): Reply {
    var k := StopAt(m, items);
    if k == |items| then Done(false) else if StepOf(items[k]).Raise? then Raised else Done(true)
  }

  /** An atomic POST that took the rules from m to m' and gave this reply: success exactly when all items fit,
      and then all were added; failure, and then nothing has changed; or an exception, behind items that fit
      and stay added. */
  ghost predicate AllOrUndone(m: Rules, m': Rules, items: seq<Item>, reply: Reply) {
    && (reply == Done(false) <==> CreatableOn(m, items))
    && (reply == Done(false) ==> Added(m, m', items))
    && (reply == Done(true) ==> m' == m)
    && (reply == Raised <==> exists k: nat :: RaisesAt(m, items, k))
    && (forall k: nat :: RaisesAt(m, items, k) ==> Added(m, m', items[..k]))
  }

  /** The atomic POST. */
  method PostAtomic(store: Store, items: seq<Item>) returns (reply: Reply)
    requires store.Valid()
    modifies store`chains, store.footprint
    ensures store.Valid() && store.Rules() == Outcome(old(store.Rules()), items)
    ensures reply == ReplyTo(old(store.Rules()), items)
    ensures AllOrUndone(old(store.Rules()), store.Rules(), items, reply)
  {
    ghost var m := store.Rules();
    store.WellFormed();
    assert AllOrUndone(m, Outcome(m, items), items, ReplyTo(m, items)) by {
      OutcomeMeans(m, items);
    }
    hide AllOrUndone, StoreFacts, RulesIn, AllCreate, Added, StopAt, StepOf, Posted;
    var created, raised := PostUntilFailure(store, items);
    if raised {
      return Raised;
    }
    if created == |items| {
      assert items[..created] == items;
      return Done(false);
    }
    StopAtMeans(m, items);
    PostedAdds(m, items[..created]);
    RollBack(store, m, items[..created]);
    reply := Done(true);
  }

  /** All or nothing: either the map is as before or every item's rule is in it. An atomic POST is so
      exactly when it does not run into an exception after having created a rule. */
  ghost predicate AllOrNothing(m: Rules, items: seq<Item>) {
    || Outcome(m, items) == m
    || Added(m, Outcome(m, items), items)
  }

  lemma AllOrNothingIff(m: Rules, items: seq<Item>)
    requires RulesOk(m)
    ensures AllOrNothing(m, items) <==>
      !(0 < StopAt(m, items) < |items| && StepOf(items[StopAt(m, items)]).Raise?)
  {
    var k := StopAt(m, items);
    assert items[..0] == [] && Posted(m, []) == m;
    hide StepOf, Creates, AllCreate, RulesOk, AcceptsInput, RuleOf, StopAt, Added, Posted;
    StopAtMeans(m, items);
    PostedAdds(m, items[..k]);
    assert items[..|items|] == items;
    if 0 < k < |items| && StepOf(items[k]).Raise? {
      AddedDiffers(m, Outcome(m, items), items[..k]);
      RaisedNotAdded(m, Outcome(m, items), items, k);
    }
  }

  lemma RaisedNotAdded(m: Rules, m': Rules, items: seq<Item>, k: nat)
    requires k < |items| && StepOf(items[k]).Raise?
    ensures !Added(m, m', items)
  {
    assert !Holds(m', items[k]);
  }

  lemma AddedDiffers(m: Rules, m': Rules, items: seq<Item>)
    requires Added(m, m', items) && items != []
    ensures m' != m
  {
    assert Holds(m', items[0]) && StepOf(items[0]).id in IdsOf(items);
  }

  /** A well-typed batch never raises, so it is all or nothing on every store. */
  lemma WellTypedAllOrNothing(m: Rules, items: seq<Item>)
    requires RulesOk(m) && forall i :: 0 <= i < |items| ==> !items[i].data.IllTyped?
    ensures AllOrNothing(m, items)
  {
    AllOrNothingIff(m, items);
  }

  // ---------- The condition on the request alone ----------

  /** The rule an item asks for. */
  function RuleIn(item: Item): Rule
    requires StepOf(item).Attempt?
  {
    RuleOf(StepOf(item).input)
  }

  ghost predicate AllAttempts(items: seq<Item>) {
    forall i :: 0 <= i < |items| ==> StepOf(items[i]).Attempt?
  }

  ghost predicate DistinctRules(items: seq<Item>)
    requires AllAttempts(items)
  {
    forall i, j :: 0 <= i < j < |items| ==> RuleIn(items[i]) != RuleIn(items[j])
  }

  ghost function FamilyIds(items: seq<Item>, v6: bool): set<nat>
    requires AllAttempts(items)
  {
    set i | 0 <= i < |items| && RuleIn(items[i]).v6 == v6 :: StepOf(items[i]).id
  }

  /** Well-formed items with distinct ids and distinct rules, no more of a family than it has slots. */
  ghost predicate Creatable(items: seq<Item>) {
    && AllAttempts(items) && DistinctIds(items) && DistinctRules(items)
    && |FamilyIds(items, false)| <= FAMILY_SLOTS && |FamilyIds(items, true)| <= FAMILY_SLOTS
  }

  /** The item's id and rule are not in m. */
  ghost predicate Unclaimed(m: Rules, item: Item)
    requires StepOf(item).Attempt?
  {
    StepOf(item).id !in m && forall o :: o in m ==> m[o] != RuleIn(item)
  }

  ghost predicate RoomFor(m: Rules, items: seq<Item>, v6: bool)
    requires AllAttempts(items)
  {
    |Ids(m, v6)| + |FamilyIds(items, v6)| <= FAMILY_SLOTS
  }

  /** Items that fit a store with the rules m: creatable, unclaimed, and no more than it has slots left. */
  ghost predicate CreatableOn(m: Rules, items: seq<Item>) {
    && Creatable(items) && (forall i :: 0 <= i < |items| ==> Unclaimed(m, items[i]))
    && RoomFor(m, items, false) && RoomFor(m, items, true)
  }

  lemma CreatableOnEmpty(items: seq<Item>)
    ensures CreatableOn(map[], items) <==> Creatable(items)
  {
    hide StepOf, RuleIn, FamilyIds, DistinctIds, DistinctRules;
    assert Ids(map[], false) == {} && Ids(map[], true) == {};
  }

  /** Items that are all created fit ... */
  lemma CreatedAreCreatable(m: Rules, items: seq<Item>)
    requires RulesOk(m) && AllCreate(m, items)
    ensures CreatableOn(m, items)
  {
    hide StepOf, AllCreate, DistinctRules, DistinctIds, Unclaimed, FamilyIds, Ids;
    var m' := Posted(m, items);
    PostedAdds(m, items);
    AddedItems(m, m', items);
    FamilyFits(m, m', items, false);
    FamilyFits(m, m', items, true);
  }

  lemma AddedItems(m: Rules, m': Rules, items: seq<Item>)
    requires Added(m, m', items) && Injective(m')
    ensures AllAttempts(items) && DistinctRules(items)
    ensures forall i :: 0 <= i < |items| ==> Unclaimed(m, items[i])
  {
    hide StepOf, RuleOf, AcceptsInput;
    forall i | 0 <= i < |items|
      ensures StepOf(items[i]).Attempt? && Holds(m', items[i]) && Unclaimed(m, items[i])
    {
      assert Holds(m', items[i]) && StepOf(items[i]).id in IdsOf(items);
    }
    forall i, j | 0 <= i < j < |items| ensures RuleIn(items[i]) != RuleIn(items[j]) {
      assert Holds(m', items[i]) && Holds(m', items[j]);
    }
  }

  lemma FamilyFits(m: Rules, m': Rules, items: seq<Item>, v6: bool)
    requires AllAttempts(items) && RulesOk(m') && Added(m, m', items)
    ensures RoomFor(m, items, v6)
  {
    hide StepOf, RuleOf, AcceptsInput;
    forall id | id in FamilyIds(items, v6) ensures id in Ids(m', v6) && id !in m {
      var i :| 0 <= i < |items| && RuleIn(items[i]).v6 == v6 && StepOf(items[i]).id == id;
      assert Holds(m', items[i]) && id in IdsOf(items);
    }
    assert Ids(m, v6) !! FamilyIds(items, v6);
    SubsetSize(Ids(m, v6) + FamilyIds(items, v6), Ids(m', v6));
    assert v6 || !v6;
  }

  lemma FamilyIdsMore(items: seq<Item>, item: Item, v6: bool)
    requires AllAttempts(items) && StepOf(item).Attempt?
    ensures AllAttempts(items + [item])
    ensures FamilyIds(items + [item], v6) ==
            FamilyIds(items, v6) + if RuleIn(item).v6 == v6 then {StepOf(item).id} else {}
  {
    var all := items + [item];
    hide StepOf, RuleIn;
    assert all[|items|] == item && forall i :: 0 <= i < |items| ==> all[i] == items[i];
    forall id | id in FamilyIds(items, v6) ensures id in FamilyIds(all, v6) {
      var i :| 0 <= i < |items| && RuleIn(items[i]).v6 == v6 && StepOf(items[i]).id == id;
      assert RuleIn(all[i]).v6 == v6;
    }
    assert RuleIn(item).v6 == v6 ==> RuleIn(all[|items|]).v6 == v6;
  }

  lemma CreatableItems(items: seq<Item>, item: Item)
    requires Creatable(items + [item])
    ensures AllAttempts(items) && StepOf(item).Attempt? && DistinctIds(items) && DistinctRules(items)
    ensures forall i :: 0 <= i < |items| ==> StepOf(items[i]).id != StepOf(item).id && RuleIn(items[i]) != RuleIn(item)
  {
    var all := items + [item];
    hide StepOf, RuleIn, FamilyIds;
    assert all[|items|] == item && forall i :: 0 <= i < |items| ==> all[i] == items[i];
  }

  /** What an item that fits behind others has to be. */
  ghost predicate Fresh(m: Rules, items: seq<Item>, item: Item)
    requires AllAttempts(items)
  {
    && StepOf(item).Attempt? && Unclaimed(m, item)
    && (forall i :: 0 <= i < |items| ==> StepOf(items[i]).id != StepOf(item).id && RuleIn(items[i]) != RuleIn(item))
    && |Ids(m, RuleIn(item).v6)| + |FamilyIds(items, RuleIn(item).v6)| < FAMILY_SLOTS
  }

  lemma FitsFront(m: Rules, items: seq<Item>, item: Item)
    requires CreatableOn(m, items + [item])
    ensures CreatableOn(m, items) && AllAttempts(items) && Fresh(m, items, item)
  {
    var all := items + [item];
    CreatableItems(items, item);
    FamilyMore(items, item, false);
    FamilyMore(items, item, true);
    hide StepOf, RuleIn, FamilyIds, Ids, AllAttempts, DistinctIds, DistinctRules, Unclaimed;
    assert all[|items|] == item && forall i :: 0 <= i < |items| ==> all[i] == items[i];
    assert Unclaimed(m, all[|items|]);
  }

  lemma FamilyMore(items: seq<Item>, item: Item, v6: bool)
    requires AllAttempts(items) && StepOf(item).Attempt?
    requires forall i :: 0 <= i < |items| ==> StepOf(items[i]).id != StepOf(item).id
    ensures AllAttempts(items + [item])
    ensures |FamilyIds(items + [item], v6)| == |FamilyIds(items, v6)| + if RuleIn(item).v6 == v6 then 1 else 0
  {
    FamilyIdsMore(items, item, v6);
    hide StepOf, RuleIn, AllAttempts;
    assert StepOf(item).id !in FamilyIds(items, v6);
  }

  /** ... and items that fit are all created. */
  lemma {:induction false} CreatableAreCreated(m: Rules, items: seq<Item>)
    requires RulesOk(m) && CreatableOn(m, items)
    ensures AllCreate(m, items)
    decreases |items|
  {
    hide RulesOk, CreatableOn, Posted, Creates, Added, Fresh, StepOf;
    if items != [] {
      hide AllCreate;
      var n := |items| - 1;
      var front, item := items[..n], items[n];
      assert items == front + [item];
      FitsFront(m, front, item);
      hide AllAttempts;
      CreatableAreCreated(m, front);
      PostedAdds(m, front);
      CreatesNext(m, Posted(m, front), front, item);
      OneMoreCreates(m, front, item);
    }
  }

  lemma EmptyOk()
    ensures RulesOk(map[])
  {
    assert Ids(map[], false) == {} && Ids(map[], true) == {};
  }

  /** After adding the items, every rule is an old one or an item's. */
  lemma OldOrAdded(m: Rules, m1: Rules, items: seq<Item>, id: nat)
    requires AllAttempts(items) && Added(m, m1, items) && id in m1
    ensures
      || (id in m && m1[id] == m[id])
      || exists i :: 0 <= i < |items| && StepOf(items[i]).id == id && m1[id] == RuleIn(items[i])
  {
    hide StepOf, AcceptsInput, RuleOf;
    if id !in m {
      var i :| 0 <= i < |items| && StepOf(items[i]).Attempt? && StepOf(items[i]).id == id;
      assert Holds(m1, items[i]);
    }
  }

  lemma CreatesNext(m: Rules, m1: Rules, front: seq<Item>, item: Item)
    requires AllAttempts(front) && Added(m, m1, front) && Fresh(m, front, item)
    ensures Creates(m1, item)
  {
    hide StepOf, AcceptsInput, RuleIn, Added, AllAttempts;
    var s, r := StepOf(item), RuleIn(item);
    forall id | id in m1
      ensures id != s.id && m1[id] != r && (id in Ids(m1, r.v6) ==> id in Ids(m, r.v6) + FamilyIds(front, r.v6))
    {
      OldOrAdded(m, m1, front, id);
    }
    SubsetSize(Ids(m1, r.v6), Ids(m, r.v6) + FamilyIds(front, r.v6));
    assert |Ids(m1, r.v6)| < FAMILY_SLOTS;
    CreatesFresh(m1, item);
  }

  lemma CreatesFresh(m: Rules, item: Item)
    requires StepOf(item).Attempt? && Unclaimed(m, item) && |Ids(m, RuleIn(item).v6)| < FAMILY_SLOTS
    ensures Creates(m, item)
  {
    assert AcceptsInput(StepOf(item).input);
    hide AcceptsInput, RuleOf;
    assert Owner(m, RuleIn(item)) == 0;
  }

  /** Item k raises behind items that m has room for. */
  ghost predicate RaisesAt(m: Rules, items: seq<Item>, k: nat) {
    k < |items| && StepOf(items[k]).Raise? && CreatableOn(m, items[..k])
  }

  lemma FitsIff(m: Rules, items: seq<Item>, k: nat)
    requires RulesOk(m) && k <= |items|
    ensures CreatableOn(m, items[..k]) <==> k <= StopAt(m, items)
  {
    StopAtMeans(m, items);
    var stop := StopAt(m, items);
    hide StopAt, CreatableOn, AllCreate, Creates, Posted, RulesOk;
    if k <= stop {
      FrontCreates(m, items, stop, k);
      CreatedAreCreatable(m, items[..k]);
    } else if CreatableOn(m, items[..k]) {
      CreatableAreCreated(m, items[..k]);
      CreatesAt(m, items, k, stop);
    }
  }

  lemma FrontCreates(m: Rules, items: seq<Item>, k: nat, i: nat)
    requires i <= k <= |items| && AllCreate(m, items[..k])
    ensures AllCreate(m, items[..i])
  {
    hide Creates, Posted;
    forall j | 0 <= j < i ensures Creates(Posted(m, items[..i][..j]), items[..i][j]) {
      CreatesAt(m, items, k, j);
      assert items[..i][..j] == items[..j];
    }
  }

  lemma RaisesAtStop(m: Rules, items: seq<Item>, k: nat)
    requires RulesOk(m)
    ensures RaisesAt(m, items, k) <==> k == StopAt(m, items) < |items| && StepOf(items[k]).Raise?
  {
    hide StopAt, CreatableOn, AllCreate, RulesOk, StepOf;
    StopAtMeans(m, items);
    if k < |items| && StepOf(items[k]).Raise? {
      FitsIff(m, items, k);
      if k < StopAt(m, items) {
        FrontRaises(m, items, StopAt(m, items), k);
      }
    }
  }

  /** What an atomic POST leaves: every item's rule if m has room for all of them, the rules in front of an
      exception if it runs into one, and otherwise m. */
  lemma OutcomeMeans(m: Rules, items: seq<Item>)
    requires RulesOk(m)
    ensures forall k: nat :: RaisesAt(m, items, k) <==> k == StopAt(m, items) < |items| && StepOf(items[k]).Raise?
    ensures AllOrUndone(m, Outcome(m, items), items, ReplyTo(m, items))
  {
    var stop := StopAt(m, items);
    hide StopAt, CreatableOn, RaisesAt, AllCreate, Creates, Posted, Added, RulesOk, StepOf;
    StopAtMeans(m, items);
    PostedAdds(m, items[..stop]);
    assert items[..|items|] == items;
    FitsIff(m, items, |items|);
    forall k: nat ensures RaisesAt(m, items, k) <==> k == stop < |items| && StepOf(items[k]).Raise? {
      RaisesAtStop(m, items, k);
    }
  }

  /** No item in front of the stop raises. */
  lemma FrontRaises(m: Rules, items: seq<Item>, k: nat, i: nat)
    requires i < k <= |items| && AllCreate(m, items[..k])
    ensures !StepOf(items[i]).Raise?
  {
    CreatesAt(m, items, k, i);
    hide Posted, AllCreate;
    Refused(Posted(m, items[..i]), items[i]);
  }

  lemma StopIs(m: Rules, items: seq<Item>, k: nat)
    requires k < |items| && AllCreate(m, items[..k]) && !Creates(Posted(m, items[..k]), items[k])
    ensures StopAt(m, items) == k
  {
    StopAtMeans(m, items);
    var stop := StopAt(m, items);
    hide Creates, Posted, StopAt, AllCreate;
    if stop < k {
      CreatesAt(m, items, k, stop);
    } else if k < stop {
      CreatesAt(m, items, stop, k);
    }
  }

  lemma CreatesAt(m: Rules, items: seq<Item>, k: nat, i: nat)
    requires i < k <= |items| && AllCreate(m, items[..k])
    ensures Creates(Posted(m, items[..i]), items[i])
  {
    hide Creates, Posted;
    assert items[..k][..i] == items[..i] && items[..k][i] == items[i];
    assert Creates(Posted(m, items[..k][..i]), items[..k][i]);
  }

  /** Item k raises behind a non-empty run of items that can all be created. */
  ghost predicate RaisesBehind(items: seq<Item>, k: nat) {
    0 < k < |items| && StepOf(items[k]).Raise? && Creatable(items[..k])
  }

  /** An atomic POST is all or nothing on every store, and already on the empty one, exactly when no item
      that raises stands behind items that can all be created. */
  lemma AllOrNothingEverywhereIff(items: seq<Item>)
    ensures (forall m :: RulesOk(m) ==> AllOrNothing(m, items)) <==> !exists k :: RaisesBehind(items, k)
    ensures AllOrNothing(map[], items) <==> !exists k :: RaisesBehind(items, k)
  {
    hide AllOrNothing, Creatable, StepOf, RulesOk;
    EmptyOk();
    if k: nat :| RaisesBehind(items, k) {
      CreatableOnEmpty(items[..k]);
      hide CreatableOn;
      OutcomeMeans(map[], items);
      assert RaisesAt(map[], items, k);
      AllOrNothingIff(map[], items);
    }
    forall m | RulesOk(m) && !AllOrNothing(m, items) ensures exists k :: RaisesBehind(items, k) {
      AllOrNothingIff(m, items);
      OutcomeMeans(m, items);
      assert RaisesAt(m, items, StopAt(m, items));
      assert RaisesBehind(items, StopAt(m, items));
    }
  }

  /** A good rule followed by an ill-typed one leaves the good rule behind. */
  lemma IllTypedLeavesHalf()
    ensures exists items :: |items| == 2 && !AllOrNothing(map[], items)
  {
    var any := Ip4([0, 0, 0, 0]);
    var input := RuleInput(0, 0, 0xFFFF, 0, 0xFFFF, 0, 255, any, 0, any, 0);
    var good := Item(Group(1), Decimal(1), Convertible(false, input));
    var items := [good, Item(Group(1), Decimal(2), IllTyped)];
    assert items[..1] == [good] && [good][..0] == [];
    assert Creates(map[], good) by {
      assert Ids(map[], false) == {};
    }
    assert StopAt(map[], []) == 0 && StopAt(map[], [good]) == 1;
    assert StopAt(map[], items) == 1;
    assert RulesOk(map[]) by {
      assert Ids(map[], false) == {} && Ids(map[], true) == {};
    }
    AllOrNothingIff(map[], items);
    assert |items| == 2 && !AllOrNothing(map[], items);
  }

  /** Deletes one rule the request created. */
  method DeleteCreated(store: Store, item: Item)
    requires store.Valid() && Holds(store.Rules(), item)
    modifies store`chains, store.footprint
    ensures store.Valid() && store.Rules() == old(store.Rules()) - {StepOf(item).id}
  {
    var s := StepOf(item);
    var code := store.DeleteOldMap(s.group, s.id, false);
  }

  /** Deletes each rule the request created. */
  method RollBack(store: Store, ghost m: Rules, created: seq<Item>)
    requires store.Valid() && Added(m, store.Rules(), created)
    modifies store`chains, store.footprint
    ensures store.Valid() && store.Rules() == m
  {
    hide Added, Holds, StepOf, StoreFacts, RulesIn;
    ghost var m1 := store.Rules();
    assert IdsOf(created[..0]) == {};
    for j := 0 to |created|
      invariant store.Valid() && store.Rules() == RolledBack(m1, created[..j])
    {
      RolledBackStep(m, m1, created, j);
      DeleteCreated(store, created[j]);
    }
    assert created[..|created|] == created;
    RolledBackAll(m, m1, created);
  }

  /** At position i, with all earlier items created, the item creates iff the stop lies further on. */
  lemma StopHere(m: Rules, items: seq<Item>, i: nat)
    requires i < |items| && i <= StopAt(m, items)
    ensures Creates(Posted(m, items[..i]), items[i]) <==> i < StopAt(m, items)
  {
    StopAtMeans(m, items);
    var k := StopAt(m, items);
    if i < k {
      CreatesAt(m, items, k, i);
    }
  }
}
