/** The rule store in shared memory: the arrays of both address families, and the POST, PUT and DELETE
    operations that keep them standing for a map from outer id to rule. */
module RuleStore {
  import opened Words
  import opened SlotBitmap
  import opened HashChains
  import opened RuleMap
  import opened TupleTable
  import opened StoreState
  import opened Options

  /** The arrays of one family. */
  class Family {
    const hash: HashIndex
    const bitmap: Bitmap
    const links: HashTable
    const cfgs: array<RuleCfg>
    const owners: array<MapRule>

    ghost const footprint: set<object>

    ghost predicate Separate()
      reads footprint
    {
      && {bitmap.words as object, links.heads as object, links.counts as object, links.prevs as object,
          links.nexts as object, cfgs as object, owners as object} <= footprint
      && bitmap.words !in {links.heads, links.counts, links.prevs, links.nexts}
      && links.Distinct() && bitmap.Valid()
    }

    ghost function View(): Table
      requires Separate()
      reads footprint
    {
      Table(bitmap.Used(), links.View(), cfgs[..], owners[..])
    }

    constructor (hash: HashIndex, ghost v6: bool)
      ensures Separate() && fresh(footprint) && this.hash == hash
      ensures EmptyTable(View(), v6, hash)
    {
      this.hash := hash;
      var words := new Bitmap();
      var table := new HashTable();
      var rules := new RuleCfg[MAX_SLOTS](_ => RuleCfg(0, 0, 0, 0, 0, 0, 0, 0, [], []));
      var back := new MapRule[MAX_SLOTS](_ => NO_OWNER);
      bitmap, links, cfgs, owners := words, table, rules, back;
      footprint := {words.words as object, table.heads as object, table.counts as object, table.prevs as object,
                    table.nexts as object, rules as object, back as object};
      new;
      forall s | ValidSlot(s) ensures SlotOk(View(), v6, hash, NoChains(), s) {
      }
    }

    /** Writes the configuration of a slot. */
    method Write(s: nat, cfg: RuleCfg)
      requires Separate() && cfgs.Length == MAX_SLOTS && ValidSlot(s)
      modifies cfgs
      ensures Separate() && View() == Written(old(View()), s, cfg)
    {
      cfgs[s - 1] := cfg;
    }

    /** Clears a slot's owner, unlinks it from its bucket and marks it free. */
    method Release(s: nat)
      requires Separate() && Linkable(View(), hash, s)
      modifies footprint
      ensures Separate() && View() == Released(old(View()), hash, s)
    {
      owners[s - 1] := NO_OWNER;
      links.Free(hash(cfgs[s - 1]), s);
      bitmap.UnsetUsed(s);
    }

    /** Gives a slot its owner, marks it used and links it into the bucket of its key. */
    method Occupy(s: nat, outer: nat)
      requires Separate() && Linkable(View(), hash, s)
      modifies footprint
      ensures Separate() && View() == Occupied(old(View()), hash, s, outer)
    {
      owners[s - 1] := MapRule(true, 1, outer);
      bitmap.SetUsed(s);
      links.Insert(hash(cfgs[s - 1]), s);
    }
  }

  /** The two families of an empty store. */
  method NewFamilies(hash: HashIndex) returns (v4: Family, v6: Family)
    ensures v4.Separate() && v6.Separate() && v4.hash == v6.hash == hash
    ensures fresh(v4.footprint) && fresh(v6.footprint) && v4.footprint !! v6.footprint
    ensures EmptyTable(v4.View(), false, hash) && EmptyTable(v6.View(), true, hash)
  {
    v4 := new Family(hash, false);
    hide EmptyTable;
    v6 := new Family(hash, true);
  }

  class Store {
    const v4: Family
    const v6: Family
    const ruleMap: array<MapEntry>
    ghost var chains: Chains

    ghost const footprint: set<object>

    ghost predicate Separate()
      reads footprint
    {
      && v4.footprint <= footprint && v6.footprint <= footprint && ruleMap as object in footprint
      && v4.footprint !! v6.footprint && ruleMap !in v4.footprint + v6.footprint && this !in footprint
      && v4.Separate() && v6.Separate()
      && v4.hash == v6.hash && forall cfg :: v4.hash(cfg) < BUCKET_CNT
    }

    ghost function View(): State
      requires Separate()
      reads footprint
    {
      State(ruleMap[..], v4.View(), v6.View())
    }

    /** The store invariant. */
    ghost predicate Valid()
      reads this, footprint
    {
      Separate() && StoreOk(View(), v4.hash, chains)
    }

    /** The map of rules the store stands for. */
    ghost function Rules(): RuleMap.Rules
      requires Valid()
      reads this, footprint
    {
      RulesIn(View())
    }

    constructor (hash: HashIndex)
      requires forall cfg :: hash(cfg) < BUCKET_CNT
      ensures Valid() && Rules() == map[] && fresh(footprint) && v4.hash == v6.hash == hash
    {
      var f4, f6 := NewFamilies(hash);
      hide EmptyTable, StoreFacts, RulesIn;
      var entries := new MapEntry[MAX_RULE_PER_GROUP](_ => NO_RULE);
      v4, v6, ruleMap, chains := f4, f6, entries, Chains(NoChains(), NoChains());
      footprint := f4.footprint + f6.footprint + {entries as object};
      new;
      EmptyStore(View(), hash);
    }

    lemma WellFormed()
      requires Valid()
      ensures RulesOk(Rules())
    {
      RulesInOk(View(), v4.hash, chains);
    }

    /** The rule type of an outer id. */
    method RuleType(group: int, outer: int) returns (t: int)
      requires Valid()
      ensures t == if group <= 0 || group > MAX_RULE_GROUP_CNT || !ValidOuter(outer) then -1
                   else if outer !in Rules() then 0 else if Rules()[outer].v6 then 2 else 1
    {
      if group <= 0 || group > MAX_RULE_GROUP_CNT || outer <= 0 || outer > MAX_RULE_PER_GROUP {
        return -1;
      }
      Open(View(), v4.hash, chains);
      assert EntryOk(View(), outer);
      t := ruleMap[outer - 1].ruleType;
    }

    /** The next configured outer id after `start`, or 0. */
    method FindNextRule(group: int, start: nat) returns (next: int)
      requires Valid()
      ensures next == -1 <==> group <= 0 || group > MAX_RULE_GROUP_CNT
      ensures next == 0 ==> forall o :: o in Rules() ==> o <= start
      ensures next > 0 ==> next in Rules() && next > start && forall o :: start < o < next ==> o !in Rules()
      ensures next >= -1
    {
      if group <= 0 || group > MAX_RULE_GROUP_CNT {
        return -1;
      }
      Open(View(), v4.hash, chains);
      next := start + 1;
      while next <= MAX_RULE_PER_GROUP
        invariant start < next && forall o :: start < o < next ==> o !in Rules()
      {
        assert EntryOk(View(), next);
        if ruleMap[next - 1].ruleType != TYPE_NONE {
          return;
        }
        next := next + 1;
      }
      next := 0;
    }

    /** Reads one rule back, if there is one under the id. */
    method GetRule(group: int, outer: int) returns (rule: Option<Rule>)
      requires Valid()
      ensures rule == if 0 < group <= MAX_RULE_GROUP_CNT && ValidOuter(outer) && outer in Rules() then Some(Rules()[outer])
                      else None
    {
      if group <= 0 || group > MAX_RULE_GROUP_CNT || outer <= 0 || outer > MAX_RULE_PER_GROUP {
        return None;
      }
      EntryMeans(View(), v4.hash, chains, outer);
      var entry := ruleMap[outer - 1];
      if entry.ruleType == TYPE_TUPLE4 {
        rule := Some(Rule(false, v4.cfgs[entry.actual - 1]));
      } else if entry.ruleType == TYPE_TUPLE6 {
        rule := Some(Rule(true, v6.cfgs[entry.actual - 1]));
      } else {
        rule := None;
      }
    }

    /** The slot whose configuration is cfg, or 0. */
    method FindActual(v6: bool, cfg: RuleCfg) returns (slot: nat)
      requires Valid()
      ensures slot != 0 ==> slot in TableOf(View(), v6).used && TableOf(View(), v6).cfgs[slot - 1] == cfg
      ensures slot == 0 ==> Absent(View(), v6, cfg)
    {
      Open(View(), v4.hash, chains);
      var family := if v6 then this.v6 else v4;
      ghost var c := ChainsOf(chains, v6);
      var b := family.hash(cfg);
      slot := family.links.Find(b, family.cfgs, cfg, c);
      ghost var t := family.View();
      if slot != 0 {
        assert SlotOk(t, v6, family.hash, c, slot);
      } else {
        forall s | s in t.used ensures t.cfgs[s - 1] != cfg {
          assert SlotOk(t, v6, family.hash, c, s);
        }
      }
    }

    /** Releases the slot of an outer id and clears its entry. */
    method Unmap(outer: nat, v6: bool, ghost c: Chains)
      requires Separate() && StateShape(View()) && ValidOuter(outer)
      requires Linkable(TableOf(View(), v6), v4.hash, ruleMap[outer - 1].actual)
      modifies `chains, footprint
      ensures Separate() && View() == Deleted(old(View()), v4.hash, outer, v6) && chains == c
    {
      hide Released;
      chains := c;
      var slot := ruleMap[outer - 1].actual;
      if v6 {
        this.v6.Release(slot);
      } else {
        v4.Release(slot);
      }
      ruleMap[outer - 1] := NO_RULE;
    }

    /** Gives a slot to an outer id: both maps, the bitmap and the hash. */
    method Map(outer: nat, v6: bool, slot: nat, ghost c: Chains)
      requires Separate() && StateShape(View()) && ValidOuter(outer)
      requires Linkable(TableOf(View(), v6), v4.hash, slot)
      modifies `chains, footprint
      ensures Separate() && View() == Inserted(old(View()), v4.hash, outer, v6, slot) && chains == c
    {
      hide Occupied;
      chains := c;
      ruleMap[outer - 1] := MapEntry(TypeOf(v6), slot);
      if v6 {
        this.v6.Occupy(slot, outer);
      } else {
        v4.Occupy(slot, outer);
      }
    }

    /** Removes the rule of an outer id. No configuration is touched and no slot becomes used. */
    method Remove(outer: nat)
      requires Valid() && ValidOuter(outer) && ruleMap[outer - 1].ruleType != TYPE_NONE
      modifies `chains, footprint
      ensures Valid() && outer in old(Rules()) && Rules() == old(Rules()) - {outer}
      ensures KeepsSlots(old(View()), View())
    {
      ghost var st := View();
      hide StoreFacts, RulesIn, Deleted, TableShape;
      var v6 := ruleMap[outer - 1].ruleType == TYPE_TUPLE6;
      ghost var c' := DeleteOutcome(st, v4.hash, chains, outer, v6);
      Unmap(outer, v6, c');
    }

    /** DELETE of one outer id. */
    method DeleteOldMap(group: int, outer: int, noCheck: bool) returns (code: int)
      requires Valid()
      modifies `chains, footprint
      ensures Valid()
      ensures (Rules(), code) == Delete(old(Rules()), group, outer, noCheck)
      ensures Rules() == old(Rules()) - (if code == 0 then {outer} else {})
      ensures code == if group != 1 || !(1 <= outer <= 4096) then -1
                      else if outer !in old(Rules()) && !noCheck then -2 else 0
      ensures KeepsSlots(old(View()), View())
    {
      if group <= 0 || group > MAX_RULE_GROUP_CNT || outer <= 0 || outer > MAX_RULE_PER_GROUP {
        return -1;
      }
      if ruleMap[outer - 1].ruleType == TYPE_NONE {
        Open(View(), v4.hash, chains);
        assert EntryOk(View(), outer);
        return if noCheck then 0 else -2;
      }
      Remove(outer);
      code := 0;
    }

    /** The lowest free slot of a family, or 0 when the family is full. */
    method FirstUnused(v6: bool) returns (slot: nat)
      requires Valid()
      ensures slot == 0 <==> |Ids(Rules(), v6)| == FAMILY_SLOTS
      ensures slot != 0 ==> ValidSlot(slot) && slot !in TableOf(View(), v6).used
    {
      FullIff(View(), v4.hash, chains, v6);
      if v6 {
        slot := this.v6.bitmap.FirstUnused();
      } else {
        slot := v4.bitmap.FirstUnused();
      }
    }

    /** Stores a configuration the family lacks in a free slot. */
    method SetCfg(v6: bool, slot: nat, cfg: RuleCfg)
      requires Valid() && ValidSlot(slot) && slot !in TableOf(View(), v6).used && Absent(View(), v6, cfg)
      modifies footprint
      ensures Valid() && Rules() == old(Rules()) && FreeHolding(View(), v6, slot, cfg)
    {
      hide StoreFacts, RulesIn;
      WriteStep(View(), v4.hash, chains, v6, slot, cfg);
      if v6 {
        this.v6.Write(slot, cfg);
      } else {
        v4.Write(slot, cfg);
      }
      assert View() == WrittenIn(old(View()), v6, slot, cfg);
    }

    /** Adds the rule stored in a free slot under a free outer id. */
    method Add(outer: nat, rule: Rule, slot: nat)
      requires Valid() && ValidOuter(outer) && outer !in Rules() && ValidRule(rule)
      requires FreeHolding(View(), rule.v6, slot, rule.cfg)
      modifies `chains, footprint
      ensures Valid() && Rules() == old(Rules())[outer := rule]
    {
      ghost var st := View();
      hide StoreFacts, RulesIn, Inserted, TableShape;
      ghost var c' := InsertOutcome(st, v4.hash, chains, outer, rule, slot);
      Map(outer, rule.v6, slot, c');
    }

    /** The outer id that owns the slot found for a rule. */
    method FindOuter(rule: Rule, slot: nat) returns (outer: nat)
      requires Valid() && slot in TableOf(View(), rule.v6).used && TableOf(View(), rule.v6).cfgs[slot - 1] == rule.cfg
      ensures outer == Owner(Rules(), rule) != 0
    {
      RulesInjective(View(), v4.hash, chains);
      FoundIsOwner(View(), v4.hash, chains, rule.v6, rule.cfg, slot);
      outer := if rule.v6 then this.v6.owners[slot - 1].outer else v4.owners[slot - 1].outer;
    }

    /** Creates a rule the store does not have; PUT first removes what the id held. */
    method Create(outer: nat, rule: Rule, checkOld: bool) returns (code: int)
      requires Valid() && ValidOuter(outer) && ValidRule(rule) && (checkOld ==> outer !in Rules())
      requires Absent(View(), rule.v6, rule.cfg)
      modifies `chains, footprint
      ensures Valid()
      ensures if |Ids(old(Rules()), rule.v6)| == FAMILY_SLOTS then code == RULE_FULL && Rules() == old(Rules())
              else code == 0 && Rules() == old(Rules())[outer := rule]
    {
      hide StoreFacts, RulesIn;
      var slot := FirstUnused(rule.v6);
      if slot == 0 {
        return RULE_FULL;
      }
      ghost var m := Rules();
      SetCfg(rule.v6, slot, rule.cfg);
      if !checkOld {
        var deleted := DeleteOldMap(MAX_RULE_GROUP_CNT, outer, true);
        assert deleted == 0;
      }
      assert Rules() == if checkOld then m else Delete(m, MAX_RULE_GROUP_CNT, outer, true).0;
      PutAfterDelete(m, outer, rule);
      Add(outer, rule, slot);
      code := 0;
    }

    /** Stores a rule under an id, unless some id has it already. */
    method PlaceRule(outer: nat, rule: Rule, checkOld: bool) returns (code: int)
      requires Valid() && ValidOuter(outer) && ValidRule(rule) && (checkOld ==> outer !in Rules())
      modifies `chains, footprint
      ensures Valid() && (Rules(), code) == Place(old(Rules()), outer, rule)
    {
      hide StoreFacts, RulesIn;
      var slot := FindActual(rule.v6, rule.cfg);
      if slot != 0 {
        var duplicate := FindOuter(rule, slot);
        return if duplicate == outer then 0 else duplicate;
      }
      NotFoundIsNew(View(), v4.hash, chains, rule.v6, rule.cfg);
      code := Create(outer, rule, checkOld);
    }

    /** POST (checkOld) or PUT of one rule. */
    method TryMapNewRule(group: int, outer: int, input: RuleInput, checkOld: bool) returns (code: int)
      requires Valid()
      modifies `chains, footprint
      ensures Valid() && (Rules(), code) == Try(old(Rules()), group, outer, input, checkOld)
      ensures code == 0 ==> AcceptsInput(input) && outer > 0 && Rules() == old(Rules())[outer := RuleOf(input)]
      ensures code != 0 ==> Rules() == old(Rules())
      ensures code > 0 ==> code != outer && AcceptsInput(input)
                           && code in old(Rules()) && old(Rules())[code] == RuleOf(input)
      ensures code == -3 <==> group != 1 || !(1 <= outer <= 4096)
      ensures code == -2 <==> group == 1 && 1 <= outer <= 4096 && checkOld && outer in old(Rules())
      ensures code == -4 <==> group == 1 && 1 <= outer <= 4096 && !(checkOld && outer in old(Rules())) && !AcceptsInput(input)
      ensures code == -5 <==> group == 1 && 1 <= outer <= 4096 && !(checkOld && outer in old(Rules())) && AcceptsInput(input)
                              && (forall o :: o in old(Rules()) ==> old(Rules())[o] != RuleOf(input))
                              && |Ids(old(Rules()), RuleOf(input).v6)| == 2048
    {
      WellFormed();
      TryMeans(Rules(), group, outer, input, checkOld);
      if group <= 0 || group > MAX_RULE_GROUP_CNT || outer <= 0 || outer > MAX_RULE_PER_GROUP {
        return INVALID_ID;
      }
      if checkOld {
        var ruleType := RuleType(group, outer);
        if ruleType > 0 {
          return OLD_RULE_EXIST;
        }
      }
      if !AcceptsInput(input) {
        return INVALID_CFG;
      }
      code := PlaceRule(outer, RuleOf(input), checkOld);
    }
  }
}
