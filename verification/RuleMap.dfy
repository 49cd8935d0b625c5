/** What a user sees of the rule store: a finite map from outer rule id to rule. */
module RuleMap {
  import opened Words

  const MAX_RULE_GROUP_CNT: nat := 1
  const FAMILY_SLOTS: nat := 2048
  const MAX_RULE_PER_GROUP: nat := 2 * FAMILY_SLOTS

  const INTERNAL_ERROR: int := -1
  const OLD_RULE_EXIST: int := -2
  const INVALID_ID: int := -3
  const INVALID_CFG: int := -4
  const RULE_FULL: int := -5

  type U16 = x: nat | x < 0x1_0000
  type Ip4Bytes = s: seq<Byte> | |s| == 4 witness [0, 0, 0, 0]
  type Ip6Bytes = s: seq<Byte> | |s| == 16 witness [0, 0, 0, 0, 0, 0, 0, 0, 0, 0, 0, 0, 0, 0, 0, 0]

  /** The stored form of a rule: ranges, and addresses as bytes in network order. */
  datatype RuleCfg = RuleCfg(
    sportMin: U16, sportMax: U16, dportMin: U16, dportMax: U16,
    protoMin: Byte, protoMax: Byte, sipMask: Byte, dipMask: Byte,
    sip: seq<Byte>, dip: seq<Byte>)

  datatype Rule = Rule(v6: bool, cfg: RuleCfg)

  /** An address text, classified by what inet_pton makes of it. */
  datatype IpText = Ip4(v4: Ip4Bytes) | Ip6(v6: Ip6Bytes) | Malformed

  datatype RuleInput = RuleInput(
    isIpv6: Byte,
    sportMin: U16, sportMax: U16, dportMin: U16, dportMax: U16,
    protoMin: Byte, protoMax: Byte,
    sip: IpText, sipMask: Byte, dip: IpText, dipMask: Byte)

  predicate Parses(v6: bool, t: IpText) {
    if v6 then t.Ip6? else t.Ip4?
  }

  function Bytes(v6: bool, t: IpText): (r: seq<Byte>)
    requires Parses(v6, t)
    ensures |r| == if v6 then 16 else 4
  {
    if v6 then t.v6 else t.v4
  }

  /** The checks on an input rule. */
  predicate AcceptsInput(r: RuleInput) {
    && (r.isIpv6 == 0 || r.isIpv6 == 1)
    && r.sportMin <= r.sportMax && r.dportMin <= r.dportMax && r.protoMin <= r.protoMax
    && (var limit := if r.isIpv6 == 1 then 128 else 32; r.sipMask <= limit && r.dipMask <= limit)
    && Parses(r.isIpv6 == 1, r.sip) && Parses(r.isIpv6 == 1, r.dip)
  }

  function RuleOf(r: RuleInput): (rule: Rule)
    requires AcceptsInput(r)
    ensures ValidRule(rule)
  {
    var v6 := r.isIpv6 == 1;
    Rule(v6, RuleCfg(r.sportMin, r.sportMax, r.dportMin, r.dportMax, r.protoMin, r.protoMax, r.sipMask, r.dipMask,
                     Bytes(v6, r.sip), Bytes(v6, r.dip)))
  }

  /** The input form of a stored rule, as read back for export. */
  function InputOf(rule: Rule): (r: RuleInput)
    requires ValidRule(rule)
    ensures AcceptsInput(r) && RuleOf(r) == rule
  {
    var c := rule.cfg;
    RuleInput(if rule.v6 then 1 else 0, c.sportMin, c.sportMax, c.dportMin, c.dportMax, c.protoMin, c.protoMax,
              if rule.v6 then Ip6(c.sip) else Ip4(c.sip), c.sipMask,
              if rule.v6 then Ip6(c.dip) else Ip4(c.dip), c.dipMask)
  }

  predicate ValidRule(r: Rule) {
    && |r.cfg.sip| == |r.cfg.dip| == (if r.v6 then 16 else 4)
    && r.cfg.sipMask <= (if r.v6 then 128 else 32) && r.cfg.dipMask <= (if r.v6 then 128 else 32)
    && r.cfg.sportMin <= r.cfg.sportMax && r.cfg.dportMin <= r.cfg.dportMax && r.cfg.protoMin <= r.cfg.protoMax
  }

  predicate ValidOuter(id: int) {
    1 <= id <= MAX_RULE_PER_GROUP
  }

  type Rules = map<nat, Rule>

  ghost function Ids(m: Rules, v6: bool): set<nat> {
    set id | id in m && m[id].v6 == v6
  }

  ghost predicate Injective(m: Rules) {
    forall i, j :: i in m && j in m && m[i] == m[j] ==> i == j
  }

  /** Every reachable map: ids in range, rules well formed, no rule twice, each family within its slots. */
  ghost predicate RulesOk(m: Rules) {
    && (forall id :: id in m ==> ValidOuter(id) && ValidRule(m[id]))
    && Injective(m)
    && |Ids(m, false)| <= FAMILY_SLOTS && |Ids(m, true)| <= FAMILY_SLOTS
  }

  /** The id that holds rule r, or 0. */
  ghost function Owner(m: Rules, r: Rule): (id: nat)
    ensures id != 0 ==> id in m && m[id] == r
    ensures id == 0 ==> forall i :: i in m && i != 0 ==> m[i] != r
  {
    if i :| i in m && i != 0 && m[i] == r then i else 0
  }

  /** Storing rule r under an id: the new map and the return code. The code of a rule that is already
      stored is the id that has it. */
  ghost function Place(m: Rules, id: int, r: Rule): (Rules, int)
    requires ValidOuter(id)
  {
    var owner := Owner(m, r);
    if owner == id then (m, 0)
    else if owner != 0 then (m, owner)
    else if |Ids(m, r.v6)| == FAMILY_SLOTS then (m, RULE_FULL)
    else (m[id := r], 0)
  }

  /** POST (checkOld) or PUT of one rule. */
  ghost function Try(m: Rules, group: int, id: int, input: RuleInput, checkOld: bool): (Rules, int) {
    if group <= 0 || group > MAX_RULE_GROUP_CNT || !ValidOuter(id) then (m, INVALID_ID)
    else if checkOld && id in m then (m, OLD_RULE_EXIST)
    else if !AcceptsInput(input) then (m, INVALID_CFG)
    else Place(m, id, RuleOf(input))
  }

  /** DELETE of one rule. */
  ghost function Delete(m: Rules, group: int, id: int, noCheck: bool): (Rules, int) {
    if group <= 0 || group > MAX_RULE_GROUP_CNT || !ValidOuter(id) then (m, INTERNAL_ERROR)
    else if id !in m then (m, if noCheck then 0 else -2)
    else (m - {id}, 0)
  }

  // ---------- What the codes mean ----------

  /** POST and PUT in terms of the two maps and the code. Code 0: the id holds the input's rule and every
      other id is as it was. Any other code: nothing has changed. A positive code is the other id that has
      the rule already. */
  lemma TryMeans(m: Rules, group: int, id: int, input: RuleInput, checkOld: bool)
    requires RulesOk(m)
    ensures var (m', code) := Try(m, group, id, input, checkOld);
      && (code == 0 ==> group == 1 && 1 <= id <= 4096 && AcceptsInput(input) && m' == m[id := RuleOf(input)])
      && (code != 0 ==> m' == m)
      && (code > 0 ==> code != id && AcceptsInput(input) && code in m && m[code] == RuleOf(input))
    ensures var code := Try(m, group, id, input, checkOld).1;
      var inRange := group == 1 && 1 <= id <= 4096;
      && (code == -3 <==> !inRange)
      && (code == -2 <==> inRange && checkOld && id in m)
      && (code == -4 <==> inRange && !(checkOld && id in m) && !AcceptsInput(input))
      && (code == -5 <==> inRange && !(checkOld && id in m) && AcceptsInput(input)
                          && (forall o :: o in m ==> m[o] != RuleOf(input)) && |Ids(m, RuleOf(input).v6)| == 2048)
      && (code > 0 <==> inRange && !(checkOld && id in m) && AcceptsInput(input)
                        && exists o :: o in m && o != id && m[o] == RuleOf(input))
      && (code >= 0 || code in {-2, -3, -4, -5})
  {
    assert forall o :: o in m ==> ValidOuter(o);
    hide AcceptsInput, RuleOf;
  }

  /** DELETE likewise. */
  lemma DeleteMeans(m: Rules, group: int, id: int, noCheck: bool)
    ensures var (m', code) := Delete(m, group, id, noCheck);
      var inRange := group == 1 && 1 <= id <= 4096;
      && (code == -1 <==> !inRange)
      && (code == -2 <==> inRange && id !in m && !noCheck)
      && (code == 0 ==> id !in m' && forall o :: o != id ==> (o in m' <==> o in m) && (o in m ==> m'[o] == m[o]))
      && (code != 0 ==> m' == m && code in {-1, -2})
  {
  }

  /** What was stored reads back as the input it came from. */
  lemma ReadsBack(input: RuleInput)
    requires AcceptsInput(input)
    ensures InputOf(RuleOf(input)) == input
  {
  }

  // ---------- Consequences ----------

  lemma PutAfterDelete(m: Rules, id: nat, r: Rule)
    requires ValidOuter(id)
    ensures Delete(m, MAX_RULE_GROUP_CNT, id, true).0[id := r] == m[id := r]
    ensures Delete(m, MAX_RULE_GROUP_CNT, id, true).1 == 0
    ensures id !in Delete(m, MAX_RULE_GROUP_CNT, id, true).0
  {
  }

  lemma IdsAfterPut(m: Rules, id: nat, r: Rule)
    ensures Ids(m[id := r], r.v6) == Ids(m, r.v6) + {id}
    ensures Ids(m[id := r], !r.v6) == Ids(m, !r.v6) - {id}
  {
  }

  lemma PutInjective(m: Rules, id: nat, r: Rule)
    requires Injective(m) && forall i :: i in m ==> m[i] != r
    ensures Injective(m[id := r])
  {
  }

  lemma PutKeeps(m: Rules, id: nat, r: Rule)
    requires RulesOk(m) && ValidOuter(id) && ValidRule(r) && Owner(m, r) == 0
    requires |Ids(m, r.v6)| < FAMILY_SLOTS
    ensures RulesOk(m[id := r])
  {
    var m' := m[id := r];
    assert |Ids(m', r.v6)| <= FAMILY_SLOTS && |Ids(m', !r.v6)| <= FAMILY_SLOTS by {
      IdsAfterPut(m, id, r);
      SubsetSize(Ids(m', !r.v6), Ids(m, !r.v6));
    }
    assert Injective(m') by {
      assert forall i :: i in m ==> i != 0;
      PutInjective(m, id, r);
    }
    assert r.v6 || !r.v6;
  }

  lemma TryKeeps(m: Rules, group: int, id: int, input: RuleInput, checkOld: bool)
    requires RulesOk(m)
    ensures RulesOk(Try(m, group, id, input, checkOld).0)
  {
    if Try(m, group, id, input, checkOld).0 != m {
      PutKeeps(m, id, RuleOf(input));
    }
  }

  lemma DeleteKeeps(m: Rules, group: int, id: int, noCheck: bool)
    requires RulesOk(m)
    ensures RulesOk(Delete(m, group, id, noCheck).0)
  {
    var m' := Delete(m, group, id, noCheck).0;
    assert Ids(m', false) <= Ids(m, false) && Ids(m', true) <= Ids(m, true);
    SubsetSize(Ids(m', false), Ids(m, false));
    SubsetSize(Ids(m', true), Ids(m, true));
  }

  lemma SubsetSize<T>(a: set<T>, b: set<T>)
    requires a <= b
    ensures |a| <= |b|
  {
    assert b == a + (b - a);
  }

  /** A new rule is the only change a POST makes, and then its id was free. */
  lemma PostChangesOnlyOnCreate(m: Rules, group: int, id: int, input: RuleInput)
    requires RulesOk(m)
    ensures var (m', code) := Try(m, group, id, input, true);
      if code == 0 then id !in m && AcceptsInput(input) && m' == m[id := RuleOf(input)] else m' == m
  {
  }

  /** Deleting what a POST created restores the map. */
  lemma DeleteUndoesPost(m: Rules, group: int, id: int, input: RuleInput)
    requires RulesOk(m) && Try(m, group, id, input, true).1 == 0
    ensures Delete(Try(m, group, id, input, true).0, group, id, false) == (m, 0)
  {
    PostChangesOnlyOnCreate(m, group, id, input);
    assert m[id := RuleOf(input)] - {id} == m;
  }

  lemma IdsAfterDelete(m: Rules, id: nat)
    requires id in m
    ensures |Ids(m - {id}, m[id].v6)| == |Ids(m, m[id].v6)| - 1
    ensures Ids(m - {id}, !m[id].v6) == Ids(m, !m[id].v6)
  {
    assert Ids(m - {id}, m[id].v6) == Ids(m, m[id].v6) - {id};
  }

  /** PUT answers "full" although deleting the id first and then POSTing succeeds. */
  ghost predicate RefusedInVain(m: Rules, id: nat, input: RuleInput) {
    && Try(m, MAX_RULE_GROUP_CNT, id, input, false).1 == RULE_FULL
    && Try(Delete(m, MAX_RULE_GROUP_CNT, id, true).0, MAX_RULE_GROUP_CNT, id, input, true).1 == 0
  }

  /** PUT takes a new slot before it gives up the old one: it refuses in vain exactly when the rule is new,
      its family is full and the id holds a rule of that family. */
  lemma RefusedInVainIff(m: Rules, id: nat, input: RuleInput)
    requires RulesOk(m) && ValidOuter(id) && AcceptsInput(input)
    ensures var v6 := input.isIpv6 == 1;
      RefusedInVain(m, id, input) <==>
      Owner(m, RuleOf(input)) == 0 && |Ids(m, v6)| == FAMILY_SLOTS && id in m && m[id].v6 == v6
  {
    if id in m {
      IdsAfterDelete(m, id);
    }
  }

  /** The first n rules of a full IPv4 family: source ports 1 to n. */
  ghost function PortRules(n: nat): Rules
    requires n <= FAMILY_SLOTS
  {
    if n == 0 then map[] else PortRules(n - 1)[n := PortRule(n)]
  }

  function PortRule(port: nat): Rule
    requires port <= FAMILY_SLOTS + 1
  {
    Rule(false, RuleCfg(port, port, 0, 0xFFFF, 0, 255, 0, 0, [0, 0, 0, 0], [0, 0, 0, 0]))
  }

  ghost predicate HasPorts(m: Rules, n: nat)
    requires n <= FAMILY_SLOTS
  {
    && RulesOk(m) && |Ids(m, false)| == n
    && (forall o :: o in m <==> 1 <= o <= n)
    && (forall o :: o in m ==> m[o] == PortRule(o))
  }

  lemma OneMorePort(m: Rules, n: nat)
    requires 0 < n <= FAMILY_SLOTS && HasPorts(m, n - 1)
    ensures HasPorts(m[n := PortRule(n)], n)
  {
    hide RulesOk;
    assert Owner(m, PortRule(n)) == 0;
    assert n !in Ids(m, false);
    PutKeeps(m, n, PortRule(n));
    IdsAfterPut(m, n, PortRule(n));
  }

  lemma {:induction false} PortRulesOk(n: nat)
    requires n <= FAMILY_SLOTS
    ensures HasPorts(PortRules(n), n)
    decreases n
  {
    if n == 0 {
      assert Ids(map[], false) == {} && Ids(map[], true) == {};
    } else {
      PortRulesOk(n - 1);
      OneMorePort(PortRules(n - 1), n);
      hide HasPorts;
    }
  }

  lemma RefusesInVain()
    ensures exists m: Rules, input :: RulesOk(m) && AcceptsInput(input) && RefusedInVain(m, 1, input)
  {
    var m, input := PortRules(FAMILY_SLOTS), InputOf(PortRule(FAMILY_SLOTS + 1));
    PortRulesOk(FAMILY_SLOTS);
    hide PortRules, RulesOk, RefusedInVain;
    assert Owner(m, RuleOf(input)) == 0;
    RefusedInVainIff(m, 1, input);
  }
}
