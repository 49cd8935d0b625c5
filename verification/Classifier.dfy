/** From the rule store to the classifier's table: translation of a rule to eleven fields, the scan
    over all slots, and what a packet classified with the resulting table gets. */
module Classifier {
  import opened Words
  import opened Prefix
  import opened SlotBitmap
  import opened RuleMap
  import opened TupleTable
  import opened StoreState
  import opened RuleStore

  const NUM_FIELDS: nat := 11
  const PROTO: nat := 0
  const SIP1: nat := 1
  const DIP1: nat := 5
  const SPORT: nat := 9
  const DPORT: nat := 10

  const TOP_PRIORITY: int := 0xFF_FFFF
  const MIN_PRIORITY: int := 1
  const MAX_PRIORITY: int := 0x1FFF_FFFF

  type IpWords = s: seq<Word> | |s| == 4 witness [0, 0, 0, 0]

  const IP_VERSION_4: Byte := 4
  const IP_VERSION_6: Byte := 6

  /** A decoded packet. */
  datatype Packet = Packet(version: Byte, proto: Byte, sip: IpWords, dip: IpWords, sport: U16, dport: U16)

  /** Decoding an IPv4 packet writes the first word of each zeroed address. */
  function Packet4(src: Ip4Bytes, dst: Ip4Bytes, proto: Byte, sport: U16, dport: U16): Packet {
    Packet(IP_VERSION_4, proto, [WordAt(src, 0), 0, 0, 0], [WordAt(dst, 0), 0, 0, 0], sport, dport)
  }

  /** Decoding an IPv6 packet writes all four. */
  function Packet6(src: Ip6Bytes, dst: Ip6Bytes, proto: Byte, sport: U16, dport: U16): Packet {
    Packet(IP_VERSION_6, proto, AddressWords(src), AddressWords(dst), sport, dport)
  }

  function AddressWords(bytes: Ip6Bytes): IpWords {
    [WordAt(bytes, 0), WordAt(bytes, 1), WordAt(bytes, 2), WordAt(bytes, 3)]
  }

  /** One field of a classifier rule: a range, or a value and a mask length. */
  datatype Field = Field(value: nat, maskRange: nat)

  const NO_FIELD: Field := Field(0, 0)

  datatype AclRule = AclRule(field: seq<Field>, priority: int, userdata: nat)

  // ---------- The classifier, as its interface promises ----------

  predicate IsMaskField(k: nat) {
    SIP1 <= k < SPORT
  }

  predicate FieldMatches(k: nat, f: Field, input: nat) {
    if IsMaskField(k) then f.value < WORD && f.maskRange <= 32 && input < WORD && MaskMatches(f.value, f.maskRange, input)
    else f.value <= input <= f.maskRange
  }

  /** The input fields; the version is not one of them. */
  function Input(p: Packet): (s: seq<nat>)
    ensures |s| == NUM_FIELDS
  {
    var proto: nat, sport: nat, dport: nat := p.proto, p.sport, p.dport;
    [proto] + p.sip + p.dip + [sport, dport]
  }

  predicate RuleMatches(r: AclRule, p: Packet) {
    |r.field| == NUM_FIELDS && forall k :: 0 <= k < NUM_FIELDS ==> FieldMatches(k, r.field[k], Input(p)[k])
  }

  /** The userdata of a matching rule of highest priority, or 0 when no rule matches. */
  ghost predicate Answers(rules: seq<AclRule>, p: Packet, answer: nat) {
    if exists r :: r in rules && RuleMatches(r, p) then
      exists r :: r in rules && RuleMatches(r, p) && r.userdata == answer
                  && forall r' :: r' in rules && RuleMatches(r', p) ==> r'.priority <= r.priority
    else answer == 0
  }

  /** A classifier table under construction. */
  class Context {
    const maxRules: nat
    var rules: seq<AclRule>

    constructor (maxRules: nat)
      ensures this.maxRules == maxRules && rules == []
    {
      this.maxRules := maxRules;
      rules := [];
    }

    /** Adding one rule fails when its priority or userdata is out of range or the table is full. */
    method Add(r: AclRule) returns (ok: bool)
      modifies this
      ensures ok == (MIN_PRIORITY <= r.priority <= MAX_PRIORITY && r.userdata != 0 && |old(rules)| < maxRules)
      ensures rules == if ok then old(rules) + [r] else old(rules)
    {
      ok := MIN_PRIORITY <= r.priority <= MAX_PRIORITY && r.userdata != 0 && |rules| < maxRules;
      if ok {
        rules := rules + [r];
      }
    }
  }

  // ---------- What a rule means ----------

  /** The packet's address is in the rule's prefix; an IPv4 address is the first word of an address
      whose other words are zero. */
  predicate AddressMeets(v6: bool, bytes: seq<Byte>, mask: nat, words: IpWords)
    requires |bytes| == (if v6 then 16 else 4) && mask <= (if v6 then 128 else 32)
  {
    if v6 then InPrefix(NumberOf(words), Number(bytes), 128, mask)
    else words[1..] == [0, 0, 0] && InPrefix(words[0], Number(bytes), 32, mask)
  }

  predicate Meets(rule: Rule, p: Packet)
    requires ValidRule(rule)
  {
    var c := rule.cfg;
    && c.protoMin <= p.proto <= c.protoMax
    && AddressMeets(rule.v6, c.sip, c.sipMask, p.sip)
    && AddressMeets(rule.v6, c.dip, c.dipMask, p.dip)
    && c.sportMin <= p.sport <= c.sportMax && c.dportMin <= p.dport <= c.dportMax
  }

  /** The smallest id whose rule the packet meets, or 0 when it meets none. */
  ghost predicate FirstMatch(m: Rules, p: Packet, answer: nat)
    requires RulesOk(m)
  {
    if exists id :: id in m && Meets(m[id], p) then
      answer in m && Meets(m[answer], p) && forall id :: id in m && Meets(m[id], p) ==> answer <= id
    else answer == 0
  }

  // ---------- Translation ----------

  /** The four fields of one address. */
  function AddressField(v6: bool, bytes: seq<Byte>, mask: nat, i: nat): Field
    requires |bytes| == (if v6 then 16 else 4) && i < 4
  {
    if v6 then Field(WordAt(bytes, i), MaskLen(mask, i))
    else if i == 0 then Field(WordAt(bytes, 0), mask)
    else Field(0, 32)
  }

  function Fields(rule: Rule): (f: seq<Field>)
    requires ValidRule(rule)
    ensures |f| == NUM_FIELDS
  {
    var c := rule.cfg;
    [Field(c.protoMin, c.protoMax)]
    + seq(4, i requires 0 <= i < 4 => AddressField(rule.v6, c.sip, c.sipMask, i))
    + seq(4, i requires 0 <= i < 4 => AddressField(rule.v6, c.dip, c.dipMask, i))
    + [Field(c.sportMin, c.sportMax), Field(c.dportMin, c.dportMax)]
  }

  function AclRuleOf(id: nat, rule: Rule): AclRule
    requires ValidRule(rule)
  {
    AclRule(Fields(rule), TOP_PRIORITY - id, id)
  }

  /** Element by element. */
  lemma FieldsAre(rule: Rule, s: seq<Field>)
    requires ValidRule(rule) && |s| == NUM_FIELDS
    requires var c := rule.cfg;
      && s[PROTO] == Field(c.protoMin, c.protoMax)
      && s[SPORT] == Field(c.sportMin, c.sportMax) && s[DPORT] == Field(c.dportMin, c.dportMax)
      && (forall i :: 0 <= i < 4 ==> s[SIP1 + i] == AddressField(rule.v6, c.sip, c.sipMask, i))
      && (forall i :: 0 <= i < 4 ==> s[DIP1 + i] == AddressField(rule.v6, c.dip, c.dipMask, i))
    ensures s == Fields(rule)
  {
    hide AddressField;
    var f := Fields(rule);
    forall k | 0 <= k < NUM_FIELDS ensures s[k] == f[k] {
      if SIP1 <= k < DIP1 {
        assert s[SIP1 + (k - SIP1)] == f[k];
      } else if DIP1 <= k < SPORT {
        assert s[DIP1 + (k - DIP1)] == f[k];
      }
    }
  }

  method Clear(field: array<Field>)
    modifies field
    ensures forall k :: 0 <= k < field.Length ==> field[k] == NO_FIELD
  {
    for k := 0 to field.Length
      invariant forall j :: 0 <= j < k ==> field[j] == NO_FIELD
    {
      field[k] := NO_FIELD;
    }
  }

  /** Fills the fields for an IPv4 rule. */
  method TransTuple4(cfg: RuleCfg, field: array<Field>)
    requires field.Length == NUM_FIELDS && ValidRule(Rule(false, cfg))
    modifies field
    ensures field[..] == Fields(Rule(false, cfg))
  {
    Clear(field);
    hide Fields, WordAt;
    field[PROTO] := Field(cfg.protoMin, cfg.protoMax);
    field[SPORT] := Field(cfg.sportMin, cfg.sportMax);
    field[DPORT] := Field(cfg.dportMin, cfg.dportMax);
    field[SIP1] := Field(WordAt(cfg.sip, 0), cfg.sipMask);
    field[DIP1] := Field(WordAt(cfg.dip, 0), cfg.dipMask);
    field[SIP1 + 1], field[SIP1 + 2], field[SIP1 + 3] := Field(0, 32), Field(0, 32), Field(0, 32);
    field[DIP1 + 1], field[DIP1 + 2], field[DIP1 + 3] := Field(0, 32), Field(0, 32), Field(0, 32);
    FieldsAre(Rule(false, cfg), field[..]);
  }

  function MaskGet(mask: Byte): nat {
    if mask > 32 then 32 else mask
  }

  function MaskSub(mask: Byte): Byte {
    if mask > 32 then mask - 32 else 0
  }

  /** Using a length up 32 bits at a time gives each word its share. */
  lemma MaskShares(mask: Byte)
    requires mask <= 128
    ensures MaskGet(mask) == MaskLen(mask, 0)
    ensures MaskGet(MaskSub(mask)) == MaskLen(mask, 1)
    ensures MaskGet(MaskSub(MaskSub(mask))) == MaskLen(mask, 2)
    ensures MaskGet(MaskSub(MaskSub(MaskSub(mask)))) == MaskLen(mask, 3)
  {
  }

  /** Fills the four fields of one IPv6 address; its mask length is used up word by word. */
  method SetAddress6(bytes: Ip6Bytes, length: Byte, field: array<Field>, k: nat)
    requires field.Length == NUM_FIELDS && length <= 128 && k + 4 <= NUM_FIELDS
    modifies field
    ensures forall i :: 0 <= i < 4 ==> field[k + i] == AddressField(true, bytes, length, i)
    ensures forall j :: 0 <= j < NUM_FIELDS && !(k <= j < k + 4) ==> field[j] == old(field[j])
  {
    var mask := length;
    MaskShares(mask);
    hide MaskGet, MaskSub, MaskLen, WordAt;
    field[k] := Field(WordAt(bytes, 0), MaskGet(mask));
    mask := MaskSub(mask);
    field[k + 1] := Field(WordAt(bytes, 1), MaskGet(mask));
    mask := MaskSub(mask);
    field[k + 2] := Field(WordAt(bytes, 2), MaskGet(mask));
    mask := MaskSub(mask);
    field[k + 3] := Field(WordAt(bytes, 3), MaskGet(mask));
  }

  /** Fills the fields for an IPv6 rule. */
  method TransTuple6(cfg: RuleCfg, field: array<Field>)
    requires field.Length == NUM_FIELDS && ValidRule(Rule(true, cfg))
    modifies field
    ensures field[..] == Fields(Rule(true, cfg))
  {
    hide AddressField, Fields;
    Clear(field);
    field[PROTO] := Field(cfg.protoMin, cfg.protoMax);
    field[SPORT] := Field(cfg.sportMin, cfg.sportMax);
    field[DPORT] := Field(cfg.dportMin, cfg.dportMax);
    SetAddress6(cfg.sip, cfg.sipMask, field, SIP1);
    SetAddress6(cfg.dip, cfg.dipMask, field, DIP1);
    FieldsAre(Rule(true, cfg), field[..]);
  }

  // ---------- Translation keeps the meaning ----------

  /** The four address fields starting at field k match exactly the addresses that meet the prefix. */
  lemma AddressFieldsMean(v6: bool, bytes: seq<Byte>, mask: nat, words: IpWords, k: nat)
    requires |bytes| == (if v6 then 16 else 4) && mask <= (if v6 then 128 else 32) && (k == SIP1 || k == DIP1)
    ensures (forall i :: 0 <= i < 4 ==> FieldMatches(k + i, AddressField(v6, bytes, mask, i), words[i]))
            <==> AddressMeets(v6, bytes, mask, words)
  {
    hide InPrefix;
    if v6 {
      Address6Means(bytes, mask, words, k);
    } else {
      Address4Means(bytes, mask, words, k);
    }
  }

  lemma Address6Means(bytes: seq<Byte>, mask: nat, words: IpWords, k: nat)
    requires |bytes| == 16 && mask <= 128 && (k == SIP1 || k == DIP1)
    ensures (forall i :: 0 <= i < 4 ==> FieldMatches(k + i, AddressField(true, bytes, mask, i), words[i]))
            <==> InPrefix(NumberOf(words), Number(bytes), 128, mask)
  {
    var value := WordsOf(bytes, 4);
    WordsAreBytes(bytes, 4);
    SplitKeepsPrefix(value, mask, words);
    hide InPrefix, MaskMatches, NumberOf, Number;
    forall i | 0 <= i < 4
      ensures FieldMatches(k + i, AddressField(true, bytes, mask, i), words[i])
         <==> MaskMatches(value[i], MaskLen(mask, i), words[i])
    {
    }
  }

  lemma Address4Means(bytes: seq<Byte>, mask: nat, words: IpWords, k: nat)
    requires |bytes| == 4 && mask <= 32 && (k == SIP1 || k == DIP1)
    ensures (forall i :: 0 <= i < 4 ==> FieldMatches(k + i, AddressField(false, bytes, mask, i), words[i]))
            <==> words[1..] == [0, 0, 0] && InPrefix(words[0], Number(bytes), 32, mask)
  {
    assert bytes[0..4] == bytes;
    WholeWord(words[1], 0);
    WholeWord(words[2], 0);
    WholeWord(words[3], 0);
    hide Power, Number;
    forall i | 0 <= i < 4 ensures FieldMatches(k + i, AddressField(false, bytes, mask, i), words[i]) <==>
        if i == 0 then InPrefix(words[0], Number(bytes), 32, mask) else words[i] == 0
    {
    }
    assert words[1..] == [words[1], words[2], words[3]];
  }

  /** Where the translated fields and the packet's inputs stand. */
  lemma FieldPlaces(rule: Rule, p: Packet)
    requires ValidRule(rule)
    ensures var c, f, x := rule.cfg, Fields(rule), Input(p);
            && f[PROTO] == Field(c.protoMin, c.protoMax) && x[PROTO] == p.proto
            && f[SPORT] == Field(c.sportMin, c.sportMax) && x[SPORT] == p.sport
            && f[DPORT] == Field(c.dportMin, c.dportMax) && x[DPORT] == p.dport
            && (forall k :: SIP1 <= k < DIP1 ==> f[k] == AddressField(rule.v6, c.sip, c.sipMask, k - SIP1) && x[k] == p.sip[k - SIP1])
            && (forall k :: DIP1 <= k < SPORT ==> f[k] == AddressField(rule.v6, c.dip, c.dipMask, k - DIP1) && x[k] == p.dip[k - DIP1])
  {
    hide AddressField;
  }

  /** The translated address fields match exactly when the addresses meet the prefixes. */
  ghost predicate AddressesMatch(rule: Rule, p: Packet, k: nat)
    requires ValidRule(rule) && (k == SIP1 || k == DIP1)
  {
    forall i :: k <= i < k + 4 ==> FieldMatches(i, Fields(rule)[i], Input(p)[i])
  }

  lemma AddressMeans(rule: Rule, p: Packet, k: nat, bytes: seq<Byte>, mask: nat, words: IpWords)
    requires ValidRule(rule) && (k == SIP1 || k == DIP1)
    requires |bytes| == (if rule.v6 then 16 else 4) && mask <= (if rule.v6 then 128 else 32)
    requires forall i :: k <= i < k + 4 ==>
               Fields(rule)[i] == AddressField(rule.v6, bytes, mask, i - k) && Input(p)[i] == words[i - k]
    ensures AddressesMatch(rule, p, k) <==> AddressMeets(rule.v6, bytes, mask, words)
  {
    AddressFieldsMean(rule.v6, bytes, mask, words, k);
    hide AddressMeets, AddressField, FieldMatches, Fields, Input;
    forall i | 0 <= i < 4
      ensures FieldMatches(k + i, Fields(rule)[k + i], Input(p)[k + i])
         <==> FieldMatches(k + i, AddressField(rule.v6, bytes, mask, i), words[i])
    {
    }
  }

  lemma AddressesMean(rule: Rule, p: Packet)
    requires ValidRule(rule)
    ensures AddressesMatch(rule, p, SIP1) <==> AddressMeets(rule.v6, rule.cfg.sip, rule.cfg.sipMask, p.sip)
    ensures AddressesMatch(rule, p, DIP1) <==> AddressMeets(rule.v6, rule.cfg.dip, rule.cfg.dipMask, p.dip)
  {
    FieldPlaces(rule, p);
    hide AddressMeets, AddressField, AddressesMatch, Fields, Input;
    AddressMeans(rule, p, SIP1, rule.cfg.sip, rule.cfg.sipMask, p.sip);
    AddressMeans(rule, p, DIP1, rule.cfg.dip, rule.cfg.dipMask, p.dip);
  }

  /** A translated rule matches a packet exactly when the packet meets the rule. */
  lemma TranslationMeans(id: nat, rule: Rule, p: Packet)
    requires ValidRule(rule)
    ensures RuleMatches(AclRuleOf(id, rule), p) <==> Meets(rule, p)
  {
    FieldPlaces(rule, p);
    AddressesMean(rule, p);
    hide AddressMeets, AddressField, Fields, Input;
    assert RuleMatches(AclRuleOf(id, rule), p) <==>
           AddressesMatch(rule, p, SIP1) && AddressesMatch(rule, p, DIP1)
           && FieldMatches(PROTO, Fields(rule)[PROTO], Input(p)[PROTO])
           && FieldMatches(SPORT, Fields(rule)[SPORT], Input(p)[SPORT])
           && FieldMatches(DPORT, Fields(rule)[DPORT], Input(p)[DPORT]);
  }

  // ---------- Rules of one family and packets of the other ----------

  const ZEROS: seq<Byte> := [0, 0, 0, 0, 0, 0, 0, 0, 0, 0, 0, 0]

  lemma {:induction false} NumberZero(bytes: seq<Byte>)
    ensures Number(bytes) == 0 <==> forall i :: 0 <= i < |bytes| ==> bytes[i] == 0
  {
    if bytes != [] {
      var n := |bytes| - 1;
      NumberZero(bytes[..n]);
      assert forall i :: 0 <= i < n ==> bytes[..n][i] == bytes[i];
    }
  }

  lemma ZeroWord(bytes: Ip6Bytes, i: nat)
    requires i < 4
    ensures WordAt(bytes, i) == 0 <==> forall j :: 4 * i <= j < 4 * i + 4 ==> bytes[j] == 0
  {
    var word := bytes[4 * i..4 * i + 4];
    NumberZero(word);
    hide Number;
    assert forall j :: 4 * i <= j < 4 * i + 4 ==> bytes[j] == word[j - 4 * i];
  }

  /** The words of an IPv6 address are those of an IPv4 address exactly when its last twelve bytes are
      zero and the first four are that address. */
  lemma ZeroTail(bytes: Ip6Bytes)
    ensures AddressWords(bytes)[1..] == [0, 0, 0] <==> bytes[4..] == ZEROS
    ensures WordAt(bytes, 0) == WordAt(bytes[..4], 0)
  {
    assert bytes[..4][0..4] == bytes[0..4];
    ZeroWord(bytes, 1);
    ZeroWord(bytes, 2);
    ZeroWord(bytes, 3);
    hide WordAt;
    var words, tail := AddressWords(bytes), bytes[4..];
    assert words[1..] == [words[1], words[2], words[3]];
    assert forall j :: 0 <= j < 12 ==> tail[j] == bytes[4 + j];
    if forall j :: 4 <= j < 16 ==> bytes[j] == 0 {
      assert forall j :: 0 <= j < 12 ==> tail[j] == 0;
    } else {
      var j :| 4 <= j < 16 && bytes[j] != 0;
      assert tail[j - 4] != ZEROS[j - 4];
    }
  }

  /** An IPv4 rule means its own prefixes for IPv4 packets. */
  lemma OwnPackets4(rule: Rule, src: Ip4Bytes, dst: Ip4Bytes, proto: Byte, sport: U16, dport: U16)
    requires ValidRule(rule) && !rule.v6
    ensures var c := rule.cfg; Meets(rule, Packet4(src, dst, proto, sport, dport)) <==>
      && InPrefix(Number(src), Number(c.sip), 32, c.sipMask) && InPrefix(Number(dst), Number(c.dip), 32, c.dipMask)
      && c.protoMin <= proto <= c.protoMax && c.sportMin <= sport <= c.sportMax && c.dportMin <= dport <= c.dportMax
  {
    assert src[0..4] == src && dst[0..4] == dst;
    var p := Packet4(src, dst, proto, sport, dport);
    hide InPrefix, Number;
    assert p.sip[1..] == [0, 0, 0] && p.dip[1..] == [0, 0, 0];
  }

  /** An IPv6 rule means its own prefixes for IPv6 packets. */
  lemma OwnPackets6(rule: Rule, src: Ip6Bytes, dst: Ip6Bytes, proto: Byte, sport: U16, dport: U16)
    requires ValidRule(rule) && rule.v6
    ensures var c := rule.cfg; Meets(rule, Packet6(src, dst, proto, sport, dport)) <==>
      && InPrefix(Number(src), Number(c.sip), 128, c.sipMask) && InPrefix(Number(dst), Number(c.dip), 128, c.dipMask)
      && c.protoMin <= proto <= c.protoMax && c.sportMin <= sport <= c.sportMax && c.dportMin <= dport <= c.dportMax
  {
    WordsAreBytes(src, 4);
    WordsAreBytes(dst, 4);
    hide InPrefix, Number, NumberOf, WordAt;
    assert WordsOf(src, 4) == AddressWords(src) && WordsOf(dst, 4) == AddressWords(dst);
  }

  /** The rule stored for an IPv4 input is met by exactly the IPv4 packets whose source shares its first bits
      with the input's source, whose destination does with its destination, and whose protocol and ports lie
      in its ranges. */
  lemma InputPackets4(input: RuleInput, src: Ip4Bytes, dst: Ip4Bytes, proto: Byte, sport: U16, dport: U16)
    requires AcceptsInput(input) && input.isIpv6 == 0
    ensures Meets(RuleOf(input), Packet4(src, dst, proto, sport, dport)) <==>
      && SameBits(src, input.sip.v4, input.sipMask) && SameBits(dst, input.dip.v4, input.dipMask)
      && input.protoMin <= proto <= input.protoMax
      && input.sportMin <= sport <= input.sportMax && input.dportMin <= dport <= input.dportMax
  {
    OwnPackets4(RuleOf(input), src, dst, proto, sport, dport);
    PrefixIsBits(src, input.sip.v4, input.sipMask);
    PrefixIsBits(dst, input.dip.v4, input.dipMask);
    hide Meets, InPrefix, Number, SameBits;
  }

  /** Likewise for IPv6. */
  lemma InputPackets6(input: RuleInput, src: Ip6Bytes, dst: Ip6Bytes, proto: Byte, sport: U16, dport: U16)
    requires AcceptsInput(input) && input.isIpv6 == 1
    ensures Meets(RuleOf(input), Packet6(src, dst, proto, sport, dport)) <==>
      && SameBits(src, input.sip.v6, input.sipMask) && SameBits(dst, input.dip.v6, input.dipMask)
      && input.protoMin <= proto <= input.protoMax
      && input.sportMin <= sport <= input.sportMax && input.dportMin <= dport <= input.dportMax
  {
    OwnPackets6(RuleOf(input), src, dst, proto, sport, dport);
    PrefixIsBits(src, input.sip.v6, input.sipMask);
    PrefixIsBits(dst, input.dip.v6, input.dipMask);
    hide Meets, InPrefix, Number, SameBits;
  }

  /** The address is in the net the text and the length give. */
  ghost predicate InNet(address: seq<Byte>, net: IpText, mask: nat) {
    match net
    case Ip4(bytes) => |address| == 4 && mask <= 32 && SameBits(address, bytes, mask)
    case Ip6(bytes) => |address| == 16 && mask <= 128 && SameBits(address, bytes, mask)
    case Malformed => false
  }

  ghost predicate MeetsInput(input: RuleInput, src: seq<Byte>, dst: seq<Byte>, proto: Byte, sport: U16, dport: U16) {
    && InNet(src, input.sip, input.sipMask) && InNet(dst, input.dip, input.dipMask)
    && input.protoMin <= proto <= input.protoMax
    && input.sportMin <= sport <= input.sportMax && input.dportMin <= dport <= input.dportMax
  }

  /** An input is accepted exactly when its addresses are of the family it names and it has a packet. */
  lemma AcceptedIff(input: RuleInput)
    ensures AcceptsInput(input) <==>
      && ((input.isIpv6 == 0 && input.sip.Ip4? && input.dip.Ip4?) || (input.isIpv6 == 1 && input.sip.Ip6? && input.dip.Ip6?))
      && exists src, dst, proto, sport, dport :: MeetsInput(input, src, dst, proto, sport, dport)
  {
    hide AddressBit;
    if AcceptsInput(input) {
      var v6 := input.isIpv6 == 1;
      assert MeetsInput(input, Bytes(v6, input.sip), Bytes(v6, input.dip), input.protoMin, input.sportMin, input.dportMin);
    }
  }

  /** An IPv6 packet meets an IPv4 rule exactly when the last twelve bytes of both its addresses are
      zero and the IPv4 packet with the first four meets the rule. */
  lemma Rule4Packet6Iff(rule: Rule, src: Ip6Bytes, dst: Ip6Bytes, proto: Byte, sport: U16, dport: U16)
    requires ValidRule(rule) && !rule.v6
    ensures Meets(rule, Packet6(src, dst, proto, sport, dport)) <==>
      src[4..] == ZEROS && dst[4..] == ZEROS && Meets(rule, Packet4(src[..4], dst[..4], proto, sport, dport))
  {
    ZeroTail(src);
    ZeroTail(dst);
    hide InPrefix, WordAt;
    var p := Packet4(src[..4], dst[..4], proto, sport, dport);
    assert p.sip[1..] == [0, 0, 0] && p.dip[1..] == [0, 0, 0];
  }

  /** No table at all tells an IPv4 packet from the IPv6 packet whose addresses are its addresses
      followed by zeros, so an IPv4 packet meets an IPv6 rule exactly when that IPv6 packet does. */
  lemma FamiliesCoincide(rules: seq<AclRule>, rule: Rule, src: Ip4Bytes, dst: Ip4Bytes, proto: Byte, sport: U16, dport: U16, answer: nat)
    requires ValidRule(rule)
    ensures var p4, p6 := Packet4(src, dst, proto, sport, dport), Packet6(src + ZEROS, dst + ZEROS, proto, sport, dport);
      && p4.version != p6.version && (Meets(rule, p4) <==> Meets(rule, p6))
      && (Answers(rules, p4, answer) <==> Answers(rules, p6, answer))
  {
    assert (src + ZEROS)[4..] == ZEROS && (src + ZEROS)[..4] == src;
    assert (dst + ZEROS)[4..] == ZEROS && (dst + ZEROS)[..4] == dst;
    ZeroTail(src + ZEROS);
    ZeroTail(dst + ZEROS);
    hide WordAt, AddressMeets, FieldMatches;
    var p4, p6 := Packet4(src, dst, proto, sport, dport), Packet6(src + ZEROS, dst + ZEROS, proto, sport, dport);
    assert p6.sip == p4.sip by { assert p6.sip == [p6.sip[0]] + p6.sip[1..]; }
    assert p6.dip == p4.dip by { assert p6.dip == [p6.dip[0]] + p6.dip[1..]; }
    assert p6 == p4.(version := IP_VERSION_6);
    assert forall r :: RuleMatches(r, p4) <==> RuleMatches(r, p6);
  }

  /** The IPv6 packet between a00:1:: and a00:2:: meets the IPv4 rule for 10.0.0.1 and 10.0.0.2. */
  lemma MeetsAcross()
    ensures exists rule: Rule, p: Packet :: ValidRule(rule) && !rule.v6 && p.version == IP_VERSION_6 && Meets(rule, p)
  {
    var src, dst := [10, 0, 0, 1], [10, 0, 0, 2];
    var rule := Rule(false, RuleCfg(0, 0xFFFF, 0, 0xFFFF, 0, 255, 32, 32, src, dst));
    FamiliesCoincide([], rule, src, dst, 6, 1, 2, 0);
    OwnPackets4(rule, src, dst, 6, 1, 2);
    assert Meets(rule, Packet6(src + ZEROS, dst + ZEROS, 6, 1, 2));
  }

  // ---------- The scan over the slots ----------

  ghost predicate Owned(t: Table, s: nat)
    requires TableShape(t) && ValidSlot(s)
  {
    t.owners[s - 1].valid && t.owners[s - 1].outer != 0
  }

  ghost predicate Scannable(t: Table, v6: bool) {
    && TableShape(t)
    && forall s {:trigger Owned(t, s)} :: ValidSlot(s) && Owned(t, s) ==>
         ValidRule(Rule(v6, t.cfgs[s - 1])) && ValidOuter(t.owners[s - 1].outer)
  }

  ghost function SlotRule(t: Table, v6: bool, s: nat): AclRule
    requires Scannable(t, v6) && ValidSlot(s) && Owned(t, s)
  {
    AclRuleOf(t.owners[s - 1].outer, Rule(v6, t.cfgs[s - 1]))
  }

  /** The classifier rules of the first k slots, in slot order. */
  ghost function Scanned(t: Table, v6: bool, k: nat): (rules: seq<AclRule>)
    requires Scannable(t, v6) && k <= MAX_SLOTS
    ensures |rules| <= k
  {
    if k == 0 then [] else Scanned(t, v6, k - 1) + if Owned(t, k) then [SlotRule(t, v6, k)] else []
  }

  lemma ScannedNone(t: Table, v6: bool)
    requires Scannable(t, v6)
    ensures Scanned(t, v6, 0) == []
  {
  }

  lemma ScannedNext(t: Table, v6: bool, k: nat)
    requires Scannable(t, v6) && k < MAX_SLOTS
    ensures |t.cfgs| == |t.owners| == MAX_SLOTS
    ensures Scanned(t, v6, k + 1) == Scanned(t, v6, k) +
      if t.owners[k].valid && t.owners[k].outer != 0 then [SlotRule(t, v6, k + 1)] else []
    ensures t.owners[k].valid && t.owners[k].outer != 0 ==>
      && ValidRule(Rule(v6, t.cfgs[k])) && ValidOuter(t.owners[k].outer)
      && SlotRule(t, v6, k + 1) == AclRuleOf(t.owners[k].outer, Rule(v6, t.cfgs[k]))
  {
    assert Owned(t, k + 1) <==> t.owners[k].valid && t.owners[k].outer != 0;
  }

  /** Scans one family. No rule is refused: priorities and ids are in range and there is room. */
  method AddFamily(ctx: Context, f: Family, v6: bool) returns (cnt: int)
    requires f.Separate() && Scannable(f.View(), v6) && ctx as object !in f.footprint
    requires |ctx.rules| + MAX_SLOTS <= ctx.maxRules
    modifies ctx
    ensures f.Separate() && f.View() == old(f.View())
    ensures ctx.rules == old(ctx.rules) + Scanned(f.View(), v6, MAX_SLOTS)
    ensures cnt == |ctx.rules| - |old(ctx.rules)|
  {
    cnt := 0;
    var field := new Field[NUM_FIELDS](_ => NO_FIELD);
    ghost var t := f.View();
    hide Scannable, Scanned, Fields;
    assert Scanned(t, v6, 0) == [] by { ScannedNone(t, v6); }
    for i := 0 to MAX_SLOTS
      invariant f.Separate() && f.View() == t && fresh(field)
      invariant ctx.rules == old(ctx.rules) + Scanned(t, v6, i)
      invariant cnt == |Scanned(t, v6, i)|
    {
      var owner := f.owners[i];
      ScannedNext(t, v6, i);
      if owner.valid && owner.outer != 0 {
        assert Owned(t, i + 1);
        if v6 {
          TransTuple6(f.cfgs[i], field);
        } else {
          TransTuple4(f.cfgs[i], field);
        }
        var ok := ctx.Add(AclRule(field[..], TOP_PRIORITY - owner.outer, owner.outer));
        if !ok {
          return -1;
        }
        cnt := cnt + 1;
      }
    }
  }

  // ---------- The table is the map ----------

  /** The table holds the translation of every rule of m and nothing else. */
  ghost predicate Represents(rules: seq<AclRule>, m: Rules)
    requires RulesOk(m)
  {
    && (forall r :: r in rules ==> r.userdata in m && r == AclRuleOf(r.userdata, m[r.userdata]))
    && (forall id :: id in m ==> AclRuleOf(id, m[id]) in rules)
  }

  lemma StoreScannable(st: State, hash: HashIndex, c: Chains, v6: bool)
    requires StoreOk(st, hash, c)
    ensures Scannable(TableOf(st, v6), v6)
    ensures forall s {:trigger Owned(TableOf(st, v6), s)} ::
              ValidSlot(s) ==> (Owned(TableOf(st, v6), s) <==> s in TableOf(st, v6).used)
  {
    Open(st, hash, c);
    var t := TableOf(st, v6);
    forall s | ValidSlot(s)
      ensures Owned(t, s) <==> s in t.used
      ensures Owned(t, s) ==> ValidRule(Rule(v6, t.cfgs[s - 1])) && ValidOuter(t.owners[s - 1].outer)
    {
      assert SlotOk(t, v6, hash, ChainsOf(c, v6), s);
    }
  }

  lemma {:induction false} ScannedIn(t: Table, v6: bool, k: nat, r: AclRule)
    requires Scannable(t, v6) && k <= MAX_SLOTS
    ensures r in Scanned(t, v6, k) <==> exists s :: 1 <= s <= k && Owned(t, s) && r == SlotRule(t, v6, s)
    decreases k
  {
    if k > 0 {
      ScannedIn(t, v6, k - 1, r);
      if r in Scanned(t, v6, k) {
        assert r in Scanned(t, v6, k - 1) || (Owned(t, k) && r == SlotRule(t, v6, k));
      }
      if s :| 1 <= s <= k && Owned(t, s) && r == SlotRule(t, v6, s) {
        assert s == k || s <= k - 1;
      }
    }
  }

  /** Every scanned rule is a rule of the store under its own id. */
  lemma ScannedIsStored(st: State, hash: HashIndex, c: Chains, v6: bool, r: AclRule)
    requires StoreOk(st, hash, c) && Scannable(TableOf(st, v6), v6) && RulesOk(RulesIn(st))
    requires r in Scanned(TableOf(st, v6), v6, MAX_SLOTS)
    ensures r.userdata in RulesIn(st) && r == AclRuleOf(r.userdata, RulesIn(st)[r.userdata])
  {
    var t := TableOf(st, v6);
    StoreScannable(st, hash, c, v6);
    ScannedIn(t, v6, MAX_SLOTS, r);
    var s :| 1 <= s <= MAX_SLOTS && Owned(t, s) && r == SlotRule(t, v6, s);
    OwnerOfSlot(st, hash, c, v6, s);
  }

  /** Every rule of the store is scanned in its family. */
  lemma StoredIsScanned(st: State, hash: HashIndex, c: Chains, id: nat)
    requires StoreOk(st, hash, c) && id in RulesIn(st) && RulesOk(RulesIn(st))
    requires Scannable(TableOf(st, RulesIn(st)[id].v6), RulesIn(st)[id].v6)
    ensures var r := RulesIn(st)[id]; AclRuleOf(id, r) in Scanned(TableOf(st, r.v6), r.v6, MAX_SLOTS)
  {
    var r, s := RulesIn(st)[id], st.ruleMap[id - 1].actual;
    SlotOfOwner(st, hash, c, id);
    StoreScannable(st, hash, c, r.v6);
    var t := TableOf(st, r.v6);
    assert s in t.used && ValidSlot(s) && Owned(t, s);
    ScannedIn(t, r.v6, MAX_SLOTS, AclRuleOf(id, r));
    assert AclRuleOf(id, r) == SlotRule(t, r.v6, s);
  }

  lemma ScansRepresent(st: State, hash: HashIndex, c: Chains)
    requires StoreOk(st, hash, c)
    ensures RulesOk(RulesIn(st)) && Scannable(st.v4, false) && Scannable(st.v6, true)
    ensures Represents(Scanned(st.v4, false, MAX_SLOTS) + Scanned(st.v6, true, MAX_SLOTS), RulesIn(st))
  {
    RulesInOk(st, hash, c);
    StoreScannable(st, hash, c, false);
    StoreScannable(st, hash, c, true);
    var m := RulesIn(st);
    var all := Scanned(st.v4, false, MAX_SLOTS) + Scanned(st.v6, true, MAX_SLOTS);
    hide Scanned, StoreOk, RulesIn, RulesOk, AclRuleOf, Scannable;
    forall r | r in all ensures r.userdata in m && r == AclRuleOf(r.userdata, m[r.userdata]) {
      if r in Scanned(st.v4, false, MAX_SLOTS) {
        ScannedIsStored(st, hash, c, false, r);
      } else {
        ScannedIsStored(st, hash, c, true, r);
      }
    }
    forall id | id in m ensures AclRuleOf(id, m[id]) in all {
      StoredIsScanned(st, hash, c, id);
    }
  }

  /** The two scans, into an empty table. */
  method AddBoth(ctx: Context, store: Store) returns (cnt: int)
    requires store.Separate() && ctx as object !in store.footprint
    requires Scannable(store.v4.View(), false) && Scannable(store.v6.View(), true)
    requires ctx.rules == [] && ctx.maxRules == 2 * MAX_SLOTS
    modifies ctx
    ensures cnt == |ctx.rules| && store.Separate() && store.View() == old(store.View())
    ensures ctx.rules == Scanned(store.v4.View(), false, MAX_SLOTS) + Scanned(store.v6.View(), true, MAX_SLOTS)
  {
    cnt := AddFamily(ctx, store.v4, false);
    if cnt < 0 {
      return -1;
    }
    var more := AddFamily(ctx, store.v6, true);
    if more < 0 {
      return -1;
    }
    cnt := cnt + more;
  }

  /** rte_acl_table_add_rules: scans both families into an empty table. It never fails, and the table
      then holds exactly the translations of the store's rules. */
  method TableAddRules(ctx: Context, store: Store) returns (cnt: int)
    requires store.Valid() && ctx as object !in store.footprint
    requires ctx.rules == [] && ctx.maxRules == 2 * MAX_SLOTS
    modifies ctx
    ensures store.Valid() && store.Rules() == old(store.Rules()) && RulesOk(store.Rules())
    ensures cnt == |ctx.rules| && Represents(ctx.rules, store.Rules())
    ensures cnt == 0 <==> store.Rules() == map[]
  {
    hide StoreOk, Represents, Scanned, RulesIn, RulesOk, Scannable;
    ScansRepresent(store.View(), store.v4.hash, store.chains);
    ghost var m := store.Rules();
    cnt := AddBoth(ctx, store);
    EmptyRepresents(ctx.rules, m);
  }

  lemma EmptyRepresents(rules: seq<AclRule>, m: Rules)
    requires RulesOk(m) && Represents(rules, m)
    ensures rules == [] <==> m == map[]
  {
    if rules != [] {
      assert rules[0] in rules;
    }
    if m != map[] {
      var id :| id in m;
      assert AclRuleOf(id, m[id]) in rules;
    }
  }

  /** First match: classifying with a table that holds exactly the rules of m gives the smallest id
      whose rule the packet meets, and 0 exactly when it meets none. */
  lemma ClassifiesFirstMatch(rules: seq<AclRule>, m: Rules, p: Packet, answer: nat)
    requires RulesOk(m) && Represents(rules, m)
    ensures Answers(rules, p, answer) <==> FirstMatch(m, p, answer)
  {
    hide Meets, RuleMatches;
    forall id | id in m
      ensures AclRuleOf(id, m[id]) in rules && (RuleMatches(AclRuleOf(id, m[id]), p) <==> Meets(m[id], p))
    {
      TranslationMeans(id, m[id], p);
    }
    if id :| id in m && Meets(m[id], p) {
      assert AclRuleOf(id, m[id]) in rules && RuleMatches(AclRuleOf(id, m[id]), p);
      if FirstMatch(m, p, answer) {
        var best := AclRuleOf(answer, m[answer]);
        assert best in rules && RuleMatches(best, p);
        forall r | r in rules && RuleMatches(r, p) ensures r.priority <= best.priority {
          assert Meets(m[r.userdata], p);
        }
      }
      if Answers(rules, p, answer) {
        forall other | other in m && Meets(m[other], p) ensures answer <= other {
          assert AclRuleOf(other, m[other]).priority == TOP_PRIORITY - other;
        }
      }
    }
  }

  // ---------- A whole sync ----------

  /** What the calls into the classifier library answer during one sync. */
  datatype Library = Library(created: bool, methodSet: bool, built: bool)

  /** The table in use, NULL for none, and the index of the next table name. */
  class AclMain {
    var live: Context?
    var nameModel: nat

    constructor ()
      ensures live == null && nameModel == 0
    {
      live, nameModel := null, 0;
    }
  }

  /** rte_acl_table_setup: a new table that represents the rules, none when there are no rules, or -1
      when the library fails; a table is only built when there are rules. */
  method TableSetup(store: Store, library: Library) returns (code: int, ctx: Context?)
    requires store.Valid()
    ensures store.Valid() && store.Rules() == old(store.Rules()) && RulesOk(store.Rules())
    ensures code == if library.created && library.methodSet && (library.built || store.Rules() == map[]) then 0 else -1
    ensures code == 0 ==> (ctx == null <==> store.Rules() == map[])
    ensures ctx != null ==> fresh(ctx) && Represents(ctx.rules, store.Rules())
  {
    store.WellFormed();
    if !library.created {
      return -1, null;
    }
    var context := new Context(2 * MAX_SLOTS);
    if !library.methodSet {
      return -1, null;
    }
    var cnt := TableAddRules(context, store);
    if cnt < 0 {
      return -1, null;
    }
    if cnt == 0 {
      return 0, null;
    }
    if !library.built {
      return -1, null;
    }
    return 0, context;
  }

  /** The live table stands for the rules: none for no rules. */
  ghost predicate LiveFor(live: Context?, m: Rules)
    requires RulesOk(m)
    reads live
  {
    if live == null then m == map[] else Represents(live.rules, m)
  }

  /** sync_rte_tuple_rules: afterwards the live table stands for the store's rules; if the library
      fails the live table and the next name stay as they were. The name changes with every new table. */
  method SyncRules(main: AclMain, store: Store, library: Library) returns (errors: int)
    requires store.Valid() && main as object !in store.footprint
    modifies main
    ensures store.Valid() && store.Rules() == old(store.Rules()) && RulesOk(store.Rules())
    ensures errors == if library.created && library.methodSet && (library.built || store.Rules() == map[]) then 0 else -1
    ensures errors == 0 ==> LiveFor(main.live, store.Rules())
    ensures errors == 0 && main.live != null ==> fresh(main.live) && main.nameModel == (if old(main.nameModel) == 0 then 1 else 0)
    ensures errors != 0 ==> main.live == old(main.live)
    ensures errors != 0 || main.live == null ==> main.nameModel == old(main.nameModel)
  {
    hide StoreFacts, RulesIn, Represents, RulesOk;
    errors := 0;
    var code, ctx := TableSetup(store, library);
    if code != 0 {
      errors := errors - 1;
      return;
    }
    main.live := ctx;
    if ctx != null {
      main.nameModel := if main.nameModel == 0 then 1 else 0;
    }
  }

  /** What a worker gets for a packet: 0 without a table. */
  ghost predicate WorkerAnswers(live: Context?, p: Packet, answer: nat)
    reads live
  {
    if live == null then answer == 0 else Answers(live.rules, p, answer)
  }

  /** With a live table that stands for the rules a worker gets the smallest outer id whose rule the
      packet meets, and 0 exactly when it meets none. */
  lemma WorkersFirstMatch(live: Context?, m: Rules, p: Packet, answer: nat)
    requires RulesOk(m) && LiveFor(live, m)
    ensures WorkerAnswers(live, p, answer) <==> FirstMatch(m, p, answer)
    ensures WorkerAnswers(live, p, answer) && answer != 0 ==>
      answer in m && Meets(m[answer], p) && forall id :: id in m && Meets(m[id], p) ==> answer <= id
    ensures WorkerAnswers(live, p, 0) <==> forall id :: id in m ==> !Meets(m[id], p)
  {
    assert 0 !in m;
    hide Meets, RulesOk, Represents, Answers;
    if live != null {
      ClassifiesFirstMatch(live.rules, m, p, answer);
      ClassifiesFirstMatch(live.rules, m, p, 0);
    }
  }
}
