/** The content key of a stored rule: its bytes in memory, their checksum and its bucket. */
module RuleHash {
  import opened Words
  import opened Crc32
  import opened HashChains
  import opened RuleMap
  import opened TupleTable
  import opened RuleStore

  /** A 16-bit field as a little-endian machine stores it. */
  function TwoBytes(x: U16): (b: seq<Byte>)
    ensures |b| == 2
  {
    [x % 256, x / 256]
  }

  lemma TwoBytesSame(x: U16, y: U16)
    ensures TwoBytes(x) == TwoBytes(y) <==> x == y
  {
    if TwoBytes(x) == TwoBytes(y) {
      assert TwoBytes(x)[0] == TwoBytes(y)[0] && TwoBytes(x)[1] == TwoBytes(y)[1];
      assert x == x / 256 * 256 + x % 256 && y == y / 256 * 256 + y % 256;
    }
  }

  /** The structure's bytes: it has no padding. */
  function KeyBytes(c: RuleCfg): (b: seq<Byte>)
    ensures |b| == 12 + |c.sip| + |c.dip|
  {
    TwoBytes(c.sportMin) + TwoBytes(c.sportMax) + TwoBytes(c.dportMin) + TwoBytes(c.dportMax)
    + [c.protoMin, c.protoMax, c.sipMask, c.dipMask] + c.sip + c.dip
  }

  /** Where the fields stand in the structure. */
  lemma KeyPlaces(c: RuleCfg)
    ensures var x, n := KeyBytes(c), |c.sip|;
      && x[0..2] == TwoBytes(c.sportMin) && x[2..4] == TwoBytes(c.sportMax)
      && x[4..6] == TwoBytes(c.dportMin) && x[6..8] == TwoBytes(c.dportMax)
      && x[8..12] == [c.protoMin, c.protoMax, c.sipMask, c.dipMask]
      && x[12..12 + n] == c.sip && x[12 + n..] == c.dip
  {
    hide TwoBytes;
  }

  function LowHigh(low: nat, high: nat): nat {
    low + 256 * high
  }

  /** Byte by byte, as the structure is declared: the four ports low byte first, then protocols, mask lengths
      and addresses. */
  lemma KeyIs(c: RuleCfg)
    ensures var x, n := KeyBytes(c), |c.sip|;
      && LowHigh(x[0], x[1]) == c.sportMin && LowHigh(x[2], x[3]) == c.sportMax
      && LowHigh(x[4], x[5]) == c.dportMin && LowHigh(x[6], x[7]) == c.dportMax
      && x[8] == c.protoMin && x[9] == c.protoMax && x[10] == c.sipMask && x[11] == c.dipMask
      && x[12..12 + n] == c.sip && x[12 + n..] == c.dip
  {
    KeyPlaces(c);
    var x := KeyBytes(c);
    hide KeyBytes;
    assert x[0] == x[0..2][0] && x[1] == x[0..2][1] && x[2] == x[2..4][0] && x[3] == x[2..4][1];
    assert x[4] == x[4..6][0] && x[5] == x[4..6][1] && x[6] == x[6..8][0] && x[7] == x[6..8][1];
    assert x[8] == x[8..12][0] && x[9] == x[8..12][1] && x[10] == x[8..12][2] && x[11] == x[8..12][3];
  }

  /** Comparing the bytes of two rules of one family is comparing the rules. */
  lemma SameBytesIffSameRule(a: RuleCfg, b: RuleCfg)
    requires |a.sip| == |b.sip| && |a.dip| == |b.dip|
    ensures KeyBytes(a) == KeyBytes(b) <==> a == b
  {
    if KeyBytes(a) == KeyBytes(b) {
      KeyPlaces(a);
      KeyPlaces(b);
      hide KeyBytes, TwoBytes;
      TwoBytesSame(a.sportMin, b.sportMin);
      TwoBytesSame(a.sportMax, b.sportMax);
      TwoBytesSame(a.dportMin, b.dportMin);
      TwoBytesSame(a.dportMax, b.dportMax);
      var masks, masks' := [a.protoMin, a.protoMax, a.sipMask, a.dipMask], [b.protoMin, b.protoMax, b.sipMask, b.dipMask];
      assert masks == masks' && masks[0] == masks'[0] && masks[1] == masks'[1] && masks[2] == masks'[2] && masks[3] == masks'[3];
    }
  }

  /** The bucket of a rule by the reference definition of its checksum. */
  function BucketOf(c: RuleCfg): (b: nat)
    ensures b < BUCKET_CNT
  {
    Crc(KeyBytes(c)) % BUCKET_CNT
  }

  /** acl_hash_index: the checksum routine gives that bucket. */
  method Index(c: RuleCfg) returns (b: nat)
    ensures b == BucketOf(c) == Crc(KeyBytes(c)) % 256
  {
    var crc := Generate(KeyBytes(c));
    b := crc % BUCKET_CNT;
  }

  /** An empty store whose rules are hashed by checksum. */
  method NewStore() returns (store: Store)
    ensures store.Valid() && store.Rules() == map[] && fresh(store.footprint)
    ensures store.v4.hash == store.v6.hash == BucketOf
  {
    store := new Store(BucketOf);
  }
}
