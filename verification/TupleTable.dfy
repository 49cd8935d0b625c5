/** The slots of one address family: allocator bitmap, content hash, rule configurations and the
    reverse map from slot to outer id. */
module TupleTable {
  import opened Words
  import opened SlotBitmap
  import opened HashChains
  import opened RuleMap

  /** The reverse map entry of a slot. */
  datatype MapRule = MapRule(valid: bool, group: nat, outer: nat)

  const NO_OWNER: MapRule := MapRule(false, 0, 0)

  type HashIndex = RuleCfg -> nat

  /** used are the slots the bitmap marks. */
  datatype Table = Table(used: set<nat>, links: Links, cfgs: seq<RuleCfg>, owners: seq<MapRule>)

  ghost predicate TableShape(t: Table) {
    && |t.cfgs| == |t.owners| == MAX_SLOTS
    && forall s :: s in t.used ==> ValidSlot(s)
  }

  /** Slot s is marked used iff it is chained in the bucket of its own key iff it has an owner. */
  ghost predicate SlotOk(t: Table, v6: bool, hash: HashIndex, chains: seq<seq<nat>>, s: nat)
    requires TableShape(t) && ValidSlot(s) && |chains| == BUCKET_CNT
  {
    && (s in t.used <==> Chained(chains, s))
    && (s in t.used ==> hash(t.cfgs[s - 1]) < BUCKET_CNT && s in chains[hash(t.cfgs[s - 1])])
    && (s in t.used ==> ValidRule(Rule(v6, t.cfgs[s - 1])))
    && (s in t.used ==> t.owners[s - 1] == MapRule(true, 1, t.owners[s - 1].outer) && ValidOuter(t.owners[s - 1].outer))
    && (s !in t.used ==> t.owners[s - 1] == NO_OWNER)
  }

  /** No two used slots hold the same configuration. */
  ghost predicate KeysDistinct(t: Table)
    requires TableShape(t)
  {
    forall s, s' :: s in t.used && s' in t.used && t.cfgs[s - 1] == t.cfgs[s' - 1] ==> s == s'
  }

  ghost predicate TableOk(t: Table, v6: bool, hash: HashIndex, chains: seq<seq<nat>>) {
    && TableShape(t) && LinksOk(t.links, chains) && KeysDistinct(t)
    && (forall s {:trigger SlotOk(t, v6, hash, chains, s)} ::
          ValidSlot(s) ==> SlotOk(t, v6, hash, chains, s))
  }

  ghost predicate EmptyTable(t: Table, v6: bool, hash: HashIndex) {
    TableOk(t, v6, hash, NoChains()) && t.used == {}
  }

  // ---------- Writing, occupying and releasing a slot ----------

  function Written(t: Table, s: nat, cfg: RuleCfg): Table
    requires |t.cfgs| == MAX_SLOTS && ValidSlot(s)
  {
    t.(cfgs := t.cfgs[s - 1 := cfg])
  }

  ghost predicate Linkable(t: Table, hash: HashIndex, s: nat) {
    TableShape(t) && Shape(t.links) && ValidSlot(s) && hash(t.cfgs[s - 1]) < BUCKET_CNT
  }

  /** Slot s given to outer id o. */
  ghost function Occupied(t: Table, hash: HashIndex, s: nat, o: nat): Table
    requires Linkable(t, hash, s)
  {
    Table(t.used + {s}, Push(t.links, hash(t.cfgs[s - 1]), s), t.cfgs, t.owners[s - 1 := MapRule(true, 1, o)])
  }

  /** Slot s given up. */
  ghost function Released(t: Table, hash: HashIndex, s: nat): Table
    requires Linkable(t, hash, s)
  {
    Table(t.used - {s}, Unlink(t.links, hash(t.cfgs[s - 1]), s), t.cfgs, t.owners[s - 1 := NO_OWNER])
  }

  /** Only unused slots are ever written, so no chain and no other slot notices. */
  lemma WriteKeeps(t: Table, v6: bool, hash: HashIndex, chains: seq<seq<nat>>, s: nat, cfg: RuleCfg)
    requires TableOk(t, v6, hash, chains) && ValidSlot(s) && s !in t.used
    ensures TableOk(Written(t, s, cfg), v6, hash, chains)
  {
    var t' := Written(t, s, cfg);
    forall x | ValidSlot(x) ensures SlotOk(t', v6, hash, chains, x) {
      assert SlotOk(t, v6, hash, chains, x);
    }
  }

  lemma OccupyKeeps(t: Table, v6: bool, hash: HashIndex, chains: seq<seq<nat>>, s: nat, o: nat)
    requires TableOk(t, v6, hash, chains) && Linkable(t, hash, s) && s !in t.used && ValidOuter(o)
    requires ValidRule(Rule(v6, t.cfgs[s - 1]))
    requires forall x :: x in t.used ==> t.cfgs[x - 1] != t.cfgs[s - 1]
    ensures var b := hash(t.cfgs[s - 1]);
      TableOk(Occupied(t, hash, s, o), v6, hash, chains[b := [s] + chains[b]])
  {
    var b := hash(t.cfgs[s - 1]);
    var t', chains' := Occupied(t, hash, s, o), chains[b := [s] + chains[b]];
    assert SlotOk(t, v6, hash, chains, s);
    hide LinksOk, Chained, ValidRule, Push;
    PushKeeps(t.links, chains, b, s);
    KeysAfterOccupy(t, hash, s, o);
    hide SlotOk, KeysDistinct;
    forall x | ValidSlot(x) ensures SlotOk(t', v6, hash, chains', x) {
      SlotAfterOccupy(t, v6, hash, chains, s, o, x);
    }
  }

  lemma KeysAfterOccupy(t: Table, hash: HashIndex, s: nat, o: nat)
    requires Linkable(t, hash, s) && KeysDistinct(t) && forall x :: x in t.used ==> t.cfgs[x - 1] != t.cfgs[s - 1]
    ensures KeysDistinct(Occupied(t, hash, s, o))
  {
    hide Push;
  }

  /** One slot of a table in which slot s has been occupied. */
  lemma SlotAfterOccupy(t: Table, v6: bool, hash: HashIndex, chains: seq<seq<nat>>, s: nat, o: nat, x: nat)
    requires Linkable(t, hash, s) && |chains| == BUCKET_CNT && ValidSlot(x) && SlotOk(t, v6, hash, chains, x)
    requires ValidOuter(o) && ValidRule(Rule(v6, t.cfgs[s - 1]))
    ensures var b := hash(t.cfgs[s - 1]);
      SlotOk(Occupied(t, hash, s, o), v6, hash, chains[b := [s] + chains[b]], x)
  {
    hide Chained, ValidRule, Push;
    ChainedAfterPush(chains, hash(t.cfgs[s - 1]), s, x);
  }

  lemma ReleaseKeeps(t: Table, v6: bool, hash: HashIndex, chains: seq<seq<nat>>, i: nat, s: nat)
    requires TableOk(t, v6, hash, chains) && Linkable(t, hash, s)
    requires var b := hash(t.cfgs[s - 1]); i < |chains[b]| && chains[b][i] == s
    ensures var b := hash(t.cfgs[s - 1]);
      TableOk(Released(t, hash, s), v6, hash, chains[b := Without(chains[b], i)])
  {
    var b := hash(t.cfgs[s - 1]);
    var t', chains' := Released(t, hash, s), chains[b := Without(chains[b], i)];
    UnlinkKeeps(t.links, chains, b, i);
    forall x | ValidSlot(x) ensures SlotOk(t', v6, hash, chains', x) {
      assert SlotOk(t, v6, hash, chains, x);
      ChainedAfterUnlink(chains, b, i, x);
    }
  }

  lemma ChainedAfterPush(chains: seq<seq<nat>>, b: nat, s: nat, x: nat)
    requires b < |chains|
    ensures Chained(chains[b := [s] + chains[b]], x) <==> x == s || Chained(chains, x)
    ensures forall i :: 0 <= i < |chains| && x in chains[i] ==> x in chains[b := [s] + chains[b]][i]
    ensures s in chains[b := [s] + chains[b]][b]
  {
    var chains' := chains[b := [s] + chains[b]];
    if Chained(chains, x) {
      var i :| 0 <= i < |chains| && x in chains[i];
      assert x in chains'[i];
    }
    assert s in chains'[b];
  }

  lemma ChainedAfterUnlink(chains: seq<seq<nat>>, b: nat, i: nat, x: nat)
    requires Apart(chains) && b < |chains| && i < |chains[b]|
    ensures var chains' := chains[b := Without(chains[b], i)];
      && (Chained(chains', x) <==> x != chains[b][i] && Chained(chains, x))
      && (forall j :: 0 <= j < |chains| && x != chains[b][i] && x in chains[j] ==> x in chains'[j])
  {
    var c, s := chains[b], chains[b][i];
    var chains' := chains[b := Without(c, i)];
    forall j | 0 <= j < |chains| && x != s && x in chains[j] ensures x in chains'[j] {
      if j == b {
        var k :| 0 <= k < |c| && c[k] == x;
        assert Without(c, i)[if k < i then k else k - 1] == x;
      }
    }
    if x != s && Chained(chains, x) {
      var j :| 0 <= j < |chains| && x in chains[j];
      assert x in chains'[j];
    }
    if Chained(chains', x) {
      var j :| 0 <= j < |chains'| && x in chains'[j];
      assert x in chains[j];
      assert s in c;
    }
  }

  // ---------- Releasing with the unlinking as written ----------

  ghost function ReleasedAsWritten(t: Table, hash: HashIndex, s: nat): Table
    requires Linkable(t, hash, s)
  {
    Table(t.used - {s}, UnlinkAsWritten(t.links, hash(t.cfgs[s - 1]), s), t.cfgs, t.owners[s - 1 := NO_OWNER])
  }

  /** With the same bucket head and the same forward links, any chain of the bucket starts alike. */
  lemma {:induction false} SameWalk(l: Links, l': Links, b: nat, c: seq<nat>, c': seq<nat>, k: nat)
    requires Shape(l) && Shape(l') && b < BUCKET_CNT && ChainAt(l, b, c) && ChainAt(l', b, c')
    requires l'.heads[b] == l.heads[b] && l'.nexts == l.nexts && k < |c|
    ensures k < |c'| && c'[k] == c[k]
  {
    assert NodeAt(l, c, k);
    if k > 0 {
      SameWalk(l, l', b, c, c', k - 1);
      assert NodeAt(l, c, k - 1) && NodeAt(l', c', k - 1);
    }
  }

  /** The release as written keeps the table in order, under any chains at all, exactly when the slot is
      alone in its bucket. Deleting the newest of several rules of a bucket loses the others; deleting
      an older one leaves it chained. */
  lemma AsWrittenKeepsIffAlone(t: Table, v6: bool, hash: HashIndex, chains: seq<seq<nat>>, i: nat, s: nat)
    requires TableOk(t, v6, hash, chains) && Linkable(t, hash, s)
    requires var b := hash(t.cfgs[s - 1]); i < |chains[b]| && chains[b][i] == s
    ensures (exists chains' :: TableOk(ReleasedAsWritten(t, hash, s), v6, hash, chains'))
            <==> t.links.prevs[s - 1] == 0 && t.links.nexts[s - 1] == 0
  {
    var b := hash(t.cfgs[s - 1]);
    var c, t' := chains[b], ReleasedAsWritten(t, hash, s);
    if t.links.prevs[s - 1] == 0 && t.links.nexts[s - 1] == 0 {
      assert NodeAt(t.links, c, i);
      UnlinkAloneAsWritten(t.links, b, s);
      ReleaseKeeps(t, v6, hash, chains, i, s);
    } else {
      hide LinksOk, SlotOk, KeysDistinct, TableShape;
      forall chains' ensures !TableOk(t', v6, hash, chains') {
        if LinksOk(t'.links, chains') {
          var x := AsWrittenBreaks(t, v6, hash, chains, i, s, chains');
        }
      }
    }
  }

  /** The slot that shows it: the released one when it is still chained, else one that was lost. */
  lemma AsWrittenBreaks(t: Table, v6: bool, hash: HashIndex, chains: seq<seq<nat>>, i: nat, s: nat, chains': seq<seq<nat>>)
    returns (x: nat)
    requires TableOk(t, v6, hash, chains) && Linkable(t, hash, s)
    requires var b := hash(t.cfgs[s - 1]); i < |chains[b]| && chains[b][i] == s
    requires t.links.prevs[s - 1] != 0 || t.links.nexts[s - 1] != 0
    requires LinksOk(ReleasedAsWritten(t, hash, s).links, chains')
    ensures ValidSlot(x) && !SlotOk(ReleasedAsWritten(t, hash, s), v6, hash, chains', x)
  {
    var b := hash(t.cfgs[s - 1]);
    var c, t' := chains[b], ReleasedAsWritten(t, hash, s);
    assert NodeAt(t.links, c, i);
    assert ChainAt(t'.links, b, chains'[b]);
    if i > 0 {
      assert NodeAt(t.links, c, i - 1);
      SameWalk(t.links, t'.links, b, c, chains'[b], i);
      assert Chained(chains', s);
      x := s;
    } else {
      x := c[1];
      assert NodeAt(t.links, c, 1);
      assert chains'[b] != [] ==> NodeAt(t'.links, chains'[b], 0);
      assert chains'[b] == [];
      assert x in c && x != s;
      assert SlotOk(t, v6, hash, chains, x);
      UniqueBucket(chains, x, b, hash(t.cfgs[x - 1]));
    }
  }

  lemma UniqueBucket(chains: seq<seq<nat>>, x: nat, b: nat, b': nat)
    requires Apart(chains) && b < |chains| && b' < |chains| && x in chains[b] && x in chains[b']
    ensures b == b'
  {
    assert b != b' ==> Disjoint(chains[b], chains[b']);
  }

  // ---------- Tables it breaks ----------

  /** The first slots of the first k chains. */
  ghost function Heads(chains: seq<seq<nat>>, k: nat): set<nat>
    requires k <= |chains|
  {
    if k == 0 then {} else Heads(chains, k - 1) + if chains[k - 1] == [] then {} else {chains[k - 1][0]}
  }

  lemma {:induction false} HeadsOf(chains: seq<seq<nat>>, k: nat)
    requires k <= |chains|
    ensures |Heads(chains, k)| <= k && forall b :: 0 <= b < k && chains[b] != [] ==> chains[b][0] in Heads(chains, k)
    decreases k
  {
    if k > 0 {
      HeadsOf(chains, k - 1);
    }
  }

  /** More used slots than buckets put two slots into one bucket. */
  lemma SharedBucket(t: Table, v6: bool, hash: HashIndex, chains: seq<seq<nat>>) returns (b: nat)
    requires TableOk(t, v6, hash, chains) && |t.used| > BUCKET_CNT
    ensures b < BUCKET_CNT && |chains[b]| >= 2
  {
    if forall b' :: 0 <= b' < BUCKET_CNT ==> |chains[b']| < 2 {
      HeadsOf(chains, BUCKET_CNT);
      forall s | s in t.used ensures s in Heads(chains, BUCKET_CNT) {
        assert SlotOk(t, v6, hash, chains, s);
      }
      SubsetSize(t.used, Heads(chains, BUCKET_CNT));
      assert false;
    }
    b :| 0 <= b < BUCKET_CNT && |chains[b]| >= 2;
  }

  /** Releasing the newest of several slots of a bucket as written leaves a table in order under no chains. */
  lemma SharedBucketBreaks(t: Table, v6: bool, hash: HashIndex, chains: seq<seq<nat>>, b: nat)
    requires TableOk(t, v6, hash, chains) && b < BUCKET_CNT && |chains[b]| >= 2
    ensures chains[b][0] in t.used && Linkable(t, hash, chains[b][0])
    ensures forall chains' :: !TableOk(ReleasedAsWritten(t, hash, chains[b][0]), v6, hash, chains')
  {
    var s := chains[b][0];
    assert ChainAt(t.links, b, chains[b]);
    assert NodeAt(t.links, chains[b], 0) && NodeAt(t.links, chains[b], 1);
    assert s in chains[b] && SlotOk(t, v6, hash, chains, s);
    UniqueBucket(chains, s, b, hash(t.cfgs[s - 1]));
    AsWrittenKeepsIffAlone(t, v6, hash, chains, 0, s);
  }

  /** A family with more rules than buckets always has a slot whose release as written breaks it. */
  lemma CrowdedBreaks(t: Table, v6: bool, hash: HashIndex, chains: seq<seq<nat>>) returns (s: nat)
    requires TableOk(t, v6, hash, chains) && |t.used| > BUCKET_CNT
    ensures s in t.used && Linkable(t, hash, s)
    ensures forall chains' :: !TableOk(ReleasedAsWritten(t, hash, s), v6, hash, chains')
  {
    var b := SharedBucket(t, v6, hash, chains);
    SharedBucketBreaks(t, v6, hash, chains, b);
    s := chains[b][0];
  }

  /** A zeroed table. */
  ghost function NewTable(): Table {
    var links := Links(seq(BUCKET_CNT, _ => 0), seq(BUCKET_CNT, _ => 0), seq(MAX_SLOTS, _ => 0), seq(MAX_SLOTS, _ => 0));
    Table({}, links, seq(MAX_SLOTS, _ => RuleCfg(0, 0, 0, 0, 0, 0, 0, 0, [], [])), seq(MAX_SLOTS, _ => NO_OWNER))
  }

  lemma NewTableEmpty(v6: bool, hash: HashIndex)
    ensures EmptyTable(NewTable(), v6, hash)
  {
    var t := NewTable();
    assert LinksOk(t.links, NoChains());
    forall s | ValidSlot(s) ensures SlotOk(t, v6, hash, NoChains(), s) {
    }
  }

  /** So does a table of any two rules that the hash puts into one bucket. */
  lemma TwoBreak(v6: bool, hash: HashIndex, first: RuleCfg, second: RuleCfg)
    returns (t': Table, chains: seq<seq<nat>>)
    requires first != second && hash(first) == hash(second) < BUCKET_CNT
    requires ValidRule(Rule(v6, first)) && ValidRule(Rule(v6, second))
    ensures TableOk(t', v6, hash, chains) && t'.used == {1, 2} && Linkable(t', hash, 2)
    ensures forall chains' :: !TableOk(ReleasedAsWritten(t', hash, 2), v6, hash, chains')
  {
    var t := NewTable();
    NewTableEmpty(v6, hash);
    hide LinksOk, SlotOk, ValidRule, Push, NewTable;
    var b := hash(first);
    WriteKeeps(t, v6, hash, NoChains(), 1, first);
    var t1 := Written(t, 1, first);
    assert Linkable(t1, hash, 1) by { LinksShape(t1.links, NoChains()); }
    OccupyKeeps(t1, v6, hash, NoChains(), 1, 1);
    var t2, chains2 := Occupied(t1, hash, 1, 1), NoChains()[b := [1] + NoChains()[b]];
    WriteKeeps(t2, v6, hash, chains2, 2, second);
    var t3 := Written(t2, 2, second);
    assert Linkable(t3, hash, 2) by { LinksShape(t3.links, chains2); }
    OccupyKeeps(t3, v6, hash, chains2, 2, 2);
    t', chains := Occupied(t3, hash, 2, 2), chains2[b := [2] + chains2[b]];
    assert chains[b][0] == 2 && |chains[b]| == 2;
    SharedBucketBreaks(t', v6, hash, chains, b);
  }

  lemma LinksShape(l: Links, chains: seq<seq<nat>>)
    requires LinksOk(l, chains)
    ensures Shape(l)
  {
  }
}
