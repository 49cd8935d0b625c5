/** The rule hash: buckets holding doubly linked chains of slot ids, linked by index.
    Slot id 0 means "none"; the entry of slot s is at index s-1. */
module HashChains {
  import opened SlotBitmap

  const BUCKET_CNT: nat := MAX_SLOTS / 8
  const SATURATED: nat := 0xFF

  /** heads and counts per bucket, prevs and nexts per slot. */
  datatype Links = Links(heads: seq<nat>, counts: seq<nat>, prevs: seq<nat>, nexts: seq<nat>)

  ghost predicate Shape(l: Links) {
    && |l.heads| == |l.counts| == BUCKET_CNT
    && |l.prevs| == |l.nexts| == MAX_SLOTS
    && (forall b :: 0 <= b < BUCKET_CNT ==> l.heads[b] <= MAX_SLOTS)
    && (forall i :: 0 <= i < MAX_SLOTS ==> l.prevs[i] <= MAX_SLOTS)
    && (forall i :: 0 <= i < MAX_SLOTS ==> l.nexts[i] <= MAX_SLOTS)
  }

  function At(c: seq<nat>, i: int): nat {
    if 0 <= i < |c| then c[i] else 0
  }

  /** Bucket b heads the chain c: linked both ways, ending in 0 both ways, counted unless saturated. */
  ghost predicate ChainAt(l: Links, b: nat, c: seq<nat>)
    requires Shape(l) && b < BUCKET_CNT
  {
    && l.heads[b] == At(c, 0)
    && (l.counts[b] == |c| || l.counts[b] == SATURATED)
    && l.counts[b] <= SATURATED
    && (forall i {:trigger NodeAt(l, c, i)} :: 0 <= i < |c| ==> NodeAt(l, c, i))
  }

  /** The i-th slot of the chain c links to its neighbours. */
  ghost predicate NodeAt(l: Links, c: seq<nat>, i: nat)
    requires Shape(l) && i < |c|
  {
    ValidSlot(c[i]) && l.nexts[c[i] - 1] == At(c, i + 1) && l.prevs[c[i] - 1] == At(c, i - 1)
  }

  ghost predicate NoDup(c: seq<nat>) {
    forall i, j :: 0 <= i < j < |c| ==> c[i] != c[j]
  }

  ghost predicate Disjoint(c: seq<nat>, d: seq<nat>) {
    forall s :: s in c ==> s !in d
  }

  /** No slot occurs twice, in one chain or in two. */
  ghost predicate Apart(chains: seq<seq<nat>>) {
    && (forall b :: 0 <= b < |chains| ==> NoDup(chains[b]))
    && (forall b, b' :: 0 <= b < |chains| && 0 <= b' < |chains| && b != b' ==> Disjoint(chains[b], chains[b']))
  }

  ghost predicate LinksOk(l: Links, chains: seq<seq<nat>>) {
    && Shape(l) && |chains| == BUCKET_CNT && Apart(chains)
    && forall b :: 0 <= b < BUCKET_CNT ==> ChainAt(l, b, chains[b])
  }

  ghost function NoChains(): (chains: seq<seq<nat>>)
    ensures |chains| == BUCKET_CNT && forall b :: 0 <= b < BUCKET_CNT ==> chains[b] == []
  {
    seq(BUCKET_CNT, _ => [])
  }

  ghost predicate Chained(chains: seq<seq<nat>>, s: nat) {
    exists b :: 0 <= b < |chains| && s in chains[b]
  }

  // ---------- The three operations on the links ----------

  function Push(l: Links, b: nat, s: nat): Links
    requires Shape(l) && b < BUCKET_CNT && ValidSlot(s)
  {
    var head := l.heads[b];
    var prevs := l.prevs[s - 1 := 0];
    Links(l.heads[b := s],
          if l.counts[b] != SATURATED then l.counts[b := l.counts[b] + 1] else l.counts,
          if head != 0 then prevs[head - 1 := s] else prevs,
          l.nexts[s - 1 := head])
  }

  function CountDown(counts: seq<nat>, b: nat): seq<nat>
    requires b < |counts|
  {
    if counts[b] != SATURATED then counts[b := (counts[b] + 0xFF) % 0x100] else counts
  }

  /** Unlinking slot s from bucket b. Repaired: the successor is read from hash_next, the predecessor's
      hash_next is relinked and the slot's own hash_next is cleared. */
  function Unlink(l: Links, b: nat, s: nat): Links
    requires Shape(l) && b < BUCKET_CNT && ValidSlot(s)
  {
    var prev, next := l.prevs[s - 1], l.nexts[s - 1];
    var prevs, nexts := l.prevs[s - 1 := 0], l.nexts[s - 1 := 0];
    Links(if prev == 0 then l.heads[b := next] else l.heads,
          CountDown(l.counts, b),
          if next != 0 then prevs[next - 1 := prev] else prevs,
          if prev != 0 then nexts[prev - 1 := next] else nexts)
  }

  /** The same operation as the source has it: both neighbours are read from hash_prev, hash_prev is
      cleared twice, and the predecessor's hash_prev is written. */
  function UnlinkAsWritten(l: Links, b: nat, s: nat): Links
    requires Shape(l) && b < BUCKET_CNT && ValidSlot(s)
  {
    var prev, next := l.prevs[s - 1], l.prevs[s - 1];
    var prevs := l.prevs[s - 1 := 0];
    var prevs1 := if prev != 0 then prevs[prev - 1 := next] else prevs;
    Links(if prev == 0 then l.heads[b := next] else l.heads,
          CountDown(l.counts, b),
          if next != 0 then prevs1[next - 1 := prev] else prevs1,
          l.nexts)
  }

  function Without(c: seq<nat>, i: nat): (r: seq<nat>)
    requires i < |c|
    ensures |r| == |c| - 1
    ensures forall j :: 0 <= j < |r| ==> r[j] == if j < i then c[j] else c[j + 1]
  {
    c[..i] + c[i + 1..]
  }

  // ---------- What they keep ----------

  lemma PushHere(l: Links, b: nat, c: seq<nat>, s: nat)
    requires Shape(l) && b < BUCKET_CNT && ChainAt(l, b, c) && NoDup(c) && ValidSlot(s) && s !in c
    ensures Shape(Push(l, b, s)) && ChainAt(Push(l, b, s), b, [s] + c)
  {
    var l', c' := Push(l, b, s), [s] + c;
    forall i: nat | i < |c'| ensures NodeAt(l', c', i) {
      if i > 0 {
        assert NodeAt(l, c, i - 1) && c'[i] == c[i - 1] != s;
        assert i > 1 ==> c[i - 1] != c[0];
      }
    }
  }

  lemma PushElsewhere(l: Links, b: nat, c: seq<nat>, s: nat, b': nat, d: seq<nat>)
    requires Shape(l) && b < BUCKET_CNT && b' < BUCKET_CNT && b != b' && ValidSlot(s)
    requires ChainAt(l, b, c) && ChainAt(l, b', d) && Disjoint(c, d) && s !in d
    ensures Shape(Push(l, b, s)) && ChainAt(Push(l, b, s), b', d)
  {
    var l' := Push(l, b, s);
    assert c != [] ==> c[0] in c;
    forall i: nat | i < |d| ensures NodeAt(l', d, i) {
      assert NodeAt(l, d, i) && d[i] in d;
    }
  }

  lemma PushKeeps(l: Links, chains: seq<seq<nat>>, b: nat, s: nat)
    requires LinksOk(l, chains) && b < BUCKET_CNT && ValidSlot(s) && !Chained(chains, s)
    ensures LinksOk(Push(l, b, s), chains[b := [s] + chains[b]])
  {
    var l', c := Push(l, b, s), chains[b];
    var chains' := chains[b := [s] + c];
    forall b' | 0 <= b' < BUCKET_CNT ensures Shape(l') && ChainAt(l', b', chains'[b']) {
      if b' == b {
        PushHere(l, b, c, s);
      } else {
        PushElsewhere(l, b, c, s, b', chains[b']);
      }
    }
  }

  lemma UnlinkNode(l: Links, b: nat, c: seq<nat>, i: nat, j: nat)
    requires Shape(l) && b < BUCKET_CNT && NoDup(c) && i < |c| && j < |c| - 1
    requires NodeAt(l, c, i) && NodeAt(l, c, if j < i then j else j + 1)
    requires Shape(Unlink(l, b, c[i]))
    ensures NodeAt(Unlink(l, b, c[i]), Without(c, i), j)
  {
    var k := if j < i then j else j + 1;
    assert c[k] != c[i];
    assert i > 0 && k != i - 1 ==> c[k] != c[i - 1];
    assert i + 1 < |c| && k != i + 1 ==> c[k] != c[i + 1];
  }

  lemma UnlinkHere(l: Links, b: nat, c: seq<nat>, i: nat)
    requires Shape(l) && b < BUCKET_CNT && ChainAt(l, b, c) && NoDup(c) && i < |c|
    requires ValidSlot(c[i])
    ensures Shape(Unlink(l, b, c[i])) && ChainAt(Unlink(l, b, c[i]), b, Without(c, i))
  {
    var l', r := Unlink(l, b, c[i]), Without(c, i);
    hide NoDup;
    assert NodeAt(l, c, i);
    assert i > 0 ==> NodeAt(l, c, i - 1);
    assert i + 1 < |c| ==> NodeAt(l, c, i + 1);
    assert l'.heads[b] == At(r, 0);
    forall j: nat | j < |r| ensures NodeAt(l', r, j) {
      UnlinkNode(l, b, c, i, j);
    }
  }

  lemma UnlinkElsewhere(l: Links, b: nat, c: seq<nat>, i: nat, b': nat, d: seq<nat>)
    requires Shape(l) && b < BUCKET_CNT && b' < BUCKET_CNT && b != b' && i < |c| && ValidSlot(c[i])
    requires ChainAt(l, b, c) && ChainAt(l, b', d) && Disjoint(c, d)
    ensures Shape(Unlink(l, b, c[i])) && ChainAt(Unlink(l, b, c[i]), b', d)
  {
    var l' := Unlink(l, b, c[i]);
    assert NodeAt(l, c, i);
    assert i > 0 ==> c[i - 1] in c;
    assert i + 1 < |c| ==> c[i + 1] in c;
    forall j: nat | j < |d| ensures NodeAt(l', d, j) {
      assert NodeAt(l, d, j) && d[j] in d;
    }
  }

  lemma UnlinkKeeps(l: Links, chains: seq<seq<nat>>, b: nat, i: nat)
    requires LinksOk(l, chains) && b < BUCKET_CNT && i < |chains[b]| && ValidSlot(chains[b][i])
    ensures LinksOk(Unlink(l, b, chains[b][i]), chains[b := Without(chains[b], i)])
    ensures !Chained(chains[b := Without(chains[b], i)], chains[b][i])
  {
    var c, s := chains[b], chains[b][i];
    assert NodeAt(l, c, i);
    var l', chains' := Unlink(l, b, s), chains[b := Without(c, i)];
    forall b' | 0 <= b' < BUCKET_CNT ensures Shape(l') && ChainAt(l', b', chains'[b']) {
      if b' == b {
        UnlinkHere(l, b, c, i);
      } else {
        UnlinkElsewhere(l, b, c, i, b', chains[b']);
      }
    }
    Unchained(chains, b, i);
  }

  /** The bucket's count follows its chain up to 255 and stays there, and no other count changes. The links of
      a slot that has left its chain are 0. */
  lemma CountsFollow(l: Links, chains: seq<seq<nat>>, b: nat, s: nat)
    requires LinksOk(l, chains) && b < BUCKET_CNT && ValidSlot(s)
    ensures s !in chains[b] ==> Push(l, b, s).counts == l.counts[b := if l.counts[b] < 255 then l.counts[b] + 1 else 255]
    ensures s in chains[b] ==>
      var l' := Unlink(l, b, s);
      l'.counts == l.counts[b := if l.counts[b] < 255 then l.counts[b] - 1 else 255]
      && l'.prevs[s - 1] == 0 && l'.nexts[s - 1] == 0
  {
    var c := chains[b];
    assert ChainAt(l, b, c);
    if s in c {
      var i :| 0 <= i < |c| && c[i] == s;
      assert NodeAt(l, c, i);
      assert i > 0 ==> c[i - 1] != s;
      assert i + 1 < |c| ==> c[i + 1] != s;
    }
  }

  lemma Unchained(chains: seq<seq<nat>>, b: nat, i: nat)
    requires Apart(chains) && b < |chains| && i < |chains[b]|
    ensures !Chained(chains[b := Without(chains[b], i)], chains[b][i])
  {
    assert chains[b][i] in chains[b];
  }

  lemma UnlinkAloneAsWritten(l: Links, b: nat, s: nat)
    requires Shape(l) && b < BUCKET_CNT && ValidSlot(s) && l.prevs[s - 1] == 0 && l.nexts[s - 1] == 0
    ensures UnlinkAsWritten(l, b, s) == Unlink(l, b, s)
  {
  }

  /** The operation as written unlinks a slot exactly when the slot is alone in its bucket: with both
      of its links 0 before the call. Otherwise the links no longer hold the remaining chain. */
  lemma AsWrittenUnlinksIffAlone(l: Links, chains: seq<seq<nat>>, b: nat, i: nat)
    requires LinksOk(l, chains) && b < BUCKET_CNT && i < |chains[b]| && ValidSlot(chains[b][i])
    ensures var s := chains[b][i];
      LinksOk(UnlinkAsWritten(l, b, s), chains[b := Without(chains[b], i)])
      <==> l.prevs[s - 1] == 0 && l.nexts[s - 1] == 0
  {
    var c, s := chains[b], chains[b][i];
    var l', chains' := UnlinkAsWritten(l, b, s), chains[b := Without(c, i)];
    var r := Without(c, i);
    assert ChainAt(l, b, c);
    assert NodeAt(l, c, i);
    assert i > 0 ==> NodeAt(l, c, i - 1);
    assert i + 1 < |c| ==> NodeAt(l, c, i + 1);
    if |c| == 1 {
      UnlinkAloneAsWritten(l, b, s);
      UnlinkKeeps(l, chains, b, i);
    } else {
      assert Shape(l') && chains'[b] == r;
      if i == 0 {
        assert l'.heads[b] != At(r, 0);
      } else {
        assert l'.nexts[c[i - 1] - 1] == s != At(r, i);
        assert !NodeAt(l', r, i - 1);
      }
      assert !ChainAt(l', b, r);
    }
  }

  // ---------- The routines ----------

  class HashTable {
    const heads: array<nat>
    const counts: array<nat>
    const prevs: array<nat>
    const nexts: array<nat>

    ghost predicate Distinct()
    {
      && heads != counts && heads != prevs && heads != nexts
      && counts != prevs && counts != nexts && prevs != nexts
    }

    ghost function View(): Links
      reads heads, counts, prevs, nexts
    {
      Links(heads[..], counts[..], prevs[..], nexts[..])
    }

    constructor ()
      ensures Distinct() && fresh(heads) && fresh(counts) && fresh(prevs) && fresh(nexts)
      ensures LinksOk(View(), NoChains())
    {
      heads := new nat[BUCKET_CNT](_ => 0);
      counts := new nat[BUCKET_CNT](_ => 0);
      prevs := new nat[MAX_SLOTS](_ => 0);
      nexts := new nat[MAX_SLOTS](_ => 0);
    }

    /** Walks bucket b for the slot whose key is `key`: that slot, or 0 when the chain has none. */
    method Find<K(==)>(b: nat, keys: array<K>, key: K, ghost chains: seq<seq<nat>>) returns (slot: nat)
      requires LinksOk(View(), chains) && b < BUCKET_CNT && keys.Length == MAX_SLOTS
      ensures slot == 0 ==> forall s :: s in chains[b] ==> ValidSlot(s) && keys[s - 1] != key
      ensures slot != 0 ==> slot in chains[b] && ValidSlot(slot) && keys[slot - 1] == key
    {
      ghost var c := chains[b];
      assert ChainAt(View(), b, c);
      if counts[b] == 0 {
        return 0;
      }
      var next := heads[b];
      ghost var i := 0;
      assert c != [] ==> NodeAt(View(), c, 0);
      while next != 0
        invariant 0 <= i <= |c| && next == At(c, i)
        invariant i < |c| ==> ValidSlot(c[i])
        invariant forall j :: 0 <= j < i ==> ValidSlot(c[j]) && keys[c[j] - 1] != key
        decreases |c| - i
      {
        assert NodeAt(View(), c, i);
        assert i + 1 < |c| ==> NodeAt(View(), c, i + 1);
        if keys[next - 1] == key {
          return next;
        }
        next := nexts[next - 1];
        i := i + 1;
      }
      slot := 0;
    }

    method Insert(b: nat, s: nat)
      requires Distinct() && Shape(View()) && b < BUCKET_CNT && ValidSlot(s)
      modifies heads, counts, prevs, nexts
      ensures View() == Push(old(View()), b, s)
    {
      nexts[s - 1] := heads[b];
      prevs[s - 1] := 0;
      if heads[b] != 0 {
        prevs[heads[b] - 1] := s;
      }
      heads[b] := s;
      if counts[b] != SATURATED {
        counts[b] := counts[b] + 1;
      }
    }

    method Free(b: nat, s: nat)
      requires Distinct() && Shape(View()) && b < BUCKET_CNT && ValidSlot(s)
      modifies heads, counts, prevs, nexts
      ensures View() == Unlink(old(View()), b, s)
    {
      var prev, next := prevs[s - 1], nexts[s - 1];  // repaired: the source reads hash_prev for both
      prevs[s - 1] := 0;
      nexts[s - 1] := 0;  // repaired: the source clears hash_prev again
      if prev == 0 {
        heads[b] := next;
      } else {
        nexts[prev - 1] := next;  // repaired: the source writes the predecessor's hash_prev
      }
      if next != 0 {
        prevs[next - 1] := prev;
      }
      if counts[b] != SATURATED {
        counts[b] := (counts[b] + 0xFF) % 0x100;
      }
    }

    method FreeAsWritten(b: nat, s: nat)
      requires Distinct() && Shape(View()) && b < BUCKET_CNT && ValidSlot(s)
      modifies heads, counts, prevs, nexts
      ensures View() == UnlinkAsWritten(old(View()), b, s)
    {
      var prev, next := prevs[s - 1], prevs[s - 1];
      prevs[s - 1] := 0;
      prevs[s - 1] := 0;
      if prev == 0 {
        heads[b] := next;
      } else {
        prevs[prev - 1] := next;
      }
      if next != 0 {
        prevs[next - 1] := prev;
      }
      if counts[b] != SATURATED {
        counts[b] := (counts[b] + 0xFF) % 0x100;
      }
    }
  }
}
