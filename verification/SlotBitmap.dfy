/** The slot allocator: one bit per slot in 64-bit words; slot ids start at 1. */
module SlotBitmap {
  import opened Words

  const WORD_BITS: nat := 64
  const WORD_LIMIT: nat := 0x1_0000_0000_0000_0000
  const BITMAP_CNT: nat := 32
  const MAX_SLOTS: nat := WORD_BITS * BITMAP_CNT

  predicate ValidSlot(id: int) {
    1 <= id <= MAX_SLOTS
  }

  ghost predicate ValidWords(words: seq<nat>) {
    |words| == BITMAP_CNT && forall i :: 0 <= i < |words| ==> words[i] < WORD_LIMIT
  }

  predicate InUse(words: seq<nat>, id: nat)
    requires |words| == BITMAP_CNT && ValidSlot(id)
  {
    Bit(words[(id - 1) / WORD_BITS], (id - 1) % WORD_BITS)
  }

  lemma WordLimit()
    ensures Power(WORD_BITS) == WORD_LIMIT
  {
    assert Power(32) == 0x1_0000_0000 by { PowerWord(); }
    PowerAdds(32, 32);
  }

  lemma SlotOf(words: seq<nat>, index: nat, inner: nat)
    requires |words| == BITMAP_CNT && index < BITMAP_CNT && inner < WORD_BITS
    ensures var id := index * WORD_BITS + inner + 1;
      ValidSlot(id) && (InUse(words, id) <==> Bit(words[index], inner))
  {
    var id := index * WORD_BITS + inner + 1;
    assert (id - 1) / WORD_BITS == index && (id - 1) % WORD_BITS == inner;
  }

  lemma FullWord(words: seq<nat>, index: nat)
    requires |words| == BITMAP_CNT && index < BITMAP_CNT && words[index] == WORD_LIMIT - 1
    ensures forall s :: index * WORD_BITS < s <= (index + 1) * WORD_BITS ==> InUse(words, s)
  {
    forall s | index * WORD_BITS < s <= (index + 1) * WORD_BITS ensures InUse(words, s) {
      var inner := s - 1 - index * WORD_BITS;
      SlotOf(words, index, inner);
      WordLimit();
      AllOnesBit(WORD_BITS, inner);
    }
  }

  ghost function UsedIn(words: seq<nat>): set<nat>
    requires |words| == BITMAP_CNT
  {
    set id: nat | 1 <= id <= MAX_SLOTS && InUse(words, id)
  }

  lemma SetBitInUse(words: seq<nat>, id: nat, words': seq<nat>)
    requires ValidWords(words) && ValidSlot(id)
    requires var index := (id - 1) / WORD_BITS;
      words' == words[index := SetBit(words[index], (id - 1) % WORD_BITS)]
    ensures ValidWords(words') && UsedIn(words') == UsedIn(words) + {id}
  {
    var index, inner := (id - 1) / WORD_BITS, (id - 1) % WORD_BITS;
    WordLimit();
    SetClearBounded(words[index], inner, WORD_BITS);
    forall s | ValidSlot(s) ensures InUse(words', s) <==> s == id || InUse(words, s) {
      SetBitBits(words[index], inner, (s - 1) % WORD_BITS);
    }
  }

  lemma ClearBitInUse(words: seq<nat>, id: nat, words': seq<nat>)
    requires ValidWords(words) && ValidSlot(id)
    requires var index := (id - 1) / WORD_BITS;
      words' == words[index := ClearBit(words[index], (id - 1) % WORD_BITS)]
    ensures ValidWords(words') && UsedIn(words') == UsedIn(words) - {id}
  {
    var index, inner := (id - 1) / WORD_BITS, (id - 1) % WORD_BITS;
    WordLimit();
    SetClearBounded(words[index], inner, WORD_BITS);
    forall s | ValidSlot(s) ensures InUse(words', s) <==> s != id && InUse(words, s) {
      ClearBitBits(words[index], inner, (s - 1) % WORD_BITS);
    }
  }

  class Bitmap {
    const words: array<nat>

    ghost predicate Valid()
      reads words
    {
      ValidWords(words[..])
    }

    /** The slots marked used. */
    ghost function Used(): (used: set<nat>)
      requires Valid()
      reads words
      ensures forall s :: s in used ==> ValidSlot(s)
    {
      UsedIn(words[..])
    }

    constructor ()
      ensures fresh(words) && Valid() && Used() == {}
    {
      words := new nat[BITMAP_CNT](_ => 0);
      new;
      forall k: nat ensures !Bit(0, k) { ZeroBits(k); }
    }

    /** The lowest free slot, or 0 when every slot is taken. */
    method FirstUnused() returns (id: nat)
      requires Valid()
      ensures id == 0 ==> forall s :: ValidSlot(s) ==> s in Used()
      ensures id != 0 ==> ValidSlot(id) && id !in Used() && forall s :: 1 <= s < id ==> s in Used()
    {
      var index := 0;
      while index < BITMAP_CNT && words[index] == WORD_LIMIT - 1
        invariant 0 <= index <= BITMAP_CNT
        invariant forall s :: 1 <= s <= index * WORD_BITS ==> InUse(words[..], s)
      {
        FullWord(words[..], index);
        index := index + 1;
      }
      if index == BITMAP_CNT {
        return 0;
      }
      WordLimit();
      AllOnes(words[index], WORD_BITS);
      ghost var free :| 0 <= free < WORD_BITS && !Bit(words[index], free);
      var temp, inner := words[index], 0;
      assert Bit(temp, 0) == (temp % 2 == 1);
      hide InUse;
      while temp % 2 == 1
        invariant inner <= free && temp == Shifted(words[index], inner)
        invariant (temp % 2 == 1) == Bit(words[index], inner)
        invariant forall s :: 1 <= s <= index * WORD_BITS + inner ==> InUse(words[..], s)
        decreases free - inner
      {
        SlotOf(words[..], index, inner);
        ShiftedBit(words[index], inner);
        temp := temp / 2;
        inner := inner + 1;
        ShiftedBit(words[index], inner);
      }
      SlotOf(words[..], index, inner);
      id := index * WORD_BITS + inner + 1;
    }

    method SetUsed(id: nat)
      requires Valid() && ValidSlot(id)
      modifies words
      ensures Valid() && Used() == old(Used()) + {id}
    {
      var index, inner := (id - 1) / WORD_BITS, (id - 1) % WORD_BITS;
      words[index] := SetBit(words[index], inner);
      SetBitInUse(old(words[..]), id, words[..]);
    }

    method UnsetUsed(id: nat)
      requires Valid() && ValidSlot(id)
      modifies words
      ensures Valid() && Used() == old(Used()) - {id}
    {
      var index, inner := (id - 1) / WORD_BITS, (id - 1) % WORD_BITS;
      words[index] := ClearBit(words[index], inner);
      ClearBitInUse(old(words[..]), id, words[..]);
    }
  }

  lemma {:induction false} ZeroBits(k: nat)
    ensures !Bit(0, k)
  {
    if k > 0 {
      ZeroBits(k - 1);
    }
  }
}
