/** Laying the registered regions out in the shared segment: consecutive offsets behind the header, the
    bounds of the configuration part, the size accounts, and binding callbacks by name. */
module ShmLayout {
  import opened Words
  import opened Options
  import opened Registrations

  /** Sizes of the segment's header and of one map entry. */
  datatype Sizes = Sizes(header: nat, mapEntry: nat)

  datatype Region = Region(name: Name, offset: Word, len: Word)

  function TotalLen(s: seq<Entry>): nat {
    if s == [] then 0 else TotalLen(s[..|s| - 1]) + s[|s| - 1].len
  }

  /** Header, one map entry for each region, and a padding of one more. */
  function Base(z: Sizes, n: nat): nat {
    z.header + n * z.mapEntry + z.mapEntry
  }

  /** What the layout needs. */
  function SegmentLen(z: Sizes, s: seq<Entry>): nat {
    z.header + z.mapEntry * |s| + z.mapEntry + TotalLen(s)
  }

  function OffsetOf(z: Sizes, s: seq<Entry>, i: nat): nat
    requires i <= |s|
  {
    Base(z, |s|) + TotalLen(s[..i])
  }

  // ---------- The regions tile the segment ----------

  lemma OffsetStep(z: Sizes, s: seq<Entry>, i: nat)
    requires i < |s|
    ensures OffsetOf(z, s, i + 1) == OffsetOf(z, s, i) + s[i].len
  {
    assert s[..i + 1][..i] == s[..i];
  }

  lemma {:induction false} OffsetsGrow(z: Sizes, s: seq<Entry>, i: nat, j: nat)
    requires i <= j <= |s|
    ensures OffsetOf(z, s, i) <= OffsetOf(z, s, j)
    decreases j
  {
    if i < j {
      OffsetsGrow(z, s, i, j - 1);
      OffsetStep(z, s, j - 1);
    }
  }

  lemma OffsetEnds(z: Sizes, s: seq<Entry>)
    ensures OffsetOf(z, s, 0) == Base(z, |s|) && OffsetOf(z, s, |s|) == SegmentLen(z, s)
  {
    assert s[..|s|] == s && s[..0] == [];
    assert |s| * z.mapEntry == z.mapEntry * |s|;
  }

  /** The regions start behind the header, the map and one spare entry, each begins where the one before it
      ends, and the last ends the segment; the length that is asked for has the regions' total in 32 bits. */
  lemma RegionsInOrder(z: Sizes, s: seq<Entry>)
    ensures OffsetOf(z, s, 0) == z.header + (|s| + 1) * z.mapEntry
    ensures forall i :: 0 <= i < |s| ==> OffsetOf(z, s, i + 1) == OffsetOf(z, s, i) + s[i].len
    ensures OffsetOf(z, s, |s|) == SegmentLen(z, s)
    ensures CreatedLen(z, s) == OffsetOf(z, s, 0) + (OffsetOf(z, s, |s|) - OffsetOf(z, s, 0)) % 0x1_0000_0000
  {
    OffsetEnds(z, s);
    forall i | 0 <= i < |s| ensures OffsetOf(z, s, i + 1) == OffsetOf(z, s, i) + s[i].len {
      OffsetStep(z, s, i);
    }
  }

  lemma {:induction false} ByteInSome(z: Sizes, s: seq<Entry>, n: nat, b: nat)
    requires n <= |s| && Base(z, |s|) <= b < OffsetOf(z, s, n)
    ensures exists i :: 0 <= i < n && OffsetOf(z, s, i) <= b < OffsetOf(z, s, i) + s[i].len
    decreases n
  {
    OffsetEnds(z, s);
    OffsetStep(z, s, n - 1);
    if b < OffsetOf(z, s, n - 1) {
      ByteInSome(z, s, n - 1, b);
    } else {
      assert OffsetOf(z, s, n - 1) <= b;
    }
  }

  /** Every byte behind the header belongs to exactly one region, and no region has a byte elsewhere:
      the regions are disjoint, leave no gap and fill the segment. */
  lemma RegionsTile(z: Sizes, s: seq<Entry>, b: nat)
    ensures Base(z, |s|) <= b < SegmentLen(z, s) <==>
            exists i :: 0 <= i < |s| && OffsetOf(z, s, i) <= b < OffsetOf(z, s, i) + s[i].len
    ensures forall i, j :: 0 <= i < j < |s| && OffsetOf(z, s, i) <= b < OffsetOf(z, s, i) + s[i].len
              ==> !(OffsetOf(z, s, j) <= b < OffsetOf(z, s, j) + s[j].len)
  {
    OffsetEnds(z, s);
    if Base(z, |s|) <= b < SegmentLen(z, s) {
      ByteInSome(z, s, |s|, b);
    }
    hide OffsetOf;
    forall i | 0 <= i < |s|
      ensures OffsetOf(z, s, 0) <= OffsetOf(z, s, i) && OffsetOf(z, s, i) + s[i].len <= OffsetOf(z, s, |s|)
    {
      OffsetStep(z, s, i);
      OffsetsGrow(z, s, 0, i);
      OffsetsGrow(z, s, i + 1, |s|);
    }
    forall i, j | 0 <= i < j < |s| ensures OffsetOf(z, s, i) + s[i].len <= OffsetOf(z, s, j) {
      OffsetStep(z, s, i);
      OffsetsGrow(z, s, i + 1, j);
    }
  }

  // ---------- Where the configuration ends ----------

  /** Configurations come first. */
  ghost predicate ConfigsFirst(s: seq<Entry>, c: nat) {
    c <= |s| && forall i :: 0 <= i < |s| ==> (s[i].memType == CONFIG <==> i < c)
  }

  /** The recorded end of the configuration after the first i regions: set at a statistics region, but
      only while it still equals the recorded start. */
  function ConfigEnd(z: Sizes, s: seq<Entry>, i: nat): int
    requires i <= |s|
  {
    if i == 0 then Base(z, |s|)
    else
      var end := ConfigEnd(z, s, i - 1);
      if s[i - 1].memType != CONFIG && end == Base(z, |s|) then OffsetOf(z, s, i - 1) - 1 else end
  }

  lemma {:induction false} EndBeforeStats(z: Sizes, s: seq<Entry>, c: nat, i: nat)
    requires ConfigsFirst(s, c) && i <= c
    ensures ConfigEnd(z, s, i) == Base(z, |s|)
    decreases i
  {
    if i > 0 {
      EndBeforeStats(z, s, c, i - 1);
    }
  }

  /** The end once set to something else stays. */
  lemma {:induction false} EndStays(z: Sizes, s: seq<Entry>, i: nat, j: nat)
    requires i <= j <= |s| && ConfigEnd(z, s, i) != Base(z, |s|)
    ensures ConfigEnd(z, s, j) == ConfigEnd(z, s, i)
    decreases j
  {
    if i < j {
      EndStays(z, s, i, j - 1);
    }
  }

  /** With one configuration byte, the end is right as long as the statistics so far add nothing before
      the last of them. */
  lemma {:induction false} EndAfterOneByte(z: Sizes, s: seq<Entry>, c: nat, j: nat)
    requires ConfigsFirst(s, c) && TotalLen(s[..c]) == 1 && c < j <= |s|
    ensures ConfigEnd(z, s, j) == Base(z, |s|) <==> TotalLen(s[..j - 1]) == 1
    decreases j
  {
    var base := Base(z, |s|);
    if j == c + 1 {
      EndBeforeStats(z, s, c, c);
    } else {
      EndAfterOneByte(z, s, c, j - 1);
      OffsetsGrow(z, s, c, j - 2);
      OffsetStep(z, s, j - 2);
    }
  }

  /** When the recorded end is right: there is a statistics region and, if the configuration is a single
      byte, no statistics region but the last holds a byte; or there is none and the configuration is a
      single byte. */
  ghost predicate RightEnd(s: seq<Entry>, c: nat)
    requires c <= |s|
  {
    if c == |s| then TotalLen(s) == 1 else TotalLen(s[..c]) != 1 || TotalLen(s[..|s| - 1]) == 1
  }

  /** The byte after the recorded end is the first statistics byte exactly then. */
  lemma ConfigEndIff(z: Sizes, s: seq<Entry>, c: nat)
    requires ConfigsFirst(s, c)
    ensures ConfigEnd(z, s, |s|) + 1 == OffsetOf(z, s, c) <==> RightEnd(s, c)
  {
    var n := |s|;
    EndBeforeStats(z, s, c, c);
    assert s[..n] == s;
    if c < n {
      if TotalLen(s[..c]) == 1 {
        EndAfterOneByte(z, s, c, n);
      } else {
        assert ConfigEnd(z, s, c + 1) == OffsetOf(z, s, c) - 1 != Base(z, n);
        EndStays(z, s, c + 1, n);
      }
    }
  }

  // ---------- Machine widths ----------

  /** MAIN_SHM_LEN: the regions' total is a 32-bit sum. */
  function CreatedLen(z: Sizes, s: seq<Entry>): nat {
    z.header + z.mapEntry * |s| + z.mapEntry + TotalLen(s) % WORD
  }

  /** The whole layout is within 32-bit offsets. */
  ghost predicate Fits(z: Sizes, s: seq<Entry>) {
    SegmentLen(z, s) < WORD
  }

  /** A 32-bit sum of the allocation runs past the segment's length. */
  ghost predicate OverrunsAt(z: Sizes, s: seq<Entry>, i: nat)
    requires i <= |s|
  {
    Low32(OffsetOf(z, s, i)) > CreatedLen(z, s)
  }

  ghost predicate Overruns(z: Sizes, s: seq<Entry>) {
    exists i :: 0 < i <= |s| && OverrunsAt(z, s, i)
  }

  lemma Small(x: nat)
    requires x < WORD
    ensures x % WORD == x
  {
  }

  /** The segment has the length the layout needs, and no offset wraps, exactly when the layout fits. */
  lemma FitsIff(z: Sizes, s: seq<Entry>)
    ensures Fits(z, s) <==> CreatedLen(z, s) == SegmentLen(z, s)
                            && forall i :: 0 <= i <= |s| ==> Low32(OffsetOf(z, s, i)) == OffsetOf(z, s, i)
  {
    OffsetEnds(z, s);
    if Fits(z, s) {
      Small(TotalLen(s));
      forall i | 0 <= i <= |s| ensures Low32(OffsetOf(z, s, i)) == OffsetOf(z, s, i) {
        OffsetsGrow(z, s, i, |s|);
        Small(OffsetOf(z, s, i));
      }
    } else {
      assert Low32(OffsetOf(z, s, |s|)) < WORD;
    }
  }

  /** A layout that fits is never refused. */
  lemma FitsNeverOverruns(z: Sizes, s: seq<Entry>)
    requires Fits(z, s)
    ensures !Overruns(z, s)
  {
    FitsIff(z, s);
    OffsetEnds(z, s);
    forall i | 0 < i <= |s| ensures !OverrunsAt(z, s, i) {
      OffsetsGrow(z, s, i, |s|);
    }
  }

  /** Two regions of 2^31 bytes: their 32-bit total is 0, and the allocation is refused. */
  lemma OverrunsWhenWrapped()
    ensures exists s :: Overruns(Sizes(1, 1), s)
  {
    var big := Entry([], STAT, 0x8000_0000);
    var s := [big, big];
    assert s[..1] == [big] && [big][..0] == [];
    assert TotalLen([]) == 0 && TotalLen([big]) == 0x8000_0000;
    assert TotalLen(s) == TotalLen(s[..1]) + 0x8000_0000 == WORD;
    assert CreatedLen(Sizes(1, 1), s) == 4 && OffsetOf(Sizes(1, 1), s, 1) == 4 + 0x8000_0000;
    assert OverrunsAt(Sizes(1, 1), s, 1);
    assert Overruns(Sizes(1, 1), s);
  }

  // ---------- Allocation ----------

  datatype Status = NotReady | Finished

  /** The header of the segment. */
  class ShmMain {
    var status: Status
    var usedMem: int
    var freeMem: int
    var configStart: Word
    var configEnd: Word
    var maps: seq<Region>

    constructor ()
      ensures status == NotReady && maps == []
    {
      status, usedMem, freeMem, configStart, configEnd, maps := NotReady, 0, 0, 0, 0, [];
    }

    /** init_shm_main: the accounts add up to the segment, as far as an int can tell. */
    method Init(z: Sizes, s: seq<Entry>)
      modifies this
      ensures status == NotReady && maps == [] && Accounted(usedMem, freeMem, CreatedLen(z, s))
    {
      status := NotReady;
      usedMem := Int32(z.header);
      freeMem := Int32(CreatedLen(z, s) - z.header);
      maps := [];
      AccountsAddUp(usedMem, z.header, CreatedLen(z, s));
      hide Int32, CreatedLen;
    }

    /** check_shm_main: what the accounts miss of the segment; 0 exactly when they add up to it. */
    method Check(z: Sizes, s: seq<Entry>) returns (missing: int)
      ensures missing == 0 <==> Accounted(usedMem, freeMem, CreatedLen(z, s))
    {
      var sum := Int32(usedMem + freeMem);
      SameWord(CreatedLen(z, s), sum);
      hide CreatedLen;
      if CreatedLen(z, s) != sum {
        missing := Int32(CreatedLen(z, s) - sum);
      } else {
        missing := 0;
      }
    }

    /** The first loop of start_shm_map_malloc: names and lengths. */
    method RecordNames(s: seq<Entry>)
      requires maps == []
      modifies `maps
      ensures |maps| == |s| && forall j :: 0 <= j < |s| ==> maps[j] == Region(s[j].name, 0, s[j].len)
    {
      for i := 0 to |s|
        invariant |maps| == i && forall j :: 0 <= j < i ==> maps[j] == Region(s[j].name, 0, s[j].len)
      {
        maps := maps + [Region(s[i].name, 0, s[i].len)];
      }
    }

    /** The second loop: offsets. */
    method Allocate(z: Sizes, s: seq<Entry>) returns (code: int, callbacks: seq<nat>, offset: Word)
      requires Placed(maps, [], z, s, 0)
      modifies `maps, `configStart, `configEnd
      ensures code == if Overruns(z, s) then -2 else 0
      ensures code == 0 ==> offset == Low32(SegmentLen(z, s)) && Placed(maps, callbacks, z, s, |s|)
      ensures configStart == Low32(Base(z, |s|))
      ensures code == 0 && Fits(z, s) ==> configEnd == Low32(ConfigEnd(z, s, |s|))
    {
      hide Fits, OffsetOf, Base, Placed, CreatedLen, Low32, ConfigEnd, OverrunsAt;
      AllocationStarts(z, s);
      offset := Low32(z.header + |s| * z.mapEntry + z.mapEntry);
      configStart, configEnd, callbacks := offset, offset, [];
      for i := 0 to |s|
        invariant offset == Low32(OffsetOf(z, s, i)) && Placed(maps, callbacks, z, s, i)
        invariant forall k :: 0 < k <= i ==> !OverrunsAt(z, s, k)
        invariant configStart == Low32(Base(z, |s|))
        invariant Fits(z, s) ==> configEnd == Low32(ConfigEnd(z, s, i))
      {
        AllocationStep(z, s, i, offset, configStart, configEnd);
        PlacedNext(maps, callbacks, z, s, i, offset);
        if s[i].name != maps[i].name {
          return -1, callbacks, offset;
        }
        if s[i].len != maps[i].len {
          return -1, callbacks, offset;
        }
        if Low32(offset + maps[i].len) > CreatedLen(z, s) {
          assert OverrunsAt(z, s, i + 1);
          return -2, callbacks, offset;
        }
        if s[i].memType != CONFIG {
          if configEnd == configStart {
            configEnd := Low32(offset - 1);
          }
        }
        maps := maps[i := Region(maps[i].name, offset, maps[i].len)];
        callbacks := callbacks + [offset];
        offset := Low32(offset + s[i].len);
      }
      OffsetEnds(z, s);
      code := 0;
    }

    /** start_shm_map_malloc over the arranged registrations. It is refused exactly when a 32-bit sum
        runs past the segment, which cannot happen when the layout fits; then no memory is left over and
        each callback gets its own region. */
    method StartMalloc(z: Sizes, s: seq<Entry>) returns (code: int, callbacks: seq<nat>)
      requires maps == []
      modifies this
      ensures code == if Overruns(z, s) then -2 else 0
      ensures code != 0 ==> usedMem == old(usedMem) && freeMem == old(freeMem)
      ensures code == 0 ==> status == Finished && Accounted(usedMem, freeMem, CreatedLen(z, s))
      ensures Fits(z, s) ==> code == 0 && usedMem == Int32(SegmentLen(z, s)) && freeMem == 0
      ensures Fits(z, s) ==> configStart == Base(z, |s|) && configEnd == Low32(ConfigEnd(z, s, |s|))
      ensures Fits(z, s) ==> LaidOut(maps, z, s)
      ensures Fits(z, s) ==> |callbacks| == |s| && forall i :: 0 <= i < |s| ==> callbacks[i] == OffsetOf(z, s, i)
    {
      hide Fits, OffsetOf, Base, CreatedLen, SegmentLen, Overruns, Int32, Low32;
      RecordNames(s);
      assert Placed(maps, [], z, s, 0);
      var offset;
      code, callbacks, offset := Allocate(z, s);
      if code != 0 {
        WhenFits(z, s);
        return;
      }
      usedMem := Int32(offset);
      freeMem := Int32(CreatedLen(z, s) - usedMem);
      status := Finished;
      AccountsAddUp(usedMem, usedMem, CreatedLen(z, s));
      SameWord(CreatedLen(z, s), usedMem);
      WhenFits(z, s);
    }

    /** update_shm_map_map: binds each name to the first region that has it. */
    method UpdateMap(names: seq<Name>) returns (code: int, bound: seq<Option<nat>>)
      ensures code == if status == NotReady then -1 else 0
      ensures code == 0 ==> |bound| == |names| && forall r :: 0 <= r < |names| ==> bound[r] == Binding(maps, names[r])
    {
      bound := [];
      if status == NotReady {
        return -1, bound;
      }
      code := 0;
      for r := 0 to |names|
        invariant |bound| == r && forall q :: 0 <= q < r ==> bound[q] == Binding(maps, names[q])
      {
        var callback := None;
        for i := 0 to |maps|
          invariant callback == None && FirstNamed(maps, names[r]) >= i
        {
          if Compare(names[r], maps[i].name) == 0 {
            CompareEqual(names[r], maps[i].name);
            FirstNamedIs(maps, names[r], i);
            if maps[i].offset != 0 {
              callback := Some(maps[i].offset);
            }
            break;
          }
          CompareEqual(names[r], maps[i].name);
          FirstNamedSkips(maps, names[r], i);
        }
        bound := bound + [callback];
      }
    }
  }

  lemma AllocationStarts(z: Sizes, s: seq<Entry>)
    ensures Low32(z.header + |s| * z.mapEntry + z.mapEntry) == Low32(Base(z, |s|)) == Low32(OffsetOf(z, s, 0))
    ensures ConfigEnd(z, s, 0) == Base(z, |s|)
  {
    OffsetEnds(z, s);
  }

  /** One region: the next offset, whether it overruns, and the recorded end. */
  lemma AllocationStep(z: Sizes, s: seq<Entry>, i: nat, offset: Word, start: Word, end: Word)
    requires i < |s| && offset == Low32(OffsetOf(z, s, i)) && start == Low32(Base(z, |s|))
    requires Fits(z, s) ==> end == Low32(ConfigEnd(z, s, i))
    ensures Low32(offset + s[i].len) == Low32(OffsetOf(z, s, i + 1))
    ensures OverrunsAt(z, s, i + 1) <==> Low32(offset + s[i].len) > CreatedLen(z, s)
    ensures Fits(z, s) ==> Low32(ConfigEnd(z, s, i + 1)) ==
                           if s[i].memType != CONFIG && end == start then Low32(offset - 1) else end
  {
    OffsetStep(z, s, i);
    AddWrapped(OffsetOf(z, s, i), s[i].len);
    AddWrapped(OffsetOf(z, s, i), -1);
    if Fits(z, s) {
      EndWrapped(z, s, i);
    }
    hide Low32, OffsetOf, Base, CreatedLen, Fits;
  }

  /** The first i regions have their offsets, in 32 bits, and their callbacks. */
  ghost predicate Placed(maps: seq<Region>, callbacks: seq<nat>, z: Sizes, s: seq<Entry>, i: nat) {
    && |maps| == |s| && |callbacks| == i <= |s|
    && (forall j :: 0 <= j < i ==> callbacks[j] == Low32(OffsetOf(z, s, j)))
    && (forall j :: 0 <= j < |s| ==>
          maps[j] == Region(s[j].name, if j < i then Low32(OffsetOf(z, s, j)) else 0, s[j].len))
  }

  lemma PlacedNext(maps: seq<Region>, callbacks: seq<nat>, z: Sizes, s: seq<Entry>, i: nat, offset: Word)
    requires Placed(maps, callbacks, z, s, i) && i < |s| && offset == Low32(OffsetOf(z, s, i))
    ensures |maps| == |s| && maps[i].name == s[i].name && maps[i].len == s[i].len
    ensures Placed(maps[i := Region(maps[i].name, offset, maps[i].len)], callbacks + [offset], z, s, i + 1)
  {
  }

  /** Used and free memory add up to the length, counted in 32 bits, so that their int sum tells
      nothing else apart. */
  ghost predicate Accounted(used: int, free: int, len: nat) {
    (used + free) % WORD == len % WORD
  }

  lemma {:induction false} AddWords(x: int, k: int)
    ensures (x + k * WORD) % WORD == x % WORD
    decreases if k >= 0 then k else -k
  {
    if k > 0 {
      AddWords(x, k - 1);
      assert x + k * WORD == x + (k - 1) * WORD + WORD;
    } else if k < 0 {
      AddWords(x, k + 1);
      assert x + k * WORD == x + (k + 1) * WORD - WORD;
    }
  }

  lemma Int32Differs(x: int) returns (k: int)
    ensures Int32(x) == x + k * WORD
  {
    k := if x % WORD <= INT_MAX then -(x / WORD) else -(x / WORD) - 1;
  }

  /** The int difference of two numbers is 0 exactly when their low 32 bits agree. */
  lemma SameWord(x: int, y: int)
    ensures Int32(x - y) == 0 <==> x % WORD == y % WORD
  {
    var d := x % WORD - y % WORD;
    assert x - y == d + (x / WORD - y / WORD) * WORD;
    AddWords(d, x / WORD - y / WORD);
    assert d % WORD == 0 <==> d == 0;
  }

  /** Used memory and what an int keeps of the rest add up to the length. */
  lemma AccountsAddUp(used: int, taken: int, len: int)
    requires used == taken || used == Int32(taken)
    ensures (used + Int32(len - taken)) % WORD == len % WORD
  {
    var k := Int32Differs(taken);
    var m := Int32Differs(len - taken);
    AddWords(len, m);
    AddWords(len, k + m);
    assert taken + k * WORD + (len - taken + m * WORD) == len + (k + m) * WORD;
  }

  /** What a layout that fits has: no wrapped offset and the right length. */
  lemma WhenFits(z: Sizes, s: seq<Entry>)
    ensures Fits(z, s) ==> !Overruns(z, s) && CreatedLen(z, s) == SegmentLen(z, s) == Low32(SegmentLen(z, s))
    ensures Fits(z, s) ==> Low32(Base(z, |s|)) == Base(z, |s|)
    ensures Fits(z, s) ==> forall i :: 0 <= i <= |s| ==> Low32(OffsetOf(z, s, i)) == OffsetOf(z, s, i)
  {
    FitsIff(z, s);
    OffsetEnds(z, s);
    if Fits(z, s) {
      FitsNeverOverruns(z, s);
    }
  }

  lemma AddWrapped(x: int, y: int)
    ensures Low32(Low32(x) + y) == Low32(x + y)
  {
    assert x + y == x % WORD + y + x / WORD * WORD;
    AddWords(x % WORD + y, x / WORD);
  }

  /** The end is recorded in 32 bits; comparing it with the start there is comparing the two. */
  lemma EndWrapped(z: Sizes, s: seq<Entry>, i: nat)
    requires i < |s| && Fits(z, s)
    ensures Low32(ConfigEnd(z, s, i)) == Low32(Base(z, |s|)) <==> ConfigEnd(z, s, i) == Base(z, |s|)
  {
    EndBounds(z, s, i);
    OffsetEnds(z, s);
    OffsetsGrow(z, s, 0, |s|);
    OffsetsGrow(z, s, i, |s|);
    SameLow(ConfigEnd(z, s, i), Base(z, |s|));
  }

  lemma SameLow(x: int, y: int)
    requires -1 <= x - y < WORD - 1 && -1 <= x
    requires 0 <= y < WORD
    ensures Low32(x) == Low32(y) <==> x == y
  {
  }

  /** The recorded end is the start, or one less than the offset of some region up to there. */
  lemma {:induction false} EndBounds(z: Sizes, s: seq<Entry>, i: nat)
    requires i <= |s|
    ensures ConfigEnd(z, s, i) >= Base(z, |s|) - 1
    ensures ConfigEnd(z, s, i) == Base(z, |s|) || ConfigEnd(z, s, i) + 1 <= OffsetOf(z, s, i)
    decreases i
  {
    OffsetEnds(z, s);
    if i > 0 {
      EndBounds(z, s, i - 1);
      OffsetsGrow(z, s, 0, i - 1);
      OffsetsGrow(z, s, i - 1, i);
    }
  }

  ghost predicate LaidOut(maps: seq<Region>, z: Sizes, s: seq<Entry>) {
    |maps| == |s| && forall i :: 0 <= i < |s| ==>
      maps[i].name == s[i].name && maps[i].offset == OffsetOf(z, s, i) && maps[i].len == s[i].len
  }

  /** The position of the first region of a name, or the number of regions. */
  function FirstNamed(maps: seq<Region>, name: Name): (k: nat)
    ensures k <= |maps|
  {
    if maps == [] then 0 else if maps[0].name == name then 0 else 1 + FirstNamed(maps[1..], name)
  }

  function Binding(maps: seq<Region>, name: Name): Option<nat> {
    var k := FirstNamed(maps, name);
    if k < |maps| && maps[k].offset != 0 then Some(maps[k].offset) else None
  }

  lemma {:induction false} FirstNamedMeans(maps: seq<Region>, name: Name)
    ensures var k := FirstNamed(maps, name);
            (forall i :: 0 <= i < k ==> maps[i].name != name) && (k < |maps| ==> maps[k].name == name)
    decreases |maps|
  {
    if maps != [] && maps[0].name != name {
      FirstNamedMeans(maps[1..], name);
      assert forall i :: 0 < i < |maps| ==> maps[i] == maps[1..][i - 1];
    }
  }

  lemma FirstNamedIs(maps: seq<Region>, name: Name, i: nat)
    requires i < |maps| && maps[i].name == name && FirstNamed(maps, name) >= i
    ensures FirstNamed(maps, name) == i
  {
    FirstNamedMeans(maps, name);
  }

  lemma FirstNamedSkips(maps: seq<Region>, name: Name, i: nat)
    requires i < |maps| && maps[i].name != name && FirstNamed(maps, name) >= i
    ensures FirstNamed(maps, name) >= i + 1
  {
    FirstNamedMeans(maps, name);
  }

  /** Binding by name gives every registration its own region, in whatever list the names are looked
      up, and nothing to a name that is not registered. */
  lemma BindsOwnRegion(maps: seq<Region>, z: Sizes, s: seq<Entry>, name: Name)
    requires LaidOut(maps, z, s) && DistinctNames(s) && z.header > 0
    ensures forall i :: 0 <= i < |s| && s[i].name == name ==> Binding(maps, name) == Some(OffsetOf(z, s, i))
    ensures (forall i :: 0 <= i < |s| ==> s[i].name != name) ==> Binding(maps, name) == None
  {
    FirstNamedMeans(maps, name);
    var k := FirstNamed(maps, name);
    if k < |s| {
      assert maps[k].name == s[k].name == name;
    }
    forall i | 0 <= i < |s| && s[i].name == name ensures i == k {
      assert maps[i].name == name;
    }
  }

  // ---------- From the linked list to the layout ----------

  lemma {:induction false} TotalLenWithout(s: seq<Entry>, j: nat)
    requires j < |s|
    ensures TotalLen(s) == TotalLen(s[..j] + s[j + 1..]) + s[j].len
    decreases |s|
  {
    var n := |s| - 1;
    if j == n {
      assert s[..j] + s[j + 1..] == s[..n];
    } else {
      TotalLenWithout(s[..n], j);
      var r := s[..j] + s[j + 1..];
      assert r[..|r| - 1] == s[..n][..j] + s[..n][j + 1..] && r[|r| - 1] == s[n];
    }
  }

  /** The total length does not depend on the order of the list. */
  lemma {:induction false} TotalLenPermuted(a: seq<Registration>, b: seq<Registration>)
    requires multiset(a) == multiset(b)
    ensures TotalLen(Entries(a)) == TotalLen(Entries(b))
    decreases |a|
  {
    if a == [] {
      assert |multiset(b)| == 0;
    } else {
      var n := |a| - 1;
      assert a[n] in multiset(b);
      var j :| 0 <= j < |b| && b[j] == a[n];
      var r := b[..j] + b[j + 1..];
      WithoutOne(a, n);
      WithoutOne(b, j);
      assert a[..n] + a[n + 1..] == a[..n];
      TotalLenPermuted(a[..n], r);
      EntriesWithout(b, j);
      EntriesWithout(a, n);
    }
  }

  lemma WithoutOne<T>(s: seq<T>, j: nat)
    requires j < |s|
    ensures multiset(s[..j] + s[j + 1..]) == multiset(s) - multiset{s[j]}
  {
    assert s == s[..j] + [s[j]] + s[j + 1..];
  }

  lemma EntriesWithout(s: seq<Registration>, j: nat)
    requires j < |s|
    ensures TotalLen(Entries(s)) == TotalLen(Entries(s[..j] + s[j + 1..])) + s[j].entry.len
  {
    TotalLenWithout(Entries(s), j);
    assert Entries(s[..j] + s[j + 1..]) == Entries(s)[..j] + Entries(s)[j + 1..];
  }

  /** Each registration has one of the two types. */
  lemma {:induction false} TypesCover(s: seq<Registration>)
    requires TypesOk(s)
    ensures multiset(OfType(s, CONFIG)) + multiset(OfType(s, STAT)) == multiset(s)
    decreases |s|
  {
    if s != [] {
      var front, last := s[..|s| - 1], s[|s| - 1];
      TypesCover(front);
      TypeOfLast(s);
      hide OfType;
      assert s == front + [last];
      CoverStep(OfType(front, CONFIG), OfType(front, STAT), last);
    }
  }

  lemma TypeOfLast(s: seq<Registration>)
    requires TypesOk(s) && s != []
    ensures var front, last := s[..|s| - 1], s[|s| - 1];
            if last.entry.memType == CONFIG then
              OfType(s, CONFIG) == OfType(front, CONFIG) + [last] && OfType(s, STAT) == OfType(front, STAT)
            else
              OfType(s, CONFIG) == OfType(front, CONFIG) && OfType(s, STAT) == OfType(front, STAT) + [last]
  {
  }

  lemma CoverStep<T>(a: seq<T>, b: seq<T>, x: T)
    ensures multiset(a + [x]) + multiset(b) == multiset(a) + multiset(b) + multiset{x}
    ensures multiset(a) + multiset(b + [x]) == multiset(a) + multiset(b) + multiset{x}
  {
  }

  /** Arranging permutes the registrations and puts the configurations first. */
  lemma ArrangedOrder(s: seq<Registration>, sorted: seq<Registration>)
    requires TypesOk(s) && multiset(sorted) == multiset(OfType(s, CONFIG))
    ensures multiset(sorted + OfType(s, STAT)) == multiset(s)
    ensures ConfigsFirst(Entries(sorted + OfType(s, STAT)), |sorted|)
  {
    TypesCover(s);
    var stats, all := OfType(s, STAT), sorted + OfType(s, STAT);
    forall i | 0 <= i < |all| ensures all[i].entry.memType == CONFIG <==> i < |sorted| {
      if i < |sorted| {
        assert sorted[i] in multiset(sorted);
        OfTypeIn(s, CONFIG, sorted[i]);
      } else {
        OfTypeIn(s, STAT, stats[i - |sorted|]);
      }
    }
  }

  /** Walks a list. */
  method Collect(head: Registration?, ghost s: seq<Registration>) returns (entries: seq<Entry>)
    requires Linked(s) && head == First(s)
    ensures entries == Entries(s)
  {
    entries := [];
    var reg := head;
    ghost var k := 0;
    while reg != null
      invariant 0 <= k <= |s| && reg == (if k < |s| then s[k] else null) && entries == Entries(s[..k])
      decreases |s| - k
    {
      assert LinkAt(s, k);
      assert s[..k + 1] == s[..k] + [s[k]];
      entries := entries + [reg.entry];
      reg := reg.next;
      k := k + 1;
    }
    assert s[..k] == s;
  }

  /** Creating the segment, sized by the list as it was linked: arrange, allocate, check. The check
      never finds anything missing; a layout that fits is never refused and fills the segment. */
  method StartUp(main: ShmMain, z: Sizes, head: Registration?, ghost s: seq<Registration>)
    returns (code: int, missing: int, ghost sorted: seq<Registration>)
    requires Linked(s) && head == First(s) && TypesOk(s) && DistinctNames(Entries(s))
    modifies main, s
    ensures Increasing(Entries(sorted)) && multiset(sorted) == multiset(OfType(s, CONFIG))
    ensures |sorted + OfType(s, STAT)| == |s|
    ensures missing == 0 && code == if Overruns(z, Entries(sorted + OfType(s, STAT))) then -2 else 0
    ensures Fits(z, Entries(s)) ==>
              && code == 0 && main.usedMem == Int32(SegmentLen(z, Entries(s))) && main.freeMem == 0
              && main.configStart == Base(z, |s|)
              && main.configEnd == Low32(ConfigEnd(z, Entries(sorted + OfType(s, STAT)), |s|))
              && LaidOut(main.maps, z, Entries(sorted + OfType(s, STAT)))
  {
    var total := Collect(head, s);
    var newHead;
    newHead, sorted := Arrange(head, s);
    ghost var all := sorted + OfType(s, STAT);
    ArrangedOrder(s, sorted);
    SameLengths(z, all, s);
    hide Increasing, OfType, TotalLen, CreatedLen, SegmentLen, Overruns, LaidOut, Base, Fits, DistinctNames, OffsetOf;
    var entries := Collect(newHead, all);
    main.Init(z, entries);
    var callbacks;
    code, callbacks := main.StartMalloc(z, entries);
    missing := main.Check(z, total);
  }

  lemma SameLengths(z: Sizes, a: seq<Registration>, b: seq<Registration>)
    requires multiset(a) == multiset(b)
    ensures |a| == |b| && SegmentLen(z, Entries(a)) == SegmentLen(z, Entries(b))
    ensures CreatedLen(z, Entries(a)) == CreatedLen(z, Entries(b))
    ensures Fits(z, Entries(a)) <==> Fits(z, Entries(b))
  {
    TotalLenPermuted(a, b);
    assert |multiset(a)| == |multiset(b)|;
  }

  // ---------- Link order ----------

  /** The offset of a configuration needs the configurations in front of it and the number of regions. */
  lemma PrefixOffsets(z: Sizes, s: seq<Entry>, s': seq<Entry>, c: nat, i: nat)
    requires |s| == |s'| && c <= |s| && s[..c] == s'[..c] && i <= c
    ensures OffsetOf(z, s, i) == OffsetOf(z, s', i)
  {
    assert s[..i] == s[..c][..i] && s'[..i] == s'[..c][..i];
  }

  /** The registrations of two builds are the same, whatever order they were linked in. */
  ghost predicate SameRegistrations(s: seq<Registration>, s': seq<Registration>) {
    multiset(Entries(s)) == multiset(Entries(s'))
  }

  lemma {:induction false} EntryOfType(s: seq<Registration>, t: nat, e: Entry)
    ensures e in Entries(OfType(s, t)) <==> e in Entries(s) && e.memType == t
    decreases |s|
  {
    if s != [] {
      var front, last := s[..|s| - 1], s[|s| - 1];
      EntryOfType(front, t, e);
      EntriesEnd(front, last);
      assert s == front + [last];
      if last.entry.memType == t {
        EntriesEnd(OfType(front, t), last);
        assert OfType(s, t) == OfType(front, t) + [last];
      } else {
        assert OfType(s, t) == OfType(front, t);
      }
    }
  }

  lemma EntriesEnd(s: seq<Registration>, x: Registration)
    ensures Entries(s + [x]) == Entries(s) + [x.entry]
  {
  }

  /** Two link orders of the same registrations give the same configurations at the same offsets. */
  lemma SameConfigOffsets(z: Sizes, s: seq<Registration>, s': seq<Registration>, a: seq<Registration>, b: seq<Registration>)
    requires TypesOk(s) && TypesOk(s') && SameRegistrations(s, s')
    requires multiset(a) == multiset(OfType(s, CONFIG)) && multiset(b) == multiset(OfType(s', CONFIG))
    requires Increasing(Entries(a)) && Increasing(Entries(b))
    ensures var e, e' := Entries(a + OfType(s, STAT)), Entries(b + OfType(s', STAT));
            && |a| == |b| && |e| == |e'| == |s| && ConfigsFirst(e, |a|) && ConfigsFirst(e', |a|)
            && e[..|a|] == e'[..|a|] == Entries(a)
            && SegmentLen(z, e) == SegmentLen(z, e')
            && forall i :: 0 <= i <= |a| ==> OffsetOf(z, e, i) == OffsetOf(z, e', i)
  {
    hide Increasing, OfType, OffsetOf, TotalLen, ConfigsFirst, SegmentLen, TypesOk;
    SameConfigSets(s, s');
    SameConfigOrder(s, s', a, b);
    ArrangedOrder(s, a);
    ArrangedOrder(s', b);
    SameCounts(z, a + OfType(s, STAT), s, s');
    SameCounts(z, b + OfType(s', STAT), s', s');
    EntriesConcat(a, OfType(s, STAT));
    EntriesConcat(b, OfType(s', STAT));
    var e, e' := Entries(a + OfType(s, STAT)), Entries(b + OfType(s', STAT));
    assert |Entries(a)| == |Entries(b)|;
    forall i | 0 <= i <= |a| ensures OffsetOf(z, e, i) == OffsetOf(z, e', i) {
      PrefixOffsets(z, e, e', |a|, i);
    }
  }

  lemma SameConfigSets(s: seq<Registration>, s': seq<Registration>)
    requires SameRegistrations(s, s')
    ensures forall x: Entry :: x in Entries(OfType(s, CONFIG)) <==> x in Entries(OfType(s', CONFIG))
  {
    hide OfType;
    forall x: Entry ensures x in Entries(OfType(s, CONFIG)) <==> x in Entries(OfType(s', CONFIG)) {
      EntryOfType(s, CONFIG, x);
      EntryOfType(s', CONFIG, x);
      assert x in Entries(s) <==> x in multiset(Entries(s));
      assert x in Entries(s') <==> x in multiset(Entries(s'));
    }
  }

  lemma SameCounts(z: Sizes, all: seq<Registration>, s: seq<Registration>, s': seq<Registration>)
    requires multiset(all) == multiset(s) && SameRegistrations(s, s')
    ensures |all| == |s| == |s'| && SegmentLen(z, Entries(all)) == SegmentLen(z, Entries(s'))
  {
    SameLengths(z, all, s);
    SameTotals(Entries(s), Entries(s'));
  }

  lemma EntriesConcat(a: seq<Registration>, b: seq<Registration>)
    ensures Entries(a + b) == Entries(a) + Entries(b) && Entries(a + b)[..|a|] == Entries(a)
  {
  }

  lemma {:induction false} SameTotals(s: seq<Entry>, s': seq<Entry>)
    requires multiset(s) == multiset(s')
    ensures |s| == |s'| && TotalLen(s) == TotalLen(s')
    decreases |s|
  {
    assert |multiset(s)| == |multiset(s')|;
    if s != [] {
      var n := |s| - 1;
      assert s[n] in multiset(s');
      var j :| 0 <= j < |s'| && s'[j] == s[n];
      WithoutOne(s, n);
      WithoutOne(s', j);
      hide TotalLen;
      assert s[..n] + s[n + 1..] == s[..n];
      TotalLenWithout(s, n);
      SameTotals(s[..n], s'[..j] + s'[j + 1..]);
      TotalLenWithout(s', j);
    }
  }

  /** One configuration byte and two statistics: the recorded end is behind the first statistics region,
      so it depends on the order in which the statistics were linked. */
  lemma EndMovesWithLinkOrder()
    ensures exists s, s' :: multiset(s) == multiset(s') && ConfigsFirst(s, 1) && ConfigsFirst(s', 1)
              && ConfigEnd(Sizes(1, 1), s, |s|) != ConfigEnd(Sizes(1, 1), s', |s'|)
              && ConfigEnd(Sizes(1, 1), s, |s|) + 1 != OffsetOf(Sizes(1, 1), s, 1)
  {
    var c, x, y := Entry([1], CONFIG, 1), Entry([2], STAT, 5), Entry([3], STAT, 7);
    var s, s' := [c, x, y], [c, y, x];
    hide ConfigEnd, OffsetOf, Base, ConfigsFirst;
    EndOfThree(c, x, y);
    EndOfThree(c, y, x);
    SwapKeeps(c, x, y);
  }

  lemma SwapKeeps<T>(c: T, x: T, y: T)
    ensures multiset([c, x, y]) == multiset([c, y, x])
  {
  }

  lemma EndOfThree(c: Entry, x: Entry, y: Entry)
    requires c.memType == CONFIG && x.memType == y.memType == STAT && c.len == 1 && x.len > 0
    ensures var s := [c, x, y]; var z := Sizes(1, 1);
            ConfigsFirst(s, 1) && OffsetOf(z, s, 1) == Base(z, 3) + 1 && ConfigEnd(z, s, 3) == Base(z, 3) + x.len
  {
    var s, z := [c, x, y], Sizes(1, 1);
    OffsetEnds(z, s);
    OffsetStep(z, s, 0);
    OffsetStep(z, s, 1);
    assert ConfigEnd(z, s, 1) == Base(z, 3);
    assert ConfigEnd(z, s, 2) == Base(z, 3);
  }
}
