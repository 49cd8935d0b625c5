/** Saving the segment up to the end of its configuration part to a file, block by block, and loading
    the configuration part back. */
module ConfigFile {
  import opened Words

  const BLOCK: nat := 2048

  const FAILED: int := -1
  const REJECTED: int := -2

  /** What a load comes to: a return code, or a copy that has reached the end of the segment with bytes
      still to write. The original does not test for that. */
  datatype Outcome = Returned(code: int) | PastSegment

  /** The fields of the segment's header that a file is checked against. */
  datatype Header = Header(version: seq<Byte>, configStart: nat, configEnd: nat, mapCount: nat)

  /** How the header and the map entries are stored: their sizes and what their bytes say. */
  datatype Format = Format(headerLen: nat, entryLen: nat, header: seq<Byte> -> Header, entryOffset: seq<Byte> -> nat)

  function HeaderOf(f: Format, bytes: seq<Byte>): Header
    requires f.headerLen <= |bytes|
  {
    f.header(bytes[..f.headerLen])
  }

  function EntryAt(f: Format, bytes: seq<Byte>, i: nat): seq<Byte>
    requires EntryEnd(f, i) <= |bytes|
  {
    EntryStart(f, i);
    bytes[f.headerLen + i * f.entryLen..EntryEnd(f, i)]
  }

  function EntryEnd(f: Format, i: nat): nat {
    f.headerLen + i * f.entryLen + f.entryLen
  }

  /** Where a map of n entries ends. */
  function MapEnd(f: Format, n: nat): nat {
    f.headerLen + n * f.entryLen
  }

  lemma EntryStart(f: Format, i: nat)
    ensures f.headerLen <= f.headerLen + i * f.entryLen <= EntryEnd(f, i)
  {
  }

  lemma EntriesFit(f: Format, i: nat, n: nat)
    requires i < n
    ensures EntryEnd(f, i) <= MapEnd(f, n)
  {
    Monotone(i + 1, n, f.entryLen);
  }

  /** The header and the map lie in front of the configuration, which lies in the segment. */
  ghost predicate WellPlaced(f: Format, mem: seq<Byte>) {
    f.headerLen <= |mem| &&
    var h := HeaderOf(f, mem);
    0 < MapEnd(f, h.mapCount) <= h.configStart <= h.configEnd + 1 <= |mem|
  }

  // ---------- Saving ----------

  /** save_shm_config_to_file: everything from the start of the segment to the end of the configuration. */
  method Save(f: Format, mem: array<Byte>) returns (file: seq<Byte>)
    requires WellPlaced(f, mem[..])
    ensures file == mem[..HeaderOf(f, mem[..]).configEnd + 1]
  {
    var total := HeaderOf(f, mem[..]).configEnd + 1;
    var left, offset := total, 0;
    file := [];
    while left >= BLOCK
      invariant offset + left == total && 0 <= left && file == mem[..offset]
    {
      file := file + mem[offset..offset + BLOCK];
      offset, left := offset + BLOCK, left - BLOCK;
    }
    if left > 0 {
      file := file + mem[offset..offset + left];
    }
  }

  // ---------- Loading ----------

  /** The first block boundary, counted from pos, behind the end of the configuration. */
  function Reach(pos: nat, end: nat): (r: nat)
    ensures r >= pos && r > end
    decreases end + 1 - pos
  {
    if pos > end then pos else Reach(pos + BLOCK, end)
  }

  /** Where writing stops: whole blocks are read, as far as the file goes. */
  function WriteEnd(h: Header, len: nat): nat {
    var r := Reach(h.configStart, h.configEnd);
    if r <= len then r else len
  }

  function Overwritten(mem: seq<Byte>, file: seq<Byte>, from: nat, to: nat): (r: seq<Byte>)
    requires from <= to <= |mem| && to <= |file|
    ensures |r| == |mem|
  {
    mem[..from] + file[from..to] + mem[to..]
  }

  /** The map entries of configuration regions, read until the first region behind the end. */
  predicate SameEntries(f: Format, mem: seq<Byte>, file: seq<Byte>, i: nat)
    requires f.headerLen <= |mem| && i <= HeaderOf(f, mem).mapCount
    requires MapEnd(f, HeaderOf(f, mem).mapCount) <= |mem|
    decreases HeaderOf(f, mem).mapCount - i
  {
    var h := HeaderOf(f, mem);
    if i == h.mapCount then true
    else
      EntriesFit(f, i, h.mapCount);
      if f.entryOffset(EntryAt(f, mem, i)) > h.configEnd then true
      else EntryEnd(f, i) <= |file| && EntryAt(f, file, i) == EntryAt(f, mem, i) && SameEntries(f, mem, file, i + 1)
  }

  predicate Accepts(f: Format, mem: seq<Byte>, file: seq<Byte>)
    requires f.headerLen <= |mem| && MapEnd(f, HeaderOf(f, mem).mapCount) <= |mem|
  {
    && |file| >= HeaderOf(f, mem).configEnd + 1 && |file| >= f.headerLen
    && HeaderOf(f, file) == HeaderOf(f, mem)
    && SameEntries(f, mem, file, 0)
  }

  /** Map entries from k to i are of regions that begin no later than the configuration ends. */
  ghost predicate ConfigThrough(f: Format, mem: seq<Byte>, k: nat, i: nat)
    requires f.headerLen <= |mem| && i < HeaderOf(f, mem).mapCount
    requires MapEnd(f, HeaderOf(f, mem).mapCount) <= |mem|
  {
    forall j :: k <= j <= i ==>
      EntryEnd(f, j) <= |mem| && f.entryOffset(EntryAt(f, mem, j)) <= HeaderOf(f, mem).configEnd
  }

  /** The file has entry i and it is the one in memory. */
  ghost predicate SameEntry(f: Format, mem: seq<Byte>, file: seq<Byte>, i: nat) {
    EntryEnd(f, i) <= |mem| && EntryEnd(f, i) <= |file| && EntryAt(f, file, i) == EntryAt(f, mem, i)
  }

  lemma {:induction false} SameEntriesMeans(f: Format, mem: seq<Byte>, file: seq<Byte>, k: nat)
    requires f.headerLen <= |mem| && k <= HeaderOf(f, mem).mapCount
    requires MapEnd(f, HeaderOf(f, mem).mapCount) <= |mem|
    ensures SameEntries(f, mem, file, k) <==>
      forall i :: k <= i < HeaderOf(f, mem).mapCount && ConfigThrough(f, mem, k, i) ==> SameEntry(f, mem, file, i)
    decreases HeaderOf(f, mem).mapCount - k
  {
    var h := HeaderOf(f, mem);
    if k < h.mapCount {
      EntriesFit(f, k, h.mapCount);
      assert ConfigThrough(f, mem, k, k) <==> f.entryOffset(EntryAt(f, mem, k)) <= h.configEnd;
      SameEntriesMeans(f, mem, file, k + 1);
      hide SameEntry, HeaderOf, EntryAt, EntryEnd, MapEnd;
      assert forall i :: k < i < h.mapCount ==>
        (ConfigThrough(f, mem, k, i) <==> ConfigThrough(f, mem, k, k) && ConfigThrough(f, mem, k + 1, i));
    }
  }

  /** The checks of load_shm_config_from_file. */
  method CheckFile(f: Format, mem: array<Byte>, file: seq<Byte>) returns (code: int)
    requires WellPlaced(f, mem[..])
    ensures code == 0 <==> Accepts(f, mem[..], file)
    ensures var h := HeaderOf(f, mem[..]);
      code == 0 <==>
        && h.configEnd < |file| && f.headerLen <= |file| && HeaderOf(f, file) == h
        && forall i :: 0 <= i < h.mapCount && ConfigThrough(f, mem[..], 0, i) ==> SameEntry(f, mem[..], file, i)
    ensures code == 0 || code == -2
  {
    SameEntriesMeans(f, mem[..], file, 0);
    hide ConfigThrough, SameEntry;
    var h := HeaderOf(f, mem[..]);
    if |file| < h.configEnd + 1 {
      return REJECTED;
    }
    if |file| < f.headerLen {
      return REJECTED;
    }
    if HeaderOf(f, file) != h {
      return REJECTED;
    }
    var i := 0;
    while i < h.mapCount
      invariant i <= h.mapCount && (SameEntries(f, mem[..], file, 0) <==> SameEntries(f, mem[..], file, i))
    {
      EntriesFit(f, i, h.mapCount);
      if f.entryOffset(EntryAt(f, mem[..], i)) > h.configEnd {
        break;
      }
      if EntryAt(f, file, i) != EntryAt(f, mem[..], i) {
        return REJECTED;
      }
      i := i + 1;
    }
    code := 0;
  }

  lemma OverwrittenAre(mem: seq<Byte>, file: seq<Byte>, from: nat, to: nat, r: seq<Byte>)
    requires from <= to <= |mem| == |r| && to <= |file|
    requires forall j :: 0 <= j < |mem| ==> r[j] == if from <= j < to then file[j] else mem[j]
    ensures r == Overwritten(mem, file, from, to)
  {
  }

  lemma OverwrittenAt(mem: seq<Byte>, file: seq<Byte>, from: nat, to: nat, j: nat)
    requires from <= to <= |mem| && to <= |file| && j < |mem|
    ensures Overwritten(mem, file, from, to)[j] == if from <= j < to then file[j] else mem[j]
  {
  }

  lemma OverwrittenNone(mem: seq<Byte>, file: seq<Byte>, from: nat)
    requires from <= |mem| && from <= |file|
    ensures Overwritten(mem, file, from, from) == mem
  {
    OverwrittenAre(mem, file, from, from, mem);
  }

  lemma OverwrittenMore(mem: seq<Byte>, file: seq<Byte>, from: nat, mid: nat, to: nat)
    requires from <= mid <= to <= |mem| && to <= |file|
    ensures Overwritten(Overwritten(mem, file, from, mid), file, mid, to) == Overwritten(mem, file, from, to)
  {
    var first := Overwritten(mem, file, from, mid);
    var r := Overwritten(first, file, mid, to);
    hide Overwritten;
    forall j | 0 <= j < |mem| ensures r[j] == if from <= j < to then file[j] else mem[j] {
      OverwrittenAt(first, file, mid, to, j);
      OverwrittenAt(mem, file, from, mid, j);
    }
    OverwrittenAre(mem, file, from, to, r);
  }

  lemma ReachNext(pos: nat, end: nat)
    ensures Reach(pos, end) == if pos > end then pos else Reach(pos + BLOCK, end)
  {
  }

  function Least(a: nat, b: nat): nat {
    if a <= b then a else b
  }

  /** Reads one block of the file into memory, as many bytes as the file still has, a block at most,
      up to the end of the segment; the memory has been overwritten up to there. */
  method ReadBlock(mem: array<Byte>, file: seq<Byte>, pos: nat, ghost was: seq<Byte>, ghost from: nat)
    returns (n: nat)
    requires from <= pos <= |file| && |was| == mem.Length && pos <= |was|
    requires mem[..] == Overwritten(was, file, from, pos)
    modifies mem
    ensures n == Least(BLOCK, |file| - pos)
    ensures mem[..] == Overwritten(was, file, from, Least(pos + n, mem.Length))
  {
    hide Overwritten;
    n := Least(BLOCK, |file| - pos);
    var fits := Least(n, mem.Length - pos);
    for k := 0 to fits
      invariant forall j :: 0 <= j < mem.Length ==> mem[j] == if pos <= j < pos + k then file[j] else old(mem[j])
    {
      mem[pos + k] := file[pos + k];
    }
    OverwrittenAre(old(mem[..]), file, pos, pos + fits, mem[..]);
    OverwrittenMore(was, file, from, pos, pos + fits);
  }

  /** The copying part of a load. */
  method Copy(mem: array<Byte>, file: seq<Byte>, h: Header) returns (outcome: Outcome)
    requires h.configStart <= h.configEnd + 1 <= |file| && h.configEnd + 1 <= mem.Length
    modifies mem
    ensures outcome == if WriteEnd(h, |file|) <= mem.Length then Returned(0) else PastSegment
    ensures mem[..] == Overwritten(old(mem[..]), file, h.configStart, Least(WriteEnd(h, |file|), mem.Length))
  {
    var pos := h.configStart;
    ghost var was, done := mem[..], pos;
    OverwrittenNone(was, file, pos);
    hide Overwritten, Reach;
    while pos <= h.configEnd
      invariant h.configStart <= pos && Reach(pos, h.configEnd) == Reach(h.configStart, h.configEnd)
      invariant h.configStart <= done <= mem.Length && (done == pos <= |file| || done == |file| < pos)
      invariant mem[..] == Overwritten(was, file, h.configStart, done)
      decreases h.configEnd + 1 - pos
    {
      ReachNext(pos, h.configEnd);
      assert done == pos < |file|;
      var n := ReadBlock(mem, file, pos, was, h.configStart);
      if n <= 0 {
        return Returned(FAILED);
      }
      done := pos + n;
      if pos + n > mem.Length {
        return PastSegment;
      }
      pos := pos + BLOCK;
    }
    ReachNext(pos, h.configEnd);
    outcome := Returned(0);
  }

  /** load_shm_config_from_file: an accepted file replaces the bytes from the start of the configuration
      to the write end, as far as the segment goes; a file that is not accepted changes nothing. */
  method Load(f: Format, mem: array<Byte>, file: seq<Byte>) returns (outcome: Outcome)
    requires WellPlaced(f, mem[..])
    modifies mem
    ensures var end := WriteEnd(HeaderOf(f, old(mem[..])), |file|);
            outcome == if !Accepts(f, old(mem[..]), file) then Returned(REJECTED)
                       else if end <= mem.Length then Returned(0) else PastSegment
    ensures var h := HeaderOf(f, old(mem[..]));
            mem[..] == if Accepts(f, old(mem[..]), file)
                       then Overwritten(old(mem[..]), file, h.configStart, Least(WriteEnd(h, |file|), mem.Length))
                       else old(mem[..])
  {
    hide Overwritten, SameEntries, Reach;
    var code := CheckFile(f, mem, file);
    if code == 0 {
      outcome := Copy(mem, file, HeaderOf(f, mem[..]));
    } else {
      outcome := Returned(code);
    }
  }

  // ---------- What a load touches ----------

  lemma {:induction false} ReachExact(pos: nat, end: nat)
    requires pos <= end + 1
    ensures Reach(pos, end) == end + 1 <==> (end + 1 - pos) % BLOCK == 0
    decreases end + 1 - pos
  {
    if pos + BLOCK <= end + 1 {
      ReachExact(pos + BLOCK, end);
      assert (end + 1 - pos) % BLOCK == (end + 1 - (pos + BLOCK)) % BLOCK;
    }
  }

  /** A load of an accepted file writes nothing outside the configuration exactly when the file ends
      with the configuration or the configuration is a whole number of blocks. */
  lemma WritesOnlyConfigIff(h: Header, len: nat)
    requires h.configStart <= h.configEnd + 1 <= len
    ensures WriteEnd(h, len) == h.configEnd + 1 <==>
            len == h.configEnd + 1 || (h.configEnd + 1 - h.configStart) % 2048 == 0
  {
    ReachExact(h.configStart, h.configEnd);
  }

  ghost predicate ChangesBehindConfig(f: Format, mem: seq<Byte>, file: seq<Byte>)
    requires WellPlaced(f, mem)
  {
    var h := HeaderOf(f, mem);
    Accepts(f, mem, file) && WriteEnd(h, |file|) <= |mem|
    && Overwritten(mem, file, h.configStart, WriteEnd(h, |file|))[h.configEnd + 1..] != mem[h.configEnd + 1..]
  }

  /** A file one byte longer than a configuration of one byte changes the byte behind it. */
  lemma LongerFileOverwrites()
    ensures exists f, mem, file :: WellPlaced(f, mem) && ChangesBehindConfig(f, mem, file)
  {
    var f := Format(1, 0, _ => Header([], 1, 1, 0), _ => 0);
    var mem: seq<Byte>, file: seq<Byte> := [0, 0, 0], [0, 0, 5];
    assert Reach(1, 1) == Reach(1 + BLOCK, 1) == 1 + BLOCK;
    assert WriteEnd(HeaderOf(f, mem), 3) == 3;
    assert SameEntries(f, mem, file, 0);
    var r := Overwritten(mem, file, 1, 3);
    OverwrittenAt(mem, file, 1, 3, 2);
    assert r[2..][0] == 5 && mem[2..][0] == 0;
    assert WellPlaced(f, mem) && ChangesBehindConfig(f, mem, file);
  }

  /** The second segment accepts what the first has in its header and map. */
  ghost predicate SameLayout(f: Format, a: seq<Byte>, b: seq<Byte>) {
    WellPlaced(f, a) && WellPlaced(f, b) && HeaderOf(f, a) == HeaderOf(f, b) && SameEntries(f, b, a, 0)
  }

  /** The map lies in front of the end of the configuration, so it is in the saved file. */
  lemma {:induction false} SavedEntries(f: Format, a: seq<Byte>, b: seq<Byte>, i: nat)
    requires WellPlaced(f, a) && WellPlaced(f, b) && HeaderOf(f, a) == HeaderOf(f, b)
    requires i <= HeaderOf(f, b).mapCount && SameEntries(f, b, a, i)
    ensures SameEntries(f, b, a[..HeaderOf(f, a).configEnd + 1], i)
    decreases HeaderOf(f, b).mapCount - i
  {
    var h, file := HeaderOf(f, b), a[..HeaderOf(f, a).configEnd + 1];
    if i < h.mapCount {
      EntriesFit(f, i, h.mapCount);
      EntryStart(f, i);
      assert EntryAt(f, file, i) == EntryAt(f, a, i);
      if f.entryOffset(EntryAt(f, b, i)) <= h.configEnd {
        SavedEntries(f, a, b, i + 1);
      }
    }
  }

  /** The second segment with the configuration of the first. */
  ghost function ConfigFrom(f: Format, a: seq<Byte>, b: seq<Byte>): seq<Byte>
    requires WellPlaced(f, a) && WellPlaced(f, b) && HeaderOf(f, a) == HeaderOf(f, b)
  {
    var h := HeaderOf(f, b);
    b[..h.configStart] + a[h.configStart..h.configEnd + 1] + b[h.configEnd + 1..]
  }

  /** A saved segment is accepted by a segment of the same layout, and loading it replaces exactly the
      configuration. */
  lemma LoadsBack(f: Format, a: seq<Byte>, b: seq<Byte>)
    requires SameLayout(f, a, b)
    ensures var h := HeaderOf(f, b); var file := a[..h.configEnd + 1];
            && Accepts(f, b, file) && WriteEnd(h, |file|) == h.configEnd + 1
            && Overwritten(b, file, h.configStart, h.configEnd + 1) == ConfigFrom(f, a, b)
  {
    var h := HeaderOf(f, b);
    var file := a[..h.configEnd + 1];
    SavedEntries(f, a, b, 0);
    WritesOnlyConfigIff(h, |file|);
    assert file[..f.headerLen] == a[..f.headerLen];
    assert file[h.configStart..h.configEnd + 1] == a[h.configStart..h.configEnd + 1];
  }

  /** Saving one segment and loading the file into a segment of the same layout brings back every byte
      of the configuration and changes no other byte, whatever the configuration's size and whatever
      the statistics. */
  method SaveAndLoad(f: Format, source: array<Byte>, target: array<Byte>) returns (outcome: Outcome)
    requires SameLayout(f, source[..], target[..])
    modifies target
    ensures outcome == Returned(0) && target[..] == ConfigFrom(f, old(source[..]), old(target[..]))
  {
    ghost var a, b := source[..], target[..];
    LoadsBack(f, a, b);
    hide SameEntries, Reach, Overwritten, Accepts, MapEnd, WriteEnd, ConfigFrom;
    var file := Save(f, source);
    assert source[..] == a && target[..] == b;
    outcome := Load(f, target, file);
  }
}
