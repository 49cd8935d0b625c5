/** Saving the configuration of one build and loading it into another whose registrations were linked in
    a different order: the bytes of a laid-out segment, and what the file finds there. */
module ConfigTransfer {
  import opened Words
  import opened Registrations
  import opened ShmLayout
  import opened ConfigFile

  /** How a map entry is written. */
  type Writing = Region -> seq<Byte>

  ghost predicate WritesEntries(f: Format, w: Writing) {
    forall r {:trigger w(r)} :: |w(r)| == f.entryLen && f.entryOffset(w(r)) == r.offset
  }

  ghost predicate EntryWritten(f: Format, w: Writing, mem: seq<Byte>, z: Sizes, s: seq<Entry>, i: nat)
    requires i < |s| && EntryEnd(f, i) <= |mem| && OffsetOf(z, s, i) < WORD
  {
    EntryAt(f, mem, i) == w(Region(s[i].name, OffsetOf(z, s, i), s[i].len))
  }

  /** mem is a segment that was laid out for these registrations, in this order. */
  ghost predicate LaidOutSegment(f: Format, w: Writing, version: seq<Byte>, z: Sizes, s: seq<Entry>, mem: seq<Byte>) {
    && f.headerLen == z.header > 0 && f.entryLen == z.mapEntry && WritesEntries(f, w)
    && Fits(z, s) && |mem| == SegmentLen(z, s)
    && 0 <= ConfigEnd(z, s, |s|) && f.headerLen <= |mem|
    && HeaderOf(f, mem) == Header(version, Base(z, |s|), ConfigEnd(z, s, |s|), |s|)
    && forall i :: 0 <= i < |s| ==> EntryEnd(f, i) <= |mem| && OffsetOf(z, s, i) < WORD && EntryWritten(f, w, mem, z, s, i)
  }

  /** The bytes that start_shm_map_malloc leaves say so. */
  lemma MainDescribes(f: Format, w: Writing, version: seq<Byte>, z: Sizes, s: seq<Entry>, mem: seq<Byte>,
                      maps: seq<Region>, start: Word, end: Word)
    requires f.headerLen == z.header > 0 && f.entryLen == z.mapEntry && WritesEntries(f, w)
    requires Fits(z, s) && |mem| == SegmentLen(z, s)
    requires LaidOut(maps, z, s) && start == Base(z, |s|) && end == Low32(ConfigEnd(z, s, |s|))
    requires f.headerLen <= |mem| && HeaderOf(f, mem) == Header(version, start, end, |maps|)
    requires forall i :: 0 <= i < |maps| ==> EntryEnd(f, i) <= |mem| && EntryAt(f, mem, i) == w(maps[i])
    ensures LaidOutSegment(f, w, version, z, s, mem)
  {
    hide ConfigEnd, Low32, EntryEnd, EntryAt;
    EndBounds(z, s, |s|);
    OffsetEnds(z, s);
    assert ConfigEnd(z, s, |s|) <= SegmentLen(z, s);
    SmallLow(ConfigEnd(z, s, |s|));
    hide SegmentLen, Base;
    forall i | 0 <= i < |s|
      ensures EntryEnd(f, i) <= |mem| && OffsetOf(z, s, i) < WORD && EntryWritten(f, w, mem, z, s, i)
    {
      assert maps[i] == Region(s[i].name, maps[i].offset, s[i].len);
    }
  }

  lemma SmallLow(x: int)
    requires 0 <= x < WORD
    ensures Low32(x) == x
  {
  }

  /** With a statistics region the recorded end is in the segment, or is the byte before it. */
  lemma EndWithStats(z: Sizes, s: seq<Entry>, c: nat)
    requires ConfigsFirst(s, c) && c < |s|
    ensures ConfigEnd(z, s, |s|) + 1 <= SegmentLen(z, s)
  {
    EndBounds(z, s, |s|);
    OffsetEnds(z, s);
    EndBeforeStats(z, s, c, c);
    OffsetsGrow(z, s, c, |s|);
    if OffsetOf(z, s, c) - 1 != Base(z, |s|) {
      assert ConfigEnd(z, s, c + 1) == OffsetOf(z, s, c) - 1;
      EndStays(z, s, c + 1, |s|);
    }
  }

  lemma MapBeforeBase(f: Format, z: Sizes, n: nat)
    requires f.headerLen == z.header && f.entryLen == z.mapEntry
    ensures f.headerLen <= MapEnd(f, n) <= Base(z, n)
  {
  }

  lemma EndInSegmentIff(z: Sizes, s: seq<Entry>, c: nat)
    requires ConfigsFirst(s, c)
    ensures Base(z, |s|) <= ConfigEnd(z, s, |s|) + 1
    ensures ConfigEnd(z, s, |s|) + 1 <= SegmentLen(z, s) <==> c < |s| || TotalLen(s) > 0
  {
    EndBounds(z, s, |s|);
    if c < |s| {
      EndWithStats(z, s, c);
    } else {
      EndBeforeStats(z, s, c, c);
      OffsetEnds(z, s);
      assert s[..|s|] == s;
    }
  }

  /** Such a segment is well placed for saving and loading exactly when it has a statistics region or a
      byte of memory; with neither, the recorded end is one behind the segment. */
  lemma WellPlacedIff(f: Format, w: Writing, version: seq<Byte>, z: Sizes, s: seq<Entry>, mem: seq<Byte>, c: nat)
    requires LaidOutSegment(f, w, version, z, s, mem) && ConfigsFirst(s, c)
    ensures WellPlaced(f, mem) <==> c < |s| || TotalLen(s) > 0
  {
    EndInSegmentIff(z, s, c);
    MapBeforeBase(f, z, |s|);
    hide ConfigEnd, SegmentLen, TotalLen, ConfigsFirst, Base, WritesEntries, EntryWritten, OffsetOf, Fits, EntryEnd, EntryAt, MapEnd;
  }

  /** Two segments with the same configurations, at the same offsets, agree as far as a file can tell,
      whatever their statistics, if the end is recorded right in both. */
  lemma SameConfigsSameLayout(f: Format, w: Writing, version: seq<Byte>, z: Sizes,
                              s: seq<Entry>, s': seq<Entry>, a: seq<Byte>, b: seq<Byte>, c: nat)
    requires LaidOutSegment(f, w, version, z, s, a) && LaidOutSegment(f, w, version, z, s', b)
    requires |s| == |s'| && ConfigsFirst(s, c) && ConfigsFirst(s', c) && s[..c] == s'[..c]
    requires RightEnd(s, c) && RightEnd(s', c)
    ensures SameLayout(f, a, b)
  {
    ConfigEndIff(z, s, c);
    ConfigEndIff(z, s', c);
    PrefixOffsets(z, s, s', c, c);
    if c == |s| {
      assert s[..c] == s && s'[..c] == s';
    }
    WellPlacedIff(f, w, version, z, s, a, c);
    WellPlacedIff(f, w, version, z, s', b, c);
    hide ConfigEnd, OffsetOf, SegmentLen, RightEnd;
    EntriesAgree(f, w, version, z, s, s', a, b, c, 0);
  }

  lemma {:induction false} EntriesAgree(f: Format, w: Writing, version: seq<Byte>, z: Sizes,
                                        s: seq<Entry>, s': seq<Entry>, a: seq<Byte>, b: seq<Byte>, c: nat, i: nat)
    requires LaidOutSegment(f, w, version, z, s, a) && LaidOutSegment(f, w, version, z, s', b)
    requires WellPlaced(f, b) && |s| == |s'| && i <= c <= |s| && s[..c] == s'[..c]
    requires c < |s| ==> ConfigEnd(z, s', |s'|) < OffsetOf(z, s', c)
    ensures SameEntries(f, b, a, i)
    decreases c - i
  {
    if i < |s| {
      EntriesFit(f, i, |s|);
      assert EntryWritten(f, w, a, z, s, i) && EntryWritten(f, w, b, z, s', i);
      if i < c {
        PrefixOffsets(z, s, s', c, i);
        assert s[i] == s[..c][i] == s'[i];
        EntriesAgree(f, w, version, z, s, s', a, b, c, i + 1);
      }
    }
  }

  /** The configuration bytes are the source's, the others the target's. */
  ghost predicate Brought(z: Sizes, s: seq<Entry>, c: nat, source: seq<Byte>, target: seq<Byte>, now: seq<Byte>)
    requires c <= |s|
  {
    |now| == |target| == |source| == SegmentLen(z, s)
    && forall k :: 0 <= k < |now| ==> now[k] == if Base(z, |s|) <= k < OffsetOf(z, s, c) then source[k] else target[k]
  }

  /** The arranged registrations of one build. */
  ghost function Arranged(s: seq<Registration>, sorted: seq<Registration>): (e: seq<Entry>)
    ensures |e| >= |sorted|
  {
    Entries(sorted + OfType(s, STAT))
  }

  /** A segment laid out by one build: its registrations s, with the configurations sorted. */
  ghost predicate Build(f: Format, w: Writing, version: seq<Byte>, z: Sizes,
                        s: seq<Registration>, sorted: seq<Registration>, mem: seq<Byte>) {
    && TypesOk(s) && multiset(sorted) == multiset(OfType(s, CONFIG)) && Increasing(Entries(sorted))
    && LaidOutSegment(f, w, version, z, Arranged(s, sorted), mem) && RightEnd(Arranged(s, sorted), |sorted|)
  }

  lemma BuildsShareLayout(f: Format, w: Writing, version: seq<Byte>, z: Sizes,
                          s: seq<Registration>, here: seq<Registration>, a: seq<Byte>,
                          s': seq<Registration>, there: seq<Registration>, b: seq<Byte>)
    requires SameRegistrations(s, s') && Build(f, w, version, z, s, here, a) && Build(f, w, version, z, s', there, b)
    ensures SameLayout(f, a, b) && |a| == |b| == SegmentLen(z, Arranged(s', there))
    ensures var h := HeaderOf(f, b); var e := Arranged(s', there);
            h.configStart == Base(z, |e|) && h.configEnd + 1 == OffsetOf(z, e, |there|)
  {
    SameConfigOffsets(z, s, s', here, there);
    SameConfigsSameLayout(f, w, version, z, Arranged(s, here), Arranged(s', there), a, b, |here|);
    ConfigEndIff(z, Arranged(s', there), |there|);
  }

  lemma BroughtBy(f: Format, z: Sizes, s: seq<Entry>, c: nat, a: seq<Byte>, b: seq<Byte>, now: seq<Byte>)
    requires SameLayout(f, a, b) && |a| == |b| == SegmentLen(z, s) && c <= |s|
    requires HeaderOf(f, b).configStart == Base(z, |s|) && HeaderOf(f, b).configEnd + 1 == OffsetOf(z, s, c)
    requires now == ConfigFrom(f, a, b)
    ensures Brought(z, s, c, a, b, now)
  {
    hide Base, OffsetOf, SegmentLen, SameEntries;
  }

  /** Saving in one build and loading in another with the same registrations in another link order:
      every byte of every configuration is brought over, to the same offset, and nothing else changes. */
  method SaveHereLoadThere(f: Format, source: array<Byte>, target: array<Byte>,
                           ghost w: Writing, ghost version: seq<Byte>, ghost z: Sizes,
                           ghost s: seq<Registration>, ghost here: seq<Registration>,
                           ghost s': seq<Registration>, ghost there: seq<Registration>)
    returns (outcome: Outcome)
    requires SameRegistrations(s, s')
    requires Build(f, w, version, z, s, here, source[..]) && Build(f, w, version, z, s', there, target[..])
    modifies target
    ensures outcome == Returned(0)
    ensures Brought(z, Arranged(s', there), |there|, old(source[..]), old(target[..]), target[..])
  {
    hide LaidOutSegment, TypesOk, Increasing, OfType, SameEntries, RightEnd;
    ghost var a, b := source[..], target[..];
    BuildsShareLayout(f, w, version, z, s, here, a, s', there, b);
    outcome := SaveAndLoad(f, source, target);
    BroughtBy(f, z, Arranged(s', there), |there|, a, b, target[..]);
  }
}
