/** Export of the rules to files and their import by PUT. */
module RuleTransfer {
  import opened RuleMap
  import opened RuleStore
  import opened StoreState
  import opened RuleBatch

  const MAX_RULES_PER_FILE: nat := 32

  datatype Entry = Entry(id: nat, rule: Rule)

  type File = seq<Entry>

  function Flat(files: seq<File>): seq<Entry> {
    if files == [] then [] else Flat(files[..|files| - 1]) + files[|files| - 1]
  }

  ghost predicate Increasing(entries: seq<Entry>) {
    forall i, j :: 0 <= i < j < |entries| ==> entries[i].id < entries[j].id
  }

  /** The entries are rules of m. */
  ghost predicate From(entries: seq<Entry>, m: Rules) {
    forall i :: 0 <= i < |entries| ==> entries[i].id in m && m[entries[i].id] == entries[i].rule
  }

  ghost function IdsIn(entries: seq<Entry>): set<nat> {
    set i | 0 <= i < |entries| :: entries[i].id
  }

  ghost predicate FullFiles(files: seq<File>) {
    forall i :: 0 <= i < |files| ==> |files[i]| == MAX_RULES_PER_FILE
  }

  /** Every file has 32 rules but the last, which has 1 to 32. */
  ghost predicate Filled(files: seq<File>) {
    forall i :: 0 <= i < |files| ==> 0 < |files[i]| <= 32 && (i < |files| - 1 ==> |files[i]| == 32)
  }

  // ---------- Export ----------

  lemma AppendEntry(entries: seq<Entry>, e: Entry, m: Rules)
    requires Increasing(entries) && From(entries, m)
    requires e.id in m && m[e.id] == e.rule && forall i :: 0 <= i < |entries| ==> entries[i].id < e.id
    ensures Increasing(entries + [e]) && From(entries + [e], m) && IdsIn(entries + [e]) == IdsIn(entries) + {e.id}
  {
    var all := entries + [e];
    assert all[|entries|] == e && forall i :: 0 <= i < |entries| ==> all[i] == entries[i];
    assert forall i :: i in IdsIn(entries) ==> i in IdsIn(all) by {
      forall x | x in IdsIn(entries) ensures x in IdsIn(all) {
        var i :| 0 <= i < |entries| && entries[i].id == x;
        assert all[i].id == x;
      }
    }
  }

  lemma FlatAppend(files: seq<File>, file: File)
    ensures Flat(files + [file]) == Flat(files) + file
  {
    assert (files + [file])[..|files|] == files;
  }

  lemma FlatNext(files: seq<File>, f: nat)
    requires f < |files|
    ensures Flat(files[..f + 1]) == Flat(files[..f]) + files[f]
  {
    assert files[..f + 1][..f] == files[..f];
  }

  /** The entries list, in increasing order, the rules of m with an id below `next` (all when it is 0). */
  ghost predicate Listing(m: Rules, entries: seq<Entry>, next: nat) {
    && Increasing(entries) && From(entries, m)
    && (next != 0 ==> next in m)
    && forall o :: o in IdsIn(entries) <==> o in m && (next == 0 || o < next)
  }

  lemma ListingNext(m: Rules, entries: seq<Entry>, id: nat, next: nat)
    requires Listing(m, entries, id) && id in m && id != 0
    requires if next == 0 then forall o :: o in m ==> o <= id
             else next in m && next > id && forall o :: id < o < next ==> o !in m
    ensures Listing(m, entries + [Entry(id, m[id])], next)
  {
    assert forall i :: 0 <= i < |entries| ==> entries[i].id in IdsIn(entries);
    AppendEntry(entries, Entry(id, m[id]), m);
  }

  /** Reads the rule of a configured id and finds the next one. */
  method ReadAndAdvance(store: Store, id: nat, ghost listed: seq<Entry>) returns (entry: Entry, next: nat)
    requires store.Valid() && id != 0 && Listing(store.Rules(), listed, id)
    ensures Listing(store.Rules(), listed + [entry], next) && (next == 0 || id < next <= MAX_RULE_PER_GROUP)
  {
    store.WellFormed();
    var read := store.GetRule(MAX_RULE_GROUP_CNT, id);
    var rule := read.value;
    next := store.FindNextRule(MAX_RULE_GROUP_CNT, id);
    entry := Entry(id, rule);
    ListingNext(store.Rules(), listed, id, next);
  }

  method FirstId(store: Store) returns (id: nat)
    requires store.Valid()
    ensures Listing(store.Rules(), [], id) && id <= MAX_RULE_PER_GROUP
  {
    store.WellFormed();
    assert forall o :: o in store.Rules() ==> o > 0;
    id := store.FindNextRule(MAX_RULE_GROUP_CNT, 0);
    assert IdsIn([]) == {};
  }

  /** Writes every rule, in increasing order of id, to files of at most MAX_RULES_PER_FILE rules. */
  method Save(store: Store) returns (files: seq<File>)
    requires store.Valid()
    ensures Filled(files)
    ensures Increasing(Flat(files)) && IdsIn(Flat(files)) == store.Rules().Keys && Covers(files, store.Rules())
  {
    hide FullFiles, Filled;
    ghost var m := store.Rules();
    files := [];
    var current: File := [];
    FullIsFilled(files);
    var id := FirstId(store);
    ghost var listed: seq<Entry> := [];
    while id != 0
      invariant FullFiles(files) && Filled(files) && |current| < MAX_RULES_PER_FILE && id <= MAX_RULE_PER_GROUP
      invariant listed == Flat(files) + current && Listing(m, listed, id)
      decreases if id == 0 then 0 else MAX_RULE_PER_GROUP + 1 - id
    {
      var entry, next := ReadAndAdvance(store, id, listed);
      Appended(Flat(files), current, entry);
      listed := listed + [entry];
      current := current + [entry];
      id := next;
      if |current| >= MAX_RULES_PER_FILE {
        files := Flush(files, current);
        FullIsFilled(files);
        current := [];
      }
    }
    if |current| > 0 {
      files := Flush(files, current);
    }
    assert Flat(files) == listed;
    ListingCovers(m, files);
  }

  lemma Appended(a: seq<Entry>, b: seq<Entry>, e: Entry)
    ensures a + b + [e] == a + (b + [e]) && a + b + [] == a + b
  {
  }

  lemma FullIsFilled(files: seq<File>)
    ensures FullFiles(files) ==> Filled(files)
    ensures files == [] ==> FullFiles(files)
  {
  }

  /** Closes a file. */
  method Flush(files: seq<File>, current: File) returns (more: seq<File>)
    requires FullFiles(files) && 0 < |current| <= MAX_RULES_PER_FILE
    ensures Filled(more) && (|current| == MAX_RULES_PER_FILE ==> FullFiles(more))
    ensures Flat(more) == Flat(files) + current == Flat(more) + []
  {
    FlatAppend(files, current);
    more := files + [current];
  }

  lemma ListingCovers(m: Rules, files: seq<File>)
    requires Listing(m, Flat(files), 0)
    ensures Covers(files, m) && IdsIn(Flat(files)) == m.Keys
  {
    FlatCovers(files, m);
    forall o | o in m ensures exists f :: 0 <= f < |files| && o in IdsIn(files[f]) {
      FlatIds(files, o);
    }
  }

  // ---------- Import ----------

  ghost predicate Submap(a: Rules, b: Rules) {
    forall id :: id in a ==> id in b && b[id] == a[id]
  }

  lemma PartHasRoom(part: Rules, m: Rules, id: nat)
    requires Submap(part, m) && id in m && id !in part
    ensures |Ids(part, m[id].v6)| < |Ids(m, m[id].v6)|
  {
    var v6 := m[id].v6;
    assert Ids(part, v6) + {id} <= Ids(m, v6);
    SubsetSize(Ids(part, v6) + {id}, Ids(m, v6));
  }

  lemma PartOwner(part: Rules, m: Rules, id: nat)
    requires Injective(m) && Submap(part, m) && id in m && id != 0
    ensures Owner(part, m[id]) == if id in part then id else 0
  {
  }

  /** PUT of a rule of m into a part of m always succeeds: it is neither full nor a duplicate. */
  lemma PutOfPart(part: Rules, m: Rules, e: Entry)
    requires RulesOk(m) && Submap(part, m) && e.id in m && m[e.id] == e.rule
    ensures Place(part, e.id, e.rule) == (part[e.id := e.rule], 0)
    ensures Submap(part[e.id := e.rule], m)
  {
    PartOwner(part, m, e.id);
    if e.id in part {
      assert part[e.id := e.rule] == part;
    } else {
      PartHasRoom(part, m, e.id);
    }
  }

  /** The store has moved from a part of m to that part and the rules of the entries. */
  ghost predicate Loaded(start: Rules, now: Rules, entries: seq<Entry>, m: Rules) {
    Submap(now, m) && now.Keys == start.Keys + IdsIn(entries)
  }

  lemma NothingLoaded(start: Rules, m: Rules, files: seq<File>)
    requires Submap(start, m)
    ensures Loaded(start, start, [], m) && Flat(files[..0]) == []
  {
    assert IdsIn([]) == {} && files[..0] == [];
  }

  lemma LoadedNext(start: Rules, now: Rules, entries: seq<Entry>, e: Entry, m: Rules)
    requires Loaded(start, now, entries, m) && Submap(now[e.id := e.rule], m)
    ensures Loaded(start, now[e.id := e.rule], entries + [e], m)
  {
    var all := entries + [e];
    assert all[|entries|] == e && forall i :: 0 <= i < |entries| ==> all[i] == entries[i];
    assert IdsIn(all) == IdsIn(entries) + {e.id} by {
      forall x | x in IdsIn(entries) ensures x in IdsIn(all) {
        var i :| 0 <= i < |entries| && entries[i].id == x;
        assert all[i].id == x;
      }
      assert all[|entries|].id in IdsIn(all);
    }
  }

  /** One rule of a file: the request item it becomes. */
  function ItemOf(e: Entry): Item
    requires ValidRule(e.rule)
  {
    Item(Group(MAX_RULE_GROUP_CNT), Decimal(e.id), Convertible(e.rule.v6, InputOf(e.rule)))
  }

  lemma LoadHandled(part: Rules, m: Rules, e: Entry)
    requires RulesOk(m) && Submap(part, m) && e.id in m && m[e.id] == e.rule
    ensures Handled(part, ItemOf(e), false) == (part[e.id := e.rule], true)
    ensures Submap(part[e.id := e.rule], m)
  {
    PutOfPart(part, m, e);
    hide Place;
  }

  /** Imports one entry. */
  method LoadEntry(store: Store, e: Entry, ghost m: Rules) returns (ok: bool)
    requires store.Valid() && RulesOk(m) && Submap(store.Rules(), m) && e.id in m && m[e.id] == e.rule
    modifies store`chains, store.footprint
    ensures store.Valid() && ok && store.Rules() == old(store.Rules())[e.id := e.rule] && Submap(store.Rules(), m)
  {
    LoadHandled(store.Rules(), m, e);
    hide Handled, RulesOk, ItemOf, StoreFacts, RulesIn, Submap;
    var raised;
    ok, raised := TryItem(store, ItemOf(e), false);
  }

  /** Imports one file after entries `done`. */
  method LoadFile(store: Store, file: File, ghost start: Rules, ghost done: seq<Entry>, ghost m: Rules) returns (ok: bool)
    requires store.Valid() && RulesOk(m) && Loaded(start, store.Rules(), done, m) && From(file, m)
    modifies store`chains, store.footprint
    ensures store.Valid() && ok && Loaded(start, store.Rules(), done + file, m)
  {
    ok := true;
    assert done + file[..0] == done;
    for i := 0 to |file|
      invariant store.Valid() && ok && Loaded(start, store.Rules(), done + file[..i], m)
    {
      LoadedNextAt(start, store.Rules(), done, file, i, m);
      var stored := LoadEntry(store, file[i], m);
      ok := ok && stored;
    }
    assert file[..|file|] == file;
  }

  lemma LoadedNextAt(start: Rules, now: Rules, done: seq<Entry>, file: File, i: nat, m: Rules)
    requires RulesOk(m) && From(file, m) && i < |file| && Loaded(start, now, done + file[..i], m)
    ensures Loaded(start, now[file[i].id := file[i].rule], done + file[..i + 1], m)
  {
    PutOfPart(now, m, file[i]);
    LoadedNext(start, now, done + file[..i], file[i], m);
    assert done + file[..i] + [file[i]] == done + file[..i + 1];
  }

  /** Imports files by PUT. Whatever their order and the order inside them: if they hold rules of one
      well-formed map m, of which the store already has a part, no rule fails and the store ends with
      exactly that part and the rules of the files. */
  method Load(store: Store, files: seq<File>, ghost m: Rules) returns (ok: bool)
    requires store.Valid() && RulesOk(m) && Submap(store.Rules(), m)
    requires forall f :: 0 <= f < |files| ==> From(files[f], m)
    modifies store`chains, store.footprint
    ensures store.Valid() && ok && Loaded(old(store.Rules()), store.Rules(), Flat(files), m)
  {
    ok := true;
    ghost var start: Rules, done: seq<Entry> := store.Rules(), [];
    NothingLoaded(start, m, files);
    hide From, Submap, Loaded, RulesOk, Flat;
    for f := 0 to |files|
      invariant ok && done == Flat(files[..f])
      invariant store.Valid() && Loaded(start, store.Rules(), done, m)
    {
      var loaded := LoadFile(store, files[f], start, done, m);
      ok := ok && loaded;
      done := done + files[f];
      FlatNext(files, f);
    }
    assert files[..|files|] == files;
  }

  /** The same rules in any files: each file holds rules of m and every rule of m is in some file. */
  ghost predicate Covers(files: seq<File>, m: Rules) {
    && (forall f :: 0 <= f < |files| ==> From(files[f], m))
    && (forall o :: o in m ==> exists f :: 0 <= f < |files| && o in IdsIn(files[f]))
  }

  lemma {:induction false} FlatIds(files: seq<File>, x: nat)
    ensures x in IdsIn(Flat(files)) <==> exists f :: 0 <= f < |files| && x in IdsIn(files[f])
  {
    if files != [] {
      var front, last := files[..|files| - 1], files[|files| - 1];
      FlatIds(front, x);
      IdsInConcat(Flat(front), last);
      assert forall f :: 0 <= f < |front| ==> front[f] == files[f];
    }
  }

  lemma IdsInConcat(a: seq<Entry>, b: seq<Entry>)
    ensures IdsIn(a + b) == IdsIn(a) + IdsIn(b)
  {
    forall x | x in IdsIn(a) + IdsIn(b) ensures x in IdsIn(a + b) {
      if x in IdsIn(a) {
        var i :| 0 <= i < |a| && a[i].id == x;
        assert (a + b)[i].id == x;
      } else {
        var i :| 0 <= i < |b| && b[i].id == x;
        assert (a + b)[|a| + i].id == x;
      }
    }
    forall x | x in IdsIn(a + b) ensures x in IdsIn(a) + IdsIn(b) {
      var i :| 0 <= i < |a + b| && (a + b)[i].id == x;
      assert (a + b)[i] == if i < |a| then a[i] else b[i - |a|];
    }
  }

  /** What an export writes covers the map, and so does any rearrangement of it. */
  lemma {:induction false} FlatCovers(files: seq<File>, m: Rules)
    requires From(Flat(files), m)
    ensures forall f :: 0 <= f < |files| ==> From(files[f], m)
  {
    if files != [] {
      var front, last := files[..|files| - 1], files[|files| - 1];
      assert forall i :: 0 <= i < |Flat(front)| ==> Flat(files)[i] == Flat(front)[i];
      assert forall i :: 0 <= i < |last| ==> Flat(files)[|Flat(front)| + i] == last[i];
      FlatCovers(front, m);
      assert forall f :: 0 <= f < |front| ==> front[f] == files[f];
    }
  }

  /** Loading any files that cover m, in any order, into a store with a part of m gives m: into an empty
      store it rebuilds m, into a store that has m it changes nothing. */
  lemma LoadedCover(start: Rules, now: Rules, files: seq<File>, m: Rules)
    requires Covers(files, m) && Submap(start, m) && Loaded(start, now, Flat(files), m)
    ensures now == m
  {
    forall o | o in m ensures o in now {
      FlatIds(files, o);
    }
    assert now.Keys == m.Keys;
  }

  /** Imports files that cover what `source` holds, such as its export in any order, into a store that
      is empty or already holds the same rules. */
  method Restore(source: Store, target: Store, files: seq<File>) returns (ok: bool)
    requires source.Valid() && target.Valid()
    requires target.Rules() == map[] || target.Rules() == source.Rules()
    requires Covers(files, source.Rules())
    modifies target`chains, target.footprint
    ensures target.Valid() && ok && target.Rules() == old(source.Rules())
  {
    ghost var m, start := source.Rules(), target.Rules();
    source.WellFormed();
    ok := Load(target, files, m);
    LoadedCover(start, target.Rules(), files, m);
  }
}
