# Tapplet: rule store, classifier, scheduler and shared memory

Tapplet is a traffic tap. Users give it packet rules over REST; the rules live in shared memory, a VPP
process builds a classifier table from them and its workers classify packets with it, count hits and
hand packets to actions, some of which balance load over several interfaces. This project models the
parts of that path that carry state or arithmetic and proves what they promise.

One module per component:

* `Words`, `Options`, `Crc32` – words as naturals with bitwise operations by halving, 32-bit wrap-around;
  optional values; the checksum that hashes rules,
  slicing by four tables against the bit-serial definition (section 8 of RFC 1952).
* `SlotBitmap`, `HashChains`, `RuleHash` – the slot allocator, the bucketed doubly linked chains and the
  content key of a rule.
* `RuleMap` – what a user sees: a finite map from outer id to rule, with POST, PUT and DELETE on it.
* `TupleTable`, `StoreState`, `RuleStore` – the shared arrays that implement that map, their invariant, and
  the operations that keep it.
* `RuleBatch`, `RuleTransfer` – batch requests with rollback; export to files and import.
* `Prefix`, `Classifier` – prefixes split over 32-bit words; from the store to the table to the answer.
* `GracePeriod`, `TableLoads`, `SyncFlag` – swapping and freeing the table while workers use it; the workers'
  two reads of the table pointer; the flag by which the REST process and VPP coordinate a sync.
* `Weights`, `Wrr`, `WrrFairness` – gcd and maximum of the weights; the weighted round-robin scheduler; when
  it is exactly fair.
* `Registrations`, `ShmLayout`, `ConfigFile`, `ConfigTransfer` – arranging, laying out, saving and loading
  the segment; carrying a configuration from one build to another.
* `HitStats` – 32-bit hit counters and the 64-bit totals synced from them.

Code that changes memory step by step is modelled by classes over arrays and by methods with loops; each
is proved against a function or predicate on values, and the promises are lemmas about those. The two
protocols between threads and processes are state machines whose steps are single reads, writes and lock
operations, in sequentially consistent order.

## Where the code does not do what it promises

The conditions below are exact, for all inputs, unless they say "only"; each failure is also shown at a
concrete input.

* **Freeing a hash node.** `acl_hash_free` (`nshell-lib/sf_plugin_api/sf_acl_hash.c:132-133`, `136-137`,
  `147`) takes both neighbours from `hash_prev`, clears `hash_prev` twice and writes the predecessor's
  `hash_prev`. `HashChains.HashTable.Free` is the repaired operation, with the repaired lines marked, and
  the store uses it. `HashTable.FreeAsWritten` is the literal one: it unlinks a slot exactly when both of
  the slot's links are 0 (`HashChains.AsWrittenUnlinksIffAlone`), and otherwise leaves a table that is in
  order under no assignment of chains at all (`TupleTable.AsWrittenKeepsIffAlone`). Any two rules in one
  bucket show it (`TupleTable.TwoBreak`), and a family with more rules than the 256 buckets always has such
  a rule (`StoreState.CrowdedFamilyBreaks`).
* **Atomic batches.** An atomic POST undoes its work when an item is refused, but not when converting an
  item raises an exception. On a given store it is all or nothing exactly when it does not raise after
  creating a rule (`RuleBatch.AllOrNothingIff`). On every store, and already on the empty one, it is so
  exactly when no item that raises stands behind a non-empty run of well-formed items with distinct ids and
  distinct rules, no more of a family than it has slots (`AllOrNothingEverywhereIff`; a request that is not
  in `IllTypedLeavesHalf`).
* **Full stores.** PUT takes a new slot before it gives up the old one. It answers "full" where deleting the
  id and POSTing would succeed exactly when the rule is new, its family is full and the id holds a rule of
  that family (`RuleMap.RefusedInVainIff`; a full store in `RefusesInVain`).
* **IPv4 rules and IPv6 packets.** The IP version is not a field of the classifier. An IPv6 packet meets an
  IPv4 rule exactly when the last twelve bytes of both its addresses are zero and the IPv4 packet with the
  first four meets it (`Classifier.Rule4Packet6Iff`; a packet in `MeetsAcross`), and no table tells those two
  packets apart (`FamiliesCoincide`).
* **The table pointer is read twice.** A worker can find a table in its first read and load none in its
  second. For a given sequence of sync steps some interleaving does that to a given worker exactly when a
  table was built and a later sync found no rules (`TableLoads.LoadsNoneIff`; a run in
  `GracePeriod.MayLoadNone`).
* **Sync count.** It is incremented and then masked in two steps on a signed `int`. It leaves [0, 2^31)
  exactly when a restart, or a wipe and restore, falls between the two steps of an update whose increment is
  negative (`SyncFlag.LeavesRangeIff`), the first time from 2^31-1 (`FirstTear`). Every negative `int` can be
  reached at rest that way, and no run leaves the `int`s (`RestingCounts`).
* **Fair shares.** A configured action serves every index exactly its share, in every cycle of calls and for
  ever, exactly when the largest weight and the gcd together fit an `int` or all weights are equal
  (`WrrFairness.FairForEverIff`). Otherwise the threshold wraps, leaves its schedule
  (`Wrr.FollowsScheduleIff`), and the indices take turns for a while. The REST validation only asks for
  positive weights; 3:1 times 2^29 are served 2:2 in the second cycle (`Wrr.UnfairWhenWrapped`).
* **Stored weights.** REST checks Python integers and stores C ints. The stored weights are positive exactly
  when the low 32 bits of each number are (`Weights.StoredPositiveIff`); 4294967296 is accepted and stored as
  0 (`AcceptedNotPositive`). Configuring the action divides by 0 exactly when a first stored weight of 0 is
  followed by another (`Wrr.Balancer.PutAction`), and a division overflows only with a stored -2^31.
* **Segments of 4 GiB.** The lengths of the regions are added in 32 bits when the segment is created and
  again when it is divided. The segment has the length its layout needs and no offset wraps exactly when the
  layout fits 32 bits (`ShmLayout.FitsIff`); a wrapped one can be refused (`OverrunsWhenWrapped`).
* **End of the configuration.** The recorded end doubles as its own "not yet set" mark, so it is wrong for
  some segments with a single configuration byte or without statistics (`ShmLayout.ConfigEndIff`). With one
  configuration byte it moves with the link order of the statistics (`EndMovesWithLinkOrder`).
* **Loading longer files.** Loading copies whole blocks, so a file longer than the configuration can
  overwrite bytes behind it (`ConfigFile.WritesOnlyConfigIff`; a file in `LongerFileOverwrites`).
* **Syncing counters.** A sync reads a counter twice, and its difference is of 32 bits. If every hit of a rule
  is accounted for, it is so after the sync exactly when the hits between the two reads and the full rounds of
  2^32 before them are together a multiple of 2^64 (`HitStats.SyncCountsAllIff`; a lost hit in
  `RacedHitIsLost`).

## Model

| member | source | states |
|---|---|---|
| Crc32.Generate | nshell-lib/include/sf_crc_nshell.h:34-74 | for byte strings of every length the table-driven routine computes the bit-serial reflected CRC-32, as a 32-bit word; start and end values are fixed by the next two rows |
| Crc32.FourZeros | nshell-lib/include/sf_crc_nshell.h:34-74 | the checksum of four zero bytes is 0x2144DF1C |
| Crc32.ChecksumOfChecked | nshell-lib/include/sf_crc_nshell.h:34-74 | every message followed by its own checksum, low byte first, has the checksum 0x2144DF1C |
| Crc32.WordUpdateIsClock | nshell-lib/include/sf_crc_nshell.h:52-57 | four table look-ups on register and word are thirty-two clock ticks of the register |
| Crc32.ClockWordIsSerial | nshell-lib/include/sf_crc_nshell.h:42-61 | those ticks are feeding the word's four bytes bit by bit |
| Crc32.ClockLinear | nshell-lib/sf_plugin_api/sf_acl_hash.c:175-183 | clocking distributes over exclusive or, which is what makes tables possible |
| Crc32.TableIsClock | nshell-lib/sf_plugin_api/sf_acl_hash.c:191-328 | the recurrence of the tables gives, for table k and byte i, i clocked 8(k+1) times |
| Crc32.TableLiterals | nshell-lib/sf_plugin_api/sf_acl_hash.c:191-328 | the entries of table 0 for the eight single bits, which fix polynomial and bit order |
| Crc32.TableLinear | nshell-lib/sf_plugin_api/sf_acl_hash.c:175-183 | every entry of every table is the exclusive or of the entries of its bits |
| SlotBitmap.Bitmap.FirstUnused | nshell-lib/sf_plugin_api/sf_acl_tuple_api.c:285-336 | the least free slot, or 0 exactly when all slots are used |
| SlotBitmap.Bitmap.SetUsed | nshell-lib/sf_plugin_api/sf_acl_tuple_api.c:338-355 | adds exactly this slot to the used ones |
| SlotBitmap.Bitmap.UnsetUsed | nshell-lib/sf_plugin_api/sf_acl_tuple_api.c:357-373 | removes exactly this slot from the used ones |
| HashChains.HashTable.Find | nshell-lib/sf_plugin_api/sf_acl_hash.c:59-91 | a slot of the bucket's chain with the key, or 0 exactly when no slot of the chain has it; the early exit on a zero count is sound |
| HashChains.HashTable.Insert | nshell-lib/sf_plugin_api/sf_acl_hash.c:93-123 | links become those of a push in front of the bucket's chain, count saturating |
| HashChains.HashTable.Free | nshell-lib/sf_plugin_api/sf_acl_hash.c:126-166 | repaired: links become those of the chain without the slot |
| HashChains.HashTable.FreeAsWritten | nshell-lib/sf_plugin_api/sf_acl_hash.c:126-166 | the literal operation |
| HashChains.PushKeeps | nshell-lib/sf_plugin_api/sf_acl_hash.c:93-123 | a push keeps all chains doubly linked, acyclic, disjoint and counted |
| HashChains.UnlinkKeeps | nshell-lib/sf_plugin_api/sf_acl_hash.c:126-166 | so does the repaired unlinking, for a slot anywhere in its chain |
| HashChains.CountsFollow | nshell-lib/sf_plugin_api/sf_acl_hash.c:93-166 | a bucket's count follows its chain up to 255 and then stays, no other count changes, and a slot that left has links 0 |
| HashChains.AsWrittenUnlinksIffAlone | nshell-lib/sf_plugin_api/sf_acl_hash.c:132-147 | the literal unlinking gives the remaining chain iff the slot's two links are 0 |
| RuleHash.SameBytesIffSameRule | nshell-lib/sf_plugin_api/sf_acl_tuple_api.c:52-61 | comparing the stored bytes is comparing the rules |
| RuleHash.KeyIs | src/acl/include/sf_acl_shm.h:83-112 | what each byte of the structure is: the ports low byte first, protocols, mask lengths, source, destination |
| RuleHash.Index | nshell-lib/sf_plugin_api/sf_acl_hash.c:30-33 | the checksum routine gives the bucket: the reference checksum of the bytes modulo 256 |
| RuleHash.NewStore | nshell-lib/sf_plugin_api/sf_acl_api.c:44-79 | a zeroed store is valid under the checksum hash and stands for the empty map |
| RuleMap.InputOf | nshell-lib/sf_plugin_api/sf_acl_tuple_api.c:593-645 | reading a rule back gives an input that is accepted and gives the same rule; which input field means what is in `Classifier.InputPackets4` and `6` |
| RuleMap.ReadsBack | nshell-lib/sf_plugin_api/sf_acl_tuple_api.c:593-645 | what was stored reads back as the input it came from |
| RuleMap.TryMeans | nshell-lib/sf_plugin_api/sf_acl_tuple_api.c:716-808 | POST and PUT on every well-formed map: code 0 puts the input's rule under the id and changes no other id; any other code changes nothing; exactly when each of -2 to -5 is answered; a positive code is the other id that has the rule |
| RuleMap.DeleteMeans | nshell-lib/sf_plugin_api/sf_acl_api.c:179-223 | DELETE likewise: exactly when -1, -2 and 0, and what changes |
| RuleMap.TryKeeps | nshell-lib/sf_plugin_api/sf_acl_tuple_api.c:716-808 | POST and PUT keep the map injective, in range and within the slots |
| RuleMap.DeleteKeeps | nshell-lib/sf_plugin_api/sf_acl_api.c:179-223 | so does DELETE |
| RuleMap.DeleteUndoesPost | nshell-lib/sf_plugin_api/sf_acl_api.c:179-223 | deleting what a POST created restores the map |
| RuleMap.RefusedInVainIff | nshell-lib/sf_plugin_api/sf_acl_tuple_api.c:762-805 | PUT answers "full" where DELETE and then POST would succeed, iff the rule is new, its family full and the id holds a rule of that family |
| RuleMap.RefusesInVain | nshell-lib/sf_plugin_api/sf_acl_tuple_api.c:762-805 | such a PUT on a store with 2048 IPv4 rules |
| TupleTable.WriteKeeps | nshell-lib/sf_plugin_api/sf_acl_tuple_api.c:518-591 | writing the configuration of a free slot keeps the table in order |
| TupleTable.OccupyKeeps | nshell-lib/sf_plugin_api/sf_acl_tuple_api.c:803-805 | occupying a slot keeps: used iff in its own key's chain iff owned, no two used slots alike |
| TupleTable.ReleaseKeeps | nshell-lib/sf_plugin_api/sf_acl_tuple_api.c:811-842 | so does releasing one |
| TupleTable.AsWrittenKeepsIffAlone | nshell-lib/sf_plugin_api/sf_acl_hash.c:132-147 | releasing with the literal free leaves a table in order, under any chains whatever, iff the slot was alone in its bucket |
| TupleTable.TwoBreak | nshell-lib/sf_plugin_api/sf_acl_hash.c:132-147 | a table in order with any two rules that share a bucket, from which the literal free leaves no table in order |
| TupleTable.CrowdedBreaks | nshell-lib/sf_plugin_api/sf_acl_hash.c:132-147 | so does every table with more rules than buckets, for some slot |
| StoreState.FoundIsOwner | nshell-lib/sf_plugin_api/sf_acl_tuple_api.c:777-792 | a slot found by content has a non-zero outer id, the one that holds the rule, so the branch that reuses a found slot is never taken |
| StoreState.NotFoundIsNew | nshell-lib/sf_plugin_api/sf_acl_tuple_api.c:760 | a rule not found by content is stored under no id |
| StoreState.AsManyIdsAsSlots | nshell-lib/sf_plugin_api/sf_acl_tuple_api.c:680-712 | the two maps are inverse bijections between a family's ids and its used slots |
| StoreState.FullIff | nshell-lib/sf_plugin_api/sf_acl_tuple_api.c:285-336 | no slot is free iff the map has as many rules of the family as there are slots |
| StoreState.CrowdedFamilyBreaks | nshell-lib/sf_plugin_api/sf_acl_tuple_api.c:811-842 | every store with more than 256 rules of a family has an id whose deletion with the literal free breaks that family's table |
| StoreState.RulesInOk | nshell-lib/sf_plugin_api/sf_acl_tuple_api.c:680-808 | a store in order stands for a well-formed map |
| RuleStore.Store.TryMapNewRule | nshell-lib/sf_plugin_api/sf_acl_tuple_api.c:716-808 | keeps the store in order, for every argument; code 0: the id holds the input's rule and every other id what it held; other codes: nothing has changed; each code's condition on the old map; a positive code is the other id that has the rule |
| RuleStore.Store.DeleteOldMap | nshell-lib/sf_plugin_api/sf_acl_api.c:179-223 | keeps the store in order; exactly when -1, -2 and 0, and with 0 the id is gone and every other id as before |
| RuleStore.Store.FindActual | nshell-lib/sf_plugin_api/sf_acl_tuple_api.c:113-123 | the used slot of the family that holds the content, or 0 when none does |
| RuleStore.Store.FindNextRule | nshell-lib/sf_plugin_api/sf_acl_api.c:323-359 | the least configured id above the given one, or 0 |
| RuleStore.Store.GetRule | nshell-lib/sf_plugin_api/sf_acl_tuple_api.c:647-677 | the map's rule of an id, and none for any group or id out of range or without a rule |
| RuleStore.Store.RuleType | nshell-lib/sf_plugin_api/sf_acl_api.c:160-176 | the family of an id's rule, none, or -1 out of range |
| RuleBatch.StepMeans | rest/tapplet/acl_handler.py:194-308 | which items reach the store, and with which id and rule, and which raise |
| RuleBatch.StopAtMeans | rest/tapplet/acl_handler.py:194-277 | items before the stop all create, the one at the stop does not |
| RuleBatch.PostedAdds | rest/tapplet/acl_handler.py:194-277 | a run of creating items keeps every old rule and adds one rule per item under ids that were free |
| RuleBatch.PostUntilFailure | rest/tapplet/acl_handler.py:194-277 | the loop creates exactly the items before the stop |
| RuleBatch.RollBack | rest/tapplet/acl_handler.py:325-347 | deleting the created items restores the map before the request |
| RuleBatch.PostAtomic | rest/tapplet/acl_handler.py:279-347 | for every list of items on every store: success iff all items fit the store, and then each rule is added under its free id; failure, and then the map is as before; an exception iff an ill-typed item stands behind items that fit, and then exactly those were added |
| RuleBatch.OutcomeMeans | rest/tapplet/acl_handler.py:194-347 | the same of the specification: well-formed items with distinct free ids and distinct new rules, no more than the slots left, are all added; nothing else succeeds |
| RuleBatch.AllOrNothingIff | rest/tapplet/acl_handler.py:194-347 | all or nothing iff the request does not raise after creating a rule |
| RuleBatch.AllOrNothingEverywhereIff | rest/tapplet/acl_handler.py:194-347 | on every store, and already on the empty one, iff no item that raises stands behind a non-empty run of well-formed items with distinct ids and rules that fit the slots |
| RuleBatch.WellTypedAllOrNothing | rest/tapplet/acl_handler.py:194-347 | a well-typed batch is all or nothing on every store |
| RuleBatch.IllTypedLeavesHalf | rest/tapplet/acl_handler.py:194-347 | a request that is neither |
| RuleTransfer.Save | rest/tapplet/sys_conf/conf_acl.py:43-88 | files of 32 rules, only the last with fewer, that list every rule once, in increasing order of id |
| RuleTransfer.PutOfPart | nshell-lib/sf_plugin_api/sf_acl_tuple_api.c:716-808 | PUT of a rule of a map into a part of it is neither full nor a duplicate |
| RuleTransfer.Load | rest/tapplet/sys_conf/conf_acl.py:17-41 | files of rules of one map, in any order, into a store with part of it: no failure, and exactly their rules are added |
| RuleTransfer.LoadedCover | rest/tapplet/sys_conf/conf_acl.py:17-88 | if the files cover the map the result is the map |
| RuleTransfer.Restore | rest/tapplet/sys_conf/conf_acl.py:17-88 | an export imported in any order into an empty store rebuilds the map, into the exporting state changes nothing |
| Prefix.SplitKeepsPrefix | src/acl/other/acl_tuple_sync.c:205-230 | matching word by word with the split lengths is matching the /n prefix of the whole address (section 2.3 of RFC 4291), for every n and both directions |
| Prefix.WordsAreBytes | src/acl/other/acl_tuple_sync.c:212-215 | the words read in network order are the address |
| Prefix.PrefixIsBits | src/acl/other/acl_tuple_sync.c:205-230 | being in a /n prefix is sharing the first n bits, from the high bit of the first byte on |
| Classifier.TransTuple4 | src/acl/other/acl_tuple_sync.c:141-184 | every field of the translated IPv4 rule |
| Classifier.TransTuple6 | src/acl/other/acl_tuple_sync.c:185-231 | every field of the translated IPv6 rule; the lengths used up word by word are the shares of the prefix |
| Classifier.Address4Means | src/acl/other/acl_tuple_sync.c:141-184 | the IPv4 fields match exactly an embedded IPv4 prefix with three zero words |
| Classifier.Address6Means | src/acl/other/acl_tuple_sync.c:185-231 | the IPv6 fields match exactly the /n prefix of the 128-bit address |
| Classifier.TranslationMeans | src/acl/other/acl_tuple_sync.c:141-231 | a translated rule matches a packet iff the packet meets the rule |
| Classifier.OwnPackets4 | src/sf_lib/sf_net/new_pkt_wdata.h:148-161 | an IPv4 packet meets an IPv4 rule iff its addresses are in the rule's prefixes and protocol and ports in range |
| Classifier.OwnPackets6 | src/sf_lib/sf_net/new_pkt_wdata.h:162-180 | the same for IPv6 |
| Classifier.InputPackets4 | nshell-lib/sf_plugin_api/sf_acl_tuple_api.c:460-495 | the rule stored for an IPv4 input is met by exactly the packets whose source shares the first bits of the input's source, whose destination those of its destination, with protocol and ports in its ranges |
| Classifier.InputPackets6 | nshell-lib/sf_plugin_api/sf_acl_tuple_api.c:460-495 | the same for IPv6 |
| Classifier.AcceptedIff | nshell-lib/sf_plugin_api/sf_acl_tuple_api.c:385-450 | an input is accepted iff its addresses are of the family it names and some packet is in its nets and ranges |
| Classifier.Rule4Packet6Iff | src/acl/other/acl_tuple_sync.c:141-184 | an IPv6 packet meets an IPv4 rule iff its addresses end in twelve zero bytes and the IPv4 packet with their first four meets it |
| Classifier.FamiliesCoincide | src/acl/other/acl_tuple_sync.c:38-121 | an IPv4 packet and the IPv6 packet with zeros behind its addresses get the same answers from every table |
| Classifier.MeetsAcross | src/acl/other/acl_tuple_sync.c:141-184 | an IPv6 packet that meets an IPv4 rule |
| Classifier.TableAddRules | src/acl/other/acl_tuple_sync.c:261-323 | never fails; the table holds exactly the translations of the store's rules, the count is their number, 0 iff there are none |
| Classifier.ClassifiesFirstMatch | src/acl/include/acl_rte_def.h:25 | an answer of such a table is the smallest outer id whose rule the packet meets, and 0 iff it meets none |
| Classifier.TableSetup | src/acl/other/acl_tuple_sync.c:331-417 | a new table that represents the rules, none exactly when there are no rules, -1 exactly when the library fails |
| Classifier.SyncRules | src/acl/other/acl_tuple_sync.c:434-492 | after a successful sync the live table stands for the store's rules; a failed one changes neither table nor next name |
| Classifier.WorkersFirstMatch | src/acl/nodes/acl_entry.c:88-100 | with such a live table a worker's answer other than 0 is the smallest outer id whose rule the packet meets, and 0 is an answer iff it meets none |
| GracePeriod.EveryRunIsSafe | src/acl/other/acl_tuple_sync.c:419-489 | in every run, with any number of workers, no worker classifies with a freed table; at most two contexts exist; at rest exactly the live one or none; unless the sync is passing the locks every worker classifies with the live table or none |
| GracePeriod.NamesNeverClash | src/acl/other/acl_tuple_sync.c:349-352 | in every run the next name is the name of no context that exists |
| GracePeriod.WorkerStepKeeps | src/acl/nodes/acl_entry.c:97-248 | what the worker steps keep |
| GracePeriod.BuildStepKeeps | src/acl/other/acl_tuple_sync.c:331-417 | what creating, failing, emptying and building keep |
| GracePeriod.SwapStepKeeps | src/acl/other/acl_tuple_sync.c:419-489 | what swapping, passing the locks and freeing keep |
| TableLoads.LoadsNoneIff | src/acl/nodes/acl_entry.c:88-100 | for every number of workers, every worker and every sequence of sync steps: some interleaving lets the worker see a table and load none iff a table was built and a later sync installed none |
| TableLoads.LoadsNoneHere | src/acl/nodes/acl_entry.c:88-100 | whenever the sync is about to replace a table by none, every worker outside its section can do so |
| TableLoads.RunHistory | src/acl/other/acl_tuple_sync.c:419-489 | in every interleaving the outcomes of the syncs so far say whether a table was ever replaced by none |
| TableLoads.LiveIsLatest | src/acl/other/acl_tuple_sync.c:434-492 | in every interleaving the live table is the context of the last create before the last install if that had been built, and none if there were no rules |
| GracePeriod.MayLoadNone | src/acl/nodes/acl_entry.c:99-100 | a run in which it loads none |
| GracePeriod.WithoutWaitingUnsafe | src/acl/other/acl_tuple_sync.c:477-481 | without passing the locks a run reaches a worker with a freed table |
| SyncFlag.OneWriter | src/acl/other/acl_sync_process.c:37-72 | in every run, restarts and resets included, each flag value has one party that may replace it |
| SyncFlag.SettersNeverRefuse | nshell-lib/sf_plugin_api/sf_acl_api.c:106-134 | setting NEED and PREPARE never fails, and one sync thread runs at a time |
| SyncFlag.FlagValues | rest/tapplet/acl_handler.py:799-832 | the flag is always one of the five reportable values -2, 0, 1, 2 and 3 |
| SyncFlag.FlagMoves | src/acl/other/acl_sync_process.c:48-68 | in every run the flag goes from rest to prepared, needed and under way one move at a time, to failed from prepared and under way only, to 0 from under way only; resets move it among the values at rest |
| SyncFlag.RulesFrozen | rest/basic_handler/base_handler.py:32-37 | no rule changes while the flag is positive |
| SyncFlag.TableIsSnapshot | src/acl/other/acl_sync_process.c:58-68 | a successful sync built its table from the store as it was at PREPARE and still is; that no other step reports success is the next row |
| SyncFlag.ReportsTruth | src/acl/other/acl_sync_process.c:58-68 | in every run a step that takes the flag from above 0 to 0 or below has either set it to 0 and made the table the present rules, or set it to -2 and left the table; else only a restart touches the table |
| SyncFlag.ChangeGoesThrough | rest/basic_handler/base_handler.py:32-37 | at rest a guarded request sets a slot and changes nothing else |
| SyncFlag.ResetKeepsFlag | nshell-lib/sf_plugin_api/sf_acl_api.c:45-80 | a reset ends with the flag and the count it began with and every slot empty, whatever the other parties do meanwhile |
| SyncFlag.TimesInRange | src/acl/other/acl_sync_process.c:69-70 | in every run a count at rest outside [0, 2^31) is a negative int and was torn |
| SyncFlag.LeavesRangeIff | src/acl/other/acl_sync_process.c:69-70 | in every run a step leaves the range at rest iff it interrupts an update between increment and mask while the count is negative |
| SyncFlag.FirstTear | src/acl/other/acl_sync_process.c:69-70 | the first time the count was 2^31-1, and before that the increment is negative exactly there |
| SyncFlag.RestingCounts | src/acl/other/acl_sync_process.c:69-70 | a value can be the count at rest iff it is an int, so every negative int can |
| SyncFlag.RestartRecovers | src/acl/other/acl_sync_process.c:48-51 | after a restart in a sync VPP's next round marks it failed, whatever request loop and thread do before and during it; the flag stays until then |
| Weights.CalcGcd | nshell-lib/include/sf_gcd.h:5-17 | for all C ints the greatest common divisor up to sign; divides by 0 iff the second is 0; a division overflows iff the two are -2^31 and -1 |
| Weights.WeightCalcMax | nshell-lib/include/sf_gcd.h:21-37 | for all C ints the maximum and the greatest common divisor up to sign; divides by 0 iff a first weight of 0 is followed by another; overflows only with a weight of -2^31; positive for positive weights |
| Wrr.Periodic | src/actions/include/action_tools.h:108-126 | the scan of indices and thresholds repeats after max/gcd rounds |
| Wrr.IteratedMeans | src/actions/include/action_tools.h:112-120 | one iteration in plain numbers: next index or back to the first; threshold kept, raised by the gcd, started again above the maximum, or less 2^32 where the sum leaves an int |
| Wrr.NextStopIsFirst | src/actions/include/action_tools.h:121-124 | the loop stops at the first index that meets the threshold |
| Wrr.Balancer.PutAction | nshell-lib/sf_plugin_api/action_api.c:211-218 | for all C ints: what is stored, and exactly when it divides by 0; positive weights give a valid scheduler state |
| Wrr.Balancer.GetWeightIndex | src/actions/include/action_tools.h:108-126 | for all positive int weights, wrapped sums included: ends, on an index whose weight meets the threshold; while sums fit, on the next stop of the schedule, at most one round on |
| Wrr.Balancer.ServeCycle | src/actions/include/action_tools.h:108-126 | sum/gcd calls: how often each index was answered; exactly weight/gcd times if sums fit an int or the weights are equal; while sums fit, index and threshold are back where they were |
| Wrr.PeriodStopsOn | src/actions/include/action_tools.h:108-126 | any period of positions stops on index i weight/gcd times |
| Wrr.ExactlyFair | src/actions/include/action_tools.h:108-126 | from any position the next sum/gcd calls return index i exactly weight/gcd times, and bring a stopped scheduler back to its state |
| Wrr.FairAnswers | src/actions/include/action_tools.h:108-126 | the same for what the calls store and return |
| Wrr.EqualIsFair | src/actions/include/action_tools.h:108-126 | equal weights are served exactly from whatever is stored, wrapped thresholds included |
| WrrFairness.FairForEverIff | src/actions/include/action_tools.h:108-126 | from a configured action with any index, every cycle of calls answers every index weight/gcd times, for ever, iff maximum plus gcd fits an int or all weights are equal |
| Wrr.AnswersRepeat | src/actions/include/action_tools.h:108-126 | from any position, fresh ones included, the answers repeat with that cycle |
| Wrr.NoOverflowIff | src/actions/include/action_tools.h:115 | no sum leaves an int iff maximum plus gcd does not |
| Wrr.FollowsScheduleIff | src/actions/include/action_tools.h:112-120 | with wrapping sums, what is stored follows the schedule for ever iff maximum plus gcd fits an int |
| Wrr.UnfairWhenWrapped | src/actions/include/action_tools.h:108-126 | weights for which the second cycle is not fair |
| Weights.StoredPositiveIff | rest/tapplet/actions/action_utils.py:225-236 | the stored weights are positive iff the low 32 bits of each number are in [1, 2^31), and 0 iff those are 0 |
| Weights.AcceptedNotPositive | rest/tapplet/actions/action_utils.py:225-236 | accepted numbers that are stored as 0 and below |
| Registrations.FirstDifferenceDecides | nshell-lib/shm-manage/shm_map.c:163-166 | of two names the one with the smaller byte at the first difference comes first, and a proper beginning comes before the longer name |
| Registrations.SortByName | nshell-lib/shm-manage/shm_map.c:168-223 | ends; the list is relinked to a permutation in strictly increasing order of name, with the right tail |
| Registrations.Split | nshell-lib/shm-manage/shm_map.c:224-257 | one list per memory type, each in the original order |
| Registrations.Arrange | nshell-lib/shm-manage/shm_map.c:224-281 | sorted configurations followed by the statistics in original order, linked as one list |
| Registrations.SameConfigOrder | nshell-lib/shm-manage/shm_map.c:224-281 | two link orders of the same registrations give the same order of configurations |
| ShmLayout.ShmMain.StartMalloc | nshell-lib/shm-manage/shm_map.c:283-403 | for every list, 32-bit sums included: -2 iff a sum runs past the segment, else 0; when the layout fits, offsets, accounts and configuration bounds, and nothing left free |
| ShmLayout.RegionsInOrder | nshell-lib/shm-manage/shm_map.c:333-392 | the regions start behind the header and one more map entry than there are regions, each where the one before it ends; the length asked for has their total in 32 bits |
| ShmLayout.RegionsTile | nshell-lib/shm-manage/shm_map.c:345-392 | every byte behind the header is in exactly one region, every region in the segment |
| ShmLayout.ConfigEndIff | nshell-lib/shm-manage/shm_map.c:361-368 | the byte after the recorded end is the first statistics byte iff the stated shape of the lengths |
| ShmLayout.EndMovesWithLinkOrder | nshell-lib/shm-manage/shm_map.c:361-368 | two link orders of the same registrations with different recorded ends |
| ShmLayout.FitsIff | nshell-lib/shm-manage/shm_map.c:345-392 | the segment has the length the layout needs and no offset wraps iff the layout fits 32 bits |
| ShmLayout.OverrunsWhenWrapped | nshell-lib/shm-manage/shm_map.c:345-392 | registrations whose wrapped length is refused |
| ShmLayout.SameConfigOffsets | nshell-lib/shm-manage/shm_map.c:224-392 | any two link orders of the same registrations give the same configurations the same offsets |
| ShmLayout.ShmMain.UpdateMap | nshell-lib/shm-manage/shm_map.c:92-147 | each name is bound to the first region that has it |
| ShmLayout.BindsOwnRegion | nshell-lib/shm-manage/shm_map.c:129-146 | with distinct names that is its own region, and an unregistered name gets none |
| ShmLayout.StartUp | src/sf_main/init.c:109-140 | a segment sized by the unarranged list: nothing is ever found missing; a layout that fits is never refused and fills the segment exactly |
| ConfigFile.Save | nshell-lib/shm-manage/shm_utils.c:89-185 | the file is the segment up to the configuration's end |
| ConfigFile.Load | nshell-lib/shm-manage/shm_utils.c:207-358 | for every file: a rejected one changes nothing, an accepted one replaces the bytes from the configuration's start to the last block read, and runs past the segment iff that block does |
| ConfigFile.CheckFile | nshell-lib/shm-manage/shm_utils.c:256-332 | 0 iff the file reaches the end of the configuration, has the same header fields and, up to the first map entry behind the configuration, the same entries; -2 otherwise |
| ConfigFile.WritesOnlyConfigIff | nshell-lib/shm-manage/shm_utils.c:336-356 | nothing behind the configuration is written iff the file ends with it or it is a whole number of blocks |
| ConfigFile.LongerFileOverwrites | nshell-lib/shm-manage/shm_utils.c:336-356 | an accepted file that changes a byte behind the configuration |
| ConfigFile.SaveAndLoad | nshell-lib/shm-manage/shm_utils.c:89-358 | into a segment that the check cannot tell apart, whatever its statistics: restores every configuration byte and changes no other, for every size |
| ConfigTransfer.MainDescribes | nshell-lib/shm-manage/shm_map.c:283-403 | the bytes an allocation leaves describe the layout of its registrations |
| ConfigTransfer.WellPlacedIff | nshell-lib/shm-manage/shm_map.c:361-392 | such a segment can be saved and loaded iff it has a statistics region or any byte of memory |
| ConfigTransfer.SameConfigsSameLayout | nshell-lib/shm-manage/shm_utils.c:256-332 | segments with the same configurations and right ends look alike to the check, whatever their statistics |
| ConfigTransfer.SaveHereLoadThere | nshell-lib/shm-manage/shm_utils.c:89-358 | saved by one build and loaded by another with the same registrations in any other link order: every configuration byte arrives at its offset, no other byte changes |
| HitStats.FlatIndexInjective | src/acl/include/acl_stat_tools.h:27-29 | two counters never share a cell, every cell is in the array, and the cell of worker w and rule r is 4096 w + r - 1 |
| HitStats.DifferenceIff | src/acl/cli/acl_cli.c:34-37 | the 32-bit difference is the number of hits iff there were fewer than 2^32 |
| HitStats.HitKeeps | src/acl/include/acl_stat_tools.h:27-29 | a hit keeps: total, unsynced hits and lost hits add up to the hits since the last clear, modulo 2^64 |
| HitStats.SyncKeeps | src/acl/cli/acl_cli.c:60-63 | so does syncing one counter, with any hits between its two reads |
| HitStats.SyncCountsAllIff | src/acl/cli/acl_cli.c:60-63 | if total and unsynced hits are the hits since the last clear, modulo 2^64, they are so after a sync iff the hits between its reads and the whole rounds of 2^32 before them are a multiple of 2^64 |
| HitStats.RacedHitIsLost | src/acl/cli/acl_cli.c:60-63 | a sync after which one hit is in no count |
| HitStats.Stats.Hit | src/acl/include/acl_stat_tools.h:86-87 | the same for the arrays and any number of hits; adds one to the rule's hits only |
| HitStats.Stats.SyncAll | src/acl/cli/acl_cli.c:48-68 | afterwards every total and what syncs of it have lost are the rule's hits since its last clear; nothing more is lost if no counter has gone round |
| HitStats.Stats.SyncOne | src/acl/cli/acl_cli.c:104-128 | the same for one rule; out of range changes nothing |
| HitStats.Stats.ClearAll | src/acl/cli/acl_cli.c:173-180 | every rule starts again from zero hits |
| HitStats.Stats.ClearOne | src/acl/cli/acl_cli.c:183-203 | one rule does |
| HitStats.Stats.ClearSingle | nshell-lib/sf_plugin_api/sf_acl_api.c:248-266 | the library's clear: -1 and no change out of range, else the rule restarts from its unsynced hits, not from zero |
| HitStats.TotalIsHits | src/acl/cli/acl_cli.c:48-68 | once its counters are synced a rule's total and its lost hits are its hits, modulo 2^64 |

## Left out

* Foreign code enters as its interface promises: `rte_acl` (creating by name returns a living context of
  that name, adding a rule fails only for a bad priority or userdata or a full table, classifying returns the
  userdata of a matching rule of highest priority or 0), `inet_pton` and `inet_ntop` (an address text is
  valid IPv4, valid IPv6 or neither, and texts round-trip), shared-memory calls, file reads and writes that succeed.
* The store is proved for any hash of a configuration into the 256 buckets, which also covers builds
  that use the `crc32c` instruction; `RuleHash` instantiates it with the checksum. The big-endian branch
  of the checksum is not modelled, and table entries are given by their recurrence, not as literals.
* The two nested dictionaries of a batch request are flattened into one sequence of items in request
  order; what `ctypes` does to a number before the checks happens before the model's input.
* Batches without the atomic flag, which go on after a refused item.
* REST replies, JSON and tar files, sessions and locking of the segment; the file names of an export.
* The restart of the REST process. If it dies between PREPARE and NEED the flag stays at PREPARE.
* `POST /system/config` changes rules without looking at the sync flag, on another thread, so it is
  outside `SyncFlag`.
* Weak memory order, and several workers that race on one action's scheduler state.
* Running initialisation functions and zeroing regions at allocation; the version-string check and its
  return code -3; names longer than their array.
* Table lookup results turned into actions, interface settings, IP reassembly and the driver code: short
  range checks or code without a property of this kind.
- Crc32.TableLiterals: the entries of single bits in table 0, because `TableLinear` and the recurrence give the other 1016.
- Wrr.Balancer.GetWeightIndex: asks for positive stored weights, because the schedule, the gcd and the shares mean
  nothing for others; an `int` sum that overflows wraps, as on the machines the system runs on.
