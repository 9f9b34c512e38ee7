# LISP map cache on a Patricia trie

This project models the tunnel router's map cache: the Patricia trie that indexes it, the cache operations, the
ageing sweep, the processing of Map-Reply messages and the forwarding decision. It also models the byte formats around them: the
Map-Reply encoder and decoder, the Internet checksum and the text form of IPv4 prefixes.

How it is built:

- `BitStrings`, `Addresses`: a key is the string of the first `bitlen` bits of a sixteen-byte address. The byte loops
  of the code are proved to compute longest common prefixes and prefix equality of these strings.
- `KeySets`, `TrieValues`, `TrieLinks`: what every pointer of a trie must be, said of the set of its keys alone, and
  how attaching a leaf, splitting an edge and unlinking a node keep it.
- `TrieNodes`, `PatriciaTrie`, `PatriciaSearch`, `PatriciaWalk`: the trie in memory, updated in place through `head`,
  `l`, `r`, `parent`, `prefix`, `data`, `num_active_node` and `ref_count`. The invariant is `Patricia.Valid`: every
  child or parent pointer leads to the nearest key in its direction, bit positions are key lengths, a node without a
  prefix has two children and no data, and `numActive` counts the nodes. `Patricia.Lookup` has no `data` field in its
  `modifies` clause and `Patricia.Remove` only that of the node removed, so both leave all other data alone.
- `CanonicalForm`, `TrieShape`, `TrieRuns`: the stored prefixes determine the whole trie, over any run.
- `AddressNumbers`: the bits, masks, prefixes, best matches and orders of visits, said of addresses as big-endian numbers.
- `WalkOrder`: what an explicit-stack walk has still to visit, in lexicographic order.
- `MapCache`, `EntryStates`: the cache as a flat map with atomic steps, theorems over all runs of steps, and what each
  step leaves and each state does, with states and numbers written out.
- `MapTable`, `CacheSweep`, `MapSweep`, `ReplyHandling`, `CacheRuns`: the calls of `maptable.c`, `map.c` and `instance.c`
  on the trie. Each is proved to take exactly the flat step of the same name, and any run of them the run of the steps.
- `MapReply`, `PacketLayout`, `Checksum`, `InetText`, `TextForms`: bytes and text, with the messages by offsets and the
  texts by their characters.

Assumptions: a prefix has family IPv4 or IPv6 and a `bitlen` of at most 32 or 128, because `Ref_Prefix` fails on any other
family and the mask length on the wire is not checked. One table operation, one record of a reply and one sweep
are each atomic. Times to live are unbounded integers, except that the wire value is multiplied by 60 in 32 bits. The family is never
looked at by the trie, so IPv4 and IPv6 prefixes with equal bits share a node.

Where code and documentation part, the model follows the code:

- The locator choice takes the largest priority number; section 6.1.4 of RFC 6830 prefers the smallest
  (`MapReply.ChosenIsLowest`).
- Processing of a reply ends at the first record whose prefix has a best match already (`MapCache.RepliesRun`).
- A reply redirects only destinations that had no match (`MapCache.ReplyForward`), so the entry that a miss installs
  hides every reply to it for as long as it lives (`MapCache.QueriedRun`, `MapCache.ReplyHidden`).
- The encoder stores the number of locators in eight bits (`MapReply.RoundTripEnd`). No message of 256 locators fits the
  buffer of 1024 bytes that its only caller has (map.c:855), so this concerns the encoder alone.
- The checksum is right if and only if the plain sum of the words fits 32 bits (`Checksum.Chksum`); its only use is on
  twenty bytes.

Nothing was executed.

## Model

| member | source | states |
|---|---|---|
| Addresses.CompBits | patricia/patricia.c:51-62 | for all addresses and lengths 0 to 128, the byte comparison with its partial mask holds exactly when the first `mask` bits agree |
| Addresses.DifferBit | patricia/patricia.c:667-687 | the loop, reading in bounds, computes the smaller of `check_bit` and the length of the longest common prefix of the two addresses |
| Addresses.LcpBits | patricia/patricia.c:667-687 | the index so computed for two stored lengths is the longest common prefix of the two keys |
| AddressNumbers.BitWorth | patricia/patricia.c:447 | the test of bit j of a byte is true exactly when the byte divided by 2 to the power of 7 - j is odd |
| AddressNumbers.MaskWorth | patricia/patricia.c:55-58 | two bytes are equal under the partial mask of k bits exactly when they are equal after division by 2 to the power of 8 - k |
| AddressNumbers.AddrBitWorth | patricia/patricia.c:447 | bit i of an address is that of its number worth 2 to the power of 127 - i |
| AddressNumbers.CompNumbers | patricia/patricia.c:51-62 | for all addresses and lengths 0 to 128, the comparison under the mask is equality of the two numbers divided by 2 to the power of 128 - n |
| AddressNumbers.CoverNumbers | patricia/patricia.c:51-62 | one prefix covers another, not shorter, exactly when their addresses are equal as numbers divided by 2 to the power of 128 less the shorter length |
| AddressNumbers.LcpNumbers | patricia/patricia.c:667-687 | the length of the common prefix is at least n exactly when the numbers are equal without their last 128 - n bits |
| TrieNodes.CopyBits | patricia/patricia.c:193-202 | copying only the bytes of the family loses no bit of the key |
| TrieNodes.Prefix.constructor | patricia/patricia.c:177-219 | a new prefix has one reference, the copied address, and the length given, or 32 or 128 by the family when that is negative |
| TrieNodes.Prefix.Ref | patricia/patricia.c:281-292 | an uncounted prefix is copied, a counted one gains a reference; the key is the same |
| TrieNodes.Prefix.Deref | patricia/patricia.c:294-307 | only a counted prefix is let go, by one |
| PatriciaTrie.Patricia.constructor | patricia/patricia.c:317-328 | a new trie satisfies the invariant and stores nothing |
| PatriciaTrie.Patricia.HasOneParent | patricia/patricia.c:845-913 | a node without parent is the head, and any other hangs at exactly one child pointer, its parent's, as the code asserts before every rewiring |
| KeySets.ClosestStep | patricia/patricia.c:630-659 | a step of the descent loses no key that shares a longer prefix with the key sought, and past its end either side will do |
| PatriciaTrie.Patricia.Descend | patricia/patricia.c:626-661 | the descent, though it branches on host bits through branching points, ends at a prefix node that shares with the key as long a prefix as any node does |
| PatriciaTrie.Patricia.Climb | patricia/patricia.c:692-703 | the climb ends at the highest ancestor at or below the differing bit |
| PatriciaTrie.Patricia.FindPlace | patricia/patricia.c:626-703 | the loops find the place of the key among the keys of the trie: a key as near to it as any, the common prefix, and the highest node that is not above it |
| PatriciaTrie.Patricia.PlaceUnique | patricia/patricia.c:626-703 | that place is one node and one bit, whatever host bits the descent branched on: lookup depends on the first `bitlen` bits only |
| KeySets.NearestSlot | patricia/patricia.c:730-746 | at that place, the child slot on the side of the new key is empty, as the code asserts |
| KeySets.NearestEdge | patricia/patricia.c:748-806 | at that place, the edge above the node is where the new parent or branching point belongs |
| PatriciaTrie.Patricia.First | patricia/patricia.c:610-624 | lookup in an empty trie |
| PatriciaTrie.Patricia.Fill | patricia/patricia.c:705-720 | lookup of a branching point's key fills it; it had no data |
| PatriciaTrie.Patricia.AddChild | patricia/patricia.c:730-746 | the new node below an old one keeps the invariant and all nodes |
| PatriciaTrie.Patricia.AddParent | patricia/patricia.c:748-772 | the new node above an old one, re-hung at its parent or at the head, keeps the invariant and all nodes |
| PatriciaTrie.Patricia.AddBranch | patricia/patricia.c:773-806 | the new node beside an old one under a new branching point keeps the invariant and all nodes |
| PatriciaTrie.Patricia.Lookup | patricia/patricia.c:598-808 | on any trie: the invariant is kept, exactly the given key is added to the stored ones, all other nodes keep prefix and data, the node of the key is returned; for every prefix references minus holders stay the same, and the copy of an uncounted prefix belongs to its node alone |
| PatriciaTrie.Patricia.Demote | patricia/patricia.c:819-833 | a removed node with two children becomes a branching point |
| PatriciaTrie.Patricia.Prune | patricia/patricia.c:835-881 | a removed leaf takes the branching point above it along, whose other child is hung in its place |
| PatriciaTrie.Patricia.Drop | patricia/patricia.c:887-913 | a removed node with one child is bridged |
| PatriciaTrie.Patricia.Remove | patricia/patricia.c:811-914 | in all three cases: the invariant is kept, exactly the key of the node is removed from the stored ones, all other nodes keep prefix and data, and for every prefix references minus holders stay the same |
| PatriciaTrie.Patricia.HolderCounted | patricia/patricia.c:294-307 | while a node holds a prefix its count is positive, so it is not released |
| PatriciaSearch.SearchExact | patricia/patricia.c:427-494 | the node of the key if it is stored, and otherwise null |
| PatriciaSearch.SearchBest2 | patricia/patricia.c:498-588 | the longest stored prefix that matches, strictly shorter than the query when not inclusive; null exactly when there is none; the stack of 129 is never exceeded |
| AddressNumbers.BestNumbers | patricia/patricia.c:498-588 | a node is the answer exactly when its prefix is no longer than the query (shorter when not inclusive), agrees with it as a number as far as it goes, and no stored prefix that does is longer |
| AddressNumbers.NoneNumbers | patricia/patricia.c:498-588 | null is the answer exactly when no stored prefix agrees with the query as a number |
| PatriciaSearch.BestUnique | patricia/patricia.c:498-588 | the best match is determined by the first `bitlen` bits of the query |
| PatriciaSearch.BestOfStored | patricia/patricia.c:427-595 | a stored prefix is its own inclusive best match: both searches give one node |
| PatriciaSearch.MakeAndLookup | patricia/patricia.c:917-931 | references are held by nodes only, before and after; the caller's prefix is released exactly when its key was stored already |
| PatriciaSearch.TrySearchExact | patricia/patricia.c:933-952 | the exact search with a prefix made for it, which is released again |
| PatriciaSearch.LookupThenRemove | patricia/patricia.c:954-961 | exactly the given prefix is removed, if stored; references are held by nodes only, before and after |
| CanonicalForm.KeysDetermined | patricia/patricia.c:598-914 | the nodes are exactly the stored keys and the points where two of them part |
| CanonicalForm.Canonical | patricia/patricia.c:598-914 | two well-formed tries with the same stored keys have the same nodes, bit positions and links |
| CanonicalForm.NodeBound | patricia/patricia.c:722-808 | there are at most 2 n - 1 nodes for n stored keys, none for none |
| TrieShape.SameShape | patricia/patricia.c:598-914 | two tries in memory with the same stored prefixes have the same shape, whatever calls built them, in whatever order |
| TrieShape.ShapeRestored | patricia/patricia.c:598-914 | a trie that stores again what it stored before has its shape of before |
| TrieShape.LookupRemoved | patricia/patricia.c:598-914 | removing a freshly inserted prefix restores the shape and the number of nodes |
| TrieShape.ActiveBound | patricia/patricia.c:835-913 | `num_active_node` is zero for an empty trie, and else at most twice the number of stored prefixes less one |
| TrieRuns.PerformAll | patricia/patricia.c:917-961 | any run of inserts and deletes keeps the invariant and the exact reference counts, and ends with the keys that the run leaves |
| TrieRuns.LastDecides | patricia/patricia.c:917-961 | a key is stored after a run exactly when the last operation on it is an insert, or there is none and it was stored before |
| TrieRuns.Build | patricia/patricia.c:917-961 | the same from the empty trie, with the bound on the number of nodes |
| TrieRuns.TwoRuns | patricia/patricia.c:598-914 | two runs from the empty trie that leave the same keys end with the same trie |
| TrieShape.PathTo | patricia/patricia.c:598-914 | every node counted is reached from the head |
| TrieShape.OnlyNodes | patricia/patricia.c:598-914 | every node reached from the head is counted |
| WalkOrder.BeforeTotal | patricia/patricia.h:107-145 | the order of visits is total |
| WalkOrder.BeforeStrict | patricia/patricia.h:107-145 | the order of visits is irreflexive and asymmetric |
| WalkOrder.BeforeTrans | patricia/patricia.h:107-145 | the order of visits is transitive |
| AddressNumbers.BeforeNumber | patricia/patricia.h:107-145 | one key comes before another exactly when its bits, as far as both go, make the smaller number, or the same number and it is shorter |
| AddressNumbers.InfixSides | patricia/patricia.c:404-424 | in infix order, what continues a key with 0 comes before it, and what continues it with 1 after it |
| WalkOrder.StackBound | patricia/patricia.h:109-110 | the stack holds no more entries than the cursor has bits |
| WalkOrder.NextUnder | patricia/patricia.h:131-143 | a step takes exactly the cursor from what is still to be visited |
| WalkOrder.SkipUnder | patricia/patricia.h:123-129 | a break takes exactly the subtree of the cursor from it |
| PatriciaWalk.WalkEnd | patricia/patricia.h:131-143 | the end of the loop body: on to the children, without exceeding the stack |
| PatriciaWalk.WalkBreak | patricia/patricia.h:123-129 | a break goes on with the top of the stack |
| PatriciaWalk.Walk | patricia/patricia.h:107-145 | in strict lexicographic order, each stored prefix is visited exactly once unless it lies under one at which the body broke off |
| PatriciaWalk.Process | patricia/patricia.c:393-402 | the function is applied to every stored prefix once, a covering prefix before those it covers |
| PatriciaWalk.WalkInorder | patricia/patricia.c:404-424 | the stored prefixes of the subtree, each once, in infix order; the number returned is how many are stored there, and from the head how many are stored at all |
| PatriciaWalk.Clear | patricia/patricia.c:336-377 | every node is freed once, every prefix loses the references of its nodes, and the final count is zero |
| MapCache.BestIsLongest | patricia/patricia.c:591-595 | the flat longest match: the entry found covers the key and every other that does is shorter |
| MapCache.StaticStep | maptable.c:33-144 | a static entry keeps state and address in every step but an uninstall whose best match it is, and that removes nothing else |
| MapCache.StaticRun | maptable.c:33-182 | over any run without such an uninstall, a static entry stays |
| MapCache.UninstallExact | maptable.c:123-144 | an uninstall removes the longest match, if it is neither active nor queried, and nothing else |
| MapCache.UntargetedQuiet | maptable.c:33-144 | every step but the sweep touches only its target; over a run that never has the entry as a target and never covers it with a static one, sweeps are all that happens to it |
| MapCache.Expiry | maptable.c:152-182 | over any run in which an entry is not refreshed, replaced or under a static one, it is there exactly while no sweep has come or its time is more than 10 for each sweep; the rest of it stays |
| EntryStates.InstallLeaves | maptable.c:97-121 | an install leaves a static entry with time 0 and the address given, unless the entry was static already; nothing else changes |
| EntryStates.QueryLeaves | maptable.c:83-95 | a miss leaves a queried entry, unless the entry was static |
| EntryStates.DenyLeaves | map.c:516-571 | action 1 leaves a negative entry and action 3 a drop entry, both with 60 seconds and no address; any other action, and a static entry, leave the cache alone |
| EntryStates.ReplyLeaves | map.c:748-769 | with no covering entry, an active entry with the time and address of the record; otherwise the longest covering entry has its time set to 60 and nothing else changes |
| EntryStates.UninstallLeaves | maptable.c:123-144 | an active or queried longest match is left, a static, negative or drop one removed, and nothing else changes |
| EntryStates.SweepLeaves | maptable.c:152-182 | a sweep takes ten from every entry that no static one covers, removes it exactly when nothing is left, and leaves the others alone |
| EntryStates.InstallRun | maptable.c:97-144 | over any run from its installation on that does not uninstall it, an installed prefix is static with its address |
| EntryStates.DenyLife | map.c:530 | a denied prefix, left alone since, is gone with the sixth sweep and not before |
| EntryStates.ForwardStates | instance.c:413-426 | by the state of the longest covering entry: active and static encapsulate to its address, negative and queried are sent natively, drop is discarded |
| EntryStates.ForwardMiss | instance.c:413-418 | without a covering entry a packet is sent natively |
| EntryStates.InstallForward | instance.c:420-425 | over any run from its installation on that spares it, packets whose longest match is an installed prefix go to its address |
| EntryStates.StaticForward | instance.c:420-425 | the same from any cache that holds a static entry |
| EntryStates.DenyForward | map.c:516-571 | a destination whose longest match a denial becomes is sent natively or discarded, by its action |
| MapCache.ForwardScan | instance.c:413-426 | the verdict is that of longest-prefix match over any list of the entries |
| MapCache.MissForward | instance.c:479-487 | the entry that a miss installs changes no verdict |
| MapCache.ReplyForward | map.c:748-769 | for every cache, prefix and destination: a reply redirects the destination if and only if its prefix covers it and it had no match; any other verdict stays |
| MapCache.QueriedStep | map.c:748-769 | a queried entry stays queried in every step but a static install or a denial of its own key, or the sweep that ends its time; replies with locators never resolve it |
| MapCache.QueriedRun | map.c:748-769 | over any run without such a step, a queried entry stays and its destination is sent natively |
| MapCache.ReplyHidden | instance.c:479-487 | over any run after a miss that does not resolve the entry it installed, whatever replies the run holds, the destination is still sent natively |
| MapCache.ReplyTooLate | map.c:748-753 | an instance: a miss in an empty cache, and the reply for the very address |
| MapCache.RemovableRemoves | maptable.c:123-144 | an uninstall changes the cache exactly when the best match is neither active nor queried |
| MapCache.RepliesRun | map.c:724-770 | the number of records applied is the one number where no record but the last has a covering entry when its turn comes, and the last has one if records are left over; the cache is that after the run of so many |
| MapTable.Table.constructor | maptable.c:12-22 | an empty table |
| MapTable.Table.UpdateMapnode | maptable.c:33-52 | the entry is put in the place of any entry but a static one, for which the answer is null |
| MapTable.Table.DeleteMapnode | maptable.c:54-70 | the best match is removed and returned |
| MapTable.Table.SearchMapnode | maptable.c:72-81 | the entry of the best match, which always has data |
| MapTable.Table.InstallQueried | maptable.c:83-95 | the query step |
| MapTable.Table.InstallStatic | maptable.c:97-121 | the install step; a route is added unless the entry was static |
| MapTable.Table.UninstallStatic | maptable.c:123-144 | the uninstall step; success exactly when the best match may be removed |
| MapTable.Table.DenyRecord | map.c:516-571 | the step of a record without locators, by its action |
| MapTable.Table.ReplyRecord | map.c:748-769 | the step of a record with locators |
| MapTable.Table.BestRefines | patricia/patricia.c:591-595 | the best match in the trie is the longest match among the entries |
| MapTable.Table.ForwardPacket | instance.c:402-426 | the verdict computed through the trie is that of flat longest-prefix match |
| MapTable.Table.WatchPacket | instance.c:479-487 | exactly on a miss a queried entry is installed, and no verdict changes |
| CacheSweep.CursorAges | maptable.c:157-160 | an entry that the sweep reaches and that is not static is under no static entry |
| CacheSweep.HalfSkip | maptable.c:157-158 | breaking off at a static entry leaves out exactly entries that the whole sweep leaves alone |
| CacheSweep.HalfNext | maptable.c:160-181 | one turn of the sweep brings the entry of the cursor, and no other, to its value after the whole sweep |
| MapSweep.StillThere | patricia/patricia.h:131-143 | after the removal of the cursor, in every removal case, the nodes on the stack and the children are still in the trie |
| MapSweep.AgeEntry | maptable.c:160-181 | the loop body: the deletion by best match finds the node itself |
| MapSweep.SweepTable | maptable.c:152-182 | the walk that deletes as it goes is one update of the whole cache: entries neither static nor under a static one lose 10 and go exactly when nothing is left |
| CacheRuns.PerformAll | maptable.c:33-182 | any run of calls on the table in memory, sweeps and replies among them, takes it through the run of their steps |
| CacheRuns.RunFromEmpty | maptable.c:12-182 | from the empty table, any run of calls: what holds over all runs of the flat cache holds of the table in memory |
| MapReply.SetMapReply | map.c:430-513 | the bytes written are header, record and locators in order, the length returned is theirs, the rest of the buffer is unchanged; -1 exactly for a locator of unknown family |
| PacketLayout.ReplyLaid | map.c:430-513 | byte for byte: 0x28, type 2 with the P flag, one record; the nonce from 4; ten minutes from 12; count, length, family and address from 16, 17, 22 and 24; every locator at the sum of the lengths before it, with its four numbers, flags 0x05, family and address |
| PacketLayout.LocatorRead | map.c:574-588 | from any bytes, a locator has its four numbers at 0 to 3, its family at 6, and its address from 8; families other than 1 and 2 give no address |
| PacketLayout.RecordRead | map.c:724-761 | from any bytes, a record has its count at 4, its mask at 5, its family at 10, its address from 12, and each locator at the sum of the lengths before it |
| PacketLayout.RecordsRead | map.c:724-740 | the first record is at the cursor, and the others begin after its last locator |
| PacketLayout.SecondsRead | map.c:759 | the time is sixty times the big-endian number of minutes, as a signed number of 32 bits |
| PacketLayout.OneDay | map.c:759 | an instance: 1440 minutes are 86400 seconds |
| PacketLayout.ActionRead | lisp.h:284-292 | the action is the number in the top three bits of its byte |
| MapReply.RoundTrip | map.c:430-513 | whatever follows in memory, the decoder recovers length, family, address and, up to their count modulo 256, all locators with all fields in order, and where they end |
| MapReply.RoundTripAll | map.c:720-746 | with fewer than 256 locators, it recovers them all and ends where the encoder ended |
| MapReply.RoundTripEnd | map.c:457-463 | it ends there exactly when there are fewer than 256 locators |
| MapReply.Lost256 | map.c:457-463 | an instance: of 256 locators none comes back; such a message does not fit 1024 bytes |
| MapReply.Fits | map.h:6 | exactly when a message fits 1024 bytes, by the numbers of IPv4 and IPv6 locators; 41 of any family do |
| MapReply.Chosen | map.c:733-740 | the first locator with the largest priority number |
| MapReply.ChosenIsLowest | map.c:733-740 | it is one with the smallest number exactly when all are equal |
| MapReply.ChosenHighest | map.c:733-740 | an instance: of priorities 1 and 2 the second is chosen |
| MapReply.ChooseLocator | map.c:733-740 | the loop finds that locator and moves the cursor past all of them |
| ReplyHandling.ProcessMapReply | map.c:708-773 | the cache after a packet is that after the run of its first n records, where no record with locators before the last of them had a covering entry in its turn, and the last had one if records are left over; those need not even be sound |
| PacketLayout.StepRead | map.c:726-761 | a record without locators denies its own prefix with its own action; one with locators is a reply for its prefix with its time and the address of the first locator of the largest priority number |
| ReplyHandling.EncodedStep | map.c:430-513 | the encoder's message, decoded, is one step for the prefix encoded, with 600 seconds and the chosen locator |
| Checksum.OnesSumIs | map.c:104-118 | the one's-complement sum is the sum modulo 65535, with 65535 for positive multiples |
| Checksum.OnesSumNumber | map.c:104-118 | the one's-complement sum is the plain sum modulo 65535, and zero only if all words are |
| Checksum.WordCount | map.c:107 | half the length, without a last odd byte; none for a negative length |
| Checksum.NoOverflow | map.c:111-112 | up to 65537 words the sum fits 32 bits |
| Checksum.Exact | map.c:104-118 | for every buffer with a length that is an `int`, what 32 bits keep of the sum folds to the one's-complement sum if and only if the sum fits 32 bits |
| Checksum.Chksum | map.c:104-118 | for every buffer and every `int` length, the answer is the complement of the one's-complement sum of the words if and only if their plain sum fits 32 bits |
| Checksum.Overflow | map.c:108-112 | an instance: for 65538 words of ones it does not fit, and the answer is wrong |
| Checksum.Verifies | map.c:257 | with the complement of the one's-complement sum in a word that was zero, that of the new sum is zero |
| Checksum.VerifiesCode | map.c:257 | up to 65537 words, with the computed checksum in a word that was zero, the checksum computed again is zero |
| InetText.MyInetPton | patricia/patricia.c:66-98 | over all texts, success exactly for one to four runs of digits with dots between them, each at most 255; the bytes are their values, missing ones zero |
| TextForms.ValueJoin | patricia/patricia.c:76-81 | a digit after others adds itself to ten times their value |
| TextForms.QuadForms | patricia/patricia.c:66-98 | the texts of one to four octets, spelled out with their dots |
| TextForms.AnswerForms | patricia/patricia.c:66-98 | byte i is the value of octet i, and zero when there is none |
| InetText.Ascii2Prefix | patricia/patricia.c:223-279 | the address before the slash and the length after it, 32 when missing, negative or larger |
| TextForms.LengthRead | patricia/patricia.c:248-261 | 32 without a slash, and where the number after the slash is negative or over 32; otherwise that number |
| TextForms.AtolRead | patricia/patricia.c:249 | spaces, a sign, digits, and anything after them: the value of the digits, with its sign |
| InetText.TextRoundTrip | patricia/patricia.c:106-147 | the printed form of an IPv4 prefix is read back as the same address and length |
| TextForms.PrefixForm | patricia/patricia.c:106-147 | the printed form is the four numbers with dots between them, a slash and the length |
| TextForms.DecimalPlain | patricia/patricia.c:106-147 | numbers are printed without zeros in front |

## Left out

- MapReply.SetMapReply: requires that the buffer holds what the loop writes, because the code never looks at the buffer's length.
- ReplyHandling.ProcessMapReply: requires known families and mask lengths within the family for every record that is applied, because the code checks neither; the memory behind the packet is taken to be readable, because the code does not know the packet's length.
- PatriciaWalk.Clear: the nodes and the dangling `head` are left as they are, because the code frees the nodes without resetting `head`; the function applied to the data is not modelled.
- TrieNodes.Prefix.Deref: freeing the memory is not modelled; a count of zero stands for it.
- MapSweep.SweepTable: the code reads `l` and `r` of a node that has just been freed; in the model the node keeps its fields.
- InetText.MyInetPton: does not separate the two failure values 0 and -1; both callers treat them alike.
- InetText.Ascii2Prefix: text without a slash has no length limit; a number too long for a C `long` is read as it stands.
- Order in patricia_remove: the code lets go of the prefix before it unlinks the node, the model after; nothing reads the count in between.
- Routes added and deleted and messages sent are no-ops; the sweep's map requests with them.
- `table->count`, which is decremented and never incremented, and the trie's user pointer, which is never used.
- Map-Request and Map-Register messages and their authentication: the Map-Request encoder and decoder are not inverses as written, and HMAC and nonces are library calls.
- IPv6 text, which the C library reads and prints.
- Sockets, threads, packet headers, the control commands and the list wrapper; locator lists are sequences.
- Data races between unlocked threads.
