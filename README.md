# Referral store of the Merit node, in Dafny

This project models `ReferralsViewDB` from `src/refdb.cpp`. That file is the
referral-graph store of the Merit node. It sits on a tagged key-value store.
Each table lives under its own one-character tag, so tags never share a key.
The model therefore holds each table as a separate Dafny map, all fields of
one class:

- `referrals` maps a referral code to its referral record;
- `parent` maps an address (a 160-bit public-key id) to its inviter's address;
- `children` maps an address to the list of addresses it invited;
- `anv` maps an address to its ANV (aggregate net value) tuple of
  address type, origin and amount;
- `lotSize` and `lotVal` hold the lottery reservoir's heap. `lotSize` is the
  size counter and `lotVal` maps slot positions to (weighted key, address)
  pairs.

The store has three parts. Each method of the class is proved against a
value-level function, and the lemmas state what the source promises about
that function.

1. **Referral tree store** (module `ReferralTree`). The point reads are
   functions of a `TreeStore` value. The class's `GetReferral`, `GetReferrer`
   and `GetChildren` delegate to them on the class's tables, so the
   `TreeStore` rows below state what the class reads return. `InsertReferral` and `RemoveReferral`
   are methods that follow the source's read-modify-write steps. They are
   proved equal to `Inserted` and `Removed`. The lemmas cover:
   - what each of those two operations stores, links, appends and erases;
   - that both keep referrals keyed by their own code;
   - that the two indexes keep agreeing in both directions. Insertion keeps
     every listed child pointing at its list's owner when the new address had
     no parent entry. Removal keeps it when the address's parent entry names
     the inviter that removal resolves. Both keep, with no precondition, every
     parent entry listed in its parent's children list;
   - that on a store whose listed children point at their owners, removal
     undoes insertion of a referral with a fresh code and a fresh address.
2. **ANV aggregator** (module `Anv`).
   - `UpdateANV` walks the referrer chain with a loop. It is proved equal to
     the fold `AddAlong` over `Chain`, the finite chain of parents.
   - For every address on the chain, the record becomes the old amount plus
     the change. Only the start address has its type and origin stamped.
     Every other address is untouched.
   - Two further invariants are kept: amounts stay non-negative, and origins
     stay consistent.
   - The two scans take the store's iterator as a sequence of decoded
     entries. They are proved equal to prefix folds (`AnvsUpTo`,
     `RewardableUpTo`).
   - The rewardable scan is exactly the full scan filtered to types 1 and 2,
     and it is a subsequence of the full scan.
   - On a snapshot of the ANV table, the full scan returns every stored
     record and only stored records, one per address.
3. **Lottery heap insertion** (module `Lottery`).
   - `InsertLotteryAddress` is a hole-based sift-up over persisted slots. It
     is proved equal to the recursive `SiftUp`.
   - Four properties are proved about `SiftUp`. It succeeds whenever the
     slots in use are all present. It adds exactly the new entry to the
     multiset of entries. It keeps the heap order. It leaves slots past the
     new size untouched.
   - On a valid heap, slot 0 therefore holds the least key, and
     `GetLotteryMinKey` returns it. The model takes the slot-0 key that
     `GetLotteryMinKey` reads to be the one the insertion writes; see
     "Left out".

The heap parent is the formula `InsertLotteryAddress` computes:
- `pos >> 2` for an even position, `(pos - 1) >> 2` for an odd one;
- both cases equal `pos / 4`;
- the usual 0-based binary-heap parent is `(pos - 1) / 2`, a different
  position.

The model follows the code. Heap order holds with respect to the code's
formula. `Lottery.ParentFormulaIsNotBinary` inserts four keys one after the
other with `SiftUp` and shows that the slots it produces are ordered under the
code's formula but not as a binary heap.

The sift loop stops only when the new key is strictly greater than the
parent's (src/refdb.cpp:345 tests `key > parent`). A parent with an equal key
is therefore moved down. The model follows the code.

The code asserts that no amount goes negative and that the level counter
never reaches its cap. The model states both as preconditions of `UpdateANV`:
- every address on the chain keeps a non-negative amount;
- `ChainIsFinite(parent, startAddress)` holds.

## Model

| member | source | states |
|---|---|---|
| RefDb.ReferralsViewDB.constructor | src/refdb.cpp:31-32 | a fresh (wiped) store has empty tables, size 0, and a valid empty heap |
| ReferralTree.TreeStore.GetReferral | src/refdb.cpp:34-38 | a read of the referral table hits exactly when `ReferralCodeExists` holds for the code |
| ReferralTree.TreeStore.GetReferrer | src/refdb.cpp:40-45 | a read of the parent index hits exactly when `WalletIdExists` holds for the address |
| RefDb.ReferralsViewDB.ReferralCodeExists | src/refdb.cpp:102-104 | a code exists exactly when the point read of the referral table hits |
| RefDb.ReferralsViewDB.WalletIdExists | src/refdb.cpp:106-109 | an address exists as a wallet id exactly when the point read of the parent index hits |
| ReferralTree.TreeStore.GetChildren | src/refdb.cpp:47-52 | an address with no stored list reads as the empty list |
| ReferralTree.TreeStore.InviterOf | src/refdb.cpp:62-64 | the inviter is the address of the referral stored under the previous code, or the default address when none is stored |
| RefDb.ReferralsViewDB.InsertReferral | src/refdb.cpp:54-79 | returns true; the three tables become `Inserted(old tables, referral)` |
| RefDb.ReferralsViewDB.RemoveReferral | src/refdb.cpp:81-100 | returns true; the three tables become `Removed(old tables, referral)` |
| ReferralTree.InsertedStoresReferral | src/refdb.cpp:54-57 | after insertion the referral reads back under its code and its code exists; every other code reads as before |
| ReferralTree.InsertedLinksReferrer | src/refdb.cpp:59-67 | after insertion the address's referrer is the inviter as resolved after the write (its own address for a self-referencing code), the address exists as a wallet id, and every other address's referrer is unchanged |
| ReferralTree.InsertedAppendsChild | src/refdb.cpp:69-76 | insertion appends the address at the end of the inviter's list, without deduplication; every other list is unchanged |
| ReferralTree.RemovedErases | src/refdb.cpp:81-98 | removal erases the referral and the parent entry, leaves the other referrals and referrers, and replaces the inviter's list by it with every occurrence of the address removed; other lists are unchanged |
| Seqs.RemoveAll | src/refdb.cpp:95 | the removed element no longer occurs, the list does not grow, and a list without it is unchanged |
| Seqs.RemoveAllCounts | src/refdb.cpp:95 | every other element keeps exactly as many occurrences |
| Seqs.RemoveAllIsSubseq | src/refdb.cpp:95 | the kept elements keep their relative order |
| Seqs.RemoveAllMembers | src/refdb.cpp:95 | an element survives exactly when it occurred and is not the removed one |
| ReferralTree.KeyedByCodeKept | src/refdb.cpp:54-83 | insertion and removal keep every referral stored under its own code |
| ReferralTree.InsertKeepsIndexConsistent | src/refdb.cpp:62-76 | inserting an address without a parent entry keeps every listed child pointing (in the parent index) at the owner of its list; when every parent entry was also listed under its parent, both directions of the agreement hold afterwards |
| ReferralTree.RemoveKeepsIndexConsistent | src/refdb.cpp:85-97 | removing a referral whose parent entry names the inviter that removal resolves keeps every listed child pointing at the owner of its list; when every parent entry was also listed under its parent, both directions hold afterwards |
| ReferralTree.InsertKeepsParentsListed | src/refdb.cpp:62-76 | insertion keeps every address with a parent entry listed in its parent's children list, with no precondition on the store |
| ReferralTree.DropKeepsListed | src/refdb.cpp:89-96 | erasing an address's parent entry and its occurrences in its parent's list keeps every remaining parent entry listed under its parent |
| ReferralTree.RemovedTables | src/refdb.cpp:85-96 | after removal the parent index is the old one without the address, and the children index differs only at the inviter resolved once the record is erased (`InviterOnRemove`, stated over the tables before the call) |
| ReferralTree.DropKeepsConsistent | src/refdb.cpp:89-96 | erasing an address's parent entry and every occurrence of it in its parent's list keeps the two indexes consistent |
| ReferralTree.UnparentedIsUnlisted | src/refdb.cpp:66-75 | on a consistent store an address without a parent entry is in nobody's children list |
| ReferralTree.RemoveAllAppended | src/refdb.cpp:74-95 | removing an address just appended to a list that did not hold it gives the list back |
| ReferralTree.RemoveUndoesInsert | src/refdb.cpp:54-100 | on a store whose listed children all point at their owners, for a fresh code and a fresh address whose previous code is not its own, removal after insertion restores the referral table and the parent index exactly, and every children list reads as before |
| ReferralTree.UpdateThenRemove | src/refdb.cpp:56-89 | writing a fresh key and erasing it again restores the table |
| ReferralTree.Chain | src/refdb.cpp:119-154 | the chain the walk visits starts at the start address, follows the parent index, and ends at the first address without a parent entry |
| ReferralTree.ChainUnique | src/refdb.cpp:122-123 | there is only one such chain from an address |
| ReferralTree.ChainDistinct | src/refdb.cpp:156-158 | a finite chain never visits an address twice |
| ReferralTree.ThreeLevelScenario | src/refdb.cpp:62-152 | inserting root, A and B in order records the tree in the children lists; root's referrer is the default address; the chain from B runs B, A, root and then on to the default address |
| RefDb.ReferralsViewDB.GetANV | src/refdb.cpp:162-168 | the read hits exactly when the address has a record; a miss is what UpdateANV reads as the zero tuple |
| Anv.ReadAnv | src/refdb.cpp:126-127 | a missing record reads as the zero tuple; a stored one reads as itself |
| Anv.AddAlongKeys | src/refdb.cpp:123-154 | the walk's table holds the old addresses plus exactly the addresses it visits |
| Anv.Updated | src/refdb.cpp:126-141 | the record left at a chain address has the read amount plus the change; type and origin are stamped at the start address only |
| Anv.AddAlongSnoc | src/refdb.cpp:123-153 | walking one more address rewrites that address and nothing else |
| Anv.AddAlongOutside | src/refdb.cpp:123-153 | an address the walk does not visit keeps its record, or its absence |
| Anv.AddAlongEffect | src/refdb.cpp:123-153 | on a repetition-free chain from the start address, every address on it ends with its original record updated as `Updated` says |
| Anv.AddAlongKeepsOrigins | src/refdb.cpp:129-132 | every record keeps its own address as origin, or the zero type and origin |
| Anv.AddAlongKeepsAmounts | src/refdb.cpp:141-143 | when no address on the chain drops below zero, all amounts stay non-negative |
| RefDb.ReferralsViewDB.UpdateANV | src/refdb.cpp:116-160 | returns true; the ANV table becomes the fold over the referrer chain; each chain address (the start included) gets `Updated`; every other address is untouched; non-negative amounts and consistent origins are kept |
| Anv.AnvsUpTo | src/refdb.cpp:177-203 | a length bound only: the scan of n entries collects at most n records (which records it collects is stated by `AnvsUpToMembers` and the snapshot lemmas) |
| Anv.AnvsUpToStep | src/refdb.cpp:180-202 | one more entry adds its record to the scan when it yields one, and leaves the scan unchanged otherwise |
| Anv.RewardableUpToStep | src/refdb.cpp:217-245 | one more entry adds its record to the rewardable scan when the record has type 1 or 2, and leaves the scan unchanged otherwise |
| RefDb.ReferralsViewDB.GetAllANVs | src/refdb.cpp:170-205 | the loop returns the full scan of the snapshot; on a snapshot of the ANV table that is every stored record, only stored records, one per address |
| RefDb.ReferralsViewDB.GetAllRewardableANVs | src/refdb.cpp:207-248 | the loop returns the rewardable scan of the snapshot |
| Anv.OnlyRewardableMembers | src/refdb.cpp:233-237 | a record survives the type filter exactly when it was present and has type 1 or 2 |
| Anv.OnlyRewardableIsSubseq | src/refdb.cpp:233-237 | the type filter keeps records in order |
| Anv.OnlyRewardableAppend | src/refdb.cpp:233-243 | filtering a concatenation concatenates the filtered parts |
| Anv.OnlyRewardableCollected | src/refdb.cpp:233-243 | filtering what one entry contributes gives what the rewardable scan takes from it |
| Anv.RewardableIsFiltered | src/refdb.cpp:207-248 | the rewardable scan of any prefix is the full scan of that prefix, filtered by type |
| Anv.RewardableFiltersAll | src/refdb.cpp:170-248 | the rewardable scan is the full scan filtered to types 1 and 2: the same records (both directions) in the same order, and a subsequence of it |
| Anv.AnvsUpToMembers | src/refdb.cpp:177-203 | a record is in the scan exactly when one of the scanned entries yields it |
| Anv.AnvKeysMembers | src/refdb.cpp:180-188 | an address is among the scanned ANV keys exactly when some scanned entry carries it |
| Anv.ScanCountsKeys | src/refdb.cpp:177-203 | on a snapshot without repeated ANV keys and with decodable values, the scan collects one record per ANV address |
| Anv.SnapshotScanHasAll | src/refdb.cpp:170-205 | every record of the table is in the scan of its snapshot |
| Anv.SnapshotScanOnlyStored | src/refdb.cpp:170-205 | every record in the scan of a snapshot is stored in the table |
| Anv.SnapshotKeys | src/refdb.cpp:170-205 | the ANV addresses of a snapshot are exactly the table's addresses |
| Anv.SnapshotScanIsComplete | src/refdb.cpp:170-205 | the scan of a snapshot returns every stored record, only stored records, and exactly as many as the table holds |
| RefDb.ReferralsViewDB.AddAddressToLottery | src/refdb.cpp:259-304 | returns true exactly when the address has an ANV record; the reservoir is not changed |
| RefDb.ReferralsViewDB.GetLotteryHeapSize | src/refdb.cpp:306-311 | a bound only: on a valid heap the size is within the 1000-slot capacity |
| RefDb.ReferralsViewDB.GetLotteryMinKey | src/refdb.cpp:315-321 | on a valid non-empty heap returns exactly the key in slot 0, which is no greater than any key in use |
| Lottery.ParentPos | src/refdb.cpp:337 | the parent position computed by the code is below the child, and equals the child divided by 4 |
| Lottery.RootIsMin | src/refdb.cpp:315-321 | on an ordered heap slot 0's key is no greater than any slot's key |
| Lottery.HeapMinAtRoot | src/refdb.cpp:315-321 | on an ordered non-empty heap slot 0 holds the least key |
| Lottery.ContentsAppend | src/refdb.cpp:328-335 | writing at the first free slot extends the heap's contents by that entry |
| Lottery.ContentsMoveHole | src/refdb.cpp:349-354 | moving the parent's entry into the hole keeps the multiset of entries |
| Lottery.SwapKeepsMultiset | src/refdb.cpp:349-354 | exchanging two positions keeps the multiset |
| Lottery.HoleOrderedInit | src/refdb.cpp:328-335 | an ordered heap with the hole at the first free slot is ordered around the hole |
| Lottery.HoleOrderedStep | src/refdb.cpp:345-354 | moving a parent whose key is not below the new key down into the hole keeps the order around the hole |
| Lottery.HoleOrderedFill | src/refdb.cpp:344-358 | filling the hole with an entry above its parent's key (or at slot 0) gives an ordered heap one slot larger |
| Lottery.SiftingInit | src/refdb.cpp:328-335 | the loop's state invariant holds on entry |
| Lottery.SiftingParentPresent | src/refdb.cpp:337-342 | a missing parent slot can only occur when the heap had missing slots before the call |
| Lottery.SiftingStep | src/refdb.cpp:349-354 | one parent move keeps the loop's state invariant |
| Lottery.SiftingDone | src/refdb.cpp:344-358 | writing the entry into the hole completes the insertion |
| Lottery.SiftUpFrom | src/refdb.cpp:335-360 | from any state of the loop, the rest of the sift-up succeeds on a heap with all slots present and completes the insertion |
| Lottery.SiftUpInserts | src/refdb.cpp:323-363 | inserting into a heap with all slots present succeeds; the result holds the old entries plus the new one, keeps the heap order under the code's parent formula, and leaves slots past the new size alone |
| RefDb.ReferralsViewDB.InsertLotteryAddress | src/refdb.cpp:323-363 | at capacity returns false with nothing changed; otherwise bumps the size first and returns true exactly when the sift-up finds each parent slot it reads, leaving the slots `SiftUp` computes; on success the entry is inserted as `InsertedInto` states; a valid heap stays valid |
| Lottery.BinaryParent | src/refdb.cpp:337 | the reference 0-based binary-heap parent `(pos - 1) / 2`, which line 337 does not compute and which `ParentFormulaIsNotBinary` contrasts with it: the position it gives has `pos` as its left or right child |
| Lottery.SiftUp | src/refdb.cpp:335-358 | when the sift finds every parent slot it reads, the slots written are the old ones plus the starting hole, and the new entry is among the values |
| Lottery.ParentFormulaIsNotBinary | src/refdb.cpp:337 | inserting keys 1, 3, 5 and 2 one after another with `SiftUp` succeeds at each step and gives slots ordered under the code's parent formula but not as a binary heap |

## Left out

- The weighted-key computation in `AddAddressToLottery` (64-bit draw, `log`, `float128` division, the `rand <= 0` assert) is floating-point numerics. The random value is a parameter the model does not use, and the weighted key is a `real`, compared only with `>`.
- Reservoir admission and eviction are left out: the source has only a comment describing them and no remove-minimum operation.
- The constructor's store configuration (cache size, memory-only flag, wipe flag, store name) and the opening of the database are left out. The model's constructor is a freshly wiped store.
- Serialization is left out. Scan keys and values arrive already decoded, as `Option` values, and a decode failure is `None`.
- The namespace tags other than the ANV tag are not declared: each table is its own map, so the tag is implicit in which field is read. The unused `DB_REFERRALS_BY_KEY_ID` tag is left out as well.
- Debug logging and base58 address formatting are output-only and left out.
- The store's iterator is a parameter of the scans: a sequence of entries, as a snapshot of the store would yield them.
- `MAX_LEVELS` and the cycle assert are replaced by the precondition `ChainIsFinite`. With a finite chain the counter can never reach the cap.
- Write and erase failures are left out; every store write succeeds in the model. The one failure path kept is `InsertLotteryAddress` finding a parent slot missing. It returns false after bumping the size, as the code does.
- RefDb.ReferralsViewDB.GetLotteryMinKey: the model treats the key that src/refdb.cpp:318 reads, `(DB_LOT_VAL, 0)` with an `int` literal, as the same key as heap slot 0, which `InsertLotteryAddress` reads and writes with a `size_t` position (src/refdb.cpp:340, 350, 358). Under a width-based key encoding on a 64-bit build these are two different store keys, and the read would then never see the slot the insertion fills. The serializer is not part of this model, so the model does not decide this. It states the evidently intended behaviour instead: one map `lotVal` holds all slots.
- RefDb.ReferralsViewDB.InsertLotteryAddress: on the missing-slot failure path the contract does not say which slots were already moved.
- 64-bit `CAmount` overflow in `UpdateANV` is not modelled; amounts are unbounded integers.
- The 64-bit `size_t` width of heap positions and the size counter is not modelled; both are natural numbers.
