/**
 * The referral database: one object owning the store's tables, one map per
 * namespace, with the operations of src/refdb.cpp as its members.
 */
module RefDb {
  import opened Types
  import opened Seqs
  import opened ReferralTree
  import opened Anv
  import opened Lottery

  class ReferralsViewDB {
    var referrals: map<CodeHash, Referral>
    var parent: map<Address, Address>
    var children: map<Address, seq<Address>>
    var anv: map<Address, AnvRecord>
    /** The persisted heap size; an absent counter reads as 0. */
    var lotSize: nat
    var lotVal: map<nat, LotteryEntry>

    /** A freshly wiped store. */
    constructor ()
      ensures Tree() == EmptyTree && anv == map[]
      ensures lotSize == 0 && lotVal == map[]
      ensures LotteryValid()
    {
      referrals, parent, children := map[], map[], map[];
      anv := map[];
      lotSize, lotVal := 0, map[];
    }

    function Tree(): TreeStore
      reads this
    {
      TreeStore(referrals, parent, children)
    }

    // Referral tree store.

    function GetReferral(codeHash: CodeHash): Option<Referral>
      reads this
    {
      Tree().GetReferral(codeHash)
    }

    function GetReferrer(address: Address): Option<Address>
      reads this
    {
      Tree().GetReferrer(address)
    }

    function GetChildren(address: Address): seq<Address>
      reads this
    {
      Tree().GetChildren(address)
    }

    predicate ReferralCodeExists(codeHash: CodeHash): (b: bool)
      reads this
      ensures b <==> GetReferral(codeHash).Some?
    {
      Tree().ReferralCodeExists(codeHash)
    }

    predicate WalletIdExists(address: Address): (b: bool)
      reads this
      ensures b <==> GetReferrer(address).Some?
    {
      Tree().WalletIdExists(address)
    }

    method InsertReferral(referral: Referral) returns (ok: bool)
      modifies this`referrals, this`parent, this`children
      ensures ok
      ensures Tree() == Inserted(old(Tree()), referral)
    {
      ghost var before := Tree();
      referrals := referrals[referral.codeHash := referral];

      var parentAddress := NullAddress;
      var parentReferral := GetReferral(referral.previousReferral);
      if parentReferral.Some? {
        parentAddress := parentReferral.value.pubKeyId;
      }

      parent := parent[referral.pubKeyId := parentAddress];

      var kids := GetChildren(parentAddress);
      kids := kids + [referral.pubKeyId];
      children := children[parentAddress := kids];
      ok := true;
    }

    method RemoveReferral(referral: Referral) returns (ok: bool)
      modifies this`referrals, this`parent, this`children
      ensures ok
      ensures Tree() == Removed(old(Tree()), referral)
    {
      referrals := referrals - {referral.codeHash};

      var parentAddress := NullAddress;
      var parentReferral := GetReferral(referral.previousReferral);
      if parentReferral.Some? {
        parentAddress := parentReferral.value.pubKeyId;
      }

      parent := parent - {referral.pubKeyId};

      var kids := GetChildren(parentAddress);
      kids := RemoveAll(kids, referral.pubKeyId);
      children := children[parentAddress := kids];
      ok := true;
    }

    // ANV aggregator.

    function GetANV(address: Address): (r: Option<AnvRecord>)
      reads this
      ensures r.Some? <==> address in anv
      ensures r.None? ==> ReadAnv(anv, address) == ZeroAnv
      ensures r.Some? ==> r.value == ReadAnv(anv, address)
    {
      if address in anv then Some(anv[address]) else None
    }

    /**
     * Adds `change` to the record of `startAddress` and of every address on
     * its referrer chain, stamping type and origin on the first one only.
     */
    method UpdateANV(addressType: AddressType, startAddress: Address, change: int) returns (ok: bool)
      requires ChainIsFinite(parent, startAddress)
      requires forall x :: x in Chain(parent, startAddress) ==> ReadAnv(anv, x).amount + change >= 0
      modifies this`anv
      ensures ok
      ensures anv == AddAlong(old(anv), addressType, startAddress, Chain(parent, startAddress), change)
      ensures startAddress in Chain(parent, startAddress)
      ensures forall x :: x in Chain(parent, startAddress) ==>
        x in anv && anv[x] == Updated(old(anv), addressType, startAddress, x, change)
      ensures forall x :: x !in Chain(parent, startAddress) ==>
        (x in anv <==> x in old(anv)) && (x in anv ==> anv[x] == old(anv)[x])
      ensures AmountsNonNegative(old(anv)) ==> AmountsNonNegative(anv)
      ensures OriginsConsistent(old(anv)) ==> OriginsConsistent(anv)
    {
      ghost var chain := Chain(parent, startAddress);
      ChainDistinct(parent, startAddress, chain);
      var address: Option<Address> := Some(startAddress);
      var levels: nat := 0;

      while address.Some?
        invariant levels <= |chain|
        invariant address == if levels < |chain| then Some(chain[levels]) else None
        invariant anv == AddAlong(old(anv), addressType, startAddress, chain[..levels], change)
        decreases |chain| - levels
      {
        var current := address.value;
        var record := ReadAnv(anv, current);

        if levels == 0 {
          record := record.(addressType := addressType, origin := startAddress);
        }

        record := record.(amount := record.amount + change);

        TakeOneMore(chain, levels);
        AddAlongSnoc(old(anv), addressType, startAddress, chain[..levels], current, change);
        anv := anv[current := record];

        address := GetReferrer(current);
        levels := levels + 1;
      }
      assert chain[..levels] == chain;
      forall x | x in chain
        ensures x in anv && anv[x] == Updated(old(anv), addressType, startAddress, x, change)
      {
        AddAlongEffect(old(anv), addressType, startAddress, chain, change, x);
      }
      forall x | x !in chain
        ensures (x in anv <==> x in old(anv)) && (x in anv ==> anv[x] == old(anv)[x])
      {
        AddAlongOutside(old(anv), addressType, startAddress, chain, change, x);
      }
      if AmountsNonNegative(old(anv)) {
        AddAlongKeepsAmounts(old(anv), addressType, startAddress, chain, change);
      }
      if OriginsConsistent(old(anv)) {
        AddAlongKeepsOrigins(old(anv), addressType, startAddress, chain, change);
      }
      ok := true;
    }

    /** Every ANV record of an iterator snapshot, in scan order. */
    method GetAllANVs(snapshot: seq<ScanEntry>) returns (anvs: seq<AnvRecord>)
      ensures anvs == AllAnvs(snapshot)
      ensures IsAnvSnapshot(snapshot, anv) ==>
        && (forall a :: a in anv ==> anv[a] in anvs)
        && (forall rec :: rec in anvs ==> exists a :: a in anv && anv[a] == rec)
        && |anvs| == |anv|
    {
      anvs := [];
      var i := 0;
      while i < |snapshot|
        invariant 0 <= i <= |snapshot|
        invariant anvs == AnvsUpTo(snapshot, i)
      {
        var entry := snapshot[i];
        AnvsUpToStep(snapshot, i);
        if entry.key.None? {
          i := i + 1;
          continue;
        }
        if entry.key.value.tag != DB_ANV {
          i := i + 1;
          continue;
        }
        if entry.value.None? {
          i := i + 1;
          continue;
        }
        anvs := anvs + [entry.value.value];
        i := i + 1;
      }
      if IsAnvSnapshot(snapshot, anv) {
        SnapshotScanIsComplete(snapshot, anv);
      }
    }

    /** The ANV records of an iterator snapshot whose address type is 1 or 2, in scan order. */
    method GetAllRewardableANVs(snapshot: seq<ScanEntry>) returns (anvs: seq<AnvRecord>)
      ensures anvs == RewardableAnvs(snapshot)
    {
      anvs := [];
      var i := 0;
      while i < |snapshot|
        invariant 0 <= i <= |snapshot|
        invariant anvs == RewardableUpTo(snapshot, i)
      {
        var entry := snapshot[i];
        RewardableUpToStep(snapshot, i);
        if entry.key.None? {
          i := i + 1;
          continue;
        }
        if entry.key.value.tag != DB_ANV {
          i := i + 1;
          continue;
        }
        if entry.value.None? {
          i := i + 1;
          continue;
        }
        var record := entry.value.value;
        if record.addressType != 1 && record.addressType != 2 {
          i := i + 1;
          continue;
        }
        anvs := anvs + [record];
        i := i + 1;
      }
    }

    // Lottery reservoir.

    /** The slots in use are written and ordered, within capacity. */
    ghost predicate LotteryValid()
      reads this
    {
      lotSize <= MAX_RESERVOIR_SIZE && SlotsPresent(lotVal, lotSize) && HeapOrdered(lotVal, lotSize)
    }

    /**
     * With the weighted key abstracted away, the only decision left is
     * whether the address has an ANV record; the reservoir itself is not
     * touched.
     */
    method AddAddressToLottery(randValue: Hash256, address: Address) returns (ok: bool)
      ensures ok <==> GetANV(address).Some?
    {
      var maybeAnv := GetANV(address);
      if maybeAnv.None? {
        return false;
      }
      var heapSize := GetLotteryHeapSize();
      return true;
    }

    function GetLotteryHeapSize(): (size: nat)
      reads this
      ensures LotteryValid() ==> size <= MAX_RESERVOIR_SIZE
    {
      lotSize
    }

    /**
     * The key in slot 0: on a valid non-empty heap, the least key held. Slot 0
     * is read from the same map `InsertLotteryAddress` writes.
     */
    function GetLotteryMinKey(): (k: Option<WeightedKey>)
      reads this
      ensures LotteryValid() && lotSize > 0 ==> k == Some(lotVal[0].key)
      ensures LotteryValid() && lotSize > 0 ==>
        k.Some? && forall i :: 0 <= i < lotSize ==> k.value <= lotVal[i].key
    {
      HeapMinAtRoot(lotVal, lotSize);
      if 0 in lotVal then Some(lotVal[0].key) else None
    }

    /**
     * Appends (key, address) at the next free slot and sifts it towards
     * slot 0, moving each parent with a key not below `key` down one level.
     */
    method InsertLotteryAddress(key: WeightedKey, address: Address) returns (ok: bool)
      modifies this`lotSize, this`lotVal
      ensures old(lotSize) >= MAX_RESERVOIR_SIZE ==> !ok && lotSize == old(lotSize) && lotVal == old(lotVal)
      ensures old(lotSize) < MAX_RESERVOIR_SIZE ==>
        && lotSize == old(lotSize) + 1
        && (ok <==> SiftUp(old(lotVal), old(lotSize), LotteryEntry(key, address)).Some?)
        && (ok ==> lotVal == SiftUp(old(lotVal), old(lotSize), LotteryEntry(key, address)).value)
      ensures ok ==> InsertedInto(old(lotVal), old(lotSize), LotteryEntry(key, address), lotVal)
      ensures old(LotteryValid()) ==> LotteryValid()
    {
      var pos: nat := GetLotteryHeapSize();
      if pos >= MAX_RESERVOIR_SIZE {
        return false;
      }
      lotSize := pos + 1;

      ghost var n := pos;
      ghost var start := lotVal;
      var entry := LotteryEntry(key, address);
      SiftUpInserts(start, n, entry);

      while pos != 0
        invariant lotSize == n + 1
        invariant SiftUp(lotVal, pos, entry) == SiftUp(start, n, entry)
        decreases pos
      {
        var parentPos: nat := if pos % 2 == 0 then pos / 4 else (pos - 1) / 4;
        assert parentPos == ParentPos(pos);

        if parentPos !in lotVal {
          return false;
        }
        var parentValue := lotVal[parentPos];

        // The new key is above this parent's: the hole is its slot.
        if key > parentValue.key {
          break;
        }

        // The parent's entry fills the hole; the hole moves to the parent's slot.
        lotVal := lotVal[pos := parentValue];
        pos := parentPos;
      }

      lotVal := lotVal[pos := entry];
      ok := true;
    }
  }
}
