/**
 * ANV (aggregate net value) records and the two full scans over the store's
 * forward iterator.
 */
module Anv {
  import opened Types
  import opened Seqs

  /**
   * The ANV tuple stored per address: the address type and origin stamped
   * by the last update that started at this address, and the amount.
   */
  datatype AnvRecord = AnvRecord(addressType: AddressType, origin: Address, amount: int)

  /** A value-initialised tuple: what UpdateANV starts from for an address without a record. */
  const ZeroAnv := AnvRecord(0, NullAddress, 0)

  /** The record UpdateANV reads for an address: the stored one, or zero. */
  function ReadAnv(anv: map<Address, AnvRecord>, a: Address): (r: AnvRecord)
    ensures a !in anv ==> r == ZeroAnv
    ensures a in anv ==> r == anv[a]
  {
    if a in anv then anv[a] else ZeroAnv
  }

  /**
   * What UpdateANV leaves at address `x` of the chain starting at `start`:
   * the amount plus `change`, with type and origin stamped only at `start`.
   */
  function Updated(anv: map<Address, AnvRecord>, addressType: AddressType, start: Address, x: Address, change: int): (r: AnvRecord)
    ensures r.amount == ReadAnv(anv, x).amount + change
    ensures x == start ==> r.addressType == addressType && r.origin == start
    ensures x != start ==> r.addressType == ReadAnv(anv, x).addressType && r.origin == ReadAnv(anv, x).origin
  {
    var r := ReadAnv(anv, x);
    if x == start then AnvRecord(addressType, start, r.amount + change) else r.(amount := r.amount + change)
  }

  predicate IsRewardable(r: AnvRecord)
  {
    r.addressType == 1 || r.addressType == 2
  }

  /**
   * Every record's origin is its own address, unless it was only ever
   * reached as an ancestor, in which case it keeps the zero type and origin.
   */
  ghost predicate OriginsConsistent(anv: map<Address, AnvRecord>)
  {
    forall a :: a in anv ==> anv[a].origin == a || (anv[a].origin == NullAddress && anv[a].addressType == 0)
  }

  ghost predicate AmountsNonNegative(anv: map<Address, AnvRecord>)
  {
    forall a :: a in anv ==> anv[a].amount >= 0
  }

  // UpdateANV as a fold over the referrer chain.

  /** The record UpdateANV writes for an address it reads as `r`: stamped only at the first level. */
  function Bumped(r: AnvRecord, firstLevel: bool, addressType: AddressType, start: Address, change: int): AnvRecord
  {
    var stamped := if firstLevel then r.(addressType := addressType, origin := start) else r;
    stamped.(amount := stamped.amount + change)
  }

  /** The ANV table after UpdateANV has walked the addresses of `c` in order. */
  ghost function AddAlong(anv: map<Address, AnvRecord>, addressType: AddressType, start: Address, c: seq<Address>, change: int): map<Address, AnvRecord>
    decreases |c|
  {
    if c == [] then anv
    else
      var before := AddAlong(anv, addressType, start, c[..|c| - 1], change);
      var x := c[|c| - 1];
      before[x := Bumped(ReadAnv(before, x), |c| == 1, addressType, start, change)]
  }

  /** The walk's table holds the old addresses plus exactly the visited ones. */
  lemma {:induction false} AddAlongKeys(anv: map<Address, AnvRecord>, addressType: AddressType, start: Address, c: seq<Address>, change: int)
    ensures AddAlong(anv, addressType, start, c, change).Keys == anv.Keys + (set x | x in c)
    decreases |c|
  {
    if c != [] {
      AddAlongKeys(anv, addressType, start, c[..|c| - 1], change);
      assert c == c[..|c| - 1] + [c[|c| - 1]];
    }
  }

  /** Walking one more address updates that address and nothing else. */
  lemma AddAlongSnoc(anv: map<Address, AnvRecord>, addressType: AddressType, start: Address, p: seq<Address>, x: Address, change: int)
    ensures var before := AddAlong(anv, addressType, start, p, change);
      AddAlong(anv, addressType, start, p + [x], change)
        == before[x := Bumped(ReadAnv(before, x), p == [], addressType, start, change)]
  {
    SnocParts(p, x);
  }

  /** An address the walk does not visit keeps its record, or its absence. */
  lemma {:induction false} AddAlongOutside(anv: map<Address, AnvRecord>, addressType: AddressType, start: Address, c: seq<Address>, change: int, x: Address)
    requires x !in c
    ensures var after := AddAlong(anv, addressType, start, c, change);
      (x in after <==> x in anv) && (x in after ==> after[x] == anv[x]) && ReadAnv(after, x) == ReadAnv(anv, x)
    decreases |c|
  {
    if c != [] {
      PrefixMembers(c, x);
      AddAlongOutside(anv, addressType, start, c[..|c| - 1], change, x);
    }
  }

  /**
   * Walking a chain without repetitions that begins at `start` adds `change`
   * to every address on it, reading each address's original record, and
   * stamps type and origin at `start` only.
   */
  lemma {:induction false} AddAlongEffect(anv: map<Address, AnvRecord>, addressType: AddressType, start: Address, c: seq<Address>, change: int, x: Address)
    requires Distinct(c) && (c != [] ==> c[0] == start)
    requires x in c
    ensures var after := AddAlong(anv, addressType, start, c, change);
      x in after && after[x] == Updated(anv, addressType, start, x, change)
    decreases |c|
  {
    var p, last := c[..|c| - 1], c[|c| - 1];
    DistinctPrefix(c);
    if x == last {
      DistinctNotBefore(c, |c| - 1);
      AddAlongOutside(anv, addressType, start, p, change, last);
      if p != [] {
        assert c[0] != c[|c| - 1];
      }
    } else {
      PrefixMembers(c, x);
      AddAlongEffect(anv, addressType, start, p, change, x);
    }
  }

  /** UpdateANV stamps an origin only at the address it starts from. */
  lemma AddAlongKeepsOrigins(anv: map<Address, AnvRecord>, addressType: AddressType, start: Address, c: seq<Address>, change: int)
    requires Distinct(c) && (c != [] ==> c[0] == start)
    requires OriginsConsistent(anv)
    ensures OriginsConsistent(AddAlong(anv, addressType, start, c, change))
  {
    var after := AddAlong(anv, addressType, start, c, change);
    forall a | a in after
      ensures after[a].origin == a || (after[a].origin == NullAddress && after[a].addressType == 0)
    {
      if a in c {
        AddAlongEffect(anv, addressType, start, c, change, a);
      } else {
        AddAlongOutside(anv, addressType, start, c, change, a);
      }
    }
  }

  /** UpdateANV keeps every amount non-negative when no address on the chain would drop below zero. */
  lemma AddAlongKeepsAmounts(anv: map<Address, AnvRecord>, addressType: AddressType, start: Address, c: seq<Address>, change: int)
    requires Distinct(c) && (c != [] ==> c[0] == start)
    requires AmountsNonNegative(anv)
    requires forall x :: x in c ==> ReadAnv(anv, x).amount + change >= 0
    ensures AmountsNonNegative(AddAlong(anv, addressType, start, c, change))
  {
    var after := AddAlong(anv, addressType, start, c, change);
    forall a | a in after
      ensures after[a].amount >= 0
    {
      if a in c {
        AddAlongEffect(anv, addressType, start, c, change, a);
      } else {
        AddAlongOutside(anv, addressType, start, c, change, a);
      }
    }
  }

  // The forward iterator over the whole store.

  datatype ScanKey = ScanKey(tag: char, address: Address)

  /**
   * One entry of the store's iterator, as the scan decodes it: the key as a
   * (tag, address) pair and the value as an ANV tuple, each `None` when it
   * does not decode.
   */
  datatype ScanEntry = ScanEntry(key: Option<ScanKey>, value: Option<AnvRecord>)

  /** The address of an entry in the ANV namespace. */
  function AnvKeyOf(e: ScanEntry): Option<Address>
  {
    if e.key.Some? && e.key.value.tag == DB_ANV then Some(e.key.value.address) else None
  }

  /** The record a scan collects from one entry: ANV namespace and a decodable value. */
  function AnvOf(e: ScanEntry): Option<AnvRecord>
  {
    if AnvKeyOf(e).Some? then e.value else None
  }

  /** What a scan collects from one entry: its record, if it yields one. */
  function Collected(e: ScanEntry): seq<AnvRecord>
  {
    match AnvOf(e) case Some(a) => [a] case None => []
  }

  /** What a rewardable scan collects from one entry: its record, if it yields one of type 1 or 2. */
  function CollectedRewardable(e: ScanEntry): seq<AnvRecord>
  {
    match AnvOf(e) case Some(a) => (if IsRewardable(a) then [a] else []) case None => []
  }

  /** The records a scan collects from the first `n` entries of a snapshot, in scan order. */
  function AnvsUpTo(s: seq<ScanEntry>, n: nat): (r: seq<AnvRecord>)
    requires n <= |s|
    ensures |r| <= n
  {
    if n == 0 then [] else AnvsUpTo(s, n - 1) + Collected(s[n - 1])
  }

  /** What GetAllANVs returns for an iterator snapshot. */
  function AllAnvs(s: seq<ScanEntry>): seq<AnvRecord>
  {
    AnvsUpTo(s, |s|)
  }

  /** The records a rewardable scan collects from the first `n` entries, in scan order. */
  function RewardableUpTo(s: seq<ScanEntry>, n: nat): seq<AnvRecord>
    requires n <= |s|
  {
    if n == 0 then [] else RewardableUpTo(s, n - 1) + CollectedRewardable(s[n - 1])
  }

  /** What GetAllRewardableANVs returns for an iterator snapshot. */
  function RewardableAnvs(s: seq<ScanEntry>): seq<AnvRecord>
  {
    RewardableUpTo(s, |s|)
  }

  /** One more entry adds its record to the full scan, if it yields one. */
  lemma AnvsUpToStep(s: seq<ScanEntry>, i: nat)
    requires i < |s|
    ensures AnvOf(s[i]).None? ==> AnvsUpTo(s, i + 1) == AnvsUpTo(s, i)
    ensures AnvOf(s[i]).Some? ==> AnvsUpTo(s, i + 1) == AnvsUpTo(s, i) + [AnvOf(s[i]).value]
  {
    if AnvOf(s[i]).None? {
      assert AnvsUpTo(s, i) + [] == AnvsUpTo(s, i);
    }
  }

  /** One more entry adds its record to the rewardable scan, if it yields one of type 1 or 2. */
  lemma RewardableUpToStep(s: seq<ScanEntry>, i: nat)
    requires i < |s|
    ensures !(AnvOf(s[i]).Some? && IsRewardable(AnvOf(s[i]).value)) ==> RewardableUpTo(s, i + 1) == RewardableUpTo(s, i)
    ensures AnvOf(s[i]).Some? && IsRewardable(AnvOf(s[i]).value) ==>
      RewardableUpTo(s, i + 1) == RewardableUpTo(s, i) + [AnvOf(s[i]).value]
  {
    if !(AnvOf(s[i]).Some? && IsRewardable(AnvOf(s[i]).value)) {
      assert RewardableUpTo(s, i) + [] == RewardableUpTo(s, i);
    }
  }

  /** The records of type 1 or 2, in their original order. */
  function OnlyRewardable(rs: seq<AnvRecord>): seq<AnvRecord>
  {
    if rs == [] then []
    else (if IsRewardable(rs[0]) then [rs[0]] else []) + OnlyRewardable(rs[1..])
  }

  lemma {:induction false} OnlyRewardableMembers(rs: seq<AnvRecord>, x: AnvRecord)
    ensures x in OnlyRewardable(rs) <==> x in rs && IsRewardable(x)
  {
    if rs != [] {
      OnlyRewardableMembers(rs[1..], x);
      assert x in rs <==> x == rs[0] || x in rs[1..];
    }
  }

  lemma {:induction false} OnlyRewardableIsSubseq(rs: seq<AnvRecord>)
    ensures IsSubseq(OnlyRewardable(rs), rs)
  {
    if rs != [] {
      OnlyRewardableIsSubseq(rs[1..]);
      var rest := OnlyRewardable(rs[1..]);
      if IsRewardable(rs[0]) {
        assert ([rs[0]] + rest)[0] == rs[0] && ([rs[0]] + rest)[1..] == rest;
      } else {
        assert OnlyRewardable(rs) == rest;
      }
    }
  }

  lemma {:induction false} OnlyRewardableAppend(a: seq<AnvRecord>, b: seq<AnvRecord>)
    ensures OnlyRewardable(a + b) == OnlyRewardable(a) + OnlyRewardable(b)
  {
    if a == [] {
      assert a + b == b;
    } else {
      OnlyRewardableAppend(a[1..], b);
      var head := if IsRewardable(a[0]) then [a[0]] else [];
      calc {
        OnlyRewardable(a + b);
        { AppendTail(a, b); }
        head + OnlyRewardable(a[1..] + b);
        head + (OnlyRewardable(a[1..]) + OnlyRewardable(b));
        (head + OnlyRewardable(a[1..])) + OnlyRewardable(b);
      }
    }
  }

  /** Filtering what one entry yields is what the rewardable scan takes from it. */
  lemma OnlyRewardableCollected(e: ScanEntry)
    ensures OnlyRewardable(Collected(e)) == CollectedRewardable(e)
  {
    var c := Collected(e);
    if c != [] {
      assert c[1..] == [];
    }
  }

  /** The rewardable scan is the full scan with every record of another type dropped. */
  lemma {:induction false} RewardableIsFiltered(s: seq<ScanEntry>, n: nat)
    requires n <= |s|
    ensures RewardableUpTo(s, n) == OnlyRewardable(AnvsUpTo(s, n))
  {
    if n > 0 {
      var before, last := AnvsUpTo(s, n - 1), Collected(s[n - 1]);
      RewardableIsFiltered(s, n - 1);
      OnlyRewardableAppend(before, last);
      OnlyRewardableCollected(s[n - 1]);
      calc {
        OnlyRewardable(AnvsUpTo(s, n));
        OnlyRewardable(before + last);
        OnlyRewardable(before) + OnlyRewardable(last);
        RewardableUpTo(s, n - 1) + CollectedRewardable(s[n - 1]);
      }
    }
  }

  /**
   * The rewardable scan keeps exactly the records of the full scan whose
   * type is 1 or 2, in the same order.
   */
  lemma RewardableFiltersAll(s: seq<ScanEntry>)
    ensures RewardableAnvs(s) == OnlyRewardable(AllAnvs(s))
    ensures forall rec :: rec in RewardableAnvs(s) <==> rec in AllAnvs(s) && IsRewardable(rec)
    ensures IsSubseq(RewardableAnvs(s), AllAnvs(s))
  {
    RewardableIsFiltered(s, |s|);
    OnlyRewardableIsSubseq(AllAnvs(s));
    forall rec
      ensures rec in RewardableAnvs(s) <==> rec in AllAnvs(s) && IsRewardable(rec)
    {
      OnlyRewardableMembers(AllAnvs(s), rec);
    }
  }

  /** A record is collected from the first `n` entries exactly when one of them yields it. */
  lemma {:induction false} AnvsUpToMembers(s: seq<ScanEntry>, n: nat, rec: AnvRecord)
    requires n <= |s|
    ensures rec in AnvsUpTo(s, n) <==> exists i :: 0 <= i < n && AnvOf(s[i]) == Some(rec)
  {
    if n > 0 {
      AnvsUpToMembers(s, n - 1, rec);
      if rec in AnvsUpTo(s, n) {
        if rec in AnvsUpTo(s, n - 1) {
          var i :| 0 <= i < n - 1 && AnvOf(s[i]) == Some(rec);
          assert 0 <= i < n && AnvOf(s[i]) == Some(rec);
        } else {
          assert AnvOf(s[n - 1]) == Some(rec);
        }
      }
      if exists i :: 0 <= i < n && AnvOf(s[i]) == Some(rec) {
        var i :| 0 <= i < n && AnvOf(s[i]) == Some(rec);
        if i == n - 1 {
          assert rec in Collected(s[n - 1]);
        } else {
          assert rec in AnvsUpTo(s, n - 1);
        }
      }
    }
  }

  // Relating a snapshot to the ANV table it was taken of.

  /** The addresses of the ANV-namespace entries among the first `n` entries. */
  ghost function AnvKeysUpTo(s: seq<ScanEntry>, n: nat): set<Address>
    requires n <= |s|
  {
    if n == 0 then {}
    else AnvKeysUpTo(s, n - 1) + (match AnvKeyOf(s[n - 1]) case Some(a) => {a} case None => {})
  }

  lemma {:induction false} AnvKeysMembers(s: seq<ScanEntry>, n: nat, a: Address)
    requires n <= |s|
    ensures a in AnvKeysUpTo(s, n) <==> exists i :: 0 <= i < n && AnvKeyOf(s[i]) == Some(a)
  {
    if n > 0 {
      AnvKeysMembers(s, n - 1, a);
      if a in AnvKeysUpTo(s, n) && a !in AnvKeysUpTo(s, n - 1) {
        assert AnvKeyOf(s[n - 1]) == Some(a);
      }
      if exists i :: 0 <= i < n && AnvKeyOf(s[i]) == Some(a) {
        var i :| 0 <= i < n && AnvKeyOf(s[i]) == Some(a);
        if i < n - 1 {
          assert a in AnvKeysUpTo(s, n - 1);
        }
      }
    }
  }

  /** No address occurs twice in the ANV namespace, and each such value decodes. */
  ghost predicate WellFormedScan(s: seq<ScanEntry>)
  {
    && (forall i :: 0 <= i < |s| && AnvKeyOf(s[i]).Some? ==> s[i].value.Some?)
    && (forall i, j :: 0 <= i < j < |s| && AnvKeyOf(s[i]).Some? ==> AnvKeyOf(s[i]) != AnvKeyOf(s[j]))
  }

  /** On a well-formed snapshot the scan collects one record per ANV-namespace address. */
  lemma {:induction false} ScanCountsKeys(s: seq<ScanEntry>, n: nat)
    requires n <= |s| && WellFormedScan(s)
    ensures |AnvsUpTo(s, n)| == |AnvKeysUpTo(s, n)|
  {
    if n > 0 {
      ScanCountsKeys(s, n - 1);
      match AnvKeyOf(s[n - 1])
      case Some(a) =>
        forall j | 0 <= j < n - 1
          ensures AnvKeyOf(s[j]) != Some(a)
        {
          assert AnvKeyOf(s[j]) != AnvKeyOf(s[n - 1]);
        }
        AnvKeysMembers(s, n - 1, a);
        assert |Collected(s[n - 1])| == 1;
      case None =>
        assert Collected(s[n - 1]) == [];
    }
  }

  /**
   * `s` is an iterator snapshot of the store whose ANV table is `anv`: its
   * ANV-namespace entries are exactly the table's entries, each once.
   */
  ghost predicate IsAnvSnapshot(s: seq<ScanEntry>, anv: map<Address, AnvRecord>)
  {
    && (forall i :: 0 <= i < |s| && AnvKeyOf(s[i]).Some? ==>
          AnvKeyOf(s[i]).value in anv && s[i].value == Some(anv[AnvKeyOf(s[i]).value]))
    && (forall a :: a in anv ==> exists i :: 0 <= i < |s| && AnvKeyOf(s[i]) == Some(a))
    && (forall i, j :: 0 <= i < j < |s| && AnvKeyOf(s[i]).Some? ==> AnvKeyOf(s[i]) != AnvKeyOf(s[j]))
  }

  /** Every stored record is in the scan of a snapshot. */
  lemma SnapshotScanHasAll(s: seq<ScanEntry>, anv: map<Address, AnvRecord>, a: Address)
    requires IsAnvSnapshot(s, anv) && a in anv
    ensures anv[a] in AllAnvs(s)
  {
    var i :| 0 <= i < |s| && AnvKeyOf(s[i]) == Some(a);
    assert AnvOf(s[i]) == Some(anv[a]);
    AnvsUpToMembers(s, |s|, anv[a]);
  }

  /** Every record in the scan of a snapshot is stored. */
  lemma SnapshotScanOnlyStored(s: seq<ScanEntry>, anv: map<Address, AnvRecord>, rec: AnvRecord)
    requires IsAnvSnapshot(s, anv) && rec in AllAnvs(s)
    ensures exists a :: a in anv && anv[a] == rec
  {
    AnvsUpToMembers(s, |s|, rec);
    var i :| 0 <= i < |s| && AnvOf(s[i]) == Some(rec);
    var a := AnvKeyOf(s[i]).value;
    assert a in anv && anv[a] == rec;
  }

  /** The ANV-namespace addresses of a snapshot are the table's addresses. */
  lemma SnapshotKeys(s: seq<ScanEntry>, anv: map<Address, AnvRecord>)
    requires IsAnvSnapshot(s, anv)
    ensures AnvKeysUpTo(s, |s|) == anv.Keys
  {
    forall a | a in AnvKeysUpTo(s, |s|) ensures a in anv {
      AnvKeysMembers(s, |s|, a);
    }
    forall a | a in anv ensures a in AnvKeysUpTo(s, |s|) {
      AnvKeysMembers(s, |s|, a);
    }
  }

  /**
   * Scanning a snapshot of the ANV table returns every stored record, only
   * stored records, and exactly as many records as the table holds.
   */
  lemma SnapshotScanIsComplete(s: seq<ScanEntry>, anv: map<Address, AnvRecord>)
    requires IsAnvSnapshot(s, anv)
    ensures forall a :: a in anv ==> anv[a] in AllAnvs(s)
    ensures forall rec :: rec in AllAnvs(s) ==> exists a :: a in anv && anv[a] == rec
    ensures |AllAnvs(s)| == |anv|
  {
    forall a | a in anv
      ensures anv[a] in AllAnvs(s)
    {
      SnapshotScanHasAll(s, anv, a);
    }
    forall rec | rec in AllAnvs(s)
      ensures exists a :: a in anv && anv[a] == rec
    {
      SnapshotScanOnlyStored(s, anv, rec);
    }
    ScanCountsKeys(s, |s|);
    SnapshotKeys(s, anv);
  }
}
