/**
 * The referral tree store: referral records by code, the parent index
 * (address to inviter address) and the hand-maintained children index
 * (address to the addresses it invited, duplicates allowed).
 */
module ReferralTree {
  import opened Types
  import opened Seqs

  /** The three tables that InsertReferral and RemoveReferral keep in step. */
  datatype TreeStore = TreeStore(
    referrals: map<CodeHash, Referral>,
    parent: map<Address, Address>,
    children: map<Address, seq<Address>>)
  {
    predicate ReferralCodeExists(codeHash: CodeHash) {
      codeHash in referrals
    }

    predicate WalletIdExists(address: Address) {
      address in parent
    }

    /** A point read of the referral table; a miss is `None`. */
    function GetReferral(codeHash: CodeHash): (r: Option<Referral>)
      ensures r.Some? <==> ReferralCodeExists(codeHash)
    {
      if codeHash in referrals then Some(referrals[codeHash]) else None
    }

    /** A point read of the parent index; roots read as `Some(NullAddress)`. */
    function GetReferrer(address: Address): (r: Option<Address>)
      ensures r.Some? <==> WalletIdExists(address)
    {
      if address in parent then Some(parent[address]) else None
    }

    /** A point read of the children index; an absent list reads as empty. */
    function GetChildren(address: Address): (r: seq<Address>)
      ensures address !in children ==> r == []
    {
      if address in children then children[address] else []
    }

    /**
     * The inviter address a referral with the given previous code resolves
     * to: the address of the referral stored under that code, or the
     * default address when there is none.
     */
    function InviterOf(previous: CodeHash): (a: Address)
      ensures !ReferralCodeExists(previous) ==> a == NullAddress
      ensures ReferralCodeExists(previous) ==> a == referrals[previous].pubKeyId
    {
      match GetReferral(previous)
      case Some(p) => p.pubKeyId
      case None => NullAddress
    }
  }

  const EmptyTree := TreeStore(map[], map[], map[])

  /**
   * The tables after InsertReferral(r): the record is written first, so the
   * inviter lookup already sees it; the parent entry is (over)written and
   * the new address is appended to the inviter's children list.
   */
  function Inserted(t: TreeStore, r: Referral): TreeStore
  {
    var written := t.(referrals := t.referrals[r.codeHash := r]);
    var p := written.InviterOf(r.previousReferral);
    written.(parent := t.parent[r.pubKeyId := p],
             children := t.children[p := t.GetChildren(p) + [r.pubKeyId]])
  }

  /**
   * The tables after RemoveReferral(r): the record is erased first, then the
   * inviter is resolved, the parent entry erased and every occurrence of the
   * address dropped from the inviter's children list.
   */
  function Removed(t: TreeStore, r: Referral): TreeStore
  {
    var erased := t.(referrals := t.referrals - {r.codeHash});
    var p := erased.InviterOf(r.previousReferral);
    erased.(parent := t.parent - {r.pubKeyId},
            children := t.children[p := RemoveAll(t.GetChildren(p), r.pubKeyId)])
  }

  /** The inviter InsertReferral(r) resolves, in terms of the tables before the call. */
  function InviterOnInsert(t: TreeStore, r: Referral): Address
  {
    if r.previousReferral == r.codeHash then r.pubKeyId else t.InviterOf(r.previousReferral)
  }

  lemma InsertedStoresReferral(t: TreeStore, r: Referral)
    ensures Inserted(t, r).GetReferral(r.codeHash) == Some(r)
    ensures Inserted(t, r).ReferralCodeExists(r.codeHash)
    ensures forall h :: h != r.codeHash ==> Inserted(t, r).GetReferral(h) == t.GetReferral(h)
  {
  }

  lemma InsertedLinksReferrer(t: TreeStore, r: Referral)
    ensures Inserted(t, r).GetReferrer(r.pubKeyId) == Some(InviterOnInsert(t, r))
    ensures Inserted(t, r).WalletIdExists(r.pubKeyId)
    ensures forall a :: a != r.pubKeyId ==> Inserted(t, r).GetReferrer(a) == t.GetReferrer(a)
  {
  }

  lemma InsertedAppendsChild(t: TreeStore, r: Referral)
    ensures var p := InviterOnInsert(t, r);
      && Inserted(t, r).GetChildren(p) == t.GetChildren(p) + [r.pubKeyId]
      && forall a :: a != p ==> Inserted(t, r).GetChildren(a) == t.GetChildren(a)
  {
  }

  /** The inviter RemoveReferral(r) resolves: the record itself is already gone. */
  function InviterOnRemove(t: TreeStore, r: Referral): Address
  {
    if r.previousReferral == r.codeHash then NullAddress else t.InviterOf(r.previousReferral)
  }

  lemma RemovedErases(t: TreeStore, r: Referral)
    ensures Removed(t, r).GetReferral(r.codeHash) == None
    ensures forall h :: h != r.codeHash ==> Removed(t, r).GetReferral(h) == t.GetReferral(h)
    ensures !Removed(t, r).WalletIdExists(r.pubKeyId)
    ensures forall a :: a != r.pubKeyId ==> Removed(t, r).GetReferrer(a) == t.GetReferrer(a)
    ensures var p := InviterOnRemove(t, r);
      && Removed(t, r).GetChildren(p) == RemoveAll(t.GetChildren(p), r.pubKeyId)
      && forall a :: a != p ==> Removed(t, r).GetChildren(a) == t.GetChildren(a)
  {
  }

  /** Every listed child has a parent entry naming the list's owner. */
  ghost predicate ListsPointToOwners(parent: map<Address, Address>, children: map<Address, seq<Address>>)
  {
    forall a, c :: a in children && c in children[a] ==> c in parent && parent[c] == a
  }

  /** Every address with a parent entry is listed among its parent's children. */
  ghost predicate ParentsListed(parent: map<Address, Address>, children: map<Address, seq<Address>>)
  {
    forall c :: c in parent ==> parent[c] in children && c in children[parent[c]]
  }

  /** The children index agrees with the parent index. */
  ghost predicate IndexConsistent(t: TreeStore)
  {
    ListsPointToOwners(t.parent, t.children)
  }

  /** The children index is the exact reverse of the parent index, up to repetitions. */
  ghost predicate IndexInSync(t: TreeStore)
  {
    ListsPointToOwners(t.parent, t.children) && ParentsListed(t.parent, t.children)
  }

  /** Every referral is stored under its own code. */
  ghost predicate KeyedByCode(t: TreeStore)
  {
    forall h :: h in t.referrals ==> t.referrals[h].codeHash == h
  }

  lemma KeyedByCodeKept(t: TreeStore, r: Referral)
    requires KeyedByCode(t)
    ensures KeyedByCode(Inserted(t, r))
    ensures KeyedByCode(Removed(t, r))
  {
  }

  /**
   * Inserting an address that has no parent entry yet keeps the indexes
   * consistent, in both directions.
   */
  lemma InsertKeepsIndexConsistent(t: TreeStore, r: Referral)
    requires IndexConsistent(t)
    requires !t.WalletIdExists(r.pubKeyId)
    ensures IndexConsistent(Inserted(t, r))
    ensures ParentsListed(t.parent, t.children) ==> IndexInSync(Inserted(t, r))
  {
    if ParentsListed(t.parent, t.children) {
      InsertKeepsParentsListed(t, r);
    }
    var u := Inserted(t, r);
    var p := InviterOnInsert(t, r);
    forall a, c | a in u.children && c in u.children[a]
      ensures c in u.parent && u.parent[c] == a
    {
      if a == p {
        assert c in t.GetChildren(p) + [r.pubKeyId];
        if c != r.pubKeyId {
          assert c in t.GetChildren(p);
        }
      }
    }
  }

  /**
   * Removing a referral whose parent entry (if any) names the inviter the
   * removal resolves keeps the indexes consistent.
   */
  lemma RemoveKeepsIndexConsistent(t: TreeStore, r: Referral)
    requires IndexConsistent(t)
    requires t.WalletIdExists(r.pubKeyId) ==> t.parent[r.pubKeyId] == InviterOnRemove(t, r)
    ensures IndexConsistent(Removed(t, r))
    ensures ParentsListed(t.parent, t.children) ==> IndexInSync(Removed(t, r))
  {
    RemovedTables(t, r);
    var p := InviterOnRemove(t, r);
    DropKeepsConsistent(t.parent, t.children, r.pubKeyId, p, t.GetChildren(p));
    if ParentsListed(t.parent, t.children) {
      DropKeepsListed(t.parent, t.children, r.pubKeyId, p, t.GetChildren(p));
    }
  }

  /**
   * Insertion lists the new address under the inviter it links it to, and
   * drops nobody from a list: every parent entry stays listed.
   */
  lemma InsertKeepsParentsListed(t: TreeStore, r: Referral)
    requires ParentsListed(t.parent, t.children)
    ensures ParentsListed(Inserted(t, r).parent, Inserted(t, r).children)
  {
    var u := Inserted(t, r);
    var p := InviterOnInsert(t, r);
    assert u.parent == t.parent[r.pubKeyId := p];
    assert u.children == t.children[p := t.GetChildren(p) + [r.pubKeyId]];
    forall c | c in u.parent
      ensures u.parent[c] in u.children && c in u.children[u.parent[c]]
    {
      if c != r.pubKeyId && t.parent[c] == p {
        assert c in t.GetChildren(p);
      }
    }
  }

  /**
   * Dropping `x`'s parent entry and every occurrence of `x` in the list of
   * `p` leaves every other parent entry listed under its parent.
   */
  lemma DropKeepsListed(parent: map<Address, Address>, children: map<Address, seq<Address>>,
                        x: Address, p: Address, kids: seq<Address>)
    requires ParentsListed(parent, children)
    requires kids == if p in children then children[p] else []
    ensures ParentsListed(parent - {x}, children[p := RemoveAll(kids, x)])
  {
    var after := children[p := RemoveAll(kids, x)];
    forall c | c in parent - {x}
      ensures parent[c] in after && c in after[parent[c]]
    {
      if parent[c] == p {
        RemoveAllMembers(kids, x, c);
      }
    }
  }

  /** The parent and children tables after RemoveReferral(r), in terms of the tables before. */
  lemma RemovedTables(t: TreeStore, r: Referral)
    ensures Removed(t, r).parent == t.parent - {r.pubKeyId}
    ensures Removed(t, r).children ==
      t.children[InviterOnRemove(t, r) := RemoveAll(t.GetChildren(InviterOnRemove(t, r)), r.pubKeyId)]
  {
  }

  /**
   * Dropping `x`'s parent entry and every occurrence of `x` in the list of
   * its parent `p` keeps every listed child pointing at its list's owner.
   */
  lemma DropKeepsConsistent(parent: map<Address, Address>, children: map<Address, seq<Address>>,
                            x: Address, p: Address, kids: seq<Address>)
    requires ListsPointToOwners(parent, children)
    requires x in parent ==> parent[x] == p
    requires kids == if p in children then children[p] else []
    ensures ListsPointToOwners(parent - {x}, children[p := RemoveAll(kids, x)])
  {
    var after := children[p := RemoveAll(kids, x)];
    forall a, c | a in after && c in after[a]
      ensures c in parent - {x} && (parent - {x})[c] == a
    {
      if a == p {
        RemoveAllMembers(kids, x, c);
        assert p in children && c in children[p];
      } else {
        assert c in children[a];
      }
    }
  }

  /** On a consistent store, an address without a parent entry is nobody's child. */
  lemma {:induction false} UnparentedIsUnlisted(t: TreeStore, x: Address, a: Address)
    requires IndexConsistent(t)
    requires !t.WalletIdExists(x)
    ensures x !in t.GetChildren(a)
  {
  }

  /**
   * Removal undoes insertion of a referral whose code and address are new
   * and which does not name itself as inviter: the referral table and the
   * parent index come back exactly and every children list reads as before.
   */
  lemma RemoveUndoesInsert(t: TreeStore, r: Referral)
    requires IndexConsistent(t)
    requires !t.ReferralCodeExists(r.codeHash)
    requires !t.WalletIdExists(r.pubKeyId)
    requires r.previousReferral != r.codeHash
    ensures Removed(Inserted(t, r), r).referrals == t.referrals
    ensures Removed(Inserted(t, r), r).parent == t.parent
    ensures forall a :: Removed(Inserted(t, r), r).GetChildren(a) == t.GetChildren(a)
  {
    var w := Inserted(t, r);
    var p := t.InviterOf(r.previousReferral);
    assert InviterOnInsert(t, r) == p;
    assert InviterOnRemove(w, r) == p;
    UpdateThenRemove(t.referrals, r.codeHash, r);
    UpdateThenRemove(t.parent, r.pubKeyId, p);
    forall a ensures Removed(w, r).GetChildren(a) == t.GetChildren(a) {
      InsertedAppendsChild(t, r);
      RemovedErases(w, r);
      if a == p {
        UnparentedIsUnlisted(t, r.pubKeyId, p);
        RemoveAllAppended(t.GetChildren(p), r.pubKeyId);
      }
    }
  }

  /** Adding a new key and removing it again gives back the map. */
  lemma UpdateThenRemove<K, V>(m: map<K, V>, k: K, v: V)
    requires k !in m
    ensures m[k := v] - {k} == m
  {
  }

  lemma {:induction false} RemoveAllAppended(s: seq<Address>, x: Address)
    requires x !in s
    ensures RemoveAll(s + [x], x) == s
    decreases |s|
  {
    if s == [] {
      assert [x][1..] == [];
    } else {
      assert (s + [x])[1..] == s[1..] + [x];
      RemoveAllAppended(s[1..], x);
    }
  }

  // The referrer chain that UpdateANV walks.

  /**
   * `c` is the whole referrer chain from `a`: it starts at `a`, each step
   * follows the parent index, and it stops at the first address without a
   * parent entry.
   */
  ghost predicate IsChain(parent: map<Address, Address>, a: Address, c: seq<Address>)
  {
    && |c| >= 1
    && c[0] == a
    && c[|c| - 1] !in parent
    && forall i :: 0 <= i < |c| - 1 ==> c[i] in parent && parent[c[i]] == c[i + 1]
  }

  /** The walk from `a` ends: the parent index has no cycle reachable from `a`. */
  ghost predicate ChainIsFinite(parent: map<Address, Address>, a: Address)
  {
    exists c :: IsChain(parent, a, c)
  }

  ghost function Chain(parent: map<Address, Address>, a: Address): (c: seq<Address>)
    requires ChainIsFinite(parent, a)
    ensures IsChain(parent, a, c)
  {
    var c :| IsChain(parent, a, c); c
  }

  /** There is only one chain from an address. */
  lemma {:induction false} ChainUnique(parent: map<Address, Address>, a: Address, c1: seq<Address>, c2: seq<Address>)
    requires IsChain(parent, a, c1) && IsChain(parent, a, c2)
    ensures c1 == c2
    decreases |c1|
  {
    if |c1| == 1 || |c2| == 1 {
      assert a !in parent;
    } else {
      assert IsChain(parent, parent[a], c1[1..]);
      assert IsChain(parent, parent[a], c2[1..]);
      ChainUnique(parent, parent[a], c1[1..], c2[1..]);
      assert c1 == [a] + c1[1..] && c2 == [a] + c2[1..];
    }
  }

  /** A finite chain never visits an address twice. */
  lemma ChainDistinct(parent: map<Address, Address>, a: Address, c: seq<Address>)
    requires IsChain(parent, a, c)
    ensures Distinct(c)
  {
    forall i, j | 0 <= i < j < |c|
      ensures c[i] != c[j]
    {
      assert IsChain(parent, c[i], c[i..]);
      assert IsChain(parent, c[j], c[j..]);
      if c[i] == c[j] {
        ChainUnique(parent, c[i], c[i..], c[j..]);
      }
    }
  }

  /**
   * Referrals root, A (invited by root) and B (invited by A), inserted in
   * that order: the children lists record the tree, and the chain from B
   * runs through A and root on to the default address that root points to.
   */
  lemma ThreeLevelScenario()
    ensures
      var root := Referral(1, 0, 10, 1);
      var ra := Referral(2, 1, 11, 1);
      var rb := Referral(3, 2, 12, 1);
      var t := Inserted(Inserted(Inserted(EmptyTree, root), ra), rb);
      && t.GetChildren(NullAddress) == [10]
      && t.GetChildren(10) == [11]
      && t.GetChildren(11) == [12]
      && t.GetReferrer(10) == Some(NullAddress)
      && ChainIsFinite(t.parent, 12)
      && Chain(t.parent, 12) == [12, 11, 10, NullAddress]
  {
    var root := Referral(1, 0, 10, 1);
    var ra := Referral(2, 1, 11, 1);
    var rb := Referral(3, 2, 12, 1);
    var t := Inserted(Inserted(Inserted(EmptyTree, root), ra), rb);
    assert t.parent == map[10 := NullAddress, 11 := 10, 12 := 11];
    assert IsChain(t.parent, 12, [12, 11, 10, NullAddress]);
    ChainUnique(t.parent, 12, Chain(t.parent, 12), [12, 11, 10, NullAddress]);
  }
}
