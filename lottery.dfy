/**
 * The lottery reservoir's heap, persisted slot by slot: slot positions map
 * to (weighted key, address) pairs and a size counter says how many slots
 * are in use.
 */
module Lottery {
  import opened Types

  /** The weighted key is compared only with `>`; any totally ordered type serves. */
  type WeightedKey = real

  datatype LotteryEntry = LotteryEntry(key: WeightedKey, address: Address)

  /**
   * The parent slot as InsertLotteryAddress computes it: `pos >> 2` for an
   * even position, `(pos - 1) >> 2` for an odd one. Both arms agree with
   * `pos / 4`, so slot 0 has children 1, 2 and 3 and slot k > 0 has children
   * 4k to 4k + 3.
   */
  function ParentPos(pos: nat): (p: nat)
    requires pos >= 1
    ensures p < pos
    ensures p == pos / 4
  {
    if pos % 2 == 0 then pos / 4 else (pos - 1) / 4
  }

  /** Every slot below `size` has been written. */
  ghost predicate SlotsPresent(slots: map<nat, LotteryEntry>, size: nat)
  {
    forall i: nat :: 0 <= i < size ==> i in slots
  }

  /** No slot's key is below its parent's key, parents as ParentPos gives them. */
  ghost predicate HeapOrdered(slots: map<nat, LotteryEntry>, size: nat)
    requires SlotsPresent(slots, size)
  {
    forall p: nat :: 1 <= p < size ==> slots[ParentPos(p)].key <= slots[p].key
  }

  /** The entries in slots 0 to size - 1, in slot order. */
  ghost function Contents(slots: map<nat, LotteryEntry>, size: nat): (s: seq<LotteryEntry>)
    requires SlotsPresent(slots, size)
    ensures |s| == size
    ensures forall i :: 0 <= i < size ==> s[i] == slots[i]
  {
    seq(size, i requires 0 <= i < size => slots[i])
  }

  /** Following parents from any slot of an ordered heap never raises the key. */
  lemma {:induction false} RootIsMin(slots: map<nat, LotteryEntry>, size: nat, p: nat)
    requires SlotsPresent(slots, size) && HeapOrdered(slots, size)
    requires p < size
    ensures slots[0].key <= slots[p].key
    decreases p
  {
    if p > 0 {
      RootIsMin(slots, size, ParentPos(p));
    }
  }

  /** Slot 0 of a non-empty ordered heap holds the least key. */
  lemma HeapMinAtRoot(slots: map<nat, LotteryEntry>, size: nat)
    ensures SlotsPresent(slots, size) && HeapOrdered(slots, size) && size > 0 ==>
      forall i :: 0 <= i < size ==> slots[0].key <= slots[i].key
  {
    if SlotsPresent(slots, size) && HeapOrdered(slots, size) && size > 0 {
      forall i | 0 <= i < size
        ensures slots[0].key <= slots[i].key
      {
        RootIsMin(slots, size, i);
      }
    }
  }

  /** Writing entry `e` at slot `n`, just past the heap, extends its contents by `e`. */
  lemma ContentsAppend(slots: map<nat, LotteryEntry>, n: nat, e: LotteryEntry)
    requires SlotsPresent(slots, n)
    ensures SlotsPresent(slots[n := e], n + 1)
    ensures Contents(slots[n := e], n + 1) == Contents(slots, n) + [e]
  {
    var a, b := Contents(slots[n := e], n + 1), Contents(slots, n) + [e];
    assert |a| == |b|;
    forall i | 0 <= i < |a| ensures a[i] == b[i] {
    }
  }

  /**
   * Moving the parent's entry into the hole at `pos` and making the parent
   * slot the hole leaves the multiset of entries (hole filled with `e`) the
   * same.
   */
  lemma ContentsMoveHole(slots: map<nat, LotteryEntry>, n: nat, pos: nat, pp: nat, e: LotteryEntry)
    requires pp < pos < n
    requires pp in slots && SlotsPresent(slots[pos := e], n)
    ensures SlotsPresent(slots[pos := slots[pp]][pp := e], n)
    ensures multiset(Contents(slots[pos := slots[pp]][pp := e], n)) == multiset(Contents(slots[pos := e], n))
  {
    var moved := slots[pos := slots[pp]][pp := e];
    assert SlotsPresent(moved, n) by {
      forall i | 0 <= i < n ensures i in moved {
        assert i in slots[pos := e];
      }
    }
    var before := Contents(slots[pos := e], n);
    var after := Contents(moved, n);
    var swapped := before[pos := before[pp]][pp := before[pos]];
    assert after == swapped by {
      forall i | 0 <= i < n ensures after[i] == swapped[i] {
      }
    }
    SwapKeepsMultiset(before, pos, pp);
  }

  lemma SwapKeepsMultiset<T>(s: seq<T>, i: nat, j: nat)
    requires i < |s| && j < |s|
    ensures multiset(s[i := s[j]][j := s[i]]) == multiset(s)
  {
    var mid := s[i := s[j]];
    assert multiset(mid) == multiset(s) - multiset{s[i]} + multiset{s[j]};
    assert mid[j] == s[j];
    assert multiset(mid[j := s[i]]) == multiset(mid) - multiset{s[j]} + multiset{s[i]};
  }

  // The sift-up of InsertLotteryAddress keeps a hole at `pos` in slots 0..n.

  /** Every slot in 0..n except the hole is written. */
  ghost predicate PresentExcept(slots: map<nat, LotteryEntry>, n: nat, pos: nat)
  {
    forall i: nat :: 0 <= i <= n && i != pos ==> i in slots
  }

  /**
   * Heap order holds around the hole: between every slot and its parent
   * where neither is the hole; a child of the hole is above `key` and, past
   * the root, above the hole's parent.
   */
  ghost predicate HoleOrdered(slots: map<nat, LotteryEntry>, n: nat, pos: nat, key: WeightedKey)
    requires PresentExcept(slots, n, pos)
  {
    forall q: nat :: 1 <= q <= n && q != pos ==>
      if ParentPos(q) == pos
      then key <= slots[q].key && (pos != 0 ==> slots[ParentPos(pos)].key <= slots[q].key)
      else slots[ParentPos(q)].key <= slots[q].key
  }

  /** An ordered heap of n slots, with the hole at slot n. */
  lemma HoleOrderedInit(slots: map<nat, LotteryEntry>, n: nat, key: WeightedKey)
    requires SlotsPresent(slots, n) && HeapOrdered(slots, n)
    ensures PresentExcept(slots, n, n)
    ensures HoleOrdered(slots, n, n, key)
  {
  }

  /** Moving a parent whose key is not below `key` down into the hole keeps the order. */
  lemma HoleOrderedStep(slots: map<nat, LotteryEntry>, n: nat, pos: nat, key: WeightedKey)
    requires 1 <= pos <= n
    requires PresentExcept(slots, n, pos) && HoleOrdered(slots, n, pos, key)
    requires key <= slots[ParentPos(pos)].key
    ensures PresentExcept(slots[pos := slots[ParentPos(pos)]], n, ParentPos(pos))
    ensures HoleOrdered(slots[pos := slots[ParentPos(pos)]], n, ParentPos(pos), key)
  {
    var pp := ParentPos(pos);
    var moved: map<nat, LotteryEntry> := slots[pos := slots[pp]];
    forall q | 1 <= q <= n && q != pp
      ensures if ParentPos(q) == pp
              then key <= moved[q].key && (pp != 0 ==> moved[ParentPos(pp)].key <= moved[q].key)
              else moved[ParentPos(q)].key <= moved[q].key
    {
      if pp != 0 {
        // pp is neither the hole nor a child of it.
        assert ParentPos(pp) != pos;
        assert slots[ParentPos(pp)].key <= slots[pp].key;
      }
      if q == pos {
      } else if ParentPos(q) == pp {
        assert slots[pp].key <= slots[q].key;
      } else if ParentPos(q) == pos {
        assert slots[pp].key <= slots[q].key;
      }
    }
  }

  /** Filling the hole with an entry above its parent's key restores the heap order. */
  lemma HoleOrderedFill(slots: map<nat, LotteryEntry>, n: nat, pos: nat, e: LotteryEntry)
    requires pos <= n
    requires PresentExcept(slots, n, pos) && HoleOrdered(slots, n, pos, e.key)
    requires pos != 0 ==> slots[ParentPos(pos)].key < e.key
    ensures SlotsPresent(slots[pos := e], n + 1)
    ensures HeapOrdered(slots[pos := e], n + 1)
  {
    var filled := slots[pos := e];
    forall q | 1 <= q < n + 1
      ensures filled[ParentPos(q)].key <= filled[q].key
    {
      if q != pos && ParentPos(q) != pos {
        assert slots[ParentPos(q)].key <= slots[q].key;
      }
    }
  }

  /**
   * The state of the sift-up after it has moved some parents down from the
   * slots of `start`, a heap of `n` slots: the hole is at `pos`, slots past
   * `n` are untouched, and filling the hole with `e` gives the multiset of
   * `start` plus `e`; where `start` was ordered, the order holds around the hole.
   */
  ghost predicate Sifting(slots: map<nat, LotteryEntry>, n: nat, pos: nat, e: LotteryEntry, start: map<nat, LotteryEntry>)
  {
    && pos <= n
    && (forall i: nat :: i > n ==> (i in slots <==> i in start) && (i in slots ==> slots[i] == start[i]))
    && (SlotsPresent(start, n) ==>
          && PresentExcept(slots, n, pos)
          && SlotsPresent(slots[pos := e], n + 1)
          && multiset(Contents(slots[pos := e], n + 1)) == multiset(Contents(start, n)) + multiset{e})
    && (SlotsPresent(start, n) && HeapOrdered(start, n) ==> HoleOrdered(slots, n, pos, e.key))
  }

  /** The sift-up starts with the hole just past the heap. */
  lemma SiftingInit(start: map<nat, LotteryEntry>, n: nat, e: LotteryEntry)
    ensures Sifting(start, n, n, e, start)
  {
    if SlotsPresent(start, n) {
      ContentsAppend(start, n, e);
      if HeapOrdered(start, n) {
        HoleOrderedInit(start, n, e.key);
      }
    }
  }

  /** A parent slot can be missing during the sift-up only if `start` had a missing slot. */
  lemma SiftingParentPresent(slots: map<nat, LotteryEntry>, n: nat, pos: nat, e: LotteryEntry, start: map<nat, LotteryEntry>)
    requires 1 <= pos && Sifting(slots, n, pos, e, start)
    ensures ParentPos(pos) !in slots ==> !SlotsPresent(start, n)
  {
  }

  /** Moving a parent whose key is not below the new key down into the hole. */
  lemma SiftingStep(slots: map<nat, LotteryEntry>, n: nat, pos: nat, e: LotteryEntry, start: map<nat, LotteryEntry>)
    requires 1 <= pos && Sifting(slots, n, pos, e, start)
    requires ParentPos(pos) in slots && e.key <= slots[ParentPos(pos)].key
    ensures Sifting(slots[pos := slots[ParentPos(pos)]], n, ParentPos(pos), e, start)
  {
    var pp := ParentPos(pos);
    if SlotsPresent(start, n) {
      ContentsMoveHole(slots, n + 1, pos, pp, e);
      assert PresentExcept(slots[pos := slots[pp]], n, pp);
      if HeapOrdered(start, n) {
        HoleOrderedStep(slots, n, pos, e.key);
      }
    }
  }

  /** Filling the hole, once its parent's key is below the new key, completes the insertion. */
  lemma SiftingDone(slots: map<nat, LotteryEntry>, n: nat, pos: nat, e: LotteryEntry, start: map<nat, LotteryEntry>)
    requires Sifting(slots, n, pos, e, start)
    requires pos != 0 ==> ParentPos(pos) in slots && slots[ParentPos(pos)].key < e.key
    ensures InsertedInto(start, n, e, slots[pos := e])
  {
    if SlotsPresent(start, n) && HeapOrdered(start, n) {
      HoleOrderedFill(slots, n, pos, e);
    }
  }

  /**
   * `after` is `before`, a heap of `n` slots, with `e` inserted: slots past
   * `n` are untouched, and where `before` had all its slots, `after` has
   * n + 1 slots holding `before`'s entries plus `e`, ordered if `before` was.
   */
  ghost predicate InsertedInto(before: map<nat, LotteryEntry>, n: nat, e: LotteryEntry, after: map<nat, LotteryEntry>)
  {
    && (forall i: nat :: i > n ==> (i in after <==> i in before) && (i in after ==> after[i] == before[i]))
    && (SlotsPresent(before, n) ==>
          && SlotsPresent(after, n + 1)
          && multiset(Contents(after, n + 1)) == multiset(Contents(before, n)) + multiset{e})
    && (SlotsPresent(before, n) && HeapOrdered(before, n) ==>
          SlotsPresent(after, n + 1) && HeapOrdered(after, n + 1))
  }

  /**
   * The slots InsertLotteryAddress leaves after sifting `e` up from the hole
   * at `pos`, or None when it finds a parent slot missing.
   */
  function SiftUp(slots: map<nat, LotteryEntry>, pos: nat, e: LotteryEntry): (r: Option<map<nat, LotteryEntry>>)
    ensures r.Some? ==> r.value.Keys == slots.Keys + {pos}
    ensures r.Some? ==> e in r.value.Values
    decreases pos
  {
    if pos == 0 then Some(slots[0 := e])
    else
      var pp := ParentPos(pos);
      if pp !in slots then None
      else if e.key > slots[pp].key then Some(slots[pos := e])
      else SiftUp(slots[pos := slots[pp]], pp, e)
  }

  /** From any state of the sift-up, the rest of it completes the insertion into `start`. */
  lemma {:induction false} SiftUpFrom(slots: map<nat, LotteryEntry>, n: nat, pos: nat, e: LotteryEntry, start: map<nat, LotteryEntry>)
    requires Sifting(slots, n, pos, e, start)
    ensures SlotsPresent(start, n) ==> SiftUp(slots, pos, e).Some?
    ensures SiftUp(slots, pos, e).Some? ==> InsertedInto(start, n, e, SiftUp(slots, pos, e).value)
    decreases pos
  {
    if pos != 0 {
      SiftingParentPresent(slots, n, pos, e, start);
      var pp := ParentPos(pos);
      if pp in slots {
        if e.key > slots[pp].key {
          SiftingDone(slots, n, pos, e, start);
        } else {
          SiftingStep(slots, n, pos, e, start);
          SiftUpFrom(slots[pos := slots[pp]], n, pp, e, start);
        }
      }
    } else {
      SiftingDone(slots, n, pos, e, start);
    }
  }

  /**
   * Inserting into a heap whose slots are all written succeeds, adds exactly
   * the new entry to the multiset of entries, keeps the heap order and
   * touches no slot past the new size.
   */
  lemma SiftUpInserts(start: map<nat, LotteryEntry>, n: nat, e: LotteryEntry)
    ensures SlotsPresent(start, n) ==> SiftUp(start, n, e).Some?
    ensures SiftUp(start, n, e).Some? ==> InsertedInto(start, n, e, SiftUp(start, n, e).value)
  {
    SiftingInit(start, n, e);
    SiftUpFrom(start, n, n, e, start);
  }

  /** The usual 0-based binary-heap parent. */
  function BinaryParent(pos: nat): (p: nat)
    requires pos >= 1
    ensures 2 * p + 1 == pos || 2 * p + 2 == pos
  {
    (pos - 1) / 2
  }

  /** The usual 0-based binary-heap order. */
  ghost predicate BinaryHeapOrdered(slots: map<nat, LotteryEntry>, size: nat)
    requires SlotsPresent(slots, size)
  {
    forall p: nat :: 1 <= p < size ==> slots[BinaryParent(p)].key <= slots[p].key
  }

  /**
   * The heap that inserting keys 1, 3, 5 and 2 into an empty reservoir
   * produces is ordered under the parent formula as written but not as a
   * binary heap: slot 3's parent is slot 0, not slot 1.
   */
  lemma ParentFormulaIsNotBinary()
    ensures
      var e1, e2, e3, e4 := LotteryEntry(1.0, 1), LotteryEntry(3.0, 2), LotteryEntry(5.0, 3), LotteryEntry(2.0, 4);
      var slots := map[0 := e1, 1 := e2, 2 := e3, 3 := e4];
      && SiftUp(map[], 0, e1).Some?
      && SiftUp(SiftUp(map[], 0, e1).value, 1, e2).Some?
      && SiftUp(SiftUp(SiftUp(map[], 0, e1).value, 1, e2).value, 2, e3).Some?
      && SiftUp(SiftUp(SiftUp(SiftUp(map[], 0, e1).value, 1, e2).value, 2, e3).value, 3, e4) == Some(slots)
      && SlotsPresent(slots, 4)
      && HeapOrdered(slots, 4)
      && !BinaryHeapOrdered(slots, 4)
  {
    var e1, e2, e3, e4 := LotteryEntry(1.0, 1), LotteryEntry(3.0, 2), LotteryEntry(5.0, 3), LotteryEntry(2.0, 4);
    assert ParentPos(1) == 0 && ParentPos(2) == 0 && ParentPos(3) == 0;
    var m1: map<nat, LotteryEntry> := map[0 := e1];
    var m2 := m1[1 := e2];
    var m3 := m2[2 := e3];
    assert SiftUp(map[], 0, e1) == Some(m1);
    assert SiftUp(m1, 1, e2) == Some(m2);
    assert SiftUp(m2, 2, e3) == Some(m3);
    assert SiftUp(m3, 3, e4) == Some(m3[3 := e4]);
    var slots := m3[3 := e4];
    assert slots[BinaryParent(3)].key > slots[3].key;
  }
}
