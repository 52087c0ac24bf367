/** The standalone translation lookaside buffer (simulator/tlb.py): at most `size`
    cached page-to-frame translations, each with the step of its last use; a new
    page arriving at capacity replaces the least recently used entry. The source keeps
    the entries in a dictionary, whose iteration order (insertion order) decides which
    of several equally old entries goes; `order` records that order. */
module Tlbs {
  import opened Wrappers
  import opened Extrema

  datatype TLBEntry = TLBEntry(page: int, frame: int, lastAccess: int)

  /** `min()` of an empty collection: a new page inserted into a TLB of size 0 or less. */
  datatype TlbError = NoEntryToReplace

  /** The dictionary as a value: entries by page, and the keys in insertion order. */
  datatype TlbState = TlbState(entries: map<int, TLBEntry>, order: seq<int>)

  /** Keys listed once each, in exactly the entries' key set, and every entry stored
      under its own page. */
  ghost predicate WellFormed(t: TlbState)
  {
    && (forall p :: p in t.entries <==> p in t.order)
    && (forall i :: 0 <= i < |t.order| ==> t.order[i] in t.entries)
    && (forall i, j :: 0 <= i < j < |t.order| ==> t.order[i] != t.order[j])
    && (forall p :: p in t.entries ==> t.entries[p].page == p)
  }

  /** No more entries than the capacity (none at all for a capacity of 0 or less). */
  ghost predicate WithinCapacity(t: TlbState, size: int)
  {
    |t.order| == 0 || |t.order| <= size
  }

  /** The entries' last-access steps, in dictionary order. */
  function AccessTimes(t: TlbState): (r: seq<int>)
    requires WellFormed(t)
    ensures |r| == |t.order| && forall i :: 0 <= i < |t.order| ==> r[i] == t.entries[t.order[i]].lastAccess
  {
    seq(|t.order|, i requires 0 <= i < |t.order| => t.entries[t.order[i]].lastAccess)
  }

  /** `min(entries.values(), key=last_access).page`: an entry with the smallest
      last-access step, the first such in dictionary order. */
  function LruPage(t: TlbState): (p: int)
    requires WellFormed(t) && |t.order| > 0
    ensures p in t.entries
    ensures forall q :: q in t.entries ==> t.entries[p].lastAccess <= t.entries[q].lastAccess
    ensures forall i :: 0 <= i < |t.order| && t.order[i] == p ==>
              forall j :: 0 <= j < i ==> t.entries[t.order[j]].lastAccess > t.entries[p].lastAccess
  {
    var times := AccessTimes(t);
    FirstArgMinIsFirstMin(times);
    var k := FirstArgMin(times);
    assert forall q :: q in t.entries ==> exists j :: 0 <= j < |t.order| && t.order[j] == q;
    t.order[k]
  }

  /** `lookup`: the frame of a cached page, whose use is recorded; nothing for another page. */
  function LookupSpec(t: TlbState, page: int, currentStep: int): (Option<int>, TlbState)
  {
    if page in t.entries then
      (Some(t.entries[page].frame), t.(entries := t.entries[page := t.entries[page].(lastAccess := currentStep)]))
    else (None, t)
  }

  /** `insert`: update a cached page in place, add a new one while there is room, or
      replace the least recently used entry; the replaced key leaves the order and the
      new one goes last. */
  function InsertSpec(t: TlbState, size: int, page: int, frame: int, currentStep: int): Result<TlbState, TlbError>
    requires WellFormed(t)
  {
    if page in t.entries then
      Success(t.(entries := t.entries[page := t.entries[page].(frame := frame, lastAccess := currentStep)]))
    else if |t.order| < size then
      Success(TlbState(t.entries[page := TLBEntry(page, frame, currentStep)], t.order + [page]))
    else if |t.order| == 0 then
      Failure(NoEntryToReplace)
    else
      var lru := LruPage(t);
      Success(TlbState((t.entries - {lru})[page := TLBEntry(page, frame, currentStep)], Without(t.order, lru) + [page]))
  }

  /** The sequence with every occurrence of x removed. */
  function Without(s: seq<int>, x: int): (r: seq<int>)
    ensures forall y :: y in r <==> y in s && y != x
    ensures |r| <= |s|
  {
    if |s| == 0 then []
    else if s[0] == x then Without(s[1..], x)
    else [s[0]] + Without(s[1..], x)
  }

  lemma {:induction false} WithoutDistinct(s: seq<int>, x: int)
    requires forall i, j :: 0 <= i < j < |s| ==> s[i] != s[j]
    ensures var r := Without(s, x);
      && (forall i, j :: 0 <= i < j < |r| ==> r[i] != r[j])
      && (x in s ==> |r| == |s| - 1)
      && (x !in s ==> r == s)
  {
    if |s| > 0 {
      var tail := s[1..];
      DistinctTail(s);
      WithoutDistinct(tail, x);
      var rest := Without(tail, x);
      if s[0] == x {
        assert Without(s, x) == rest;
      } else {
        assert Without(s, x) == [s[0]] + rest;
        assert s[0] !in rest;
        DistinctCons(s[0], rest);
        assert s == [s[0]] + tail;
      }
    }
  }

  /** The tail of a distinct list is distinct and lacks the head. */
  lemma DistinctTail(s: seq<int>)
    requires |s| > 0 && forall i, j :: 0 <= i < j < |s| ==> s[i] != s[j]
    ensures s[0] !in s[1..]
    ensures forall i, j :: 0 <= i < j < |s[1..]| ==> s[1..][i] != s[1..][j]
  {
    var tail := s[1..];
    forall k | 0 <= k < |tail| ensures tail[k] != s[0] {
      assert tail[k] == s[k + 1];
    }
    forall i, j | 0 <= i < j < |tail| ensures tail[i] != tail[j] {
      assert tail[i] == s[i + 1] && tail[j] == s[j + 1];
    }
  }

  /** A fresh head keeps a distinct list distinct. */
  lemma DistinctCons(a: int, s: seq<int>)
    requires a !in s && forall i, j :: 0 <= i < j < |s| ==> s[i] != s[j]
    ensures forall i, j :: 0 <= i < j < |[a] + s| ==> ([a] + s)[i] != ([a] + s)[j]
  {
    var r := [a] + s;
    forall i, j | 0 <= i < j < |r| ensures r[i] != r[j] {
      if i == 0 {
        assert r[j] == s[j - 1];
      } else {
        assert r[i] == s[i - 1] && r[j] == s[j - 1];
      }
    }
  }

  class TLB {
    const size: int
    var entries: map<int, TLBEntry>
    var order: seq<int>

    ghost function State(): TlbState
      reads this
    {
      TlbState(entries, order)
    }

    ghost predicate Valid()
      reads this
    {
      WellFormed(State()) && WithinCapacity(State(), size)
    }

    constructor (size: int)
      ensures Valid() && this.size == size && entries == map[] && order == []
    {
      this.size := size;
      entries := map[];
      order := [];
    }

    /** `lookup` */
    method Lookup(page: int, currentStep: int) returns (frame: Option<int>)
      requires Valid()
      modifies this
      ensures Valid()
      ensures (frame, State()) == LookupSpec(old(State()), page, currentStep)
    {
      if page in entries {
        entries := entries[page := entries[page].(lastAccess := currentStep)];
        return Some(entries[page].frame);
      }
      return None;
    }

    /** `insert`; the error is the exception `min()` raises on an empty dictionary. */
    method Insert(page: int, frame: int, currentStep: int) returns (r: Result<(), TlbError>)
      requires Valid()
      modifies this
      ensures Valid()
      ensures InsertSpec(old(State()), size, page, frame, currentStep) ==
                (if r.Success? then Success(State()) else Failure(r.error))
      ensures r.Failure? ==> State() == old(State())
    {
      InsertKeepsValid(State(), size, page, frame, currentStep);
      if page in entries {
        entries := entries[page := entries[page].(frame := frame, lastAccess := currentStep)];
        return Success(());
      }
      if |order| < size {
        entries := entries[page := TLBEntry(page, frame, currentStep)];
        order := order + [page];
        return Success(());
      }
      if |order| == 0 {
        return Failure(NoEntryToReplace);
      }
      var lruPage := LruPage(TlbState(entries, order));
      entries := entries - {lruPage};
      order := Without(order, lruPage);
      entries := entries[page := TLBEntry(page, frame, currentStep)];
      order := order + [page];
      return Success(());
    }
  }

  /** `insert` keeps every entry under its own key, each key once in the order, and
      never more entries than the capacity. */
  lemma InsertKeepsValid(t: TlbState, size: int, page: int, frame: int, currentStep: int)
    requires WellFormed(t) && WithinCapacity(t, size)
    ensures InsertSpec(t, size, page, frame, currentStep).Success? ==>
              WellFormed(InsertSpec(t, size, page, frame, currentStep).value) &&
              WithinCapacity(InsertSpec(t, size, page, frame, currentStep).value, size)
  {
    if page !in t.entries && |t.order| >= size && |t.order| > 0 {
      var lru := LruPage(t);
      WithoutDistinct(t.order, lru);
      var order' := Without(t.order, lru) + [page];
      forall i, j | 0 <= i < j < |order'| ensures order'[i] != order'[j] {
        if j == |order'| - 1 {
          assert order'[i] in Without(t.order, lru);
        }
      }
    } else if page !in t.entries && |t.order| < size {
      var order' := t.order + [page];
      forall i, j | 0 <= i < j < |order'| ensures order'[i] != order'[j] {
        if j == |order'| - 1 {
          assert order'[i] in t.order;
        }
      }
    }
  }

  /** A distinct list of keys has as many elements as its set. */
  lemma {:induction false} DistinctCount(s: seq<int>)
    requires forall i, j :: 0 <= i < j < |s| ==> s[i] != s[j]
    ensures |set x | x in s| == |s|
  {
    if |s| > 0 {
      var init := s[..|s| - 1];
      DistinctCount(init);
      assert (set x | x in s) == (set x | x in init) + {s[|s| - 1]};
      assert s[|s| - 1] !in init;
    }
  }

  /** The dictionary's length is the length of its key order. */
  lemma EntryCount(t: TlbState)
    requires WellFormed(t)
    ensures |t.entries| == |t.order|
  {
    DistinctCount(t.order);
    forall x
      ensures x in t.entries.Keys <==> x in (set y | y in t.order)
    {
    }
    assert t.entries.Keys == set y | y in t.order;
  }

  /** `lookup` on a cached page returns its frame and sets only that entry's
      `last_access`; on another page it returns nothing and changes nothing. */
  lemma LookupEffect(t: TlbState, page: int, currentStep: int)
    requires WellFormed(t)
    ensures var (frame, t') := LookupSpec(t, page, currentStep);
      && (frame.Some? <==> page in t.entries)
      && (page in t.entries ==> frame.value == t.entries[page].frame)
      && t'.order == t.order && t'.entries.Keys == t.entries.Keys
      && (forall q :: q in t.entries && q != page ==> t'.entries[q] == t.entries[q])
      && (page in t.entries ==> t'.entries[page] == t.entries[page].(lastAccess := currentStep))
      && WellFormed(t')
  {
  }

  /** `insert` of a cached page overwrites its frame and last use and keeps the count;
      of a new page with room, adds it and drops nothing; of a new page at capacity,
      drops exactly the least recently used entry (the first in dictionary order among
      equally old ones) and adds the new one; the new page ends up last in the order. */
  lemma InsertEffect(t: TlbState, size: int, page: int, frame: int, currentStep: int)
    requires WellFormed(t) && WithinCapacity(t, size)
    ensures var r := InsertSpec(t, size, page, frame, currentStep);
      && (r.Failure? <==> page !in t.entries && |t.order| == 0 && size <= 0)
      && (r.Success? ==>
            && page in r.value.entries && r.value.entries[page] == TLBEntry(page, frame, currentStep)
            && (page in t.entries ==> r.value.entries.Keys == t.entries.Keys && r.value.order == t.order)
            && (page !in t.entries && |t.order| < size ==>
                  && r.value.entries.Keys == t.entries.Keys + {page}
                  && r.value.order == t.order + [page])
            && (page !in t.entries && |t.order| >= size ==>
                  var lru := LruPage(t);
                  && r.value.entries.Keys == t.entries.Keys - {lru} + {page}
                  && |r.value.order| == |t.order|
                  && r.value.order[|r.value.order| - 1] == page)
            && (forall q :: q in t.entries && q != page && q in r.value.entries ==> r.value.entries[q] == t.entries[q]))
  {
    if page !in t.entries && |t.order| >= size && |t.order| > 0 {
      WithoutDistinct(t.order, LruPage(t));
    }
  }

  /** A page just inserted is found by the next lookup, with the frame it was given. */
  lemma InsertThenLookup(t: TlbState, size: int, page: int, frame: int, step: int, later: int)
    requires WellFormed(t) && InsertSpec(t, size, page, frame, step).Success?
    ensures LookupSpec(InsertSpec(t, size, page, frame, step).value, page, later).0 == Some(frame)
  {
  }

  /** With no capacity at all, a new page cannot be inserted. */
  lemma ZeroCapacityFails(size: int, page: int, frame: int, step: int)
    requires size <= 0
    ensures InsertSpec(TlbState(map[], []), size, page, frame, step) == Failure(NoEntryToReplace)
  {
  }

  /** A state of two distinct pages, each entry under its own page, is well formed. */
  lemma TwoWellFormed(a: TLBEntry, b: TLBEntry)
    requires a.page != b.page
    ensures WellFormed(TlbState(map[a.page := a, b.page := b], [a.page, b.page]))
  {
  }

  /** A state of three distinct pages, each entry under its own page, is well formed. */
  lemma ThreeWellFormed(a: TLBEntry, b: TLBEntry, c: TLBEntry)
    requires a.page != b.page && a.page != c.page && b.page != c.page
    ensures WellFormed(TlbState(map[a.page := a, b.page := b, c.page := c], [a.page, b.page, c.page]))
  {
  }

  /** An entry used strictly before every other one is the one replaced. */
  lemma StrictlyOldest(t: TlbState, p: int)
    requires WellFormed(t) && p in t.entries
    requires forall q :: q in t.entries && q != p ==> t.entries[p].lastAccess < t.entries[q].lastAccess
    ensures |t.order| > 0 && LruPage(t) == p
  {
    assert p in t.order;
  }

  /** Pages 1, 2 and 3 cached at steps 1, 2 and 3, in that order. */
  const FullOfThree := TlbState(map[1 := TLBEntry(1, 10, 1), 2 := TLBEntry(2, 20, 2), 3 := TLBEntry(3, 30, 3)], [1, 2, 3])

  /** Page 1 cached at step 1. */
  const OneEntry := TlbState(map[1 := TLBEntry(1, 10, 1)], [1])

  /** Pages 1 and 2 cached at steps 1 and 2. */
  const TwoEntries := TlbState(map[1 := TLBEntry(1, 10, 1), 2 := TLBEntry(2, 20, 2)], [1, 2])

  /** tests/test_tlb.py: three inserts into an empty TLB of size 3 fill it; after the
      first, page 1 hits with frame 10 and page 2 misses (test_insert_and_lookup). */
  lemma FillScenario()
    ensures InsertSpec(TlbState(map[], []), 3, 1, 10, 1) == Success(OneEntry)
    ensures LookupSpec(OneEntry, 1, 2).0 == Some(10) && LookupSpec(OneEntry, 2, 2).0 == None
    ensures WellFormed(OneEntry) && InsertSpec(OneEntry, 3, 2, 20, 2) == Success(TwoEntries)
    ensures WellFormed(TwoEntries) && InsertSpec(TwoEntries, 3, 3, 30, 3) == Success(FullOfThree)
  {
    assert OneEntry.entries[2 := TLBEntry(2, 20, 2)] == TwoEntries.entries;
    assert TwoEntries.entries[3 := TLBEntry(3, 30, 3)] == FullOfThree.entries;
    assert [] + [1] == [1] && [1] + [2] == [1, 2] && [1, 2] + [3] == [1, 2, 3];
    assert WellFormed(OneEntry);
    TwoWellFormed(TLBEntry(1, 10, 1), TLBEntry(2, 20, 2));
  }

  /** Inserting a new page into a full table whose entry p is strictly the oldest
      replaces p. */
  lemma ReplacesOldest(t: TlbState, size: int, page: int, frame: int, currentStep: int, p: int)
    requires WellFormed(t) && page !in t.entries && 0 < size <= |t.order|
    requires p in t.entries
    requires forall q :: q in t.entries && q != p ==> t.entries[p].lastAccess < t.entries[q].lastAccess
    ensures InsertSpec(t, size, page, frame, currentStep)
      == Success(TlbState((t.entries - {p})[page := TLBEntry(page, frame, currentStep)], Without(t.order, p) + [page]))
  {
    StrictlyOldest(t, p);
  }

  /** FullOfThree after inserting page 4 at step 4. */
  const WithoutOne := TlbState(map[2 := TLBEntry(2, 20, 2), 3 := TLBEntry(3, 30, 3), 4 := TLBEntry(4, 40, 4)], [2, 3, 4])

  /** tests/test_tlb.py, test_lru_replacement: inserting 4 into the full TLB replaces 1,
      after which 1 misses and 2, 3 and 4 hit. */
  lemma LruReplacementScenario()
    ensures InsertSpec(FullOfThree, 3, 4, 40, 4) == Success(WithoutOne)
    ensures LookupSpec(WithoutOne, 1, 5).0 == None
    ensures LookupSpec(WithoutOne, 2, 5).0 == Some(20)
    ensures LookupSpec(WithoutOne, 3, 5).0 == Some(30)
    ensures LookupSpec(WithoutOne, 4, 5).0 == Some(40)
  {
    FourReplacesOne();
  }

  lemma FourReplacesOne()
    ensures InsertSpec(FullOfThree, 3, 4, 40, 4) == Success(WithoutOne)
  {
    assert (FullOfThree.entries - {1})[4 := TLBEntry(4, 40, 4)] == WithoutOne.entries;
    assert Without([1, 2, 3], 1) + [4] == WithoutOne.order by {
      assert Without([1, 2, 3], 1) == [2, 3];
    }
    assert InsertSpec(FullOfThree, 3, 4, 40, 4)
        == Success(TlbState((FullOfThree.entries - {1})[4 := TLBEntry(4, 40, 4)], Without(FullOfThree.order, 1) + [4])) by {
      ThreeWellFormed(TLBEntry(1, 10, 1), TLBEntry(2, 20, 2), TLBEntry(3, 30, 3));
      ReplacesOldest(FullOfThree, 3, 4, 40, 4, 1);
    }
  }

  /** FullOfThree after page 1 is used at step 4. */
  const OneRefreshed := TlbState(map[1 := TLBEntry(1, 10, 4), 2 := TLBEntry(2, 20, 2), 3 := TLBEntry(3, 30, 3)], [1, 2, 3])

  /** OneRefreshed after inserting page 4 at step 5. */
  const WithoutTwo := TlbState(map[1 := TLBEntry(1, 10, 4), 3 := TLBEntry(3, 30, 3), 4 := TLBEntry(4, 40, 5)], [1, 3, 4])

  /** tests/test_tlb.py, test_lookup_updates_access_time: using 1 at step 4 makes 2
      the least recently used entry, so inserting 4 replaces 2. */
  lemma LookupRefreshesScenario()
    ensures LookupSpec(FullOfThree, 1, 4) == (Some(10), OneRefreshed)
    ensures InsertSpec(OneRefreshed, 3, 4, 40, 5) == Success(WithoutTwo)
    ensures LookupSpec(WithoutTwo, 1, 6).0.Some?
    ensures LookupSpec(WithoutTwo, 2, 6).0.None?
    ensures LookupSpec(WithoutTwo, 3, 6).0.Some?
    ensures LookupSpec(WithoutTwo, 4, 6).0.Some?
  {
    assert FullOfThree.entries[1 := TLBEntry(1, 10, 4)] == OneRefreshed.entries;
    FourReplacesTwo();
  }

  lemma FourReplacesTwo()
    ensures InsertSpec(OneRefreshed, 3, 4, 40, 5) == Success(WithoutTwo)
  {
    assert (OneRefreshed.entries - {2})[4 := TLBEntry(4, 40, 5)] == WithoutTwo.entries;
    assert Without([1, 2, 3], 2) + [4] == WithoutTwo.order by {
      assert Without([1, 2, 3], 2) == [1, 3];
    }
    assert InsertSpec(OneRefreshed, 3, 4, 40, 5)
        == Success(TlbState((OneRefreshed.entries - {2})[4 := TLBEntry(4, 40, 5)], Without(OneRefreshed.order, 2) + [4])) by {
      ThreeWellFormed(TLBEntry(1, 10, 4), TLBEntry(2, 20, 2), TLBEntry(3, 30, 3));
      ReplacesOldest(OneRefreshed, 3, 4, 40, 5, 2);
    }
  }

  /** tests/test_tlb.py, test_update_existing: re-inserting page 1 changes its frame
      and keeps a single entry. */
  lemma UpdateExistingScenario()
    ensures var t1 := InsertSpec(TlbState(map[], []), 3, 1, 10, 1).value;
      var t2 := InsertSpec(t1, 3, 1, 99, 2).value;
      && LookupSpec(t2, 1, 3).0 == Some(99)
      && |t2.entries| == 1
  {
  }
}
