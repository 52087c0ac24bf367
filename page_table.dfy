/** The lazily growing page table (simulator/page_table.py): a dictionary from
    virtual page number to entry. Entries are values here; where the source hands out
    an entry and later assigns its fields, the engine writes the updated value back
    under the same key. */
module PageTables {
  import opened Wrappers

  datatype PageTableEntry = PageTableEntry(
    page: int,
    frameIndex: Option<int>,  // the frame holding this page
    present: bool,            // is the page in a frame?
    referenced: bool,
    dirty: bool)

  /** `PageTableEntry(page=p)`: absent, unreferenced, clean, no frame. */
  function NewEntry(page: int): PageTableEntry
  {
    PageTableEntry(page, None, false, false, false)
  }

  /** Every entry is stored under its own page number. */
  ghost predicate WellKeyed(entries: map<int, PageTableEntry>)
  {
    forall p :: p in entries ==> entries[p].page == p
  }

  /** The dictionary after `get_or_create(page)`. */
  function EnsureEntry(entries: map<int, PageTableEntry>, page: int): map<int, PageTableEntry>
  {
    if page in entries then entries else entries[page := NewEntry(page)]
  }

  class PageTable {
    var entries: map<int, PageTableEntry>

    ghost predicate Valid()
      reads this
    {
      WellKeyed(entries)
    }

    constructor ()
      ensures Valid() && entries == map[]
    {
      entries := map[];
    }

    /** Returns the entry of `page`, creating a default one on first use; an
        existing entry is returned unchanged and no other key is touched. */
    method GetOrCreate(page: int) returns (e: PageTableEntry)
      requires Valid()
      modifies this
      ensures Valid()
      ensures page in old(entries) ==> e == old(entries)[page] && entries == old(entries)
      ensures page !in old(entries) ==> e == NewEntry(page) && entries == old(entries)[page := e]
      ensures entries == EnsureEntry(old(entries), page)
      ensures old(entries).Keys <= entries.Keys && page in entries && entries[page] == e && e.page == page
    {
      if page !in entries {
        entries := entries[page := NewEntry(page)];
      }
      e := entries[page];
    }

    /** Looks a page up without ever creating an entry. */
    function Get(page: int): (r: Option<PageTableEntry>)
      reads this
      ensures r.Some? <==> page in entries
      ensures r.Some? ==> r.value == entries[page]
    {
      if page in entries then Some(entries[page]) else None
    }

    /** A copy of the whole dictionary, with exactly the current keys; changing
        the copy's keys cannot reach the table. */
    function AllEntries(): (r: map<int, PageTableEntry>)
      reads this
      ensures r.Keys == entries.Keys
      ensures forall p :: p in r ==> r[p] == entries[p]
    {
      map p | p in entries :: entries[p]
    }
  }

  /** tests/test_page_table.py, test_get_or_create_new and test_get_non_existent:
      a new entry has its page and no frame, is neither present, referenced nor
      dirty, and a page never asked for has no entry. */
  method NewEntryScenario() returns (e: PageTableEntry, missing: Option<PageTableEntry>)
    ensures e.page == 10 && e.frameIndex.None? && !e.present && !e.referenced && !e.dirty
    ensures missing.None?
  {
    var pt := new PageTable();
    e := pt.GetOrCreate(10);
    missing := pt.Get(999);
  }

  /** tests/test_page_table.py, test_all_entries: two pages asked for, two entries. */
  method AllEntriesScenario() returns (all: map<int, PageTableEntry>)
    ensures |all| == 2 && 1 in all && 2 in all
  {
    var pt := new PageTable();
    var e1 := pt.GetOrCreate(1);
    var e2 := pt.GetOrCreate(2);
    all := pt.AllEntries();
    assert all.Keys == {1, 2};
  }
}
