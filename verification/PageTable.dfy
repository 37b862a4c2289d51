/** The page table of src/Slub.c: it maps an address to the slab whose page holds it. */
module PageTable {
  import opened SlubPage

  const INIT_PAGETABLE_SIZE := 512
  const GROW_PAGETABLE := 512

  /** page 0 is the null pointer; memcache is the index that the C pointer difference computes. The slab
      itself is known by the address of its page, so the third field of the C structure is not repeated. */
  datatype Entry = Entry(page: nat, memcache: nat)

  const EMPTY := Entry(0, 0)

  ghost predicate SortedByPage(t: seq<Entry>) {
    forall i, j :: 0 <= i < j < |t| ==> t[i].page <= t[j].page
  }

  /** How qsort leaves the table: sorted, with the same entries. */
  function InsertEntry(e: Entry, t: seq<Entry>): seq<Entry> {
    if t == [] || e.page <= t[0].page then [e] + t else [t[0]] + InsertEntry(e, t[1..])
  }

  function QSort(t: seq<Entry>): seq<Entry> {
    if t == [] then [] else InsertEntry(t[0], QSort(t[1..]))
  }

  lemma {:induction false} InsertSorts(e: Entry, t: seq<Entry>)
    requires SortedByPage(t)
    ensures SortedByPage(InsertEntry(e, t))
  {
    if t == [] || e.page <= t[0].page {
    } else {
      InsertSorts(e, t[1..]);
      InsertAbove(e, t[1..], t[0].page);
    }
  }

  lemma {:induction false} InsertAbove(e: Entry, t: seq<Entry>, page: nat)
    requires page <= e.page && forall i :: 0 <= i < |t| ==> page <= t[i].page
    ensures forall i :: 0 <= i < |InsertEntry(e, t)| ==> page <= InsertEntry(e, t)[i].page
  {
    if t != [] && e.page > t[0].page {
      InsertAbove(e, t[1..], page);
    }
  }

  lemma {:induction false} InsertKeeps(e: Entry, t: seq<Entry>)
    ensures multiset(InsertEntry(e, t)) == multiset(t) + multiset{e}
  {
    if t != [] && e.page > t[0].page {
      InsertKeeps(e, t[1..]);
      assert t == [t[0]] + t[1..];
    }
  }

  lemma NothingSorted()
    ensures SortedByPage([])
  {
  }

  lemma {:induction false} QSortSorts(t: seq<Entry>)
    ensures SortedByPage(QSort(t)) && multiset(QSort(t)) == multiset(t)
    ensures |QSort(t)| == |t|
  {
    hide SortedByPage, InsertEntry;
    if t == [] {
      NothingSorted();
    } else {
      QSortSorts(t[1..]);
      InsertSorts(t[0], QSort(t[1..]));
      InsertKeeps(t[0], QSort(t[1..]));
      assert t == [t[0]] + t[1..];
    }
    assert |multiset(QSort(t))| == |QSort(t)|;
  }

  /** The three outcomes of cmp_address: left of the page, right of it, or inside. */
  function CmpAddress(addr: nat, e: Entry): int {
    if addr < e.page then -1
    else if addr >= e.page + SLUB_PAGESIZE then 1
    else 0
  }

  /** bsearch with cmp_address: finds an entry whose page holds the address, if there is one. */
  method BSearch(addr: nat, t: seq<Entry>) returns (r: int)
    requires SortedByPage(t)
    ensures -1 <= r < |t|
    ensures r >= 0 ==> CmpAddress(addr, t[r]) == 0
    ensures r < 0 ==> forall i :: 0 <= i < |t| ==> CmpAddress(addr, t[i]) != 0
  {
    var lo, hi := 0, |t|;
    while lo < hi
      invariant 0 <= lo <= hi <= |t|
      invariant forall i :: 0 <= i < lo ==> CmpAddress(addr, t[i]) == 1
      invariant forall i :: hi <= i < |t| ==> CmpAddress(addr, t[i]) == -1
    {
      var mid := (lo + hi) / 2;
      var c := CmpAddress(addr, t[mid]);
      if c < 0 {
        hi := mid;
      } else if c > 0 {
        lo := mid + 1;
      } else {
        return mid;
      }
    }
    return -1;
  }

  /** After sorting, entry 0 is free whenever any entry is. */
  lemma FreeEntryFirst(t: seq<Entry>)
    requires SortedByPage(t) && exists i :: 0 <= i < |t| && t[i].page == 0
    ensures t[0].page == 0
  {
  }

  /** The entries in use, with their multiplicity. */
  ghost function Owned(t: seq<Entry>): multiset<Entry> {
    multiset(t)[EMPTY := 0]
  }

  lemma {:induction false} EmptiesOwnNothing(n: nat, t: seq<Entry>)
    ensures Owned(seq(n, _ => EMPTY) + t) == Owned(t)
  {
    var e := seq(n, _ => EMPTY);
    if n == 0 {
      assert e + t == t;
    } else {
      EmptiesOwnNothing(n - 1, t);
      assert e + t == [EMPTY] + (seq(n - 1, _ => EMPTY) + t);
    }
  }

  lemma OverwriteEmpty(t: seq<Entry>, i: nat, e: Entry)
    requires i < |t| && t[i] == EMPTY && e != EMPTY
    ensures Owned(t[i := e]) == Owned(t) + multiset{e}
  {
    assert t == t[..i] + [t[i]] + t[i + 1..];
    assert t[i := e] == t[..i] + [e] + t[i + 1..];
  }

  lemma ReleaseEntry(t: seq<Entry>, i: nat)
    requires i < |t| && t[i] != EMPTY
    ensures Owned(t[i := EMPTY]) == Owned(t) - multiset{t[i]}
  {
    assert t == t[..i] + [t[i]] + t[i + 1..];
    assert t[i := EMPTY] == t[..i] + [EMPTY] + t[i + 1..];
  }

  ghost predicate NullsAreEmpty(t: seq<Entry>) {
    forall i :: 0 <= i < |t| && t[i].page == 0 ==> t[i] == EMPTY
  }

  method SortPageTable(table: seq<Entry>, needsSorting: bool) returns (table': seq<Entry>)
    requires !needsSorting ==> SortedByPage(table)
    requires NullsAreEmpty(table)
    ensures SortedByPage(table') && multiset(table') == multiset(table) && |table'| == |table|
    ensures NullsAreEmpty(table')
  {
    if !needsSorting {
      return table;
    }
    QSortSorts(table);
    table' := QSort(table);
    forall i | 0 <= i < |table'| && table'[i].page == 0
      ensures table'[i] == EMPTY
    {
      assert table'[i] in multiset(table');
    }
  }

  /** register_Slub: sorts if needed, grows by empty entries in front if entry 0 is taken, and then
      overwrites entry 0, which therefore never costs another slab its entry. */
  method Register(table: seq<Entry>, needsSorting: bool, e: Entry) returns (table': seq<Entry>)
    requires table != [] && (!needsSorting ==> SortedByPage(table))
    requires NullsAreEmpty(table) && e.page != 0
    ensures Owned(table') == Owned(table) + multiset{e}
    ensures NullsAreEmpty(table') && table' != []
  {
    var t := SortPageTable(table, needsSorting);
    if t[0].page != 0 {
      EmptiesOwnNothing(GROW_PAGETABLE, t);
      t := seq(GROW_PAGETABLE, _ => EMPTY) + t;
    }
    OverwriteEmpty(t, 0, e);
    table' := t[0 := e];
  }
}
