/** The allocator of src/Slub.c at work. */
module SlubAllocator {
  import opened SlubPage
  import opened PageTable
  import opened SlubState

  const MAX_SLUB_OBJSIZE := 256

  class Allocator {
    const memory: array<byte>  // the address space; addresses are indices into it
    var memcaches: seq<MemCache>
    var at: map<nat, Slub>     // the fields of each slab, by the address of its page
    var table: seq<Entry>
    var needsSorting: bool
    var nrCache: seq<int>
    var nrCacheAll: int
    var nrPages: int
    var nrForeign: int
    var cacheBytes: int

    ghost var slabs: Slabs            // the free slots of each slab
    ghost var live: Live              // every slab-backed address handed out and not yet freed
    ghost var foreign: map<nat, nat>  // every calloc()ed block handed out, with its size

    ghost function Now(): View
      reads this
    {
      View(memcaches, table, needsSorting, slabs, live, foreign)
    }

    ghost function Tally(): Books
      reads this
    {
      Books(nrCache, nrCacheAll, cacheBytes, nrPages, nrForeign)
    }

    /** What holds between any two calls. */
    ghost predicate Valid()
      reads this, memory
    {
      && PagesHold(memory[..], at, slabs) && Sound(Now()) && InOrder(Tally(), Now())
      && forall a :: a in foreign ==> a + foreign[a] <= memory.Length
    }

    /** init_MemCache */
    constructor (memory: array<byte>)
      ensures Valid() && this.memory == memory && slabs == map[] && live == map[] && foreign == map[]
    {
      this.memory := memory;
      memcaches := seq(NUM_MEMCACHES, i requires 0 <= i => MemCache(CacheSize(i), [], []));
      at, slabs, live, foreign := map[], map[], map[], map[];
      table, needsSorting := seq(INIT_PAGETABLE_SIZE, _ => EMPTY), false;
      nrCache, nrCacheAll, cacheBytes := seq(NUM_MEMCACHES, _ => 0), 0, 0;
      nrPages, nrForeign := 0, 1;
      new;
      SoundAtStart(Now());
      BooksAtStart(Tally(), Now());
    }

    /** new_Slub */
    method NewSlab(i: nat, address: nat)
      requires PagesHold(memory[..], at, slabs) && Sound(Now()) && i < NUM_MEMCACHES
      requires Fresh(address, SLUB_PAGESIZE, Now()) && address + SLUB_PAGESIZE <= memory.Length
      modifies `nrPages, `slabs, `at, memory
      ensures PagesHold(memory[..], at, slabs) && nrPages == old(nrPages) + 1
      ensures slabs == old(slabs)[address := Slab(i, Ascending(Capacity(CacheSize(i))))]
      ensures SameBytes(old(memory[..]), memory[..], live) && SameFar(old(memory[..]), memory[..], foreign)
    {
      var s := NewSlub(memory, address, i);
      nrPages := nrPages + 1;
      PagesAdd(old(memory[..]), memory[..], at, Now(), address, s, Ascending(Capacity(CacheSize(i))));
      FreshChange(Now(), old(memory[..]), memory[..], at, address, SLUB_PAGESIZE);
      FreshChangeFar(Now(), old(memory[..]), memory[..], address, SLUB_PAGESIZE);
      at := at[address := s];
      slabs := slabs[address := Slab(i, Ascending(Capacity(CacheSize(i))))];
    }

    /** add_Slub(&m->partial, s); register_Slub(s, m) */
    method Link(i: nat, address: nat)
      requires i < |memcaches| && memcaches[i].partial == []
      requires table != [] && (!needsSorting ==> SortedByPage(table)) && NullsAreEmpty(table) && address != 0
      modifies `memcaches, `table, `needsSorting
      ensures memcaches == Set(old(memcaches), i, old(memcaches)[i].full, [address]) && needsSorting
      ensures Owned(table) == Owned(old(table)) + multiset{Entry(address, i)} && NullsAreEmpty(table) && table != []
    {
      var partial := memcaches[i].partial + [address];
      assert partial == [address];
      memcaches := Set(memcaches, i, memcaches[i].full, partial);
      table := Register(table, needsSorting, Entry(address, i));
      needsSorting := true;
    }

    /** Memcache i has no slab with a free slot, so that a request asks malloc() for a page. */
    predicate NeedsPage(i: nat)
      reads `memcaches
    {
      i < |memcaches| && memcaches[i].partial == []
    }

    /** `address` is where malloc() or calloc() places n bytes. */
    ghost predicate Placed(address: nat, n: nat)
      reads this
    {
      Fresh(address, n, Now()) && address + n <= memory.Length
    }

    /** MemCache_alloc up to Slub_alloc: a slab with a free slot, a new one if there is none. */
    method PartialSlab(i: nat, address: nat) returns (s: nat)
      requires PagesHold(memory[..], at, slabs) && Sound(Now()) && i < NUM_MEMCACHES
      requires NeedsPage(i) ==> Placed(address, SLUB_PAGESIZE)
      modifies `memcaches, `table, `needsSorting, `nrPages, `slabs, `at, memory
      ensures PagesHold(memory[..], at, slabs)
      ensures i < |old(memcaches)| && Serves(old(Now()), i, s, address, table) && Now() == With(old(Now()), i, s, table)
      ensures Tally() == PagesMore(old(Tally()), NewPages(old(Now()), i))
      ensures SameBytes(old(memory[..]), memory[..], live) && SameFar(old(memory[..]), memory[..], foreign)
    {
      hide PagesApart, Ledger, Listed, Registered, ForeignApart;
      SoundFacts(Now(), i, address);
      if memcaches[i].partial == [] {
        NewSlab(i, address);
        Link(i, address);
        s := address;
      } else {
        s := memcaches[i].partial[|memcaches[i].partial| - 1];
      }
    }

    /** Slub_alloc on slab s */
    method TakeFrom(s: nat, ghost slab: Slab) returns (addr: nat)
      requires PagesHold(memory[..], at, slabs) && Sound(Now()) && s in slabs && slabs[s] == slab && slab.free != []
      modifies `slabs, `at, memory
      ensures PagesHold(memory[..], at, slabs) && Takeable(slab)
      ensures slabs == old(slabs)[s := slab.(free := slab.free[1..])]
      ensures at[s].cache == slab.cache && at[s].numfree == |slab.free| - 1
      ensures addr == Addr(s, slab.cache, slab.free[0]) && IsZero(memory[..], addr, CacheSize(slab.cache))
      ensures SameBytes(old(memory[..]), memory[..], live) && SameFar(old(memory[..]), memory[..], foreign)
    {
      hide Parts, Ledger, PagesHold;
      FreeSlots(memory[..], at, slabs, s);
      var s';
      s', addr := SlubAlloc(memory, s, at[s], slab.free);
      SlotTaken(Now(), old(memory[..]), memory[..], at, s, s', slab.free);
      at := at[s := s'];
      slabs := slabs[s := slab.(free := slab.free[1..])];
    }

    static lemma FreeSlots(m: seq<byte>, at: map<nat, Slub>, slabs: Slabs, s: nat)
      requires PagesHold(m, at, slabs) && s in slabs && slabs[s].free != []
      ensures s in at && at[s].cache == slabs[s].cache && at[s].Holds(m, s, slabs[s].free) && Takeable(slabs[s])
    {
      FreeCount(at[s], m, s, slabs[s].free);
    }

    /** What it means for all the slabs and blocks that a free slot of one has been cleared */
    static lemma SlotTaken(v: View, m: seq<byte>, m': seq<byte>, at: map<nat, Slub>, s: nat, s': Slub, free: seq<nat>)
      requires Sound(v) && PagesHold(m, at, v.slabs) && s in v.slabs && v.slabs[s].free == free
      requires free != [] && Takeable(v.slabs[s]) && s'.cache == v.slabs[s].cache && s'.Holds(m', s, free[1..])
      requires ChangedOnly(m, m', Addr(s, s'.cache, free[0]), CacheSize(s'.cache))
      ensures PagesHold(m', at[s := s'], v.slabs[s := v.slabs[s].(free := free[1..])])
      ensures SameBytes(m, m', v.live) && SameFar(m, m', v.foreign)
    {
      hide PagesHold, SameBytes, SameFar;
      SlotInPage(m, m', s, s'.cache, free[0]);
      PagesStep(m, m', at, v, s, s', free[1..]);
      FreeSlotChange(v, m, m', s, free[0]);
      PageChangeFar(v, m, m', s);
    }

    /** Slub_alloc on slab s, and the move to the full list if that was its last free slot */
    method TakeSlot(s: nat, ghost slab: Slab) returns (addr: nat)
      requires PagesHold(memory[..], at, slabs) && Sound(Now()) && s in slabs && slabs[s] == slab && slab.free != []
      modifies `memcaches, `slabs, `live, `at, memory
      ensures PagesHold(memory[..], at, slabs) && Sound(Now()) && Takeable(slab)
      ensures slab.cache < |old(memcaches)| && Now() == Taken(old(Now()), s)
      ensures addr == Addr(s, slab.cache, slab.free[0]) && addr !in old(live)
      ensures IsZero(memory[..], addr, CacheSize(slab.cache))
      ensures SameBytes(old(memory[..]), memory[..], old(live)) && SameFar(old(memory[..]), memory[..], foreign)
    {
      hide Parts, Ledger, PagesApart, Listed, Registered, ForeignApart;
      addr := TakeFrom(s, slab);
      SoundTake(old(Now()), s);
      memcaches := ToFull(memcaches, at[s].cache, s, at[s].numfree == 0);
      live := live[addr := Block(s, slab.cache, slab.free[0])];
    }

    /** MemCache_alloc; s is the slab that served the request */
    method MemCacheAlloc(i: nat, address: nat) returns (addr: nat, ghost s: nat)
      requires PagesHold(memory[..], at, slabs) && Sound(Now()) && i < NUM_MEMCACHES
      requires NeedsPage(i) ==> Placed(address, SLUB_PAGESIZE)
      modifies `memcaches, `table, `needsSorting, `nrPages, `slabs, `at, `live, memory
      ensures PagesHold(memory[..], at, slabs) && Sound(Now())
      ensures Ready(old(Now()), i, s, table) && Now() == Served(old(Now()), i, s, table)
      ensures Tally() == PagesMore(old(Tally()), NewPages(old(Now()), i))
      ensures addr == NextAddr(old(Now()), i, s, table) && addr !in old(live)
      ensures IsZero(memory[..], addr, CacheSize(i)) && slabs.Keys <= old(slabs).Keys + {address}
      ensures SameBytes(old(memory[..]), memory[..], old(live)) && SameFar(old(memory[..]), memory[..], foreign)
    {
      ghost var v := Now();
      var slab := PartialSlab(i, address);
      WithSound(v, i, slab, address, table);
      ghost var between := memory[..];
      addr := TakeSlot(slab, slabs[slab]);
      SameBytesTransitive(old(memory[..]), between, memory[..], v.live);
      SameFarTransitive(old(memory[..]), between, memory[..], v.foreign);
      s := slab;
    }

    /** The bookkeeping of memcache_alloc, done before the slot is taken */
    method Count(i: nat)
      requires Sound(Now()) && InOrder(Tally(), Now()) && i < NUM_MEMCACHES
      modifies `nrCache, `nrCacheAll, `cacheBytes
      ensures i < |old(nrCache)| && Tally() == Counting(old(Tally()), i)
    {
      SoundFacts(Now(), i, 0);
      OpenBooks(Tally(), Now());
      nrCache := nrCache[i := nrCache[i] + 1];
      nrCacheAll := nrCacheAll + 1;
      cacheBytes := cacheBytes + memcaches[i].size;
    }

    /** The branch of memcache_alloc for a request that a slab can serve */
    method AllocSlot(i: nat, address: nat) returns (addr: nat)
      requires Valid() && i < NUM_MEMCACHES && (NeedsPage(i) ==> Placed(address, SLUB_PAGESIZE))
      modifies this, memory
      ensures Valid() && Handed(old(Now()), Now(), addr, i)
      ensures IsZero(memory[..], addr, CacheSize(i)) && slabs.Keys <= old(slabs).Keys + {address}
      ensures SameBytes(old(memory[..]), memory[..], old(live)) && SameFar(old(memory[..]), memory[..], foreign)
    {
      ghost var v, b := Now(), Tally();
      Count(i);
      ghost var s;
      addr, s := MemCacheAlloc(i, address);
      BooksServed(b, v, i, s, table);
    }

    /** The branch for a larger request: calloc(). `address` is what calloc() returns. */
    method AllocForeign(size: nat, address: nat)
      requires Valid() && Placed(address, size)
      modifies `foreign, `nrForeign, memory
      ensures Valid() && address !in old(live) && address !in old(foreign) && foreign == old(foreign)[address := size]
      ensures IsZero(memory[..], address, size)
      ensures SameBytes(old(memory[..]), memory[..], live) && SameFar(old(memory[..]), memory[..], old(foreign))
    {
      ForeignAdd(Now(), address, size);
      BooksForeign(Tally(), Now(), address, size);
      nrForeign := nrForeign + 1;
      Clear(memory, address, size);
      FreshChange(Now(), old(memory[..]), memory[..], at, address, size);
      FreshChangeFar(Now(), old(memory[..]), memory[..], address, size);
      foreign := foreign[address := size];
    }

    /** How many bytes a request asks malloc() or calloc() for: a page for a slab, the block itself, or none */
    function Asks(size: nat): nat
      reads `memcaches
    {
      if size >= MAX_SLUB_OBJSIZE then size else if NeedsPage(size / SLUB_SIZESTEP) then SLUB_PAGESIZE else 0
    }

    /** memcache_alloc. `address` is where the memory that malloc or calloc is asked for lies, if it is asked at all. */
    method Alloc(size: nat, address: nat) returns (addr: nat)
      requires Valid() && size > 0 && (Asks(size) > 0 ==> Placed(address, Asks(size)))
      modifies this, memory
      ensures Valid() && addr !in old(live) && addr !in old(foreign)
      ensures if size < MAX_SLUB_OBJSIZE
        then && addr in live && live == old(live)[addr := live[addr]] && foreign == old(foreign)
             && size < CacheSize(live[addr].cache) <= size + SLUB_SIZESTEP
             && IsZero(memory[..], addr, CacheSize(live[addr].cache))
        else && addr == address && foreign == old(foreign)[addr := size] && live == old(live)
             && IsZero(memory[..], addr, size)
      ensures slabs.Keys <= old(slabs).Keys + {address}
      ensures SameBytes(old(memory[..]), memory[..], old(live)) && SameFar(old(memory[..]), memory[..], old(foreign))
    {
      if size >= MAX_SLUB_OBJSIZE {
        addr := address;
        AllocForeign(size, address);
      } else {
        addr := AllocSlot(size / SLUB_SIZESTEP, address);
      }
    }

    /** A client stores a byte in a block it holds: the allocator keeps its bearings, and no other block changes. */
    method Store(addr: nat, j: nat, value: byte)
      requires Valid() && (addr in live || addr in foreign) && j < Room(Now(), addr)
      modifies memory
      ensures Valid() && addr + Room(Now(), addr) <= memory.Length && memory[addr + j] == value
      ensures ChangedOnly(old(memory[..]), memory[..], addr + j, 1)
      ensures SameBytes(old(memory[..]), memory[..], live - {addr})
        && SameFar(old(memory[..]), memory[..], foreign - {addr})
    {
      RoomInMemory(addr);
      memory[addr + j] := value;
      LiveNotForeign(Now(), addr);
      if addr in live {
        LiveSlot(Now(), addr);
        LiveBlockChange(Now(), old(memory[..]), memory[..], at, addr);
        BlockInPage(old(memory[..]), memory[..], live[addr]);
        PageChangeFar(Now(), old(memory[..]), memory[..], live[addr].slab);
      } else {
        ForeignBlockChange(Now(), old(memory[..]), memory[..], at, addr);
      }
    }

    lemma RoomInMemory(addr: nat)
      requires Valid() && (addr in live || addr in foreign)
      ensures addr + Room(Now(), addr) <= memory.Length
    {
      if addr in live {
        LiveInMemory(Now(), memory[..], at, addr);
      }
    }

    lemma BlockInPage(m: seq<byte>, m': seq<byte>, b: Block)
      requires b.slot < Capacity(CacheSize(b.cache))
        && ChangedOnly(m, m', Addr(b.slab, b.cache, b.slot), CacheSize(b.cache))
      ensures ChangedOnly(m, m', b.slab, SLUB_PAGESIZE)
    {
      SlotInPage(m, m', b.slab, b.cache, b.slot);
    }

    /** Slub_free of slot k of slab s */
    method GiveBack(s: nat, addr: nat, ghost slab: Slab, ghost k: nat)
      requires PagesHold(memory[..], at, slabs) && Sound(Now()) && s in slabs && slabs[s] == slab
      requires IsLive(slabs, s, k) && addr == Addr(s, slab.cache, k)
      modifies `slabs, `live, `at, memory
      ensures PagesHold(memory[..], at, slabs) && Now() == Freed(old(Now()), s, k)
      ensures s in slabs && at[s].numfree == |slab.free| + 1
      ensures SameBytes(old(memory[..]), memory[..], live) && SameFar(old(memory[..]), memory[..], foreign)
    {
      assert at[s].Holds(memory[..], s, slab.free);
      var s' := SlubFree(memory, s, at[s], addr, slab.free, k);
      SlotInPage(old(memory[..]), memory[..], s, slab.cache, k);
      PagesStep(old(memory[..]), memory[..], at, Now(), s, s', [k] + slab.free);
      FreedSlotChange(Now(), old(memory[..]), memory[..], s, k);
      PageChangeFar(Now(), old(memory[..]), memory[..], s);
      at := at[s := s'];
      slabs := slabs[s := slab.(free := [k] + slab.free)];
      live := live - {addr};
    }

    /** MemCache_free after Slub_free: a slab that was full moves to the partial list, one that has become
        idle is taken off the list and destroyed. */
    method Relist(s: nat, wasFull: bool) returns (gone: bool)
      requires PagesHold(memory[..], at, slabs) && s in slabs && slabs[s].cache < |memcaches|
      modifies `memcaches, `slabs, `at, `nrPages
      ensures PagesHold(memory[..], at, slabs) && Now() == Relisted(old(Now()), s, wasFull, gone)
      ensures gone == (!wasFull && old(at)[s].numfree >= Capacity(CacheSize(old(slabs)[s].cache)))
      ensures Tally() == PagesMore(old(Tally()), if gone then -1 else 0)
    {
      var i := at[s].cache;
      gone := !wasFull && at[s].numfree >= Capacity(CacheSize(i));
      if gone {
        memcaches := Set(memcaches, i, memcaches[i].full, WithoutSlab(memcaches[i].partial, s));
        PagesDrop(memory[..], at, slabs, s);
        at := at - {s};
        slabs := slabs - {s};
        nrPages := nrPages - 1;
      } else {
        memcaches := ToPartial(memcaches, i, s, wasFull);
      }
    }

    /** MemCache_free; true if the slab was freed as well */
    method MemCacheFree(s: nat, addr: nat, ghost slab: Slab, ghost k: nat) returns (gone: bool)
      requires PagesHold(memory[..], at, slabs) && Sound(Now()) && s in slabs && slabs[s] == slab
      requires IsLive(slabs, s, k) && addr == Addr(s, slab.cache, k)
      modifies `memcaches, `slabs, `at, `live, `nrPages, memory
      ensures PagesHold(memory[..], at, slabs) && gone == LastLive(slab)
      ensures slab.cache < |old(memcaches)| && Now() == Released(old(Now()), s, k)
      ensures Tally() == PagesMore(old(Tally()), -PagesGone(slab)) && slabs.Keys <= old(slabs).Keys
      ensures SameBytes(old(memory[..]), memory[..], live) && SameFar(old(memory[..]), memory[..], foreign)
    {
      CacheExists(Now(), s);
      var wasFull := at[s].numfree == 0;
      assert wasFull == (slab.free == []) && (wasFull ==> !LastLive(slab)) by {
        assert at[s].Holds(memory[..], s, slab.free);
        CapacityBounds(CacheSize(slab.cache));
      }
      GiveBack(s, addr, slab, k);
      gone := Relist(s, wasFull);
    }

    /** memcache_free once the entry of the slab has been found: entry p is cleared if the slab is gone. */
    method FreeSlot(p: nat, addr: nat, ghost x: Block)
      requires PagesHold(memory[..], at, slabs) && Sound(Now()) && p < |table| && table[p] == Entry(x.slab, x.cache)
      requires IsLive(slabs, x.slab, x.slot) && x.cache == slabs[x.slab].cache && addr == Addr(x.slab, x.cache, x.slot)
      modifies `memcaches, `table, `needsSorting, `slabs, `at, `live, `nrPages, memory
      ensures PagesHold(memory[..], at, slabs) && Sound(Now())
      ensures x.cache < |old(memcaches)| && Now() == Cleaned(old(Now()), x.slab, x.slot, p)
      ensures Tally() == PagesMore(old(Tally()), -PagesGone(old(slabs)[x.slab])) && slabs.Keys <= old(slabs).Keys
      ensures SameBytes(old(memory[..]), memory[..], live) && SameFar(old(memory[..]), memory[..], foreign)
    {
      var s := table[p].page;
      SoundCleaned(Now(), s, x.slot, p, memory[..], at);
      var gone := MemCacheFree(s, addr, slabs[s], x.slot);
      if gone {
        table := table[p := EMPTY];
        needsSorting := true;
      }
      assert Now() == Cleaned(old(Now()), s, x.slot, p);
    }

    /** sort_pagetable and bsearch: they find the entry of the slab that a live address belongs to, and no
        entry for an address that did not come from a slab. */
    method Find(addr: nat) returns (p: int)
      requires Sound(Now()) && (addr in live || addr in foreign)
      modifies `table, `needsSorting
      ensures Sound(Now()) && -1 <= p < |table| && (p >= 0 <==> addr in live)
      ensures p >= 0 ==> table[p] == Entry(live[addr].slab, live[addr].cache)
    {
      ghost var v := Now();
      SoundFacts(v, 0, 0);
      table := SortPageTable(table, needsSorting);
      needsSorting := false;
      SoundSort(v, table);
      p := BSearch(addr, table);
      if addr in live {
        OwnerFound(v, table, addr, p);
      } else if p >= 0 {
        ForeignNotFound(v, table, addr, p);
      }
    }

    /** The bookkeeping of memcache_free, done before the slot is freed. */
    method Uncount(i: nat)
      requires Sound(Now()) && InOrder(Tally(), Now()) && i < NUM_MEMCACHES
      modifies `nrCache, `nrCacheAll, `cacheBytes
      ensures i < |old(nrCache)| && Tally() == Uncounting(old(Tally()), i)
    {
      SoundFacts(Now(), i, 0);
      OpenBooks(Tally(), Now());
      nrCache := nrCache[i := nrCache[i] - 1];
      nrCacheAll := nrCacheAll - 1;
      cacheBytes := cacheBytes - memcaches[i].size;
    }

    /** The branch of memcache_free for an address that a page table entry claims */
    method FreeFound(p: nat, addr: nat)
      requires Valid() && p < |table| && addr in live && table[p] == Entry(live[addr].slab, live[addr].cache)
      modifies this, memory
      ensures Valid() && live == old(live) - {addr} && foreign == old(foreign) && slabs.Keys <= old(slabs).Keys
      ensures SameBytes(old(memory[..]), memory[..], live) && SameFar(old(memory[..]), memory[..], foreign)
    {
      ghost var v, b := Now(), Tally();
      LiveSlot(v, addr);
      Uncount(table[p].memcache);
      FreeSlot(p, addr, live[addr]);
      BooksCleaned(b, v, addr, v.live[addr], p);
    }

    /** The branch for an address that none claims */
    method FreeForeign(addr: nat)
      requires Valid() && addr in foreign
      modifies `foreign, `nrForeign
      ensures Valid() && foreign == old(foreign) - {addr}
    {
      BooksForeign(Tally(), Now(), addr, 0);
      ForeignDrop(Now(), addr);
      foreign := foreign - {addr};
      nrForeign := nrForeign - 1;
    }

    /** memcache_free: the page table tells whether the address is slab-backed, and whose it is. */
    method Free(addr: nat)
      requires Valid() && (addr == 0 || addr in live || addr in foreign)
      modifies this, memory
      ensures Valid()
      ensures live == old(live) - {addr} && foreign == old(foreign) - {addr} && slabs.Keys <= old(slabs).Keys
      ensures SameBytes(old(memory[..]), memory[..], live) && SameFar(old(memory[..]), memory[..], foreign)
    {
      hide Parts, Ledger;
      ghost var v := Now();
      if addr == 0 {
        NullNotLive(v);
        return;
      }
      var p := Find(addr);
      SameBooks(Tally(), v, Now());
      LiveNotForeign(v, addr);
      if p >= 0 {
        FreeFound(p, addr);
      } else {
        FreeForeign(addr);
      }
    }
  }
}
