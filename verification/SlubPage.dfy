/** One slab of src/Slub.c: a page cut into equal slots whose free slots are threaded into a chain
    through their own first four bytes. Memory is one array of bytes, and a page is known by its address
    in it. */
module SlubPage {
  import opened Common

  const SLUB_PAGESIZE := 4096
  const SLUB_SIZESTEP := 16
  const NUM_MEMCACHES := 16
  const END_MARKER := 0xffff

  type byte = x: int | 0 <= x < 256

  /** The object size of memcache number i. */
  function CacheSize(i: nat): nat {
    (i + 1) * SLUB_SIZESTEP
  }

  predicate ValidSize(size: nat) {
    SLUB_SIZESTEP <= size <= CacheSize(NUM_MEMCACHES - 1)
  }

  /** Where slot k starts in its page: k * size (see OffsetIsProduct). It is defined by recursion so that
      only the lemmas next to it meet nonlinear arithmetic. */
  function Offset(k: nat, size: nat): nat {
    if k == 0 then 0 else Offset(k - 1, size) + size
  }

  /** How many slots fit n bytes: n / size (see SlotsIsQuotient). */
  function Slots(n: nat, size: nat): nat
    requires size > 0
  {
    if n < size then 0 else 1 + Slots(n - size, size)
  }

  function Capacity(size: nat): nat
    requires size > 0
  {
    Slots(SLUB_PAGESIZE, size)
  }

  lemma {:induction false} OffsetIsProduct(k: nat, size: nat)
    ensures Offset(k, size) == k * size
  {
    if k > 0 {
      OffsetIsProduct(k - 1, size);
    }
  }

  lemma {:induction false} SlotsIsQuotient(n: nat, size: nat)
    requires size > 0
    ensures Slots(n, size) == n / size
  {
    if n >= size {
      SlotsIsQuotient(n - size, size);
      var q, r := (n - size) / size, (n - size) % size;
      assert (q + 1) * size == q * size + size;
      QuotientUnique(n, size, q + 1, r);
    } else {
      QuotientUnique(n, size, 0, n);
    }
  }

  lemma ProductMonotone(a: nat, b: nat, d: nat)
    requires a <= b
    ensures a * d <= b * d
  {
  }

  lemma QuotientUnique(n: nat, d: nat, q: nat, r: nat)
    requires r < d && n == q * d + r
    ensures n / d == q
  {
    var q', r' := n / d, n % d;
    assert n == q' * d + r';
    if q < q' {
      ProductMonotone(q + 1, q', d);
    } else if q' < q {
      ProductMonotone(q' + 1, q, d);
    }
  }

  lemma {:induction false} SlotInside(k: nat, n: nat, size: nat)
    requires size > 0 && k < Slots(n, size)
    ensures Offset(k, size) + size <= n
  {
    if k > 0 {
      SlotInside(k - 1, n - size, size);
    }
  }

  lemma OffsetInPage(k: nat, size: nat)
    requires size > 0 && k < Capacity(size)
    ensures Offset(k, size) + size <= SLUB_PAGESIZE
  {
    SlotInside(k, SLUB_PAGESIZE, size);
  }

  /** Two slots never share a byte. */
  lemma {:induction false} SlotsDisjoint(j: nat, k: nat, size: nat)
    requires j < k
    ensures Offset(j, size) + size <= Offset(k, size)
    decreases k
  {
    if j < k - 1 {
      SlotsDisjoint(j, k - 1, size);
    }
  }

  lemma SlotsApart(j: nat, k: nat, size: nat)
    requires j != k
    ensures Offset(j, size) + size <= Offset(k, size) || Offset(k, size) + size <= Offset(j, size)
  {
    if j < k {
      SlotsDisjoint(j, k, size);
    } else {
      SlotsDisjoint(k, j, size);
    }
  }

  lemma SlotOfOffset(k: nat, size: nat)
    requires size > 0
    ensures Offset(k, size) / size == k
  {
    OffsetIsProduct(k, size);
    QuotientUnique(k * size, size, k, 0);
  }

  lemma {:induction false} SlotsMonotone(n: nat, small: nat, large: nat)
    requires 0 < small <= large
    ensures forall m :: 0 <= m <= n ==> Slots(m, large) <= Slots(n, small)
  {
    forall m | 0 <= m <= n
      ensures Slots(m, large) <= Slots(n, small)
    {
      if m >= large {
        SlotsMonotone(n - small, small, large);
      }
    }
  }

  lemma CapacityBounds(size: nat)
    requires ValidSize(size)
    ensures 16 <= Capacity(size) <= 256
  {
    SlotsIsQuotient(SLUB_PAGESIZE, SLUB_SIZESTEP);
    SlotsIsQuotient(SLUB_PAGESIZE, CacheSize(NUM_MEMCACHES - 1));
    SlotsMonotone(SLUB_PAGESIZE, SLUB_SIZESTEP, size);
    SlotsMonotone(SLUB_PAGESIZE, size, CacheSize(NUM_MEMCACHES - 1));
  }

  // ---------------------------------------------------------------- words and slots in memory

  /** The 32-bit word stored, little end first, in the four bytes at `at`. */
  function Word(m: seq<byte>, at: nat): nat
    requires at + 4 <= |m|
  {
    (m[at] as int) + 0x100 * (m[at + 1] as int) + 0x1_0000 * (m[at + 2] as int) + 0x100_0000 * (m[at + 3] as int)
  }

  /** From m to m' nothing has changed but the n bytes at `at`. */
  ghost predicate ChangedOnly(m: seq<byte>, m': seq<byte>, at: nat, n: nat) {
    |m'| == |m| && forall j :: 0 <= j < |m| && !(at <= j < at + n) ==> m'[j] == m[j]
  }

  lemma WordKept(m: seq<byte>, m': seq<byte>, w: nat, at: nat, n: nat)
    requires w + 4 <= |m| && ChangedOnly(m, m', at, n) && (w + 4 <= at || at + n <= w)
    ensures Word(m', w) == Word(m, w)
  {
  }

  method StoreWord(mem: array<byte>, at: nat, v: nat)
    requires at + 4 <= mem.Length && v < 0x1_0000_0000
    modifies mem
    ensures Word(mem[..], at) == v && ChangedOnly(old(mem[..]), mem[..], at, 4)
  {
    Digits(v);
    var b0, b1, b2, b3 := v % 0x100, (v / 0x100) % 0x100, (v / 0x1_0000) % 0x100, v / 0x100_0000;
    mem[at], mem[at + 1], mem[at + 2], mem[at + 3] := b0, b1, b2, b3;
  }

  lemma Digits(v: nat)
    requires v < 0x1_0000_0000
    ensures v / 0x100_0000 < 0x100
    ensures v == v % 0x100 + 0x100 * ((v / 0x100) % 0x100)
      + 0x1_0000 * ((v / 0x1_0000) % 0x100) + 0x100_0000 * (v / 0x100_0000)
  {
    var a := v / 0x100;
    var b := a / 0x100;
    assert v / 0x1_0000 == b && v / 0x100_0000 == b / 0x100;
    assert v == v % 0x100 + 0x100 * a && a == a % 0x100 + 0x100 * b && b == b % 0x100 + 0x100 * (b / 0x100);
  }

  method Clear(mem: array<byte>, at: nat, n: nat)
    requires at + n <= mem.Length
    modifies mem
    ensures ChangedOnly(old(mem[..]), mem[..], at, n) && IsZero(mem[..], at, n)
  {
    forall j | at <= j < at + n {
      mem[j] := 0;
    }
  }

  ghost predicate IsZero(m: seq<byte>, at: nat, n: nat) {
    at + n <= |m| && forall j :: at <= j < at + n ==> m[j] == 0
  }

  // ---------------------------------------------------------------- the free chain

  /** What the i-th free slot's predecessor stores: its number, or the end marker. */
  ghost function Link(free: seq<nat>, i: nat): nat {
    if i < |free| then free[i] else END_MARKER
  }

  ghost function Ascending(n: nat): (s: seq<nat>)
    ensures |s| == n && forall i :: 0 <= i < n ==> s[i] == i
    ensures forall k: nat :: k in s <==> k < n
  {
    if n == 0 then [] else Ascending(n - 1) + [n - 1]
  }

  /** The chain starting at free[0] runs through the page at `base`. */
  ghost predicate Threaded(m: seq<byte>, base: nat, size: nat, free: seq<nat>)
    requires base + SLUB_PAGESIZE <= |m| && size >= 4
  {
    && (forall i :: 0 <= i < |free| ==> free[i] < Capacity(size))
    && (forall i {:trigger Offset(free[i], size)} :: 0 <= i < |free| ==>
          && Offset(free[i], size) + size <= SLUB_PAGESIZE
          && Word(m, base + Offset(free[i], size)) == Link(free, i + 1))
  }

  /** The fields of a slab, apart from its page and its list links; `cache` is the memcache it is made for. */
  datatype Slub = Slub(cache: nat, first: nat, numfree: nat) {
    function Size(): nat { CacheSize(cache) }

    /** The slab describes the page at `base`, and `free` is the chain of its free slots. */
    ghost predicate Holds(m: seq<byte>, base: nat, free: seq<nat>) {
      && cache < NUM_MEMCACHES && base + SLUB_PAGESIZE <= |m|
      && numfree == |free| && NoDup(free) && first == Link(free, 0)
      && Threaded(m, base, Size(), free)
    }
  }

  /** A write outside the page does not concern the slab. */
  lemma Framed(m: seq<byte>, m': seq<byte>, at: nat, n: nat, s: Slub, base: nat, free: seq<nat>)
    requires s.Holds(m, base, free) && ChangedOnly(m, m', at, n)
    requires at + n <= base || base + SLUB_PAGESIZE <= at
    ensures s.Holds(m', base, free)
  {
  }

  /** A write to a slot that is not on the chain leaves the chain as it is. */
  lemma FramedBySlot(m: seq<byte>, m': seq<byte>, at: nat, n: nat, size: nat, base: nat, k: nat, free: seq<nat>)
    requires base + SLUB_PAGESIZE <= |m| && size >= 4 && Threaded(m, base, size, free) && k !in free
    requires ChangedOnly(m, m', at, n) && base + Offset(k, size) <= at && at + n <= base + Offset(k, size) + size
    ensures Threaded(m', base, size, free)
  {
    forall i {:trigger Offset(free[i], size)} | 0 <= i < |free|
      ensures Word(m', base + Offset(free[i], size)) == Link(free, i + 1)
    {
      SlotsApart(free[i], k, size);
    }
  }

  lemma ThreadedTail(m: seq<byte>, base: nat, size: nat, free: seq<nat>)
    requires base + SLUB_PAGESIZE <= |m| && size >= 4 && Threaded(m, base, size, free) && free != []
    ensures Threaded(m, base, size, free[1..])
  {
    var rest := free[1..];
    forall i {:trigger Offset(rest[i], size)} | 0 <= i < |rest|
      ensures Word(m, base + Offset(rest[i], size)) == Link(rest, i + 1)
    {
      assert rest[i] == free[i + 1];
    }
  }

  /** new_Slub: a zeroed page whose chain runs through all slots in ascending order. */
  method NewSlub(mem: array<byte>, base: nat, cache: nat) returns (s: Slub)
    requires cache < NUM_MEMCACHES && base + SLUB_PAGESIZE <= mem.Length
    modifies mem
    ensures s.cache == cache && s.Holds(mem[..], base, Ascending(Capacity(CacheSize(cache))))
    ensures ChangedOnly(old(mem[..]), mem[..], base, SLUB_PAGESIZE)
  {
    CapacityBounds(CacheSize(cache));
    s := Slub(cache, 0, Capacity(CacheSize(cache)));
    Clear(mem, base, SLUB_PAGESIZE);
    ThreadAll(mem, base, CacheSize(cache), s.numfree);
  }

  /** The loop of new_Slub: slot i - 1 gets the number i, the last slot the end marker. */
  method ThreadAll(mem: array<byte>, base: nat, size: nat, n: nat)
    requires base + SLUB_PAGESIZE <= mem.Length && ValidSize(size) && n == Capacity(size)
    modifies mem
    ensures Threaded(mem[..], base, size, Ascending(n))
    ensures ChangedOnly(old(mem[..]), mem[..], base, SLUB_PAGESIZE)
  {
    CapacityBounds(size);
    ghost var before := mem[..];
    var p: nat, i: nat := base, 1;
    while i < n
      invariant 1 <= i <= n && p == base + Offset(i - 1, size)
      invariant Ascends(mem[..], base, size, i - 1)
      invariant ChangedOnly(before, mem[..], base, SLUB_PAGESIZE)
    {
      StoreNext(mem, base, size, i - 1, i);
      p, i := p + size, i + 1;
    }
    StoreEnd(mem, base, size, n);
  }

  method StoreEnd(mem: array<byte>, base: nat, size: nat, n: nat)
    requires base + SLUB_PAGESIZE <= mem.Length && size >= 4 && 0 < n == Capacity(size)
    requires Ascends(mem[..], base, size, n - 1)
    modifies mem
    ensures Threaded(mem[..], base, size, Ascending(n))
    ensures ChangedOnly(old(mem[..]), mem[..], base, SLUB_PAGESIZE)
  {
    OffsetInPage(n - 1, size);
    StoreWord(mem, base + Offset(n - 1, size), END_MARKER);
    AscendsKept(old(mem[..]), mem[..], base, size, n - 1);
    AscendingThreaded(mem[..], base, size, n);
  }

  /** The first n slots hold 1, 2, ..., n. */
  ghost predicate Ascends(m: seq<byte>, base: nat, size: nat, n: nat)
    requires base + SLUB_PAGESIZE <= |m| && size >= 4
  {
    forall j {:trigger Offset(j, size)} :: 0 <= j < n ==>
      Offset(j, size) + size <= SLUB_PAGESIZE && Word(m, base + Offset(j, size)) == j + 1
  }

  lemma AscendsKept(m: seq<byte>, m': seq<byte>, base: nat, size: nat, k: nat)
    requires base + SLUB_PAGESIZE <= |m| && size >= 4 && Ascends(m, base, size, k)
    requires ChangedOnly(m, m', base + Offset(k, size), 4)
    ensures Ascends(m', base, size, k)
  {
    forall j {:trigger Offset(j, size)} | 0 <= j < k
      ensures Word(m', base + Offset(j, size)) == j + 1
    {
      SlotsDisjoint(j, k, size);
      WordKept(m, m', base + Offset(j, size), base + Offset(k, size), 4);
    }
  }

  method StoreNext(mem: array<byte>, base: nat, size: nat, k: nat, v: nat)
    requires base + SLUB_PAGESIZE <= mem.Length && size >= 4 && k < Capacity(size) && v == k + 1 < END_MARKER
    requires Ascends(mem[..], base, size, k)
    modifies mem
    ensures Ascends(mem[..], base, size, k + 1)
    ensures ChangedOnly(old(mem[..]), mem[..], base, SLUB_PAGESIZE)
  {
    OffsetInPage(k, size);
    StoreWord(mem, base + Offset(k, size), v);
    AscendsKept(old(mem[..]), mem[..], base, size, k);
  }

  lemma AscendingThreaded(m: seq<byte>, base: nat, size: nat, n: nat)
    requires base + SLUB_PAGESIZE <= |m| && size >= 4 && 0 < n == Capacity(size)
    requires Ascends(m, base, size, n - 1) && Offset(n - 1, size) + size <= SLUB_PAGESIZE
    requires Word(m, base + Offset(n - 1, size)) == END_MARKER
    ensures Threaded(m, base, size, Ascending(n))
  {
    var all := Ascending(n);
    forall i {:trigger Offset(all[i], size)} | 0 <= i < |all|
      ensures Offset(all[i], size) + size <= SLUB_PAGESIZE
      ensures Word(m, base + Offset(all[i], size)) == Link(all, i + 1)
    {
      assert Offset(all[i], size) == Offset(i, size);
    }
  }

  /** Slub_alloc: takes the first slot off the chain and hands it out zeroed. */
  method SlubAlloc(mem: array<byte>, base: nat, s: Slub, ghost free: seq<nat>) returns (s': Slub, addr: nat)
    requires s.Holds(mem[..], base, free) && free != []
    modifies mem
    ensures s'.Holds(mem[..], base, free[1..]) && s'.cache == s.cache
    ensures addr == base + Offset(free[0], s.Size())
    ensures ChangedOnly(old(mem[..]), mem[..], addr, s.Size()) && IsZero(mem[..], addr, s.Size())
  {
    addr := base + Offset(s.first, s.Size());
    assert Offset(s.first, s.Size()) == Offset(free[0], s.Size());
    s' := Slub(s.cache, Word(mem[..], addr), s.numfree - 1);
    ThreadedTail(mem[..], base, s.Size(), free);
    Clear(mem, addr, s.Size());
    FramedBySlot(old(mem[..]), mem[..], addr, s.Size(), s.Size(), base, free[0], free[1..]);
  }

  /** Slub_free: clears slot k and puts it at the front of the chain. */
  method SlubFree(mem: array<byte>, base: nat, s: Slub, addr: nat, ghost free: seq<nat>, ghost k: nat)
    returns (s': Slub)
    requires s.Holds(mem[..], base, free) && k < Capacity(s.Size()) && k !in free && addr == base + Offset(k, s.Size())
    modifies mem
    ensures s'.Holds(mem[..], base, [k] + free) && s'.cache == s.cache
    ensures ChangedOnly(old(mem[..]), mem[..], addr, s.Size())
  {
    OffsetInPage(k, s.Size());
    CapacityBounds(s.Size());
    Clear(mem, addr, s.Size());
    var nextfree := s.first;
    var slot := SlotNumber(base, addr, s.Size(), k);
    StoreWord(mem, base + Offset(slot, s.Size()), nextfree);
    s' := Slub(s.cache, slot, s.numfree + 1);
    FramedBySlot(old(mem[..]), mem[..], addr, s.Size(), s.Size(), base, k, free);
    ThreadedPush(mem[..], base, s.Size(), k, free);
  }

  lemma ThreadedPush(m: seq<byte>, base: nat, size: nat, k: nat, free: seq<nat>)
    requires base + SLUB_PAGESIZE <= |m| && size >= 4 && Threaded(m, base, size, free)
    requires k < Capacity(size) && Offset(k, size) + size <= SLUB_PAGESIZE
      && Word(m, base + Offset(k, size)) == Link(free, 0)
    ensures Threaded(m, base, size, [k] + free)
  {
    var all := [k] + free;
    forall i {:trigger Offset(all[i], size)} | 0 <= i < |all|
      ensures Offset(all[i], size) + size <= SLUB_PAGESIZE
      ensures Word(m, base + Offset(all[i], size)) == Link(all, i + 1)
    {
      assert i > 0 ==> all[i] == free[i - 1] && Offset(free[i - 1], size) + size <= SLUB_PAGESIZE;
    }
  }

  method SlotNumber(base: nat, addr: nat, size: nat, ghost k: nat) returns (slot: nat)
    requires size > 0 && addr == base + Offset(k, size)
    ensures slot == k
  {
    SlotOfOffset(k, size);
    slot := (addr - base) / size;
  }

  /** The walk Slub_free makes under DEBUG: it follows the chain and meets the slot exactly if that slot
      is free, so every double free is detected and no legal free is. */
  method DetectDoubleFree(mem: array<byte>, base: nat, s: Slub, addr: nat, ghost free: seq<nat>, ghost k: nat)
    returns (found: bool)
    requires s.Holds(mem[..], base, free) && k < Capacity(s.Size()) && addr == base + Offset(k, s.Size())
    ensures found <==> k in free
  {
    CapacityBounds(s.Size());
    var slot := SlotNumber(base, addr, s.Size(), k);
    var nextfree := s.first;
    ghost var i := 0;
    while nextfree != END_MARKER
      invariant 0 <= i <= |free| && nextfree == Link(free, i)
      invariant k !in free[..i]
      decreases |free| - i
    {
      if nextfree == slot {
        return true;
      }
      assert Offset(nextfree, s.Size()) == Offset(free[i], s.Size());
      nextfree := Word(mem[..], base + Offset(nextfree, s.Size()));
      i := i + 1;
    }
    assert free[..i] == free;
    found := false;
  }

  // ---------------------------------------------------------------- what numfree and first tell

  /** The slots that are not free. */
  ghost function LiveSlots(size: nat, free: seq<nat>): set<nat>
    requires size > 0
  {
    Range(Capacity(size)) - set k | k in free
  }

  /** numfree tells the truth: it counts the slots that are not live. */
  lemma FreeCount(s: Slub, m: seq<byte>, base: nat, free: seq<nat>)
    requires s.Holds(m, base, free)
    ensures s.numfree == Capacity(s.Size()) - |LiveSlots(s.Size(), free)|
    ensures s.numfree == 0 <==> LiveSlots(s.Size(), free) == Range(Capacity(s.Size()))
    ensures s.numfree == Capacity(s.Size()) <==> LiveSlots(s.Size(), free) == {}
  {
    Distinct(free);
    Complement(free, Capacity(s.Size()));
  }

  /** The chain is no extra state: the bytes of the page and `first` determine it. */
  lemma ChainUnique(s: Slub, m: seq<byte>, base: nat, free: seq<nat>, free': seq<nat>)
    requires s.Holds(m, base, free) && s.Holds(m, base, free')
    ensures free == free'
  {
    CapacityBounds(s.Size());
    SameChain(s, m, base, free, free', |free|);
  }

  lemma {:induction false} SameChain(s: Slub, m: seq<byte>, base: nat, free: seq<nat>, free': seq<nat>, n: nat)
    requires s.Holds(m, base, free) && s.Holds(m, base, free') && n <= |free|
    ensures forall i :: 0 <= i < n ==> free[i] == free'[i]
    ensures Link(free, n) == Link(free', n)
  {
    if n > 0 {
      SameChain(s, m, base, free, free', n - 1);
      assert Link(free, n - 1) == Link(free', n - 1);
      assert Offset(free[n - 1], s.Size()) == Offset(free'[n - 1], s.Size());
    }
  }

  ghost function Range(n: nat): (r: set<nat>)
    ensures |r| == n && forall k: nat :: k in r <==> k < n
  {
    if n == 0 then {} else Range(n - 1) + {n - 1}
  }

  lemma Complement(free: seq<nat>, n: nat)
    requires forall i :: 0 <= i < |free| ==> free[i] < n
    ensures var chain := set k | k in free; |Range(n) - chain| == n - |chain|
    ensures free == [] <==> Range(n) - (set k | k in free) == Range(n)
  {
    var chain := set k | k in free;
    assert chain <= Range(n);
    assert free == [] || (free[0] in chain && free[0] in Range(n));
  }

  lemma {:induction false} Distinct<T>(s: seq<T>)
    requires NoDup(s)
    ensures |set x | x in s| == |s|
  {
    if s != [] {
      Distinct(s[1..]);
      assert (set x | x in s) == {s[0]} + set x | x in s[1..];
    }
  }
}
