/** Clients of the allocator of src/Slub.c: whatever they request, write, read and release, each block is as good as a
    memory of its own. */
module SlubRun {
  import opened Common
  import opened SlubPage
  import opened SlubState
  import opened SlubAllocator

  // ---------------------------------------------------------------- a machine with a memory for each block

  type Blocks = map<nat, seq<byte>>

  datatype Event =
    | Request(h: nat, size: nat)
    | Put(h: nat, j: nat, value: byte)
    | Get(h: nat, j: nat)
    | Release(h: nat)

  ghost predicate Legal(m: Blocks, e: Event) {
    match e
    case Request(h, size) => h !in m && size > 0
    case Put(h, j, _) => h in m && j < |m[h]|
    case Get(h, j) => h in m && j < |m[h]|
    case Release(h) => h in m
  }

  function Zeros(n: nat): (s: seq<byte>)
    ensures |s| == n
  {
    seq(n, _ => 0)
  }

  function Changed(s: seq<byte>, j: nat, x: byte): (r: seq<byte>)
    requires j < |s|
    ensures |r| == |s| && forall i :: 0 <= i < |s| ==> r[i] == if i == j then x else s[i]
  {
    s[..j] + [x] + s[j + 1..]
  }

  /** What is read */
  ghost function Answer(m: Blocks, e: Event): seq<byte>
    requires Legal(m, e)
  {
    if e.Get? then [m[e.h][e.j]] else []
  }

  ghost function Effect(m: Blocks, e: Event): Blocks
    requires Legal(m, e)
  {
    match e
    case Request(h, size) => m[h := Zeros(size)]
    case Put(h, j, value) => m[h := Changed(m[h], j, value)]
    case Get(_, _) => m
    case Release(h) => m - {h}
  }

  ghost predicate LegalRun(m: Blocks, es: seq<Event>)
    decreases |es|
  {
    es == [] || (Legal(m, es[0]) && LegalRun(Effect(m, es[0]), es[1..]))
  }

  ghost function Answers(m: Blocks, es: seq<Event>): seq<byte>
    requires LegalRun(m, es)
    decreases |es|
  {
    if es == [] then [] else Answer(m, es[0]) + Answers(Effect(m, es[0]), es[1..])
  }

  ghost function Effects(m: Blocks, es: seq<Event>): Blocks
    requires LegalRun(m, es)
    decreases |es|
  {
    if es == [] then m else Effects(Effect(m, es[0]), es[1..])
  }

  /** The run up to event i, and one event more */
  lemma {:induction false} UpTo(m: Blocks, es: seq<Event>, i: nat)
    requires LegalRun(m, es) && i < |es|
    ensures LegalRun(m, es[..i]) && Legal(Effects(m, es[..i]), es[i]) && LegalRun(m, es[..i + 1])
    ensures Effects(m, es[..i + 1]) == Effect(Effects(m, es[..i]), es[i])
    ensures Answers(m, es[..i + 1]) == Answers(m, es[..i]) + Answer(Effects(m, es[..i]), es[i])
    decreases i
  {
    hide Legal, Answer, Effect;
    var next := es[..i + 1];
    if i == 0 {
      assert next[1..] == [] && next[0] == es[0];
    } else {
      UpTo(Effect(m, es[0]), es[1..], i - 1);
      assert es[1..][..i - 1] == es[..i][1..] && es[1..][..i] == next[1..] && es[1..][i - 1] == es[i];
    }
  }

  /** No event of the run releases block h or writes byte j of it. */
  ghost predicate LeavesByte(es: seq<Event>, h: nat, j: nat) {
    forall i :: 0 <= i < |es| ==> es[i] != Release(h) && (es[i].Put? ==> es[i].h != h || es[i].j != j)
  }

  lemma {:induction false} ByteStays(m: Blocks, es: seq<Event>, h: nat, j: nat)
    requires LegalRun(m, es) && LeavesByte(es, h, j) && h in m && j < |m[h]|
    ensures var n := Effects(m, es); h in n && j < |n[h]| && n[h][j] == m[h][j]
    decreases |es|
  {
    if es != [] {
      assert LeavesByte(es[1..], h, j);
      ByteStays(Effect(m, es[0]), es[1..], h, j);
    }
  }

  /** What such a memory promises: a byte reads as what was last stored there, and as 0 before that. */
  lemma LastStored(m: Blocks, e: Event, es: seq<Event>, h: nat, j: nat, x: byte)
    requires Legal(m, e) && LegalRun(Effect(m, e), es) && LeavesByte(es, h, j)
    requires e == Put(h, j, x) || (e.Request? && e.h == h && j < e.size && x == 0)
    ensures var n := Effects(Effect(m, e), es); Legal(n, Get(h, j)) && Answer(n, Get(h, j)) == [x]
  {
    ByteStays(Effect(m, e), es, h, j);
  }

  // ---------------------------------------------------------------- malloc()

  /** What malloc() and calloc() return for n bytes at event i, when this is in use, with sizes by addresses; 0 for
      nothing */
  type Malloc = (nat, map<nat, nat>, nat) -> nat

  ghost predicate KeptApart(a: nat, n: nat, used: map<nat, nat>, limit: nat) {
    a == 0 || (a >= SLUB_PAGESIZE && a + n <= limit && forall b :: b in used ==> Disjoint(a, n, b, used[b]))
  }

  ghost predicate KeepsApart(malloc: Malloc, limit: nat) {
    forall i, used, n :: n > 0 ==> KeptApart(malloc(i, used, n), n, used, limit)
  }

  /** The pages of the slabs, and what came from calloc() */
  function Used(at: map<nat, Slub>, far: map<nat, nat>): map<nat, nat> {
    (map s | s in at :: SLUB_PAGESIZE) + far
  }

  lemma MallocFresh(v: View, at: map<nat, Slub>, a: nat, n: nat, limit: nat)
    requires Sound(v) && at.Keys == v.slabs.Keys && KeptApart(a, n, Used(at, v.foreign), limit) && a != 0 && n > 0
    ensures Fresh(a, n, v) && a + n <= limit
  {
    Unfold(v);
    var used := Used(at, v.foreign);
    forall s | s in v.slabs
      ensures Disjoint(a, n, s, SLUB_PAGESIZE)
    {
      assert s in used && s !in v.foreign;
    }
    assert forall b :: b in v.foreign ==> b in used && used[b] == v.foreign[b];
  }

  // ---------------------------------------------------------------- what a client holds

  datatype Piece = Piece(addr: nat, size: nat)

  type Pieces = map<nat, Piece>

  /** The piece is the client's own, and reads s. */
  ghost predicate Stands(mem: seq<byte>, v: View, p: Piece, s: seq<byte>) {
    && (p.addr in v.live || p.addr in v.foreign) && |s| == p.size <= Room(v, p.addr)
    && p.addr + Room(v, p.addr) <= |mem| && mem[p.addr..p.addr + p.size] == s
  }

  ghost function Addresses(held: Pieces): set<nat> {
    set h | h in held :: held[h].addr
  }

  ghost predicate Separate(held: Pieces) {
    forall h, k :: h in held && k in held && h != k ==> held[h].addr != held[k].addr
  }

  /** All but the pieces at the addresses in `but` read as m says. */
  ghost predicate AllStand(mem: seq<byte>, v: View, held: Pieces, m: Blocks, but: set<nat>) {
    held.Keys == m.Keys && forall h :: h in held && held[h].addr !in but ==> Stands(mem, v, held[h], m[h])
  }

  /** What is held reads as m says, no address is held twice, and no block is lost: everything that the allocator has
      handed out is held. */
  ghost predicate Client(mem: seq<byte>, v: View, held: Pieces, m: Blocks) {
    AllStand(mem, v, held, m, {}) && Separate(held) && v.live.Keys + v.foreign.Keys == Addresses(held)
  }

  lemma AddressesMore(held: Pieces, h: nat, p: Piece)
    requires h !in held && p.addr !in Addresses(held) && Separate(held)
    ensures Addresses(held[h := p]) == Addresses(held) + {p.addr} && Separate(held[h := p])
  {
    var more := held[h := p];
    assert more[h] == p && forall k :: k in held ==> k in more && more[k] == held[k] && held[k].addr in Addresses(held);
  }

  lemma AddressesLess(held: Pieces, h: nat)
    requires h in held && Separate(held)
    ensures Addresses(held - {h}) == Addresses(held) - {held[h].addr} && Separate(held - {h})
  {
    var less := held - {h};
    forall a | a in Addresses(held) - {held[h].addr}
      ensures a in Addresses(less)
    {
      var k :| k in held && held[k].addr == a;
      assert k in less && less[k] == held[k];
    }
  }

  /** A block that has not been touched reads as before. */
  lemma StandsStill(mem: seq<byte>, mem': seq<byte>, v: View, w: View, p: Piece, s: seq<byte>)
    requires Stands(mem, v, p, s) && Sound(v) && Sound(w) && |mem'| == |mem|
    requires p.addr in v.live ==> p.addr in w.live && w.live[p.addr] == v.live[p.addr]
    requires p.addr in v.foreign ==> p.addr in w.foreign && w.foreign[p.addr] == v.foreign[p.addr]
    requires forall j :: p.addr <= j < p.addr + Room(v, p.addr) && j < |mem| ==> mem'[j] == mem[j]
    ensures Stands(mem', w, p, s)
  {
    LiveNotForeign(v, p.addr);
    LiveNotForeign(w, p.addr);
    assert mem'[p.addr..p.addr + p.size] == mem[p.addr..p.addr + p.size];
  }

  /** Whatever the allocator has done, it has not touched the blocks but those at the addresses in `but`. */
  ghost predicate Untouched(mem: seq<byte>, mem': seq<byte>, v: View, w: View, but: set<nat>) {
    && (forall a :: a in v.live && a !in but ==> a in w.live && w.live[a] == v.live[a])
    && (forall a :: a in v.foreign && a !in but ==> a in w.foreign && w.foreign[a] == v.foreign[a])
    && SameBytes(mem, mem', v.live - but) && SameFar(mem, mem', v.foreign - but)
  }

  /** So they read as before. */
  lemma OthersStand(mem: seq<byte>, mem': seq<byte>, v: View, w: View, held: Pieces, m: Blocks, but: set<nat>)
    requires AllStand(mem, v, held, m, {}) && Sound(v) && Sound(w) && Untouched(mem, mem', v, w, but)
    ensures AllStand(mem', w, held, m, but)
  {
    hide Stands;
    forall h | h in held && held[h].addr !in but
      ensures Stands(mem', w, held[h], m[h])
    {
      OneStands(mem, mem', v, w, held[h], m[h], but);
    }
  }

  lemma OneStands(mem: seq<byte>, mem': seq<byte>, v: View, w: View, p: Piece, s: seq<byte>, but: set<nat>)
    requires Stands(mem, v, p, s) && Sound(v) && Sound(w) && Untouched(mem, mem', v, w, but) && p.addr !in but
    ensures Stands(mem', w, p, s)
  {
    var a := p.addr;
    assert a in v.live ==> a in v.live - but;
    assert a in v.foreign ==> a in v.foreign - but;
    StandsStill(mem, mem', v, w, p, s);
  }

  /** No two blocks that a client holds overlap, and none is at the address of the null pointer. */
  lemma HeldApart(mem: seq<byte>, v: View, held: Pieces, m: Blocks, h: nat, k: nat)
    requires Client(mem, v, held, m) && Sound(v) && h in held && k in held && h != k
    ensures Disjoint(held[h].addr, held[h].size, held[k].addr, held[k].size) && held[h].addr != 0
  {
    var a, b := held[h].addr, held[k].addr;
    assert Stands(mem, v, held[h], m[h]) && Stands(mem, v, held[k], m[k]);
    NotNull(v, a);
    LiveNotForeign(v, a);
    LiveNotForeign(v, b);
    if a in v.foreign {
      ForeignBlocksDisjoint(v, a);
    } else if b in v.foreign {
      ForeignBlocksDisjoint(v, b);
    } else {
      LiveBlocksDisjoint(v, a, b);
    }
  }

  lemma NotNull(v: View, a: nat)
    requires Sound(v) && (a in v.live || a in v.foreign)
    ensures a != 0
  {
    NullNotLive(v);
  }

  lemma ZerosStand(mem: seq<byte>, v: View, p: Piece)
    requires (p.addr in v.live || p.addr in v.foreign) && p.size <= Room(v, p.addr) && p.addr + Room(v, p.addr) <= |mem|
    requires IsZero(mem, p.addr, p.size)
    ensures Stands(mem, v, p, Zeros(p.size))
  {
    assert mem[p.addr..p.addr + p.size] == Zeros(p.size);
  }

  lemma ClientHasMore(mem: seq<byte>, mem': seq<byte>, v: View, w: View, held: Pieces, m: Blocks, h: nat, p: Piece)
    requires Client(mem, v, held, m) && Sound(v) && Sound(w) && h !in m && p.addr !in v.live && p.addr !in v.foreign
    requires w.live.Keys + w.foreign.Keys == v.live.Keys + v.foreign.Keys + {p.addr}
    requires Untouched(mem, mem', v, w, {}) && Stands(mem', w, p, Zeros(p.size))
    ensures Client(mem', w, held[h := p], m[h := Zeros(p.size)])
  {
    hide Untouched, Stands, Separate, Addresses;
    OthersStand(mem, mem', v, w, held, m, {});
    AddressesMore(held, h, p);
  }

  lemma ClientHasLess(mem: seq<byte>, mem': seq<byte>, v: View, w: View, held: Pieces, m: Blocks, h: nat)
    requires Client(mem, v, held, m) && Sound(v) && Sound(w) && h in held
    requires w.live == v.live - {held[h].addr} && w.foreign == v.foreign - {held[h].addr}
    requires Untouched(mem, mem', v, w, {held[h].addr})
    ensures Client(mem', w, held - {h}, m - {h})
  {
    hide Untouched, Stands, Addresses;
    OthersStand(mem, mem', v, w, held, m, {held[h].addr});
    AddressesLess(held, h);
  }

  lemma ChangedStands(mem: seq<byte>, mem': seq<byte>, v: View, p: Piece, s: seq<byte>, j: nat, x: byte)
    requires Stands(mem, v, p, s) && j < |s| && ChangedOnly(mem, mem', p.addr + j, 1) && mem'[p.addr + j] == x
    ensures Stands(mem', v, p, Changed(s, j, x))
  {
    var t := mem'[p.addr..p.addr + p.size];
    forall i | 0 <= i < p.size
      ensures t[i] == Changed(s, j, x)[i]
    {
      assert s[i] == mem[p.addr..p.addr + p.size][i] == mem[p.addr + i];
    }
    assert t == Changed(s, j, x);
  }

  lemma ClientWrites(mem: seq<byte>, mem': seq<byte>, v: View, held: Pieces, m: Blocks, h: nat, s: seq<byte>)
    requires Client(mem, v, held, m) && Sound(v) && h in held && Untouched(mem, mem', v, v, {held[h].addr})
    requires Stands(mem', v, held[h], s)
    ensures Client(mem', v, held, m[h := s])
  {
    hide Untouched, Stands, Addresses;
    OthersStand(mem, mem', v, v, held, m, {held[h].addr});
  }

  lemma ClientReads(mem: seq<byte>, v: View, held: Pieces, m: Blocks, h: nat, j: nat)
    requires Client(mem, v, held, m) && h in held && j < |m[h]|
    ensures held[h].addr + j < |mem| && mem[held[h].addr + j] == m[h][j]
  {
    var p := held[h];
    assert Stands(mem, v, p, m[h]);
    assert mem[p.addr..p.addr + p.size][j] == mem[p.addr + j];
  }

  // ---------------------------------------------------------------- one event after the other

  /** The client may go on: what it holds reads as m says, and `far` is what came from calloc(). */
  ghost predicate Ready(a: Allocator, held: Pieces, far: map<nat, nat>, m: Blocks)
    reads a, a.memory
  {
    a.Valid() && far == a.foreign && Client(a.memory[..], a.Now(), held, m)
  }

  /** A request, once malloc() has been asked if that was necessary */
  method Take(a: Allocator, h: nat, size: nat, address: nat, held: Pieces, far: map<nat, nat>, ghost m: Blocks)
    returns (held': Pieces, far': map<nat, nat>)
    requires Ready(a, held, far, m) && h !in m && size > 0
    requires a.Asks(size) > 0 ==> a.Placed(address, a.Asks(size))
    modifies a, a.memory
    ensures Ready(a, held', far', m[h := Zeros(size)])
  {
    hide Stands, Untouched, Client, SameBytes, SameFar, Zeros;
    ghost var mem, v := a.memory[..], a.Now();
    var addr := a.Alloc(size, address);
    held' := held[h := Piece(addr, size)];
    far' := if size < MAX_SLUB_OBJSIZE then far else far[addr := size];
    ghost var w := a.Now();
    a.RoomInMemory(addr);
    LiveNotForeign(w, addr);
    ZerosStand(a.memory[..], w, Piece(addr, size));
    HandedOut(mem, a.memory[..], v, w, addr);
    ClientHasMore(mem, a.memory[..], v, w, held, m, h, Piece(addr, size));
  }

  lemma HandedOut(mem: seq<byte>, mem': seq<byte>, v: View, w: View, addr: nat)
    requires addr !in v.live && addr !in v.foreign
    requires || (addr in w.live && w.live == v.live[addr := w.live[addr]] && w.foreign == v.foreign)
             || (addr in w.foreign && w.foreign == v.foreign[addr := w.foreign[addr]] && w.live == v.live)
    requires SameBytes(mem, mem', v.live) && SameFar(mem, mem', v.foreign)
    ensures w.live.Keys + w.foreign.Keys == v.live.Keys + v.foreign.Keys + {addr} && Untouched(mem, mem', v, w, {})
  {
    assert v.live - {} == v.live && v.foreign - {} == v.foreign;
  }

  method Write(a: Allocator, h: nat, j: nat, value: byte, held: Pieces, far: map<nat, nat>, ghost m: Blocks)
    requires Ready(a, held, far, m) && h in m && j < |m[h]|
    modifies a.memory
    ensures Ready(a, held, far, m[h := Changed(m[h], j, value)])
  {
    hide Stands, Client, SameBytes, SameFar;
    ghost var mem := a.memory[..];
    HeldByClient(mem, a.Now(), held, m, h);
    a.Store(held[h].addr, j, value);
    ChangedStands(mem, a.memory[..], a.Now(), held[h], m[h], j, value);
    ClientWrites(mem, a.memory[..], a.Now(), held, m, h, Changed(m[h], j, value));
  }

  method Read(a: Allocator, h: nat, j: nat, held: Pieces, far: map<nat, nat>, ghost m: Blocks) returns (value: byte)
    requires Ready(a, held, far, m) && h in m && j < |m[h]|
    ensures value == m[h][j]
  {
    ClientReads(a.memory[..], a.Now(), held, m, h, j);
    value := a.memory[held[h].addr + j];
  }

  method Give(a: Allocator, h: nat, held: Pieces, far: map<nat, nat>, ghost m: Blocks)
    returns (held': Pieces, far': map<nat, nat>)
    requires Ready(a, held, far, m) && h in m
    modifies a, a.memory
    ensures Ready(a, held', far', m - {h})
  {
    hide Stands, Untouched, Client, SameBytes, SameFar;
    ghost var mem, v := a.memory[..], a.Now();
    HeldByClient(mem, v, held, m, h);
    var addr := held[h].addr;
    a.Free(addr);
    held', far' := held - {h}, far - {addr};
    HandedBack(mem, a.memory[..], v, a.Now(), addr);
    ClientHasLess(mem, a.memory[..], v, a.Now(), held, m, h);
  }

  lemma HandedBack(mem: seq<byte>, mem': seq<byte>, v: View, w: View, addr: nat)
    requires w.live == v.live - {addr} && w.foreign == v.foreign - {addr}
    requires SameBytes(mem, mem', w.live) && SameFar(mem, mem', w.foreign)
    ensures Untouched(mem, mem', v, w, {addr})
  {
  }

  lemma HeldByClient(mem: seq<byte>, v: View, held: Pieces, m: Blocks, h: nat)
    requires Client(mem, v, held, m) && h in m
    ensures h in held && Stands(mem, v, held[h], m[h])
    ensures (held[h].addr in v.live || held[h].addr in v.foreign) && |m[h]| <= Room(v, held[h].addr)
  {
  }

  /** Any event, which is number i; it is not done if it is a request for which malloc() has nothing. */
  method Perform(a: Allocator, e: Event, malloc: Malloc, i: nat, held: Pieces, far: map<nat, nat>, ghost m: Blocks)
    returns (done: bool, r: seq<byte>, held': Pieces, far': map<nat, nat>)
    requires Ready(a, held, far, m) && Legal(m, e) && KeepsApart(malloc, a.memory.Length)
    modifies a, a.memory
    ensures if done then Ready(a, held', far', Effect(m, e)) && r == Answer(m, e)
            else Ready(a, held', far', m) && r == [] && e.Request? && NoMemory(a, e.size, malloc, i, far')
  {
    done, r, held', far' := true, [], held, far;
    match e {
      case Request(h, size) =>
        var n, address := a.Asks(size), 0;
        if n > 0 {
          address := malloc(i, Used(a.at, far), n);
          if address == 0 {
            return false, [], held, far;
          }
          MallocFresh(a.Now(), a.at, address, n, a.memory.Length);
        }
        held', far' := Take(a, h, size, address, held, far, m);
      case Put(h, j, value) => Write(a, h, j, value, held, far, m);
      case Get(h, j) =>
        var value := Read(a, h, j, held, far, m);
        r := [value];
      case Release(h) => held', far' := Give(a, h, held, far, m);
    }
  }

  /** A request for this size needs memory, and malloc() has none. */
  ghost predicate NoMemory(a: Allocator, size: nat, malloc: Malloc, i: nat, far: map<nat, nat>)
    reads a
  {
    a.Asks(size) > 0 && malloc(i, Used(a.at, far), a.Asks(size)) == 0
  }

  /** A run, up to the first request for which malloc() has nothing: what is read is what a machine with a memory for
      each block reads, and what the client holds are the blocks of that machine, which do not overlap. */
  method Run(a: Allocator, es: seq<Event>, malloc: Malloc, held: Pieces, far: map<nat, nat>, ghost m: Blocks)
    returns (n: nat, rs: seq<byte>, held': Pieces, far': map<nat, nat>)
    requires Ready(a, held, far, m) && LegalRun(m, es) && KeepsApart(malloc, a.memory.Length)
    modifies a, a.memory
    ensures n <= |es| && LegalRun(m, es[..n]) && rs == Answers(m, es[..n]) && Ready(a, held', far', Effects(m, es[..n]))
    ensures n < |es| ==> es[n].Request? && NoMemory(a, es[n].size, malloc, n, far')
    ensures forall h, k :: h in held' && k in held' && h != k ==>
      Disjoint(held'[h].addr, held'[h].size, held'[k].addr, held'[k].size)
  {
    hide Legal, Answer, Effect, Client, KeepsApart;
    n, rs, held', far' := 0, [], held, far;
    while n < |es|
      invariant n <= |es| && LegalRun(m, es[..n]) && rs == Answers(m, es[..n])
        && Ready(a, held', far', Effects(m, es[..n]))
    {
      UpTo(m, es, n);
      var done, r;
      done, r, held', far' := Perform(a, es[n], malloc, n, held', far', Effects(m, es[..n]));
      if !done {
        break;
      }
      rs, n := rs + r, n + 1;
    }
    AllApart(a, held', far', Effects(m, es[..n]));
  }

  lemma AllApart(a: Allocator, held: Pieces, far: map<nat, nat>, m: Blocks)
    requires Ready(a, held, far, m)
    ensures forall h, k :: h in held && k in held && h != k ==>
      Disjoint(held[h].addr, held[h].size, held[k].addr, held[k].size)
  {
    forall h, k | h in held && k in held && h != k
      ensures Disjoint(held[h].addr, held[h].size, held[k].addr, held[k].size)
    {
      HeldApart(a.memory[..], a.Now(), held, m, h, k);
    }
  }

  /** A run from the very beginning; when all blocks have been released, every page has gone back and every counter is
      what it was. */
  method RunAll(memory: array<byte>, es: seq<Event>, malloc: Malloc)
    returns (a: Allocator, n: nat, rs: seq<byte>, held: Pieces)
    requires LegalRun(map[], es) && KeepsApart(malloc, memory.Length)
    modifies memory
    ensures fresh(a) && a.memory == memory && a.Valid()
    ensures n <= |es| && LegalRun(map[], es[..n]) && rs == Answers(map[], es[..n])
    ensures Client(memory[..], a.Now(), held, Effects(map[], es[..n]))
    ensures Effects(map[], es[..n]) == map[] ==>
      a.slabs == map[] && a.Tally() == Books(seq(NUM_MEMCACHES, _ => 0), 0, 0, 0, 1)
  {
    hide Legal, Answer, Effect;
    a := new Allocator(memory);
    var far;
    n, rs, held, far := Run(a, es, malloc, map[], map[], map[]);
    if Effects(map[], es[..n]) == map[] {
      NothingHeld(a, held, far);
    }
  }

  lemma NothingHeld(a: Allocator, held: Pieces, far: map<nat, nat>)
    requires Ready(a, held, far, map[])
    ensures a.slabs == map[] && a.Tally() == Books(seq(NUM_MEMCACHES, _ => 0), 0, 0, 0, 1)
  {
    assert Addresses(held) == {};
    assert a.live.Keys == {} && a.foreign.Keys == {};
    NothingLive(a.Now(), a.Tally(), a.memory[..], a.at);
  }
}
