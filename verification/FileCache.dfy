/** The cache of src/CachedFile.c: a hash table for finding a file by name, and a list of the same entries in the
    order of their last use. Every entry is linked into both. */
module FileCache {
  import opened Common

  class File {
    const filename: string
    var open: bool   // FILE_OPEN
    var dirty: bool  // FILE_DIRTY
    var data: string
    ghost var created: bool  // made by Fcreate, and neither loaded nor saved since

    /** new_File, and the name it is given */
    constructor (filename: string)
      ensures this.filename == filename && !open && !dirty && data == "" && created
    {
      this.filename, open, dirty, data, created := filename, false, false, "", true;
    }
  }

  class CachedFile {
    var hashPrev: CachedFile?
    var hashNext: CachedFile?
    var fifoPrev: CachedFile?
    var fifoNext: CachedFile?
    const f: File
    var timestamp: int

    /** new_CachedFile */
    constructor (f: File)
      ensures this.f == f && hashPrev == null && hashNext == null && fifoPrev == null && fifoNext == null
    {
      this.f, timestamp := f, 0;
      hashPrev, hashNext, fifoPrev, fifoNext := null, null, null, null;
    }
  }

  // ---------------------------------------------------------------- the two lists

  ghost function First(s: seq<CachedFile>): CachedFile? {
    if s == [] then null else s[0]
  }

  ghost function Last(s: seq<CachedFile>): CachedFile? {
    if s == [] then null else s[|s| - 1]
  }

  /** Names two places. The statements about all pairs of entries have this as their trigger, so that the solver
      uses them only for pairs that a proof mentions. */
  ghost predicate Pair(i: int, j: int) { true }

  ghost predicate AllDiffer(s: seq<CachedFile>) {
    forall i, j {:trigger Pair(i, j)} :: Pair(i, j) && 0 <= i < j < |s| ==> s[i] != s[j]
  }

  lemma Separate(s: seq<CachedFile>, p: nat)
    requires AllDiffer(s) && p < |s|
    ensures forall i :: 0 <= i < |s| && i != p ==> s[i] != s[p]
  {
    forall i | 0 <= i < |s| && i != p
      ensures s[i] != s[p]
    {
      assert Pair(i, p) && Pair(p, i);
    }
  }

  lemma NoDupOthers(s: seq<CachedFile>, p: nat)
    requires AllDiffer(s) && p < |s|
    ensures AllDiffer(Others(s, p))
  {
    var t := Others(s, p);
    forall i, j | Pair(i, j) && 0 <= i < j < |t|
      ensures t[i] != t[j]
    {
      assert Pair(if i < p then i else i + 1, if j < p then j else j + 1);
    }
  }

  lemma NoDupFront(s: seq<CachedFile>, x: CachedFile)
    requires AllDiffer(s) && x !in s
    ensures AllDiffer([x] + s)
  {
    var t := [x] + s;
    forall i, j | Pair(i, j) && 0 <= i < j < |t|
      ensures t[i] != t[j]
    {
      assert Pair(i - 1, j - 1);
    }
  }

  ghost predicate FifoLinked(s: seq<CachedFile>)
    reads s`fifoPrev, s`fifoNext
  {
    && AllDiffer(s)
    && (forall i {:trigger s[i].fifoNext} :: 0 <= i < |s| ==> s[i].fifoNext == if i + 1 < |s| then s[i + 1] else null)
    && (forall i {:trigger s[i].fifoPrev} :: 0 <= i < |s| ==> s[i].fifoPrev == if i > 0 then s[i - 1] else null)
  }

  ghost predicate HashLinked(s: seq<CachedFile>)
    reads s`hashPrev, s`hashNext
  {
    && AllDiffer(s)
    && (forall i {:trigger s[i].hashNext} :: 0 <= i < |s| ==> s[i].hashNext == if i + 1 < |s| then s[i + 1] else null)
    && (forall i {:trigger s[i].hashPrev} :: 0 <= i < |s| ==> s[i].hashPrev == if i > 0 then s[i - 1] else null)
  }

  // ---------------------------------------------------------------- what the two have to agree on

  /** filecache_hash_addr: the remainder of the checksum, which C rounds toward zero, without its sign. */
  function FilecacheHashAddr(crc: string -> int, filename: string, size: nat): (a: nat)
    ensures size > 0 ==> a < size
  {
    if size == 0 then 0
    else
      var c := crc(filename);
      var addr := if c < 0 then -((-c) % size) else c % size;
      if addr < 0 then -addr else addr
  }

  /** It in turn is all that the cache needs to know: a bucket for each name and size. */
  type Hasher = (string, nat) -> nat

  ghost predicate Proper(addr: Hasher) {
    forall filename, size :: size > 0 ==> addr(filename, size) < size
  }

  ghost predicate UniqueNames(s: seq<CachedFile>) {
    forall i, j {:trigger Pair(i, j)} :: Pair(i, j) && 0 <= i < j < |s| ==> s[i].f.filename != s[j].f.filename
  }

  lemma NamesApart(s: seq<CachedFile>, p: nat)
    requires UniqueNames(s) && p < |s|
    ensures forall i :: 0 <= i < |s| && i != p ==> s[i].f.filename != s[p].f.filename
  {
    forall i | 0 <= i < |s| && i != p
      ensures s[i].f.filename != s[p].f.filename
    {
      assert Pair(i, p) && Pair(p, i);
    }
  }

  lemma UniqueOthers(s: seq<CachedFile>, p: nat)
    requires UniqueNames(s) && p < |s|
    ensures UniqueNames(Others(s, p))
  {
    var t := Others(s, p);
    forall i, j | Pair(i, j) && 0 <= i < j < |t|
      ensures t[i].f.filename != t[j].f.filename
    {
      assert Pair(if i < p then i else i + 1, if j < p then j else j + 1);
    }
  }

  lemma UniqueFront(s: seq<CachedFile>, x: CachedFile)
    requires UniqueNames(s) && forall i :: 0 <= i < |s| ==> s[i].f.filename != x.f.filename
    ensures UniqueNames([x] + s)
  {
    var t := [x] + s;
    forall i, j | Pair(i, j) && 0 <= i < j < |t|
      ensures t[i].f.filename != t[j].f.filename
    {
      assert Pair(i - 1, j - 1);
    }
  }

  /** Every entry is in the chain of its own name. */
  ghost predicate Placed(addr: Hasher, chains: seq<seq<CachedFile>>) {
    forall i, j :: 0 <= i < |chains| && 0 <= j < |chains[i]| ==> addr(chains[i][j].f.filename, |chains|) == i
  }

  ghost predicate InChain(addr: Hasher, chains: seq<seq<CachedFile>>, cf: CachedFile) {
    var a := addr(cf.f.filename, |chains|);
    a < |chains| && cf in chains[a]
  }

  /** The chains and the FIFO hold the same entries, each once, and each in the chain of its own name. */
  ghost predicate Agree(addr: Hasher, chains: seq<seq<CachedFile>>, fifo: seq<CachedFile>) {
    && UniqueNames(fifo) && (fifo != [] ==> |chains| > 0) && Placed(addr, chains)
    && (forall k :: 0 <= k < |fifo| ==> fifo[k].f.filename != "" && InChain(addr, chains, fifo[k]))
    && (forall i, j :: 0 <= i < |chains| && 0 <= j < |chains[i]| ==> chains[i][j] in fifo)
  }

  /** Where the entry of this name stands, or |s| if there is none. */
  ghost function Find(s: seq<CachedFile>, filename: string): (k: nat)
    ensures k <= |s| && (k < |s| ==> s[k].f.filename == filename)
    ensures forall i :: 0 <= i < k ==> s[i].f.filename != filename
  {
    if s == [] || s[0].f.filename == filename then 0 else 1 + Find(s[1..], filename)
  }

  ghost function WithoutName(s: seq<CachedFile>, filename: string): seq<CachedFile> {
    var k := Find(s, filename);
    if k < |s| then Others(s, k) else s
  }

  lemma {:induction false} FindUnique(s: seq<CachedFile>, k: nat)
    requires UniqueNames(s) && k < |s|
    ensures Find(s, s[k].f.filename) == k
  {
    NamesApart(s, k);
  }

  lemma UniqueNoDup(s: seq<CachedFile>)
    requires UniqueNames(s)
    ensures AllDiffer(s)
  {
  }

  lemma AgreeAdd(addr: Hasher, chains: seq<seq<CachedFile>>, fifo: seq<CachedFile>, cf: CachedFile)
    requires Agree(addr, chains, fifo) && addr(cf.f.filename, |chains|) < |chains| && cf.f.filename != ""
    requires forall k :: 0 <= k < |fifo| ==> fifo[k].f.filename != cf.f.filename
    ensures var a := addr(cf.f.filename, |chains|); Agree(addr, chains[a := [cf] + chains[a]], [cf] + fifo)
  {
    var a := addr(cf.f.filename, |chains|);
    var chains': seq<seq<CachedFile>>, fifo': seq<CachedFile> := chains[a := [cf] + chains[a]], [cf] + fifo;
    UniqueFront(fifo, cf);
    forall i, j | 0 <= i < |chains'| && 0 <= j < |chains'[i]|
      ensures chains'[i][j] in fifo' && addr(chains'[i][j].f.filename, |chains'|) == i
    {
      if i == a && j == 0 {
        assert chains'[i][j] == fifo'[0];
      } else {
        assert chains'[i][j] == chains[i][if i == a then j - 1 else j];
        assert chains'[i][j] in fifo;
      }
    }
    forall k | 0 <= k < |fifo'|
      ensures fifo'[k].f.filename != "" && InChain(addr, chains', fifo'[k])
    {
      if k == 0 {
        assert chains'[a][0] == cf;
      } else {
        assert fifo'[k] == fifo[k - 1] && InChain(addr, chains, fifo[k - 1]);
      }
    }
  }

  lemma AgreeRemove(addr: Hasher, chains: seq<seq<CachedFile>>, fifo: seq<CachedFile>, a: nat, p: nat, k: nat)
    requires Agree(addr, chains, fifo) && a < |chains| && p < |chains[a]| && k < |fifo| && AllDiffer(chains[a])
    requires fifo[k] == chains[a][p]
    ensures Agree(addr, chains[a := Others(chains[a], p)], Others(fifo, k))
  {
    var cf := fifo[k];
    var chains': seq<seq<CachedFile>>, fifo': seq<CachedFile> := chains[a := Others(chains[a], p)], Others(fifo, k);
    UniqueOthers(fifo, k);
    NamesApart(fifo, k);
    Separate(chains[a], p);
    assert forall l: nat :: l < |fifo'| ==> fifo'[l] == fifo[if l < k then l else l + 1];
    assert forall j: nat :: j < |chains'[a]| ==> chains'[a][j] == chains[a][if j < p then j else j + 1];
    forall i, j | 0 <= i < |chains'| && 0 <= j < |chains'[i]|
      ensures chains'[i][j] in fifo' && addr(chains'[i][j].f.filename, |chains'|) == i
    {
      var x := chains'[i][j];
      assert x in chains[i];
      assert x in fifo && addr(x.f.filename, |chains|) == i;
      assert x != cf;
      var l :| 0 <= l < |fifo| && fifo[l] == x;
      assert fifo'[if l < k then l else l - 1] == x;
    }
    forall l | 0 <= l < |fifo'|
      ensures fifo'[l].f.filename != "" && InChain(addr, chains', fifo'[l])
    {
      var x := fifo'[l];
      assert x != cf;
      assert InChain(addr, chains, x);
      var i := addr(x.f.filename, |chains|);
      var j :| 0 <= j < |chains[i]| && chains[i][j] == x;
      assert i != a || chains'[i][if j < p then j else j - 1] == x;
    }
  }

  /** Moving an entry to the front of the FIFO. */
  lemma AgreeMove(addr: Hasher, chains: seq<seq<CachedFile>>, fifo: seq<CachedFile>, k: nat)
    requires Agree(addr, chains, fifo) && k < |fifo|
    ensures Agree(addr, chains, [fifo[k]] + Others(fifo, k))
  {
    var fifo' := [fifo[k]] + Others(fifo, k);
    UniqueOthers(fifo, k);
    NamesApart(fifo, k);
    UniqueFront(Others(fifo, k), fifo[k]);
    assert forall l :: 0 <= l < |fifo'| ==> fifo'[l] == fifo[if l == 0 then k else if l <= k then l - 1 else l];
    forall i, j | 0 <= i < |chains| && 0 <= j < |chains[i]|
      ensures chains[i][j] in fifo'
    {
      var l :| 0 <= l < |fifo| && fifo[l] == chains[i][j];
      assert fifo'[if l == k then 0 else if l < k then l + 1 else l] == fifo[l];
    }
  }

  /** What the walk along the chain of a name finds is the entry of that name, if there is one. */
  lemma {:induction false} ChainKnows(addr: Hasher, chains: seq<seq<CachedFile>>, fifo: seq<CachedFile>,
                                      filename: string, p: nat)
    requires Agree(addr, chains, fifo) && addr(filename, |chains|) < |chains|
    requires var chain := chains[addr(filename, |chains|)];
      && p <= |chain| && (p < |chain| ==> chain[p].f.filename == filename)
      && forall j :: 0 <= j < p ==> chain[j].f.filename != filename
    ensures var chain, k := chains[addr(filename, |chains|)], Find(fifo, filename);
      if p < |chain| then k < |fifo| && fifo[k] == chain[p] else k == |fifo|
  {
    var chain, k := chains[addr(filename, |chains|)], Find(fifo, filename);
    if p < |chain| {
      var l: nat :| l < |fifo| && fifo[l] == chain[p];
      FindUnique(fifo, l);
    } else {
      assert forall l: nat :: l < |fifo| ==> InChain(addr, chains, fifo[l]);
    }
  }

  lemma MembersOf(addr: Hasher, chains: seq<seq<CachedFile>>, fifo: seq<CachedFile>, a: nat)
    requires Agree(addr, chains, fifo) && a < |chains|
    ensures forall x :: x in chains[a] ==> x in fifo
  {
  }

  lemma NoEmptyName(addr: Hasher, chains: seq<seq<CachedFile>>, fifo: seq<CachedFile>)
    requires Agree(addr, chains, fifo)
    ensures WithoutName(fifo, "") == fifo && (|chains| == 0 ==> fifo == [])
  {
    assert forall k: nat :: k < |fifo| ==> fifo[k].f.filename != "";
  }

  ghost function All(chains: seq<seq<CachedFile>>): set<CachedFile> {
    set i, j | 0 <= i < |chains| && 0 <= j < |chains[i]| :: chains[i][j]
  }

  ghost predicate Bucketed(addr: Hasher, buckets: array<CachedFile?>, chains: seq<seq<CachedFile>>)
    reads buckets, All(chains)`hashPrev, All(chains)`hashNext
  {
    && buckets.Length == |chains| && Placed(addr, chains)
    && forall i {:trigger chains[i]} :: 0 <= i < |chains| ==> HashLinked(chains[i]) && buckets[i] == First(chains[i])
  }

  ghost function Capped<X>(s: seq<X>, n: nat): seq<X> {
    if |s| <= n then s else s[..n]
  }

  /** What Capped leaves out */
  ghost function Beyond<X>(s: seq<X>, n: nat): seq<X> {
    if |s| <= n then [] else s[n..]
  }

  /** The first n of s stay, or all if there are not more, and the others are left out. */
  lemma CappedSplits<X>(s: seq<X>, n: nat)
    ensures Capped(s, n) + Beyond(s, n) == s && |Capped(s, n)| <= n && (Beyond(s, n) != [] ==> |Capped(s, n)| == n)
  {
  }

  // ---------------------------------------------------------------- a new table for the same entries

  /** s without the entries in `gone`, in the same order */
  ghost function Survivors(s: seq<CachedFile>, gone: set<CachedFile>): seq<CachedFile> {
    if s == [] then [] else (if s[0] in gone then [] else [s[0]]) + Survivors(s[1..], gone)
  }

  lemma {:induction false} SurvivorsAll(s: seq<CachedFile>)
    ensures Survivors(s, {}) == s
  {
    if s != [] {
      SurvivorsAll(s[1..]);
    }
  }

  lemma {:induction false} SurvivorsMembers(s: seq<CachedFile>, gone: set<CachedFile>)
    ensures forall x :: x in Survivors(s, gone) <==> x in s && x !in gone
  {
    if s != [] {
      SurvivorsMembers(s[1..], gone);
      assert s == [s[0]] + s[1..];
    }
  }

  /** One more is gone. */
  lemma {:induction false} SurvivorsWithout(s: seq<CachedFile>, gone: set<CachedFile>, k: nat)
    requires UniqueNames(s) && k < |Survivors(s, gone)|
    ensures Survivors(s, gone + {Survivors(s, gone)[k]}) == Others(Survivors(s, gone), k)
  {
    hide Survivors, UniqueNames;
    if s == [] {
      SurvivorsNone(gone);
      return;
    }
    UniqueTail(s);
    SurvivorsStep(s, gone);
    if s[0] in gone {
      SurvivorsWithout(s[1..], gone, k);
      SurvivorsStep(s, gone + {Survivors(s, gone)[k]});
    } else if k == 0 {
      FirstApart(s);
      SurvivorsSame(s[1..], gone, s[0]);
      SurvivorsStep(s, gone + {s[0]});
    } else {
      SurvivorsWithout(s[1..], gone, k - 1);
      SurvivorsFirst(s, gone, k);
    }
  }

  lemma {:induction false} SurvivorsNone(gone: set<CachedFile>)
    ensures Survivors([], gone) == []
  {
  }

  lemma {:induction false} SurvivorsStep(s: seq<CachedFile>, gone: set<CachedFile>)
    requires s != []
    ensures Survivors(s, gone) == if s[0] in gone then Survivors(s[1..], gone) else [s[0]] + Survivors(s[1..], gone)
  {
  }

  lemma FirstApart(s: seq<CachedFile>)
    requires UniqueNames(s) && s != []
    ensures forall i :: 0 <= i < |s| - 1 ==> s[1..][i] != s[0]
  {
    NamesApart(s, 0);
  }

  /** The first entry stays if it is a later one that goes. */
  lemma {:induction false} SurvivorsFirst(s: seq<CachedFile>, gone: set<CachedFile>, k: nat)
    requires UniqueNames(s) && s != [] && s[0] !in gone && 0 < k < |Survivors(s, gone)|
    ensures var x, rest := Survivors(s, gone)[k], Survivors(s[1..], gone);
      && x == rest[k - 1] && Others(Survivors(s, gone), k) == [s[0]] + Others(rest, k - 1)
      && Survivors(s, gone + {x}) == [s[0]] + Survivors(s[1..], gone + {x})
  {
    var rest := Survivors(s[1..], gone);
    FirstApart(s);
    SurvivorsMembers(s[1..], gone);
    assert rest[k - 1] in rest;
    OthersCons(s[0], rest, k);
  }

  lemma OthersCons<X>(x: X, s: seq<X>, k: nat)
    requires 0 < k <= |s|
    ensures ([x] + s)[k] == s[k - 1] && Others([x] + s, k) == [x] + Others(s, k - 1)
  {
  }

  lemma UniqueTail(s: seq<CachedFile>)
    requires UniqueNames(s) && s != []
    ensures UniqueNames(s[1..])
  {
    forall i, j | Pair(i, j) && 0 <= i < j < |s| - 1
      ensures s[1..][i].f.filename != s[1..][j].f.filename
    {
      assert Pair(i + 1, j + 1);
    }
  }

  lemma {:induction false} SurvivorsSame(s: seq<CachedFile>, gone: set<CachedFile>, x: CachedFile)
    requires forall i :: 0 <= i < |s| ==> s[i] != x
    ensures Survivors(s, gone + {x}) == Survivors(s, gone)
  {
    if s != [] {
      SurvivorsSame(s[1..], gone, x);
    }
  }

  /** Two lists without repetition that have the same members are equally long. */
  lemma SameLength(s: seq<CachedFile>, t: seq<CachedFile>)
    requires AllDiffer(s) && AllDiffer(t) && forall x :: x in s <==> x in t
    ensures |s| == |t|
  {
    CountDistinct(s);
    CountDistinct(t);
    assert (set x | x in s) == set x | x in t;
  }

  lemma {:induction false} CountDistinct(s: seq<CachedFile>)
    requires AllDiffer(s)
    ensures |set x | x in s| == |s|
  {
    if s != [] {
      var n := |s| - 1;
      forall i, j | Pair(i, j) && 0 <= i < j < n
        ensures s[..n][i] != s[..n][j]
      {
      }
      CountDistinct(s[..n]);
      Separate(s, n);
      assert (set x | x in s) == (set x | x in s[..n]) + {s[n]};
    }
  }

  /** Chains that agree with one list of entries agree with any other list of them. */
  lemma AgreeSameMembers(addr: Hasher, chains: seq<seq<CachedFile>>, kept: seq<CachedFile>, fifo: seq<CachedFile>)
    requires Agree(addr, chains, kept) && UniqueNames(fifo) && forall x :: x in kept <==> x in fifo
    ensures Agree(addr, chains, fifo)
  {
    forall k | 0 <= k < |fifo|
      ensures fifo[k].f.filename != "" && InChain(addr, chains, fifo[k])
    {
      assert fifo[k] in kept;
      var l: nat :| l < |kept| && kept[l] == fifo[k];
      assert InChain(addr, chains, kept[l]);
    }
    assert fifo != [] ==> fifo[0] in kept;
  }

  /** The entries from place p of chain i on, in the order in which resize_Cache comes to them. */
  ghost function Remaining(chains: seq<seq<CachedFile>>, i: nat, p: nat): set<CachedFile> {
    set a, j | 0 <= a < |chains| && 0 <= j < |chains[a]| && (a > i || (a == i && j >= p)) :: chains[a][j]
  }

  lemma RemainingStep(addr: Hasher, chains: seq<seq<CachedFile>>, i: nat, p: nat)
    requires Placed(addr, chains) && i < |chains| && p < |chains[i]| && AllDiffer(chains[i])
    ensures chains[i][p] in Remaining(chains, i, p)
    ensures Remaining(chains, i, p + 1) == Remaining(chains, i, p) - {chains[i][p]}
  {
    Separate(chains[i], p);
    var x := chains[i][p];
    forall a, j | 0 <= a < |chains| && 0 <= j < |chains[a]| && (a > i || (a == i && j >= p + 1))
      ensures chains[a][j] != x
    {
      assert addr(chains[a][j].f.filename, |chains|) == a && addr(x.f.filename, |chains|) == i;
    }
  }

  lemma RemainingNext(chains: seq<seq<CachedFile>>, i: nat)
    requires i < |chains|
    ensures Remaining(chains, i, |chains[i]|) == Remaining(chains, i + 1, 0)
  {
  }

  lemma RemainingAll(addr: Hasher, chains: seq<seq<CachedFile>>, fifo: seq<CachedFile>)
    requires Agree(addr, chains, fifo)
    ensures forall x :: x in Remaining(chains, 0, 0) <==> x in fifo
  {
    forall x | x in fifo
      ensures x in Remaining(chains, 0, 0)
    {
      var k: nat :| k < |fifo| && fifo[k] == x;
      assert InChain(addr, chains, fifo[k]);
      var a := addr(x.f.filename, |chains|);
      var j: nat :| j < |chains[a]| && chains[a][j] == x;
    }
  }

  ghost function Elements(s: seq<CachedFile>): set<CachedFile> {
    set x | x in s
  }

  /** resize_Cache under way: s is the FIFO it began with, `todo` are the entries it has not come to. The first n it
      came to are in the new chains; when n has reached the new size, the others go. */
  ghost predicate Midway(addr: Hasher, chains: seq<seq<CachedFile>>, kept: seq<CachedFile>, gone: set<CachedFile>,
                         todo: set<CachedFile>, s: seq<CachedFile>, fifo: seq<CachedFile>) {
    && Agree(addr, chains, kept) && UniqueNames(s) && UniqueNames(fifo) && fifo == Survivors(s, gone)
    && |kept| <= |chains| && (|kept| < |chains| ==> gone == {})
    && Elements(fifo) == Elements(kept) + todo && Elements(kept) !! todo
    && forall x :: x in todo ==> x.f.filename != ""
  }

  /** The next entry is kept. */
  lemma MidwayKeep(addr: Hasher, chains: seq<seq<CachedFile>>, kept: seq<CachedFile>, gone: set<CachedFile>,
                   todo: set<CachedFile>, s: seq<CachedFile>, fifo: seq<CachedFile>, cf: CachedFile)
    requires Midway(addr, chains, kept, gone, todo, s, fifo) && cf in todo && |kept| < |chains|
    requires addr(cf.f.filename, |chains|) < |chains|
    ensures var a := addr(cf.f.filename, |chains|);
      cf !in chains[a] && Midway(addr, chains[a := [cf] + chains[a]], [cf] + kept, gone, todo - {cf}, s, fifo)
  {
    MembersOf(addr, chains, kept, addr(cf.f.filename, |chains|));
    assert cf in fifo;
    var k: nat :| k < |fifo| && fifo[k] == cf;
    NamesApart(fifo, k);
    forall i | 0 <= i < |kept|
      ensures kept[i].f.filename != cf.f.filename
    {
      assert kept[i] in Elements(kept) && kept[i] in fifo;
    }
    AgreeAdd(addr, chains, kept, cf);
    assert Elements([cf] + kept) == Elements(kept) + {cf};
  }

  /** The next entry goes. */
  lemma MidwayDrop(addr: Hasher, chains: seq<seq<CachedFile>>, kept: seq<CachedFile>, gone: set<CachedFile>,
                   todo: set<CachedFile>, s: seq<CachedFile>, fifo: seq<CachedFile>, cf: CachedFile, k: nat)
    requires Midway(addr, chains, kept, gone, todo, s, fifo) && cf in todo && |kept| == |chains|
    requires k < |fifo| && fifo[k] == cf
    ensures Midway(addr, chains, kept, gone + {cf}, todo - {cf}, s, Others(fifo, k))
  {
    SurvivorsWithout(s, gone, k);
    UniqueOthers(fifo, k);
    UniqueNoDup(fifo);
    Separate(fifo, k);
    ElementsOthers(fifo, k);
  }

  lemma ElementsOthers(s: seq<CachedFile>, k: nat)
    requires k < |s| && forall i :: 0 <= i < |s| && i != k ==> s[i] != s[k]
    ensures Elements(Others(s, k)) == Elements(s) - {s[k]}
  {
    forall x | x in s && x != s[k]
      ensures x in Others(s, k)
    {
      var i: nat :| i < |s| && s[i] == x;
      assert Others(s, k)[if i < k then i else i - 1] == x;
    }
  }

  lemma MidwayStart(addr: Hasher, chains: seq<seq<CachedFile>>, fifo: seq<CachedFile>, size: nat)
    requires Agree(addr, chains, fifo)
    ensures Midway(addr, seq(size, _ => []), [], {}, Remaining(chains, 0, 0), fifo, fifo)
  {
    SurvivorsAll(fifo);
    RemainingAll(addr, chains, fifo);
    assert Elements([]) == {} && Elements(fifo) == Remaining(chains, 0, 0);
    forall x | x in Remaining(chains, 0, 0)
      ensures x.f.filename != ""
    {
      var k: nat :| k < |fifo| && fifo[k] == x;
    }
  }

  /** In the end the new chains agree with the FIFO, of which as many entries are left as the new size allows. */
  lemma {:induction false} MidwayEnd(addr: Hasher, chains: seq<seq<CachedFile>>, kept: seq<CachedFile>,
                                     gone: set<CachedFile>, s: seq<CachedFile>, fifo: seq<CachedFile>)
    requires Midway(addr, chains, kept, gone, {}, s, fifo)
    ensures Agree(addr, chains, fifo) && |fifo| == |kept| == if |s| < |chains| then |s| else |chains|
    ensures fifo == Survivors(s, gone)
  {
    assert forall x :: x in kept <==> x in Elements(kept);
    assert forall x :: x in fifo <==> x in Elements(fifo);
    AgreeSameMembers(addr, chains, kept, fifo);
    UniqueNoDup(kept);
    UniqueNoDup(fifo);
    SameLength(kept, fifo);
    SurvivorsAll(s);
    SurvivorsShorter(s, gone);
  }

  /** All entries that are dealt with on the way were there in the beginning. */
  lemma MidwayWithin(addr: Hasher, chains: seq<seq<CachedFile>>, kept: seq<CachedFile>, gone: set<CachedFile>,
                     todo: set<CachedFile>, s: seq<CachedFile>, fifo: seq<CachedFile>)
    requires Midway(addr, chains, kept, gone, todo, s, fifo)
    ensures (forall k :: 0 <= k < |fifo| ==> fifo[k] in s) && (forall k :: 0 <= k < |kept| ==> kept[k] in s)
    ensures forall x :: x in todo ==> x in s
  {
    SurvivorsMembers(s, gone);
    assert forall x :: x in kept ==> x in Elements(kept);
    assert forall x :: x in Elements(fifo) ==> x in fifo;
  }

  lemma {:induction false} SurvivorsShorter(s: seq<CachedFile>, gone: set<CachedFile>)
    ensures |Survivors(s, gone)| <= |s|
  {
    if s != [] {
      SurvivorsShorter(s[1..], gone);
    }
  }

  /** The part of HashLinked that a walk along the chain from place p needs. */
  ghost predicate NextLinked(s: seq<CachedFile>, p: nat)
    reads s`hashNext
  {
    forall i {:trigger s[i].hashNext} :: p <= i < |s| ==> s[i].hashNext == if i + 1 < |s| then s[i + 1] else null
  }

  // ---------------------------------------------------------------- the order of last use

  ghost predicate Stamped(s: seq<CachedFile>, times: seq<int>)
    reads s`timestamp
  {
    |times| == |s| && forall i {:trigger s[i].timestamp} :: 0 <= i < |s| ==> s[i].timestamp == times[i]
  }

  /** From the head to the tail of the FIFO the timestamps do not rise, and none is later than now. */
  ghost predicate Recent(ts: seq<int>, now: int) {
    && (forall i :: 0 <= i < |ts| ==> ts[i] <= now)
    && (forall i, j {:trigger Pair(i, j)} :: Pair(i, j) && 0 <= i < j < |ts| ==> ts[i] >= ts[j])
  }

  /** A hit at place k keeps this order, */
  lemma RecentHit(ts: seq<int>, k: nat, before: int, now: int)
    requires Recent(ts, before) && before <= now && k < |ts|
    ensures Recent([now] + Others(ts, k), now)
  {
    var rest := [now] + Others(ts, k);
    RecentOthers(ts, k, before);
    forall i, j | Pair(i, j) && 0 <= i < j < |rest|
      ensures rest[i] >= rest[j]
    {
      assert Pair(i - 1, j - 1);
    }
  }

  /** and so does a new entry, whether or not the last one has to make room for it. */
  lemma RecentAdd(ts: seq<int>, before: int, t: int, now: int)
    requires Recent(ts, before) && before <= t <= now
    ensures Recent([t] + ts, now)
  {
    var all := [t] + ts;
    forall i, j | Pair(i, j) && 0 <= i < j < |all|
      ensures all[i] >= all[j]
    {
      assert Pair(i - 1, j - 1);
    }
  }

  lemma RecentOthers(ts: seq<int>, k: nat, now: int)
    requires Recent(ts, now) && k < |ts|
    ensures Recent(Others(ts, k), now)
  {
    var rest := Others(ts, k);
    forall i, j | Pair(i, j) && 0 <= i < j < |rest|
      ensures rest[i] >= rest[j]
    {
      assert Pair(if i < k then i else i + 1, if j < k then j else j + 1);
    }
  }

  /** The timestamps of the survivors among s, whose timestamps are ts */
  ghost function SurvivorTimes(s: seq<CachedFile>, ts: seq<int>, gone: set<CachedFile>): seq<int>
    requires |ts| == |s|
  {
    if s == [] then [] else (if s[0] in gone then [] else [ts[0]]) + SurvivorTimes(s[1..], ts[1..], gone)
  }

  lemma {:induction false} RecentSurvivors(s: seq<CachedFile>, ts: seq<int>, gone: set<CachedFile>, now: int)
    requires |ts| == |s| && Recent(ts, now)
    ensures Recent(SurvivorTimes(s, ts, gone), now)
  {
    hide Recent;
    if s == [] {
      assert ts == [];
    } else {
      RecentTail(ts, now);
      RecentSurvivors(s[1..], ts[1..], gone, ts[0]);
      var rest := SurvivorTimes(s[1..], ts[1..], gone);
      RecentAdd(rest, ts[0], ts[0], now);
      RecentLater(rest, ts[0], now);
      assert [] + rest == rest;
    }
  }

  lemma RecentLater(ts: seq<int>, before: int, now: int)
    requires Recent(ts, before) && before <= now
    ensures Recent(ts, now)
  {
  }

  /** What follows the first timestamp is recent as of that. */
  lemma RecentTail(ts: seq<int>, now: int)
    requires Recent(ts, now) && ts != []
    ensures Recent(ts[1..], ts[0]) && ts[0] <= now
  {
    forall i | 0 <= i < |ts[1..]|
      ensures ts[1..][i] <= ts[0]
    {
      assert Pair(0, i + 1);
    }
    forall i, j | Pair(i, j) && 0 <= i < j < |ts[1..]|
      ensures ts[1..][i] >= ts[1..][j]
    {
      assert Pair(i + 1, j + 1);
    }
  }

  lemma {:induction false} SurvivorsLength(s: seq<CachedFile>, ts: seq<int>, gone: set<CachedFile>)
    requires |ts| == |s|
    ensures |SurvivorTimes(s, ts, gone)| == |Survivors(s, gone)|
  {
    if s != [] {
      SurvivorsLength(s[1..], ts[1..], gone);
    }
  }

  lemma StampedApart(s: seq<CachedFile>, ts: seq<int>)
    requires Stamped(s, ts) && s != []
    ensures Stamped(s[1..], ts[1..]) && s[0].timestamp == ts[0]
  {
    assert forall i :: 0 <= i < |s| - 1 ==> s[1..][i] == s[i + 1];
  }

  lemma StampedMore(c: CachedFile, time: int, s: seq<CachedFile>, ts: seq<int>)
    requires Stamped(s, ts) && c.timestamp == time
    ensures Stamped([c] + s, [time] + ts)
  {
  }

  lemma {:induction false} SurvivorsStamped(s: seq<CachedFile>, ts: seq<int>, gone: set<CachedFile>)
    requires |ts| == |s| && Stamped(s, ts)
    ensures |SurvivorTimes(s, ts, gone)| == |Survivors(s, gone)|
      && Stamped(Survivors(s, gone), SurvivorTimes(s, ts, gone))
  {
    hide Stamped;
    if s == [] {
      assert ts == [];
    } else {
      StampedApart(s, ts);
      SurvivorsStamped(s[1..], ts[1..], gone);
      if s[0] !in gone {
        StampedMore(s[0], ts[0], Survivors(s[1..], gone), SurvivorTimes(s[1..], ts[1..], gone));
      }
      NothingBefore(Survivors(s[1..], gone), SurvivorTimes(s[1..], ts[1..], gone));
    }
  }

  lemma NothingBefore<X, Y>(s: seq<X>, t: seq<Y>)
    ensures [] + s == s && [] + t == t
  {
  }

  // ---------------------------------------------------------------- what has been freed

  /** destroy_File, which refuses a file that is open */
  ghost function Destroyed(freed: set<File>, f: File): set<File>
    reads f`open
  {
    if f.open then freed else freed + {f}
  }

  /** The files of these entries that are not open */
  ghost function Closed(s: seq<CachedFile>): set<File>
    reads (set i | 0 <= i < |s| :: s[i].f)`open
  {
    set i | 0 <= i < |s| && !s[i].f.open :: s[i].f
  }

  /** Just the files that are not open are freed when their entries go. */
  lemma FreedIffClosed(freed: set<File>, s: seq<CachedFile>, i: nat)
    requires i < |s|
    ensures s[i].f in freed + Closed(s) <==> s[i].f in freed || !s[i].f.open
    ensures s[i].f in Destroyed(freed, s[i].f) <==> s[i].f in freed || !s[i].f.open
    ensures forall f :: f in Closed(s) ==> !f.open && exists k :: 0 <= k < |s| && s[k].f == f
  {
  }

  lemma NothingClosed()
    ensures Closed([]) == {}
  {
  }

  /** One more entry is taken out. */
  lemma ClosedStep(s: seq<CachedFile>, n: nat)
    requires n < |s|
    ensures forall freed :: Destroyed(freed + Closed(s[n + 1..]), s[n].f) == freed + Closed(s[n..])
  {
    assert s[n..] == [s[n]] + s[n + 1..];
  }

  /** The files of the entries in gone, as far as they are among those */
  ghost function FilesGone(s: seq<CachedFile>, gone: set<CachedFile>, those: set<File>): (r: set<File>)
    ensures forall f :: f in r ==> f in those && exists k :: 0 <= k < |s| && s[k] in gone && s[k].f == f
  {
    set i | 0 <= i < |s| && s[i] in gone && s[i].f in those :: s[i].f
  }

  ghost predicate Unfreed(fifo: seq<CachedFile>, freed: set<File>) {
    forall i {:trigger fifo[i]} :: 0 <= i < |fifo| ==> fifo[i].f !in freed
  }

  /** The FIFO is in the order of last use, and nothing in it has been freed. The quantifier keeps the solver from
      taking this apart unless its trigger is mentioned. */
  ghost predicate Tidy(fifo: seq<CachedFile>, times: seq<int>, clock: int, freed: set<File>) {
    forall b {:trigger Peek(b)} :: Peek(b) ==> |times| == |fifo| && Recent(times, clock) && Unfreed(fifo, freed)
  }

  ghost predicate Peek(b: bool) { true }

  lemma TidyOpen(fifo: seq<CachedFile>, times: seq<int>, clock: int, freed: set<File>)
    requires Tidy(fifo, times, clock, freed)
    ensures |times| == |fifo| && Recent(times, clock) && Unfreed(fifo, freed)
  {
    assert Peek(true);
  }

  lemma TidyLater(fifo: seq<CachedFile>, times: seq<int>, before: int, now: int, freed: set<File>)
    requires Tidy(fifo, times, before, freed) && before <= now
    ensures Tidy(fifo, times, now, freed)
  {
    TidyOpen(fifo, times, before, freed);
  }

  lemma TidyHit(fifo: seq<CachedFile>, times: seq<int>, k: nat, before: int, now: int, freed: set<File>)
    requires Tidy(fifo, times, before, freed) && before <= now && k < |fifo| == |times|
    ensures Tidy([fifo[k]] + Others(fifo, k), [now] + Others(times, k), now, freed)
  {
    TidyOpen(fifo, times, before, freed);
    RecentHit(times, k, before, now);
    var t := [fifo[k]] + Others(fifo, k);
    assert forall i: nat :: i < |t| ==> t[i] == fifo[if i == 0 then k else if i <= k then i - 1 else i];
  }

  lemma TidyAdd(fifo: seq<CachedFile>, times: seq<int>, cf: CachedFile, before: int, now: int, freed: set<File>)
    requires Tidy(fifo, times, before, freed) && before <= now && cf.f !in freed
    ensures Tidy([cf] + fifo, [now] + times, now, freed)
  {
    TidyOpen(fifo, times, before, freed);
    RecentAdd(times, before, now, now);
  }

  /** An entry is taken out, and its file freed unless it is open. */
  lemma TidyOthers(fifo: seq<CachedFile>, times: seq<int>, k: nat, now: int, freed: set<File>)
    requires Tidy(fifo, times, now, freed) && UniqueNames(fifo) && k < |fifo| == |times|
    ensures Tidy(Others(fifo, k), Others(times, k), now, freed + {fifo[k].f})
    ensures Tidy(Others(fifo, k), Others(times, k), now, freed)
  {
    TidyOpen(fifo, times, now, freed);
    RecentOthers(times, k, now);
    NamesApart(fifo, k);
    var t := Others(fifo, k);
    assert forall i: nat :: i < |t| ==> t[i] == fifo[if i < k then i else i + 1];
  }

  lemma {:induction false} SurvivorsUnfreed(s: seq<CachedFile>, gone: set<CachedFile>, freed: set<File>)
    requires forall i :: 0 <= i < |s| && s[i] !in gone ==> s[i].f !in freed
    ensures Unfreed(Survivors(s, gone), freed)
  {
    if s != [] {
      SurvivorsUnfreed(s[1..], gone, freed);
    }
  }

  lemma {:induction false} TidySurvivors(fifo: seq<CachedFile>, times: seq<int>, gone: set<CachedFile>, now: int,
                                         freed: set<File>, more: set<File>)
    requires Tidy(fifo, times, now, freed) && |times| == |fifo| && UniqueNames(fifo)
    requires forall f :: f in more ==> exists k :: 0 <= k < |fifo| && fifo[k] in gone && fifo[k].f == f
    ensures |SurvivorTimes(fifo, times, gone)| == |Survivors(fifo, gone)|
    ensures Tidy(Survivors(fifo, gone), SurvivorTimes(fifo, times, gone), now, freed + more)
  {
    TidyOpen(fifo, times, now, freed);
    RecentSurvivors(fifo, times, gone, now);
    SurvivorsLength(fifo, times, gone);
    forall i | 0 <= i < |fifo| && fifo[i] !in gone
      ensures fifo[i].f !in freed + more
    {
      NamesApart(fifo, i);
    }
    SurvivorsUnfreed(fifo, gone, freed + more);
  }

  /** All from place n on are older than the limit. */
  ghost predicate OlderFrom(ts: seq<int>, n: nat, limit: int) {
    forall i :: n <= i < |ts| ==> ts[i] < limit
  }

  lemma OlderStep(s: seq<CachedFile>, ts: seq<int>, n: nat, limit: int)
    requires 0 < n <= |s| == |ts| && OlderFrom(ts, n, limit) && ts[..n][n - 1] < limit
    ensures OlderFrom(ts, n - 1, limit)
    ensures s[..n][..n - 1] == s[..n - 1] && ts[..n][..n - 1] == ts[..n - 1]
    ensures forall x :: x in s[..n] ==> x in s
  {
  }

  lemma NoneOlder(ts: seq<int>, limit: int)
    ensures OlderFrom(ts, |ts|, limit)
  {
  }

  /** All from place n on are older than the limit, and the one before is not. */
  ghost predicate ExpiredFrom(ts: seq<int>, n: nat, limit: int) {
    n <= |ts| && OlderFrom(ts, n, limit) && (n > 0 ==> ts[n - 1] >= limit)
  }

  /** So although only the tail is looked at, exactly the entries that are older than the limit go. */
  lemma ExpiredExactly(ts: seq<int>, n: nat, limit: int, now: int)
    requires Recent(ts, now) && ExpiredFrom(ts, n, limit)
    ensures forall i :: 0 <= i < |ts| ==> (ts[i] >= limit <==> i < n)
  {
    forall i | 0 <= i < n - 1
      ensures ts[i] >= ts[n - 1]
    {
      assert Pair(i, n - 1);
    }
  }

  // ---------------------------------------------------------------- the cache

  class Cache {
    const addr: Hasher  // filecache_hash_addr
    var buckets: array<CachedFile?>
    var fifoHead: CachedFile?
    var fifoTail: CachedFile?
    var cacheSize: nat
    var numCached: int

    ghost var chains: seq<seq<CachedFile>>
    ghost var fifo: seq<CachedFile>
    ghost var times: seq<int>  // their timestamps
    ghost var clock: int  // when the cache was used last
    ghost var freed: set<File>  // what destroy_File has freed

    /** init_FileCache; a size of 0 is a cache that is switched off. */
    constructor (crc: string -> int, size: nat, ghost rtc: int)
      ensures Valid() && fifo == [] && cacheSize == size && fresh(buckets) && clock == rtc && freed == {}
      ensures addr == ((filename, n) => FilecacheHashAddr(crc, filename, n))
    {
      addr := (filename, n) => FilecacheHashAddr(crc, filename, n);
      buckets := new CachedFile?[size](_ => null);
      fifoHead, fifoTail, cacheSize, numCached := null, null, size, 0;
      chains, fifo, times, clock, freed := seq(size, _ => []), [], [], rtc, {};
    }

    ghost predicate Fifo()
      reads `fifo, `times, `fifoHead, `fifoTail, fifo`fifoPrev, fifo`fifoNext, fifo`timestamp
    {
      FifoLinked(fifo) && fifoHead == First(fifo) && fifoTail == Last(fifo) && Stamped(fifo, times)
    }

    /** The links that fifo_add_Cache sets. Here and in fifo_remove_Cache the source ends with a repair for the
        case that just one of head and tail is null; Fifo() says that this never happens, so the repair is dead. */
    static method LinkFront(head: CachedFile?, tail: CachedFile?, cf: CachedFile, ghost s: seq<CachedFile>)
      returns (head': CachedFile?, tail': CachedFile?)
      requires FifoLinked(s) && head == First(s) && tail == Last(s) && cf !in s
      modifies cf`fifoPrev, cf`fifoNext, s`fifoPrev
      ensures FifoLinked([cf] + s) && head' == First([cf] + s) && tail' == Last([cf] + s)
    {
      NoDupFront(s, cf);
      if s != [] {
        Separate(s, 0);
      }
      cf.fifoPrev, cf.fifoNext := null, null;
      head', tail' := cf, tail;
      if head == null {
        tail' := cf;
      } else {
        head.fifoPrev := cf;
        cf.fifoNext := head;
      }
    }

    /** The links that fifo_remove_Cache sets */
    static method Unchain(head: CachedFile?, tail: CachedFile?, cf: CachedFile, ghost s: seq<CachedFile>, ghost k: nat)
      returns (head': CachedFile?, tail': CachedFile?)
      requires FifoLinked(s) && head == First(s) && tail == Last(s) && k < |s| && s[k] == cf
      modifies s`fifoPrev, s`fifoNext
      ensures FifoLinked(Others(s, k)) && head' == First(Others(s, k)) && tail' == Last(Others(s, k))
    {
      NoDupOthers(s, k);
      Separate(s, k);
      if k > 0 {
        Separate(s, k - 1);
      }
      if k + 1 < |s| {
        Separate(s, k + 1);
      }
      head', tail' := head, tail;
      if cf.fifoPrev != null {
        cf.fifoPrev.fifoNext := cf.fifoNext;
      } else {
        head' := cf.fifoNext;
      }
      if cf.fifoNext != null {
        cf.fifoNext.fifoPrev := cf.fifoPrev;
      } else {
        tail' := cf.fifoPrev;
      }
    }

    /** fifo_add_Cache */
    method FifoAdd(cf: CachedFile, rtc: int)
      requires Fifo() && cf !in fifo && Bucketed(addr, buckets, chains)
      modifies `fifoHead, `fifoTail, `fifo, `times, cf`fifoPrev, cf`fifoNext, cf`timestamp, fifo`fifoPrev
      ensures Fifo() && fifo == [cf] + old(fifo) && Bucketed(addr, buckets, chains)
      ensures times == [rtc] + old(times)
    {
      hide AllDiffer, Placed;
      fifoHead, fifoTail := LinkFront(fifoHead, fifoTail, cf, fifo);
      cf.timestamp := rtc;
      fifo, times := [cf] + fifo, [rtc] + times;
    }

    /** fifo_remove_Cache; the hash lists t that begin in the given table are unaffected. */
    method FifoRemove(cf: CachedFile, ghost k: nat, ghost table: array<CachedFile?>, ghost t: seq<seq<CachedFile>>)
      requires Fifo() && k < |fifo| && fifo[k] == cf && Bucketed(addr, table, t)
      modifies `fifoHead, `fifoTail, `fifo, `times, fifo`fifoPrev, fifo`fifoNext
      ensures Fifo() && fifo == Others(old(fifo), k) && Bucketed(addr, table, t)
      ensures times == Others(old(times), k)
    {
      hide AllDiffer, Placed;
      fifoHead, fifoTail := Unchain(fifoHead, fifoTail, cf, fifo, k);
      fifo, times := Others(fifo, k), Others(times, k);
    }

    /** The hash list part of add_Cache and of resize_Cache: cf becomes the first entry of chain a. */
    static method PushInto(addr: Hasher, table: array<CachedFile?>, cf: CachedFile, a: nat,
                           ghost chains: seq<seq<CachedFile>>)
      requires Bucketed(addr, table, chains) && a < table.Length && addr(cf.f.filename, table.Length) == a
      requires cf.hashPrev == null && cf.hashNext == null && cf !in chains[a]
      modifies table, cf`hashNext, chains[a]`hashPrev
      ensures Bucketed(addr, table, chains[a := [cf] + chains[a]])
    {
      ghost var chain, chains' := chains[a], chains[a := [cf] + chains[a]];
      NoDupFront(chain, cf);
      if chain != [] {
        Separate(chain, 0);
      }
      if table[a] != null {
        table[a].hashPrev := cf;
        cf.hashNext := table[a];
      }
      table[a] := cf;
      forall i | 0 <= i < |chains'|
        ensures HashLinked(chains'[i]) && table[i] == First(chains'[i])
      {
        if i != a {
          assert chains'[i] == chains[i];
          assert old(HashLinked(chains[i]));
          assert forall j: nat :: j < |chains[i]| ==> addr(chains[i][j].f.filename, |chains|) == i;
        }
      }
    }

    method Push(cf: CachedFile, a: nat)
      requires Fifo() && Bucketed(addr, buckets, chains) && a < buckets.Length
        && addr(cf.f.filename, buckets.Length) == a
      requires cf.hashPrev == null && cf.hashNext == null && cf !in chains[a]
      modifies `chains, buckets, cf`hashNext, chains[a]`hashPrev
      ensures Fifo() && Bucketed(addr, buckets, chains) && chains == old(chains)[a := [cf] + old(chains)[a]]
    {
      PushInto(addr, buckets, cf, a, chains);
      chains := chains[a := [cf] + chains[a]];
    }

    /** The hash list part of remove_Cache_filename: cf is entry p of a chain that begins at root. */
    static method UnlinkFrom(root: CachedFile?, cf: CachedFile, ghost chain: seq<CachedFile>, ghost p: nat)
      returns (root': CachedFile?)
      requires HashLinked(chain) && root == First(chain) && p < |chain| && chain[p] == cf
      modifies chain`hashPrev, chain`hashNext
      ensures HashLinked(Others(chain, p)) && root' == First(Others(chain, p))
    {
      NoDupOthers(chain, p);
      Separate(chain, p);
      if p > 0 {
        Separate(chain, p - 1);
      }
      if p + 1 < |chain| {
        Separate(chain, p + 1);
      }
      root' := root;
      if cf.hashPrev == null {
        root' := cf.hashNext;
        if root' != null {
          root'.hashPrev := null;
        }
        cf.hashNext := null;
      } else {
        cf.hashPrev.hashNext := cf.hashNext;
        if cf.hashNext != null {
          cf.hashNext.hashPrev := cf.hashPrev;
        }
      }
    }

    method Unlink(cf: CachedFile, a: nat, ghost p: nat)
      requires Fifo() && Bucketed(addr, buckets, chains) && a < buckets.Length && p < |chains[a]| && chains[a][p] == cf
      modifies `chains, buckets, chains[a]`hashPrev, chains[a]`hashNext
      ensures Fifo() && Bucketed(addr, buckets, chains) && chains == old(chains)[a := Others(old(chains)[a], p)]
    {
      ghost var chain, t := chains[a], chains;
      assert HashLinked(chain);
      var root := UnlinkFrom(buckets[a], cf, chain, p);
      buckets[a] := root;
      chains := chains[a := Others(chain, p)];
      forall i | 0 <= i < |chains|
        ensures HashLinked(chains[i]) && buckets[i] == First(chains[i])
      {
        if i != a {
          assert chains[i] == t[i];
          assert old(HashLinked(t[i]));
          assert forall j: nat :: j < |t[i]| ==> addr(t[i][j].f.filename, |t|) == i;
        }
      }
    }

    /** The walk along a hash list that in_Cache and remove_Cache_filename make. */
    method Search(filename: string, a: nat) returns (cf: CachedFile?, ghost p: nat)
      requires Bucketed(addr, buckets, chains) && a < buckets.Length
      ensures p <= |chains[a]| && cf == (if p < |chains[a]| then chains[a][p] else null)
      ensures cf != null ==> cf.f.filename == filename
      ensures forall j :: 0 <= j < p ==> chains[a][j].f.filename != filename
    {
      cf, p := buckets[a], 0;
      assert HashLinked(chains[a]);
      while cf != null && cf.f.filename != filename
        invariant p <= |chains[a]| && cf == (if p < |chains[a]| then chains[a][p] else null)
        invariant forall j :: 0 <= j < p ==> chains[a][j].f.filename != filename
        decreases |chains[a]| - p
      {
        assert chains[a][p].hashNext == if p + 1 < |chains[a]| then chains[a][p + 1] else null;
        cf := cf.hashNext;
        p := p + 1;
      }
    }

    /** Both lists are in order, and agree. The quantifier keeps the solver from taking this apart where Open is
        not called: it has no instance until its trigger is mentioned. */
    ghost predicate Linked()
      reads `fifo, `times, `fifoHead, `fifoTail, `chains, `buckets, buckets
      reads fifo`fifoPrev, fifo`fifoNext, fifo`timestamp, All(chains)`hashPrev, All(chains)`hashNext
    {
      forall b {:trigger Look(b)} :: Look(b) ==>
        Fifo() && Bucketed(addr, buckets, chains) && Agree(addr, chains, fifo)
    }

    static ghost predicate Look(b: bool) { true }

    lemma Open()
      requires Linked()
      ensures Fifo() && Bucketed(addr, buckets, chains) && Agree(addr, chains, fifo)
    {
      assert Look(true);
    }

    ghost predicate Whole()
      reads this, buckets, fifo`fifoPrev, fifo`fifoNext, fifo`timestamp, All(chains)`hashPrev, All(chains)`hashNext
    {
      && Linked() && buckets.Length == cacheSize == |chains| && numCached == |fifo| == |times| && Proper(addr)
      && Tidy(fifo, times, clock, freed)
    }

    /** What holds between any two calls. A cache of size 0 is one that is switched off. */
    ghost predicate Valid()
      reads this, buckets, fifo`fifoPrev, fifo`fifoNext, fifo`timestamp, All(chains)`hashPrev, All(chains)`hashNext
    {
      Whole() && numCached <= cacheSize
    }

    /** destroy_File for a file that is closed while the cache is switched off */
    method DestroyFile(f: File)
      requires Valid() && cacheSize == 0 && !f.open
      modifies `freed
      ensures Valid() && freed == old(freed) + {f}
    {
      TidyOpen(fifo, times, clock, freed);
      freed := freed + {f};
    }

    /** Takes cf, which is entry p of chain a and entry k of the FIFO, out of both. */
    method Cut(cf: CachedFile, a: nat, ghost p: nat, ghost k: nat)
      requires Fifo() && Bucketed(addr, buckets, chains) && Agree(addr, chains, fifo)
      requires a < |chains| && p < |chains[a]| && chains[a][p] == cf && k < |fifo| && fifo[k] == cf
      modifies `chains, `fifo, `times, `fifoHead, `fifoTail, buckets
      modifies fifo`fifoPrev, fifo`fifoNext, fifo`hashPrev, fifo`hashNext
      ensures Fifo() && Bucketed(addr, buckets, chains) && Agree(addr, chains, fifo)
      ensures fifo == Others(old(fifo), k) && |old(times)| == |old(fifo)| && times == Others(old(times), k)
      ensures |chains| == |old(chains)|
    {
      AgreeRemove(addr, chains, fifo, a, p, k);
      MembersOf(addr, chains, fifo, a);
      Unlink(cf, a, p);
      FifoRemove(cf, k, buckets, chains);
    }

    /** remove_Cache_filename once the entry has been found, with destroy_CachedFile. */
    method Detach(cf: CachedFile, a: nat, ghost p: nat, ghost k: nat)
      requires Linked()
      requires a < |chains| && p < |chains[a]| && chains[a][p] == cf && k < |fifo| == |times| && fifo[k] == cf
      modifies `chains, `fifo, `times, `fifoHead, `fifoTail, `numCached, `freed, buckets
      modifies fifo`fifoPrev, fifo`fifoNext, fifo`hashPrev, fifo`hashNext
      ensures Linked()
      ensures fifo == Others(old(fifo), k) && times == Others(old(times), k) && numCached == old(numCached) - 1
      ensures freed == Destroyed(old(freed), cf.f) && |chains| == |old(chains)|
    {
      hide AllDiffer, Tidy, Recent, Stamped, Agree;
      numCached := numCached - 1;
      freed := Destroyed(freed, cf.f);
      Open();
      Cut(cf, a, p, k);
      Close(chains);
    }

    /** A cache hit moves the entry to the beginning of the FIFO. */
    method Touch(cf: CachedFile, rtc: int, ghost k: nat)
      requires Linked() && k < |fifo| == |times| && fifo[k] == cf
      modifies `fifo, `times, `fifoHead, `fifoTail, fifo`fifoPrev, fifo`fifoNext, cf`timestamp
      ensures Linked() && fifo == [cf] + Others(old(fifo), k)
      ensures times == [rtc] + Others(old(times), k)
    {
      Open();
      AgreeMove(addr, chains, fifo, k);
      UniqueNoDup(fifo);
      Separate(fifo, k);
      FifoRemove(cf, k, buckets, chains);
      FifoAdd(cf, rtc);
    }

    /** The entry of this name, if there is one: the first half of in_Cache and of remove_Cache_filename. */
    method Lookup(filename: string) returns (cf: CachedFile?, a: nat, ghost p: nat)
      requires Whole()
      ensures var k := Find(fifo, filename);
        if k < |fifo| then cf == fifo[k] && a < |chains| && p < |chains[a]| && chains[a][p] == cf else cf == null
    {
      Open();
      NoEmptyName(addr, chains, fifo);
      if cacheSize == 0 || filename == "" {
        return null, 0, 0;
      }
      a := addr(filename, cacheSize);
      cf, p := Search(filename, a);
      ChainKnows(addr, chains, fifo, filename, p);
    }

    /** remove_Cache_filename */
    method RemoveFilename(filename: string)
      requires Whole()
      modifies `chains, `fifo, `times, `fifoHead, `fifoTail, `numCached, `freed, buckets
      modifies fifo`fifoPrev, fifo`fifoNext, fifo`hashPrev, fifo`hashNext
      ensures Whole() && fifo == WithoutName(old(fifo), filename)
      ensures var s, k := old(fifo), Find(old(fifo), filename);
        if k < |s| then times == Others(old(times), k) && freed == Destroyed(old(freed), s[k].f)
        else times == old(times) && freed == old(freed)
    {
      var cf, a, p := Lookup(filename);
      if cf != null {
        Drop(cf, a, p, Find(fifo, filename));
      }
    }

    method Drop(cf: CachedFile, a: nat, ghost p: nat, ghost k: nat)
      requires Whole() && a < |chains| && p < |chains[a]| && chains[a][p] == cf && k < |fifo| && fifo[k] == cf
      modifies `chains, `fifo, `times, `fifoHead, `fifoTail, `numCached, `freed, buckets
      modifies fifo`fifoPrev, fifo`fifoNext, fifo`hashPrev, fifo`hashNext
      ensures Whole() && fifo == Others(old(fifo), k) && |old(times)| == |old(fifo)| && times == Others(old(times), k)
      ensures freed == Destroyed(old(freed), cf.f)
    {
      hide Tidy, AllDiffer, UniqueNames;
      Names();
      TidyOthers(fifo, times, k, clock, freed);
      Detach(cf, a, p, k);
    }

    /** No entry is for a file that has been freed. */
    lemma NotFreed(k: nat)
      requires Whole() && k < |fifo|
      ensures fifo[k].f !in freed
    {
      TidyOpen(fifo, times, clock, freed);
    }

    /** From its head to its tail the FIFO has the files in the order of their last use. */
    lemma LastUsedFirst()
      requires Valid()
      ensures forall i, j :: 0 <= i < j < |fifo| ==> fifo[i].timestamp >= fifo[j].timestamp
      ensures forall i :: 0 <= i < |fifo| ==> fifo[i].timestamp <= clock
    {
      TidyOpen(fifo, times, clock, freed);
      StampedNow();
      forall i, j | 0 <= i < j < |fifo|
        ensures fifo[i].timestamp >= fifo[j].timestamp
      {
        assert Pair(i, j);
      }
    }

    lemma Names()
      requires Linked()
      ensures UniqueNames(fifo)
    {
      Open();
    }

    /** in_Cache */
    method InCache(filename: string, rtc: int) returns (cf: CachedFile?)
      requires Whole() && clock <= rtc
      modifies `fifo, `times, `clock, `fifoHead, `fifoTail, fifo`fifoPrev, fifo`fifoNext, fifo`timestamp
      ensures Whole() && clock == rtc
      ensures var s, k := old(fifo), Find(old(fifo), filename);
        if k < |s| then cf == s[k] && fifo == [cf] + Others(s, k) && times == [rtc] + Others(old(times), k)
        else cf == null && fifo == s && times == old(times)
    {
      var a;
      ghost var p;
      cf, a, p := Lookup(filename);
      if cf != null {
        Use(cf, rtc, Find(fifo, filename));
      } else {
        Pass(rtc);
      }
    }

    /** The entry at place k has been used. */
    method Use(cf: CachedFile, rtc: int, ghost k: nat)
      requires Whole() && clock <= rtc && k < |fifo| && fifo[k] == cf
      modifies `fifo, `times, `clock, `fifoHead, `fifoTail, fifo`fifoPrev, fifo`fifoNext, fifo`timestamp
      ensures Whole() && clock == rtc && fifo == [cf] + Others(old(fifo), k)
      ensures |old(times)| == |old(fifo)| && times == [rtc] + Others(old(times), k)
    {
      hide Tidy;
      TidyHit(fifo, times, k, clock, rtc, freed);
      clock := rtc;
      Touch(cf, rtc, k);
    }

    /** Time has passed. */
    ghost method Pass(rtc: int)
      requires Whole() && clock <= rtc
      modifies `clock
      ensures Whole() && clock == rtc
    {
      hide Tidy;
      TidyLater(fifo, times, clock, rtc, freed);
      clock := rtc;
    }

    /** Puts cf in front of chain a and of the FIFO. */
    method Splice(cf: CachedFile, a: nat, rtc: int)
      requires Fifo() && Bucketed(addr, buckets, chains) && Agree(addr, chains, fifo)
      requires cf.hashPrev == null && cf.hashNext == null && cf !in fifo
      requires cf.f.filename != "" && Find(fifo, cf.f.filename) == |fifo|
        && a == addr(cf.f.filename, |chains|) < |chains|
      modifies `chains, `fifo, `times, `fifoHead, `fifoTail, buckets, fifo`fifoPrev, fifo`hashPrev, cf
      ensures Fifo() && Bucketed(addr, buckets, chains) && Agree(addr, chains, fifo)
      ensures fifo == [cf] + old(fifo) && times == [rtc] + old(times) && |chains| == |old(chains)|
    {
      AgreeAdd(addr, chains, fifo, cf);
      MembersOf(addr, chains, fifo, a);
      Push(cf, a);
      FifoAdd(cf, rtc);
    }

    /** add_Cache up to the check whether the cache is full */
    method Link(cf: CachedFile, a: nat, rtc: int)
      requires Linked()
      requires cf.hashPrev == null && cf.hashNext == null && cf !in fifo
      requires cf.f.filename != "" && Find(fifo, cf.f.filename) == |fifo|
        && a == addr(cf.f.filename, |chains|) < |chains|
      modifies `chains, `fifo, `times, `fifoHead, `fifoTail, `numCached, buckets, fifo`fifoPrev, fifo`hashPrev, cf
      ensures Linked()
      ensures fifo == [cf] + old(fifo) && times == [rtc] + old(times) && numCached == old(numCached) + 1
      ensures |chains| == |old(chains)|
    {
      numCached := numCached + 1;
      Open();
      Splice(cf, a, rtc);
    }

    method LinkAndTrim(cf: CachedFile, a: nat, rtc: int)
      requires Valid() && cf.hashPrev == null && cf.hashNext == null && cf !in fifo && cf.f !in freed && clock <= rtc
      requires cf.f.filename != "" && Find(fifo, cf.f.filename) == |fifo|
        && a == addr(cf.f.filename, |chains|) < |chains|
      modifies `chains, `fifo, `times, `clock, `fifoHead, `fifoTail, `numCached, `freed, buckets, cf
      modifies ([cf] + fifo)`fifoPrev, ([cf] + fifo)`fifoNext, ([cf] + fifo)`hashPrev, ([cf] + fifo)`hashNext
      ensures Valid() && fifo == Capped([cf] + old(fifo), cacheSize)
      ensures times == Capped([rtc] + old(times), cacheSize) && clock == rtc
      ensures freed == old(freed) + Closed(Beyond([cf] + old(fifo), cacheSize))
    {
      assert forall i :: 0 <= i < |fifo| ==> fifo[i] == ([cf] + fifo)[i + 1];
      TidyAdd(fifo, times, cf, clock, rtc, freed);
      clock := rtc;
      Link(cf, a, rtc);
      Trim();
    }

    /** add_Cache: the file goes to the front, and if that is one too many, the entry that was used least recently
        has to go, which is never the new one. */
    method AddCache(f: File, rtc: int) returns (ghost cf: CachedFile?)
      requires Valid() && Find(fifo, f.filename) == |fifo| && f !in freed && clock <= rtc
      modifies `chains, `fifo, `times, `clock, `fifoHead, `fifoTail, `numCached, `freed, buckets
      modifies fifo`fifoPrev, fifo`fifoNext, fifo`hashPrev, fifo`hashNext
      ensures Valid() && clock == rtc
      ensures if cacheSize == 0 || f.filename == ""
        then cf == null && fifo == old(fifo) && times == old(times) && freed == old(freed)
              else && cf != null && fresh(cf) && cf.f == f && fifo == Capped([cf] + old(fifo), cacheSize)
                   && times == Capped([rtc] + old(times), cacheSize)
                   && freed == old(freed) + Closed(Beyond([cf] + old(fifo), cacheSize))
    {
      cf := null;
      if cacheSize == 0 || f.filename == "" {
        Pass(rtc);
        return;
      }
      var n := new CachedFile(f);
      cf := n;
      LinkAndTrim(n, addr(f.filename, cacheSize), rtc);
    }

    /** The check whether the cache is full */
    method Trim()
      requires Whole() && numCached <= cacheSize + 1
      modifies `chains, `fifo, `times, `fifoHead, `fifoTail, `numCached, `freed, buckets
      modifies fifo`fifoPrev, fifo`fifoNext, fifo`hashPrev, fifo`hashNext
      ensures Valid() && fifo == Capped(old(fifo), cacheSize) && times == Capped(old(times), cacheSize)
      ensures freed == old(freed) + Closed(Beyond(old(fifo), cacheSize))
    {
      if numCached > cacheSize {
        DropTail();
      }
    }

    /** remove_Cache_filename(fifo_tail->f->filename) */
    method DropTail()
      requires Whole() && fifo != []
      modifies `chains, `fifo, `times, `fifoHead, `fifoTail, `numCached, `freed, buckets
      modifies fifo`fifoPrev, fifo`fifoNext, fifo`hashPrev, fifo`hashNext
      ensures Whole() && fifo == old(fifo)[..|old(fifo)| - 1] && old(times) != []
        && times == old(times)[..|old(times)| - 1]
      ensures freed == Destroyed(old(freed), old(fifo)[|old(fifo)| - 1].f)
    {
      Open();
      LastOfAll(addr, chains, fifo, times);
      RemoveFilename(fifoTail.f.filename);
    }

    lemma TailTime(t: seq<int>, n: nat)
      requires Whole() && n <= |t| && times == t[..n]
      ensures (fifoTail == null <==> n == 0)
        && (n > 0 ==> fifoTail != null && fifoTail.timestamp == t[..n][n - 1] == t[n - 1])
    {
      Open();
    }

    /** Of the entries s with their times t the first n are left, and all that are gone had expired. */
    ghost predicate Expiring(s: seq<CachedFile>, t: seq<int>, n: nat, limit: int)
      reads this, buckets, fifo`fifoPrev, fifo`fifoNext, fifo`timestamp, All(chains)`hashPrev, All(chains)`hashNext
    {
      Whole() && n <= |s| == |t| && fifo == s[..n] && times == t[..n] && OlderFrom(t, n, limit)
    }

    /** The body of the loop in cache_expire_timerfunc */
    method ExpireTail(ghost s: seq<CachedFile>, ghost t: seq<int>, ghost n: nat, limit: int, ghost before: set<File>)
      requires Expiring(s, t, n, limit) && fifoTail != null && fifoTail.timestamp < limit
        && freed == before + Closed(s[n..])
      modifies `chains, `fifo, `times, `fifoHead, `fifoTail, `numCached, `freed, buckets
      modifies s`fifoPrev, s`fifoNext, s`hashPrev, s`hashNext
      ensures n > 0 && Expiring(s, t, n - 1, limit) && freed == before + Closed(s[n - 1..])
    {
      hide Tidy, AllDiffer, Closed;
      TailTime(t, n);
      OlderStep(s, t, n, limit);
      ClosedStep(s, n - 1);
      DropTail();
    }

    /** cache_expire_timerfunc: although only the tail is looked at, exactly the entries that were used before the limit
        go. */
    method Expire(rtc: int, timeout: int) returns (ghost n: nat)
      requires Valid() && clock <= rtc
      modifies `chains, `fifo, `times, `clock, `fifoHead, `fifoTail, `numCached, `freed, buckets
      modifies fifo`fifoPrev, fifo`fifoNext, fifo`hashPrev, fifo`hashNext
      ensures Valid() && clock == rtc && n <= |old(fifo)| == |old(times)| && fifo == old(fifo)[..n]
        && times == old(times)[..n]
      ensures forall i :: 0 <= i < |old(times)| ==> (i < n <==> old(times)[i] >= rtc - timeout)
      ensures freed == old(freed) + Closed(old(fifo)[n..])
    {
      hide Tidy, Closed, Recent, OlderFrom, AllDiffer;
      ghost var s, t, all := fifo, times, freed;
      var expireTime := rtc - timeout;
      Pass(rtc);
      n := |fifo|;
      assert s[..n] == s && t[..n] == t && s[n..] == [];
      NothingClosed();
      NoneOlder(t, expireTime);
      while fifoTail != null && fifoTail.timestamp < expireTime
        invariant Expiring(s, t, n, expireTime) && buckets == old(buckets) && clock == rtc
        invariant freed == all + Closed(s[n..])
        decreases n
      {
        ExpireTail(s, t, n, expireTime, all);
        n := n - 1;
      }
      TailTime(t, n);
      TidyOpen(s, t, old(clock), all);
      ExpiredExactly(t, n, expireTime, old(clock));
    }

    /** What resize_Cache does with one entry */
    method Rehash(cf: CachedFile, newSize: nat, table: array<CachedFile?>, n: int, ghost t: seq<seq<CachedFile>>,
                  ghost kept: seq<CachedFile>, ghost gone: set<CachedFile>, ghost todo: set<CachedFile>,
                  ghost s: seq<CachedFile>)
      returns (n': int, ghost t': seq<seq<CachedFile>>, ghost kept': seq<CachedFile>, ghost gone': set<CachedFile>)
      requires Fifo() && Bucketed(addr, table, t) && Midway(addr, t, kept, gone, todo, s, fifo)
      requires cf in todo && n == |kept| && newSize == |t| > 0 && Proper(addr)
      modifies `fifo, `times, `fifoHead, `fifoTail, fifo`fifoPrev, fifo`fifoNext, table, cf`hashPrev, cf`hashNext,
        kept`hashPrev
      ensures Fifo() && Bucketed(addr, table, t') && Midway(addr, t', kept', gone', todo - {cf}, s, fifo)
      ensures |t'| == |t| && n' == |kept'| && forall x :: x in kept' ==> x in kept || x == cf
    {
      ghost var a := addr(cf.f.filename, newSize);
      t', kept', gone', n' := t, kept, gone, n;
      Unlinked(cf, table, t, kept, todo, gone, s);
      if n < newSize {
        MidwayKeep(addr, t, kept, gone, todo, s, fifo, cf);
        MembersOf(addr, t, kept, a);
        PushInto(addr, table, cf, addr(cf.f.filename, newSize), t);
        t', kept', n' := t[a := [cf] + t[a]], [cf] + kept, n + 1;
      } else {
        ghost var k: nat :| k < |fifo| && fifo[k] == cf;
        MidwayDrop(addr, t, kept, gone, todo, s, fifo, cf, k);
        FifoRemove(cf, k, table, t);
        gone' := gone + {cf};
      }
    }

    /** cf->hash.prev = cf->hash.next = NULL */
    method Unlinked(cf: CachedFile, ghost table: array<CachedFile?>, ghost t: seq<seq<CachedFile>>,
                    ghost kept: seq<CachedFile>, ghost todo: set<CachedFile>, ghost gone: set<CachedFile>,
                    ghost s: seq<CachedFile>)
      requires Fifo() && Bucketed(addr, table, t) && Midway(addr, t, kept, gone, todo, s, fifo) && cf in todo
      modifies cf`hashPrev, cf`hashNext
      ensures Fifo() && Bucketed(addr, table, t) && cf.hashPrev == null && cf.hashNext == null && cf in fifo
    {
      assert cf !in Elements(kept) && cf in Elements(fifo);
      assert forall i, j :: 0 <= i < |t| && 0 <= j < |t[i]| ==> t[i][j] in kept;
      cf.hashPrev, cf.hashNext := null, null;
      forall i | 0 <= i < |t|
        ensures HashLinked(t[i]) && table[i] == First(t[i])
      {
        assert old(HashLinked(t[i]));
      }
    }

    /** The inner loop of resize_Cache, which goes along old chain i */
    method RehashChain(first: CachedFile?, newSize: nat, table: array<CachedFile?>, n: int,
                       ghost was: seq<seq<CachedFile>>, ghost i: nat, ghost t: seq<seq<CachedFile>>,
                       ghost kept: seq<CachedFile>, ghost gone: set<CachedFile>, ghost s: seq<CachedFile>)
      returns (n': int, ghost t': seq<seq<CachedFile>>, ghost kept': seq<CachedFile>, ghost gone': set<CachedFile>)
      requires Placed(addr, was) && i < |was| && first == First(was[i]) && AllDiffer(was[i]) && NextLinked(was[i], 0)
      requires Fifo() && Bucketed(addr, table, t) && Midway(addr, t, kept, gone, Remaining(was, i, 0), s, fifo)
      requires n == |kept| && newSize == |t| > 0 && Proper(addr)
      modifies `fifo, `times, `fifoHead, `fifoTail, s`fifoPrev, s`fifoNext, table, s`hashPrev, was[i]`hashNext
      ensures Fifo() && Bucketed(addr, table, t') && Midway(addr, t', kept', gone', Remaining(was, i + 1, 0), s, fifo)
      ensures |t'| == |t| && n' == |kept'|
    {
      var cf := first;
      ghost var chain: seq<CachedFile>, p := was[i], 0;
      n', t', kept', gone' := n, t, kept, gone;
      while cf != null
        invariant p <= |chain| && cf == (if p < |chain| then chain[p] else null) && NextLinked(chain, p)
        invariant Fifo() && Bucketed(addr, table, t') && Midway(addr, t', kept', gone', Remaining(was, i, p), s, fifo)
        invariant |t'| == |t| && n' == |kept'|
        decreases |chain| - p
      {
        var next := cf.hashNext;
        RemainingStep(addr, was, i, p);
        MidwayWithin(addr, t', kept', gone', Remaining(was, i, p), s, fifo);
        Separate(chain, p);
        n', t', kept', gone' := Rehash(cf, newSize, table, n', t', kept', gone', Remaining(was, i, p), s);
        cf := next;
        p := p + 1;
      }
      RemainingNext(was, i);
    }

    /** The old chains from i on are still there to be walked along. */
    ghost predicate Pending(first: array<CachedFile?>, was: seq<seq<CachedFile>>, i: nat)
      reads first, All(was)`hashNext
    {
      && first.Length == |was| && Placed(addr, was) && (forall a :: 0 <= a < |was| ==> AllDiffer(was[a]))
      && forall a {:trigger was[a]} :: i <= a < |was| ==> first[a] == First(was[a]) && NextLinked(was[a], 0)
    }

    /** The state of resize_Cache when it comes to old chain i: n entries have been put into the new table. */
    ghost predicate Rehashing(table: array<CachedFile?>, was: seq<seq<CachedFile>>, i: nat, t: seq<seq<CachedFile>>,
                              kept: seq<CachedFile>, gone: set<CachedFile>, s: seq<CachedFile>, n: int)
      reads `fifo, `times, `fifoHead, `fifoTail, fifo`fifoPrev, fifo`fifoNext, fifo`timestamp
      reads table, All(t)`hashPrev, All(t)`hashNext
    {
      && Fifo() && Bucketed(addr, table, t) && Midway(addr, t, kept, gone, Remaining(was, i, 0), s, fifo)
      && n == |kept|
    }

    /** One turn of the outer loop of resize_Cache */
    method RehashNext(first: array<CachedFile?>, newSize: nat, table: array<CachedFile?>, n: int, i: nat,
                      ghost was: seq<seq<CachedFile>>, ghost t: seq<seq<CachedFile>>, ghost kept: seq<CachedFile>,
                      ghost gone: set<CachedFile>, ghost s: seq<CachedFile>)
      returns (n': int, ghost t': seq<seq<CachedFile>>, ghost kept': seq<CachedFile>, ghost gone': set<CachedFile>)
      requires first != table && Pending(first, was, i) && i < |was|
      requires Rehashing(table, was, i, t, kept, gone, s, n) && newSize == |t| > 0 && Proper(addr)
      modifies `fifo, `times, `fifoHead, `fifoTail, s`fifoPrev, s`fifoNext, table, s`hashPrev, was[i]`hashNext
      ensures Pending(first, was, i + 1)
      ensures Rehashing(table, was, i + 1, t', kept', gone', s, n') && |t'| == |t|
    {
      n', t', kept', gone' := RehashChain(first[i], newSize, table, n, was, i, t, kept, gone, s);
      forall a | i + 1 <= a < |was|
        ensures first[a] == First(was[a]) && NextLinked(was[a], 0)
      {
        assert old(NextLinked(was[a], 0));
        assert forall j: nat :: j < |was[a]| ==> addr(was[a][j].f.filename, |was|) == a;
      }
    }

    /** The loops of resize_Cache */
    method RehashAll(table: array<CachedFile?>, newSize: nat)
      returns (n: int, ghost t: seq<seq<CachedFile>>, ghost kept: seq<CachedFile>, ghost gone: set<CachedFile>)
      requires Whole() && table.Length == newSize > 0 && table != buckets
        && forall i :: 0 <= i < newSize ==> table[i] == null
      modifies `fifo, `times, `fifoHead, `fifoTail, table, fifo`fifoPrev, fifo`fifoNext, fifo`hashPrev, fifo`hashNext
      ensures Fifo() && Bucketed(addr, table, t) && Midway(addr, t, kept, gone, {}, old(fifo), fifo)
      ensures |t| == newSize && n == |kept|
    {
      hide AllDiffer, Placed, FifoLinked, Agree, Midway, Bucketed, Stamped, Tidy;
      ghost var was, s := chains, fifo;
      n, t, kept, gone := 0, seq(newSize, _ => []), [], {};
      StartRehashing(table, newSize);
      var i := 0;
      while i < cacheSize
        invariant i <= cacheSize == |was| && Pending(buckets, was, i)
        invariant Rehashing(table, was, i, t, kept, gone, s, n) && |t| == newSize
      {
        n, t, kept, gone := RehashNext(buckets, newSize, table, n, i, was, t, kept, gone, s);
        i := i + 1;
      }
      assert Remaining(was, i, 0) == {};
    }

    lemma StartRehashing(table: array<CachedFile?>, newSize: nat)
      requires Whole() && table.Length == newSize && forall i :: 0 <= i < newSize ==> table[i] == null
      ensures Rehashing(table, chains, 0, seq(newSize, _ => []), [], {}, fifo, 0) && Pending(buckets, chains, 0)
      ensures |chains| == cacheSize && forall i, j :: 0 <= i < |chains| && 0 <= j < |chains[i]| ==> chains[i][j] in fifo
    {
      Open();
      StartPending(chains);
      MidwayStart(addr, chains, fifo, newSize);
      WithinFifo(addr, chains, fifo);
      assert Bucketed(addr, table, seq(newSize, _ => []));
    }

    lemma WithinFifo(addr: Hasher, was: seq<seq<CachedFile>>, fifo: seq<CachedFile>)
      requires Agree(addr, was, fifo)
      ensures forall i, j :: 0 <= i < |was| && 0 <= j < |was[i]| ==> was[i][j] in fifo
    {
    }

    /** resize_Cache to a new size other than 0 */
    method Resize(newSize: nat) returns (ghost gone: set<CachedFile>)
      requires Valid() && newSize > 0
      modifies this, fifo`fifoPrev, fifo`fifoNext, fifo`hashPrev, fifo`hashNext
      ensures Valid() && fresh(buckets) && cacheSize == newSize && clock == old(clock)
      ensures fifo == Survivors(old(fifo), gone) && |fifo| == if |old(fifo)| < newSize then |old(fifo)| else newSize
      ensures |old(times)| == |old(fifo)| && times == SurvivorTimes(old(fifo), old(times), gone)
      ensures freed == old(freed) + FilesGone(old(fifo), gone, old(Closed(fifo)))
    {
      hide Tidy, UniqueNames, SurvivorTimes, Midway, Bucketed, Agree, FifoLinked, Stamped, FilesGone, AllDiffer,
        HashLinked, Placed;
      ghost var s, ts, closed := fifo, times, Closed(fifo);
      Names();
      StampedNow();
      var table := new CachedFile?[newSize](_ => null);
      var n;
      ghost var t, kept;
      n, t, kept, gone := RehashAll(table, newSize);
      MidwayEnd(addr, t, kept, gone, s, fifo);
      TimesLeft(s, ts, gone);
      ghost var more := FilesGone(s, gone, closed);
      TidySurvivors(s, ts, gone, clock, freed, more);
      freed := freed + more;
      Install(table, newSize, n, t);
    }

    lemma StampedNow()
      requires Linked()
      ensures Stamped(fifo, times)
    {
      Open();
    }

    /** The timestamps of those that are left have not changed. */
    lemma {:induction false} TimesLeft(s: seq<CachedFile>, ts: seq<int>, gone: set<CachedFile>)
      requires Stamped(s, ts) && Fifo() && fifo == Survivors(s, gone)
      ensures times == SurvivorTimes(s, ts, gone)
    {
      SurvivorsStamped(s, ts, gone);
      var t := SurvivorTimes(s, ts, gone);
      assert forall i: nat :: i < |times| ==> times[i] == fifo[i].timestamp == t[i];
    }

    /** The end of resize_Cache */
    method Install(table: array<CachedFile?>, newSize: nat, n: int, ghost t: seq<seq<CachedFile>>)
      requires Fifo() && Bucketed(addr, table, t) && Agree(addr, t, fifo)
      requires n == |fifo| <= newSize == |t| && Proper(addr) && Tidy(fifo, times, clock, freed)
      modifies `buckets, `chains, `cacheSize, `numCached
      ensures Valid() && buckets == table && cacheSize == newSize
    {
      hide Tidy, Bucketed, Agree, FifoLinked;
      cacheSize, numCached := newSize, n;
      Enough();
      buckets, chains := table, t;
      Close(t);
    }

    lemma Close(t: seq<seq<CachedFile>>)
      requires Fifo() && Bucketed(addr, buckets, t) && Agree(addr, t, fifo) && chains == t
      ensures Linked() && buckets.Length == |t|
    {
    }

    lemma Enough()
      requires Fifo()
      ensures |times| == |fifo|
    {
    }

    lemma StartPending(was: seq<seq<CachedFile>>)
      requires Whole() && was == chains
      ensures Pending(buckets, was, 0)
    {
      Open();
      forall a | 0 <= a < |was|
        ensures AllDiffer(was[a]) && buckets[a] == First(was[a]) && NextLinked(was[a], 0)
      {
        assert HashLinked(was[a]);
      }
    }
  }

  lemma {:induction false} DropLast(s: seq<CachedFile>)
    requires UniqueNames(s) && s != []
    ensures var filename := s[|s| - 1].f.filename;
      Find(s, filename) == |s| - 1 && WithoutName(s, filename) == s[..|s| - 1]
  {
    FindUnique(s, |s| - 1);
  }

  /** What is left when the entry at the tail is removed by its name. */
  lemma {:induction false} LastOfAll(addr: Hasher, chains: seq<seq<CachedFile>>, fifo: seq<CachedFile>, times: seq<int>)
    requires Agree(addr, chains, fifo) && fifo != [] && |times| == |fifo|
    ensures var filename := fifo[|fifo| - 1].f.filename;
      Find(fifo, filename) == |fifo| - 1 && WithoutName(fifo, filename) == fifo[..|fifo| - 1]
    ensures Others(times, |fifo| - 1) == times[..|fifo| - 1]
  {
    DropLast(fifo);
    OthersLast(times);
  }

  lemma OthersLast<X>(s: seq<X>)
    requires s != []
    ensures Others(s, |s| - 1) == s[..|s| - 1]
  {
  }
}
