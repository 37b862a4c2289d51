/** src/Hash.c: a hash table that keeps a fixed number of slots free by growing and shrinking. */
module HashTable {
  import opened Common

  const HASH_MIN_SIZE := 32
  const HASH_GROW_SIZE := 32

  datatype KVPair<V> = KVPair(key: string, value: V)

  /** The value of hashaddr() as an address in a table of the given size. */
  function Addr(hashaddr: string -> int, key: string, size: nat): (a: nat)
    requires size > 0
    ensures a < size
  {
    var addr := hashaddr(key);
    (if addr < 0 then -addr else addr) % size
  }

  // ---------------------------------------------------------------- what a table means

  /** The values stored under a key, oldest first. */
  ghost function Select<V>(key: string, chain: seq<KVPair<V>>): seq<V> {
    if chain == [] then []
    else (if chain[0].key == key then [chain[0].value] else []) + Select(key, chain[1..])
  }

  lemma {:induction false} SelectConcat<V>(key: string, a: seq<KVPair<V>>, b: seq<KVPair<V>>)
    ensures Select(key, a + b) == Select(key, a) + Select(key, b)
  {
    if a == [] {
      assert a + b == b;
    } else {
      SelectConcat(key, a[1..], b);
      assert (a + b)[0] == a[0] && (a + b)[1..] == a[1..] + b;
      var first := if a[0].key == key then [a[0].value] else [];
      assert first + (Select(key, a[1..]) + Select(key, b)) == (first + Select(key, a[1..])) + Select(key, b);
    }
  }

  lemma {:induction false} SelectNone<V>(key: string, chain: seq<KVPair<V>>)
    requires forall i :: 0 <= i < |chain| ==> chain[i].key != key
    ensures Select(key, chain) == []
  {
    if chain != [] {
      SelectNone(key, chain[1..]);
    }
  }

  /** The first p entries do not have the key. */
  lemma {:induction false} SelectFrom<V>(key: string, chain: seq<KVPair<V>>, p: nat)
    requires p <= |chain| && forall i :: 0 <= i < p ==> chain[i].key != key
    ensures Select(key, chain) == Select(key, chain[p..])
  {
    SelectNone(key, chain[..p]);
    SelectConcat(key, chain[..p], chain[p..]);
    assert chain == chain[..p] + chain[p..];
  }

  /** Without entry p, which is the first with its key: that key loses its oldest value, no other key does. */
  lemma {:induction false} SelectWithout<V>(key: string, chain: seq<KVPair<V>>, p: nat)
    requires p < |chain| && forall i :: 0 <= i < p ==> chain[i].key != chain[p].key
    ensures var s, t := Select(key, chain), Select(key, chain[..p] + chain[p + 1..]);
      if key == chain[p].key then s == [chain[p].value] + t else s == t
  {
    assert chain == chain[..p] + chain[p..];
    SelectConcat(key, chain[..p], chain[p..]);
    SelectConcat(key, chain[..p], chain[p + 1..]);
    assert chain[p..][1..] == chain[p + 1..];
    if key == chain[p].key {
      SelectNone(key, chain[..p]);
    }
  }

  ghost function Lookup<V>(hashaddr: string -> int, t: seq<seq<KVPair<V>>>, key: string): seq<V>
    requires |t| > 0
  {
    Select(key, t[Addr(hashaddr, key, |t|)])
  }

  /** Every entry is in the bucket of its key. */
  ghost predicate Placed<V>(hashaddr: string -> int, t: seq<seq<KVPair<V>>>) {
    |t| > 0 && forall i, j :: 0 <= i < |t| && 0 <= j < |t[i]| ==> Addr(hashaddr, t[i][j].key, |t|) == i
  }

  ghost function Total<V>(t: seq<seq<KVPair<V>>>): nat {
    if t == [] then 0 else Total(t[..|t| - 1]) + |t[|t| - 1]|
  }

  lemma {:induction false} TotalUpdate<V>(t: seq<seq<KVPair<V>>>, i: nat, chain: seq<KVPair<V>>)
    requires i < |t|
    ensures Total(t[i := chain]) == Total(t) - |t[i]| + |chain|
  {
    var n := |t| - 1;
    if i == n {
      assert t[i := chain][..n] == t[..n];
    } else {
      TotalUpdate(t[..n], i, chain);
      assert t[i := chain][..n] == t[..n][i := chain];
    }
  }

  lemma {:induction false} TotalEmpty<V>(t: seq<seq<KVPair<V>>>)
    requires forall i :: 0 <= i < |t| ==> t[i] == []
    ensures Total(t) == 0
  {
    if t != [] {
      TotalEmpty(t[..|t| - 1]);
    }
  }

  // ---------------------------------------------------------------- rehashing

  /** What a lookup finds after p entries of bucket i, and all earlier buckets, have been moved. */
  ghost function SoFar<V>(hashaddr: string -> int, t: seq<seq<KVPair<V>>>, i: nat, p: nat, key: string): seq<V>
    requires |t| > 0 && i <= |t| && (i < |t| ==> p <= |t[i]|)
  {
    var a := Addr(hashaddr, key, |t|);
    if a < i then Select(key, t[a]) else if a == i then Select(key, t[i][..p]) else []
  }

  ghost predicate Moved<V>(hashaddr: string -> int, t: seq<seq<KVPair<V>>>, i: nat, p: nat, t': seq<seq<KVPair<V>>>)
    requires |t| > 0 && |t'| > 0 && i <= |t| && (i < |t| ==> p <= |t[i]|)
  {
    forall key :: Lookup(hashaddr, t', key) == SoFar(hashaddr, t, i, p, key)
  }

  /** add_KVPair on one bucket */
  ghost function Appended<V>(hashaddr: string -> int, t: seq<seq<KVPair<V>>>, kv: KVPair<V>): seq<seq<KVPair<V>>>
    requires |t| > 0
  {
    var a := Addr(hashaddr, kv.key, |t|);
    t[a := t[a] + [kv]]
  }

  lemma LookupAppended<V>(hashaddr: string -> int, t: seq<seq<KVPair<V>>>, kv: KVPair<V>, key: string)
    requires |t| > 0
    ensures Lookup(hashaddr, Appended(hashaddr, t, kv), key)
         == Lookup(hashaddr, t, key) + if key == kv.key then [kv.value] else []
  {
    SelectConcat(key, t[Addr(hashaddr, kv.key, |t|)], [kv]);
  }

  lemma {:induction false} PlacedAppended<V>(hashaddr: string -> int, t: seq<seq<KVPair<V>>>, kv: KVPair<V>)
    requires Placed(hashaddr, t)
    ensures Placed(hashaddr, Appended(hashaddr, t, kv)) && Total(Appended(hashaddr, t, kv)) == Total(t) + 1
  {
    var a := Addr(hashaddr, kv.key, |t|);
    TotalUpdate(t, a, t[a] + [kv]);
  }

  lemma MovedOne<V>(hashaddr: string -> int, t: seq<seq<KVPair<V>>>, i: nat, p: nat, t': seq<seq<KVPair<V>>>)
    requires Placed(hashaddr, t) && i < |t| && p < |t[i]| && |t'| > 0 && Moved(hashaddr, t, i, p, t')
    ensures Moved(hashaddr, t, i, p + 1, Appended(hashaddr, t', t[i][p]))
  {
    var kv := t[i][p];
    forall key
      ensures Lookup(hashaddr, Appended(hashaddr, t', kv), key) == SoFar(hashaddr, t, i, p + 1, key)
    {
      LookupAppended(hashaddr, t', kv, key);
      SelectConcat(key, t[i][..p], [kv]);
      assert t[i][..p + 1] == t[i][..p] + [kv];
      assert Lookup(hashaddr, t', key) == SoFar(hashaddr, t, i, p, key);
    }
  }

  lemma MovedBucket<V>(hashaddr: string -> int, t: seq<seq<KVPair<V>>>, i: nat, t': seq<seq<KVPair<V>>>)
    requires i < |t| && |t'| > 0 && Moved(hashaddr, t, i, |t[i]|, t')
    ensures Moved(hashaddr, t, i + 1, 0, t')
  {
    assert t[i][..|t[i]|] == t[i];
    forall key
      ensures Lookup(hashaddr, t', key) == SoFar(hashaddr, t, i + 1, 0, key)
    {
      assert Lookup(hashaddr, t', key) == SoFar(hashaddr, t, i, |t[i]|, key);
      assert i + 1 < |t| ==> Select(key, t[i + 1][..0]) == [];
    }
  }

  // ---------------------------------------------------------------- the table

  class Hash<V> {
    var size: nat
    var num: int
    var hash: array<seq<KVPair<V>>>  // each bucket is a list, in the order of add_KVPair
    const hashaddr: string -> int

    ghost predicate Coherent()
      reads this, hash
    {
      hash.Length == size && Placed(hashaddr, hash[..]) && num == Total(hash[..])
    }

    /** What holds between any two calls. */
    ghost predicate Valid()
      reads this, hash
    {
      && Coherent() && size % HASH_GROW_SIZE == 0 && size >= HASH_MIN_SIZE
      && HASH_GROW_SIZE / 2 <= size - num <= HASH_GROW_SIZE + HASH_GROW_SIZE / 2
    }

    ghost function Values(key: string): seq<V>
      requires hash.Length > 0
      reads this, hash
    {
      Lookup(hashaddr, hash[..], key)
    }

    /** new_Hash */
    constructor (hashaddr: string -> int)
      ensures Valid() && fresh(hash) && this.hashaddr == hashaddr && forall key :: Values(key) == []
    {
      this.hashaddr := hashaddr;
      size, num := HASH_MIN_SIZE, 0;
      hash := new seq<KVPair<V>>[HASH_MIN_SIZE](_ => []);
      new;
      TotalEmpty(hash[..]);
    }

    /** add_KVPair on the bucket of the key */
    static method Append(hashaddr: string -> int, kv: KVPair<V>, size: nat, table: array<seq<KVPair<V>>>)
      requires table.Length == size > 0
      modifies table
      ensures table[..] == Appended(hashaddr, old(table[..]), kv)
    {
      var addr := Addr(hashaddr, kv.key, size);
      table[addr] := table[addr] + [kv];
    }

    /** The inner loop of resize_Hash: the entries of bucket i go to the new table one by one. */
    method MoveBucket(i: nat, newsize: nat, table: array<seq<KVPair<V>>>)
      requires Coherent() && i < size && table != hash && table.Length == newsize > 0
      requires Placed(hashaddr, table[..]) && Moved(hashaddr, hash[..], i, 0, table[..])
      modifies table
      ensures Placed(hashaddr, table[..]) && Moved(hashaddr, hash[..], i + 1, 0, table[..])
      ensures Total(table[..]) == old(Total(table[..])) + |hash[i]|
    {
      ghost var t, n := hash[..], Total(table[..]);
      var p := 0;
      while p < |hash[i]|
        invariant 0 <= p <= |t[i]| && hash[..] == t
        invariant Placed(hashaddr, table[..]) && Moved(hashaddr, t, i, p, table[..]) && Total(table[..]) == n + p
      {
        MovedOne(hashaddr, t, i, p, table[..]);
        PlacedAppended(hashaddr, table[..], t[i][p]);
        Append(hashaddr, hash[i][p], newsize, table);
        p := p + 1;
      }
      MovedBucket(hashaddr, t, i, table[..]);
    }

    /** resize_Hash */
    method Resize(newsize0: int)
      requires Coherent()
      modifies this`hash, this`size
      ensures Coherent() && size == (if newsize0 < HASH_MIN_SIZE then HASH_MIN_SIZE else newsize0) && num == old(num)
      ensures hash == old(hash) || fresh(hash)
      ensures forall key :: Values(key) == old(Values(key))
    {
      var newsize := if newsize0 < HASH_MIN_SIZE then HASH_MIN_SIZE else newsize0;
      if newsize == size {
        return;
      }
      var table := new seq<KVPair<V>>[newsize](_ => []);
      ghost var t := hash[..];
      TotalEmpty(table[..]);
      var i := 0;
      while i < size
        invariant 0 <= i <= size == |t| && hash[..] == t && hash == old(hash) && Coherent() && num == old(num)
        invariant Placed(hashaddr, table[..]) && Moved(hashaddr, t, i, 0, table[..])
          && Total(table[..]) == Total(t[..i])
      {
        MoveBucket(i, newsize, table);
        assert t[..i + 1][..i] == t[..i];
        i := i + 1;
      }
      assert t[..size] == t;
      assert forall key ::
        Lookup(hashaddr, table[..], key) == SoFar(hashaddr, t, size, 0, key) == Lookup(hashaddr, t, key);
      hash := table;
      size := newsize;
    }

    /** add_Hash. An empty key would be stored as a null pointer (KVPair.c:135-136), which hashaddr() and strcmp()
        cannot take. */
    method Add(key: string, value: V)
      requires Valid() && key != ""
      modifies this, hash
      ensures Valid() && (hash == old(hash) || fresh(hash)) && num == old(num) + 1
      ensures size == if old(size) - num <= 16 then old(size) + 32 else old(size)
      ensures forall k :: Values(k) == old(Values(k)) + if k == key then [value] else []
    {
      var kv := KVPair(key, value);
      ghost var t := hash[..];
      PlacedAppended(hashaddr, t, kv);
      forall k
        ensures Lookup(hashaddr, Appended(hashaddr, t, kv), k)
             == Lookup(hashaddr, t, k) + if k == key then [value] else []
      {
        LookupAppended(hashaddr, t, kv, k);
      }
      Append(hashaddr, kv, size, hash);
      num := num + 1;
      if size - num <= HASH_GROW_SIZE / 2 {
        Resize(size + HASH_GROW_SIZE);
      }
    }

    /** The position of the first entry with this key, or the length of the chain. */
    static method Find(key: string, chain: seq<KVPair<V>>) returns (p: nat)
      ensures p <= |chain| && (p < |chain| ==> chain[p].key == key)
      ensures forall i :: 0 <= i < p ==> chain[i].key != key
    {
      p := 0;
      while p < |chain|
        invariant p <= |chain| && forall i :: 0 <= i < p ==> chain[i].key != key
      {
        if chain[p].key == key {
          return;
        }
        p := p + 1;
      }
    }

    /** Entry p of bucket addr goes; it is the first one with its key. */
    method Drop(addr: nat, p: nat)
      requires Coherent() && addr < size && p < |hash[addr]|
        && forall i :: 0 <= i < p ==> hash[addr][i].key != hash[addr][p].key
      modifies `num, hash
      ensures Coherent() && num == old(num) - 1 && num >= 0
      ensures forall k :: old(Values(k)) == if k == old(hash[addr][p].key)
        then [old(hash[addr][p].value)] + Values(k) else Values(k)
    {
      ghost var t := hash[..];
      TakeOut(hashaddr, t, addr, p);
      hash[addr] := hash[addr][..p] + hash[addr][p + 1..];
      num := num - 1;
      assert hash[..] == t[addr := t[addr][..p] + t[addr][p + 1..]];
    }

    /** The end of remove_Hash */
    method Shrink()
      requires Coherent() && num >= 0 && size % HASH_GROW_SIZE == 0 && size >= HASH_MIN_SIZE
      requires HASH_GROW_SIZE / 2 <= size - num <= HASH_GROW_SIZE + HASH_GROW_SIZE / 2 + 1
      modifies this`hash, this`size
      ensures Valid() && (hash == old(hash) || fresh(hash)) && forall k :: Values(k) == old(Values(k))
      ensures size == if old(size) - num >= 48 && old(size) >= 64 then old(size) - 32 else old(size)
    {
      hide Placed, Total, Lookup;
      if size - num >= HASH_GROW_SIZE + HASH_GROW_SIZE / 2 {
        Resize(size - HASH_GROW_SIZE);
      }
    }

    /** remove_Hash: the oldest value of the key goes, if there is one. The repair of a negative num is dead. */
    method Remove(key: string)
      requires Valid()
      modifies this, hash
      ensures Valid() && (hash == old(hash) || fresh(hash))
      ensures num == if key == "" || old(Values(key)) == [] then old(num) else old(num) - 1
      ensures size == if num < old(num) && old(size) - num >= 48 && old(size) >= 64 then old(size) - 32 else old(size)
      ensures forall k :: Values(k) == var s := old(Values(k)); if k == key && key != "" && s != [] then s[1..] else s
    {
      hide Placed, Total;
      if key == "" {
        return;
      }
      var addr := Addr(hashaddr, key, size);
      var p := Find(key, hash[addr]);
      if p < |hash[addr]| {
        Drop(addr, p);
        assert old(Values(key)) == [old(hash[addr][p].value)] + Values(key);
        Shrink();
      } else {
        SelectNone(key, hash[addr]);
      }
    }

    /** in_Hash: the oldest value that has not been removed. */
    method In(key: string) returns (value: Option<V>)
      requires Valid()
      ensures value == if key == "" || Values(key) == [] then None else Some(Values(key)[0])
    {
      if key == "" {
        return None;
      }
      var addr := Addr(hashaddr, key, size);
      var p := Find(key, hash[addr]);
      SelectFrom(key, hash[addr], p);
      value := if p < |hash[addr]| then Some(hash[addr][p].value) else None;
    }
  }

  lemma TakeOut<V>(hashaddr: string -> int, t: seq<seq<KVPair<V>>>, a: nat, p: nat)
    requires Placed(hashaddr, t) && a < |t| && p < |t[a]|
    requires forall i :: 0 <= i < p ==> t[a][i].key != t[a][p].key
    ensures var t' := t[a := t[a][..p] + t[a][p + 1..]];
      && Placed(hashaddr, t') && Total(t') == Total(t) - 1
      && forall k :: Lookup(hashaddr, t, k) ==
           if k == t[a][p].key then [t[a][p].value] + Lookup(hashaddr, t', k) else Lookup(hashaddr, t', k)
  {
    var chain := t[a][..p] + t[a][p + 1..];
    var t' := t[a := chain];
    TotalUpdate(t, a, chain);
    forall k
      ensures Lookup(hashaddr, t, k) == if k == t[a][p].key
        then [t[a][p].value] + Lookup(hashaddr, t', k) else Lookup(hashaddr, t', k)
    {
      SelectWithout(k, t[a], p);
      assert Addr(hashaddr, t[a][p].key, |t|) == a;
    }
  }
}
