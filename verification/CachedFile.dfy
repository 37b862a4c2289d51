/** Fopen, Fcreate, Fclose, Fcancel and unlink_file of src/CachedFile.c, over a cache of any size. */
module CachedFiles {
  import opened Common
  import opened FileCache

  /** What is on disk: the contents of each file. */
  type Disk = map<string, string>

  /** The disk has just what is in memory. */
  ghost predicate InStep(f: File, disk: Disk)
    reads f
  {
    f.filename in disk && disk[f.filename] == f.data
  }

  /** A cached file that is not open is clean and in step with the disk; one that is open is in step unless it has
      been written to, or made by Fcreate. */
  ghost predicate Sane(f: File, disk: Disk)
    reads f
  {
    && (!f.open ==> !f.dirty && !f.created && InStep(f, disk))
    && (f.open && !f.dirty ==> if f.created then f.data == "" else InStep(f, disk))
  }

  ghost predicate AllSane(fifo: seq<CachedFile>, disk: Disk)
    reads set i | 0 <= i < |fifo| :: fifo[i].f
  {
    forall i {:trigger fifo[i]} :: 0 <= i < |fifo| ==> Sane(fifo[i].f, disk)
  }

  /** Entries that are taken out or moved leave the others as sane as they were. */
  lemma SaneOthers(s: seq<CachedFile>, k: nat, disk: Disk)
    requires k < |s| && AllSane(s, disk)
    ensures AllSane(Others(s, k), disk) && AllSane([s[k]] + Others(s, k), disk)
    ensures forall i {:trigger ([s[k]] + Others(s, k))[i]} :: 0 <= i < |s| ==> ([s[k]] + Others(s, k))[i] in s
  {
    var t := Others(s, k);
    forall i | 0 <= i < |t|
      ensures Sane(t[i].f, disk)
    {
      assert t[i] == s[if i < k then i else i + 1];
    }
  }

  lemma SaneWithin(s: seq<CachedFile>, t: seq<CachedFile>, disk: Disk)
    requires AllSane(s, disk) && forall i {:trigger t[i]} :: 0 <= i < |t| ==> t[i] in s
    ensures AllSane(t, disk)
  {
  }

  lemma SaneFront(cf: CachedFile, s: seq<CachedFile>, n: nat, disk: Disk)
    requires AllSane(s, disk) && Sane(cf.f, disk) && n > 0
    ensures AllSane(Capped([cf] + s, n), disk) && Capped([cf] + s, n)[0] == cf
    ensures forall i {:trigger Capped([cf] + s, n)[i]} :: 0 < i < |Capped([cf] + s, n)| ==> Capped([cf] + s, n)[i] in s
  {
    var t := Capped([cf] + s, n);
    assert forall i: nat :: i < |t| ==> t[i] == if i == 0 then cf else s[i - 1];
  }

  // ---------------------------------------------------------------- a machine without a cache

  /** An open file: what is in it, whether it has to be saved, and whether it is new and nothing has been written yet */
  datatype Handle = Handle(filename: string, data: string, dirty: bool, unwritten: bool)

  type Handles = map<nat, Handle>

  datatype Action =
    | Opening(h: nat, filename: string)
    | Creating(h: nat, filename: string)
    | Reading(h: nat)
    | Rewriting(h: nat, data: string)
    | Closing(h: nat, ioOk: bool)
    | Cancelling(h: nat)
    | Unlinking(filename: string)
    | Expiring(timeout: int)
    | Resizing(newSize: nat)

  datatype Event = Event(rtc: int, action: Action)

  datatype Machine = Machine(disk: Disk, handles: Handles, clock: int)

  datatype Reply = Text(data: string) | Code(err: int)

  ghost predicate NotOpen(hs: Handles, filename: string) {
    forall h :: h in hs ==> hs[h].filename != filename
  }

  /** The clock does not go back, no file is opened a second time while it is open, and what has been created is written
      to before it is closed. */
  ghost predicate Legal(m: Machine, e: Event) {
    && m.clock <= e.rtc
    && match e.action
       case Opening(h, filename) => h !in m.handles && NotOpen(m.handles, filename)
       case Creating(h, filename) => h !in m.handles && NotOpen(m.handles, filename)
       case Reading(h) => h in m.handles
       case Rewriting(h, _) => h in m.handles
       case Closing(h, _) => h in m.handles && !m.handles[h].unwritten
       case Cancelling(h) => h in m.handles
       case Unlinking(_) => true
       case Expiring(_) => true
       case Resizing(newSize) => newSize > 0
  }

  ghost predicate MustSave(hd: Handle) {
    hd.dirty && hd.filename != ""
  }

  /** Saving fails if the disk does, and for a file that is empty. */
  ghost predicate Fails(hd: Handle, ioOk: bool) {
    MustSave(hd) && !(ioOk && hd.data != "")
  }

  /** What is read, or whether it went well */
  ghost function Answer(m: Machine, e: Event): Reply
    requires Legal(m, e)
  {
    match e.action
    case Opening(_, filename) => Code(if filename in m.disk then 0 else -1)
    case Reading(h) => Text(m.handles[h].data)
    case Closing(h, ioOk) => Code(if Fails(m.handles[h], ioOk) then -1 else 0)
    case Unlinking(filename) => Code(if filename in m.disk then 0 else -1)
    case _ => Code(0)
  }

  ghost function Effect(m: Machine, e: Event): Machine
    requires Legal(m, e)
  {
    var hs := m.handles;
    match e.action
    case Opening(h, filename) =>
      if filename in m.disk then Machine(m.disk, hs[h := Handle(filename, m.disk[filename], false, false)], e.rtc)
      else Machine(m.disk, hs, e.rtc)
    case Creating(h, filename) => Machine(m.disk, hs[h := Handle(filename, "", false, true)], e.rtc)
    case Reading(_) => Machine(m.disk, hs, e.rtc)
    case Rewriting(h, data) => Machine(m.disk, hs[h := Handle(hs[h].filename, data, true, false)], e.rtc)
    case Closing(h, ioOk) =>
      if Fails(hs[h], ioOk) then Machine(m.disk, hs, e.rtc)
      else Machine(if MustSave(hs[h]) then m.disk[hs[h].filename := hs[h].data] else m.disk, hs - {h}, e.rtc)
    case Cancelling(h) => Machine(m.disk, hs - {h}, e.rtc)
    case Unlinking(filename) => Machine(m.disk - {filename}, hs, e.rtc)
    case Expiring(_) => Machine(m.disk, hs, e.rtc)
    case Resizing(_) => Machine(m.disk, hs, e.rtc)
  }

  ghost predicate LegalRun(m: Machine, es: seq<Event>)
    decreases |es|
  {
    es == [] || (Legal(m, es[0]) && LegalRun(Effect(m, es[0]), es[1..]))
  }

  ghost function Answers(m: Machine, es: seq<Event>): seq<Reply>
    requires LegalRun(m, es)
    decreases |es|
  {
    if es == [] then [] else [Answer(m, es[0])] + Answers(Effect(m, es[0]), es[1..])
  }

  ghost function Effects(m: Machine, es: seq<Event>): Machine
    requires LegalRun(m, es)
    decreases |es|
  {
    if es == [] then m else Effects(Effect(m, es[0]), es[1..])
  }

  /** No event of the run writes to handle h or gives it up. */
  ghost predicate LeavesHandle(es: seq<Event>, h: nat) {
    forall i :: 0 <= i < |es| ==>
      match es[i].action
      case Rewriting(k, _) => k != h
      case Closing(k, _) => k != h
      case Cancelling(k) => k != h
      case _ => true
  }

  /** No event of the run opens, creates or unlinks a file of this name. */
  ghost predicate LeavesName(es: seq<Event>, filename: string) {
    forall i :: 0 <= i < |es| ==>
      match es[i].action
      case Opening(_, name) => name != filename
      case Creating(_, name) => name != filename
      case Unlinking(name) => name != filename
      case _ => true
  }

  lemma {:induction false} HandleStays(m: Machine, es: seq<Event>, h: nat)
    requires LegalRun(m, es) && LeavesHandle(es, h) && h in m.handles
    ensures h in Effects(m, es).handles && Effects(m, es).handles[h] == m.handles[h]
    decreases |es|
  {
    if es != [] {
      assert LeavesHandle([es[0]], h) && LeavesHandle(es[1..], h);
      HandleStays(Effect(m, es[0]), es[1..], h);
    }
  }

  lemma {:induction false} NameStays(m: Machine, es: seq<Event>, filename: string)
    requires LegalRun(m, es) && LeavesName(es, filename) && NotOpen(m.handles, filename)
    ensures var n := Effects(m, es);
      && NotOpen(n.handles, filename) && (filename in n.disk <==> filename in m.disk)
      && (filename in m.disk ==> n.disk[filename] == m.disk[filename])
    decreases |es|
  {
    if es != [] {
      assert LeavesName([es[0]], filename) && LeavesName(es[1..], filename);
      NameStays(Effect(m, es[0]), es[1..], filename);
    }
  }

  lemma {:induction false} NamesStayApart(m: Machine, es: seq<Event>)
    requires LegalRun(m, es) && NamesDiffer(m.handles)
    ensures NamesDiffer(Effects(m, es).handles)
    decreases |es|
  {
    if es != [] {
      NamesStayApart(Effect(m, es[0]), es[1..]);
    }
  }

  /** What such a machine promises: what has been written to a file and saved is what is read after the next time
      that it is opened, whatever is done with other files in the meantime. */
  lemma SavedComesBack(m: Machine, e: Event, es1: seq<Event>, close: Event, es2: seq<Event>, open: Event,
                       es3: seq<Event>, h: nat, k: nat, data: string, filename: string)
    requires NamesDiffer(m.handles) && h in m.handles && m.handles[h].filename == filename != "" && data != ""
    requires e.action == Rewriting(h, data) && close.action == Closing(h, true) && open.action == Opening(k, filename)
    requires Legal(m, e) && LegalRun(Effect(m, e), es1) && LeavesHandle(es1, h)
    requires var m1 := Effects(Effect(m, e), es1);
      && Legal(m1, close) && LegalRun(Effect(m1, close), es2) && LeavesName(es2, filename)
      && var m2 := Effects(Effect(m1, close), es2);
      Legal(m2, open) && LegalRun(Effect(m2, open), es3) && LeavesHandle(es3, k)
    ensures var m2 := Effects(Effect(Effects(Effect(m, e), es1), close), es2);
      && Answer(m2, open) == Code(0)
      && var m3 := Effects(Effect(m2, open), es3);
      forall rtc :: rtc >= m3.clock ==>
        Legal(m3, Event(rtc, Reading(k))) && Answer(m3, Event(rtc, Reading(k))) == Text(data)
  {
    HandleStays(Effect(m, e), es1, h);
    NamesStayApart(Effect(m, e), es1);
    var m1 := Effects(Effect(m, e), es1);
    NameStays(Effect(m1, close), es2, filename);
    var m2 := Effects(Effect(m1, close), es2);
    HandleStays(Effect(m2, open), es3, k);
  }

  /** Nothing but closing and unlinking a file changes what is on disk, and just for this file. */
  lemma DiskChanges(m: Machine, e: Event, filename: string)
    requires Legal(m, e)
    requires e.action != Unlinking(filename)
    requires e.action.Closing? ==> m.handles[e.action.h].filename != filename
    ensures var d, d' := m.disk, Effect(m, e).disk;
      (filename in d <==> filename in d') && (filename in d ==> d[filename] == d'[filename])
  {
  }

  /** And what has been unlinked cannot be opened until it is created again. */
  lemma UnlinkedIsGone(m: Machine, e: Event, es: seq<Event>, open: Event, h: nat, filename: string)
    requires NotOpen(m.handles, filename) && e.action == Unlinking(filename) && open.action == Opening(h, filename)
    requires Legal(m, e) && LegalRun(Effect(m, e), es) && LeavesName(es, filename)
    requires Legal(Effects(Effect(m, e), es), open)
    ensures Answer(Effects(Effect(m, e), es), open) == Code(-1)
  {
    NameStays(Effect(m, e), es, filename);
  }

  // ---------------------------------------------------------------- open files and the cache

  /** A file in memory is what the machine without a cache has open. */
  ghost predicate FileFits(f: File, hd: Handle)
    reads f
  {
    && f.open && f.filename == hd.filename && f.data == hd.data
    && (!hd.unwritten ==> f.dirty == hd.dirty && (!f.dirty ==> !f.created))
  }

  ghost predicate NamesDiffer(hs: Handles) {
    forall h, k :: h in hs && k in hs && h != k ==> hs[h].filename != hs[k].filename
  }

  ghost predicate HandlesFit(files: map<nat, File>, hs: Handles)
    reads files.Values
  {
    files.Keys == hs.Keys && NamesDiffer(hs) && forall h :: h in files ==> FileFits(files[h], hs[h])
  }

  /** A cached file that is open is one of these, and no other one of these has its name. */
  ghost predicate EntryFits(g: File, files: map<nat, File>)
    reads g`open
  {
    && (g.open ==> exists h :: h in files && files[h] == g)
    && forall h :: h in files && files[h].filename == g.filename ==> files[h] == g
  }

  ghost predicate EntriesFit(s: seq<CachedFile>, files: map<nat, File>)
    reads (set i | 0 <= i < |s| :: s[i].f)`open
  {
    forall i {:trigger s[i]} :: 0 <= i < |s| ==> EntryFits(s[i].f, files)
  }

  /** All but those for file f */
  ghost predicate OthersFit(s: seq<CachedFile>, files: map<nat, File>, f: File?)
    reads (set i | 0 <= i < |s| && s[i].f != f :: s[i].f)`open
  {
    forall i {:trigger s[i]} :: 0 <= i < |s| && s[i].f != f ==> EntryFits(s[i].f, files)
  }

  ghost predicate Covers(repr: set<object>, s: seq<CachedFile>) {
    forall i {:trigger s[i]} :: 0 <= i < |s| ==> s[i] in repr && s[i].f in repr
  }

  /** None of these has been freed. */
  ghost predicate Alive(files: map<nat, File>, freed: set<File>) {
    forall h :: h in files ==> files[h] !in freed
  }

  lemma EntriesWithin(s: seq<CachedFile>, t: seq<CachedFile>, files: map<nat, File>)
    requires EntriesFit(s, files) && forall i {:trigger t[i]} :: 0 <= i < |t| ==> t[i] in s
    ensures EntriesFit(t, files)
  {
  }

  class Store {
    const cache: Cache
    var disk: Disk

    ghost predicate Valid()
      reads `disk, cache, cache.buckets, cache.fifo, All(cache.chains), set i | 0 <= i < |cache.fifo| :: cache.fifo[i].f
    {
      cache.Valid() && AllSane(cache.fifo, disk) && "" !in disk
    }

    constructor (cache: Cache, disk: Disk)
      requires cache.Valid() && cache.fifo == [] && "" !in disk
      ensures Ready(map[], map[], {this, cache, cache.buckets}) && this.cache == cache
        && Now(map[]) == Machine(disk, map[], cache.clock)
    {
      this.cache, this.disk := cache, disk;
    }

    /** The state of a machine without a cache that has hs open */
    ghost function Now(hs: Handles): Machine
      reads this, cache
    {
      Machine(disk, hs, cache.clock)
    }

    /** What holds between two events: the cache is in step with the disk, the files that are open are what the machine
        without a cache has open, and none of them has been freed. Everything belongs to repr. */
    ghost predicate Ready(files: map<nat, File>, hs: Handles, repr: set<object>)
      reads this, cache, cache.buckets, cache.fifo, All(cache.chains), files.Values,
        set i | 0 <= i < |cache.fifo| :: cache.fifo[i].f
    {
      && Valid() && Owned(files, repr, cache.fifo) && HandlesFit(files, hs)
      && EntriesFit(cache.fifo, files) && Alive(files, cache.freed)
    }

    ghost predicate Owned(files: map<nat, File>, repr: set<object>, s: seq<CachedFile>)
      reads cache
    {
      {this, cache, cache.buckets} <= repr && (forall h :: h in files ==> files[h] in repr) && Covers(repr, s)
    }

    /** No open file has been freed since. */
    ghost predicate Spared(before: set<File>)
      reads cache, cache.freed`open
    {
      before <= cache.freed && forall f :: f in cache.freed ==> f in before || !f.open
    }

    /** The file that the cache holds under this name */
    ghost function Cached(filename: string): File?
      reads cache
    {
      var k := Find(cache.fifo, filename);
      if k < |cache.fifo| then cache.fifo[k].f else null
    }

    /** Apart from entries of s the cache has at most the entry cf, which is for file f. */
    ghost predicate Grown(s: seq<CachedFile>, cf: CachedFile?, f: File?)
      reads cache
    {
      && (cf != null ==> cf.f == f)
      && forall i {:trigger cache.fifo[i]} :: 0 <= i < |cache.fifo| ==> cache.fifo[i] in s || cache.fifo[i] == cf
    }

    /** remove_Cache_filename */
    method Forget(filename: string)
      requires Valid()
      modifies cache, cache.buckets, cache.fifo
      ensures Valid() && cache.fifo == WithoutName(old(cache.fifo), filename)
      ensures cache.buckets == old(cache.buckets) && cache.clock == old(cache.clock) && Spared(old(cache.freed))
    {
      hide AllDiffer, UniqueNames, Sane, Agree, Stamped, Recent, Tidy, FifoLinked;
      ghost var s := cache.fifo;
      if Find(s, filename) < |s| {
        SaneOthers(s, Find(s, filename), disk);
      }
      cache.RemoveFilename(filename);
    }

    /** in_Cache, which keeps the cache sane as well */
    method Hit(filename: string, rtc: int) returns (cf: CachedFile?)
      requires Valid() && cache.clock <= rtc
      modifies cache, cache.fifo
      ensures Valid() && (if cf == null
        then Cached(filename) == null else cf.f == Cached(filename) == old(Cached(filename)))
      ensures if cf == null then cache.fifo == old(cache.fifo) && old(Cached(filename)) == null
              else && cf in old(cache.fifo) && cf.f.filename == filename
                   && cache.fifo == [cf] + Others(old(cache.fifo), Find(old(cache.fifo), filename))
      ensures cache.buckets == old(cache.buckets) && cache.cacheSize == old(cache.cacheSize)
      ensures Grown(old(cache.fifo), null, null) && cache.clock == rtc && cache.freed == old(cache.freed)
    {
      hide AllDiffer, UniqueNames, Sane;
      ghost var s := cache.fifo;
      if Find(s, filename) < |s| {
        SaneOthers(s, Find(s, filename), disk);
      }
      cf := cache.InCache(filename, rtc);
    }

    /** f->flags |= FILE_OPEN on a cache hit */
    method Reopen(f: File)
      requires Valid() && Cached(f.filename) == f
      modifies f`open
      ensures Valid() && f.open && (!old(f.open) ==> !f.dirty && !f.created && InStep(f, disk))
    {
      assert Sane(f, disk) by {
        assert f == cache.fifo[Find(cache.fifo, f.filename)].f;
      }
      f.open := true;
    }

    /** new_File and load_StringIO; null if there is no such file */
    method Load(filename: string) returns (f: File?)
      requires Valid()
      ensures Valid() && (f != null <==> filename in disk)
      ensures f != null ==>
        fresh(f) && f.filename == filename && f.open && !f.dirty && !f.created && f.data == disk[filename]
    {
      hide Sane, AllDiffer, UniqueNames, Agree, Stamped, Recent;
      if filename !in disk {
        return null;
      }
      var n := new File(filename);
      n.data, n.created, n.open := disk[filename], false, true;
      f := n;
    }

    /** Fopen. If the cached file of this name is open already, which the source reports as a bug, its user has to share
        it. */
    method Fopen(filename: string, rtc: int) returns (f: File?, ghost cf: CachedFile?)
      requires Valid() && cache.clock <= rtc
      modifies cache, cache.buckets, cache.fifo
      modifies (if Cached(filename) == null then {} else {Cached(filename)})`open
      ensures Valid() && (f != null <==>
        filename in disk || (old(Cached(filename)) != null && old(Cached(filename).open)))
      ensures f != null ==>
        f.filename == filename && f.open && Cached(filename) == if cache.cacheSize == 0 then null else f
      ensures f != null && (old(Cached(filename)) == null || !old(Cached(filename).open)) ==>
        !f.dirty && !f.created && f.data == disk[filename]
      ensures if old(Cached(filename)) == null then f == null || fresh(f) else f == old(Cached(filename))
      ensures Grown(old(cache.fifo), cf, f) && (cf != null ==> fresh(cf))
      ensures cache.buckets == old(cache.buckets) && cache.clock == rtc && Spared(old(cache.freed))
    {
      cf := null;
      var hit := Hit(filename, rtc);
      if hit != null {
        f := hit.f;
        Reopen(f);
      } else {
        f := Load(filename);
        if f != null {
          cf := Keep(f, rtc);
        }
      }
    }

    /** add_Cache, which keeps the cache sane as well */
    method Keep(f: File, rtc: int) returns (ghost cf: CachedFile?)
      requires Valid() && Cached(f.filename) == null && Sane(f, disk) && f !in cache.freed && cache.clock <= rtc
      modifies cache, cache.buckets, cache.fifo
      ensures Valid() && Cached(f.filename) == if cache.cacheSize == 0 || f.filename == "" then null else f
      ensures Grown(old(cache.fifo), cf, f) && (cf != null ==> fresh(cf))
      ensures cache.buckets == old(cache.buckets) && cache.cacheSize == old(cache.cacheSize) && cache.clock == rtc
      ensures Spared(old(cache.freed))
    {
      hide AllDiffer, UniqueNames, Agree, Stamped, Recent, Find, Sane;
      ghost var s := cache.fifo;
      cf := cache.AddCache(f, rtc);
      if cf != null {
        SaneFront(cf, s, cache.cacheSize, disk);
      }
    }

    /** Fcreate on a cache hit: the file is emptied and marked for saving. */
    method Truncate(f: File)
      requires Valid() && Cached(f.filename) == f
      modifies f`open, f`dirty, f`data
      ensures Valid() && f.open && f.dirty && f.data == ""
    {
      hide AllDiffer, UniqueNames, Agree, Stamped, Recent, Find;
      f.open, f.dirty, f.data := true, true, "";
    }

    /** Fcreate on a miss: this file is not marked for saving. */
    method Create(filename: string) returns (f: File)
      requires Valid()
      ensures Valid() && fresh(f) && f.filename == filename && f.open && !f.dirty && f.created && f.data == ""
    {
      hide Sane, AllDiffer, UniqueNames, Agree, Stamped, Recent;
      f := new File(filename);
      f.open := true;
    }

    /** Fcreate */
    method Fcreate(filename: string, rtc: int) returns (f: File, ghost cf: CachedFile?)
      requires Valid() && cache.clock <= rtc
      modifies cache, cache.buckets, cache.fifo
      modifies (if Cached(filename) == null then {} else {Cached(filename)})`open
      modifies (if Cached(filename) == null then {} else {Cached(filename)})`dirty
      modifies (if Cached(filename) == null then {} else {Cached(filename)})`data
      ensures Valid() && f.filename == filename && f.open && f.data == "" && f.dirty == (old(Cached(filename)) != null)
      ensures Cached(filename) == if cache.cacheSize == 0 || filename == "" then null else f
      ensures if old(Cached(filename)) == null then fresh(f) else f == old(Cached(filename))
      ensures Grown(old(cache.fifo), cf, f) && (cf != null ==> fresh(cf))
      ensures cache.buckets == old(cache.buckets) && cache.clock == rtc && Spared(old(cache.freed))
    {
      NoEmpty();
      cf := null;
      var hit := Hit(filename, rtc);
      if hit != null {
        f := hit.f;
        Truncate(f);
      } else {
        f := Create(filename);
        cf := Keep(f, rtc);
      }
    }

    /** Any of the functions that write to an open file */
    method Put(f: File, data: string)
      requires Valid() && f.open
      modifies f`data, f`dirty
      ensures Valid() && f.dirty && f.data == data
    {
      f.dirty := true;
      f.data := data;
    }

    /** The other cached files have other names. */
    lemma OtherNames(f: File)
      requires Valid() && (Cached(f.filename) == null || Cached(f.filename) == f)
      ensures forall i {:trigger cache.fifo[i]} :: 0 <= i < |cache.fifo| && cache.fifo[i].f != f ==>
        cache.fifo[i].f.filename != f.filename
    {
      cache.Open();
      assert Agree(cache.addr, cache.chains, cache.fifo);
      forall i | 0 <= i < |cache.fifo| && cache.fifo[i].f != f
        ensures cache.fifo[i].f.filename != f.filename
      {
        FindUnique(cache.fifo, i);
      }
    }

    /** The temporary file replaces the file on disk. */
    method Replace(f: File)
      requires cache.Valid() && AllSane(cache.fifo, disk) && f.open && f.filename != "" && "" !in disk
      requires forall i {:trigger cache.fifo[i]} :: 0 <= i < |cache.fifo| && cache.fifo[i].f != f ==>
        cache.fifo[i].f.filename != f.filename
      modifies `disk, f`dirty, f`created
      ensures Valid() && disk == old(disk)[f.filename := f.data] && !f.dirty && !f.created
    {
      hide AllDiffer, UniqueNames, Agree, Stamped, Recent;
      ghost var fifo, now := cache.fifo, disk[f.filename := f.data];
      SaneButOne(fifo, f, disk, now);
      disk := disk[f.filename := f.data];
      f.dirty, f.created := false, false;
      forall i | 0 <= i < |fifo|
        ensures Sane(fifo[i].f, now)
      {
        assert fifo[i].f != f ==> old(Sane(fifo[i].f, now));
      }
    }

    /** The other files do not mind what the disk has for f. */
    lemma SaneButOne(fifo: seq<CachedFile>, f: File, disk: Disk, now: Disk)
      requires AllSane(fifo, disk) && forall i {:trigger fifo[i]} :: 0 <= i < |fifo| && fifo[i].f != f ==>
        fifo[i].f.filename != f.filename
      requires now == disk[f.filename := f.data]
      ensures forall i {:trigger fifo[i]} :: 0 <= i < |fifo| && fifo[i].f != f ==> Sane(fifo[i].f, now)
    {
    }

    /** save_StringIO; the atomic save refuses to leave an empty file behind. */
    method Save(f: File, ioOk: bool) returns (err: int)
      requires Valid() && f.open && f.filename != "" && (Cached(f.filename) == null || Cached(f.filename) == f)
      modifies `disk, f`dirty, f`created
      ensures Valid()
      ensures if ioOk && f.data != "" then err == 0 && disk == old(disk)[f.filename := f.data] && !f.dirty && !f.created
              else err == -1 && disk == old(disk) && f.dirty == old(f.dirty) && f.created == old(f.created)
    {
      err := -1;
      if ioOk && f.data != "" {
        OtherNames(f);
        Replace(f);
        err := 0;
      }
    }

    /** What has to be so for Fclose to leave the cache in step with the disk: if the cache holds the file, then it has
        been opened, or has been written to, or happens to be empty on disk as well. */
    ghost predicate MayClose(f: File)
      reads this, cache, f
    {
      Cached(f.filename) == f ==> f.dirty || !f.created || (f.filename in disk && disk[f.filename] == "")
    }

    /** f->flags &= ~FILE_OPEN */
    method Shut(f: File)
      requires Valid() && f.open && (!f.dirty || f.filename == "")
        && (Cached(f.filename) == null || Cached(f.filename) == f)
      modifies f`open, f`created
      ensures !f.open && (Valid() <==> old(MayClose(f)))
    {
      ghost var k := Find(cache.fifo, f.filename);
      assert Cached(f.filename) == f ==> Sane(cache.fifo[k].f, disk);
      f.open, f.created := false, false;
      if old(MayClose(f)) {
        forall i | 0 <= i < |cache.fifo|
          ensures Sane(cache.fifo[i].f, disk)
        {
          assert old(Sane(cache.fifo[i].f, disk));
          if cache.fifo[i].f == f {
            NotElsewhere(i, f);
          }
        }
      } else {
        assert !Sane(cache.fifo[k].f, disk);
      }
    }

    /** A file that is in the cache is there under its own name. */
    lemma NotElsewhere(i: nat, f: File)
      requires cache.Valid() && i < |cache.fifo| && cache.fifo[i].f == f
      ensures Cached(f.filename) == f && f.filename != ""
    {
      cache.Open();
      assert Agree(cache.addr, cache.chains, cache.fifo);
      FindUnique(cache.fifo, i);
    }

    /** Does Fclose have to save this file, and will that fail? */
    ghost predicate SaveFails(f: File, ioOk: bool)
      reads f
    {
      f.dirty && f.filename != "" && !(ioOk && f.data != "")
    }

    /** Fclose */
    method Fclose(f: File, ioOk: bool) returns (err: int)
      requires Valid() && f.open && (Cached(f.filename) == null || Cached(f.filename) == f)
      modifies `disk, cache`freed, f`open, f`dirty, f`created
      ensures err == if old(SaveFails(f, ioOk)) then -1 else 0
      ensures err != 0 ==> Valid() && f.open && f.dirty && disk == old(disk)
      ensures err == 0 ==> !f.open && (Valid() <==> old(MayClose(f)))
      ensures err == 0 ==> disk == if old(f.dirty) && f.filename != ""
        then old(disk)[f.filename := f.data] else old(disk)
      ensures cache.freed == if err == 0 && cache.cacheSize == 0 then old(cache.freed) + {f} else old(cache.freed)
    {
      if f.dirty && f.filename != "" {
        err := Save(f, ioOk);
        if err != 0 {
          return;
        }
      }
      Shut(f);
      if cache.cacheSize == 0 {
        cache.DestroyFile(f);
      }
      err := 0;
    }

    lemma Nameless()
      requires Valid()
      ensures "" !in disk
    {
    }

    /** The case that is shut out is real: a file that is not in the cache is created anew and closed without a
        write. The cache now says that it is empty, which it is not. */
    method CloseUnwritten(filename: string, rtc: int) returns (f: File)
      requires Valid() && Cached(filename) == null && cache.cacheSize > 0 && filename in disk && disk[filename] != ""
      requires cache.clock <= rtc
      modifies `disk, cache, cache.buckets, cache.fifo
      ensures disk == old(disk) && Cached(filename) == f && !f.open && f.data == "" && !Valid()
    {
      Nameless();
      ghost var cf;
      f, cf := Fcreate(filename, rtc);
      var _ := Fclose(f, true);
    }

    /** The cache has no entry of this name any more. */
    lemma {:induction false} Forgotten(s: seq<CachedFile>, filename: string)
      requires UniqueNames(s)
      ensures Find(WithoutName(s, filename), filename) == |WithoutName(s, filename)|
    {
      var k := Find(s, filename);
      if k < |s| {
        NamesApart(s, k);
        var t := Others(s, k);
        assert forall i: nat :: i < |t| ==> t[i] == s[if i < k then i else i + 1];
      }
    }

    /** remove_Cache_filename: nothing of this name is left. */
    method Evict(filename: string)
      requires Valid()
      modifies cache, cache.buckets, cache.fifo
      ensures Valid() && Cached(filename) == null && Grown(old(cache.fifo), null, null)
      ensures cache.buckets == old(cache.buckets) && cache.clock == old(cache.clock) && Spared(old(cache.freed))
    {
      cache.Open();
      assert Agree(cache.addr, cache.chains, cache.fifo);
      Forgotten(cache.fifo, filename);
      Forget(filename);
    }

    /** Fcancel: the file is neither saved nor kept. */
    method Fcancel(f: File)
      requires Valid() && f.open
      modifies cache, cache.buckets, cache.fifo
      ensures Valid() && Cached(f.filename) == null && Grown(old(cache.fifo), null, null)
      ensures cache.buckets == old(cache.buckets) && cache.clock == old(cache.clock) && Spared(old(cache.freed))
    {
      NoEmpty();
      if f.filename != "" {
        Evict(f.filename);
      }
    }

    lemma NoEmpty()
      requires Valid()
      ensures Cached("") == null
    {
      cache.Open();
      NoEmptyName(cache.addr, cache.chains, cache.fifo);
      var k := Find(cache.fifo, "");
      assert Agree(cache.addr, cache.chains, cache.fifo);
    }

    /** unlink_file */
    method UnlinkFile(filename: string) returns (err: int)
      requires Valid()
      modifies `disk, cache, cache.buckets, cache.fifo
      ensures Valid() && disk == old(disk) - {filename} && err == if filename in old(disk) then 0 else -1
      ensures Grown(old(cache.fifo), null, null) && cache.buckets == old(cache.buckets)
      ensures cache.clock == old(cache.clock) && Spared(old(cache.freed))
    {
      if filename == "" {
        return -1;
      }
      Evict(filename);
      err := if filename in disk then 0 else -1;
      Erase(filename);
    }

    /** unlink() */
    method Erase(filename: string)
      requires Valid() && Cached(filename) == null
      modifies `disk
      ensures Valid() && disk == old(disk) - {filename}
    {
      forall i | 0 <= i < |cache.fifo|
        ensures cache.fifo[i].f.filename != filename
      {
      }
      disk := disk - {filename};
      forall i | 0 <= i < |cache.fifo|
        ensures Sane(cache.fifo[i].f, disk)
      {
        assert old(Sane(cache.fifo[i].f, disk));
      }
    }

    // -------------------------------------------------------------- one event after the other

    ghost function With(r: set<object>, x: object?): set<object> {
      if x == null then r else r + {x}
    }

    /** A file of which no handle has the name is not open, if it is cached. */
    lemma CachedClosed(files: map<nat, File>, hs: Handles, repr: set<object>, filename: string)
      requires Ready(files, hs, repr) && NotOpen(hs, filename)
      ensures var g := Cached(filename);
        g != null ==> && !g.open && g.filename == filename && g in repr && g !in cache.freed
                      && forall h :: h in files ==> files[h] != g
      ensures OthersFit(cache.fifo, files, Cached(filename))
    {
      var g := Cached(filename);
      if g != null {
        var k := Find(cache.fifo, filename);
        assert EntryFits(cache.fifo[k].f, files);
        cache.NotFreed(k);
        assert forall h :: h in files ==> FileFits(files[h], hs[h]);
      }
    }

    /** A file f is opened, with entry cf if it is a new one in the cache; before that the cache had the entries s. */
    lemma Opened(files: map<nat, File>, hs: Handles, repr: set<object>, h: nat, f: File, hd: Handle, cf: CachedFile?,
                 s: seq<CachedFile>, before: set<File>)
      requires Valid() && HandlesFit(files, hs) && OthersFit(s, files, f)
      requires Alive(files, before) && Spared(before) && Grown(s, cf, f) && f !in before
      requires Owned(files, repr, s) && h !in hs && NotOpen(hs, f.filename) && FileFits(f, hd)
      requires Cached(f.filename) == null || Cached(f.filename) == f
      ensures Ready(files[h := f], hs[h := hd], With(With(repr, f), cf))
    {
      hide HandlesFit, EntriesFit, OthersFit, AllSane, NotOpen;
      StillAlive(files, hs, before);
      EntryAdded(files, hs, h, f, s, cf);
      HandleAdded(files, hs, h, f, hd);
      HeldMore(repr, s, f, cf);
    }

    lemma HeldMore(repr: set<object>, s: seq<CachedFile>, f: File, cf: CachedFile?)
      requires Covers(repr, s) && Grown(s, cf, f)
      ensures Covers(With(With(repr, f), cf), cache.fifo)
    {
    }

    lemma StillAlive(files: map<nat, File>, hs: Handles, before: set<File>)
      requires HandlesFit(files, hs) && Alive(files, before) && Spared(before)
      ensures Alive(files, cache.freed)
    {
      assert forall h :: h in files ==> FileFits(files[h], hs[h]);
    }

    lemma HandleAdded(files: map<nat, File>, hs: Handles, h: nat, f: File, hd: Handle)
      requires HandlesFit(files, hs) && h !in hs && NotOpen(hs, f.filename) && FileFits(f, hd)
      ensures HandlesFit(files[h := f], hs[h := hd])
    {
    }

    /** An open file among the cached ones */
    lemma EntryAdded(files: map<nat, File>, hs: Handles, h: nat, f: File, s: seq<CachedFile>, cf: CachedFile?)
      requires Valid() && HandlesFit(files, hs) && h !in hs && NotOpen(hs, f.filename) && f.open
      requires Cached(f.filename) == null || Cached(f.filename) == f
      requires OthersFit(s, files, f) && Grown(s, cf, f)
      ensures EntriesFit(cache.fifo, files[h := f])
    {
      OtherNames(f);
      assert forall k :: k in files ==> FileFits(files[k], hs[k]);
      var now := files[h := f];
      assert h in now && now[h] == f;
      forall i | 0 <= i < |cache.fifo|
        ensures EntryFits(cache.fifo[i].f, now)
      {
        var g := cache.fifo[i].f;
        if g != f {
          var j :| 0 <= j < |s| && s[j] == cache.fifo[i];
          assert EntryFits(s[j].f, files);
          if g.open {
            var k :| k in files && files[k] == g;
            assert k in now && now[k] == g;
          }
        }
      }
    }

    /** The cache has lost some of the entries s, and perhaps freed their files. */
    lemma Shrunk(files: map<nat, File>, hs: Handles, repr: set<object>, s: seq<CachedFile>, before: set<File>)
      requires Valid() && HandlesFit(files, hs) && EntriesFit(s, files) && Grown(s, null, null)
      requires Alive(files, before) && Spared(before) && Owned(files, repr, s)
      ensures Ready(files, hs, repr)
    {
      StillAlive(files, hs, before);
      EntriesWithin(s, cache.fifo, files);
      HeldWithin(repr, s, cache.fifo);
    }

    lemma HeldWithin(r: set<object>, s: seq<CachedFile>, t: seq<CachedFile>)
      requires Covers(r, s) && forall i {:trigger t[i]} :: 0 <= i < |t| ==> t[i] in s
      ensures Covers(r, t)
    {
    }

    /** Fopen leaves the files that are open alone, */
    method OpenAnother(filename: string, rtc: int, ghost files: map<nat, File>, ghost hs: Handles,
                       ghost repr: set<object>)
      returns (f: File?, ghost cf: CachedFile?)
      requires Ready(files, hs, repr) && NotOpen(hs, filename) && cache.clock == rtc
      modifies cache, cache.buckets, cache.fifo
      modifies (if Cached(filename) == null then {} else {Cached(filename)})`open
      ensures Valid() && HandlesFit(files, hs) && OthersFit(old(cache.fifo), files, f)
      ensures (f != null <==> filename in disk) && cache.clock == old(cache.clock) && Spared(old(cache.freed))
      ensures Grown(old(cache.fifo), cf, f) && cache.buckets == old(cache.buckets) && (cf != null ==> fresh(cf))
      ensures f != null ==>
        && FileFits(f, Handle(filename, disk[filename], false, false))
           && (Cached(filename) == null || Cached(filename) == f)
        && f !in old(cache.freed) && (f in repr || fresh(f))
    {
      hide AllSane, AllDiffer, UniqueNames, Sane, Alive, Covers, EntryFits, Find, Recent, Agree, Stamped;
      CachedClosed(files, hs, repr, filename);
      f, cf := Fopen(filename, rtc);
    }

    /** and so does Fcreate. */
    method CreateAnother(filename: string, rtc: int, ghost files: map<nat, File>, ghost hs: Handles,
                         ghost repr: set<object>)
      returns (f: File, ghost cf: CachedFile?)
      requires Ready(files, hs, repr) && NotOpen(hs, filename) && cache.clock == rtc
      modifies cache, cache.buckets, cache.fifo
      modifies (if Cached(filename) == null then {} else {Cached(filename)})`open
      modifies (if Cached(filename) == null then {} else {Cached(filename)})`dirty
      modifies (if Cached(filename) == null then {} else {Cached(filename)})`data
      ensures Valid() && HandlesFit(files, hs) && OthersFit(old(cache.fifo), files, f)
      ensures cache.clock == old(cache.clock) && Spared(old(cache.freed))
      ensures Grown(old(cache.fifo), cf, f) && cache.buckets == old(cache.buckets) && (cf != null ==> fresh(cf))
      ensures FileFits(f, Handle(filename, "", false, true)) && (Cached(filename) == null || Cached(filename) == f)
      ensures f !in old(cache.freed) && (f in repr || fresh(f))
    {
      hide AllSane, AllDiffer, UniqueNames, Sane, Alive, Covers, EntryFits, Find, Recent, Agree, Stamped;
      CachedClosed(files, hs, repr, filename);
      f, cf := Fcreate(filename, rtc);
    }

    /** Time passes until the next event. */
    ghost method Tick(rtc: int, files: map<nat, File>, hs: Handles, repr: set<object>)
      requires Ready(files, hs, repr) && cache.clock <= rtc
      modifies cache`clock
      ensures Ready(files, hs, repr) && cache.clock == rtc && disk == old(disk)
    {
      hide AllSane, EntriesFit, OthersFit, Sane, AllDiffer, UniqueNames;
      cache.Pass(rtc);
    }

    /** Fopen, if no handle has the name */
    method Open(h: nat, filename: string, rtc: int, files: map<nat, File>, ghost hs: Handles, ghost repr: set<object>)
      returns (err: int, files': map<nat, File>, ghost hs': Handles, ghost repr': set<object>)
      requires Ready(files, hs, repr) && h !in hs && NotOpen(hs, filename) && cache.clock == rtc
      modifies repr
      ensures Ready(files', hs', repr') && fresh(repr' - repr) && disk == old(disk) && cache.clock == old(cache.clock)
      ensures if filename in disk then err == 0 && hs' == hs[h := Handle(filename, disk[filename], false, false)]
              else err == -1 && hs' == hs
    {
      hide HandlesFit, EntriesFit, OthersFit, AllSane, Alive, AllDiffer, UniqueNames;
      ghost var s, before := cache.fifo, cache.freed;
      InRepr(files, hs, repr, filename);
      ghost var cf;
      var f;
      f, cf := OpenAnother(filename, rtc, files, hs, repr);
      if f == null {
        NoneOpened(files, s);
        Shrunk(files, hs, repr, s, before);
        err, files', hs', repr' := -1, files, hs, repr;
      } else {
        ghost var hd := Handle(filename, f.data, false, false);
        Opened(files, hs, repr, h, f, hd, cf, s, before);
        err, files', hs', repr' := 0, files[h := f], hs[h := hd], With(With(repr, f), cf);
      }
    }

    lemma InRepr(files: map<nat, File>, hs: Handles, repr: set<object>, filename: string)
      requires Ready(files, hs, repr)
      ensures {this, cache, cache.buckets} <= repr && (forall i :: 0 <= i < |cache.fifo| ==> cache.fifo[i] in repr)
      ensures Cached(filename) != null ==> Cached(filename) in repr
      ensures files.Keys == hs.Keys && forall h :: h in files ==> files[h] in repr
    {
    }

    lemma NoneOpened(files: map<nat, File>, s: seq<CachedFile>)
      requires OthersFit(s, files, null)
      ensures EntriesFit(s, files)
    {
    }

    /** Fcreate, if no handle has the name */
    method Make(h: nat, filename: string, rtc: int, files: map<nat, File>, ghost hs: Handles, ghost repr: set<object>)
      returns (files': map<nat, File>, ghost hs': Handles, ghost repr': set<object>)
      requires Ready(files, hs, repr) && h !in hs && NotOpen(hs, filename) && cache.clock == rtc
      modifies repr
      ensures Ready(files', hs', repr') && fresh(repr' - repr) && disk == old(disk) && cache.clock == old(cache.clock)
      ensures hs' == hs[h := Handle(filename, "", false, true)]
    {
      hide HandlesFit, EntriesFit, OthersFit, AllSane, Alive, AllDiffer, UniqueNames;
      ghost var s, before := cache.fifo, cache.freed;
      InRepr(files, hs, repr, filename);
      ghost var cf;
      var f;
      f, cf := CreateAnother(filename, rtc, files, hs, repr);
      ghost var hd := Handle(filename, "", false, true);
      Opened(files, hs, repr, h, f, hd, cf, s, before);
      files', hs', repr' := files[h := f], hs[h := hd], With(With(repr, f), cf);
    }

    /** All that is open but handle h */
    lemma Rest(files: map<nat, File>, hs: Handles, repr: set<object>, h: nat)
      requires Ready(files, hs, repr) && h in files
      ensures h in hs && FileFits(files[h], hs[h]) && files[h] in repr && files[h] !in cache.freed
      ensures HandlesFit(files - {h}, hs - {h}) && Owned(files - {h}, repr, cache.fifo)
      ensures OthersFit(cache.fifo, files - {h}, files[h]) && Alive(files - {h}, cache.freed + {files[h]})
      ensures NotOpen(hs - {h}, files[h].filename) && forall k :: k in files - {h} ==> files[k] != files[h]
      ensures Cached(files[h].filename) == null || Cached(files[h].filename) == files[h]
      ensures (files - {h})[h := files[h]] == files && (hs - {h})[h := hs[h]] == hs
    {
      hide AllDiffer, UniqueNames, Sane, AllSane;
      RestOfHandles(files, hs, h);
      RestOfEntries(files, h);
    }

    lemma RestOfHandles(files: map<nat, File>, hs: Handles, h: nat)
      requires HandlesFit(files, hs) && h in files && Alive(files, cache.freed)
      ensures h in hs && FileFits(files[h], hs[h]) && HandlesFit(files - {h}, hs - {h})
      ensures NotOpen(hs - {h}, files[h].filename) && forall k :: k in files - {h} ==> files[k] != files[h]
      ensures Alive(files - {h}, cache.freed + {files[h]})
      ensures (files - {h})[h := files[h]] == files && (hs - {h})[h := hs[h]] == hs
    {
      assert forall k :: k in files ==> FileFits(files[k], hs[k]);
    }

    lemma RestOfEntries(files: map<nat, File>, h: nat)
      requires EntriesFit(cache.fifo, files) && h in files
      ensures OthersFit(cache.fifo, files - {h}, files[h])
      ensures Cached(files[h].filename) == null || Cached(files[h].filename) == files[h]
    {
      var f, rest := files[h], files - {h};
      forall i | 0 <= i < |cache.fifo| && cache.fifo[i].f != f
        ensures EntryFits(cache.fifo[i].f, rest)
      {
        var g := cache.fifo[i].f;
        assert EntryFits(g, files);
        if g.open {
          var k :| k in files && files[k] == g;
          assert k in rest && rest[k] == g;
        }
      }
      var k := Find(cache.fifo, f.filename);
      if k < |cache.fifo| {
        assert EntryFits(cache.fifo[k].f, files);
      }
    }

    lemma PutAgain(files: map<nat, File>, hs: Handles, repr: set<object>, h: nat, hd: Handle)
      requires h in files && h in hs && files[h] in repr
      ensures (hs - {h})[h := hd] == hs[h := hd] && With(With(repr, files[h]), null) == repr
    {
    }

    /** One of the functions that write to a file */
    method Rewrite(h: nat, data: string, files: map<nat, File>, ghost hs: Handles, ghost repr: set<object>)
      returns (ghost hs': Handles)
      requires Ready(files, hs, repr) && h in files
      modifies repr
      ensures h in hs && hs' == hs[h := Handle(hs[h].filename, data, true, false)]
      ensures Ready(files, hs', repr) && disk == old(disk) && cache.clock == old(cache.clock)
    {
      hide AllDiffer, UniqueNames, Sane, AllSane, EntriesFit;
      var f := files[h];
      Rest(files, hs, repr, h);
      Put(f, data);
      ghost var hd := Handle(hs[h].filename, data, true, false);
      Opened(files - {h}, hs - {h}, repr, h, f, hd, null, cache.fifo, cache.freed);
      hs' := hs[h := hd];
      PutAgain(files, hs, repr, h, hd);
    }

    /** Entry fits after file f has been closed or is in the cache no more. */
    lemma Parted(files: map<nat, File>, hs: Handles, f: File)
      requires OthersFit(cache.fifo, files, f) && HandlesFit(files, hs) && NotOpen(hs, f.filename) && !f.open
      ensures EntriesFit(cache.fifo, files)
    {
      assert forall k :: k in files ==> FileFits(files[k], hs[k]);
    }

    /** Fclose */
    method CloseOne(h: nat, ioOk: bool, files: map<nat, File>, ghost hs: Handles, ghost repr: set<object>)
      returns (err: int, files': map<nat, File>, ghost hs': Handles)
      requires Ready(files, hs, repr) && h in files && h in hs && !hs[h].unwritten
      modifies repr
      ensures Ready(files', hs', repr) && cache.clock == old(cache.clock) && err == if Fails(hs[h], ioOk) then -1 else 0
      ensures if err != 0 then disk == old(disk) && hs' == hs
              else && disk == (if MustSave(hs[h]) then old(disk)[hs[h].filename := hs[h].data] else old(disk))
                   && hs' == hs - {h}
    {
      hide AllDiffer, UniqueNames, Agree, Stamped, Recent;
      var f := files[h];
      Rest(files, hs, repr, h);
      err := Fclose(f, ioOk);
      if err != 0 {
        Opened(files - {h}, hs - {h}, repr, h, f, hs[h], null, cache.fifo, cache.freed);
        PutAgain(files, hs, repr, h, hs[h]);
        files', hs' := files, hs;
      } else {
        Parted(files - {h}, hs - {h}, f);
        files', hs' := files - {h}, hs - {h};
      }
    }

    /** Fcancel */
    method CancelOne(h: nat, files: map<nat, File>, ghost hs: Handles, ghost repr: set<object>)
      returns (files': map<nat, File>, ghost hs': Handles)
      requires Ready(files, hs, repr) && h in files
      modifies repr
      ensures Ready(files', hs', repr) && hs' == hs - {h} && disk == old(disk) && cache.clock == old(cache.clock)
    {
      hide AllDiffer, UniqueNames, Sane, AllSane, Agree, Stamped, Recent, Tidy, FifoLinked, Find;
      var f := files[h];
      ghost var s, before := cache.fifo, cache.freed;
      Rest(files, hs, repr, h);
      Fcancel(f);
      files', hs' := files - {h}, hs - {h};
      WithoutFile(s, files', f);
      StillAlive(files', hs', before);
      HeldWithin(repr, s, cache.fifo);
    }

    /** None of the entries that are left is for f. */
    lemma WithoutFile(s: seq<CachedFile>, files: map<nat, File>, f: File)
      requires Valid() && Cached(f.filename) == null && OthersFit(s, files, f) && Grown(s, null, null)
      ensures EntriesFit(cache.fifo, files)
    {
      forall i | 0 <= i < |cache.fifo|
        ensures EntryFits(cache.fifo[i].f, files)
      {
        var j :| 0 <= j < |s| && s[j] == cache.fifo[i];
        assert s[j].f != f;
      }
    }

    /** unlink_file */
    method UnlinkOne(filename: string, files: map<nat, File>, ghost hs: Handles, ghost repr: set<object>)
      returns (err: int)
      requires Ready(files, hs, repr)
      modifies repr
      ensures Ready(files, hs, repr) && cache.clock == old(cache.clock)
      ensures disk == old(disk) - {filename} && err == if filename in old(disk) then 0 else -1
    {
      ghost var s, before := cache.fifo, cache.freed;
      InRepr(files, hs, repr, filename);
      err := UnlinkFile(filename);
      Shrunk(files, hs, repr, s, before);
    }

    /** The cache timeout takes only closed files from memory, */
    method ExpireClosed(rtc: int, timeout: int)
      requires Valid() && cache.clock <= rtc
      modifies cache, cache.buckets, cache.fifo
      ensures Valid() && Grown(old(cache.fifo), null, null) && cache.buckets == old(cache.buckets)
      ensures cache.clock == rtc && Spared(old(cache.freed))
    {
      hide AllDiffer, UniqueNames, Sane;
      ghost var s := cache.fifo;
      ghost var n := cache.Expire(rtc, timeout);
      SaneWithin(s, cache.fifo, disk);
    }

    /** and so does a change of PARAM_MAX_CACHED. */
    method ResizeClosed(newSize: nat)
      requires Valid() && newSize > 0
      modifies cache, cache.fifo
      ensures Valid() && Grown(old(cache.fifo), null, null) && fresh(cache.buckets)
      ensures cache.clock == old(cache.clock) && Spared(old(cache.freed))
    {
      hide AllDiffer, UniqueNames, Sane, SurvivorTimes;
      ghost var s := cache.fifo;
      ghost var gone := cache.Resize(newSize);
      SurvivorsMembers(s, gone);
      SaneWithin(s, cache.fifo, disk);
    }

    method Expire(rtc: int, timeout: int, ghost files: map<nat, File>, ghost hs: Handles, ghost repr: set<object>)
      requires Ready(files, hs, repr) && cache.clock == rtc
      modifies repr
      ensures Ready(files, hs, repr) && disk == old(disk) && cache.clock == old(cache.clock)
    {
      hide AllDiffer, UniqueNames, AllSane;
      ghost var s, before := cache.fifo, cache.freed;
      InRepr(files, hs, repr, "");
      ExpireClosed(rtc, timeout);
      Shrunk(files, hs, repr, s, before);
    }

    method Resize(newSize: nat, ghost files: map<nat, File>, ghost hs: Handles, ghost repr: set<object>)
      returns (ghost repr': set<object>)
      requires Ready(files, hs, repr) && newSize > 0
      modifies repr
      ensures Ready(files, hs, repr') && fresh(repr' - repr) && disk == old(disk) && cache.clock == old(cache.clock)
    {
      hide AllDiffer, UniqueNames, AllSane;
      ghost var s, before := cache.fifo, cache.freed;
      InRepr(files, hs, repr, "");
      ResizeClosed(newSize);
      repr' := repr + {cache.buckets};
      Shrunk(files, hs, repr', s, before);
    }

    /** Any event: it is answered as the machine without a cache answers it, and has the same effect. */
    method Perform(e: Event, files: map<nat, File>, ghost hs: Handles, ghost repr: set<object>)
      returns (r: Reply, files': map<nat, File>, ghost hs': Handles, ghost repr': set<object>)
      requires Ready(files, hs, repr) && Legal(Now(hs), e)
      modifies repr
      ensures Ready(files', hs', repr') && fresh(repr' - repr)
      ensures r == Answer(old(Now(hs)), e) && Now(hs') == Effect(old(Now(hs)), e)
    {
      hide HandlesFit, EntriesFit, OthersFit, AllSane, Alive, Covers, AllDiffer, UniqueNames;
      InRepr(files, hs, repr, "");
      Tick(e.rtc, files, hs, repr);
      var err := 0;
      files', hs', repr' := files, hs, repr;
      match e.action {
        case Opening(h, filename) => err, files', hs', repr' := Open(h, filename, e.rtc, files, hs, repr);
        case Creating(h, filename) => files', hs', repr' := Make(h, filename, e.rtc, files, hs, repr);
        case Reading(h) =>
          HandleData(files, hs, h);
          return Text(files[h].data), files', hs', repr';
        case Rewriting(h, data) => hs' := Rewrite(h, data, files, hs, repr);
        case Closing(h, ioOk) => err, files', hs' := CloseOne(h, ioOk, files, hs, repr);
        case Cancelling(h) => files', hs' := CancelOne(h, files, hs, repr);
        case Unlinking(filename) => err := UnlinkOne(filename, files, hs, repr);
        case Expiring(timeout) => Expire(e.rtc, timeout, files, hs, repr);
        case Resizing(newSize) => repr' := Resize(newSize, files, hs, repr);
      }
      r := Code(err);
    }

    lemma HandleData(files: map<nat, File>, hs: Handles, h: nat)
      requires HandlesFit(files, hs) && h in hs
      ensures h in files && files[h].data == hs[h].data
    {
      assert FileFits(files[h], hs[h]);
    }

    /** A run over a cache of whatever size, with whatever is open at the same time and whatever is evicted, expired or
        resized on the way, is answered as it is without a cache, and leaves the same on disk and in the open files. No
        file that is open is ever freed. */
    method Run(es: seq<Event>, files: map<nat, File>, ghost hs: Handles, ghost repr: set<object>)
      returns (rs: seq<Reply>, files': map<nat, File>, ghost hs': Handles, ghost repr': set<object>)
      requires Ready(files, hs, repr) && LegalRun(Now(hs), es)
      modifies repr
      ensures Ready(files', hs', repr') && fresh(repr' - repr)
      ensures rs == Answers(old(Now(hs)), es) && Now(hs') == Effects(old(Now(hs)), es)
    {
      hide HandlesFit, EntriesFit, OthersFit, AllSane, Alive, Covers, AllDiffer, UniqueNames, Legal, Answer, Effect;
      ghost var m := Now(hs);
      rs, files', hs', repr' := [], files, hs, repr;
      var i := 0;
      while i < |es|
        invariant i <= |es| && Ready(files', hs', repr') && fresh(repr' - repr)
        invariant LegalRun(Now(hs'), es[i..]) && rs + Answers(Now(hs'), es[i..]) == Answers(m, es)
        invariant Effects(Now(hs'), es[i..]) == Effects(m, es)
      {
        assert es[i..][1..] == es[i + 1..];
        var r;
        r, files', hs', repr' := Perform(es[i], files', hs', repr');
        rs := rs + [r];
        i := i + 1;
      }
      assert es[i..] == [];
    }
  }
}
