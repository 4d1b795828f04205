/** The cache manager: byte-range reads and writes by path, flushing and eviction. */
module CacheManager {
  import opened Posix
  import opened Parts
  import opened FsLayout
  import opened BlockStore
  import opened MetadataStore
  import opened LruPolicy
  import opened CacheObject
  import opened Sequential
  import opened Holes
  import opened Keys

  const ENOENT: int := 2
  const GIB: real := 1073741824.0

  /** A cache entry; `handle` stands for its address. */
  datatype Entry = Entry(handle: nat, last: Option<nat>, evicted: bool)

  datatype Prefetch = Prefetch(path: string, first: nat)

  /** A write that reached the blocks of an object. */
  datatype WriteEvent = WriteEvent(hash: Hash, off: nat, len: nat) {
    ghost predicate Overlaps(b: nat) { len > 0 && b * B < off + len && off < (b + 1) * B }
  }

  /** A bit is set if and only if some write overlapped its block, in the part the block belongs to. */
  ghost predicate DirtyExact(bm: Bitmaps, writes: seq<WriteEvent>) {
    forall h: Hash, p: nat, b: nat :: BitIs(bm, h, p, b) <==> p == b * B / P && SomeWrite(writes, h, b)
  }

  ghost predicate SomeWrite(writes: seq<WriteEvent>, h: Hash, b: nat) {
    exists i :: 0 <= i < |writes| && writes[i].hash == h && writes[i].Overlaps(b)
  }

  type Entries = map<string, Entry>

  /** Entries have handles of their own, and no two paths share a hash. */
  ghost predicate EntriesOk(entries: Entries, nextHandle: nat, hash: string -> Hash) {
    && nextHandle >= 1
    && (forall p :: p in entries ==> 1 <= entries[p].handle < nextHandle)
    && (forall p, q :: p in entries && q in entries && p != q ==>
          entries[p].handle != entries[q].handle && hash(p) != hash(q))
  }

  /** An evicted entry has no data part on disk. */
  ghost predicate EvictedClean(entries: Entries, hash: string -> Hash, files: Files) {
    forall p :: p in entries && entries[p].evicted ==> PartsOf(files, hash(p)) == map[]
  }

  lemma LoadKeepsClean(entries: Entries, nextHandle: nat, hash: string -> Hash, files: Files, files': Files, path: string)
    requires EntriesOk(entries, nextHandle, hash) && EvictedClean(entries, hash, files)
    requires OnlyParts(files, files', hash(path)) && path in entries && !entries[path].evicted
    ensures EvictedClean(entries, hash, files')
  {
    hide PartsOf, OnlyParts;
    forall p | p in entries && entries[p].evicted ensures PartsOf(files', hash(p)) == map[] {
      OtherParts(files, files', hash(path), hash(p));
    }
  }

  lemma SetLastKeeps(entries: Entries, nextHandle: nat, hash: string -> Hash, files: Files, path: string, last: Option<nat>)
    requires path in entries && EntriesOk(entries, nextHandle, hash) && EvictedClean(entries, hash, files)
    ensures var entries' := entries[path := entries[path].(last := last)];
            EntriesOk(entries', nextHandle, hash) && EvictedClean(entries', hash, files)
  {
  }

  lemma NewEntryKeeps(entries: Entries, nextHandle: nat, hash: string -> Hash, files: Files, path: string)
    requires path !in entries && EntriesOk(entries, nextHandle, hash) && EvictedClean(entries, hash, files)
    requires forall p :: p in entries && p != path ==> hash(p) != hash(path)
    ensures var entries' := entries[path := Entry(nextHandle, None, false)];
            EntriesOk(entries', nextHandle + 1, hash) && EvictedClean(entries', hash, files)
  {
    hide PartsOf;
  }

  /** A leading slash is dropped when the mirror path is formed. */
  function MirrorName(path: string): Name { Mirror(if path != "" && path[0] == '/' then path[1..] else path) }

  /** Which paths share a mirror file: equal ones, and a relative path with its absolute form. */
  ghost predicate SharesMirror(p: string, q: string) {
    p == q || (p == "/" + q && !("/" <= q)) || (q == "/" + p && !("/" <= p))
  }

  lemma MirrorsShared(p: string, q: string)
    ensures MirrorName(p) == MirrorName(q) <==> SharesMirror(p, q)
  {
    if MirrorName(p) == MirrorName(q) && p != q {
      if p != "" && p[0] == '/' {
        assert p == "/" + p[1..];
      } else {
        assert q == "/" + q[1..];
      }
    }
    assert p == "/" + q ==> p[1..] == q;
    assert q == "/" + p ==> q[1..] == p;
  }

  function ObjectOf(files: Files, h: Hash, mirror: Name): Object {
    Object(PartsOf(files, h), if mirror in files then Some(files[mirror]) else None)
  }

  /** The sum of all file sizes. */
  ghost function Usage(files: Files): nat {
    if files == map[] then 0 else var n :| n in files; |files[n]| + Usage(files - {n})
  }

  lemma NoUsage()
    ensures Usage(map[]) == 0
  {
  }

  lemma {:induction false} UsageSplit(files: Files, n: Name)
    requires n in files
    ensures Usage(files) == |files[n]| + Usage(files - {n})
  {
    var m :| m in files && Usage(files) == |files[m]| + Usage(files - {m});
    if m != n {
      UsageSplit(files - {m}, n);
      UsageSplit(files - {n}, m);
      assert files - {m} - {n} == files - {n} - {m};
    }
  }

  /** Only data parts of one object differ between the two states of the disk. */
  ghost predicate OnlyParts(files: Files, files': Files, h: Hash) {
    forall n: Name :: !(n.Data? && n.hash == h) ==> SameAt(files, files', n)
  }

  lemma OnlyPartsTransitive(f0: Files, f1: Files, f2: Files, h: Hash)
    requires OnlyParts(f0, f1, h) && OnlyParts(f1, f2, h)
    ensures OnlyParts(f0, f2, h)
  {
    forall n: Name | !(n.Data? && n.hash == h) ensures SameAt(f0, f2, n) {
      assert SameAt(f0, f1, n) && SameAt(f1, f2, n);
    }
  }

  /** Only data parts of one object and its mirror differ between the two states of the disk. */
  ghost predicate OnlyPath(files: Files, files': Files, h: Hash, mirror: Name) {
    forall n: Name :: !(n.Data? && n.hash == h) && n != mirror ==> SameAt(files, files', n)
  }

  ghost predicate MarkedOne(bm: Bitmaps, bm': Bitmaps, h: Hash, blk: nat) {
    forall g: Hash, p: nat, b: nat ::
      BitIs(bm', g, p, b) <==> BitIs(bm, g, p, b) || (g == h && p == blk * B / P && b == blk)
  }

  lemma OtherParts(files: Files, files': Files, h: Hash, g: Hash)
    requires g != h && OnlyParts(files, files', h)
    ensures PartsOf(files, g) == PartsOf(files', g)
  {
    PartsFrame(files, files', g);
  }

  /** A read in progress: what was delivered so far, followed by what the loop still delivers, is the whole result. */
  ghost predicate Progress(total: ReadResult, o: Object, remote: Option<File>, stack: nat -> Block,
                           off: nat, len: nat, buf: File, blocks: seq<nat>)
    requires |buf| <= len
  {
    var rest := ReadRun(o, remote, stack, off + |buf|, len - |buf|);
    total == ReadResult(rest.obj, buf + rest.out, blocks + rest.blocks, rest.complete)
  }

  lemma ProgressStart(o: Object, remote: Option<File>, stack: nat -> Block, off: nat, len: nat)
    ensures Progress(ReadRun(o, remote, stack, off, len), o, remote, stack, off, len, [], [])
  {
    hide ReadRun;
  }

  lemma ProgressStep(total: ReadResult, o: Object, remote: Option<File>, stack: nat -> Block,
                     off: nat, len: nat, buf: File, blocks: seq<nat>)
    requires |buf| < len && Progress(total, o, remote, stack, off, len, buf, blocks)
    ensures var pos := off + |buf|;
            var w := Want(pos, len - |buf|);
            match ReadBlock(o, remote, stack, pos / B)
            case None => total == ReadResult(o, buf, blocks, false)
            case Some((o', block)) =>
              Progress(total, o', remote, stack, off, len, buf + block[pos % B..pos % B + w], blocks + [pos / B])
  {
    hide ReadBlock, Want;
    var pos := off + |buf|;
    var step := ReadBlock(o, remote, stack, pos / B);
    if step.Some? {
      var w := Want(pos, len - |buf|);
      var piece := step.value.1[pos % B..pos % B + w];
      var rest := ReadRun(step.value.0, remote, stack, pos + w, len - |buf| - w);
      assert off + |buf + piece| == pos + w && len - |buf + piece| == len - |buf| - w;
      assert buf + (piece + rest.out) == (buf + piece) + rest.out;
      assert blocks + ([pos / B] + rest.blocks) == (blocks + [pos / B]) + rest.blocks;
    }
  }

  lemma ProgressEnd(total: ReadResult, o: Object, remote: Option<File>, stack: nat -> Block,
                    off: nat, len: nat, buf: File, blocks: seq<nat>)
    requires |buf| == len && Progress(total, o, remote, stack, off, len, buf, blocks)
    ensures total == ReadResult(o, buf, blocks, true)
  {
  }

  /** The bookkeeping after some blocks of a read: `last_block`, the scheduled prefetches and the recency list. */
  datatype Books = Books(entries: Entries, scheduled: seq<Prefetch>, order: seq<Node>)

  ghost predicate Booked(b0: Books, b: Books, path: string, e: Entry, capacity: nat, blocks: seq<nat>) {
    && b.entries == b0.entries[path := e.(last := LastAfter(e.last, blocks))]
    && b.scheduled == b0.scheduled + Jobs(path, Scheduled(e.last, blocks))
    && b.order == TouchBlocks(b0.order, capacity, e.handle, B, 1.0, blocks)
  }

  /** The bookkeeping of one completed block. */
  ghost predicate BookedOne(b: Books, b': Books, path: string, capacity: nat, blk: nat) {
    && path in b.entries
    && b'.entries == b.entries[path := b.entries[path].(last := Some(blk))]
    && b'.scheduled == b.scheduled + Jobs(path, Scheduled(b.entries[path].last, [blk]))
    && b'.order == Touched(b.order, capacity, Node(Pack(b.entries[path].handle, blk), B, 1.0))
  }

  lemma BookedStart(b: Books, path: string, e: Entry, capacity: nat)
    requires path in b.entries && b.entries[path] == e
    ensures Booked(b, b, path, e, capacity, [])
  {
    assert b.entries[path := e] == b.entries;
  }

  /** Making the entry first does not matter for the bookkeeping. */
  lemma BookedFromOld(b0: Books, b1: Books, b: Books, path: string, e: Entry, capacity: nat, blocks: seq<nat>)
    requires b1 == b0.(entries := b0.entries[path := e]) && Booked(b1, b, path, e, capacity, blocks)
    ensures Booked(b0, b, path, e, capacity, blocks)
  {
  }

  lemma BookedStep(b0: Books, b: Books, b': Books, path: string, e: Entry, capacity: nat, blocks: seq<nat>, blk: nat)
    requires Booked(b0, b, path, e, capacity, blocks) && BookedOne(b, b', path, capacity, blk)
    ensures Booked(b0, b', path, e, capacity, blocks + [blk])
  {
    hide Touched, Pack, Scheduled;
    assert (blocks + [blk])[..|blocks|] == blocks;
    ScheduledAppend(e.last, blocks, blk);
    var s, s1 := Scheduled(e.last, blocks), Scheduled(LastAfter(e.last, blocks), [blk]);
    assert Jobs(path, s + s1) == Jobs(path, s) + Jobs(path, s1);
    assert b'.entries == b0.entries[path := e.(last := Some(blk))];
  }

  function Jobs(path: string, firsts: seq<nat>): (jobs: seq<Prefetch>)
    ensures |jobs| == |firsts| && forall i :: 0 <= i < |firsts| ==> jobs[i] == Prefetch(path, firsts[i])
  {
    seq(|firsts|, i requires 0 <= i < |firsts| => Prefetch(path, firsts[i]))
  }

  class CacheManager {
    const backend: map<string, File>      // what a reliable backend holds; other paths fail there
    const hash: string -> Hash
    const fs: FileSystem
    const store: BlockStore
    const meta: MetadataStore
    const lru: Policy
    var entries: Entries
    var nextHandle: nat
    var scheduled: seq<Prefetch>          // the prefetches handed to the pool
    ghost var writes: seq<WriteEvent>

    ghost predicate Valid()
      reads this, fs, store, meta, lru
    {
      && store.fs == fs && meta.fs == fs && lru.Valid()
      && EntriesOk(entries, nextHandle, hash)
      && EvictedClean(entries, hash, fs.files)
      && DirtyExact(meta.bitmaps, writes)
    }

    /** No other path of the run has the same hash. */
    ghost predicate NoCollision(path: string)
      reads this
    {
      forall p :: p in entries && p != path ==> hash(p) != hash(path)
    }

    function Remote(path: string): Option<File> { if path in backend then Some(backend[path]) else None }

    /** What the disk holds for a path. */
    function View(path: string): Object
      reads this, fs
    {
      ObjectOf(fs.files, hash(path), MirrorName(path))
    }

    /** The entry a call on `path` works with: the one there is, or the one that `entry` makes. */
    function EntryOf(path: string): Entry
      reads this
    {
      if path in entries then entries[path] else Entry(nextHandle, None, false)
    }

    constructor (backend: map<string, File>, hash: string -> Hash, capacity: nat)
      ensures Valid() && fresh(fs) && fresh(store) && fresh(meta) && fresh(lru)
      ensures entries == map[] && fs.files == map[] && lru.Contents() == [] && lru.capacity == capacity
      ensures this.backend == backend && this.hash == hash && writes == [] && scheduled == [] && nextHandle == 1
    {
      this.backend, this.hash := backend, hash;
      var fs := new FileSystem();
      this.fs := fs;
      store := new BlockStore(fs);
      meta := new MetadataStore(fs);
      lru := new Policy(capacity);
      entries, nextHandle, scheduled, writes := map[], 1, [], [];
    }

    /** `entry`: finds the entry of a path or makes it. */
    method GetEntry(path: string)
      requires Valid() && NoCollision(path)
      modifies this`entries, this`nextHandle
      ensures Valid() && path in entries && entries == old(entries)[path := old(EntryOf(path))]
      ensures path !in old(entries) ==> entries[path] == Entry(old(nextHandle), None, false)
      ensures path in old(entries) ==> entries == old(entries)
      ensures nextHandle == if path in old(entries) then old(nextHandle) else old(nextHandle) + 1
    {
      hide EntriesOk, EvictedClean, DirtyExact, Indexed, PartsOf;
      if path in entries {
        assert entries == entries[path := entries[path]];
        return;
      }
      NewEntryKeeps(entries, nextHandle, hash, fs.files, path);
      entries := entries[path := Entry(nextHandle, None, false)];
      nextHandle := nextHandle + 1;
    }

    // ---- Reading ----

    /** One iteration's block: from the store, or fetched from the backend or the mirror and then stored. */
    method LoadBlock(path: string, blk: nat, stack: nat -> Block) returns (block: Option<Block>)
      requires store.fs == fs
      modifies fs
      ensures OnlyParts(old(fs.files), fs.files, hash(path))
      ensures ReadBlock(old(View(path)), Remote(path), stack, blk).None? ==> block.None? && fs.files == old(fs.files)
      ensures ReadBlock(old(View(path)), Remote(path), stack, blk).Some? ==>
        block.Some? && (View(path), block.value) == ReadBlock(old(View(path)), Remote(path), stack, blk).value
    {
      hide StoreWrite, PartsOf;
      ghost var o := View(path);
      var boff := blk * B;
      var buf := stack(blk);
      var have := store.Read(hash(path), B, boff);
      if have.Some? {
        buf := Overlay(buf, have.value);
        if |have.value| == B { return Some(buf); }
      }
      assert Got(o.parts, B, boff) == if have.Some? then have.value else [];
      var got := if path in backend then Pread(backend[path], B, boff) else [];
      if got == [] && MirrorName(path) in fs.files {
        got := Pread(fs.files[MirrorName(path)], B, boff);
      }
      assert got == Fetch(o, Remote(path), boff);
      if got == [] { return None; }
      assert buf == Overlay(stack(blk), Got(o.parts, B, boff));
      block := Some(Overlay(buf, got));
      store.Write(hash(path), got, boff);
      assert SameAt(old(fs.files), fs.files, MirrorName(path));
    }

    /** The bookkeeping after a block was delivered: recency, and a prefetch when the read goes on sequentially. */
    method CompleteBlock(path: string, blk: nat)
      requires Valid() && path in entries
      modifies this`entries, this`scheduled, lru
      ensures Valid()
      ensures BookedOne(old(BooksNow()), BooksNow(), path, lru.capacity, blk)
      ensures path in entries && entries[path].evicted == old(entries)[path].evicted
    {
      hide Touched, Pack, DirtyExact, PartsOf, Indexed, EntriesOk, EvictedClean, Nodes;
      var ce := entries[path];
      SetLastKeeps(entries, nextHandle, hash, fs.files, path, Some(blk));
      lru.Touch(Pack(ce.handle, blk), B, 1.0);
      var sequential := ce.last.Some? && blk == ce.last.value + 1;
      entries := entries[path := ce.(last := Some(blk))];
      ScheduledOne(ce.last, blk);
      if sequential {
        scheduled := scheduled + [Prefetch(path, blk + 1)];
        assert Jobs(path, [blk + 1]) == [Prefetch(path, blk + 1)];
      } else {
        assert scheduled + Jobs(path, []) == scheduled;
      }
    }

    ghost function BooksNow(): Books
      reads this, lru
    {
      Books(entries, scheduled, lru.Contents())
    }

    /**
     * `CacheManager::read`: an evicted entry answers -ENOENT and nothing changes; otherwise return value, bytes and
     * the object are those of the block loop, and only this object's parts change on disk.
     */
    method Read(path: string, len: nat, off: nat, stack: nat -> Block) returns (rc: int, buf: File)
      requires Valid() && NoCollision(path)
      modifies this`entries, this`nextHandle, this`scheduled, fs, lru
      ensures Valid() && path in entries
      ensures old(EntryOf(path)).evicted ==>
        rc == -ENOENT && buf == [] && entries == old(entries) && fs.files == old(fs.files) &&
        lru.Contents() == old(lru.Contents()) && scheduled == old(scheduled)
      ensures OnlyParts(old(fs.files), fs.files, hash(path))
      ensures !old(EntryOf(path)).evicted ==>
        var r := ReadRun(old(View(path)), Remote(path), stack, off, len);
        && rc == r.Rc() && buf == r.out && View(path) == r.obj
        && Booked(old(BooksNow()), BooksNow(), path, old(EntryOf(path)), lru.capacity, r.blocks)
      ensures old(KeysKnown()) && off + len <= HALF * B && nextHandle < HALF ==> KeysKnown()
      ensures nextHandle == if path in old(entries) then old(nextHandle) else old(nextHandle) + 1
    {
      hide ReadBlock, ReadRun, Progress, Booked, BookedOne, DirtyExact, PartsOf, OnlyParts, Indexed, EntriesOk, EvictedClean, Nodes, Want, Known,
           ObjectOf, MirrorName, Handles;
      GetEntry(path);
      var e := entries[path];
      OnlyPartsReflexive(fs.files, hash(path));
      if e.evicted {
        assert entries == old(entries);
        return -ENOENT, [];
      }
      ghost var books := BooksNow();
      ghost var total := ReadRun(View(path), Remote(path), stack, off, len);
      ghost var blocks: seq<nat> := [];
      ProgressStart(View(path), Remote(path), stack, off, len);
      BookedStart(books, path, e, lru.capacity);
      buf := [];
      var done := 0;
      while done < len
        invariant 0 <= done <= len && done == |buf|
        invariant path in entries && !entries[path].evicted
        invariant nextHandle == if path in old(entries) then old(nextHandle) else old(nextHandle) + 1
        invariant Valid() && OnlyParts(old(fs.files), fs.files, hash(path))
        invariant Booked(books, BooksNow(), path, e, lru.capacity, blocks)
        invariant Progress(total, View(path), Remote(path), stack, off, len, buf, blocks)
      {
        ghost var files := fs.files;
        ghost var books1 := BooksNow();
        ProgressStep(total, View(path), Remote(path), stack, off, len, buf, blocks);
        var blk := (off + done) / B;
        var start := (off + done) % B;
        var want := Want(off + done, len - done);
        var block := LoadBlock(path, blk, stack);
        OnlyPartsTransitive(old(fs.files), files, fs.files, hash(path));
        LoadKeepsClean(entries, nextHandle, hash, files, fs.files, path);
        if block.None? {
          BookedFromOld(old(BooksNow()), books, BooksNow(), path, e, lru.capacity, blocks);
          ReadKeysKnown(old(BooksNow()), BooksNow(), nextHandle, hash, path, e, lru.capacity, old(View(path)), Remote(path), stack, off, len);
          return if done > 0 then done else -1, buf;
        }
        buf := buf + block.value[start..start + want];
        done := done + want;
        CompleteBlock(path, blk);
        BookedStep(books, books1, BooksNow(), path, e, lru.capacity, blocks, blk);
        blocks := blocks + [blk];
      }
      ProgressEnd(total, View(path), Remote(path), stack, off, len, buf, blocks);
      BookedFromOld(old(BooksNow()), books, BooksNow(), path, e, lru.capacity, blocks);
      ReadKeysKnown(old(BooksNow()), BooksNow(), nextHandle, hash, path, e, lru.capacity, old(View(path)), Remote(path), stack, off, len);
      rc := done;
    }

    // ---- Writing ----

    /** The first half of an iteration of the write loop: the chunk goes into its block, and the block into the store. */
    method MergeChunk(path: string, pos: nat, chunk: File)
      requires store.fs == fs && pos % B + |chunk| <= B
      modifies fs
      ensures OnlyParts(old(fs.files), fs.files, hash(path))
      ensures var ps := old(PartsOf(fs.files, hash(path)));
        PartsOf(fs.files, hash(path)) == StoreWrite(ps, Merged(ps, pos, chunk), pos / B * B)
    {
      hide StoreWrite, PartsOf, Merged, SameAt;
      ghost var ps := PartsOf(fs.files, hash(path));
      var boff := pos / B * B;
      var start := pos % B;
      var have := store.Read(hash(path), B, boff);
      var bytes := if have.Some? then have.value else [];
      assert bytes == Got(ps, B, boff);
      var block := bytes + Zeros(B - |bytes|);
      block := block[..start] + chunk + block[start + |chunk|..];
      MergedIs(ps, pos, chunk, block);
      store.Write(hash(path), block, boff);
    }

    /** One iteration of the write loop: merge the chunk into its block, mark it dirty, touch it, mirror it. */
    method StoreChunk(path: string, pos: nat, chunk: File)
      requires store.fs == fs && meta.fs == fs && lru.Valid() && path in entries
      requires chunk != [] && pos % B + |chunk| <= B
      modifies fs, meta, lru
      ensures lru.Valid() && View(path) == WriteBlock(old(View(path)), pos, chunk)
      ensures OnlyPath(old(fs.files), fs.files, hash(path), MirrorName(path))
      ensures lru.Contents() ==
        Touched(old(lru.Contents()), lru.capacity, Node(Pack(entries[path].handle, pos / B), B, 1.0))
      ensures MarkedOne(old(meta.bitmaps), meta.bitmaps, hash(path), pos / B)
    {
      hide StoreWrite, Touched, Pack, Indexed, Nodes, BitIs, PartsOf, Merged, ObjectOf, SameAt, WriteBlock, OnlyParts, OnlyPath;
      ghost var files0 := fs.files;
      var blk := pos / B;
      MergeChunk(path, pos, chunk);
      ghost var files1 := fs.files;
      meta.MarkDirtyBlock(hash(path), blk * B / P, blk);
      lru.Touch(Pack(entries[path].handle, blk), B, 1.0);
      var mirror := MirrorName(path);
      var before := if mirror in fs.files then fs.files[mirror] else [];
      fs.files := fs.files[mirror := Pwrite(before, chunk, pos)];
      ChunkStored(files0, files1, fs.files, hash(path), mirror, pos, chunk);
    }

    /**
     * `CacheManager::write`: an evicted entry answers -ENOENT and nothing changes; otherwise the object is that of
     * the block loop, every touched block is marked dirty and recent, and no other path's files change.
     */
    method Write(path: string, data: File, off: nat) returns (rc: int)
      requires Valid() && NoCollision(path)
      modifies this`entries, this`nextHandle, this`writes, fs, meta, lru
      ensures Valid() && path in entries && OnlyPath(old(fs.files), fs.files, hash(path), MirrorName(path))
      ensures old(EntryOf(path)).evicted ==>
        rc == -ENOENT && entries == old(entries) && fs.files == old(fs.files) &&
        lru.Contents() == old(lru.Contents()) && meta.bitmaps == old(meta.bitmaps) && writes == old(writes)
      ensures !old(EntryOf(path)).evicted ==>
        && rc == |data| && View(path) == WriteRun(old(View(path)), off, data)
        && entries == old(entries)[path := old(EntryOf(path))]
        && writes == old(writes) + [WriteEvent(hash(path), off, |data|)]
        && lru.Contents() ==
             TouchBlocks(old(lru.Contents()), lru.capacity, old(EntryOf(path)).handle, B, 1.0, BlocksOf(off, |data|))
      ensures old(KeysKnown()) && off + |data| <= HALF * B && nextHandle < HALF ==> KeysKnown()
      ensures nextHandle == if path in old(entries) then old(nextHandle) else old(nextHandle) + 1
    {
      hide WriteBlock, WriteRun, BlocksOf, TouchBlocks, Touched, Pack, DirtyExact, Marked, MarkedOne, BitIs, PartsOf,
           OnlyPath, Indexed, EntriesOk, EvictedClean, Nodes, Want, Known;
      GetEntry(path);
      var e := entries[path];
      OnlyPathReflexive(fs.files, hash(path), MirrorName(path));
      if e.evicted {
        assert entries == old(entries);
        return -ENOENT;
      }
      ghost var h := hash(path);
      ghost var blocks: seq<nat> := [];
      WriteStart(View(path), off, data, lru.Contents(), lru.capacity, e.handle, meta.bitmaps, h);
      var done := 0;
      while done < |data|
        invariant 0 <= done <= |data| && path in entries && entries[path] == e && entries == old(entries)[path := e]
        invariant lru.Valid() && EntriesOk(entries, nextHandle, hash) && EvictedClean(entries, hash, fs.files)
        invariant writes == old(writes) && nextHandle == if path in old(entries) then old(nextHandle) else old(nextHandle) + 1
        invariant OnlyPath(old(fs.files), fs.files, h, MirrorName(path))
        invariant Marked(old(meta.bitmaps), meta.bitmaps, h, off, done)
        invariant WriteRun(View(path), off + done, data[done..]) == WriteRun(old(View(path)), off, data)
        invariant lru.Contents() == TouchBlocks(old(lru.Contents()), lru.capacity, e.handle, B, 1.0, blocks)
        invariant blocks + BlocksOf(off + done, |data| - done) == BlocksOf(off, |data|)
      {
        ghost var files, bitmaps, o := fs.files, meta.bitmaps, View(path);
        var w := Want(off + done, |data| - done);
        var chunk := data[done..done + w];
        StoreChunk(path, off + done, chunk);
        WriteKeepsClean(entries, nextHandle, hash, files, fs.files, path);
        OnlyPathTransitive(old(fs.files), files, fs.files, h, MirrorName(path));
        MarkedStep(old(meta.bitmaps), bitmaps, meta.bitmaps, h, off, done, |data|);
        WriteAdvance(o, off, data, done);
        BlocksAdvance(blocks, off, |data|, done);
        TouchAppend(old(lru.Contents()), lru.capacity, e.handle, 1.0, blocks, (off + done) / B);
        blocks := blocks + [(off + done) / B];
        done := done + w;
      }
      WriteEnd(View(path), off + done, blocks, off, data);
      MarkedExact(old(meta.bitmaps), meta.bitmaps, old(writes), h, off, |data|);
      writes := writes + [WriteEvent(h, off, |data|)];
      if old(KeysKnown()) && off + |data| <= HALF * B && nextHandle < HALF {
        HandleBound(entries, nextHandle, hash, path);
        KeysStayKnown(old(lru.Contents()), lru.capacity, old(entries), entries, path, off, |data|);
      }
      rc := done;
    }

    // ---- Prefetching ----

    /** One iteration of a prefetch job; `copy` is the address of the entry that the job captured by value. */
    method PrefetchBlock(path: string, blk: nat, copy: nat)
      requires store.fs == fs && lru.Valid()
      modifies fs, lru
      ensures lru.Valid() && OnlyParts(old(fs.files), fs.files, hash(path))
      ensures View(path) == old(View(path)).(parts := Visit(old(View(path)).parts, RemoteBytes(Remote(path)), blk))
      ensures lru.Contents() ==
        if Misses(old(View(path)).parts, RemoteBytes(Remote(path)), blk)
        then Touched(old(lru.Contents()), lru.capacity, Node(Pack(copy, blk), B, 0.25))
        else old(lru.Contents())
    {
      hide StoreWrite, PartsOf, Touched, Pack, Indexed, Nodes;
      ghost var o := View(path);
      var have := store.Read(hash(path), B, blk * B);
      assert Got(o.parts, B, blk * B) == if have.Some? then have.value else [];
      if have.Some? && |have.value| == B { return; }
      var got := if path in backend then Pread(backend[path], B, blk * B) else [];
      assert got == Pread(RemoteBytes(Remote(path)), B, blk * B);
      if got != [] {
        store.Write(hash(path), got, blk * B);
        assert SameAt(old(fs.files), fs.files, MirrorName(path));
        lru.Touch(Pack(copy, blk), B, 0.25);
      }
    }

    /**
     * A prefetch job that runs between two calls: it visits its window of blocks, and touches those it had to fetch.
     * The invariant survives exactly when the entry was not evicted meanwhile or nothing was fetched, and the keys
     * stay those of entries exactly when nothing was fetched or the job's copy has the address of an entry.
     */
    method RunPrefetch(path: string, first: nat, copy: nat)
      requires Valid() && path in entries
      modifies fs, lru
      ensures lru.Valid() && OnlyParts(old(fs.files), fs.files, hash(path))
      ensures var parts := old(View(path)).parts;
        View(path) == old(View(path)).(parts := Visits(parts, RemoteBytes(Remote(path)), Window(first)))
      ensures var missed := Missed(old(View(path)).parts, RemoteBytes(Remote(path)), Window(first));
        && lru.Contents() == TouchBlocks(old(lru.Contents()), lru.capacity, copy, B, 0.25, missed)
        && (Valid() <==> !entries[path].evicted || missed == [])
        && (old(KeysKnown()) && copy < HALF - 1 && first + PREFETCH_WINDOW <= HALF ==>
              (KeysKnown() <==> missed == [] || copy in Handles(entries)))
    {
      hide Visit, Misses, PartsOf, Touched, Pack, Indexed, Nodes, EntriesOk, EvictedClean, DirtyExact, Known, OnlyParts,
           TouchBlocks, Missed, Visits, Window;
      ghost var o, F, w := View(path), RemoteBytes(Remote(path)), Window(first);
      OnlyPartsReflexive(fs.files, hash(path));
      PrefetchStart(o.parts, F, w, lru.Contents(), lru.capacity, copy);
      var i := 0;
      while i < PREFETCH_WINDOW
        invariant 0 <= i <= PREFETCH_WINDOW && lru.Valid() && OnlyParts(old(fs.files), fs.files, hash(path))
        invariant View(path) == o.(parts := Visits(o.parts, F, w[..i]))
        invariant lru.Contents() ==
          TouchBlocks(old(lru.Contents()), lru.capacity, copy, B, 0.25, Missed(o.parts, F, w[..i]))
      {
        ghost var files := fs.files;
        PrefetchStep(o.parts, F, first, i, old(lru.Contents()), lru.capacity, copy);
        PrefetchBlock(path, first + i, copy);
        OnlyPartsTransitive(old(fs.files), files, fs.files, hash(path));
        i := i + 1;
      }
      assert w[..i] == w;
      PrefetchClean(entries, nextHandle, hash, old(fs.files), fs.files, path, F, w);
      if old(KeysKnown()) && copy < HALF - 1 && first + PREFETCH_WINDOW <= HALF {
        MissedInside(o.parts, F, w, HALF);
        TouchBlocksKnown(old(lru.Contents()), lru.capacity, copy, B, 0.25, Missed(o.parts, F, w), Handles(entries));
      }
    }

    // ---- Flushing and eviction ----

    /** `flush_all`: every entry's bitmaps are on disk; nothing else changes, and no bit is cleared. */
    method FlushAll()
      requires Valid()
      modifies fs
      ensures Valid()
      ensures forall n: Name :: !n.Dirty? ==> SameAt(old(fs.files), fs.files, n)
      ensures forall p :: p in entries ==> Flushed(fs.files, meta.bitmaps, hash(p))
    {
      hide PartsOf, DirtyExact, EntriesOk, Indexed, EvictedClean, Flushed;
      var todo := entries.Keys;
      while todo != {}
        invariant todo <= entries.Keys && EvictedClean(entries, hash, fs.files)
        invariant forall n: Name :: !n.Dirty? ==> SameAt(old(fs.files), fs.files, n)
        invariant forall p :: p in entries && p !in todo ==> Flushed(fs.files, meta.bitmaps, hash(p))
        decreases |todo|
      {
        var p :| p in todo;
        ghost var files := fs.files;
        meta.FlushBitmaps(hash(p));
        FlushKeeps(entries, hash, meta.bitmaps, files, fs.files, p, todo);
        forall n: Name | !n.Dirty? ensures SameAt(old(fs.files), fs.files, n) {
          assert SameAt(old(fs.files), files, n) && SameAt(files, fs.files, n);
        }
        todo := todo - {p};
      }
    }

    /**
     * Every key of the policy decodes to an entry. Reads and writes keep this while handles and block indices fit 32
     * bits; a prefetch job that fetched a block ends it, because its keys hold the address of the job's own copy.
     */
    ghost predicate KeysKnown()
      reads this, lru
    {
      Known(lru.Contents(), Handles(entries))
    }

    /** The loop of `used_gb` over all files. */
    method UsedBytes() returns (bytes: nat)
      ensures bytes == Usage(fs.files)
    {
      bytes := 0;
      var rest := fs.files;
      while rest != map[]
        invariant bytes + Usage(rest) == Usage(fs.files)
        decreases |rest|
      {
        var n :| n in rest;
        UsageSplit(rest, n);
        bytes := bytes + |rest[n]|;
        rest := rest - {n};
      }
    }

    /** One eviction: the object's files go, its bitmaps are written out again, and the entry is marked. */
    method EvictPath(path: string)
      requires Valid() && path in entries
      modifies this`entries, fs
      ensures Valid() && entries == old(entries)[path := old(entries)[path].(evicted := true)]
      ensures forall n: Name :: !OfObject(n, hash(path)) ==> SameAt(old(fs.files), fs.files, n)
      ensures forall p: nat :: Data(hash(path), p) !in fs.files
      ensures Flushed(fs.files, meta.bitmaps, hash(path))
    {
      hide PartsOf, DirtyExact, EntriesOk, Indexed, EvictedClean, Encodes;
      var h := hash(path);
      store.DeleteObject(h);
      ghost var files := fs.files;
      meta.FlushBitmaps(h);
      forall n: Name | !OfObject(n, h) ensures SameAt(old(fs.files), fs.files, n) {
        assert SameAt(files, fs.files, n);
      }
      forall p: nat ensures Data(h, p) !in fs.files {
        assert SameAt(files, fs.files, Data(h, p));
      }
      EvictKeeps(entries, nextHandle, hash, old(fs.files), fs.files, path);
      entries := entries[path := entries[path].(evicted := true)];
    }

    /** One victim's key: its entry is evicted, unless its address is null or no entry's. `s` is the state in front of it. */
    method EvictKey(key: nat, ghost s: EvictState) returns (foreign: Option<nat>)
      requires Valid() && s.entries == entries && s.files == fs.files && key == VictimId(s.order) != SENTINEL
      requires lru.Contents() == Evicted(s.order)
      modifies this`entries, fs
      ensures Valid() && Handles(entries) == old(Handles(entries))
      ensures foreign.None? ==> EvictStep(hash, s, EvictNow())
      ensures foreign.Some? ==>
        && foreign.value == Unpack(key) != 0 && foreign.value !in Handles(entries)
        && entries == old(entries) && fs.files == old(fs.files)
    {
      hide PartsOf, DirtyExact, EntriesOk, Indexed, EvictedClean, Nodes, Evicted, VictimId, Flushed, Unpack;
      foreign := None;
      var address := Unpack(key);
      if address != 0 {
        HandleOf(entries, address);
        if path :| path in entries && entries[path].handle == address {
          if !entries[path].evicted {
            EvictPath(path);
            SameHandles(s.entries, path);
          }
          EvictStepOf(hash, s, EvictNow(), path);
        } else {
          foreign := Some(address);
        }
      } else {
        EvictStepNull(hash, s, EvictNow());
      }
    }

    ghost function EvictNow(): EvictState
      reads this, fs, lru
    {
      EvictState(entries, fs.files, lru.Contents())
    }

    /**
     * `evict_until_gb`: takes victims from the policy while usage is above the target, evicts the entry of each, and
     * leaves alone every file that does not belong to an entry it evicted; it ends with usage at or below the target
     * or with an empty policy. A null address is skipped. `foreign` is the first address met that is no entry's: the
     * source dereferences it, so nothing can be said past that point. It never happens while every key decodes to an
     * entry. `trace` lists the states before each victim and at the end.
     */
    method EvictUntilGb(freeGb: real) returns (foreign: Option<nat>, ghost trace: seq<EvictState>)
      requires Valid()
      modifies this`entries, fs, lru
      ensures Valid()
      ensures trace != [] && EvictChain(hash, freeGb, trace) && trace[0] == old(EvictNow())
      ensures entries == trace[|trace| - 1].entries && fs.files == trace[|trace| - 1].files
      ensures foreign.None? && Scannable(old(lru.Contents())) ==>
        lru.Contents() == trace[|trace| - 1].order && (Usage(fs.files) as real / GIB <= freeGb || lru.Contents() == [])
      ensures foreign.Some? ==>
        && Usage(fs.files) as real / GIB > freeGb && foreign.value != 0 && foreign.value !in Handles(entries)
        && foreign.value == Unpack(VictimId(trace[|trace| - 1].order))
        && exists n :: n in old(lru.Contents()) && Unpack(n.id) == foreign.value
      ensures old(KeysKnown()) ==> foreign.None? && KeysKnown() && Scannable(old(lru.Contents()))
      ensures Scannable(old(lru.Contents())) ==>
        && TakenExactly(old(entries), entries, old(lru.Contents()), lru.Contents())
        && LeftHandled(entries, foreign, old(lru.Contents()), lru.Contents())
      ensures Usage(old(fs.files)) as real / GIB <= freeGb ==>
        foreign.None? && entries == old(entries) && fs.files == old(fs.files) && lru.Contents() == old(lru.Contents())
      ensures Evictions(old(entries), entries, old(lru.Contents()))
      ensures EvictFrame(old(entries), entries, hash, old(fs.files), fs.files)
    {
      hide PartsOf, DirtyExact, EntriesOk, Indexed, EvictedClean, Nodes, Known, Evicted, VictimId, Evictions, EvictFrame,
           Scannable, Handles, EvictStep, Distinct, TakenExactly, LeftHandled, EvictChain, Unpack;
      foreign := None;
      trace := [EvictNow()];
      ChainStart(hash, freeGb, EvictNow());
      IndexedDistinct(lru.order, lru.index);
      if KeysKnown() { KnownScannable(lru.Contents(), Handles(entries)); }
      var used := UsedBytes();
      while used as real / GIB > freeGb
        invariant Valid() && used == Usage(fs.files) && foreign.None?
        invariant trace != [] && EvictChain(hash, freeGb, trace) && trace[0] == old(EvictNow()) && trace[|trace| - 1] == EvictNow()
        invariant Usage(old(fs.files)) as real / GIB <= freeGb ==> |trace| == 1
        invariant old(KeysKnown()) ==> KeysKnown()
        invariant Scannable(trace[0].order) ==> Scannable(lru.Contents())
        decreases |lru.Contents()|
      {
        ghost var now := EvictNow();
        VictimFacts(now.order);
        if KeysKnown() { EvictedKnown(now.order, Handles(entries)); }
        var key := lru.Evict();
        if key == SENTINEL { break; }
        foreign := EvictKey(key, now);
        if foreign.Some? {
          ForeignLeft(hash, freeGb, trace, nextHandle, foreign.value);
          break;
        }
        ChainAppend(hash, freeGb, trace, EvictNow());
        trace := trace + [EvictNow()];
        used := UsedBytes();
      }
      ChainTaken(hash, freeGb, trace, nextHandle);
      ChainFrames(hash, freeGb, trace, nextHandle);
    }
  }

  // ---- Flushing and eviction on values ----

  lemma FlushKeeps(entries: Entries, hash: string -> Hash, bm: Bitmaps, files: Files, files': Files, path: string, todo: set<string>)
    requires EvictedClean(entries, hash, files) && path in entries
    requires forall n: Name :: !(n.Dirty? && n.hash == hash(path)) ==> SameAt(files, files', n)
    requires Flushed(files', bm, hash(path))
    requires forall p :: p in entries && p !in todo ==> Flushed(files, bm, hash(p))
    ensures EvictedClean(entries, hash, files')
    ensures forall p :: p in entries && p !in todo - {path} ==> Flushed(files', bm, hash(p))
  {
    hide PartsOf, Encodes;
    forall p | p in entries && entries[p].evicted ensures PartsOf(files', hash(p)) == map[] {
      PartsFrame(files, files', hash(p));
    }
    forall p | p in entries && p !in todo - {path} ensures Flushed(files', bm, hash(p)) {
      if hash(p) != hash(path) {
        assert Flushed(files, bm, hash(p));
        forall q | q in PartBitmaps(bm, hash(p)) ensures SameAt(files, files', Dirty(hash(p), q)) {
        }
      }
    }
  }

  ghost function Handles(entries: Entries): set<nat> { set p | p in entries :: entries[p].handle }

  /** Touching an entry's blocks keeps the keys known, while its handle and the block indices fit 32 bits. */
  lemma KeysStayKnown(order: seq<Node>, capacity: nat, entries: Entries, entries': Entries, path: string, off: nat, len: nat)
    requires Known(order, Handles(entries)) && off + len <= HALF * B
    requires path in entries' && entries'[path].handle < HALF - 1
    requires forall p :: p in entries ==> p in entries' && entries'[p].handle == entries[p].handle
    ensures Known(TouchBlocks(order, capacity, entries'[path].handle, B, 1.0, BlocksOf(off, len)), Handles(entries'))
  {
    hide Unpack, Score, BlocksOf, TouchBlocks;
    forall i | 0 <= i < |order| ensures Unpack(order[i].id) in Handles(entries') {
      assert Unpack(order[i].id) in Handles(entries);
      var p :| p in entries && entries[p].handle == Unpack(order[i].id);
      assert entries'[p].handle == Unpack(order[i].id);
    }
    var bs := BlocksOf(off, len);
    BlocksTile(off, len);
    assert forall i :: 0 <= i < |bs| ==> bs[i] < HALF;
    TouchBlocksKnown(order, capacity, entries'[path].handle, B, 1.0, bs, Handles(entries'));
  }

  lemma HandleBound(entries: Entries, nextHandle: nat, hash: string -> Hash, path: string)
    requires EntriesOk(entries, nextHandle, hash) && path in entries
    ensures entries[path].handle < nextHandle
  {
  }

  lemma ReadKeysKnown(b0: Books, b: Books, nextHandle: nat, hash: string -> Hash, path: string, e: Entry, capacity: nat,
                      o: Object, remote: Option<File>, stack: nat -> Block, off: nat, len: nat)
    requires Booked(b0, b, path, e, capacity, ReadRun(o, remote, stack, off, len).blocks)
    requires path in b0.entries ==> b0.entries[path] == e
    requires EntriesOk(b.entries, nextHandle, hash)
    ensures Known(b0.order, Handles(b0.entries)) && off + len <= HALF * B && nextHandle < HALF ==>
            Known(b.order, Handles(b.entries))
  {
    hide Known, TouchBlocks, ReadRun, BlocksOf, Handles;
    if Known(b0.order, Handles(b0.entries)) && off + len <= HALF * B && nextHandle < HALF {
      var r := ReadRun(o, remote, stack, off, len);
      ReadTiles(o, remote, stack, off, len);
      KeysStayKnown(b0.order, capacity, b0.entries, b.entries, path, off, |r.out|);
    }
  }

  lemma EvictKeeps(entries: Entries, nextHandle: nat, hash: string -> Hash, files: Files, files': Files, path: string)
    requires path in entries && EntriesOk(entries, nextHandle, hash) && EvictedClean(entries, hash, files)
    requires forall n: Name :: !OfObject(n, hash(path)) ==> SameAt(files, files', n)
    requires forall p: nat :: Data(hash(path), p) !in files'
    ensures var entries' := entries[path := entries[path].(evicted := true)];
            EntriesOk(entries', nextHandle, hash) && EvictedClean(entries', hash, files')
  {
    assert PartsOf(files', hash(path)) == map[];
    forall p | p in entries && p != path && entries[p].evicted ensures PartsOf(files', hash(p)) == map[] {
      PartsFrame(files, files', hash(p));
    }
  }

  // ---- The eviction loop, step by step ----

  datatype EvictState = EvictState(entries: Entries, files: Files, order: seq<Node>)

  /** What taking one victim does to the entry of its key: an entry that is not evicted yet loses its files. */
  ghost predicate EvictOne(hash: string -> Hash, s: EvictState, s': EvictState, path: string)
    requires path in s.entries
  {
    if s.entries[path].evicted then s'.entries == s.entries && s'.files == s.files
    else
      && s'.entries == s.entries[path := s.entries[path].(evicted := true)]
      && (forall p: nat :: Data(hash(path), p) !in s'.files)
      && (forall n: Name :: !OfObject(n, hash(path)) ==> SameAt(s.files, s'.files, n))
  }

  ghost predicate EvictStep(hash: string -> Hash, s: EvictState, s': EvictState) {
    var address := Unpack(VictimId(s.order));
    && VictimId(s.order) != SENTINEL && s'.order == Evicted(s.order)
    && if address == 0 then s'.entries == s.entries && s'.files == s.files
       else exists path :: path in s.entries && s.entries[path].handle == address && EvictOne(hash, s, s', path)
  }

  /** Victims were taken one after the other, each while usage was above the target. */
  ghost predicate EvictChain(hash: string -> Hash, freeGb: real, trace: seq<EvictState>) {
    && trace != []
    && forall i :: 0 <= i < |trace| - 1 ==>
         Usage(trace[i].files) as real / GIB > freeGb && EvictStep(hash, trace[i], trace[i + 1])
  }

  lemma ChainStart(hash: string -> Hash, freeGb: real, s: EvictState)
    ensures EvictChain(hash, freeGb, [s])
  {
  }

  lemma ChainAppend(hash: string -> Hash, freeGb: real, trace: seq<EvictState>, s: EvictState)
    requires EvictChain(hash, freeGb, trace) && EvictStep(hash, trace[|trace| - 1], s)
    requires Usage(trace[|trace| - 1].files) as real / GIB > freeGb
    ensures EvictChain(hash, freeGb, trace + [s]) && Usage(trace[0].files) as real / GIB > freeGb
  {
    hide EvictStep, Usage;
    if |trace| > 1 { assert Usage(trace[0].files) as real / GIB > freeGb && EvictStep(hash, trace[0], trace[0 + 1]); }
  }

  lemma EvictStepOf(hash: string -> Hash, s: EvictState, s': EvictState, path: string)
    requires path in s.entries && s.entries[path].handle == Unpack(VictimId(s.order)) != 0 && EvictOne(hash, s, s', path)
    requires VictimId(s.order) != SENTINEL && s'.order == Evicted(s.order)
    ensures EvictStep(hash, s, s')
  {
  }

  lemma EvictStepNull(hash: string -> Hash, s: EvictState, s': EvictState)
    requires Unpack(VictimId(s.order)) == 0 && s'.entries == s.entries && s'.files == s.files
    requires VictimId(s.order) != SENTINEL && s'.order == Evicted(s.order)
    ensures EvictStep(hash, s, s')
  {
  }

  /** Some key of the entry left the policy. */
  ghost predicate KeyLeft(order0: seq<Node>, order: seq<Node>, handle: nat) {
    exists n :: n in order0 && n !in order && Unpack(n.id) == handle
  }

  /** Evicted now are the entries that were evicted before and those of which a key left the policy. */
  ghost predicate TakenExactly(entries0: Entries, entries: Entries, order0: seq<Node>, order: seq<Node>) {
    && entries.Keys == entries0.Keys
    && forall p :: p in entries0 ==>
         && entries[p] == entries0[p].(evicted := entries[p].evicted)
         && (entries[p].evicted <==> entries0[p].evicted || KeyLeft(order0, order, entries0[p].handle))
  }

  /** Every node that left the policy has a null address, that of an entry now evicted, or the foreign one. */
  ghost predicate LeftHandled(entries: Entries, foreign: Option<nat>, order0: seq<Node>, order: seq<Node>) {
    forall n :: n in order0 && n !in order ==> HandledAddress(entries, foreign, Unpack(n.id))
  }

  ghost predicate HandledAddress(entries: Entries, foreign: Option<nat>, address: nat) {
    || address == 0 || foreign == Some(address)
    || exists p :: p in entries && entries[p].handle == address && entries[p].evicted
  }

  /** Taking a victim removes exactly its node. */
  lemma VictimLeaves(o: seq<Node>) returns (v: Node)
    requires Distinct(o) && VictimId(o) != SENTINEL
    ensures v in o && v !in Evicted(o) && v.id == VictimId(o) && Distinct(Evicted(o))
    ensures forall n :: n in o ==> n == v || n in Evicted(o)
    ensures forall n :: n in Evicted(o) ==> n in o
  {
    hide Scan, Without, Distinct;
    var k := Victim(o).value;
    v := o[k];
    WithoutMembers(o, k);
    WithoutDistinct(o, k);
  }

  lemma LeftGrows(order0: seq<Node>, o: seq<Node>, o': seq<Node>, v: Node, handle: nat)
    requires v in o && v !in o' && v in order0 && (forall n :: n in o ==> n == v || n in o') && (forall n :: n in o' ==> n in o)
    ensures KeyLeft(order0, o', handle) <==> KeyLeft(order0, o, handle) || Unpack(v.id) == handle
  {
    hide Unpack;
    if KeyLeft(order0, o, handle) {
      var n :| n in order0 && n !in o && Unpack(n.id) == handle;
      assert n !in o';
    }
    if KeyLeft(order0, o', handle) {
      var n :| n in order0 && n !in o' && Unpack(n.id) == handle;
      assert n == v || n !in o;
    }
  }

  /** One step of the loop: the entry of the victim's key is evicted now, all others are as they were. */
  lemma TakenStep(hash: string -> Hash, s0: EvictState, s: EvictState, s': EvictState, nextHandle: nat)
    requires EntriesOk(s0.entries, nextHandle, hash) && EvictStep(hash, s, s')
    requires Distinct(s.order) && forall n :: n in s.order ==> n in s0.order
    requires TakenExactly(s0.entries, s.entries, s0.order, s.order) && LeftHandled(s.entries, None, s0.order, s.order)
    ensures Distinct(s'.order) && forall n :: n in s'.order ==> n in s0.order
    ensures TakenExactly(s0.entries, s'.entries, s0.order, s'.order) && LeftHandled(s'.entries, None, s0.order, s'.order)
  {
    hide Unpack, VictimId, Evicted, KeyLeft, HandledAddress, Distinct, SameAt;
    var v := VictimLeaves(s.order);
    VictimEvicted(hash, s0, s, s', nextHandle, v);
    forall p | p in s0.entries
      ensures s'.entries[p].evicted <==> s0.entries[p].evicted || KeyLeft(s0.order, s'.order, s0.entries[p].handle)
    {
      LeftGrows(s0.order, s.order, s'.order, v, s0.entries[p].handle);
    }
    forall n | n in s0.order && n !in s'.order ensures HandledAddress(s'.entries, None, Unpack(n.id)) {
      if n != v {
        assert n !in s.order;
        StaysHandled(s.entries, s'.entries, Unpack(n.id));
      }
    }
  }

  lemma StaysHandled(entries: Entries, entries': Entries, address: nat)
    requires HandledAddress(entries, None, address)
    requires forall p :: p in entries ==>
      p in entries' && entries'[p].handle == entries[p].handle && (entries[p].evicted ==> entries'[p].evicted)
    ensures HandledAddress(entries', None, address)
  {
  }

  lemma VictimEvicted(hash: string -> Hash, s0: EvictState, s: EvictState, s': EvictState, nextHandle: nat, v: Node)
    requires EntriesOk(s0.entries, nextHandle, hash) && EvictStep(hash, s, s') && v.id == VictimId(s.order)
    requires s.entries.Keys == s0.entries.Keys
    requires forall p :: p in s.entries ==> s.entries[p] == s0.entries[p].(evicted := s.entries[p].evicted)
    ensures s'.entries.Keys == s0.entries.Keys && HandledAddress(s'.entries, None, Unpack(v.id))
    ensures forall p :: p in s.entries ==>
      && s'.entries[p] == s.entries[p].(evicted := s'.entries[p].evicted)
      && (s'.entries[p].evicted <==> s.entries[p].evicted || s.entries[p].handle == Unpack(v.id))
  {
    hide Unpack, VictimId, Evicted, SameAt, EntriesOk;
    var address := Unpack(VictimId(s.order));
    if address != 0 {
      var path :| path in s.entries && s.entries[path].handle == address && EvictOne(hash, s, s', path);
      assert s'.entries[path].handle == address && s'.entries[path].evicted;
      forall p | p in s.entries && s.entries[p].handle == address ensures p == path {
        UniqueHandle(s0.entries, nextHandle, hash, p, path);
      }
    } else {
      forall p | p in s.entries ensures s.entries[p].handle != 0 { PositiveHandle(s0.entries, nextHandle, hash, p); }
    }
  }

  lemma UniqueHandle(entries: Entries, nextHandle: nat, hash: string -> Hash, p: string, q: string)
    requires EntriesOk(entries, nextHandle, hash) && p in entries && q in entries && entries[p].handle == entries[q].handle
    ensures p == q
  {
  }

  lemma PositiveHandle(entries: Entries, nextHandle: nat, hash: string -> Hash, p: string)
    requires EntriesOk(entries, nextHandle, hash) && p in entries
    ensures entries[p].handle > 0
  {
  }

  /** Over the whole loop: evicted are exactly the entries of which a key left. */
  lemma {:induction false} ChainTaken(hash: string -> Hash, freeGb: real, trace: seq<EvictState>, nextHandle: nat)
    requires EvictChain(hash, freeGb, trace) && EntriesOk(trace[0].entries, nextHandle, hash) && Distinct(trace[0].order)
    ensures var s0, s := trace[0], trace[|trace| - 1];
            && Distinct(s.order) && (forall n :: n in s.order ==> n in s0.order)
            && TakenExactly(s0.entries, s.entries, s0.order, s.order) && LeftHandled(s.entries, None, s0.order, s.order)
    decreases |trace|
  {
    hide TakenExactly, LeftHandled, EvictStep, EntriesOk, Distinct;
    var n := |trace| - 1;
    if n == 0 {
      NothingTaken(trace[0]);
    } else {
      assert forall i :: 0 <= i < n ==> trace[..n][i] == trace[i];
      ChainTaken(hash, freeGb, trace[..n], nextHandle);
      assert EvictStep(hash, trace[n - 1], trace[n - 1 + 1]);
      TakenStep(hash, trace[0], trace[n - 1], trace[n], nextHandle);
    }
  }

  lemma NothingTaken(s: EvictState)
    ensures TakenExactly(s.entries, s.entries, s.order, s.order) && LeftHandled(s.entries, None, s.order, s.order)
  {
  }

  /** A foreign key that left belongs to no entry, so it takes none. */
  lemma ForeignLeft(hash: string -> Hash, freeGb: real, trace: seq<EvictState>, nextHandle: nat, address: nat)
    requires EvictChain(hash, freeGb, trace) && EntriesOk(trace[0].entries, nextHandle, hash) && Distinct(trace[0].order)
    requires VictimId(trace[|trace| - 1].order) != SENTINEL && Unpack(VictimId(trace[|trace| - 1].order)) == address
    requires address !in Handles(trace[|trace| - 1].entries)
    ensures var s0, s := trace[0], trace[|trace| - 1];
            && TakenExactly(s0.entries, s.entries, s0.order, Evicted(s.order))
            && LeftHandled(s.entries, Some(address), s0.order, Evicted(s.order))
            && exists n :: n in s0.order && Unpack(n.id) == address
  {
    hide Unpack, VictimId, Evicted, KeyLeft, Distinct, EvictStep, Usage;
    ChainTaken(hash, freeGb, trace, nextHandle);
    var s0, s := trace[0], trace[|trace| - 1];
    var v := VictimLeaves(s.order);
    forall p | p in s0.entries
      ensures KeyLeft(s0.order, Evicted(s.order), s0.entries[p].handle) <==> KeyLeft(s0.order, s.order, s0.entries[p].handle)
    {
      LeftGrows(s0.order, s.order, Evicted(s.order), v, s0.entries[p].handle);
      assert s.entries[p].handle in Handles(s.entries);
    }
    forall n | n in s0.order && n !in Evicted(s.order) ensures HandledAddress(s.entries, Some(address), Unpack(n.id)) {
      if n != v { assert n !in s.order && HandledAddress(s.entries, None, Unpack(n.id)); }
    }
  }

  /** Over the whole loop: only entries with a key in the policy are evicted, and all other files stay. */
  lemma ChainFrames(hash: string -> Hash, freeGb: real, trace: seq<EvictState>, nextHandle: nat)
    requires EvictChain(hash, freeGb, trace) && EntriesOk(trace[0].entries, nextHandle, hash) && Distinct(trace[0].order)
    ensures var s0, s := trace[0], trace[|trace| - 1];
            Evictions(s0.entries, s.entries, s0.order) && EvictFrame(s0.entries, s.entries, hash, s0.files, s.files)
  {
    hide EvictStep, Usage, Unpack, Distinct, LeftHandled, EvictFrame;
    ChainTaken(hash, freeGb, trace, nextHandle);
    ChainFrame(hash, freeGb, trace, nextHandle);
  }

  lemma {:induction false} ChainFrame(hash: string -> Hash, freeGb: real, trace: seq<EvictState>, nextHandle: nat)
    requires EvictChain(hash, freeGb, trace) && EntriesOk(trace[0].entries, nextHandle, hash) && Distinct(trace[0].order)
    ensures var s0, s := trace[0], trace[|trace| - 1]; EvictFrame(s0.entries, s.entries, hash, s0.files, s.files)
    decreases |trace|
  {
    hide TakenExactly, LeftHandled, EvictStep, EntriesOk, Distinct, EvictFrame;
    var n := |trace| - 1;
    if n == 0 {
      FrameStart(trace[0], hash);
    } else {
      assert forall i :: 0 <= i < n ==> trace[..n][i] == trace[i];
      ChainTaken(hash, freeGb, trace[..n], nextHandle);
      ChainFrame(hash, freeGb, trace[..n], nextHandle);
      assert EvictStep(hash, trace[n - 1], trace[n - 1 + 1]);
      FrameStep(hash, trace[0], trace[n - 1], trace[n]);
    }
  }

  lemma FrameStart(s: EvictState, hash: string -> Hash)
    ensures EvictFrame(s.entries, s.entries, hash, s.files, s.files)
  {
  }

  lemma FrameStep(hash: string -> Hash, s0: EvictState, s: EvictState, s': EvictState)
    requires EvictStep(hash, s, s') && TakenExactly(s0.entries, s.entries, s0.order, s.order)
    requires EvictFrame(s0.entries, s.entries, hash, s0.files, s.files)
    ensures EvictFrame(s0.entries, s'.entries, hash, s0.files, s'.files)
  {
    hide Unpack, VictimId, Evicted, KeyLeft, EvictFrame;
    var address := Unpack(VictimId(s.order));
    if address != 0 {
      var path :| path in s.entries && s.entries[path].handle == address && EvictOne(hash, s, s', path);
      if !s.entries[path].evicted {
        EvictFrameStep(s0.entries, s.entries, hash, s0.files, s.files, s'.files, path);
      }
    }
  }

  /** The keys are taken in the order in which draining the policy yields them. */
  lemma {:induction false} ChainDrains(hash: string -> Hash, freeGb: real, trace: seq<EvictState>)
    requires EvictChain(hash, freeGb, trace)
    ensures var k := |trace| - 1;
            && k <= |Drain(trace[0].order)|
            && (forall i :: 0 <= i < k ==> Drain(trace[0].order)[i].id == VictimId(trace[i].order))
            && Drain(trace[k].order) == Drain(trace[0].order)[k..]
    decreases |trace|
  {
    hide EvictStep, VictimId;
    var n := |trace| - 1;
    if n > 0 {
      assert forall i :: 0 <= i < n ==> trace[..n][i] == trace[i];
      ChainDrains(hash, freeGb, trace[..n]);
      assert EvictStep(hash, trace[n - 1], trace[n - 1 + 1]);
      StepDrains(hash, trace[n - 1], trace[n]);
      var d := Drain(trace[0].order);
      assert d[n - 1..][0] == d[n - 1] && d[n - 1..][1..] == d[n..];
    }
  }

  lemma StepDrains(hash: string -> Hash, s: EvictState, s': EvictState)
    requires EvictStep(hash, s, s')
    ensures Drain(s.order) != [] && Drain(s.order)[0].id == VictimId(s.order) && Drain(s'.order) == Drain(s.order)[1..]
  {
    hide Unpack, Scan, EvictOne;
  }

  /** Entries differ only in that some, each with a key in the policy, became evicted. */
  ghost predicate Evictions(entries0: Entries, entries: Entries, order: seq<Node>) {
    && entries.Keys == entries0.Keys
    && forall p :: p in entries0 ==>
         entries[p] == entries0[p]
         || (entries[p] == entries0[p].(evicted := true) && exists n :: n in order && Unpack(n.id) == entries0[p].handle)
  }

  /** A file that does not belong to a newly evicted entry is as it was. */
  ghost predicate EvictFrame(entries0: Entries, entries: Entries, hash: string -> Hash, files0: Files, files: Files) {
    forall n: Name ::
      (forall p :: p in entries && p in entries0 && entries[p].evicted && !entries0[p].evicted ==> !OfObject(n, hash(p)))
      ==> SameAt(files0, files, n)
  }

  lemma HandleOf(entries: Entries, address: nat)
    ensures address in Handles(entries) <==> exists p :: p in entries && entries[p].handle == address
  {
  }

  lemma SameHandles(entries: Entries, path: string)
    requires path in entries
    ensures Handles(entries[path := entries[path].(evicted := true)]) == Handles(entries)
  {
    var entries' := entries[path := entries[path].(evicted := true)];
    assert forall p :: p in entries ==> entries'[p].handle == entries[p].handle;
  }

  lemma EvictFrameStep(entries0: Entries, entries: Entries, hash: string -> Hash, files0: Files, files: Files, files': Files, path: string)
    requires EvictFrame(entries0, entries, hash, files0, files) && path in entries && !entries[path].evicted
    requires entries.Keys == entries0.Keys && forall p :: p in entries0 && entries0[p].evicted ==> entries[p].evicted
    requires forall n: Name :: !OfObject(n, hash(path)) ==> SameAt(files, files', n)
    ensures EvictFrame(entries0, entries[path := entries[path].(evicted := true)], hash, files0, files')
  {
    var entries' := entries[path := entries[path].(evicted := true)];
    forall n: Name |
      (forall p :: p in entries' && p in entries0 && entries'[p].evicted && !entries0[p].evicted ==> !OfObject(n, hash(p)))
      ensures SameAt(files0, files', n)
    {
      assert entries'[path].evicted && !entries0[path].evicted;
      assert forall p :: p in entries && p in entries0 && entries[p].evicted && !entries0[p].evicted ==>
        entries'[p].evicted && !OfObject(n, hash(p));
      assert SameAt(files0, files, n) && SameAt(files, files', n);
    }
  }

  // ---- A prefetch job on values ----

  lemma PrefetchStart(ps: Parts, F: File, w: seq<nat>, order: seq<Node>, capacity: nat, copy: nat)
    ensures Visits(ps, F, w[..0]) == ps && TouchBlocks(order, capacity, copy, B, 0.25, Missed(ps, F, w[..0])) == order
  {
  }

  lemma PrefetchStep(ps: Parts, F: File, first: nat, i: nat, order: seq<Node>, capacity: nat, copy: nat)
    requires i < PREFETCH_WINDOW
    ensures var w, blk := Window(first), first + i;
            var now := Visits(ps, F, w[..i]);
            var touched := TouchBlocks(order, capacity, copy, B, 0.25, Missed(ps, F, w[..i]));
            && Visits(ps, F, w[..i + 1]) == Visit(now, F, blk)
            && TouchBlocks(order, capacity, copy, B, 0.25, Missed(ps, F, w[..i + 1])) ==
               (if Misses(now, F, blk) then Touched(touched, capacity, Node(Pack(copy, blk), B, 0.25)) else touched)
  {
    hide Visit, Misses, TouchBlocks, Touched, Pack;
    var w, blk := Window(first), first + i;
    assert w[..i + 1] == w[..i] + [blk];
    VisitsConcat(ps, F, w[..i], [blk]);
    VisitsOne(Visits(ps, F, w[..i]), F, blk);
    TouchAppend(order, capacity, copy, 0.25, Missed(ps, F, w[..i]), blk);
    assert Missed(ps, F, w[..i]) + [] == Missed(ps, F, w[..i]);
  }

  lemma PrefetchClean(entries: Entries, nextHandle: nat, hash: string -> Hash, files: Files, files': Files,
                      path: string, F: File, w: seq<nat>)
    requires EntriesOk(entries, nextHandle, hash) && EvictedClean(entries, hash, files) && path in entries
    requires OnlyParts(files, files', hash(path))
    requires PartsOf(files', hash(path)) == Visits(PartsOf(files, hash(path)), F, w)
    ensures EvictedClean(entries, hash, files') <==>
            !entries[path].evicted || Missed(PartsOf(files, hash(path)), F, w) == []
  {
    hide PartsOf, OnlyParts, Visits, Missed;
    VisitsFill(PartsOf(files, hash(path)), F, w);
    forall p | p in entries && entries[p].evicted && p != path ensures PartsOf(files', hash(p)) == map[] {
      OtherParts(files, files', hash(path), hash(p));
    }
  }

  // ---- The write loop on values ----

  /** The bits after the first `done` bytes of a write: those before, and those of the blocks written to. */
  ghost predicate Marked(bm: Bitmaps, bm': Bitmaps, h: Hash, off: nat, done: nat) {
    forall g: Hash, p: nat, b: nat ::
      BitIs(bm', g, p, b) <==> BitIs(bm, g, p, b) || (g == h && p == b * B / P && InRange(off, done, b))
  }

  ghost predicate InRange(off: nat, len: nat, b: nat) { len > 0 && off / B <= b <= (off + len - 1) / B }

  lemma RangeStep(off: nat, len: nat, done: nat, b: nat)
    requires done < len
    ensures InRange(off, done + Want(off + done, len - done), b) <==> InRange(off, done, b) || b == (off + done) / B
  {
    var pos := off + done;
    var w := Want(pos, len - done);
    assert pos == pos / B * B + pos % B;
    assert (pos + w - 1) / B == pos / B;
    assert done > 0 ==> pos / B - 1 <= (pos - 1) / B <= pos / B;
  }

  lemma MarkedStep(bm0: Bitmaps, bm: Bitmaps, bm': Bitmaps, h: Hash, off: nat, done: nat, len: nat)
    requires done < len && Marked(bm0, bm, h, off, done) && MarkedOne(bm, bm', h, (off + done) / B)
    ensures Marked(bm0, bm', h, off, done + Want(off + done, len - done))
  {
    hide BitIs, InRange, Want;
    forall b: nat
      ensures InRange(off, done + Want(off + done, len - done), b) <==>
              InRange(off, done, b) || b == (off + done) / B
    {
      RangeStep(off, len, done, b);
    }
  }

  lemma OverlapsRange(h: Hash, off: nat, len: nat, b: nat)
    ensures WriteEvent(h, off, len).Overlaps(b) <==> InRange(off, len, b)
  {
  }

  lemma MarkedExact(bm: Bitmaps, bm': Bitmaps, writes: seq<WriteEvent>, h: Hash, off: nat, len: nat)
    requires DirtyExact(bm, writes) && Marked(bm, bm', h, off, len)
    ensures DirtyExact(bm', writes + [WriteEvent(h, off, len)])
  {
    hide BitIs, InRange;
    var ev := WriteEvent(h, off, len);
    forall g: Hash, b: nat
      ensures SomeWrite(writes + [ev], g, b) <==> SomeWrite(writes, g, b) || (g == h && InRange(off, len, b))
    {
      OverlapsRange(h, off, len, b);
      SomeWriteAppend(writes, ev, g, b);
    }
  }

  lemma SomeWriteAppend(writes: seq<WriteEvent>, ev: WriteEvent, g: Hash, b: nat)
    ensures SomeWrite(writes + [ev], g, b) <==> SomeWrite(writes, g, b) || (ev.hash == g && ev.Overlaps(b))
  {
    var all := writes + [ev];
    assert all[|writes|] == ev;
    if SomeWrite(writes, g, b) {
      var i :| 0 <= i < |writes| && writes[i].hash == g && writes[i].Overlaps(b);
      assert all[i] == writes[i];
    }
  }

  lemma MergedIs(ps: Parts, pos: nat, chunk: File, block: File)
    requires pos % B + |chunk| <= B
    requires var have := Got(ps, B, pos / B * B);
             var padded := have + Zeros(B - |have|);
             block == padded[..pos % B] + chunk + padded[pos % B + |chunk|..]
    ensures block == Merged(ps, pos, chunk)
  {
  }

  /** One iteration of the write loop on disk: the merged block in the store, then the chunk in the mirror. */
  lemma ChunkStored(files0: Files, files1: Files, files2: Files, h: Hash, mirror: Name, pos: nat, chunk: File)
    requires mirror.Mirror? && pos % B + |chunk| <= B && OnlyParts(files0, files1, h)
    requires PartsOf(files1, h) == StoreWrite(PartsOf(files0, h), Merged(PartsOf(files0, h), pos, chunk), pos / B * B)
    requires files2 == files1[mirror := Pwrite(if mirror in files1 then files1[mirror] else [], chunk, pos)]
    ensures ObjectOf(files2, h, mirror) == WriteBlock(ObjectOf(files0, h, mirror), pos, chunk)
    ensures OnlyPath(files0, files2, h, mirror)
  {
    hide StoreWrite, Merged, PartsOf;
    PartsFrame(files1, files2, h);
    assert SameAt(files0, files1, mirror);
    forall n: Name | !(n.Data? && n.hash == h) && n != mirror ensures SameAt(files0, files2, n) {
      assert SameAt(files0, files1, n);
    }
  }

  lemma WriteStart(o: Object, off: nat, data: File, order: seq<Node>, capacity: nat, handle: nat, bm: Bitmaps, h: Hash)
    ensures WriteRun(o, off + 0, data[0..]) == WriteRun(o, off, data)
    ensures TouchBlocks(order, capacity, handle, B, 1.0, []) == order && Marked(bm, bm, h, off, 0)
    ensures [] + BlocksOf(off + 0, |data| - 0) == BlocksOf(off, |data|)
  {
    assert data[0..] == data;
  }

  lemma WriteAdvance(o: Object, off: nat, data: File, done: nat)
    requires done < |data|
    ensures var w := Want(off + done, |data| - done);
            WriteRun(o, off + done, data[done..]) ==
            WriteRun(WriteBlock(o, off + done, data[done..done + w]), off + done + w, data[done + w..])
  {
    hide WriteBlock, Want;
    var w := Want(off + done, |data| - done);
    assert data[done..][..w] == data[done..done + w] && data[done..][w..] == data[done + w..];
  }

  lemma BlocksAdvance(blocks: seq<nat>, off: nat, len: nat, done: nat)
    requires done < len && blocks + BlocksOf(off + done, len - done) == BlocksOf(off, len)
    ensures var w := Want(off + done, len - done);
            blocks + [(off + done) / B] + BlocksOf(off + done + w, len - done - w) == BlocksOf(off, len)
  {
    hide Want;
  }

  lemma TouchAppend(o: seq<Node>, capacity: nat, address: nat, hotness: real, bs: seq<nat>, blk: nat)
    ensures TouchBlocks(o, capacity, address, B, hotness, bs + [blk]) ==
            Touched(TouchBlocks(o, capacity, address, B, hotness, bs), capacity, Node(Pack(address, blk), B, hotness))
  {
    hide Touched, Pack;
    assert (bs + [blk])[..|bs|] == bs;
  }

  lemma WriteEnd(o: Object, pos: nat, blocks: seq<nat>, off: nat, data: File)
    ensures WriteRun(o, pos, data[|data|..]) == o && blocks + BlocksOf(pos, 0) == blocks
  {
  }

  lemma WriteKeepsClean(entries: Entries, nextHandle: nat, hash: string -> Hash, files: Files, files': Files, path: string)
    requires EntriesOk(entries, nextHandle, hash) && EvictedClean(entries, hash, files)
    requires OnlyPath(files, files', hash(path), MirrorName(path)) && path in entries && !entries[path].evicted
    ensures EvictedClean(entries, hash, files')
  {
    hide PartsOf;
    forall p | p in entries && entries[p].evicted ensures PartsOf(files', hash(p)) == map[] {
      PartsFrame(files, files', hash(p));
    }
  }

  lemma OnlyPathReflexive(files: Files, h: Hash, mirror: Name)
    ensures OnlyPath(files, files, h, mirror)
  {
  }

  lemma OnlyPathTransitive(f0: Files, f1: Files, f2: Files, h: Hash, mirror: Name)
    requires OnlyPath(f0, f1, h, mirror) && OnlyPath(f1, f2, h, mirror)
    ensures OnlyPath(f0, f2, h, mirror)
  {
    forall n: Name | !(n.Data? && n.hash == h) && n != mirror ensures SameAt(f0, f2, n) {
      assert SameAt(f0, f1, n) && SameAt(f1, f2, n);
    }
  }

  lemma OnlyPartsReflexive(files: Files, h: Hash)
    ensures OnlyParts(files, files, h)
  {
  }
}
