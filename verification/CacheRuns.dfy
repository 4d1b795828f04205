/** Whole runs of calls on the cache manager. */
module CacheRuns {
  import opened Posix
  import opened Parts
  import opened FsLayout
  import opened BlockStore
  import opened MetadataStore
  import opened CacheObject
  import opened LocalRefinement
  import L = LruPolicy
  import opened Sequential
  import opened Holes
  import opened Keys
  import M = CacheManager

  // ---- The simple form: one flat file for each live path ----

  /** A call on a path, with what its block buffer held before, a flush, a prefetch job that runs between calls, or an eviction down to a target. */
  datatype Step = On(path: string, op: Op, stack: nat -> Block) | Flush | Prefetch(path: string, first: nat, copy: nat) | Evict(freeGb: real)

  /**
   * One step on the flat files of the live paths. A path without flat file was evicted, and its calls answer -ENOENT.
   * `gone` holds the paths that an eviction takes; which ones depends on sizes and recency.
   */
  function FlatStep(flats: map<string, File>, step: Step, gone: set<string>): (map<string, File>, Outcome) {
    match step
    case On(path, op, _) =>
      if path in flats then
        var (flat, x) := FlatApply(flats[path], op);
        (flats[path := flat], x)
      else (flats, Outcome(-M.ENOENT, []))
    case Evict(_) => (flats - gone, Outcome(0, []))
    case _ => (flats, Outcome(0, []))
  }

  function FlatSteps(flats: map<string, File>, steps: seq<Step>, gones: seq<set<string>>): (map<string, File>, seq<Outcome>)
    requires |gones| == |steps|
    decreases |steps|
  {
    if |steps| == 0 then (flats, [])
    else
      var (flats1, x) := FlatStep(flats, steps[0], gones[0]);
      var (flats2, xs) := FlatSteps(flats1, steps[1..], gones[1..]);
      (flats2, [x] + xs)
  }

  lemma {:induction false} FlatAppend(flats: map<string, File>, steps: seq<Step>, gones: seq<set<string>>, step: Step, gone: set<string>)
    requires |gones| == |steps|
    ensures var (now, xs) := FlatSteps(flats, steps, gones);
            var (next, x) := FlatStep(now, step, gone);
            FlatSteps(flats, steps + [step], gones + [gone]) == (next, xs + [x])
    decreases |steps|
  {
    hide FlatStep;
    if |steps| == 0 {
      assert steps + [step] == [step] && gones + [gone] == [gone] && [gone][1..] == [];
      var (next, x) := FlatStep(flats, step, gone);
      NoSteps(flats);
      NoSteps(next);
      assert [x] + [] == [] + [x];
    } else {
      var (flats1, y) := FlatStep(flats, steps[0], gones[0]);
      FlatAppend(flats1, steps[1..], gones[1..], step, gone);
      var (now, xs) := FlatSteps(flats1, steps[1..], gones[1..]);
      assert [y] + (xs + [FlatStep(now, step, gone).1]) == ([y] + xs) + [FlatStep(now, step, gone).1];
      assert (steps + [step])[1..] == steps[1..] + [step] && (gones + [gone])[1..] == gones[1..] + [gone];
    }
  }

  // ---- Runs of calls ----

  /** No two of the paths share part files or a mirror file. */
  ghost predicate Independent(paths: set<string>, hash: string -> Hash) {
    forall p, q :: p in paths && q in paths && p != q ==> hash(p) != hash(q) && !M.SharesMirror(p, q)
  }

  /** The path has no backend copy and no colliding entry. */
  ghost predicate Local(c: M.CacheManager, path: string)
    reads c
  {
    c.NoCollision(path) && path !in c.backend
  }

  /** The path is live, and its files agree with the flat file. */
  ghost predicate Live(c: M.CacheManager, path: string, flat: File)
    reads c, c.fs
  {
    !c.EntryOf(path).evicted && Agrees(c.View(path), flat)
  }

  ghost predicate AllFollow(c: M.CacheManager, paths: set<string>, flats: map<string, File>)
    reads c, c.fs
  {
    && flats.Keys <= paths
    && (forall p :: p in paths ==> Local(c, p))
    && (forall p :: p in flats ==> Live(c, p, flats[p]))
    && (forall p :: p in paths && p !in flats ==> c.EntryOf(p).evicted)
  }

  /** What the eviction loop needs of a run: offsets whose block indices fit the lower half of a key. */
  ghost predicate FitsKeys(step: Step) {
    step.On? ==> step.op.off + (if step.op.Read? then step.op.len else |step.op.data|) <= HALF * B
  }

  ghost predicate Uses(steps: seq<Step>, paths: set<string>) {
    forall i :: 0 <= i < |steps| ==>
      (steps[i].On? ==> steps[i].path in paths) && (steps[i].Prefetch? ==> steps[i].path in paths)
  }

  lemma OtherView(files: Files, files': Files, p: string, q: string, hash: string -> Hash)
    requires hash(p) != hash(q) && !M.SharesMirror(p, q)
    requires M.OnlyPath(files, files', hash(p), M.MirrorName(p))
    ensures M.ObjectOf(files', hash(q), M.MirrorName(q)) == M.ObjectOf(files, hash(q), M.MirrorName(q))
  {
    M.MirrorsShared(p, q);
    PartsFrame(files, files', hash(q));
    assert SameAt(files, files', M.MirrorName(q));
  }

  lemma SameView(files: Files, files': Files, h: Hash, mirror: Name)
    requires mirror.Mirror? && forall n: Name :: !n.Dirty? ==> SameAt(files, files', n)
    ensures M.ObjectOf(files', h, mirror) == M.ObjectOf(files, h, mirror)
  {
    PartsFrame(files, files', h);
    assert SameAt(files, files', mirror);
  }

  /** Evicting other objects leaves the view of a path alone. */
  lemma EvictedElsewhere(entries: M.Entries, entries': M.Entries, files: Files, files': Files, p: string, hash: string -> Hash)
    requires M.EvictFrame(entries, entries', hash, files, files')
    requires p in entries' && p in entries && entries'[p].evicted ==> entries[p].evicted
    requires forall q :: q in entries && q != p ==> hash(q) != hash(p)
    ensures M.ObjectOf(files', hash(p), M.MirrorName(p)) == M.ObjectOf(files, hash(p), M.MirrorName(p))
  {
    forall n: Name | n.Mirror? || (n.Data? && n.hash == hash(p)) ensures SameAt(files, files', n) {
    }
    PartsFrame(files, files', hash(p));
    assert SameAt(files, files', M.MirrorName(p));
  }

  /** What a caller sees of a call on a live path. */
  function OutcomeOf(o: Object, remote: Option<File>, op: Op, stack: nat -> Block): Outcome {
    match op
    case Read(off, len) => var r := ReadRun(o, remote, stack, off, len); Outcome(r.Rc(), r.out)
    case Write(_, data) => Outcome(|data|, [])
  }

  /** Without a backend copy a call is a step of the value model. */
  lemma LocalCall(o: Object, op: Op, stack: nat -> Block)
    ensures (After(o, None, Do(op, stack)), OutcomeOf(o, None, op, stack)) == Apply(o, stack, op)
  {
    hide ReadRun, WriteRun;
  }

  /** One call, on the manager's side: a step of the value model on its path, and nothing on any other path. */
  method Call(c: M.CacheManager, path: string, op: Op, stack: nat -> Block) returns (rc: int, bytes: File)
    requires c.Valid() && c.NoCollision(path)
    modifies c, c.fs, c.meta, c.lru
    ensures c.Valid() && c.NoCollision(path) && c.EntryOf(path).evicted == old(c.EntryOf(path)).evicted
    ensures !old(c.EntryOf(path)).evicted ==>
      && c.View(path) == After(old(c.View(path)), c.Remote(path), Do(op, stack))
      && Outcome(rc, bytes) == OutcomeOf(old(c.View(path)), c.Remote(path), op, stack)
    ensures old(c.EntryOf(path)).evicted ==> Outcome(rc, bytes) == Outcome(-M.ENOENT, [])
    ensures M.OnlyPath(old(c.fs.files), c.fs.files, c.hash(path), M.MirrorName(path))
    ensures c.entries.Keys == old(c.entries).Keys + {path} && c.nextHandle <= old(c.nextHandle) + 1
    ensures forall q :: q in old(c.entries) && q != path ==> c.entries[q] == old(c.entries)[q]
    ensures old(c.KeysKnown()) && FitsKeys(On(path, op, stack)) && c.nextHandle < HALF ==> c.KeysKnown()
  {
    hide ReadRun, WriteRun, M.EntriesOk, M.EvictedClean, M.DirtyExact, M.Handles, Known;
    match op {
      case Read(off, len) => rc, bytes := c.Read(path, len, off, stack);
      case Write(off, data) =>
        rc := c.Write(path, data, off);
        bytes := [];
    }
  }

  /** A call keeps every path in step with its flat file, live or evicted. */
  method PerformCall(c: M.CacheManager, path: string, op: Op, stack: nat -> Block, ghost paths: set<string>, ghost flats: map<string, File>)
    returns (x: Outcome)
    requires c.Valid() && AllFollow(c, paths, flats) && Independent(paths, c.hash) && path in paths
    modifies c, c.fs, c.meta, c.lru
    ensures var (flats', y) := FlatStep(flats, On(path, op, stack), {}); AllFollow(c, paths, flats') && x == y
    ensures c.Valid() && c.nextHandle <= old(c.nextHandle) + 1
    ensures old(c.KeysKnown()) && FitsKeys(On(path, op, stack)) && c.nextHandle < HALF ==> c.KeysKnown()
  {
    hide Agrees, Apply, FlatApply, After, OutcomeOf, M.EntriesOk, M.EvictedClean, M.DirtyExact, M.OnlyPath, M.ObjectOf,
         M.Handles, Known, FitsKeys;
    ghost var files := c.fs.files;
    assert Local(c, path);
    if path in flats {
      assert Live(c, path, flats[path]);
      ApplyRefines(c.View(path), flats[path], stack, op);
      LocalCall(c.View(path), op, stack);
    }
    var rc, bytes := Call(c, path, op, stack);
    x := Outcome(rc, bytes);
    ghost var flats' := FlatStep(flats, On(path, op, stack), {}).0;
    forall q | q in paths ensures Local(c, q) {
      assert old(Local(c, q));
    }
    forall q | q in flats' ensures Live(c, q, flats'[q]) {
      if q != path {
        OtherView(files, c.fs.files, path, q, c.hash);
        assert old(Live(c, q, flats[q]));
      }
    }
  }

  /** A prefetch of a path without backend copy fetches nothing; jobs exist only for entries. */
  method PerformPrefetch(c: M.CacheManager, path: string, first: nat, copy: nat, ghost paths: set<string>, ghost flats: map<string, File>)
    requires c.Valid() && AllFollow(c, paths, flats) && path in paths
    modifies c.fs, c.lru
    ensures c.Valid() && AllFollow(c, paths, flats)
    ensures old(c.KeysKnown()) ==> c.KeysKnown()
  {
    hide Agrees, M.EntriesOk, M.EvictedClean, M.DirtyExact, M.Handles, Known, Visits, Missed, Window, TouchBlocks;
    assert Local(c, path);
    if path in c.entries {
      ghost var files, o := c.fs.files, c.View(path);
      NothingFetched(o.parts, Window(first));
      c.RunPrefetch(path, first, copy);
      NothingTouched(old(c.lru.Contents()), c.lru.capacity, copy);
      SameFiles(files, c.fs.files, c.hash(path));
    }
  }

  lemma {:induction false} NothingFetched(ps: Parts, bs: seq<nat>)
    ensures Visits(ps, [], bs) == ps && Missed(ps, [], bs) == []
    decreases |bs|
  {
    if bs != [] {
      PastEndVisit(ps, [], bs[0]);
      NothingFetched(ps, bs[1..]);
    }
  }

  lemma NothingTouched(o: seq<L.Node>, capacity: nat, address: nat)
    ensures TouchBlocks(o, capacity, address, B, 0.25, []) == o
  {
  }

  lemma SameFiles(files: Files, files': Files, h: Hash)
    requires M.OnlyParts(files, files', h) && PartsOf(files', h) == PartsOf(files, h)
    ensures files' == files
  {
    forall n: Name ensures n in files <==> n in files' {
      SameFile(files, files', h, n);
    }
    forall n: Name | n in files ensures files'[n] == files[n] {
      SameFile(files, files', h, n);
    }
  }

  lemma SameFile(files: Files, files': Files, h: Hash, n: Name)
    requires M.OnlyParts(files, files', h) && PartsOf(files', h) == PartsOf(files, h)
    ensures SameAt(files, files', n)
  {
    if n.Data? && n.hash == h {
      assert n == Data(h, n.part);
      assert n.part in PartsOf(files, h) <==> n in files;
      assert n.part in PartsOf(files', h) <==> n in files';
    }
  }

  /** An eviction takes some paths out, and leaves all others in step. */
  method PerformEvict(c: M.CacheManager, freeGb: real, ghost paths: set<string>, ghost flats: map<string, File>)
    returns (ghost gone: set<string>)
    requires c.Valid() && AllFollow(c, paths, flats) && c.KeysKnown()
    modifies c, c.fs, c.lru
    ensures c.Valid() && AllFollow(c, paths, flats - gone) && c.KeysKnown() && c.nextHandle == old(c.nextHandle)
    ensures gone == set p | p in flats && p in old(c.entries) &&
                            M.KeyLeft(old(c.lru.Contents()), c.lru.Contents(), old(c.entries)[p].handle)
    ensures M.Usage(old(c.fs.files)) as real / M.GIB <= freeGb ==> gone == {}
    ensures M.Usage(c.fs.files) as real / M.GIB <= freeGb || c.lru.Contents() == []
  {
    hide Agrees, M.EntriesOk, M.EvictedClean, M.DirtyExact, M.EvictFrame, M.Handles, M.ObjectOf, M.KeyLeft, M.EvictChain,
         M.LeftHandled, Known, Scannable;
    ghost var files, entries := c.fs.files, c.entries;
    ghost var order := c.lru.Contents();
    var foreign, _ := c.EvictUntilGb(freeGb);
    gone := set p | p in flats && c.EntryOf(p).evicted;
    forall q | q in paths ensures Local(c, q) {
      assert old(Local(c, q));
    }
    forall q | q in flats - gone ensures Live(c, q, flats[q]) {
      assert old(Local(c, q)) && old(Live(c, q, flats[q]));
      EvictedElsewhere(entries, c.entries, files, c.fs.files, q, c.hash);
    }
    forall q | q in paths && q !in flats - gone ensures c.EntryOf(q).evicted {
      if q !in flats { assert old(c.EntryOf(q).evicted); }
    }
  }

  /** One step of a run keeps every path in step with its flat file. */
  method Perform(c: M.CacheManager, step: Step, ghost paths: set<string>, ghost flats: map<string, File>)
    returns (x: Outcome, ghost gone: set<string>)
    requires c.Valid() && AllFollow(c, paths, flats) && Independent(paths, c.hash)
    requires (step.On? ==> step.path in paths) && (step.Prefetch? ==> step.path in paths)
    requires step.Evict? ==> c.KeysKnown()
    modifies c, c.fs, c.meta, c.lru
    ensures c.Valid() && AllFollow(c, paths, FlatStep(flats, step, gone).0) && x == FlatStep(flats, step, gone).1
    ensures c.nextHandle <= old(c.nextHandle) + 1
    ensures old(c.KeysKnown()) && FitsKeys(step) && c.nextHandle < HALF ==> c.KeysKnown()
  {
    hide Agrees, FlatApply, M.EntriesOk, M.EvictedClean, M.DirtyExact, M.ObjectOf, M.Handles, Known, FitsKeys;
    gone := {};
    x := Outcome(0, []);
    match step {
      case On(path, op, stack) => x := PerformCall(c, path, op, stack, paths, flats);
      case Prefetch(path, first, copy) => PerformPrefetch(c, path, first, copy, paths, flats);
      case Evict(freeGb) => gone := PerformEvict(c, freeGb, paths, flats);
      case Flush =>
        ghost var files := c.fs.files;
        c.FlushAll();
        forall q | q in flats ensures Live(c, q, flats[q]) {
          SameView(files, c.fs.files, c.hash(q), M.MirrorName(q));
          assert old(Live(c, q, flats[q]));
        }
        assert forall q :: q in paths ==> old(Local(c, q));
    }
  }

  ghost predicate Evicts(steps: seq<Step>) { exists i :: 0 <= i < |steps| && steps[i].Evict? }

  /** What a run with evictions needs so that every key decodes to an entry throughout. */
  ghost predicate KeysHold(c: M.CacheManager, steps: seq<Step>)
    reads c, c.lru
  {
    c.KeysKnown() && c.nextHandle + |steps| < HALF && forall i :: 0 <= i < |steps| ==> FitsKeys(steps[i])
  }

  /**
   * Any run of reads, writes, flushes, prefetches and evictions through the manager, on any number of paths without
   * backend copy whose hashes and mirror names differ, returns call by call what one flat file for each path returns,
   * or -ENOENT once an eviction took the path, and in the end the files of every live path agree with its flat file.
   */
  method Replay(c: M.CacheManager, steps: seq<Step>, ghost paths: set<string>, ghost flats: map<string, File>)
    returns (outs: seq<Outcome>, ghost gones: seq<set<string>>)
    requires c.Valid() && AllFollow(c, paths, flats) && Independent(paths, c.hash) && Uses(steps, paths)
    requires Evicts(steps) ==> KeysHold(c, steps)
    modifies c, c.fs, c.meta, c.lru
    ensures c.Valid() && |gones| == |steps| && AllFollow(c, paths, FlatSteps(flats, steps, gones).0)
    ensures outs == FlatSteps(flats, steps, gones).1
  {
    hide AllFollow, Independent, FlatStep, FlatSteps, FitsKeys, M.EntriesOk, M.EvictedClean, M.DirtyExact, M.Handles, Known;
    outs, gones := [], [];
    ghost var now := flats;
    ghost var start := c.nextHandle;
    NoSteps(flats);
    var i := 0;
    while i < |steps|
      invariant 0 <= i <= |steps| == i + (|steps| - |gones|) && c.Valid() && AllFollow(c, paths, now)
      invariant c.nextHandle <= start + i
      invariant Evicts(steps) ==> c.KeysKnown()
      invariant FlatSteps(flats, steps[..i], gones) == (now, outs)
    {
      var x, gone := Perform(c, steps[i], paths, now);
      FlatAppend(flats, steps[..i], gones, steps[i], gone);
      assert steps[..i + 1] == steps[..i] + [steps[i]];
      now := FlatStep(now, steps[i], gone).0;
      outs, gones := outs + [x], gones + [gone];
      i := i + 1;
    }
    assert steps[..i] == steps;
  }

  lemma NoSteps(flats: map<string, File>)
    ensures FlatSteps(flats, [], []) == (flats, [])
  {
  }

  /** A run can start: on a new manager every path without backend copy follows the empty file, and keys hold. */
  lemma FreshFollows(c: M.CacheManager, paths: set<string>)
    requires c.entries == map[] && c.fs.files == map[] && c.lru.Contents() == []
    requires forall p :: p in paths ==> p !in c.backend
    ensures AllFollow(c, paths, map p | p in paths :: []) && c.KeysKnown()
  {
    hide Agrees;
    var flats: map<string, File> := map p | p in paths :: [];
    forall p | p in flats ensures Live(c, p, flats[p]) {
      FreshView(c.hash(p), M.MirrorName(p));
      FreshAgrees();
    }
  }

  lemma FreshAgrees()
    ensures Agrees(FRESH, [])
  {
  }

  /** What a path that was never used sees on disk after the first write to another one. */
  lemma ViewElsewhere(files: Files, p: string, q: string, hash: string -> Hash, x: byte)
    requires hash(p) != hash(q) && M.OnlyPath(map[], files, hash(p), M.MirrorName(p))
    requires M.ObjectOf(files, hash(p), M.MirrorName(p)) == WriteRun(FRESH, 0, [x])
    ensures M.ObjectOf(files, hash(q), M.MirrorName(q)) ==
            Object(map[], if M.MirrorName(p) == M.MirrorName(q) then Some([x]) else None)
  {
    hide WriteRun;
    PartsFrame(map[], files, hash(q));
    assert PartsOf(map[], hash(q)) == map[];
    WriteMirror(FRESH, 0, [x]);
    assert Pwrite([], [x], 0) == [x];
    if M.MirrorName(p) != M.MirrorName(q) { assert SameAt(map[], files, M.MirrorName(q)); }
  }

  lemma FreshView(h: Hash, mirror: Name)
    ensures M.ObjectOf(map[], h, mirror) == FRESH
  {
    assert PartsOf(map[], h) == map[];
  }

  lemma ReadFromNothing(stack: nat -> Block)
    ensures var r := ReadRun(FRESH, None, stack, 0, 1); r.Rc() == -1 && r.out == []
  {
    hide ReadRun;
    FreshAgrees();
    ReadLocal(FRESH, [], stack, 0, 1);
  }

  /** A first byte that only the mirror has is found there. */
  lemma ReadFromMirror(x: byte, stack: nat -> Block)
    ensures var r := ReadRun(Object(map[], Some([x])), None, stack, 0, 1); r.Rc() == 1 && r.out == [x]
  {
    var o := Object(map[], Some([x]));
    assert Got(o.parts, B, 0) == [] && Fetch(o, None, 0) == [x];
    var o' := o.(parts := StoreWrite(o.parts, [x], 0));
    assert ReadBlock(o, None, stack, 0) == Some((o', Overlay(Overlay(stack(0), []), [x])));
    assert ReadRun(o', None, stack, 1, 0) == ReadResult(o', [], [], true);
  }

  /**
   * Why paths must not share a mirror file: on a new manager, what is written to one path shows up in another path
   * that was never written exactly when one is the other behind a leading slash, as "/a" and "a".
   */
  method ReadElsewhere(hash: string -> Hash, capacity: nat, p: string, q: string, x: byte, stack: nat -> Block)
    returns (rc: int, bytes: File)
    requires p != q && hash(p) != hash(q)
    ensures !M.SharesMirror(p, q) ==> rc == -1 && bytes == []
    ensures M.SharesMirror(p, q) ==> rc == 1 && bytes == [x]
  {
    hide ReadRun, WriteRun, Agrees, M.OnlyPath, M.OnlyParts, M.EntriesOk, M.EvictedClean, M.DirtyExact, M.ObjectOf, M.Booked,
         M.MirrorName, RoundUp;
    var c := new M.CacheManager(map[], hash, capacity);
    FreshView(hash(p), M.MirrorName(p));
    var n := c.Write(p, [x], 0);
    ViewElsewhere(c.fs.files, p, q, hash, x);
    ReadFromMirror(x, stack);
    ReadFromNothing(stack);
    M.MirrorsShared(p, q);
    rc, bytes := c.Read(q, 1, 0, stack);
  }

  // ---- Eviction as a caller sees it ----

  /** The object after a first write inside block 0: one part of one block, and the mirror. */
  lemma FirstWrite(data: File)
    requires 0 < |data| <= B
    ensures WriteRun(FRESH, 0, data) == Object(map[0 := data + Zeros(B - |data|)], Some(data))
  {
    hide Merged, Pwrite, Zeros, WriteRun;
    OneBlockWrite(FRESH, data);
    FirstMerge(data);
    FromNothing(data);
    FromNothing(data + Zeros(B - |data|));
  }

  lemma OneBlockWrite(o: Object, data: File)
    requires 0 < |data| <= B
    ensures WriteRun(o, 0, data) == WriteBlock(o, 0, data)
  {
    hide WriteBlock;
    assert data[..|data|] == data && data[|data|..] == [];
  }

  lemma FirstMerge(data: File)
    requires |data| <= B
    ensures Merged(map[], 0, data) == data + Zeros(B - |data|)
  {
    assert Got(map[], B, 0) == [];
  }

  lemma FromNothing(f: File)
    ensures Pwrite([], f, 0) == f
  {
  }

  lemma OnlyPathFiles(files: Files, h: Hash, mirror: Name)
    requires M.OnlyPath(map[], files, h, mirror)
    ensures forall n: Name :: n in files ==> (n.Data? && n.hash == h) || n == mirror
  {
    forall n: Name | !(n.Data? && n.hash == h) && n != mirror ensures n !in files { assert SameAt(map[], files, n); }
  }

  /** Then the disk holds a block and the data. */
  lemma FirstUsage(files: Files, path: string, hash: string -> Hash, data: File)
    requires 0 < |data| <= B && M.OnlyPath(map[], files, hash(path), M.MirrorName(path))
    requires M.ObjectOf(files, hash(path), M.MirrorName(path)) == WriteRun(FRESH, 0, data)
    ensures M.Usage(files) == B + |data|
  {
    hide WriteRun, M.Usage;
    FirstWrite(data);
    var h, mirror := hash(path), M.MirrorName(path);
    OnlyPathFiles(files, h, mirror);
    forall n: Name | n in files ensures n == Data(h, 0) || n == mirror {
      if n != mirror { assert n == Data(h, n.part) && n.part in PartsOf(files, h); }
    }
    assert 0 in PartsOf(files, h) && mirror in files;
    M.UsageSplit(files, mirror);
    M.UsageSplit(files - {mirror}, Data(h, 0));
    assert files - {mirror} - {Data(h, 0)} == map[];
    M.NoUsage();
  }

  /** If usage was above the target, the one entry of the policy is gone. */
  lemma OneTaken(entries0: M.Entries, entries: M.Entries, hash: string -> Hash, files0: Files, files: Files,
                 order0: seq<L.Node>, order: seq<L.Node>, path: string, freeGb: real)
    requires entries0.Keys == {path} && order0 != [] && (forall n :: n in order0 ==> Unpack(n.id) == entries0[path].handle)
    requires M.TakenExactly(entries0, entries, order0, order) && M.EvictFrame(entries0, entries, hash, files0, files)
    requires M.Usage(files0) as real / M.GIB > freeGb && (M.Usage(files) as real / M.GIB <= freeGb || order == [])
    ensures entries[path].evicted
  {
    hide Unpack, M.Usage;
    if !entries[path].evicted {
      NoneTaken(entries0, entries, hash, files0, files, order0, order, path);
    }
  }

  lemma NoneTaken(entries0: M.Entries, entries: M.Entries, hash: string -> Hash, files0: Files, files: Files,
                  order0: seq<L.Node>, order: seq<L.Node>, path: string)
    requires entries0.Keys == {path} && order0 != [] && (forall n :: n in order0 ==> Unpack(n.id) == entries0[path].handle)
    requires M.TakenExactly(entries0, entries, order0, order) && M.EvictFrame(entries0, entries, hash, files0, files)
    requires !entries[path].evicted
    ensures files0 == files && order0[0] in order
  {
    hide Unpack;
    assert !M.KeyLeft(order0, order, entries0[path].handle);
    SameEverywhere(files0, files);
  }

  lemma SameEverywhere(files: Files, files': Files)
    requires forall n: Name :: SameAt(files, files', n)
    ensures files == files'
  {
    assert forall n: Name :: n in files <==> n in files' by {
      forall n: Name ensures n in files <==> n in files' { assert SameAt(files, files', n); }
    }
    forall n: Name | n in files ensures files[n] == files'[n] { assert SameAt(files, files', n); }
  }

  lemma NewKeys(addresses: set<nat>)
    ensures Known([], addresses)
  {
  }

  lemma FirstOrder(capacity: nat, handle: nat, data: File)
    requires 0 < |data| <= B && handle == 1
    ensures var o := TouchBlocks([], capacity, handle, B, 1.0, BlocksOf(0, |data|));
            o != [] && forall n :: n in o ==> Unpack(n.id) == handle
  {
    hide Pack;
    assert BlocksOf(0, |data|) == [0];
    assert TouchBlocks([], capacity, handle, B, 1.0, [0][..0]) == [];
    assert TouchBlocks([], capacity, handle, B, 1.0, [0]) == [L.Node(Pack(handle, 0), B, 1.0)];
    UnpackPack(handle, 0);
  }

  lemma ReadBack(data: File, stack: nat -> Block)
    requires 0 < |data| <= B
    ensures var r := ReadRun(WriteRun(FRESH, 0, data), None, stack, 0, |data|); r.out == data && r.Rc() == |data|
  {
    hide ReadRun, WriteRun;
    FreshAgrees();
    WriteAgrees(FRESH, [], 0, data);
    assert Pwrite([], data, 0) == data;
    ReadLocal(WriteRun(FRESH, 0, data), data, stack, 0, |data|);
  }

  /**
   * On a new manager: after a write of up to one block and an eviction, the path answers -ENOENT exactly when the
   * block and the data were more than the target, and else still holds what was written.
   */
  method WriteEvictRead(hash: string -> Hash, capacity: nat, path: string, data: File, freeGb: real, stack: nat -> Block)
    returns (rc: int, bytes: File)
    requires 0 < |data| <= B
    ensures (B + |data|) as real / M.GIB > freeGb ==> rc == -M.ENOENT && bytes == []
    ensures (B + |data|) as real / M.GIB <= freeGb ==> rc == |data| && bytes == data
  {
    hide ReadRun, WriteRun, Agrees, M.OnlyPath, M.OnlyParts, M.EntriesOk, M.EvictedClean, M.DirtyExact, M.ObjectOf, M.Booked,
         M.MirrorName, RoundUp, M.EvictFrame, M.TakenExactly, M.LeftHandled, M.EvictChain, M.Usage, TouchBlocks, BlocksOf, Known,
         Scannable;
    var c := new M.CacheManager(map[], hash, capacity);
    FreshView(hash(path), M.MirrorName(path));
    NewKeys(M.Handles(map[]));
    var n := c.Write(path, data, 0);
    FirstUsage(c.fs.files, path, hash, data);
    ghost var entries, files, order := c.entries, c.fs.files, c.lru.Contents();
    FirstOrder(capacity, c.entries[path].handle, data);
    var foreign, _ := c.EvictUntilGb(freeGb);
    if (B + |data|) as real / M.GIB > freeGb {
      OneTaken(entries, c.entries, hash, files, c.fs.files, order, c.lru.Contents(), path, freeGb);
    } else {
      ReadBack(data, stack);
    }
    rc, bytes := c.Read(path, |data|, 0, stack);
  }

  lemma SharedMirrorName()
    ensures M.SharesMirror("/a", "a") && M.MirrorName("/a") == M.MirrorName("a")
    ensures !M.SharesMirror("/d/f", "/e/f") && M.MirrorName("/d/f") != M.MirrorName("/e/f")
  {
    assert "/a" == "/" + "a";
    M.MirrorsShared("/a", "a");
    assert "/d/f"[1] == 'd' && "/e/f"[1] == 'e';
    M.MirrorsShared("/d/f", "/e/f");
  }

  /** Block indices in a bitmap are global: in part p only bits from the part's first block to its last can be set. */
  lemma BitsInTheirPart(bm: Bitmaps, writes: seq<M.WriteEvent>, h: Hash, p: nat, b: nat)
    requires M.DirtyExact(bm, writes) && BitIs(bm, h, p, b)
    ensures p * (P / B) <= b < (p + 1) * (P / B)
  {
    hide BitIs;
    assert p == b * B / P;
  }
}
