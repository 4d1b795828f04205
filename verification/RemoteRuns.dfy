/** Whole runs of calls on the cache manager, with prefetch jobs between them, on paths that may have a backend copy. */
module RemoteRuns {
  import opened Posix
  import opened Parts
  import opened FsLayout
  import opened BlockStore
  import opened CacheObject
  import opened LocalRefinement
  import opened Sequential
  import opened ReadThrough
  import H = Holes
  import W = RemoteWrites
  import M = CacheManager
  import opened CacheRuns

  // ---- What a run means for one path ----

  /** The part of a step that concerns one path. */
  function OnPath(step: Step, path: string): seq<H.Step> {
    match step
    case On(p, op, stack) => if p == path then [H.Do(op, stack)] else []
    case Prefetch(p, first, _) => if p == path then [H.Prefetched(Window(first))] else []
    case _ => []
  }

  function Project(steps: seq<Step>, path: string): seq<H.Step> {
    if |steps| == 0 then [] else Project(steps[..|steps| - 1], path) + OnPath(steps[|steps| - 1], path)
  }

  /** Prefetch jobs run only for paths that were called on before. */
  ghost predicate JobsFollowCalls(steps: seq<Step>) {
    forall i :: 0 <= i < |steps| && steps[i].Prefetch? ==>
      exists j :: 0 <= j < i && steps[j].On? && steps[j].path == steps[i].path
  }

  ghost predicate NoEviction(steps: seq<Step>) { forall i :: 0 <= i < |steps| ==> !steps[i].Evict? }

  /** The path is live, collides with no entry, and the disk holds for it what its own steps leave. */
  ghost predicate Tracks(c: M.CacheManager, path: string, steps: seq<Step>)
    reads c, c.fs
  {
    && c.NoCollision(path) && !c.EntryOf(path).evicted
    && c.View(path) == H.AfterRun(FRESH, c.Remote(path), Project(steps, path))
  }

  /** The answer to the last of the steps, if it was a call. */
  ghost predicate Answered(c: M.CacheManager, steps: seq<Step>, step: Step, x: Outcome) {
    step.On? ==>
      x == OutcomeOf(H.AfterRun(FRESH, c.Remote(step.path), Project(steps, step.path)), c.Remote(step.path), step.op, step.stack)
  }

  lemma ProjectAppend(steps: seq<Step>, step: Step, path: string)
    ensures Project(steps + [step], path) == Project(steps, path) + OnPath(step, path)
  {
    assert (steps + [step])[..|steps|] == steps;
  }

  lemma TrackedStep(remote: Option<File>, steps: seq<Step>, step: Step, path: string)
    ensures H.AfterRun(FRESH, remote, Project(steps + [step], path)) ==
            var o := H.AfterRun(FRESH, remote, Project(steps, path));
            if OnPath(step, path) == [] then o else H.After(o, remote, OnPath(step, path)[0])
  {
    hide H.AfterRun, H.After, Project;
    ProjectAppend(steps, step, path);
    if |OnPath(step, path)| == 0 {
      assert Project(steps, path) + OnPath(step, path) == Project(steps, path);
    } else {
      assert OnPath(step, path) == [OnPath(step, path)[0]];
      H.AfterAppend(FRESH, remote, Project(steps, path), OnPath(step, path)[0]);
    }
  }

  // ---- One step on the manager ----

  /** A call advances its path, and every other path stays where it is. */
  method ServeCall(c: M.CacheManager, path: string, op: Op, stack: nat -> Block, ghost steps: seq<Step>, ghost paths: set<string>)
    returns (x: Outcome)
    requires c.Valid() && Independent(paths, c.hash) && path in paths && forall p :: p in paths ==> Tracks(c, p, steps)
    modifies c, c.fs, c.meta, c.lru
    ensures c.Valid() && forall p :: p in paths ==> Tracks(c, p, steps + [On(path, op, stack)])
    ensures Answered(c, steps, On(path, op, stack), x)
    ensures c.entries.Keys == old(c.entries).Keys + {path}
  {
    hide H.AfterRun, H.After, OutcomeOf, M.EntriesOk, M.EvictedClean, M.DirtyExact, M.OnlyPath, M.ObjectOf, M.Handles,
         Project;
    ghost var files := c.fs.files;
    assert Tracks(c, path, steps);
    var rc, bytes := Call(c, path, op, stack);
    x := Outcome(rc, bytes);
    forall q | q in paths ensures Tracks(c, q, steps + [On(path, op, stack)]) {
      assert old(Tracks(c, q, steps));
      TrackedStep(c.Remote(q), steps, On(path, op, stack), q);
      if q != path { OtherView(files, c.fs.files, path, q, c.hash); }
    }
  }

  /** A prefetch job advances its path, and every other path stays where it is. */
  method ServePrefetch(c: M.CacheManager, path: string, first: nat, copy: nat, ghost steps: seq<Step>, ghost paths: set<string>)
    requires c.Valid() && Independent(paths, c.hash) && path in paths && path in c.entries
    requires forall p :: p in paths ==> Tracks(c, p, steps)
    modifies c.fs, c.lru
    ensures c.Valid() && forall p :: p in paths ==> Tracks(c, p, steps + [Prefetch(path, first, copy)])
  {
    hide H.AfterRun, H.Visits, H.Missed, Window, M.EntriesOk, M.EvictedClean, M.DirtyExact, M.OnlyParts, M.ObjectOf, M.Handles,
         Project;
    ghost var files := c.fs.files;
    assert Tracks(c, path, steps);
    c.RunPrefetch(path, first, copy);
    PartsOnlyPath(files, c.fs.files, c.hash(path), M.MirrorName(path));
    forall q | q in paths ensures Tracks(c, q, steps + [Prefetch(path, first, copy)]) {
      assert old(Tracks(c, q, steps));
      TrackedStep(c.Remote(q), steps, Prefetch(path, first, copy), q);
      if q != path { OtherView(files, c.fs.files, path, q, c.hash); }
    }
  }

  lemma PartsOnlyPath(files: Files, files': Files, h: Hash, mirror: Name)
    requires M.OnlyParts(files, files', h)
    ensures M.OnlyPath(files, files', h, mirror)
  {
  }

  method Serve(c: M.CacheManager, step: Step, ghost steps: seq<Step>, ghost paths: set<string>) returns (x: Outcome)
    requires c.Valid() && Independent(paths, c.hash) && forall p :: p in paths ==> Tracks(c, p, steps)
    requires step.On? ==> step.path in paths
    requires step.Prefetch? ==> step.path in paths && step.path in c.entries
    requires !step.Evict?
    modifies c, c.fs, c.meta, c.lru
    ensures c.Valid() && forall p :: p in paths ==> Tracks(c, p, steps + [step])
    ensures Answered(c, steps, step, x)
    ensures old(c.entries).Keys <= c.entries.Keys && (step.On? ==> step.path in c.entries)
  {
    hide H.AfterRun, M.EntriesOk, M.EvictedClean, M.DirtyExact, M.ObjectOf, Project, Independent;
    x := Outcome(0, []);
    match step {
      case On(path, op, stack) => x := ServeCall(c, path, op, stack, steps, paths);
      case Prefetch(path, first, copy) => ServePrefetch(c, path, first, copy, steps, paths);
      case Flush =>
        ghost var files := c.fs.files;
        c.FlushAll();
        forall q | q in paths ensures Tracks(c, q, steps + [step]) {
          assert old(Tracks(c, q, steps));
          TrackedStep(c.Remote(q), steps, step, q);
          SameView(files, c.fs.files, c.hash(q), M.MirrorName(q));
        }
    }
  }

  /** Over a whole run on a new manager, every path is where its own steps lead, and every call was answered from there. */
  method ServeAll(c: M.CacheManager, steps: seq<Step>, ghost paths: set<string>) returns (outs: seq<Outcome>)
    requires c.Valid() && c.entries == map[] && c.fs.files == map[]
    requires Independent(paths, c.hash) && Uses(steps, paths) && JobsFollowCalls(steps) && NoEviction(steps)
    modifies c, c.fs, c.meta, c.lru
    ensures c.Valid() && |outs| == |steps| && forall p :: p in paths ==> Tracks(c, p, steps)
    ensures forall i :: 0 <= i < |steps| ==> Answered(c, steps[..i], steps[i], outs[i])
  {
    hide M.EntriesOk, M.EvictedClean, M.DirtyExact, Tracks, Answered, Independent;
    outs := [];
    NewTracks(c, paths);
    var i := 0;
    while i < |steps|
      invariant 0 <= i <= |steps| && |outs| == i && c.Valid()
      invariant forall p :: p in paths ==> Tracks(c, p, steps[..i])
      invariant forall j :: 0 <= j < i && steps[j].On? ==> steps[j].path in c.entries
      invariant forall j :: 0 <= j < i ==> Answered(c, steps[..j], steps[j], outs[j])
    {
      var x := Serve(c, steps[i], steps[..i], paths);
      assert steps[..i + 1] == steps[..i] + [steps[i]];
      outs := outs + [x];
      i := i + 1;
    }
    assert steps[..i] == steps;
  }

  lemma NewTracks(c: M.CacheManager, paths: set<string>)
    requires c.entries == map[] && c.fs.files == map[]
    ensures forall p :: p in paths ==> Tracks(c, p, [])
  {
    forall p | p in paths ensures Tracks(c, p, []) { FreshView(c.hash(p), M.MirrorName(p)); }
  }

  // ---- What the callers see ----

  /**
   * A read of a file `F` after blocks were visited as in `hs`: zeros in skipped blocks, the file's bytes elsewhere,
   * and bytes and return value of POSIX exactly when the range starts inside the file, ends there or the file ends on
   * a block boundary, and asks for no non-zero byte of a skipped block.
   */
  ghost predicate ShowsFile(F: File, hs: seq<nat>, off: nat, len: nat, x: Outcome) {
    && |x.bytes| == Delivered(F, off, len)
    && (forall i :: 0 <= i < |x.bytes| && off + i < |F| ==> x.bytes[i] == if H.Skipped(hs, (off + i) / B) then 0 else F[off + i])
    && (x.bytes == Pread(F, len, off) && x.rc == |x.bytes| <==>
          len == 0 || (&& off < |F| && (off + len <= |F| || |F| % B == 0)
                       && forall a :: off <= a < off + len && a < |F| && H.Skipped(hs, a / B) ==> F[a] == 0))
  }

  /** A read shows the last byte written at every address it reaches. */
  ghost predicate ShowsWrites(steps: seq<H.Step>, off: nat, x: Outcome) {
    forall k: nat, a: nat :: W.LastWrite(steps, k, a) && off <= a < off + |x.bytes| ==> x.bytes[a - off] == W.Written(steps[k], a)
  }

  lemma AnswerShowsFile(F: File, steps: seq<H.Step>, off: nat, len: nat, stack: nat -> Block)
    requires H.ReadOnly(steps)
    ensures ShowsFile(F, H.History(F, steps), off, len, OutcomeOf(H.AfterRun(FRESH, Some(F), steps), Some(F), Read(off, len), stack))
  {
    hide H.AfterRun, H.History, H.Skipped, H.Left, Delivered, ReadRun;
    H.ReadAfterRun(F, steps, stack, off, len);
    H.PosixAfterRun(F, steps, stack, off, len);
    RcIsLength(H.AfterRun(FRESH, Some(F), steps), Some(F), stack, off, len);
  }

  /** The return value is the number of bytes delivered, or -1 when a non-empty read delivers none. */
  lemma RcIsLength(o: Object, remote: Option<File>, stack: nat -> Block, off: nat, len: nat)
    ensures var r := ReadRun(o, remote, stack, off, len); r.Rc() == if r.out == [] && len > 0 then -1 else |r.out|
  {
    hide ReadRun;
    ReadTiles(o, remote, stack, off, len);
  }

  lemma AnswerShowsWrites(remote: Option<File>, steps: seq<H.Step>, off: nat, len: nat, stack: nat -> Block)
    ensures ShowsWrites(steps, off, OutcomeOf(H.AfterRun(FRESH, remote, steps), remote, Read(off, len), stack))
  {
    hide H.AfterRun, ReadRun, W.Writes;
    var o := H.AfterRun(FRESH, remote, steps);
    var r := ReadRun(o, remote, stack, off, len);
    ReadTiles(o, remote, stack, off, len);
    forall k: nat, a: nat | W.LastWrite(steps, k, a) && off <= a < off + |r.out|
      ensures r.out[a - off] == W.Written(steps[k], a)
    {
      W.ReadLastWrite(FRESH, remote, steps, k, a, stack, off, len);
    }
  }

  /** What every read of a run on the manager shows. */
  ghost predicate ReadRight(backend: map<string, File>, steps: seq<Step>, step: Step, x: Outcome)
    requires step.On? && step.op.Read?
  {
    && ShowsWrites(Project(steps, step.path), step.op.off, x)
    && (step.path in backend && H.ReadOnly(Project(steps, step.path)) ==>
          var F := backend[step.path];
          ShowsFile(F, H.History(F, Project(steps, step.path)), step.op.off, step.op.len, x))
  }

  /**
   * Any run of reads, writes, flushes and prefetch jobs on a new manager, on any number of paths whose hashes and
   * mirror files differ. Every read shows the last byte written at each address of its path; and on a path that has
   * a backend copy and was not written, it shows that copy, but for the blocks that were skipped.
   */
  method ReplayRemote(c: M.CacheManager, steps: seq<Step>, ghost paths: set<string>) returns (outs: seq<Outcome>)
    requires c.Valid() && c.entries == map[] && c.fs.files == map[]
    requires Independent(paths, c.hash) && Uses(steps, paths) && JobsFollowCalls(steps) && NoEviction(steps)
    modifies c, c.fs, c.meta, c.lru
    ensures c.Valid() && |outs| == |steps|
    ensures forall i :: 0 <= i < |steps| && steps[i].On? && steps[i].op.Read? ==>
      ReadRight(c.backend, steps[..i], steps[i], outs[i])
    ensures forall i :: 0 <= i < |steps| && steps[i].On? && steps[i].op.Write? ==>
      outs[i] == Outcome(|steps[i].op.data|, [])
  {
    hide M.EntriesOk, M.EvictedClean, M.DirtyExact, Tracks, Answered, Independent, ReadRight;
    outs := ServeAll(c, steps, paths);
    forall i | 0 <= i < |steps| && steps[i].On? && steps[i].op.Read?
      ensures ReadRight(c.backend, steps[..i], steps[i], outs[i])
    {
      AnswerRight(c, steps[..i], steps[i], outs[i]);
    }
    forall i | 0 <= i < |steps| && steps[i].On? && steps[i].op.Write?
      ensures outs[i] == Outcome(|steps[i].op.data|, [])
    {
      WriteAnswer(c, steps[..i], steps[i], outs[i]);
    }
  }

  lemma AnswerRight(c: M.CacheManager, steps: seq<Step>, step: Step, x: Outcome)
    requires step.On? && step.op.Read? && Answered(c, steps, step, x)
    ensures ReadRight(c.backend, steps, step, x)
  {
    hide H.AfterRun, H.History, ReadRun, Project, ShowsFile, ShowsWrites, H.ReadOnly, OutcomeOf;
    var own := Project(steps, step.path);
    assert step.op == Read(step.op.off, step.op.len);
    AnswerShowsWrites(c.Remote(step.path), own, step.op.off, step.op.len, step.stack);
    if step.path in c.backend && H.ReadOnly(own) {
      AnswerShowsFile(c.backend[step.path], own, step.op.off, step.op.len, step.stack);
    }
  }

  lemma WriteAnswer(c: M.CacheManager, steps: seq<Step>, step: Step, x: Outcome)
    requires step.On? && step.op.Write? && Answered(c, steps, step, x)
    ensures x == Outcome(|step.op.data|, [])
  {
    hide H.AfterRun, Project;
  }

  // ---- The first read, and eviction, as a caller sees them ----

  /**
   * On a new manager a read inside a backend file returns exactly its range, and schedules one prefetch after each
   * block but the first.
   */
  method FirstRead(backend: map<string, File>, hash: string -> Hash, capacity: nat, path: string, off: nat, len: nat, stack: nat -> Block)
    returns (rc: int, bytes: File, scheduled: seq<M.Prefetch>)
    requires path in backend && 0 < len && off + len <= |backend[path]|
    ensures rc == len && bytes == backend[path][off..off + len]
    ensures |scheduled| == (off + len - 1) / B - off / B
    ensures forall i :: 0 <= i < |scheduled| ==> scheduled[i] == M.Prefetch(path, off / B + 2 + i)
  {
    hide ReadRun, M.EntriesOk, M.EvictedClean, M.DirtyExact, M.OnlyParts, M.ObjectOf, M.Handles, M.MirrorName, RoundUp,
         BlocksOf, Scheduled;
    var c := new M.CacheManager(backend, hash, capacity);
    FreshView(hash(path), M.MirrorName(path));
    FirstAnswer(backend[path], stack, off, len);
    rc, bytes := c.Read(path, len, off, stack);
    scheduled := c.scheduled;
    FirstSchedule(off, len);
  }

  lemma FirstAnswer(F: File, stack: nat -> Block, off: nat, len: nat)
    requires 0 < len && off + len <= |F|
    ensures var r := ReadRun(FRESH, Some(F), stack, off, len);
            r.Rc() == len && r.out == F[off..off + len] && r.blocks == BlocksOf(off, len)
  {
    hide ReadRun, BlocksOf;
    assert Within(FRESH.parts, F) && MirrorWithin(FRESH, F);
    ReadThroughExact(FRESH, F, stack, off, len);
    ReadTiles(FRESH, Some(F), stack, off, len);
    forall a | off <= a < off + len ensures !Wrong(FRESH.parts, F, a) { NothingCached(F, a); }
  }

  lemma NothingCached(F: File, a: nat)
    requires a < |F|
    ensures Shown(FRESH.parts, F, a) == F[a]
  {
  }

  lemma FirstSchedule(off: nat, len: nat)
    requires len > 0
    ensures var s := Scheduled(None, BlocksOf(off, len));
            |s| == (off + len - 1) / B - off / B && forall i :: 0 <= i < |s| ==> s[i] == off / B + 2 + i
  {
    hide BlocksOf, Scheduled;
    BlocksTile(off, len);
    SequentialDetection(None, BlocksOf(off, len), off / B);
  }
}
