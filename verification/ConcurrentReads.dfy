/**
 * Foreground reads of one path interleaved with prefetch jobs on any number of workers. The job runs without the
 * manager's mutex, so every store read, backend fetch and store write is a step of its own.
 */
module ConcurrentReads {
  import opened Posix
  import opened Parts
  import opened CacheObject
  import opened ReadThrough
  import opened Sequential

  /** Where a foreground read stands inside one loop iteration; `buf` is its block buffer. */
  datatype ReadPhase = RCheck | RFetch(buf: Block) | RStore(buf: Block, got: nat) | RCopy(buf: Block)

  datatype Reader = Reader(off: nat, len: nat, out: File, phase: ReadPhase) {
    function Pos(): nat { off + |out| }
    function Blk(): nat { Pos() / B }
  }

  datatype JobPhase = JCheck | JFetch | JStore(got: File)

  /** A prefetch job that started at block `first` and is at block `blk` with `left` iterations to go. */
  datatype Job = Job(first: nat, blk: nat, left: nat, phase: JobPhase) {
    function Advance(): Job
      requires left > 0
    {
      Job(first, blk + 1, left - 1, JCheck)
    }
  }

  datatype Completed = Completed(off: nat, len: nat, rc: int, out: File)

  datatype State = State(
    parts: Parts,
    last: Option<nat>,        // last_block of the entry
    queue: seq<nat>,          // first blocks of the scheduled jobs
    jobs: map<nat, Job>,      // running jobs by worker
    reader: Option<Reader>,   // the holder of the mutex
    log: seq<Completed>,
    blocks: seq<nat>,         // blocks completed by foreground reads, in order
    started: seq<nat>,        // first blocks of the jobs that left the queue, in order
    ended: seq<nat>)          // first blocks of the jobs that are done, in order

  datatype Action =
    | StartRead(off: nat, len: nat) | ReadCheck(stack: Block) | ReadFetch | ReadStore | ReadCopy | EndRead
    | StartJob(worker: nat) | JobCheck(worker: nat) | JobFetch(worker: nat) | JobStore(worker: nat) | EndJob(worker: nat)

  ghost predicate Enabled(F: File, s: State, a: Action) {
    match a
    case StartRead(off, len) => s.reader.None? && off + len <= |F|
    case ReadCheck(_) => s.reader.Some? && s.reader.value.phase.RCheck? && |s.reader.value.out| < s.reader.value.len
    case ReadFetch => s.reader.Some? && s.reader.value.phase.RFetch?
    case ReadStore => s.reader.Some? && s.reader.value.phase.RStore?
    case ReadCopy => s.reader.Some? && s.reader.value.phase.RCopy? && |s.reader.value.out| < s.reader.value.len
    case EndRead => s.reader.Some? && s.reader.value.phase.RCheck? && |s.reader.value.out| >= s.reader.value.len
    case StartJob(w) => w !in s.jobs && s.queue != []
    case JobCheck(w) => w in s.jobs && s.jobs[w].phase.JCheck? && s.jobs[w].left > 0
    case JobFetch(w) => w in s.jobs && s.jobs[w].phase.JFetch? && s.jobs[w].left > 0
    case JobStore(w) => w in s.jobs && s.jobs[w].phase.JStore? && s.jobs[w].left > 0
    case EndJob(w) => w in s.jobs && s.jobs[w].left == 0
  }

  function AfterReadFetch(F: File, s: State, r: Reader): State
    requires r.phase.RFetch?
  {
    var got := Pread(F, B, r.Blk() * B);
    if got == [] then
      s.(reader := None, log := s.log + [Completed(r.off, r.len, if r.out == [] then -1 else |r.out|, r.out)])
    else s.(reader := Some(r.(phase := RStore(Overlay(r.phase.buf, got), |got|))))
  }

  function AfterReadCopy(s: State, r: Reader): State
    requires r.phase.RCopy? && |r.out| < r.len
  {
    var w := Want(r.Pos(), r.len - |r.out|);
    var i := r.Pos() % B;
    var seqRead := s.last.Some? && r.Blk() == s.last.value + 1;
    s.(reader := Some(r.(out := r.out + r.phase.buf[i..i + w], phase := RCheck)),
       last := Some(r.Blk()),
       blocks := s.blocks + [r.Blk()],
       queue := if seqRead then s.queue + [r.Blk() + 1] else s.queue)
  }

  ghost function Next(F: File, s: State, a: Action): State
    requires Enabled(F, s, a)
  {
    match a
    case StartRead(off, len) => s.(reader := Some(Reader(off, len, [], RCheck)))
    case ReadCheck(stack) =>
      var r := s.reader.value;
      var have := Got(s.parts, B, r.Blk() * B);
      var buf := Overlay(stack, have);
      s.(reader := Some(r.(phase := if |have| == B then RCopy(buf) else RFetch(buf))))
    case ReadFetch => AfterReadFetch(F, s, s.reader.value)
    case ReadStore =>
      var r := s.reader.value;
      s.(parts := StoreWrite(s.parts, r.phase.buf[..Min(r.phase.got, B)], r.Blk() * B),
         reader := Some(r.(phase := RCopy(r.phase.buf))))
    case ReadCopy => AfterReadCopy(s, s.reader.value)
    case EndRead =>
      var r := s.reader.value;
      s.(reader := None, log := s.log + [Completed(r.off, r.len, |r.out|, r.out)])
    case StartJob(w) => s.(queue := s.queue[1..], jobs := s.jobs[w := Job(s.queue[0], s.queue[0], PREFETCH_WINDOW, JCheck)],
                             started := s.started + [s.queue[0]])
    case JobCheck(w) =>
      var j := s.jobs[w];
      s.(jobs := s.jobs[w := if Cached(s.parts, j.blk * B) then j.Advance() else j.(phase := JFetch)])
    case JobFetch(w) =>
      var j := s.jobs[w];
      var got := Pread(F, B, j.blk * B);
      s.(jobs := s.jobs[w := if got == [] then j.Advance() else j.(phase := JStore(got))])
    case JobStore(w) =>
      var j := s.jobs[w];
      s.(parts := StoreWrite(s.parts, j.phase.got, j.blk * B), jobs := s.jobs[w := j.Advance()])
    case EndJob(w) => s.(jobs := s.jobs - {w}, ended := s.ended + [s.jobs[w].first])
  }

  ghost predicate RunsTo(F: File, s: State, acts: seq<Action>, s': State)
    decreases |acts|
  {
    if acts == [] then s' == s
    else Enabled(F, s, acts[0]) && RunsTo(F, Next(F, s, acts[0]), acts[1..], s')
  }

  /** The run's reads all start in a block at or below the cached prefix of its part. */
  ghost predicate ReadsReachable(F: File, s: State, acts: seq<Action>)
    decreases |acts|
  {
    acts != [] && Enabled(F, s, acts[0]) ==>
      && (acts[0].StartRead? ==> Reach(s.parts, F, acts[0].off / B))
      && ReadsReachable(F, Next(F, s, acts[0]), acts[1..])
  }

  const INIT := State(map[], None, [], map[], None, [], [], [], [])

  // ---- The invariant ----

  ghost predicate JobOk(ps: Parts, F: File, j: Job) {
    Reach(ps, F, j.blk) && (j.phase.JStore? ==> j.phase.got == Pread(F, B, j.blk * B) && j.blk * B < |F|)
  }

  ghost predicate ReaderOk(ps: Parts, F: File, r: Reader) {
    && |r.out| <= r.len && r.off + r.len <= |F|
    && r.out == F[r.off..r.off + |r.out|]
    && (|r.out| < r.len ==>
          match r.phase
          case RCheck => Reach(ps, F, r.Blk())
          case RFetch(_) => Reach(ps, F, r.Blk())
          case RStore(buf, got) =>
            Reach(ps, F, r.Blk()) && got == |Pread(F, B, r.Blk() * B)| && buf[..got] == Pread(F, B, r.Blk() * B)
          case RCopy(buf) => BlockFrom(F, r.Blk(), buf) && Reach(ps, F, r.Blk() + 1))
    && (!r.phase.RCheck? ==> |r.out| < r.len)
  }

  /** A finished read returned its whole range of the backend file. */
  ghost predicate Exact(F: File, c: Completed) {
    c.off + c.len <= |F| && c.rc == c.len && c.out == F[c.off..c.off + c.len]
  }

  ghost predicate Inv(F: File, s: State) {
    && Faithful(s.parts, F)
    && (forall i :: 0 <= i < |s.queue| ==> Reach(s.parts, F, s.queue[i]))
    && (forall w :: w in s.jobs ==> JobOk(s.parts, F, s.jobs[w]))
    && (s.reader.Some? ==> ReaderOk(s.parts, F, s.reader.value))
    && (forall i :: 0 <= i < |s.log| ==> Exact(F, s.log[i]))
  }

  lemma StoreKeepsActors(F: File, s: State, ps': Parts)
    requires Inv(F, s) && Grown(s.parts, ps')
    ensures forall i :: 0 <= i < |s.queue| ==> Reach(ps', F, s.queue[i])
    ensures forall w :: w in s.jobs ==> JobOk(ps', F, s.jobs[w])
    ensures s.reader.Some? ==> ReaderOk(ps', F, s.reader.value)
  {
    hide Reach, Faithful, Grown, BlockFrom;
    forall i | 0 <= i < |s.queue| ensures Reach(ps', F, s.queue[i]) { ReachGrown(s.parts, ps', F, s.queue[i]); }
    forall w | w in s.jobs ensures JobOk(ps', F, s.jobs[w]) { ReachGrown(s.parts, ps', F, s.jobs[w].blk); }
    if s.reader.Some? {
      var r := s.reader.value;
      if Reach(s.parts, F, r.Blk()) { ReachGrown(s.parts, ps', F, r.Blk()); }
      if Reach(s.parts, F, r.Blk() + 1) { ReachGrown(s.parts, ps', F, r.Blk() + 1); }
    }
  }

  lemma PastEndReach(ps: Parts, F: File, blk: nat)
    requires Reach(ps, F, blk) && blk * B >= |F|
    ensures Reach(ps, F, blk + 1)
  {
  }

  /** Every step of a prefetch job keeps the invariant. */
  lemma JobStep(F: File, s: State, a: Action)
    requires Inv(F, s) && Enabled(F, s, a) && (a.StartJob? || a.JobCheck? || a.JobFetch? || a.JobStore? || a.EndJob?)
    ensures Inv(F, Next(F, s, a))
  {
    hide Reach, Faithful, Grown, BlockFrom, StoreWrite, ReaderOk, Exact, Got;
    match a {
      case JobCheck(w) =>
        if Cached(s.parts, s.jobs[w].blk * B) { CachedFaithful(s.parts, F, s.jobs[w].blk); }
      case JobFetch(w) =>
        if s.jobs[w].blk * B >= |F| { PastEndReach(s.parts, F, s.jobs[w].blk); }
      case JobStore(w) =>
        StoreReachable(s.parts, F, s.jobs[w].blk);
        StoreKeepsActors(F, s, Next(F, s, a).parts);
      case _ =>
    }
  }

  lemma ReadCheckStep(F: File, s: State, stack: Block)
    requires Inv(F, s) && Enabled(F, s, ReadCheck(stack))
    ensures Inv(F, Next(F, s, ReadCheck(stack)))
  {
    hide Reach, Faithful, Exact, JobOk;
    var r := s.reader.value;
    if Cached(s.parts, r.Blk() * B) {
      CachedFaithful(s.parts, F, r.Blk());
    }
  }

  lemma ReadStoreStep(F: File, s: State)
    requires Inv(F, s) && Enabled(F, s, ReadStore)
    ensures Inv(F, Next(F, s, ReadStore))
  {
    hide Reach, Faithful, Exact, JobOk, Grown, StoreWrite;
    var r := s.reader.value;
    assert r.Blk() * B <= r.Pos() < |F|;
    StoreReachable(s.parts, F, r.Blk());
    StoreKeepsActors(F, s, Next(F, s, ReadStore).parts);
    assert forall i :: 0 <= i < r.phase.got ==> r.phase.buf[i] == r.phase.buf[..r.phase.got][i];
  }

  lemma ReadCopyStep(F: File, s: State)
    requires Inv(F, s) && Enabled(F, s, ReadCopy)
    ensures Inv(F, Next(F, s, ReadCopy))
  {
    hide Reach, Faithful, Exact, JobOk, Want, ReaderOk;
    CopyReaderOk(F, s.parts, s.reader.value);
    CopyReach(F, s.parts, s.reader.value);
  }

  /** After the copy the reader has `w` more bytes of the file, and the next block is reachable. */
  lemma CopyReaderOk(F: File, ps: Parts, r: Reader)
    requires ReaderOk(ps, F, r) && r.phase.RCopy? && |r.out| < r.len
    ensures var w, i := Want(r.Pos(), r.len - |r.out|), r.Pos() % B;
            ReaderOk(ps, F, r.(out := r.out + r.phase.buf[i..i + w], phase := RCheck))
  {
    hide Reach, Want, BlockFrom;
    var w := Want(r.Pos(), r.len - |r.out|);
    CopyOut(F, r.Pos(), w, r.phase.buf);
    if w < r.len - |r.out| {
      NextBlock(r.Pos(), r.len - |r.out|);
    }
  }

  lemma CopyReach(F: File, ps: Parts, r: Reader)
    requires ReaderOk(ps, F, r) && r.phase.RCopy? && |r.out| < r.len
    ensures Reach(ps, F, r.Blk() + 1)
  {
    hide Reach, BlockFrom;
  }

  lemma NextBlock(pos: nat, len: nat)
    requires Want(pos, len) < len
    ensures (pos + Want(pos, len)) / B == pos / B + 1
  {
    hide Want;
    WantEnds(pos, len);
  }

  lemma CopyOut(F: File, pos: nat, w: nat, block: File)
    requires BlockFrom(F, pos / B, block) && pos % B + w <= B && pos + w <= |F|
    ensures block[pos % B..pos % B + w] == F[pos..pos + w]
  {
    assert pos / B * B + pos % B == pos;
  }

  /** Every step of a foreground read keeps the invariant, when the read starts at or below the cached prefix. */
  lemma ReadStep(F: File, s: State, a: Action)
    requires a.StartRead? ==> Reach(s.parts, F, a.off / B)
    requires Inv(F, s) && Enabled(F, s, a) && !(a.StartJob? || a.JobCheck? || a.JobFetch? || a.JobStore? || a.EndJob?)
    ensures Inv(F, Next(F, s, a))
  {
    hide Reach, Faithful, BlockFrom, StoreWrite, Got, JobOk;
    match a {
      case ReadCheck(stack) => ReadCheckStep(F, s, stack);
      case ReadFetch => assert s.reader.value.Blk() * B <= s.reader.value.Pos() < |F|;
      case ReadStore => ReadStoreStep(F, s);
      case ReadCopy => ReadCopyStep(F, s);
      case _ =>
    }
  }

  lemma {:induction false} RunKeepsInv(F: File, s: State, acts: seq<Action>, s': State)
    requires Inv(F, s) && RunsTo(F, s, acts, s') && ReadsReachable(F, s, acts)
    ensures Inv(F, s')
    decreases |acts|
  {
    hide Inv, Enabled, Next;
    if acts != [] {
      var a := acts[0];
      if a.StartJob? || a.JobCheck? || a.JobFetch? || a.JobStore? || a.EndJob? {
        JobStep(F, s, a);
      } else {
        ReadStep(F, s, a);
      }
      RunKeepsInv(F, Next(F, s, a), acts[1..], s');
    }
  }

  /**
   * In every interleaving whose reads start at or below the cached prefix of their part, each stored byte is the
   * backend's byte, no part has a hole, and every finished read returned exactly its range of the file.
   */
  lemma ConcurrentReadThrough(F: File, acts: seq<Action>, s: State)
    requires RunsTo(F, INIT, acts, s) && ReadsReachable(F, INIT, acts)
    ensures Faithful(s.parts, F)
    ensures forall i :: 0 <= i < |s.log| ==> Exact(F, s.log[i])
  {
    assert Faithful(map[], F);
    RunKeepsInv(F, INIT, acts, s);
  }

  // ---- Reads at or below the cached prefix of the whole object ----

  /** The stored bytes are exactly those below `n`. */
  ghost predicate PrefixAt(ps: Parts, n: nat, a: nat) { Stored(ps, a) <==> a < n }

  /** The stored object is the prefix of `F` of length `n`. */
  ghost predicate Prefix(ps: Parts, F: File, n: nat) {
    Faithful(ps, F) && n <= |F| && forall a: nat :: PrefixAt(ps, n, a)
  }

  ghost predicate Below(F: File, n: nat, blk: nat) { blk * B >= |F| || blk * B <= n }

  /** No actor is about to store a block beyond the prefix. */
  ghost predicate AllBelow(F: File, s: State, n: nat) {
    && (forall i :: 0 <= i < |s.queue| ==> Below(F, n, s.queue[i]))
    && (forall w :: w in s.jobs ==> Below(F, n, s.jobs[w].blk))
    && (s.reader.Some? && |s.reader.value.out| < s.reader.value.len ==>
          Below(F, n, if s.reader.value.phase.RCopy? then s.reader.value.Blk() + 1 else s.reader.value.Blk()))
  }

  ghost predicate PrefixInv(F: File, s: State, n: nat) { Inv(F, s) && Prefix(s.parts, F, n) && AllBelow(F, s, n) }

  /** The run's reads all start in a block at or below the cached prefix. */
  ghost predicate ReadsBelow(F: File, s: State, acts: seq<Action>)
    decreases |acts|
  {
    acts != [] && Enabled(F, s, acts[0]) ==>
      && (acts[0].StartRead? ==> forall n: nat :: Prefix(s.parts, F, n) ==> Below(F, n, acts[0].off / B))
      && ReadsBelow(F, Next(F, s, acts[0]), acts[1..])
  }

  /** At or below the prefix of the whole object is at or below that of the part. */
  lemma BelowReach(ps: Parts, F: File, n: nat, blk: nat)
    requires Prefix(ps, F, n) && Below(F, n, blk)
    ensures Reach(ps, F, blk)
  {
    if 0 < blk * B <= n && blk * B % P > 0 {
      assert PrefixAt(ps, n, blk * B - 1);
      DivMod(blk * B - 1, blk * B / P, blk * B % P - 1);
    }
  }

  lemma StorePrefixAt(ps: Parts, F: File, n: nat, blk: nat, a: nat)
    requires Bounded(ps) && PrefixAt(ps, n, a) && blk * B < |F| && blk * B <= n
    ensures PrefixAt(StoreWrite(ps, Pread(F, B, blk * B), blk * B), Max(n, Min(blk * B + B, |F|)), a)
  {
    StoreWriteFlat(ps, Pread(F, B, blk * B), blk, a);
  }

  lemma StorePrefix(ps: Parts, F: File, n: nat, blk: nat) returns (n': nat)
    requires Prefix(ps, F, n) && Reach(ps, F, blk) && Below(F, n, blk) && blk * B < |F|
    ensures n' >= n && Prefix(StoreWrite(ps, Pread(F, B, blk * B), blk * B), F, n') && Below(F, n', blk + 1)
  {
    hide PrefixAt, FaithfulAt, Bounded, Reach;
    n' := Max(n, Min(blk * B + B, |F|));
    StoreReachable(ps, F, blk);
    forall a: nat ensures PrefixAt(StoreWrite(ps, Pread(F, B, blk * B), blk * B), n', a) {
      StorePrefixAt(ps, F, n, blk, a);
    }
  }

  lemma CachedBelow(ps: Parts, F: File, n: nat, blk: nat)
    requires Prefix(ps, F, n) && Cached(ps, blk * B)
    ensures Below(F, n, blk + 1)
  {
    StoreReadFlat(ps, blk, B - 1);
    assert PrefixAt(ps, n, blk * B + B - 1);
  }

  lemma BelowMore(F: File, s: State, n: nat, n': nat)
    requires AllBelow(F, s, n) && n <= n'
    ensures AllBelow(F, s, n')
  {
  }

  lemma PrefixJobStep(F: File, s: State, n: nat, a: Action) returns (n': nat)
    requires PrefixInv(F, s, n) && Enabled(F, s, a)
    requires a.StartJob? || a.JobCheck? || a.JobFetch? || a.JobStore? || a.EndJob?
    ensures Prefix(Next(F, s, a).parts, F, n') && AllBelow(F, Next(F, s, a), n')
  {
    hide Prefix, Reach, Faithful, Got, StoreWrite, ReaderOk, Exact;
    n' := n;
    match a {
      case JobCheck(w) => if Cached(s.parts, s.jobs[w].blk * B) { CachedBelow(s.parts, F, n, s.jobs[w].blk); }
      case JobStore(w) =>
        n' := StorePrefix(s.parts, F, n, s.jobs[w].blk);
        BelowMore(F, s, n, n');
      case _ =>
    }
  }

  lemma PrefixCopyStep(F: File, s: State, n: nat)
    requires AllBelow(F, s, n) && Enabled(F, s, ReadCopy)
    ensures AllBelow(F, Next(F, s, ReadCopy), n)
  {
    hide Want, Below, Reach;
    var r := s.reader.value;
    if Want(r.Pos(), r.len - |r.out|) < r.len - |r.out| {
      NextBlock(r.Pos(), r.len - |r.out|);
    }
  }

  lemma PrefixReadStep(F: File, s: State, n: nat, a: Action) returns (n': nat)
    requires PrefixInv(F, s, n) && Enabled(F, s, a) && (a.StartRead? ==> Below(F, n, a.off / B))
    requires !(a.StartJob? || a.JobCheck? || a.JobFetch? || a.JobStore? || a.EndJob?)
    ensures Prefix(Next(F, s, a).parts, F, n') && AllBelow(F, Next(F, s, a), n')
  {
    hide Prefix, Reach, Faithful, Got, StoreWrite, Exact, JobOk;
    n' := n;
    match a {
      case ReadCheck(_) =>
        if Cached(s.parts, s.reader.value.Blk() * B) { CachedBelow(s.parts, F, n, s.reader.value.Blk()); }
      case ReadStore =>
        var r := s.reader.value;
        assert r.Blk() * B <= r.Pos() < |F|;
        n' := StorePrefix(s.parts, F, n, r.Blk());
        BelowMore(F, s, n, n');
      case ReadCopy => PrefixCopyStep(F, s, n);
      case _ =>
    }
  }

  lemma {:induction false} RunKeepsPrefix(F: File, s: State, n: nat, acts: seq<Action>, s': State) returns (n': nat)
    requires PrefixInv(F, s, n) && RunsTo(F, s, acts, s') && ReadsBelow(F, s, acts)
    ensures PrefixInv(F, s', n')
    decreases |acts|
  {
    hide Inv, Enabled, Next, Prefix, AllBelow, Below;
    n' := n;
    if acts != [] {
      var a := acts[0];
      if a.StartJob? || a.JobCheck? || a.JobFetch? || a.JobStore? || a.EndJob? {
        JobStep(F, s, a);
        n' := PrefixJobStep(F, s, n, a);
      } else {
        if a.StartRead? { BelowReach(s.parts, F, n, a.off / B); }
        ReadStep(F, s, a);
        n' := PrefixReadStep(F, s, n, a);
      }
      n' := RunKeepsPrefix(F, Next(F, s, a), n', acts[1..], s');
    }
  }

  /** If every read starts at or below the cached prefix of the object, the stored object always is a prefix of the file. */
  lemma ConcurrentPrefix(F: File, acts: seq<Action>, s: State)
    requires RunsTo(F, INIT, acts, s) && ReadsBelow(F, INIT, acts)
    ensures exists n: nat :: Prefix(s.parts, F, n)
  {
    assert Prefix(map[], F, 0) by { assert Faithful(map[], F); }
    var n := RunKeepsPrefix(F, INIT, 0, acts, s);
  }

  // ---- Reads anywhere ----

  ghost predicate MixedAt(ps: Parts, F: File, a: nat) {
    Stored(ps, a) ==> a < |F| && (ByteAt(ps, a) == F[a] || ByteAt(ps, a) == 0)
  }

  /** Every stored byte is the backend's or zero. */
  ghost predicate Mixed(ps: Parts, F: File) { Bounded(ps) && forall a: nat :: MixedAt(ps, F, a) }

  /** Bytes from `off` on, each the backend's or zero, as far as the file has bytes. */
  ghost predicate MixedFrom(F: File, off: nat, out: File) {
    forall i :: 0 <= i < |out| && off + i < |F| ==> out[i] == F[off + i] || out[i] == 0
  }

  ghost predicate LooseJob(F: File, j: Job) {
    j.phase.JStore? ==> j.phase.got == Pread(F, B, j.blk * B) && j.blk * B < |F|
  }

  ghost predicate LooseReader(F: File, r: Reader) {
    && |r.out| <= r.len && r.off + r.len <= |F| && MixedFrom(F, r.off, r.out)
    && (!r.phase.RCheck? ==> |r.out| < r.len)
    && (r.phase.RStore? ==>
          r.phase.got == |Pread(F, B, r.Blk() * B)| && r.phase.buf[..r.phase.got] == Pread(F, B, r.Blk() * B))
    && (r.phase.RCopy? ==> MixedFrom(F, r.Blk() * B, r.phase.buf))
  }

  /** A finished read returned its whole range, each byte the backend's or zero. */
  ghost predicate Loose(F: File, c: Completed) {
    c.off + c.len <= |F| && c.rc == c.len == |c.out| && MixedFrom(F, c.off, c.out)
  }

  ghost predicate LooseInv(F: File, s: State) {
    && Mixed(s.parts, F)
    && (forall w :: w in s.jobs ==> LooseJob(F, s.jobs[w]))
    && (s.reader.Some? ==> LooseReader(F, s.reader.value))
    && (forall i :: 0 <= i < |s.log| ==> Loose(F, s.log[i]))
  }

  lemma StoreMixed(ps: Parts, F: File, blk: nat)
    requires Mixed(ps, F) && blk * B < |F|
    ensures Mixed(StoreWrite(ps, Pread(F, B, blk * B), blk * B), F)
  {
    hide Stored, ByteAt, Bounded, StoreWrite;
    var got := Pread(F, B, blk * B);
    var ps' := StoreWrite(ps, got, blk * B);
    forall a: nat ensures Bounded(ps') && MixedAt(ps', F, a) {
      assert MixedAt(ps, F, a);
      StoreWriteFlat(ps, got, blk, a);
    }
    StoreWriteFlat(ps, got, blk, 0);
  }

  lemma CachedMixed(ps: Parts, F: File, blk: nat)
    requires Mixed(ps, F) && Cached(ps, blk * B)
    ensures MixedFrom(F, blk * B, Got(ps, B, blk * B))
  {
    hide Stored, ByteAt, Bounded, Got;
    var have := Got(ps, B, blk * B);
    forall i | 0 <= i < B && blk * B + i < |F| ensures have[i] == F[blk * B + i] || have[i] == 0 {
      StoreReadFlat(ps, blk, i);
      assert MixedAt(ps, F, blk * B + i);
    }
  }

  lemma FetchedMixed(F: File, blk: nat, buf: Block)
    requires var got := Pread(F, B, blk * B); buf[..|got|] == got
    ensures MixedFrom(F, blk * B, buf)
  {
    var got := Pread(F, B, blk * B);
    assert forall i :: 0 <= i < |got| ==> buf[i] == buf[..|got|][i];
  }

  lemma CopyMixed(F: File, off: nat, out: File, block: File, w: nat)
    requires MixedFrom(F, off, out) && |block| == B && MixedFrom(F, (off + |out|) / B * B, block)
    requires (off + |out|) % B + w <= B
    ensures MixedFrom(F, off, out + block[(off + |out|) % B..(off + |out|) % B + w])
  {
    var pos := off + |out|;
    assert pos == pos / B * B + pos % B;
    var all := out + block[pos % B..pos % B + w];
    forall i | 0 <= i < |all| && off + i < |F| ensures all[i] == F[off + i] || all[i] == 0 {
      if i >= |out| {
        var k := pos % B + (i - |out|);
        assert all[i] == block[k] && pos / B * B + k == off + i;
      }
    }
  }

  lemma LooseReadStep(F: File, s: State, a: Action)
    requires LooseInv(F, s) && Enabled(F, s, a)
    requires a.ReadCheck? || a.ReadFetch? || a.ReadStore? || a.ReadCopy?
    ensures LooseInv(F, Next(F, s, a))
  {
    hide Mixed, MixedFrom, StoreWrite, Got, LooseJob, Loose, Want;
    var r := s.reader.value;
    match a {
      case ReadCheck(stack) =>
        if Cached(s.parts, r.Blk() * B) {
          CachedMixed(s.parts, F, r.Blk());
          var have := Got(s.parts, B, r.Blk() * B);
          assert Overlay(stack, have) == have;
        }
      case ReadFetch => assert r.Blk() * B <= r.Pos() < |F|;
      case ReadStore =>
        assert r.Blk() * B <= r.Pos() < |F|;
        StoreMixed(s.parts, F, r.Blk());
        FetchedMixed(F, r.Blk(), r.phase.buf);
      case ReadCopy => CopyMixed(F, r.off, r.out, r.phase.buf, Want(r.Pos(), r.len - |r.out|));
    }
  }

  lemma LooseStep(F: File, s: State, a: Action)
    requires LooseInv(F, s) && Enabled(F, s, a)
    ensures LooseInv(F, Next(F, s, a))
  {
    hide Mixed, MixedFrom, StoreWrite, Got;
    match a {
      case StartRead(off, len) => NothingMixed(F, off);
      case JobStore(w) => StoreMixed(s.parts, F, s.jobs[w].blk);
      case ReadCheck(_) => LooseReadStep(F, s, a);
      case ReadFetch => LooseReadStep(F, s, a);
      case ReadStore => LooseReadStep(F, s, a);
      case ReadCopy => LooseReadStep(F, s, a);
      case _ =>
    }
  }

  lemma NothingMixed(F: File, off: nat)
    ensures MixedFrom(F, off, [])
  {
  }

  lemma {:induction false} RunKeepsLoose(F: File, s: State, acts: seq<Action>, s': State)
    requires LooseInv(F, s) && RunsTo(F, s, acts, s')
    ensures LooseInv(F, s')
    decreases |acts|
  {
    hide LooseInv, Enabled, Next;
    if acts != [] {
      LooseStep(F, s, acts[0]);
      RunKeepsLoose(F, Next(F, s, acts[0]), acts[1..], s');
    }
  }

  /**
   * In every interleaving, wherever the reads start, each stored byte is the backend's or zero, and every finished
   * in-range read returned its whole range with each byte the backend's or zero: never a byte of another place or of
   * the uninitialised buffer.
   */
  lemma ConcurrentMixed(F: File, acts: seq<Action>, s: State)
    requires RunsTo(F, INIT, acts, s)
    ensures Mixed(s.parts, F)
    ensures forall i :: 0 <= i < |s.log| ==> Loose(F, s.log[i])
  {
    RunKeepsLoose(F, INIT, acts, s);
  }

  // ---- Every read comes to its end ----

  predicate ReaderAct(a: Action) { a.ReadCheck? || a.ReadFetch? || a.ReadStore? || a.ReadCopy? || a.EndRead? }

  function ReaderRank(p: ReadPhase): nat { if p.RCheck? then 3 else if p.RFetch? then 2 else if p.RStore? then 1 else 0 }

  /** How many own steps a read still takes at most. */
  function ReaderMeasure(r: Reader): nat { 4 * Max(r.len - |r.out|, 0) + ReaderRank(r.phase) }

  /** The call that a log entry answers. */
  ghost predicate AnswersTo(c: Completed, r: Reader) { c.off == r.off && c.len == r.len }

  /** An own step of the read ends it, with one log entry for it, or brings it closer to its end. */
  lemma ReaderAdvances(F: File, s: State, a: Action)
    requires Enabled(F, s, a) && ReaderAct(a)
    ensures s.reader.Some?
    ensures var r, s' := s.reader.value, Next(F, s, a);
            if s'.reader.Some? then
              && s'.log == s.log && s'.reader.value.off == r.off && s'.reader.value.len == r.len
              && ReaderMeasure(s'.reader.value) < ReaderMeasure(r)
            else |s'.log| == |s.log| + 1 && s.log <= s'.log && AnswersTo(s'.log[|s.log|], r)
  {
    hide StoreWrite, Got, Want;
  }

  lemma OthersLeaveReader(F: File, s: State, a: Action)
    requires Enabled(F, s, a) && !ReaderAct(a)
    ensures Next(F, s, a).log == s.log
    ensures a.StartRead? ==> s.reader.None? && Next(F, s, a).reader == Some(Reader(a.off, a.len, [], RCheck))
    ensures !a.StartRead? ==> Next(F, s, a).reader == s.reader
  {
    hide StoreWrite, Got;
  }

  /** A read is never stuck: one of its own steps is possible, whatever the jobs do. */
  lemma ReaderNeverStuck(F: File, s: State)
    requires LooseInv(F, s) && s.reader.Some?
    ensures exists a :: ReaderAct(a) && Enabled(F, s, a)
  {
    hide Mixed, MixedFrom;
    var r := s.reader.value;
    var a := match r.phase
             case RCheck => if |r.out| < r.len then ReadCheck(Zeros(B)) else EndRead
             case RFetch(_) => ReadFetch
             case RStore(_, _) => ReadStore
             case RCopy(_) => ReadCopy;
    assert ReaderAct(a) && Enabled(F, s, a);
  }

  function OwnSteps(acts: seq<Action>): nat {
    if |acts| == 0 then 0 else (if ReaderAct(acts[0]) then 1 else 0) + OwnSteps(acts[1..])
  }

  lemma {:induction false} LogGrows(F: File, s: State, acts: seq<Action>, s': State)
    requires RunsTo(F, s, acts, s')
    ensures s.log <= s'.log
    decreases |acts|
  {
    hide Enabled, Next;
    if acts != [] {
      if ReaderAct(acts[0]) { ReaderAdvances(F, s, acts[0]); } else { OthersLeaveReader(F, s, acts[0]); }
      LogGrows(F, Next(F, s, acts[0]), acts[1..], s');
    }
  }

  lemma {:induction false} ReaderEnds(F: File, s: State, acts: seq<Action>, s': State)
    requires s.reader.Some? && RunsTo(F, s, acts, s') && OwnSteps(acts) > ReaderMeasure(s.reader.value)
    ensures |s'.log| > |s.log| && s.log <= s'.log && AnswersTo(s'.log[|s.log|], s.reader.value)
    decreases |acts|
  {
    hide Enabled, Next, ReaderMeasure, ReaderAct;
    var s1 := Next(F, s, acts[0]);
    if ReaderAct(acts[0]) {
      ReaderAdvances(F, s, acts[0]);
      if s1.reader.Some? {
        ReaderEnds(F, s1, acts[1..], s');
      } else {
        LogGrows(F, s1, acts[1..], s');
      }
    } else {
      OthersLeaveReader(F, s, acts[0]);
      if acts[0].StartRead? { assert false; }
      ReaderEnds(F, s1, acts[1..], s');
    }
  }

  /**
   * Every read comes to its end: it never blocks, and once it has taken more own steps than its measure says, however
   * they interleave with the jobs, it was answered, with its whole range of bytes that are the backend's or zero.
   */
  lemma ReadFinishes(F: File, before: seq<Action>, s: State, acts: seq<Action>, s': State)
    requires RunsTo(F, INIT, before, s) && s.reader.Some? && RunsTo(F, s, acts, s')
    ensures exists a :: ReaderAct(a) && Enabled(F, s, a)
    ensures OwnSteps(acts) > ReaderMeasure(s.reader.value) ==>
      |s'.log| > |s.log| && AnswersTo(s'.log[|s.log|], s.reader.value) && Loose(F, s'.log[|s.log|])
  {
    hide LooseInv, Loose, ReaderAct, Enabled, ReaderMeasure;
    InitLoose(F);
    RunKeepsLoose(F, INIT, before, s);
    ReaderNeverStuck(F, s);
    if OwnSteps(acts) > ReaderMeasure(s.reader.value) {
      RunKeepsLoose(F, s, acts, s');
      ReaderEnds(F, s, acts, s');
      LooseLog(F, s');
    }
  }

  lemma InitLoose(F: File)
    ensures LooseInv(F, INIT)
  {
  }

  lemma LooseLog(F: File, s: State)
    requires LooseInv(F, s)
    ensures forall i :: 0 <= i < |s.log| ==> Loose(F, s.log[i])
  {
  }

  /** A block is fetched exactly when it did not count as cached at its check. */
  lemma CheckDecides(F: File, s: State, a: Action)
    requires Enabled(F, s, a)
    ensures a.ReadCheck? ==>
      && Next(F, s, a).reader.Some? && Next(F, s, a).reader.value.Blk() == s.reader.value.Blk()
      && (Next(F, s, a).reader.value.phase.RFetch? <==> !Cached(s.parts, s.reader.value.Blk() * B))
      && (Next(F, s, a).reader.value.phase.RCopy? <==> Cached(s.parts, s.reader.value.Blk() * B))
    ensures a.JobCheck? ==>
      && (Next(F, s, a).jobs[a.worker].phase.JFetch? <==> !Cached(s.parts, s.jobs[a.worker].blk * B))
      && Next(F, s, a).jobs[a.worker].blk ==
         s.jobs[a.worker].blk + if Cached(s.parts, s.jobs[a.worker].blk * B) then 1 else 0
  {
    hide StoreWrite;
  }

  // ---- Every call is answered once, in order ----

  datatype Call = Call(off: nat, len: nat)

  function Calls(acts: seq<Action>): seq<Call> {
    if |acts| == 0 then []
    else (if acts[0].StartRead? then [Call(acts[0].off, acts[0].len)] else []) + Calls(acts[1..])
  }

  function Answers(log: seq<Completed>): seq<Call> { seq(|log|, i requires 0 <= i < |log| => Call(log[i].off, log[i].len)) }

  function Pending(r: Option<Reader>): seq<Call> { if r.Some? then [Call(r.value.off, r.value.len)] else [] }

  lemma {:induction false} RunAnswers(F: File, s: State, acts: seq<Action>, s': State)
    requires RunsTo(F, s, acts, s')
    ensures Answers(s'.log) + Pending(s'.reader) == Answers(s.log) + Pending(s.reader) + Calls(acts)
    decreases |acts|
  {
    hide Enabled, Next, ReaderMeasure, ReaderAct;
    if |acts| == 0 {
      assert Answers(s.log) + Pending(s.reader) + [] == Answers(s.log) + Pending(s.reader);
    } else {
      var a, s1 := acts[0], Next(F, s, acts[0]);
      RunAnswers(F, s1, acts[1..], s');
      StepAnswers(F, s, a);
      var own := if a.StartRead? then [Call(a.off, a.len)] else [];
      assert Answers(s.log) + Pending(s.reader) + (own + Calls(acts[1..])) ==
             (Answers(s.log) + Pending(s.reader) + own) + Calls(acts[1..]);
    }
  }

  lemma StepAnswers(F: File, s: State, a: Action)
    requires Enabled(F, s, a)
    ensures Answers(Next(F, s, a).log) + Pending(Next(F, s, a).reader) ==
            Answers(s.log) + Pending(s.reader) + if a.StartRead? then [Call(a.off, a.len)] else []
  {
    hide Enabled, Next, ReaderMeasure;
    if ReaderAct(a) { ReaderAdvances(F, s, a); } else { OthersLeaveReader(F, s, a); }
  }

  /** In every interleaving the log answers the reads in the order of their calls, all but the one under way. */
  lemma CallsAnswered(F: File, acts: seq<Action>, s: State)
    requires RunsTo(F, INIT, acts, s)
    ensures Answers(s.log) + Pending(s.reader) == Calls(acts)
  {
    RunAnswers(F, INIT, acts, s);
    assert Answers([]) + Pending(None) + Calls(acts) == Calls(acts);
  }

  // ---- Every job comes to its end, and has done its work ----

  predicate JobAct(a: Action, w: nat) {
    a == JobCheck(w) || a == JobFetch(w) || a == JobStore(w) || a == EndJob(w)
  }

  function JobRank(p: JobPhase): nat { if p.JCheck? then 2 else if p.JFetch? then 1 else 0 }

  function JobMeasure(j: Job): nat { 3 * j.left + JobRank(j.phase) }

  /** What the file has of block `b` is stored. */
  ghost predicate BlockStored(ps: Parts, F: File, b: nat) {
    forall a: nat :: b * B <= a < b * B + B && a < |F| ==> Stored(ps, a)
  }

  ghost predicate JobDoes(ps: Parts, F: File, j: Job) {
    && InWindow(j) && (!j.phase.JCheck? ==> j.left > 0)
    && forall b :: j.first <= b < j.blk ==> BlockStored(ps, F, b)
  }

  ghost predicate WindowStored(ps: Parts, F: File, first: nat) {
    forall b :: first <= b < first + PREFETCH_WINDOW ==> BlockStored(ps, F, b)
  }

  /** Blocks behind a job, of a finished job, and completed by reads are stored as far as the file has them. */
  ghost predicate WorkDone(F: File, s: State) {
    && (forall w :: w in s.jobs ==> JobDoes(s.parts, F, s.jobs[w]))
    && (forall i :: 0 <= i < |s.ended| ==> WindowStored(s.parts, F, s.ended[i]))
    && (forall i :: 0 <= i < |s.blocks| ==> BlockStored(s.parts, F, s.blocks[i]))
    && (s.reader.Some? && s.reader.value.phase.RCopy? ==> BlockStored(s.parts, F, s.reader.value.Blk()))
  }

  lemma StoredStays(ps: Parts, F: File, blk: nat, b: nat)
    requires Bounded(ps) && blk * B < |F| && BlockStored(ps, F, b)
    ensures BlockStored(StoreWrite(ps, Pread(F, B, blk * B), blk * B), F, b)
  {
    hide Stored, Bounded, StoreWrite;
    forall a: nat | b * B <= a < b * B + B && a < |F| ensures Stored(StoreWrite(ps, Pread(F, B, blk * B), blk * B), a) {
      StoreWriteFlat(ps, Pread(F, B, blk * B), blk, a);
    }
  }

  lemma StoreStores(ps: Parts, F: File, blk: nat)
    requires Bounded(ps) && blk * B < |F|
    ensures BlockStored(StoreWrite(ps, Pread(F, B, blk * B), blk * B), F, blk)
  {
    hide Stored, Bounded, StoreWrite;
    BlockInOnePart(blk, 0);
    forall a: nat | blk * B <= a < blk * B + B && a < |F|
      ensures Stored(StoreWrite(ps, Pread(F, B, blk * B), blk * B), a)
    {
      StoreWriteFlat(ps, Pread(F, B, blk * B), blk, a);
    }
  }

  lemma CachedStores(ps: Parts, F: File, blk: nat)
    requires Bounded(ps) && Cached(ps, blk * B)
    ensures BlockStored(ps, F, blk)
  {
    hide Stored, Bounded, Got;
    forall a: nat | blk * B <= a < blk * B + B && a < |F| ensures Stored(ps, a) {
      StoreReadFlat(ps, blk, a - blk * B);
    }
  }

  lemma NothingToStore(ps: Parts, F: File, blk: nat)
    requires blk * B >= |F|
    ensures BlockStored(ps, F, blk)
  {
  }

  /** A store keeps all the work done so far. */
  lemma StoreKeepsWork(F: File, s: State, blk: nat)
    requires WorkDone(F, s) && Bounded(s.parts) && blk * B < |F|
    ensures WorkDone(F, s.(parts := StoreWrite(s.parts, Pread(F, B, blk * B), blk * B)))
  {
    hide StoreWrite, BlockStored, Bounded;
    var ps' := StoreWrite(s.parts, Pread(F, B, blk * B), blk * B);
    forall b: nat ensures BlockStored(s.parts, F, b) ==> BlockStored(ps', F, b) {
      if BlockStored(s.parts, F, b) { StoredStays(s.parts, F, blk, b); }
    }
  }

  lemma JobWorks(F: File, s: State, a: Action, w: nat)
    requires LooseInv(F, s) && WorkDone(F, s) && Enabled(F, s, a) && JobAct(a, w)
    ensures WorkDone(F, Next(F, s, a))
  {
    hide StoreWrite, BlockStored, Bounded, Got, MixedAt, MixedFrom, Loose, LooseReader, Cached;
    var j := s.jobs[w];
    match a {
      case JobCheck(_) => if Cached(s.parts, j.blk * B) { CachedStores(s.parts, F, j.blk); }
      case JobFetch(_) => if j.blk * B >= |F| { NothingToStore(s.parts, F, j.blk); }
      case JobStore(_) =>
        StoreKeepsWork(F, s, j.blk);
        StoreStores(s.parts, F, j.blk);
      case EndJob(_) =>
    }
  }

  lemma ReaderWorks(F: File, s: State, a: Action)
    requires LooseInv(F, s) && WorkDone(F, s) && Enabled(F, s, a) && ReaderAct(a)
    ensures WorkDone(F, Next(F, s, a))
  {
    hide StoreWrite, BlockStored, Bounded, Got, MixedAt, MixedFrom, Loose, LooseJob, JobDoes, WindowStored, Want;
    var r := s.reader.value;
    match a {
      case ReadCheck(_) => if Cached(s.parts, r.Blk() * B) { CachedStores(s.parts, F, r.Blk()); }
      case ReadStore =>
        assert r.Blk() * B <= r.Pos() < |F|;
        StoreKeepsWork(F, s, r.Blk());
        StoreStores(s.parts, F, r.Blk());
      case _ =>
    }
  }

  lemma StepWorks(F: File, s: State, a: Action)
    requires LooseInv(F, s) && WorkDone(F, s) && Enabled(F, s, a)
    ensures WorkDone(F, Next(F, s, a))
  {
    hide StoreWrite, BlockStored, LooseInv, Cached;
    match a {
      case JobCheck(w) => JobWorks(F, s, a, w);
      case JobFetch(w) => JobWorks(F, s, a, w);
      case JobStore(w) => JobWorks(F, s, a, w);
      case EndJob(w) => JobWorks(F, s, a, w);
      case StartRead(_, _) =>
      case StartJob(_) =>
      case _ => ReaderWorks(F, s, a);
    }
  }

  lemma {:induction false} RunWorks(F: File, s: State, acts: seq<Action>, s': State)
    requires LooseInv(F, s) && WorkDone(F, s) && RunsTo(F, s, acts, s')
    ensures WorkDone(F, s')
    decreases |acts|
  {
    hide LooseInv, WorkDone, Enabled, Next;
    if acts != [] {
      StepWorks(F, s, acts[0]);
      LooseStep(F, s, acts[0]);
      RunWorks(F, Next(F, s, acts[0]), acts[1..], s');
    }
  }

  /**
   * In every interleaving, a block that a read completed, that a running job has passed, or that lies in the window
   * of a finished job is stored as far as the file has it.
   */
  lemma WorkGetsDone(F: File, acts: seq<Action>, s: State)
    requires RunsTo(F, INIT, acts, s)
    ensures forall i :: 0 <= i < |s.blocks| ==> BlockStored(s.parts, F, s.blocks[i])
    ensures forall w, b :: w in s.jobs && s.jobs[w].first <= b < s.jobs[w].blk ==> BlockStored(s.parts, F, b)
    ensures forall i :: 0 <= i < |s.ended| ==> WindowStored(s.parts, F, s.ended[i])
  {
    hide LooseInv, BlockStored;
    InitLoose(F);
    RunWorks(F, INIT, acts, s);
  }

  /** An own step of a job ends it or brings it closer to its end. */
  lemma JobAdvances(F: File, s: State, a: Action, w: nat)
    requires Enabled(F, s, a) && JobAct(a, w)
    ensures w in s.jobs
    ensures var j, s' := s.jobs[w], Next(F, s, a);
            if w in s'.jobs then
              s'.ended == s.ended && s'.jobs[w].first == j.first && JobMeasure(s'.jobs[w]) < JobMeasure(j)
            else s'.ended == s.ended + [j.first]
  {
    hide StoreWrite, Got;
  }

  lemma OthersLeaveJob(F: File, s: State, a: Action, w: nat)
    requires Enabled(F, s, a) && !JobAct(a, w) && w in s.jobs
    ensures var s' := Next(F, s, a); w in s'.jobs && s'.jobs[w] == s.jobs[w] && s.ended <= s'.ended
  {
    hide StoreWrite, Got;
  }

  function JobSteps(acts: seq<Action>, w: nat): nat {
    if |acts| == 0 then 0 else (if JobAct(acts[0], w) then 1 else 0) + JobSteps(acts[1..], w)
  }

  lemma StepEnds(F: File, s: State, a: Action)
    requires Enabled(F, s, a)
    ensures s.ended <= Next(F, s, a).ended
  {
    hide StoreWrite, Got;
  }

  lemma {:induction false} EndedGrows(F: File, s: State, acts: seq<Action>, s': State)
    requires RunsTo(F, s, acts, s')
    ensures s.ended <= s'.ended
    decreases |acts|
  {
    hide Enabled, Next;
    if acts != [] {
      StepEnds(F, s, acts[0]);
      EndedGrows(F, Next(F, s, acts[0]), acts[1..], s');
    }
  }

  lemma {:induction false} JobEnds(F: File, s: State, acts: seq<Action>, s': State, w: nat)
    requires w in s.jobs && RunsTo(F, s, acts, s') && JobSteps(acts, w) > JobMeasure(s.jobs[w])
    ensures s.ended <= s'.ended && s.jobs[w].first in s'.ended[|s.ended|..]
    decreases |acts|
  {
    hide Enabled, Next, JobMeasure, JobAct;
    var s1 := Next(F, s, acts[0]);
    if JobAct(acts[0], w) {
      JobAdvances(F, s, acts[0], w);
      if w in s1.jobs {
        JobEnds(F, s1, acts[1..], s', w);
      } else {
        EndedGrows(F, s1, acts[1..], s');
        assert s'.ended[|s.ended|..][0] == s.jobs[w].first;
      }
    } else {
      OthersLeaveJob(F, s, acts[0], w);
      JobEnds(F, s1, acts[1..], s', w);
      assert s'.ended[|s1.ended|..] == s'.ended[|s.ended|..][|s1.ended| - |s.ended|..];
    }
  }

  lemma JobNeverStuck(F: File, s: State, w: nat)
    requires WorkDone(F, s) && w in s.jobs
    ensures exists a :: JobAct(a, w) && Enabled(F, s, a)
  {
    var j := s.jobs[w];
    var a := if j.left == 0 then EndJob(w)
             else match j.phase
                  case JCheck => JobCheck(w)
                  case JFetch => JobFetch(w)
                  case JStore(_) => JobStore(w);
    assert JobAct(a, w) && Enabled(F, s, a);
  }

  /**
   * Every job comes to its end: it never blocks, a queued job can start on any free worker, and once a job has taken
   * more own steps than its measure says, it is done and its window is stored.
   */
  lemma JobFinishes(F: File, before: seq<Action>, s: State, acts: seq<Action>, s': State, w: nat)
    requires RunsTo(F, INIT, before, s) && RunsTo(F, s, acts, s')
    ensures w !in s.jobs && s.queue != [] ==> Enabled(F, s, StartJob(w)) && w in Next(F, s, StartJob(w)).jobs
    ensures w in s.jobs ==> exists a :: JobAct(a, w) && Enabled(F, s, a)
    ensures w in s.jobs && JobSteps(acts, w) > JobMeasure(s.jobs[w]) ==>
      s.ended <= s'.ended && s.jobs[w].first in s'.ended[|s.ended|..] && WindowStored(s'.parts, F, s.jobs[w].first)
  {
    hide LooseInv, WindowStored, JobMeasure, JobAct;
    InitLoose(F);
    RunWorks(F, INIT, before, s);
    if w in s.jobs {
      JobNeverStuck(F, s, w);
      if JobSteps(acts, w) > JobMeasure(s.jobs[w]) {
        RunKeepsLoose(F, INIT, before, s);
        RunWorks(F, s, acts, s');
        JobEnds(F, s, acts, s', w);
      }
    }
  }

  // ---- Prefetches follow the reads ----

  ghost predicate InWindow(j: Job) { j.first <= j.blk && j.blk + j.left == j.first + PREFETCH_WINDOW }

  /** Jobs are those that sequential detection schedules for the completed blocks, and each stays in its window. */
  ghost predicate Follows(s: State) {
    && s.last == LastAfter(None, s.blocks)
    && s.started + s.queue == Scheduled(None, s.blocks)
    && (forall w :: w in s.jobs ==> s.jobs[w].first in s.started && InWindow(s.jobs[w]))
  }

  lemma CopyFollows(s: State, r: Reader)
    requires Follows(s) && r.phase.RCopy? && |r.out| < r.len
    ensures Follows(AfterReadCopy(s, r))
  {
    hide Scheduled, Want;
    var blk := r.Blk();
    ScheduledAppend(None, s.blocks, blk);
    ScheduledOne(s.last, blk);
    assert s.started + (s.queue + [blk + 1]) == s.started + s.queue + [blk + 1];
  }

  lemma StepFollows(F: File, s: State, a: Action)
    requires Follows(s) && Enabled(F, s, a)
    ensures Follows(Next(F, s, a))
  {
    hide Scheduled, LastAfter, Reach, Cached, Pread, StoreWrite, AfterReadCopy;
    match a {
      case ReadCopy => CopyFollows(s, s.reader.value);
      case StartJob(w) => assert s.started + [s.queue[0]] + s.queue[1..] == s.started + s.queue;
      case _ =>
    }
  }

  lemma {:induction false} RunFollows(F: File, s: State, acts: seq<Action>, s': State)
    requires Follows(s) && RunsTo(F, s, acts, s')
    ensures Follows(s')
    decreases |acts|
  {
    hide Follows, Enabled, Next;
    if acts != [] {
      StepFollows(F, s, acts[0]);
      RunFollows(F, Next(F, s, acts[0]), acts[1..], s');
    }
  }

  /**
   * In every interleaving the jobs started and queued are, in order, exactly those that sequential detection asks
   * for, and a running job is within the window of blocks behind its first one.
   */
  lemma PrefetchesFollowReads(F: File, acts: seq<Action>, s: State)
    requires RunsTo(F, INIT, acts, s)
    ensures s.started + s.queue == Scheduled(None, s.blocks) && s.last == LastAfter(None, s.blocks)
    ensures forall w :: w in s.jobs ==> s.jobs[w].first in s.started && InWindow(s.jobs[w])
  {
    RunFollows(F, INIT, acts, s);
  }
}
