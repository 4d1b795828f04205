/**
 * Writes on a path that has a backend copy `F`. A block that is not cached is merged with zeros instead of the
 * backend's bytes, so the store follows the written file only under a condition.
 */
module RemoteWrites {
  import opened Posix
  import opened Parts
  import opened CacheObject
  import opened Sequential
  import opened ReadThrough
  import opened Holes

  /** Which addresses are stored after a write: the touched parts are filled up to the end of the last block. */
  lemma StoredAfterWrite(o: Object, off: nat, data: File, a: nat)
    requires Bounded(o.parts) && data != []
    ensures Stored(WriteRun(o, off, data).parts, a) <==>
            Stored(o.parts, a) || off / P * P <= a < RoundUp(off + |data|)
  {
    hide WriteRun, RoundUp;
    WriteLength(o, off, data, a / P);
    TouchedParts(off, off + |data|, a);
  }

  /** In part-wise terms: the address lies in a touched part, below the end of the last touched block. */
  lemma TouchedParts(off: nat, end: nat, a: nat)
    requires off < end
    ensures off / P * P <= a < RoundUp(end) <==>
            off / P <= a / P <= (end - 1) / P && a % P < Min(RoundUp(end) - a / P * P, P)
  {
    BlockInOnePart((end - 1) / B, (end - 1) % B);
    assert RoundUp(end) == (end - 1) / B * B + B;
    assert end - 1 == (end - 1) / B * B + (end - 1) % B;
  }

  /** A byte that the write fills with zero: in a touched block or the gap in front, outside the range, not stored. */
  ghost predicate ZeroFilled(ps: Parts, off: nat, len: nat, a: nat) {
    off / P * P <= a < RoundUp(off + len) && !(off <= a < off + len) && !Stored(ps, a)
  }

  /** Filling this byte with zero loses nothing: the file has no byte there, or it is zero. */
  ghost predicate FillHarmlessAt(ps: Parts, F: File, off: nat, len: nat, a: nat) {
    ZeroFilled(ps, off, len, a) ==> ByteOr0(F, a) == 0
  }

  /** A stored byte is that of the file, zero past its end. */
  ghost predicate FollowsAt(ps: Parts, F: File, a: nat) { Stored(ps, a) ==> ByteAt(ps, a) == ByteOr0(F, a) }

  ghost predicate Follows(ps: Parts, F: File) { forall a: nat :: FollowsAt(ps, F, a) }

  lemma WriteFollowsAt(o: Object, F: File, off: nat, data: File, a: nat)
    requires Bounded(o.parts) && FollowsAt(o.parts, F, a) && data != []
    ensures FollowsAt(WriteRun(o, off, data).parts, Pwrite(F, data, off), a) <==>
            FillHarmlessAt(o.parts, F, off, |data|, a)
  {
    hide WriteRun, RoundUp, Stored, ByteAt, Bounded;
    WriteFrame(o, off, data, a);
    StoredAfterWrite(o, off, data, a);
  }

  /**
   * From a store that follows the backend file, a write leaves one that follows the written file exactly when every
   * byte it fills with zero is zero in the backend file, or past its end.
   */
  lemma WriteFollowsIff(o: Object, F: File, off: nat, data: File)
    requires Bounded(o.parts) && Follows(o.parts, F) && data != []
    ensures Follows(WriteRun(o, off, data).parts, Pwrite(F, data, off)) <==>
            forall a: nat :: FillHarmlessAt(o.parts, F, off, |data|, a)
  {
    hide WriteRun, FollowsAt, FillHarmlessAt, Bounded;
    var ps, ps', F' := o.parts, WriteRun(o, off, data).parts, Pwrite(F, data, off);
    forall a: nat ensures FollowsAt(ps', F', a) <==> FillHarmlessAt(ps, F, off, |data|, a) {
      WriteFollowsAt(o, F, off, data, a);
    }
  }

  lemma NothingStored(a: nat)
    ensures !Stored(FRESH.parts, a)
  {
  }

  /** An input that fails: writing the second byte of a backend file into an empty cache loses its first byte. */
  lemma WriteLosesBackendByte(F: File, x: byte, stack: nat -> Block)
    requires |F| >= 2 && F[0] != 0
    ensures var o := WriteRun(FRESH, 1, [x]);
            ReadRun(o, Some(F), stack, 0, 2).out == [0, x] && Pread(Pwrite(F, [x], 1), 2, 0) == [F[0], x]
  {
    hide WriteRun, ReadRun, Stored, ByteAt;
    assert RoundUp(2) == B;
    ReadAfterWrite(FRESH, Some(F), stack, 1, [x], 0, 2);
    NothingStored(0);
    StoredAfterWrite(FRESH, 1, [x], 0);
    var o := WriteRun(FRESH, 1, [x]);
    var out := ReadRun(o, Some(F), stack, 0, 2).out;
    assert HoldsAt(o.parts, 0 + 0, out[0]) && HoldsAt(o.parts, 0 + 1, out[1]);
    WriteFrame(FRESH, 1, [x], 0);
    WriteFrame(FRESH, 1, [x], 1);
  }

  // ---- Reading back ----

  ghost predicate HoldsAt(ps: Parts, a: nat, x: byte) { Stored(ps, a) && ByteAt(ps, a) == x }

  lemma TouchedSeen(o: Object, remote: Option<File>, stack: nat -> Block, off: nat, data: File, blk: nat)
    requires Bounded(o.parts) && data != [] && off / B <= blk <= (off + |data| - 1) / B
    ensures var o' := WriteRun(o, off, data);
            Bounded(o'.parts) && BlockSeen(o', remote, stack, blk) == Some(Got(o'.parts, B, blk * B))
  {
    hide WriteRun, Got, Stored, StoreWrite;
    var o' := WriteRun(o, off, data);
    WriteFrame(o, off, data, 0);
    LastByteTouched(off, off + |data|, blk);
    StoredAfterWrite(o, off, data, blk * B + B - 1);
    StoreReadFlat(o'.parts, blk, B - 1);
    var have := Got(o'.parts, B, blk * B);
    assert Overlay(stack(blk), have) == have;
  }

  lemma LastByteTouched(off: nat, end: nat, blk: nat)
    requires off < end && off / B <= blk <= (end - 1) / B
    ensures off / P * P <= blk * B + B - 1 < RoundUp(end)
  {
    assert RoundUp(end) == (end - 1) / B * B + B;
  }

  /**
   * A read inside the blocks that a write touched, backend copy or not, is complete and shows the stored bytes: the
   * backend's version of these blocks is never consulted again.
   */
  lemma ReadAfterWrite(o: Object, remote: Option<File>, stack: nat -> Block, off: nat, data: File, at: nat, len: nat)
    requires Bounded(o.parts) && data != [] && off / B * B <= at && at + len <= RoundUp(off + |data|)
    ensures var o' := WriteRun(o, off, data);
            var r := ReadRun(o', remote, stack, at, len);
            && r.Rc() == |r.out| == len
            && (forall i :: 0 <= i < len ==> HoldsAt(o'.parts, at + i, r.out[i]))
  {
    hide WriteRun, ReadRun, RoundUp, HoldsAt, SeenByte, BlockSeen, Bounded;
    var o' := WriteRun(o, off, data);
    var r := ReadRun(o', remote, stack, at, len);
    ReadSources(o', remote, stack, at, len);
    ReadTiles(o', remote, stack, at, len);
    if |r.out| < len {
      InTouched(off, off + |data|, at + |r.out|);
      TouchedSeen(o, remote, stack, off, data, (at + |r.out|) / B);
    }
    forall i | 0 <= i < len ensures HoldsAt(o'.parts, at + i, r.out[i]) {
      SeenIsStored(o, remote, stack, off, data, at + i, r.out[i]);
    }
  }

  lemma SeenIsStored(o: Object, remote: Option<File>, stack: nat -> Block, off: nat, data: File, a: nat, x: byte)
    requires Bounded(o.parts) && data != [] && off / B * B <= a < RoundUp(off + |data|)
    requires SeenByte(WriteRun(o, off, data), remote, stack, a, x)
    ensures HoldsAt(WriteRun(o, off, data).parts, a, x)
  {
    hide WriteRun, RoundUp, Stored, ByteAt, BlockSeen, Bounded, Got;
    InTouched(off, off + |data|, a);
    TouchedSeen(o, remote, stack, off, data, a / B);
    var ps := WriteRun(o, off, data).parts;
    StoreReadFlat(ps, a / B, a % B);
    StoreReadFlat(ps, a / B, B - 1);
    assert a == a / B * B + a % B;
  }

  lemma InTouched(off: nat, end: nat, a: nat)
    requires off < end && off / B * B <= a < RoundUp(end)
    ensures off / B <= a / B <= (end - 1) / B
  {
    assert RoundUp(end) == (end - 1) / B * B + B;
  }

  /** A caller reads back what it wrote, whatever the cache, the mirror and the backend held before. */
  lemma ReadYourWrites(o: Object, remote: Option<File>, stack: nat -> Block, off: nat, data: File)
    requires Bounded(o.parts)
    ensures var r := ReadRun(WriteRun(o, off, data), remote, stack, off, |data|);
            r.out == data && r.Rc() == |data|
  {
    hide WriteRun, ReadRun, RoundUp, ByteAt, Stored, Bounded;
    if data == [] {
      ReadTiles(WriteRun(o, off, data), remote, stack, off, 0);
    } else {
      var o' := WriteRun(o, off, data);
      ReadAfterWrite(o, remote, stack, off, data, off, |data|);
      var r := ReadRun(o', remote, stack, off, |data|);
      forall i | 0 <= i < |data| ensures r.out[i] == data[i] {
        assert HoldsAt(o'.parts, off + i, r.out[i]);
        WriteFrame(o, off, data, off + i);
      }
    }
  }

  /**
   * What a reader sees of the merge: a read inside the touched blocks shows the written backend file, zero past its
   * end, exactly when no byte it asks for was filled with zero over a non-zero one.
   */
  lemma MergeSeenIff(o: Object, F: File, stack: nat -> Block, off: nat, data: File, at: nat, len: nat)
    requires Bounded(o.parts) && Follows(o.parts, F)
    requires data != [] && off / B * B <= at && at + len <= RoundUp(off + |data|)
    ensures var r := ReadRun(WriteRun(o, off, data), Some(F), stack, at, len);
            && |r.out| == len
            && ((forall a :: at <= a < at + len ==> r.out[a - at] == ByteOr0(Pwrite(F, data, off), a)) <==>
                (forall a :: at <= a < at + len ==> FillHarmlessAt(o.parts, F, off, |data|, a)))
  {
    hide WriteRun, ReadRun, RoundUp, FollowsAt, FillHarmlessAt, Bounded, HoldsAt, ByteOr0, Pwrite;
    var o' := WriteRun(o, off, data);
    var r := ReadRun(o', Some(F), stack, at, len);
    ReadAfterWrite(o, Some(F), stack, off, data, at, len);
    forall a | at <= a < at + len
      ensures r.out[a - at] == ByteOr0(Pwrite(F, data, off), a) <==> FillHarmlessAt(o.parts, F, off, |data|, a)
    {
      assert HoldsAt(o'.parts, at + (a - at), r.out[a - at]);
      WriteFollowsAt(o, F, off, data, a);
      HoldsFollows(o'.parts, Pwrite(F, data, off), a, r.out[a - at]);
    }
  }

  lemma HoldsFollows(ps: Parts, F: File, a: nat, x: byte)
    requires HoldsAt(ps, a, x)
    ensures FollowsAt(ps, F, a) <==> x == ByteOr0(F, a)
  {
  }

  // ---- Runs of calls and prefetches ----

  /** Address `a` holds `x`, in a block that counts as cached. */
  ghost predicate Kept(ps: Parts, a: nat, x: byte) { HoldsAt(ps, a, x) && Stored(ps, a / B * B + B - 1) }

  /** A store of a fetched block leaves alone a block that counts as cached. */
  lemma FetchKeeps(ps: Parts, data: File, blk: nat, a: nat, x: byte)
    requires Bounded(ps) && Kept(ps, a, x) && !Cached(ps, blk * B) && 0 < |data| <= B
    ensures Bounded(StoreWrite(ps, data, blk * B)) && Kept(StoreWrite(ps, data, blk * B), a, x)
  {
    hide Stored, ByteAt, Bounded, StoreWrite, Got;
    StoreReadFlat(ps, blk, B - 1);
    assert a == a / B * B + a % B;
    assert a / B != blk;
    OtherBlock(a, blk);
    StoreWriteFlat(ps, data, blk, a);
    StoreWriteFlat(ps, data, blk, a / B * B + B - 1);
  }

  lemma OtherBlock(a: nat, blk: nat)
    requires a / B != blk
    ensures !(blk * B <= a < blk * B + B) && !(blk * B <= a / B * B + B - 1 < blk * B + B)
  {
  }

  lemma FetchBounded(ps: Parts, data: File, blk: nat)
    requires Bounded(ps) && 0 < |data| <= B
    ensures Bounded(StoreWrite(ps, data, blk * B))
  {
    hide Stored, ByteAt, Bounded, StoreWrite;
    StoreWriteFlat(ps, data, blk, 0);
  }

  lemma BlockBounded(o: Object, remote: Option<File>, stack: nat -> Block, blk: nat)
    requires Bounded(o.parts) && ReadBlock(o, remote, stack, blk).Some?
    ensures Bounded(ReadBlock(o, remote, stack, blk).value.0.parts)
  {
    hide Bounded, StoreWrite, Got;
    if !Cached(o.parts, blk * B) { FetchBounded(o.parts, Fetch(o, remote, blk * B), blk); }
  }

  lemma {:induction false} ReadBounded(o: Object, remote: Option<File>, stack: nat -> Block, off: nat, len: nat)
    requires Bounded(o.parts)
    ensures Bounded(ReadRun(o, remote, stack, off, len).obj.parts)
    decreases len
  {
    hide Bounded, Want, ReadBlock;
    if len > 0 && ReadBlock(o, remote, stack, off / B).Some? {
      BlockBounded(o, remote, stack, off / B);
      var w := Want(off, len);
      ReadBounded(ReadBlock(o, remote, stack, off / B).value.0, remote, stack, off + w, len - w);
    }
  }

  lemma BlockKeeps(o: Object, remote: Option<File>, stack: nat -> Block, blk: nat, a: nat, x: byte)
    requires Bounded(o.parts) && Kept(o.parts, a, x) && ReadBlock(o, remote, stack, blk).Some?
    ensures var ps := ReadBlock(o, remote, stack, blk).value.0.parts; Bounded(ps) && Kept(ps, a, x)
  {
    hide Bounded, Kept, StoreWrite, Got;
    if !Cached(o.parts, blk * B) { FetchKeeps(o.parts, Fetch(o, remote, blk * B), blk, a, x); }
  }

  lemma {:induction false} ReadKeeps(o: Object, remote: Option<File>, stack: nat -> Block, off: nat, len: nat, a: nat, x: byte)
    requires Bounded(o.parts) && Kept(o.parts, a, x)
    ensures Kept(ReadRun(o, remote, stack, off, len).obj.parts, a, x)
    decreases len
  {
    hide Bounded, Kept, Want, ReadBlock;
    if len > 0 && ReadBlock(o, remote, stack, off / B).Some? {
      BlockKeeps(o, remote, stack, off / B, a, x);
      var w := Want(off, len);
      ReadKeeps(ReadBlock(o, remote, stack, off / B).value.0, remote, stack, off + w, len - w, a, x);
    }
  }

  lemma {:induction false} PrefetchBounded(ps: Parts, F: File, bs: seq<nat>)
    requires Bounded(ps)
    ensures Bounded(Visits(ps, F, bs))
    decreases |bs|
  {
    hide Bounded, StoreWrite, Cached;
    if bs != [] {
      if Misses(ps, F, bs[0]) { FetchBounded(ps, Pread(F, B, bs[0] * B), bs[0]); }
      PrefetchBounded(Visit(ps, F, bs[0]), F, bs[1..]);
    }
  }

  lemma {:induction false} PrefetchKeeps(ps: Parts, F: File, bs: seq<nat>, a: nat, x: byte)
    requires Bounded(ps) && Kept(ps, a, x)
    ensures Kept(Visits(ps, F, bs), a, x)
    decreases |bs|
  {
    hide Bounded, Kept, StoreWrite, Cached;
    if bs != [] {
      if Misses(ps, F, bs[0]) { FetchKeeps(ps, Pread(F, B, bs[0] * B), bs[0], a, x); }
      PrefetchKeeps(Visit(ps, F, bs[0]), F, bs[1..], a, x);
    }
  }

  lemma WriteKeeps(o: Object, off: nat, data: File, a: nat, x: byte)
    requires Bounded(o.parts) && Kept(o.parts, a, x) && !(off <= a < off + |data|)
    ensures Kept(WriteRun(o, off, data).parts, a, x)
  {
    hide WriteRun, Bounded, Stored, ByteAt;
    WriteFrame(o, off, data, a);
    WriteFrame(o, off, data, a / B * B + B - 1);
  }

  lemma WritePuts(o: Object, off: nat, data: File, a: nat)
    requires Bounded(o.parts) && off <= a < off + |data|
    ensures Kept(WriteRun(o, off, data).parts, a, data[a - off])
  {
    hide WriteRun, Bounded, Stored, ByteAt, RoundUp;
    WriteFrame(o, off, data, a);
    LastByteTouched(off, off + |data|, a / B);
    StoredAfterWrite(o, off, data, a / B * B + B - 1);
  }

  predicate Writes(step: Step, a: nat) {
    step.Do? && step.op.Write? && step.op.off <= a < step.op.off + |step.op.data|
  }

  /** Step `k` is the last of the run that writes address `a`. */
  ghost predicate LastWrite(steps: seq<Step>, k: nat, a: nat) {
    k < |steps| && Writes(steps[k], a) && forall j :: k < j < |steps| ==> !Writes(steps[j], a)
  }

  lemma StepBounded(o: Object, remote: Option<File>, step: Step)
    requires Bounded(o.parts)
    ensures Bounded(After(o, remote, step).parts)
  {
    hide Bounded, ReadRun, WriteRun, Visits;
    match step
    case Do(Read(off, len), stack) => ReadBounded(o, remote, stack, off, len);
    case Do(Write(off, data), _) => WriteFrame(o, off, data, 0);
    case Prefetched(blocks) => PrefetchBounded(o.parts, RemoteBytes(remote), blocks);
  }

  lemma StepKeeps(o: Object, remote: Option<File>, step: Step, a: nat, x: byte)
    requires Bounded(o.parts) && Kept(o.parts, a, x) && !Writes(step, a)
    ensures Kept(After(o, remote, step).parts, a, x)
  {
    hide Bounded, Kept, ReadRun, WriteRun, Visits;
    match step
    case Do(Read(off, len), stack) => ReadKeeps(o, remote, stack, off, len, a, x);
    case Do(Write(off, data), _) => WriteKeeps(o, off, data, a, x);
    case Prefetched(blocks) => PrefetchKeeps(o.parts, RemoteBytes(remote), blocks, a, x);
  }

  lemma {:induction false} RunKeeps(o: Object, remote: Option<File>, steps: seq<Step>, a: nat, x: byte)
    requires Bounded(o.parts) && Kept(o.parts, a, x) && forall j :: 0 <= j < |steps| ==> !Writes(steps[j], a)
    ensures Kept(AfterRun(o, remote, steps).parts, a, x)
    decreases |steps|
  {
    hide Bounded, Kept, After, Writes;
    if |steps| > 0 {
      StepBounded(o, remote, steps[0]);
      StepKeeps(o, remote, steps[0], a, x);
      RunKeeps(After(o, remote, steps[0]), remote, steps[1..], a, x);
    }
  }

  lemma {:induction false} RunBounded(o: Object, remote: Option<File>, steps: seq<Step>)
    requires Bounded(o.parts)
    ensures Bounded(AfterRun(o, remote, steps).parts)
    decreases |steps|
  {
    hide Bounded, After;
    if |steps| > 0 {
      StepBounded(o, remote, steps[0]);
      RunBounded(After(o, remote, steps[0]), remote, steps[1..]);
    }
  }

  /** The byte a writing step puts at an address. */
  function Written(step: Step, a: nat): byte
    requires Writes(step, a)
  {
    step.op.data[a - step.op.off]
  }

  lemma StepPuts(o: Object, remote: Option<File>, step: Step, a: nat)
    requires Bounded(o.parts) && Writes(step, a)
    ensures Kept(After(o, remote, step).parts, a, Written(step, a))
  {
    hide Bounded, Kept, WriteRun;
    WritePuts(o, step.op.off, step.op.data, a);
  }

  /** After a run, an address that was written holds the byte of the last write to it, in a whole block. */
  lemma {:induction false} RunKeepsLastWrite(o: Object, remote: Option<File>, steps: seq<Step>, k: nat, a: nat)
    requires Bounded(o.parts) && LastWrite(steps, k, a)
    ensures Kept(AfterRun(o, remote, steps).parts, a, Written(steps[k], a))
    decreases |steps|
  {
    hide Bounded, Kept, After, Writes, Written;
    var o' := After(o, remote, steps[0]);
    StepBounded(o, remote, steps[0]);
    if k == 0 {
      StepPuts(o, remote, steps[0], a);
      RunKeeps(o', remote, steps[1..], a, Written(steps[0], a));
    } else {
      assert steps[1..][k - 1] == steps[k];
      RunKeepsLastWrite(o', remote, steps[1..], k - 1, a);
    }
  }

  lemma KeptSeen(o: Object, remote: Option<File>, stack: nat -> Block, a: nat, x: byte)
    requires Bounded(o.parts) && Kept(o.parts, a, x)
    ensures SeenByte(o, remote, stack, a, x)
  {
    hide Bounded, Stored, ByteAt, Got, StoreWrite;
    StoreReadFlat(o.parts, a / B, B - 1);
    StoreReadFlat(o.parts, a / B, a % B);
    assert a == a / B * B + a % B;
    var have := Got(o.parts, B, a / B * B);
    assert Overlay(stack(a / B), have) == have;
  }

  /**
   * Reading what was written, over whole runs: on any path, with or without a backend copy and from any earlier cache
   * contents, after any run of reads, writes and prefetches every read that reaches an address some write covered
   * shows the byte of the last such write there; and a read that starts in its block does reach it.
   */
  lemma ReadLastWrite(o: Object, remote: Option<File>, steps: seq<Step>, k: nat, a: nat,
                      stack: nat -> Block, off: nat, len: nat)
    requires Bounded(o.parts) && LastWrite(steps, k, a) && off <= a < off + len
    ensures var r := ReadRun(AfterRun(o, remote, steps), remote, stack, off, len);
            && (a < off + |r.out| ==> r.out[a - off] == Written(steps[k], a))
            && (off / B == a / B ==> a < off + |r.out|)
  {
    hide Bounded, Kept, ReadRun, AfterRun, BlockSeen;
    RunBounded(o, remote, steps);
    RunKeepsLastWrite(o, remote, steps, k, a);
    var o' := AfterRun(o, remote, steps);
    var x := Written(steps[k], a);
    KeptSeen(o', remote, stack, a, x);
    var r := ReadRun(o', remote, stack, off, len);
    ReadSources(o', remote, stack, off, len);
    ReadTiles(o', remote, stack, off, len);
    if a < off + |r.out| {
      assert SeenByte(o', remote, stack, off + (a - off), r.out[a - off]);
    } else if off / B == a / B {
      SameBlock(off, a, off + |r.out|);
    }
  }

  lemma SameBlock(lo: nat, hi: nat, x: nat)
    requires lo <= x <= hi && lo / B == hi / B
    ensures x / B == hi / B
  {
  }
}
