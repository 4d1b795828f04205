/**
 * A path with no backend copy: the part files and the mirror together implement one flat, zero-filled file, over
 * every run of reads and writes.
 */
module LocalRefinement {
  import opened Posix
  import opened Parts
  import opened CacheObject

  /** Byte `a` of the part files against the flat file: stored bytes agree with it, and a missing byte is zero in it. */
  ghost predicate AgreesAt(ps: Parts, flat: File, a: nat) {
    && (Stored(ps, a) ==> a < RoundUp(|flat|) && ByteAt(ps, a) == ByteOr0(flat, a))
    && (!Stored(ps, a) ==> ByteOr0(flat, a) == 0)
  }

  ghost predicate Agrees(o: Object, flat: File) {
    && Bounded(o.parts)
    && MirrorBytes(o) == flat
    && (forall a: nat :: AgreesAt(o.parts, flat, a))
    && (flat != [] ==> Stored(o.parts, RoundUp(|flat|) - 1))
  }

  // ---- Writes ----

  lemma PwriteTwice(f: File, data: File, off: nat, w: nat)
    requires w <= |data|
    ensures Pwrite(Pwrite(f, data[..w], off), data[w..], off + w) == Pwrite(f, data, off)
  {
  }

  lemma {:induction false} WriteMirror(o: Object, off: nat, data: File)
    ensures MirrorBytes(WriteRun(o, off, data)) == Pwrite(MirrorBytes(o), data, off)
    decreases |data|
  {
    hide Pwrite, Merged, StoreWrite, Want;
    if data != [] {
      var w := Want(off, |data|);
      WriteMirror(WriteBlock(o, off, data[..w]), off + w, data[w..]);
      PwriteTwice(MirrorBytes(o), data, off, w);
    }
  }

  lemma WriteBytesAgree(ps: Parts, ps': Parts, flat: File, off: nat, data: File, a: nat)
    requires data != [] && AgreesAt(ps, flat, a) && WrittenAt(ps, ps', off, data, a)
    ensures Stored(ps', a) ==> ByteAt(ps', a) == ByteOr0(Pwrite(flat, data, off), a)
    ensures !Stored(ps', a) ==> ByteOr0(Pwrite(flat, data, off), a) == 0
  {
    hide Stored, ByteAt, RoundUp;
  }

  lemma WriteBound(ps: Parts, ps': Parts, flat: File, off: nat, data: File, a: nat)
    requires data != [] && AgreesAt(ps, flat, a)
    requires LengthAfter(ps, ps', a / P, off, |data|) && Stored(ps', a)
    ensures a < RoundUp(|Pwrite(flat, data, off)|)
  {
    hide ByteAt, ByteOr0;
    RoundUpMonotone(|flat|, |Pwrite(flat, data, off)|);
    RoundUpMonotone(off + |data|, |Pwrite(flat, data, off)|);
  }

  lemma RoundUpMonotone(m: nat, n: nat)
    requires m <= n
    ensures RoundUp(m) <= RoundUp(n)
  {
  }

  lemma WriteAgreesAt(ps: Parts, ps': Parts, flat: File, off: nat, data: File, a: nat)
    requires data != [] && AgreesAt(ps, flat, a) && WrittenAt(ps, ps', off, data, a)
    requires LengthAfter(ps, ps', a / P, off, |data|)
    ensures AgreesAt(ps', Pwrite(flat, data, off), a)
  {
    hide Stored, RoundUp, ByteAt, WrittenAt, LengthAfter, ByteOr0;
    WriteBytesAgree(ps, ps', flat, off, data, a);
    if Stored(ps', a) {
      WriteBound(ps, ps', flat, off, data, a);
    }
  }

  lemma WriteStoresLastBlock(ps: Parts, ps': Parts, flat: File, off: nat, data: File)
    requires data != [] && Bounded(ps) && (flat != [] ==> Stored(ps, RoundUp(|flat|) - 1))
    requires forall a: nat :: WrittenAt(ps, ps', off, data, a)
    requires forall p: nat :: LengthAfter(ps, ps', p, off, |data|)
    ensures Stored(ps', RoundUp(|Pwrite(flat, data, off)|) - 1)
  {
    hide ByteAt, Bounded, WrittenAt, LengthAfter, Stored;
    var end := off + |data|;
    if end <= |flat| {
      assert |Pwrite(flat, data, off)| == |flat|;
      assert WrittenAt(ps, ps', off, data, RoundUp(|flat|) - 1);
      WrittenStays(ps, ps', off, data, RoundUp(|flat|) - 1);
    } else {
      assert |Pwrite(flat, data, off)| == end;
      assert LengthAfter(ps, ps', (end - 1) / P, off, |data|);
      LastBlockStored(ps, ps', off, data);
    }
  }

  lemma WrittenStays(ps: Parts, ps': Parts, off: nat, data: File, a: nat)
    requires WrittenAt(ps, ps', off, data, a) && Stored(ps, a)
    ensures Stored(ps', a)
  {
    hide Stored;
  }

  lemma LastBlockStored(ps: Parts, ps': Parts, off: nat, data: File)
    requires data != [] && LengthAfter(ps, ps', (off + |data| - 1) / P, off, |data|)
    ensures Stored(ps', RoundUp(off + |data|) - 1)
  {
    var end := off + |data|;
    var blk := (end - 1) / B;
    BlockInOnePart(blk, (end - 1) % B);
    BlockInOnePart(blk, B - 1);
    assert end - 1 == blk * B + (end - 1) % B;
    assert RoundUp(end) == blk * B + B;
  }

  lemma WriteAgrees(o: Object, flat: File, off: nat, data: File)
    requires Agrees(o, flat)
    ensures Agrees(WriteRun(o, off, data), Pwrite(flat, data, off))
  {
    hide AgreesAt, WrittenAt, LengthAfter, Bounded, Part, Stored;
    if data == [] { return; }
    var o' := WriteRun(o, off, data);
    WriteMirror(o, off, data);
    forall p: nat ensures LengthAfter(o.parts, o'.parts, p, off, |data|) {
      WriteLength(o, off, data, p);
    }
    forall a: nat ensures WrittenAt(o.parts, o'.parts, off, data, a) {
      WriteFrame(o, off, data, a);
    }
    WriteFrame(o, off, data, 0);
    forall a: nat ensures AgreesAt(o'.parts, Pwrite(flat, data, off), a) {
      WriteAgreesAt(o.parts, o'.parts, flat, off, data, a);
    }
    WriteStoresLastBlock(o.parts, o'.parts, flat, off, data);
  }

  // ---- Reads ----

  /** The flat file padded with zeros to its last block: what a reader of the cache can see of it. */
  function Padded(flat: File): File { flat + Zeros(RoundUp(|flat|) - |flat|) }

  function FlatRead(flat: File, off: nat, len: nat): File { Pread(Padded(flat), len, off) }

  /** The contents of one block of the padded file. */
  ghost predicate BlockOf(flat: File, blk: nat, block: File) {
    |block| == B && forall i :: 0 <= i < B ==> block[i] == ByteOr0(flat, blk * B + i)
  }

  lemma CachedBlock(o: Object, flat: File, blk: nat)
    requires Agrees(o, flat) && Cached(o.parts, blk * B)
    ensures blk * B < RoundUp(|flat|) && BlockOf(flat, blk, Got(o.parts, B, blk * B))
  {
    hide Agrees, AgreesAt, Bounded, Stored;
    var have := Got(o.parts, B, blk * B);
    forall i: nat | i < B ensures blk * B + i < RoundUp(|flat|) && have[i] == ByteOr0(flat, blk * B + i) {
      CachedByte(o, flat, blk, i);
    }
    CachedByte(o, flat, blk, 0);
  }

  lemma CachedByte(o: Object, flat: File, blk: nat, i: nat)
    requires Agrees(o, flat) && Cached(o.parts, blk * B) && i < B
    ensures blk * B + i < RoundUp(|flat|) && Got(o.parts, B, blk * B)[i] == ByteOr0(flat, blk * B + i)
  {
    StoreReadFlat(o.parts, blk, i);
    assert AgreesAt(o.parts, flat, blk * B + i);
  }

  /** A block that is not cached is either past the end or strictly in front of the last block, hence whole in the mirror. */
  lemma MissingBlock(o: Object, flat: File, blk: nat)
    requires Agrees(o, flat) && !Cached(o.parts, blk * B)
    ensures |Pread(flat, B, blk * B)| == if blk * B < RoundUp(|flat|) then B else 0
  {
    hide AgreesAt, Stored;
    StoreReadFlat(o.parts, blk, B - 1);
    var k := (|flat| + B - 1) / B;
    assert RoundUp(|flat|) == k * B;
    assert blk * B < k * B ==> blk < k - 1 by { assert blk * B + B - 1 != k * B - 1 || blk >= k; }
  }

  lemma FillBlock(o: Object, flat: File, blk: nat)
    requires Agrees(o, flat) && |Pread(flat, B, blk * B)| == B
    ensures Agrees(o.(parts := StoreWrite(o.parts, Pread(flat, B, blk * B), blk * B)), flat)
    ensures BlockOf(flat, blk, Pread(flat, B, blk * B))
  {
    var ps, got := o.parts, Pread(flat, B, blk * B);
    var ps' := StoreWrite(ps, got, blk * B);
    forall a: nat ensures Bounded(ps') && AgreesAt(ps', flat, a) {
      FillByte(ps, flat, blk, a);
    }
    StoreWriteFlat(ps, got, blk, RoundUp(|flat|) - 1);
  }

  lemma FillByte(ps: Parts, flat: File, blk: nat, a: nat)
    requires Bounded(ps) && AgreesAt(ps, flat, a) && |Pread(flat, B, blk * B)| == B
    ensures Bounded(StoreWrite(ps, Pread(flat, B, blk * B), blk * B))
    ensures AgreesAt(StoreWrite(ps, Pread(flat, B, blk * B), blk * B), flat, a)
  {
    StoreWriteFlat(ps, Pread(flat, B, blk * B), blk, a);
  }

  /** A block in front of the end is found, whole; the end of the file is noticed exactly at the block boundary. */
  lemma ReadBlockLocal(o: Object, flat: File, stack: nat -> Block, blk: nat)
    requires Agrees(o, flat)
    ensures ReadBlock(o, None, stack, blk).Some? <==> blk * B < RoundUp(|flat|)
    ensures ReadBlock(o, None, stack, blk).Some? ==>
      var (o', block) := ReadBlock(o, None, stack, blk).value;
      Agrees(o', flat) && BlockOf(flat, blk, block)
  {
    hide AgreesAt, Bounded, Stored, Part, BlockOf, RoundUp;
    if Cached(o.parts, blk * B) {
      CachedBlock(o, flat, blk);
      assert Overlay(stack(blk), Got(o.parts, B, blk * B)) == Got(o.parts, B, blk * B);
    } else {
      MissingBlock(o, flat, blk);
      var got := Pread(flat, B, blk * B);
      assert Fetch(o, None, blk * B) == got;
      if |got| == B {
        FillBlock(o, flat, blk);
        assert Overlay(Overlay(stack(blk), Got(o.parts, B, blk * B)), got) == got;
      }
    }
  }

  lemma PaddedSlice(flat: File, off: nat, len: nat, w: nat, block: File)
    requires BlockOf(flat, off / B, block) && off % B + w <= B && off / B * B < RoundUp(|flat|) && w <= len
    ensures off + w <= RoundUp(|flat|)
    ensures block[off % B..off % B + w] + FlatRead(flat, off + w, len - w) == FlatRead(flat, off, len)
  {
    hide RoundUp;
    assert off / B * B + off % B == off;
    assert block[off % B..off % B + w] == Padded(flat)[off..off + w];
  }

  lemma PastEnd(flat: File, off: nat, len: nat)
    requires off / B * B >= RoundUp(|flat|)
    ensures FlatRead(flat, off, len) == [] && off >= RoundUp(|flat|)
  {
  }

  /** A read delivers the padded file's bytes, as many as are wanted and there. */
  lemma {:induction false} ReadLocal(o: Object, flat: File, stack: nat -> Block, off: nat, len: nat)
    requires Agrees(o, flat)
    ensures var r := ReadRun(o, None, stack, off, len);
            && Agrees(r.obj, flat)
            && r.out == FlatRead(flat, off, len)
            && (r.complete <==> len == 0 || off + len <= RoundUp(|flat|))
    decreases len
  {
    hide Agrees, ReadBlock, BlockOf, RoundUp, Padded, Pread;
    if len > 0 {
      ReadBlockLocal(o, flat, stack, off / B);
      var step := ReadBlock(o, None, stack, off / B);
      if step.Some? {
        var w := Want(off, len);
        PaddedSlice(flat, off, len, w, step.value.1);
        ReadLocal(step.value.0, flat, stack, off + w, len - w);
      } else {
        PastEnd(flat, off, len);
      }
    }
  }

  // ---- Runs ----

  /** What a caller sees of one call: the return value and, for a read, the bytes. */
  datatype Outcome = Outcome(rc: int, bytes: File)

  function Apply(o: Object, stack: nat -> Block, op: Op): (Object, Outcome) {
    match op
    case Read(off, len) =>
      var r := ReadRun(o, None, stack, off, len);
      (r.obj, Outcome(r.Rc(), r.out))
    case Write(off, data) => (WriteRun(o, off, data), Outcome(|data|, []))
  }

  /** `stacks(k)` is the block buffer's earlier contents during the call that has `k` calls left. */
  function Run(o: Object, stacks: nat -> nat -> Block, ops: seq<Op>): (Object, seq<Outcome>)
    decreases |ops|
  {
    if ops == [] then (o, [])
    else
      var (o1, x) := Apply(o, stacks(|ops|), ops[0]);
      var (o2, xs) := Run(o1, stacks, ops[1..]);
      (o2, [x] + xs)
  }

  /** The simple form: one zero-filled file, read up to the end of its last block. */
  function FlatApply(flat: File, op: Op): (File, Outcome) {
    match op
    case Read(off, len) =>
      var out := FlatRead(flat, off, len);
      (flat, Outcome(if len > 0 && off >= RoundUp(|flat|) then -1 else |out|, out))
    case Write(off, data) => (Pwrite(flat, data, off), Outcome(|data|, []))
  }

  function FlatRun(flat: File, ops: seq<Op>): (File, seq<Outcome>)
    decreases |ops|
  {
    if ops == [] then (flat, [])
    else
      var (f1, x) := FlatApply(flat, ops[0]);
      var (f2, xs) := FlatRun(f1, ops[1..]);
      (f2, [x] + xs)
  }

  lemma ApplyRefines(o: Object, flat: File, stack: nat -> Block, op: Op)
    requires Agrees(o, flat)
    ensures Apply(o, stack, op).1 == FlatApply(flat, op).1
    ensures Agrees(Apply(o, stack, op).0, FlatApply(flat, op).0)
  {
    hide Agrees, ReadRun, WriteRun, RoundUp;
    match op
    case Read(off, len) => ReadLocal(o, flat, stack, off, len);
    case Write(off, data) => WriteAgrees(o, flat, off, data);
  }

  lemma {:induction false} RunRefines(o: Object, flat: File, stacks: nat -> nat -> Block, ops: seq<Op>)
    requires Agrees(o, flat)
    ensures Run(o, stacks, ops).1 == FlatRun(flat, ops).1
    ensures Agrees(Run(o, stacks, ops).0, FlatRun(flat, ops).0)
    decreases |ops|
  {
    hide Agrees, Apply, FlatApply;
    if ops != [] {
      ApplyRefines(o, flat, stacks(|ops|), ops[0]);
      RunRefines(Apply(o, stacks(|ops|), ops[0]).0, FlatApply(flat, ops[0]).0, stacks, ops[1..]);
    }
  }

  /**
   * Every run of reads and writes on a fresh path with no backend copy returns exactly what one flat file returns,
   * and leaves parts and mirror in agreement with it, whatever the block buffer held before.
   */
  lemma LocalRefinement(stacks: nat -> nat -> Block, ops: seq<Op>)
    ensures Run(FRESH, stacks, ops).1 == FlatRun([], ops).1
    ensures Agrees(Run(FRESH, stacks, ops).0, FlatRun([], ops).0)
  {
    assert Agrees(FRESH, []);
    RunRefines(FRESH, [], stacks, ops);
  }
}
