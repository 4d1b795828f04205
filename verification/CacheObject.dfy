/** Reading and writing one path of the cache, block by block, on values. */
module CacheObject {
  import opened Posix
  import opened Parts

  /** What the disk holds for one path: the part files of its hash and the plain mirror file. */
  datatype Object = Object(parts: Parts, mirror: Option<File>)

  /** A path that was never used. */
  const FRESH := Object(map[], None)

  function MirrorBytes(o: Object): File { if o.mirror.Some? then o.mirror.value else [] }

  // ---- CacheManager::read ----

  /** The bytes found for a block that is not cached: backend first, mirror next; `[]` stands for `got <= 0`. */
  function Fetch(o: Object, remote: Option<File>, boff: nat): File {
    var fromBackend := if remote.Some? then Pread(remote.value, B, boff) else [];
    if fromBackend != [] then fromBackend else Pread(MirrorBytes(o), B, boff)
  }

  /** The block buffer after its first bytes were overwritten. */
  function Overlay(block: Block, bytes: File): (r: Block)
    requires |bytes| <= B
  {
    bytes + block[|bytes|..]
  }

  /**
   * One iteration's block buffer. `stack(blk)` is what the uninitialised buffer held before; `None` means that
   * neither source delivered a byte.
   */
  function ReadBlock(o: Object, remote: Option<File>, stack: nat -> Block, blk: nat): Option<(Object, Block)> {
    var boff := blk * B;
    var have := Got(o.parts, B, boff);
    var block := Overlay(stack(blk), have);
    if |have| == B then Some((o, block))
    else
      var got := Fetch(o, remote, boff);
      if got == [] then None
      else Some((o.(parts := StoreWrite(o.parts, got, boff)), Overlay(block, got)))
  }

  /** The whole loop: bytes delivered, blocks completed, and whether all `len` bytes were reached. */
  datatype ReadResult = ReadResult(obj: Object, out: File, blocks: seq<nat>, complete: bool) {
    /** The value `CacheManager::read` returns. */
    function Rc(): int { if !complete && out == [] then -1 else |out| }
  }

  function Want(off: nat, len: nat): (w: nat)
    ensures len > 0 ==> 0 < w <= len && off % B + w <= B
  {
    Min(B - off % B, len)
  }

  /** A block step that does not finish the transfer stops at a block boundary. */
  lemma WantEnds(off: nat, len: nat)
    requires Want(off, len) < len
    ensures off + Want(off, len) == (off / B + 1) * B
  {
  }

  function ReadRun(o: Object, remote: Option<File>, stack: nat -> Block, off: nat, len: nat): ReadResult
    decreases len
  {
    if len == 0 then ReadResult(o, [], [], true)
    else
      var step := ReadBlock(o, remote, stack, off / B);
      if step.None? then ReadResult(o, [], [], false)
      else
        var w := Want(off, len);
        var rest := ReadRun(step.value.0, remote, stack, off + w, len - w);
        ReadResult(rest.obj, step.value.1[off % B..off % B + w] + rest.out, [off / B] + rest.blocks, rest.complete)
  }

  /** One call on a path. */
  datatype Op = Read(off: nat, len: nat) | Write(off: nat, data: File)

  // ---- The blocks of a read do not disturb each other ----

  /** The block buffer that a read of block `blk` copies from. */
  function BlockSeen(o: Object, remote: Option<File>, stack: nat -> Block, blk: nat): Option<Block> {
    var step := ReadBlock(o, remote, stack, blk);
    if step.None? then None else Some(step.value.1)
  }

  ghost predicate SeenByte(o: Object, remote: Option<File>, stack: nat -> Block, a: nat, x: byte) {
    BlockSeen(o, remote, stack, a / B).Some? && BlockSeen(o, remote, stack, a / B).value[a % B] == x
  }

  /** Storing a block leaves alone what a later block finds in the store. */
  lemma StoreBelow(ps: Parts, data: File, blk: nat, later: nat)
    requires 0 < |data| <= B && blk < later
    ensures Got(StoreWrite(ps, data, blk * B), B, later * B) == Got(ps, B, later * B)
  {
    BlockInOnePart(blk, B - 1);
    if blk * B / P == later * B / P {
      assert blk * B % P + B <= later * B % P;
    }
  }

  lemma SeenBelow(o: Object, remote: Option<File>, stack: nat -> Block, blk: nat, later: nat)
    requires blk < later && ReadBlock(o, remote, stack, blk).Some?
    ensures BlockSeen(ReadBlock(o, remote, stack, blk).value.0, remote, stack, later) == BlockSeen(o, remote, stack, later)
  {
    hide Got, StoreWrite;
    if !Cached(o.parts, blk * B) {
      StoreBelow(o.parts, Fetch(o, remote, blk * B), blk, later);
    }
  }

  /** One byte of a read whose first block was found and whose remaining bytes are `rest`. */
  lemma SourceAt(o: Object, remote: Option<File>, stack: nat -> Block, off: nat, len: nat, rest: File, i: nat)
    requires len > 0 && ReadBlock(o, remote, stack, off / B).Some? && i < Want(off, len) + |rest|
    requires rest != [] ==> Want(off, len) < len
    requires i >= Want(off, len) ==>
      SeenByte(ReadBlock(o, remote, stack, off / B).value.0, remote, stack, off + i, rest[i - Want(off, len)])
    ensures var block := ReadBlock(o, remote, stack, off / B).value.1;
            SeenByte(o, remote, stack, off + i, (block[off % B..off % B + Want(off, len)] + rest)[i])
  {
    hide ReadBlock;
    if i < Want(off, len) {
      assert (off + i) / B == off / B && (off + i) % B == off % B + i;
    } else {
      WantEnds(off, len);
      SeenBelow(o, remote, stack, off / B, (off + i) / B);
    }
  }

  ghost predicate Sourced(o: Object, remote: Option<File>, stack: nat -> Block, off: nat, r: ReadResult) {
    && (forall i :: 0 <= i < |r.out| ==> SeenByte(o, remote, stack, off + i, r.out[i]))
    && (!r.complete ==> BlockSeen(o, remote, stack, (off + |r.out|) / B).None?)
  }

  lemma SourcedStep(o: Object, remote: Option<File>, stack: nat -> Block, off: nat, len: nat, r: ReadResult, rest: ReadResult)
    requires len > 0 && ReadBlock(o, remote, stack, off / B).Some?
    requires rest.out != [] || !rest.complete ==> Want(off, len) < len
    requires Sourced(ReadBlock(o, remote, stack, off / B).value.0, remote, stack, off + Want(off, len), rest)
    requires r.out == ReadBlock(o, remote, stack, off / B).value.1[off % B..off % B + Want(off, len)] + rest.out
    requires r.complete == rest.complete
    ensures Sourced(o, remote, stack, off, r)
  {
    hide ReadBlock, SeenByte, Want, BlockSeen;
    var w := Want(off, len);
    var o' := ReadBlock(o, remote, stack, off / B).value.0;
    forall i | 0 <= i < |r.out| ensures SeenByte(o, remote, stack, off + i, r.out[i]) {
      if i >= w { assert SeenByte(o', remote, stack, off + w + (i - w), rest.out[i - w]); }
      SourceAt(o, remote, stack, off, len, rest.out, i);
    }
    if !rest.complete {
      WantEnds(off, len);
      SeenBelow(o, remote, stack, off / B, (off + w + |rest.out|) / B);
    }
  }

  /**
   * Every byte a read delivers is the one its block would show if it were read alone, and a read falls short only
   * where the next block would not be found.
   */
  lemma {:induction false} ReadSources(o: Object, remote: Option<File>, stack: nat -> Block, off: nat, len: nat)
    ensures Sourced(o, remote, stack, off, ReadRun(o, remote, stack, off, len))
    decreases len
  {
    hide ReadBlock, Want, Sourced;
    if len == 0 || ReadBlock(o, remote, stack, off / B).None? {
      SourcedNone(o, remote, stack, off, len);
    } else {
      var w := Want(off, len);
      var o' := ReadBlock(o, remote, stack, off / B).value.0;
      ReadSources(o', remote, stack, off + w, len - w);
      SourcedStep(o, remote, stack, off, len, ReadRun(o, remote, stack, off, len), ReadRun(o', remote, stack, off + w, len - w));
    }
  }

  lemma SourcedNone(o: Object, remote: Option<File>, stack: nat -> Block, off: nat, len: nat)
    requires len == 0 || ReadBlock(o, remote, stack, off / B).None?
    ensures Sourced(o, remote, stack, off, ReadRun(o, remote, stack, off, len))
  {
    hide ReadBlock;
  }

  // ---- CacheManager::write ----

  /** The block buffer that a write stores: what was there, zero-padded, with the chunk copied in. */
  function Merged(ps: Parts, off: nat, chunk: File): (block: Block)
    requires off % B + |chunk| <= B
    ensures forall i :: 0 <= i < B ==>
      block[i] == if off % B <= i < off % B + |chunk| then chunk[i - off % B]
                  else ByteOr0(Got(ps, B, off / B * B), i)
  {
    var have := Got(ps, B, off / B * B);
    var block := have + Zeros(B - |have|);
    block[..off % B] + chunk + block[off % B + |chunk|..]
  }

  function WriteBlock(o: Object, off: nat, chunk: File): Object
    requires off % B + |chunk| <= B
  {
    Object(StoreWrite(o.parts, Merged(o.parts, off, chunk), off / B * B), Some(Pwrite(MirrorBytes(o), chunk, off)))
  }

  function WriteRun(o: Object, off: nat, data: File): Object
    decreases |data|
  {
    if data == [] then o
    else
      var w := Want(off, |data|);
      WriteRun(WriteBlock(o, off, data[..w]), off + w, data[w..])
  }

  // ---- The write frame theorem ----

  /** The length part `p` has after blocks up to address `end` were written, starting at `off`. */
  function PartLengthAfter(ps: Parts, p: nat, off: nat, end: nat): nat {
    if off < end && off / P <= p <= (end - 1) / P
    then Max(|Part(ps, p)|, Min(RoundUp(end) - p * P, P))
    else |Part(ps, p)|
  }

  /** Byte `a` after `data` was written at `off`: the new byte, the old one, or zero where the file only grew. */
  ghost predicate WrittenAt(ps: Parts, ps': Parts, off: nat, data: File, a: nat) {
    && (off <= a < off + |data| ==> Stored(ps', a) && ByteAt(ps', a) == data[a - off])
    && (Stored(ps, a) && !(off <= a < off + |data|) ==> Stored(ps', a) && ByteAt(ps', a) == ByteAt(ps, a))
    && (Stored(ps', a) && !Stored(ps, a) && !(off <= a < off + |data|) ==> ByteAt(ps', a) == 0)
  }

  ghost predicate LengthAfter(ps: Parts, ps': Parts, p: nat, off: nat, len: nat) {
    |Part(ps', p)| == PartLengthAfter(ps, p, off, off + len)
  }

  lemma WriteBlockAt(o: Object, off: nat, chunk: File, a: nat)
    requires Bounded(o.parts) && chunk != [] && off % B + |chunk| <= B
    ensures Bounded(WriteBlock(o, off, chunk).parts)
    ensures WrittenAt(o.parts, WriteBlock(o, off, chunk).parts, off, chunk, a)
  {
    hide WrittenAt, Bounded, StoreWrite, Merged, Got, ByteOr0;
    assert off / B * B + off % B == off;
    MergedStoredAt(o.parts, off / B, off % B, chunk, Merged(o.parts, off, chunk), a);
  }

  lemma MergedStoredAt(ps: Parts, blk: nat, i: nat, chunk: File, block: Block, a: nat)
    requires Bounded(ps) && chunk != [] && i + |chunk| <= B
    requires forall k :: 0 <= k < B ==>
      block[k] == if i <= k < i + |chunk| then chunk[k - i] else ByteOr0(Got(ps, B, blk * B), k)
    ensures Bounded(StoreWrite(ps, block, blk * B))
    ensures WrittenAt(ps, StoreWrite(ps, block, blk * B), blk * B + i, chunk, a)
  {
    hide StoreWrite, Got, Stored, ByteAt, Bounded;
    StoreWriteFlat(ps, block, blk, a);
    if blk * B <= a < blk * B + B {
      StoreReadFlat(ps, blk, a - blk * B);
    }
  }

  lemma WriteBlockLength(o: Object, off: nat, chunk: File, p: nat)
    requires Bounded(o.parts) && chunk != [] && off % B + |chunk| <= B
    ensures LengthAfter(o.parts, WriteBlock(o, off, chunk).parts, p, off, |chunk|)
  {
    hide Merged, StoreWrite, Part, PartLengthAfter, Bounded;
    StoreLength(o.parts, Merged(o.parts, off, chunk), off / B, p);
    OneBlockLength(o.parts, off, |chunk|, p);
  }

  lemma StoreLength(ps: Parts, block: Block, blk: nat, p: nat)
    ensures |Part(StoreWrite(ps, block, blk * B), p)| ==
            if p == blk * B / P then Max(|Part(ps, p)|, blk * B % P + B) else |Part(ps, p)|
  {
  }

  lemma OneBlockLength(ps: Parts, off: nat, len: nat, p: nat)
    requires len > 0 && off % B + len <= B
    ensures PartLengthAfter(ps, p, off, off + len) ==
            if p == off / B * B / P then Max(|Part(ps, p)|, off / B * B % P + B) else |Part(ps, p)|
  {
    hide Part;
    var blk := off / B;
    assert off == blk * B + off % B;
    BlockInOnePart(blk, off % B);
    BlockInOnePart(blk, off % B + len - 1);
    assert RoundUp(off + len) == blk * B + B;
  }

  lemma WrittenNothing(ps: Parts, off: nat, a: nat)
    ensures WrittenAt(ps, ps, off, [], a)
  {
  }

  lemma WrittenCompose(ps: Parts, ps1: Parts, ps2: Parts, off: nat, data: File, w: nat, a: nat)
    requires w <= |data|
    requires WrittenAt(ps, ps1, off, data[..w], a) && WrittenAt(ps1, ps2, off + w, data[w..], a)
    ensures WrittenAt(ps, ps2, off, data, a)
  {
  }

  lemma LengthEmpty(ps: Parts, p: nat, off: nat)
    ensures LengthAfter(ps, ps, p, off, 0)
  {
  }

  lemma LengthCompose(ps: Parts, ps1: Parts, ps2: Parts, p: nat, off: nat, len: nat, w: nat)
    requires w == Want(off, len) < len
    requires LengthAfter(ps, ps1, p, off, w) && LengthAfter(ps1, ps2, p, off + w, len - w)
    ensures LengthAfter(ps, ps2, p, off, len)
  {
    hide Want, Part, RoundUp, PartLengthAfter;
    WantEnds(off, len);
    SplitLength(ps, ps1, p, off, off / B + 1, off + len);
  }

  /** Growing a part up to a block boundary first, and up to the end afterwards, is growing it up to the end. */
  lemma SplitLength(ps: Parts, ps1: Parts, p: nat, off: nat, blk: nat, end: nat)
    requires off < blk * B < end && |Part(ps1, p)| == PartLengthAfter(ps, p, off, blk * B)
    ensures PartLengthAfter(ps1, p, blk * B, end) == PartLengthAfter(ps, p, off, end)
  {
    hide Part, RoundUp, PartLengthAfter;
    BoundaryRoundsToItself(blk, end);
    LengthByOverlap(ps, p, off, blk * B);
    LengthByOverlap(ps1, p, blk * B, end);
    LengthByOverlap(ps, p, off, end);
  }

  lemma BoundaryRoundsToItself(blk: nat, end: nat)
    requires blk * B < end
    ensures RoundUp(blk * B) == blk * B && RoundUp(end) >= end
  {
  }

  /** The parts whose length is affected are those that the range overlaps. */
  lemma LengthByOverlap(ps: Parts, p: nat, off: nat, end: nat)
    requires off < end
    ensures PartLengthAfter(ps, p, off, end) ==
            if off < p * P + P && p * P < end then Max(|Part(ps, p)|, Min(RoundUp(end) - p * P, P)) else |Part(ps, p)|
  {
    hide Part, RoundUp;
    assert off / P <= p <==> off < p * P + P;
    assert p <= (end - 1) / P <==> p * P < end;
  }

  /**
   * After a write the object holds `data` on its range, every other stored byte is as before, and all other bytes
   * up to the new part lengths are zero.
   */
  lemma {:induction false} WriteFrame(o: Object, off: nat, data: File, a: nat)
    requires Bounded(o.parts)
    ensures Bounded(WriteRun(o, off, data).parts)
    ensures WrittenAt(o.parts, WriteRun(o, off, data).parts, off, data, a)
    decreases |data|
  {
    hide WrittenAt, WriteBlock, Want, Bounded;
    if data == [] {
      WrittenNothing(o.parts, off, a);
    } else {
      var w := Want(off, |data|);
      var o1 := WriteBlock(o, off, data[..w]);
      var o2 := WriteRun(o1, off + w, data[w..]);
      assert WriteRun(o, off, data) == o2;
      WriteBlockAt(o, off, data[..w], a);
      WriteFrame(o1, off + w, data[w..], a);
      WrittenCompose(o.parts, o1.parts, o2.parts, off, data, w, a);
    }
  }

  /** Each touched part ends at the later of its old end and the end of its last touched block. */
  lemma {:induction false} WriteLength(o: Object, off: nat, data: File, p: nat)
    requires Bounded(o.parts)
    ensures LengthAfter(o.parts, WriteRun(o, off, data).parts, p, off, |data|)
    decreases |data|
  {
    hide LengthAfter, WrittenAt, WriteBlock, Want, Bounded;
    if data == [] {
      LengthEmpty(o.parts, p, off);
    } else {
      var w := Want(off, |data|);
      var o1 := WriteBlock(o, off, data[..w]);
      var o2 := WriteRun(o1, off + w, data[w..]);
      assert WriteRun(o, off, data) == o2;
      WriteBlockAt(o, off, data[..w], off);
      WriteBlockLength(o, off, data[..w], p);
      if w < |data| {
        WriteLength(o1, off + w, data[w..], p);
        LengthCompose(o.parts, o1.parts, o2.parts, p, off, |data|, w);
      } else {
        assert data[w..] == [] && data[..w] == data;
      }
    }
  }
}
