/** One cached object: sparse part files of at most 2 GiB, addressed in 64 KiB blocks. */
module Parts {
  import opened Posix

  const B: nat := 65536            // kBlockSize
  const P: nat := 2147483648       // kMaxPartSize

  type Parts = map<nat, File>
  type Block = b: File | |b| == B ghost witness Zeros(B)

  function Part(ps: Parts, p: nat): File { if p in ps then ps[p] else [] }

  /** `BlockStore::read`: `None` when the part file cannot be opened. */
  function StoreRead(ps: Parts, len: nat, off: nat): Option<File> {
    if off / P in ps then Some(Pread(ps[off / P], len, off % P)) else None
  }

  /** `BlockStore::write`: the part file is created on demand. */
  function StoreWrite(ps: Parts, data: File, off: nat): Parts {
    ps[off / P := Pwrite(Part(ps, off / P), data, off % P)]
  }

  /** The bytes a store read delivers, none when the part is missing. */
  function Got(ps: Parts, len: nat, off: nat): File {
    Pread(Part(ps, off / P), len, off % P)
  }

  predicate Cached(ps: Parts, off: nat) { |Got(ps, B, off)| == B }

  // ---- The flat address space that the part files implement ----

  predicate Stored(ps: Parts, a: nat) { a % P < |Part(ps, a / P)| }

  function ByteAt(ps: Parts, a: nat): byte
    requires Stored(ps, a)
  {
    Part(ps, a / P)[a % P]
  }

  /** No part file is longer than its share of the address space. */
  ghost predicate Bounded(ps: Parts) { forall p :: p in ps ==> |ps[p]| <= P }

  function RoundUp(n: nat): (r: nat)
    ensures r % B == 0 && n <= r < n + B
  {
    (n + B - 1) / B * B
  }

  lemma DivMod(a: nat, p: nat, r: nat)
    requires a == p * P + r && r < P
    ensures a / P == p && a % P == r
  {
  }

  /** Since B divides P, every byte of a block lies in the part of its first byte. */
  lemma BlockInOnePart(blk: nat, i: nat)
    requires i < B
    ensures (blk * B + i) / P == blk * B / P && (blk * B + i) % P == blk * B % P + i
    ensures blk * B % P + B <= P
  {
    var p, r := blk / (P / B), blk % (P / B);
    DivMod(blk * B, p, r * B);
    DivMod(blk * B + i, p, r * B + i);
  }

  /** A write of at most one block at a block boundary, seen on the flat address space. */
  lemma StoreWriteFlat(ps: Parts, data: File, blk: nat, a: nat)
    requires Bounded(ps) && 0 < |data| <= B
    ensures Bounded(StoreWrite(ps, data, blk * B))
    ensures Stored(StoreWrite(ps, data, blk * B), a) <==> Stored(ps, a) || blk * B / P * P <= a < blk * B + |data|
    ensures blk * B <= a < blk * B + |data| ==> ByteAt(StoreWrite(ps, data, blk * B), a) == data[a - blk * B]
    ensures Stored(ps, a) && !(blk * B <= a < blk * B + |data|) ==>
      ByteAt(StoreWrite(ps, data, blk * B), a) == ByteAt(ps, a)
    ensures !Stored(ps, a) && blk * B / P * P <= a < blk * B ==> ByteAt(StoreWrite(ps, data, blk * B), a) == 0
  {
    BlockInOnePart(blk, |data| - 1);
    if blk * B / P * P <= a < blk * B + |data| {
      DivMod(a, blk * B / P, a - blk * B / P * P);
    }
  }

  /** A block read, seen on the flat address space: it is cut at the first byte that is not stored. */
  lemma StoreReadFlat(ps: Parts, blk: nat, i: nat)
    requires Bounded(ps) && i < B
    ensures i < |Got(ps, B, blk * B)| <==> Stored(ps, blk * B + i)
    ensures Stored(ps, blk * B + i) ==> Got(ps, B, blk * B)[i] == ByteAt(ps, blk * B + i)
    ensures Cached(ps, blk * B) <==> Stored(ps, blk * B + B - 1)
    ensures StoreRead(ps, B, blk * B) == if blk * B / P in ps then Some(Got(ps, B, blk * B)) else None
  {
    BlockInOnePart(blk, i);
    BlockInOnePart(blk, B - 1);
  }
}
