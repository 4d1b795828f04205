/** Reading a path that has a backend copy `F`: when the part files stay faithful to it, and when they do not. */
module ReadThrough {
  import opened Posix
  import opened Parts
  import opened CacheObject
  import opened Sequential

  ghost predicate FaithfulAt(ps: Parts, F: File, a: nat) {
    Stored(ps, a) ==> a < |F| && ByteAt(ps, a) == F[a]
  }

  /** Every stored byte is the backend's byte. */
  ghost predicate Faithful(ps: Parts, F: File) { Bounded(ps) && forall a: nat :: FaithfulAt(ps, F, a) }

  /** Block `blk` is past the end of the file, or it starts at or below the cached prefix of its part. */
  ghost predicate Reach(ps: Parts, F: File, blk: nat) {
    blk * B >= |F| || blk * B % P <= |Part(ps, blk * B / P)|
  }

  /** No part got shorter. */
  ghost predicate Grown(ps: Parts, ps': Parts) { forall p: nat :: |Part(ps, p)| <= |Part(ps', p)| }

  lemma ReachGrown(ps: Parts, ps': Parts, F: File, blk: nat)
    requires Reach(ps, F, blk) && Grown(ps, ps')
    ensures Reach(ps', F, blk)
  {
    assert |Part(ps, blk * B / P)| <= |Part(ps', blk * B / P)|;
  }

  /** The bytes in front of block `blk`, in its part, that are not stored: the zero-filled hole a write there leaves. */
  ghost predicate InGap(ps: Parts, blk: nat, a: nat) { blk * B / P * P <= a < blk * B && !Stored(ps, a) }

  ghost predicate HarmlessAt(ps: Parts, F: File, blk: nat, a: nat) { InGap(ps, blk, a) ==> ByteOr0(F, a) == 0 }

  lemma ReachMeansNoGap(ps: Parts, F: File, blk: nat, a: nat)
    requires Reach(ps, F, blk) && blk * B < |F|
    ensures !InGap(ps, blk, a)
  {
    if blk * B / P * P <= a < blk * B {
      DivMod(a, blk * B / P, a - blk * B / P * P);
    }
  }

  lemma StoreFaithfulAt(ps: Parts, F: File, blk: nat, a: nat)
    requires Bounded(ps) && FaithfulAt(ps, F, a) && blk * B < |F|
    ensures var ps' := StoreWrite(ps, Pread(F, B, blk * B), blk * B);
            Bounded(ps') && (FaithfulAt(ps', F, a) <==> HarmlessAt(ps, F, blk, a))
  {
    StoreWriteFlat(ps, Pread(F, B, blk * B), blk, a);
  }

  /**
   * Exactly when storing a fetched block is harmless: every byte of the hole it leaves in front of itself would
   * have been zero in the backend file anyway.
   */
  lemma StoreFaithfulIff(ps: Parts, F: File, blk: nat)
    requires Faithful(ps, F) && blk * B < |F|
    ensures Faithful(StoreWrite(ps, Pread(F, B, blk * B), blk * B), F) <==>
            forall a: nat :: HarmlessAt(ps, F, blk, a)
  {
    hide FaithfulAt, HarmlessAt, Bounded;
    var ps' := StoreWrite(ps, Pread(F, B, blk * B), blk * B);
    forall a: nat ensures Bounded(ps') && (FaithfulAt(ps', F, a) <==> HarmlessAt(ps, F, blk, a)) {
      StoreFaithfulAt(ps, F, blk, a);
    }
    assert Bounded(ps') by { StoreFaithfulAt(ps, F, blk, 0); }
  }

  lemma StoreGrows(ps: Parts, data: File, off: nat)
    ensures Grown(ps, StoreWrite(ps, data, off))
  {
  }

  /** Storing a reachable block keeps the parts faithful, and the next block becomes reachable. */
  lemma StoreReachable(ps: Parts, F: File, blk: nat)
    requires Faithful(ps, F) && Reach(ps, F, blk) && blk * B < |F|
    ensures var ps' := StoreWrite(ps, Pread(F, B, blk * B), blk * B);
            Faithful(ps', F) && Grown(ps, ps') && Reach(ps', F, blk + 1)
  {
    hide Faithful, InGap;
    var got := Pread(F, B, blk * B);
    forall a: nat ensures HarmlessAt(ps, F, blk, a) {
      ReachMeansNoGap(ps, F, blk, a);
    }
    StoreFaithfulIff(ps, F, blk);
    StoreGrows(ps, got, blk * B);
    ReachNext(StoreWrite(ps, got, blk * B), F, blk);
  }

  /** The block after one that is cached as far as the file goes is reachable. */
  lemma ReachNext(ps: Parts, F: File, blk: nat)
    requires |Part(ps, blk * B / P)| >= blk * B % P + Min(B, |F| - blk * B)
    ensures Reach(ps, F, blk + 1)
  {
    BlockInOnePart(blk, B - 1);
    if blk * B % P + B < P {
      DivMod((blk + 1) * B, blk * B / P, blk * B % P + B);
    } else {
      DivMod((blk + 1) * B, blk * B / P + 1, 0);
    }
  }

  /** A cached block holds the backend's bytes. */
  lemma CachedFaithful(ps: Parts, F: File, blk: nat)
    requires Faithful(ps, F) && Cached(ps, blk * B)
    ensures blk * B + B <= |F| && Got(ps, B, blk * B) == F[blk * B..blk * B + B] && Reach(ps, F, blk + 1)
  {
    var have := Got(ps, B, blk * B);
    forall i: nat | i < B ensures blk * B + i < |F| && have[i] == F[blk * B + i] {
      StoreReadFlat(ps, blk, i);
      assert FaithfulAt(ps, F, blk * B + i);
    }
    StoreReadFlat(ps, blk, B - 1);
    assert FaithfulAt(ps, F, blk * B + B - 1);
    ReachNext(ps, F, blk);
  }

  /** The block buffer agrees with the file wherever the file has bytes. */
  ghost predicate BlockFrom(F: File, blk: nat, block: File) {
    |block| == B && forall i :: 0 <= i < B && blk * B + i < |F| ==> block[i] == F[blk * B + i]
  }

  // ---- One read, from any cache contents ----

  /** Nothing is stored past the end of the backend file. */
  ghost predicate Within(ps: Parts, F: File) { Bounded(ps) && forall a: nat :: Stored(ps, a) ==> a < |F| }

  /** The mirror file does not reach past the last block of the backend file. */
  ghost predicate MirrorWithin(o: Object, F: File) { |MirrorBytes(o)| <= RoundUp(|F|) }

  /** The byte a read shows at address `a`: the stored one when its block counts as cached, else the backend's. */
  function Shown(ps: Parts, F: File, a: nat): byte
    requires a < |F|
  {
    if Cached(ps, a / B * B) then Got(ps, B, a / B * B)[a % B] else F[a]
  }

  lemma BlockThrough(o: Object, F: File, stack: nat -> Block, blk: nat)
    requires Within(o.parts, F) && MirrorWithin(o, F)
    ensures BlockSeen(o, Some(F), stack, blk).Some? <==> blk * B < |F|
    ensures Cached(o.parts, blk * B) ==> BlockSeen(o, Some(F), stack, blk) == Some(Got(o.parts, B, blk * B))
    ensures !Cached(o.parts, blk * B) && blk * B < |F| ==> BlockFrom(F, blk, BlockSeen(o, Some(F), stack, blk).value)
  {
    hide RoundUp, StoreWrite, Got, Stored;
    if Cached(o.parts, blk * B) {
      StoreReadFlat(o.parts, blk, B - 1);
      assert blk * B + B - 1 < |F|;
      var have := Got(o.parts, B, blk * B);
      assert Overlay(stack(blk), have) == have;
    } else if blk * B < |F| {
      assert Fetch(o, Some(F), blk * B) == Pread(F, B, blk * B);
    } else {
      BlockPastEnd(|F|, blk);
    }
  }

  lemma BlockPastEnd(n: nat, blk: nat)
    requires blk * B >= n
    ensures blk * B >= RoundUp(n)
  {
  }

  lemma ByteThrough(o: Object, F: File, stack: nat -> Block, a: nat, x: byte)
    requires Within(o.parts, F) && MirrorWithin(o, F) && SeenByte(o, Some(F), stack, a, x)
    ensures a / B * B < |F| && (a < |F| ==> x == Shown(o.parts, F, a))
  {
    hide Within, MirrorWithin, BlockSeen, Got;
    BlockThrough(o, F, stack, a / B);
    assert a == a / B * B + a % B;
  }

  /** How many bytes a read delivers: it stops at the end of the file's last block, not at the end of the file. */
  function Delivered(F: File, off: nat, len: nat): nat {
    if off >= RoundUp(|F|) then 0 else Min(len, RoundUp(|F|) - off)
  }

  lemma DeliveredIs(F: File, off: nat, len: nat, n: nat)
    requires n <= len
    requires n > 0 ==> (off + n - 1) / B * B < |F|
    requires n < len ==> (off + n) / B * B >= |F|
    ensures n == Delivered(F, off, len)
  {
  }

  /**
   * A read of any range, from any cache contents inside the file: it delivers up to the end of the file's last
   * block, and wherever the file has bytes it shows the stored byte of a block that counts as cached before the
   * read, and the backend's byte of every other block.
   */
  lemma ReadThroughBytes(o: Object, F: File, stack: nat -> Block, off: nat, len: nat)
    requires Within(o.parts, F) && MirrorWithin(o, F)
    ensures var r := ReadRun(o, Some(F), stack, off, len);
            && |r.out| == Delivered(F, off, len)
            && (forall i :: 0 <= i < |r.out| && off + i < |F| ==> r.out[i] == Shown(o.parts, F, off + i))
  {
    hide Within, MirrorWithin, ReadRun, Shown, Delivered, Sourced;
    var r := ReadRun(o, Some(F), stack, off, len);
    ReadSources(o, Some(F), stack, off, len);
    ReadTiles(o, Some(F), stack, off, len);
    SourcedLength(o, F, stack, off, len, r);
    forall i | 0 <= i < |r.out| && off + i < |F| ensures r.out[i] == Shown(o.parts, F, off + i) {
      SourcedByte(o, F, stack, off, r, i);
    }
  }

  lemma SourcedByte(o: Object, F: File, stack: nat -> Block, off: nat, r: ReadResult, i: nat)
    requires Within(o.parts, F) && MirrorWithin(o, F) && Sourced(o, Some(F), stack, off, r) && i < |r.out|
    ensures (off + i) / B * B < |F| && (off + i < |F| ==> r.out[i] == Shown(o.parts, F, off + i))
  {
    hide Within, MirrorWithin, SeenByte, Shown, BlockSeen;
    ByteThrough(o, F, stack, off + i, r.out[i]);
  }

  lemma SourcedLength(o: Object, F: File, stack: nat -> Block, off: nat, len: nat, r: ReadResult)
    requires Within(o.parts, F) && MirrorWithin(o, F) && Sourced(o, Some(F), stack, off, r)
    requires |r.out| <= len && (r.complete <==> |r.out| == len)
    ensures |r.out| == Delivered(F, off, len)
  {
    hide Within, MirrorWithin, SeenByte, Shown, BlockSeen, Delivered;
    if |r.out| > 0 { SourcedByte(o, F, stack, off, r, |r.out| - 1); }
    if |r.out| < len { BlockThrough(o, F, stack, (off + |r.out|) / B); }
    DeliveredIs(F, off, len, |r.out|);
  }

  /** A byte of the range lies in a block that counts as cached, but is not the backend's. */
  ghost predicate Wrong(ps: Parts, F: File, a: nat) { a < |F| && Shown(ps, F, a) != F[a] }

  /**
   * Bytes and return value of a non-empty read are those of POSIX exactly when the range starts inside the file and meets no
   * wrong cached byte, and it also ends inside the file or the file ends on a block boundary. Past the end,
   * bytes of the uninitialised block buffer follow, and past the last block the read fails instead of returning 0.
   */
  lemma ReadThroughExact(o: Object, F: File, stack: nat -> Block, off: nat, len: nat)
    requires Within(o.parts, F) && MirrorWithin(o, F)
    ensures var r := ReadRun(o, Some(F), stack, off, len);
            r.out == Pread(F, len, off) && r.Rc() == |Pread(F, len, off)| <==>
            len == 0 || (&& off < |F| && (off + len <= |F| || |F| % B == 0)
                         && forall a :: off <= a < off + len ==> !Wrong(o.parts, F, a))
  {
    hide Within, MirrorWithin, ReadRun, Shown, Delivered;
    var r := ReadRun(o, Some(F), stack, off, len);
    ReadThroughBytes(o, F, stack, off, len);
    ReadTiles(o, Some(F), stack, off, len);
    if len > 0 { DeliveredExact(F, off, len); }
    var n := |Pread(F, len, off)|;
    if |r.out| == n {
      if r.out == Pread(F, len, off) {
        forall a | off <= a < off + len ensures !Wrong(o.parts, F, a) {
          if a < |F| { assert r.out[a - off] == F[a]; }
        }
      }
      if forall a :: off <= a < off + len ==> !Wrong(o.parts, F, a) {
        forall i | 0 <= i < n ensures r.out[i] == F[off + i] { assert !Wrong(o.parts, F, off + i); }
      }
    }
  }

  lemma DeliveredExact(F: File, off: nat, len: nat)
    requires len > 0
    ensures Delivered(F, off, len) == |Pread(F, len, off)| > 0 <==> off < |F| && (off + len <= |F| || |F| % B == 0)
  {
  }

  /**
   * A hole reads back as a cached block of zeros: after the second block of a backend file was read first, a read of
   * the first block returns zeros instead of the file's bytes.
   */
  lemma HoleReadsAsZero(F: File, stack: nat -> Block)
    requires |F| >= 2 * B && F[0] != 0
    ensures var o := ReadRun(FRESH, Some(F), stack, B, 1).obj;
            var r := ReadRun(o, Some(F), stack, 0, 1);
            r.Rc() == 1 && r.out == [0] && r.out != Pread(F, 1, 0)
  {
    var o0 := FRESH;
    var got := Pread(F, B, B);
    assert Fetch(o0, Some(F), B) == got;
    var o := ReadRun(o0, Some(F), stack, B, 1).obj;
    assert Want(B, 1) == 1 && B / B == 1;
    assert ReadBlock(o0, Some(F), stack, 1).value.0 == o0.(parts := StoreWrite(map[], got, B));
    assert o == ReadRun(ReadBlock(o0, Some(F), stack, 1).value.0, Some(F), stack, B + 1, 0).obj;
    assert Pwrite([], got, B) == Zeros(B) + got && B / P == 0 && B % P == B;
    assert o.parts == map[0 := Zeros(B) + got];
    assert Got(o.parts, B, 0) == Zeros(B);
    assert ReadRun(o, Some(F), stack, 0, 1).out == Overlay(stack(0), Zeros(B))[0..1];
  }
}
