/** The blocks a transfer goes through, and the prefetches that sequential reading schedules. */
module Sequential {
  import opened Posix
  import opened Parts
  import opened CacheObject

  function BlocksOf(off: nat, len: nat): seq<nat>
    decreases len
  {
    if len == 0 then [] else [off / B] + BlocksOf(off + Want(off, len), len - Want(off, len))
  }

  /** How many blocks the range [off, off + len) meets. */
  function BlockCount(off: nat, len: nat): nat { if len == 0 then 0 else (off + len - 1) / B - off / B + 1 }

  ghost predicate Consecutive(bs: seq<nat>, first: nat) { forall i :: 0 <= i < |bs| ==> bs[i] == first + i }

  /** The blocks of a transfer are consecutive, and exactly those that the range meets: no gap, no overlap. */
  lemma {:induction false} BlocksTile(off: nat, len: nat)
    ensures |BlocksOf(off, len)| == BlockCount(off, len) && Consecutive(BlocksOf(off, len), off / B)
    decreases len
  {
    hide Want;
    if len > 0 {
      var w := Want(off, len);
      BlocksTile(off + w, len - w);
      CountStep(off, len);
    }
  }

  lemma CountStep(off: nat, len: nat)
    requires len > 0
    ensures BlockCount(off, len) == 1 + BlockCount(off + Want(off, len), len - Want(off, len))
    ensures Want(off, len) < len ==> (off + Want(off, len)) / B == off / B + 1
  {
    if Want(off, len) < len { WantEnds(off, len); }
  }

  /** A byte of the range lies in exactly one of the blocks, and every block holds a byte of the range. */
  lemma BlocksMeetRange(off: nat, len: nat, b: nat)
    requires len > 0
    ensures b in BlocksOf(off, len) <==> off / B <= b <= (off + len - 1) / B
    ensures b in BlocksOf(off, len) <==> b * B < off + len && off < (b + 1) * B
  {
    hide BlocksOf;
    BlocksTile(off, len);
    if off / B <= b <= (off + len - 1) / B {
      assert BlocksOf(off, len)[b - off / B] == b;
    }
  }

  /** A read completes the blocks of the bytes it delivers, and delivers all bytes unless a source ran dry. */
  lemma {:induction false} ReadTiles(o: Object, remote: Option<File>, stack: nat -> Block, off: nat, len: nat)
    ensures var r := ReadRun(o, remote, stack, off, len);
            r.blocks == BlocksOf(off, |r.out|) && |r.out| <= len && (r.complete <==> |r.out| == len)
    decreases len
  {
    hide ReadBlock, BlocksOf, Want;
    if len > 0 && ReadBlock(o, remote, stack, off / B).Some? {
      var w := Want(off, len);
      var rest := ReadRun(ReadBlock(o, remote, stack, off / B).value.0, remote, stack, off + w, len - w);
      ReadTiles(ReadBlock(o, remote, stack, off / B).value.0, remote, stack, off + w, len - w);
      BlocksStep(off, len, |rest.out|);
    } else {
      BlocksNone(off);
    }
  }

  lemma BlocksNone(off: nat)
    ensures BlocksOf(off, 0) == []
  {
  }

  lemma BlocksStep(off: nat, len: nat, n: nat)
    requires len > 0 && Want(off, len) + n <= len
    ensures BlocksOf(off, Want(off, len) + n) == [off / B] + BlocksOf(off + Want(off, len), n)
  {
    hide BlocksOf;
    var w := Want(off, len);
    assert Want(off, w + n) == w;
    BlocksUnfold(off, w + n);
  }

  lemma BlocksUnfold(off: nat, len: nat)
    requires len > 0
    ensures BlocksOf(off, len) == [off / B] + BlocksOf(off + Want(off, len), len - Want(off, len))
  {
  }

  // ---- Sequential detection ----

  const PREFETCH_WINDOW: nat := 4

  /** The blocks a prefetch job goes through. */
  function Window(first: nat): (w: seq<nat>)
    ensures w == [first, first + 1, first + 2, first + 3]
    ensures |w| == PREFETCH_WINDOW && Consecutive(w, first)
  {
    seq(PREFETCH_WINDOW, i requires 0 <= i => first + i)
  }

  /** `last_block` after the given blocks were completed. */
  function LastAfter(last: Option<nat>, bs: seq<nat>): Option<nat> { if bs == [] then last else Some(bs[|bs| - 1]) }

  /** The first blocks of the prefetches scheduled while completing the given blocks, in order. */
  function Scheduled(last: Option<nat>, bs: seq<nat>): seq<nat> {
    if bs == [] then []
    else
      var front, blk := bs[..|bs| - 1], bs[|bs| - 1];
      var prev := LastAfter(last, front);
      Scheduled(last, front) + if prev.Some? && blk == prev.value + 1 then [blk + 1] else []
  }

  lemma ScheduledOne(last: Option<nat>, blk: nat)
    ensures Scheduled(last, [blk]) == if last.Some? && blk == last.value + 1 then [blk + 1] else []
  {
    assert [blk][..0] == [];
  }

  lemma ScheduledAppend(last: Option<nat>, bs: seq<nat>, blk: nat)
    ensures Scheduled(last, bs + [blk]) == Scheduled(last, bs) + Scheduled(LastAfter(last, bs), [blk])
  {
    hide Scheduled, LastAfter;
    var all := bs + [blk];
    assert all[..|all| - 1] == bs && all[|all| - 1] == blk;
    ScheduledLast(last, all);
    ScheduledOne(LastAfter(last, bs), blk);
  }

  lemma ScheduledLast(last: Option<nat>, bs: seq<nat>)
    requires bs != []
    ensures var front, blk := bs[..|bs| - 1], bs[|bs| - 1];
            var prev := LastAfter(last, front);
            Scheduled(last, bs) ==
              Scheduled(last, front) + (if prev.Some? && blk == prev.value + 1 then [blk + 1] else [])
  {
  }

  /**
   * A read over k >= 1 consecutive blocks from b0 schedules one prefetch after each block but the first, and one
   * after the first too exactly when the previous read ended in block b0 - 1; it leaves `last_block` at b0 + k - 1.
   */
  lemma {:induction false} SequentialDetection(last: Option<nat>, bs: seq<nat>, b0: nat)
    requires bs != [] && Consecutive(bs, b0)
    ensures var continued := last.Some? && b0 == last.value + 1;
            && |Scheduled(last, bs)| == |bs| - (if continued then 0 else 1)
            && (forall i :: 0 <= i < |Scheduled(last, bs)| ==>
                  Scheduled(last, bs)[i] == b0 + 1 + i + (if continued then 0 else 1))
    ensures LastAfter(last, bs) == Some(b0 + |bs| - 1)
  {
    var front := bs[..|bs| - 1];
    if front != [] {
      SequentialDetection(last, front, b0);
    }
  }
}
