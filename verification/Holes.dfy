/**
 * Runs of reads in any order, and of prefetches, on a path that has a backend copy `F`. A block stored above others
 * leaves them as a hole that counts as cached; which bytes later reads show is decided by the order in which the
 * blocks were visited.
 */
module Holes {
  import opened Posix
  import opened Parts
  import opened CacheObject
  import opened Sequential
  import opened ReadThrough

  /** Block `blk` is not cached, and the backend has it. */
  predicate Misses(ps: Parts, F: File, blk: nat) { !Cached(ps, blk * B) && Pread(F, B, blk * B) != [] }

  /** The parts after one block was visited by a read or a prefetch. */
  function Visit(ps: Parts, F: File, blk: nat): Parts {
    if Misses(ps, F, blk) then StoreWrite(ps, Pread(F, B, blk * B), blk * B) else ps
  }

  function Visits(ps: Parts, F: File, bs: seq<nat>): Parts
    decreases |bs|
  {
    if bs == [] then ps else Visits(Visit(ps, F, bs[0]), F, bs[1..])
  }

  /** The visited blocks that had to be fetched. */
  function Missed(ps: Parts, F: File, bs: seq<nat>): seq<nat>
    decreases |bs|
  {
    if bs == [] then []
    else (if Misses(ps, F, bs[0]) then [bs[0]] else []) + Missed(Visit(ps, F, bs[0]), F, bs[1..])
  }

  ghost predicate AllInside(F: File, bs: seq<nat>) { forall i :: 0 <= i < |bs| ==> bs[i] * B < |F| }

  lemma VisitsFirst(ps: Parts, F: File, b: nat, bs: seq<nat>)
    ensures Visits(ps, F, [b] + bs) == Visits(Visit(ps, F, b), F, bs)
    ensures Missed(ps, F, [b] + bs) == (if Misses(ps, F, b) then [b] else []) + Missed(Visit(ps, F, b), F, bs)
  {
    hide Visit, Misses;
    assert ([b] + bs)[1..] == bs;
  }

  lemma {:induction false} VisitsConcat(ps: Parts, F: File, xs: seq<nat>, ys: seq<nat>)
    ensures Visits(ps, F, xs + ys) == Visits(Visits(ps, F, xs), F, ys)
    ensures Missed(ps, F, xs + ys) == Missed(ps, F, xs) + Missed(Visits(ps, F, xs), F, ys)
    decreases |xs|
  {
    hide Visit, Misses, Visits, Missed;
    if xs == [] {
      VisitsNone(ps, F);
      assert xs + ys == ys;
    } else {
      var b, rest := xs[0], xs[1..];
      VisitsConcat(Visit(ps, F, b), F, rest, ys);
      assert xs == [b] + rest && xs + ys == [b] + (rest + ys);
      VisitsFirst(ps, F, b, rest);
      VisitsFirst(ps, F, b, rest + ys);
    }
  }

  lemma VisitsNone(ps: Parts, F: File)
    ensures Visits(ps, F, []) == ps && Missed(ps, F, []) == []
  {
  }

  lemma VisitsOne(ps: Parts, F: File, blk: nat)
    ensures Visits(ps, F, [blk]) == Visit(ps, F, blk) && Missed(ps, F, [blk]) == if Misses(ps, F, blk) then [blk] else []
  {
    hide Visit, Misses;
    assert [blk][1..] == [];
  }

  lemma {:induction false} VisitsKeepParts(ps: Parts, F: File, bs: seq<nat>)
    ensures ps.Keys <= Visits(ps, F, bs).Keys
    decreases |bs|
  {
    hide Misses;
    if bs != [] { VisitsKeepParts(Visit(ps, F, bs[0]), F, bs[1..]); }
  }

  /** Visits that fetch nothing change nothing, and visits that fetch leave a part behind. */
  lemma {:induction false} VisitsFill(ps: Parts, F: File, bs: seq<nat>)
    ensures if Missed(ps, F, bs) == [] then Visits(ps, F, bs) == ps else Visits(ps, F, bs) != map[]
    decreases |bs|
  {
    hide Misses;
    if bs != [] {
      VisitsFill(Visit(ps, F, bs[0]), F, bs[1..]);
      VisitsKeepParts(Visit(ps, F, bs[0]), F, bs[1..]);
      if Misses(ps, F, bs[0]) { assert bs[0] * B / P in Visit(ps, F, bs[0]).Keys; }
    }
  }

  lemma {:induction false} MissedInside(ps: Parts, F: File, bs: seq<nat>, bound: nat)
    requires forall i :: 0 <= i < |bs| ==> bs[i] < bound
    ensures forall i :: 0 <= i < |Missed(ps, F, bs)| ==> Missed(ps, F, bs)[i] < bound
    decreases |bs|
  {
    hide Misses, Visit;
    if bs != [] { MissedInside(Visit(ps, F, bs[0]), F, bs[1..], bound); }
  }

  // ---- Which bytes the visits leave ----

  /** Block `h` lies in the part of block `blk`, at or above it. */
  ghost predicate Covers(h: nat, blk: nat) { h * B / P == blk * B / P && h >= blk }

  /** A visited block covers `blk`. */
  ghost predicate Covered(hs: seq<nat>, blk: nat) { exists k :: 0 <= k < |hs| && Covers(hs[k], blk) }

  /** A higher block of its part was visited before every visit of `blk`. */
  ghost predicate Skipped(hs: seq<nat>, blk: nat) {
    exists k :: 0 <= k < |hs| && Covers(hs[k], blk) && blk !in hs[..k + 1]
  }

  lemma CoveredAppend(hs: seq<nat>, h: nat, blk: nat)
    ensures Covered(hs + [h], blk) <==> Covered(hs, blk) || Covers(h, blk)
  {
    hide Covers;
    var all := hs + [h];
    assert all[|hs|] == h;
    if k :| 0 <= k < |hs| && Covers(hs[k], blk) { assert Covers(all[k], blk); }
  }

  lemma SkippedAppend(hs: seq<nat>, h: nat, blk: nat)
    ensures Skipped(hs + [h], blk) <==> Skipped(hs, blk) || (!Covered(hs, blk) && Covers(h, blk) && h != blk)
  {
    hide Covers;
    var all := hs + [h];
    assert all[|hs|] == h && all[..|hs| + 1] == all;
    assert forall k :: 0 <= k < |hs| ==> all[k] == hs[k] && all[..k + 1] == hs[..k + 1];
    if Skipped(hs, blk) {
      var k :| 0 <= k < |hs| && Covers(hs[k], blk) && blk !in hs[..k + 1];
      assert Covers(all[k], blk);
    }
    if !Covered(hs, blk) {
      if blk in hs { CoversSelf(blk); }
    } else if Skipped(all, blk) {
      var k :| 0 <= k < |all| && Covers(all[k], blk) && blk !in all[..k + 1];
      if k == |hs| {
        var j :| 0 <= j < |hs| && Covers(hs[j], blk);
        assert blk !in hs[..j + 1] by { assert forall i :: 0 <= i <= j ==> hs[i] in all; }
      }
    }
  }

  lemma CoversSelf(blk: nat)
    ensures Covers(blk, blk)
  {
  }

  /** What the visits in `hs` left at address `a` of the file. */
  ghost predicate LeftAt(ps: Parts, F: File, hs: seq<nat>, a: nat)
    requires a < |F|
  {
    && (Stored(ps, a) <==> Covered(hs, a / B))
    && (Stored(ps, a) ==> ByteAt(ps, a) == if Skipped(hs, a / B) then 0 else F[a])
  }

  ghost predicate Left(ps: Parts, F: File, hs: seq<nat>) {
    Within(ps, F) && forall a: nat :: a < |F| ==> LeftAt(ps, F, hs, a)
  }

  /** On flat addresses: a store of block `h` reaches `a` from below exactly when `h` covers the block of `a`. */
  lemma CoversFlat(F: File, h: nat, a: nat)
    requires a < |F| && h * B < |F|
    ensures Covers(h, a / B) <==> h * B / P * P <= a < h * B + |Pread(F, B, h * B)|
  {
    BlockInOnePart(a / B, a % B);
    assert a == a / B * B + a % B;
  }

  /** The last block of the file is covered by nothing but itself. */
  lemma LastNotSkipped(F: File, hs: seq<nat>, blk: nat)
    requires AllInside(F, hs) && blk * B < |F| <= blk * B + B
    ensures !Skipped(hs, blk)
  {
    forall k | 0 <= k < |hs| && Covers(hs[k], blk) ensures blk in hs[..k + 1] {
      assert hs[k] == blk && hs[..k + 1][k] == blk;
    }
  }

  lemma CachedCovers(ps: Parts, F: File, h: nat, a: nat)
    requires Bounded(ps) && Cached(ps, h * B) && Covers(h, a / B)
    ensures Stored(ps, a)
  {
    StoreReadFlat(ps, h, B - 1);
    BlockInOnePart(h, B - 1);
    BlockInOnePart(a / B, a % B);
    assert a == a / B * B + a % B;
  }

  lemma CachedLeaves(ps: Parts, F: File, hs: seq<nat>, h: nat, a: nat)
    requires Bounded(ps) && Cached(ps, h * B) && a < |F| && LeftAt(ps, F, hs, a)
    ensures LeftAt(ps, F, hs + [h], a)
  {
    hide Stored, Covers, Covered, Skipped, Cached, Bounded, ByteAt;
    CoveredAppend(hs, h, a / B);
    SkippedAppend(hs, h, a / B);
    if Covers(h, a / B) { CachedCovers(ps, F, h, a); }
  }

  /** A block that is fetched although one of its bytes is stored is the last one of the file. */
  lemma FetchedNotSkipped(ps: Parts, F: File, hs: seq<nat>, h: nat, a: nat)
    requires Left(ps, F, hs) && AllInside(F, hs) && !Cached(ps, h * B) && h * B <= a < |F| && a < h * B + B
    ensures !Skipped(hs, h)
  {
    hide Skipped, Covers, AllInside;
    if |F| <= h * B + B {
      LastNotSkipped(F, hs, h);
    } else {
      StoreReadFlat(ps, h, B - 1);
      assert LeftAt(ps, F, hs, h * B + B - 1);
      NotCovered(hs, h);
    }
  }

  lemma NotCovered(hs: seq<nat>, blk: nat)
    requires !Covered(hs, blk)
    ensures !Skipped(hs, blk)
  {
    hide Covers;
  }

  lemma StoredLeaves(ps: Parts, F: File, hs: seq<nat>, h: nat, a: nat)
    requires Left(ps, F, hs) && AllInside(F, hs) && !Cached(ps, h * B) && h * B < |F| && a < |F|
    ensures LeftAt(StoreWrite(ps, Pread(F, B, h * B), h * B), F, hs + [h], a)
  {
    hide Stored, Covers, Covered, Skipped, Cached, Bounded, ByteAt, StoreWrite, AllInside;
    var got := Pread(F, B, h * B);
    CoveredAppend(hs, h, a / B);
    SkippedAppend(hs, h, a / B);
    CoversFlat(F, h, a);
    StoreWriteFlat(ps, got, h, a);
    assert LeftAt(ps, F, hs, a);
    if h * B <= a < h * B + B {
      assert a / B == h;
      FetchedNotSkipped(ps, F, hs, h, a);
    }
    if !Covered(hs, a / B) { NotCovered(hs, a / B); }
  }

  lemma StoreWithin(ps: Parts, F: File, blk: nat)
    requires Within(ps, F) && blk * B < |F|
    ensures Within(StoreWrite(ps, Pread(F, B, blk * B), blk * B), F)
  {
    hide Stored, Bounded, StoreWrite;
    var got := Pread(F, B, blk * B);
    var ps' := StoreWrite(ps, got, blk * B);
    forall a: nat ensures Bounded(ps') && (Stored(ps', a) ==> a < |F|) { StoreWriteFlat(ps, got, blk, a); }
    StoreWriteFlat(ps, got, blk, 0);
  }

  lemma VisitWithin(ps: Parts, F: File, blk: nat)
    requires Within(ps, F) && blk * B < |F|
    ensures Within(Visit(ps, F, blk), F)
  {
    hide Within;
    StoreWithin(ps, F, blk);
  }

  lemma VisitLeaves(ps: Parts, F: File, hs: seq<nat>, h: nat)
    requires Left(ps, F, hs) && AllInside(F, hs) && h * B < |F|
    ensures Left(Visit(ps, F, h), F, hs + [h])
  {
    hide LeftAt, Within, StoreWrite, AllInside, Cached;
    VisitWithin(ps, F, h);
    forall a: nat | a < |F| ensures LeftAt(Visit(ps, F, h), F, hs + [h], a) {
      if Cached(ps, h * B) {
        WithinBounded(ps, F);
        CachedLeaves(ps, F, hs, h, a);
      } else {
        StoredLeaves(ps, F, hs, h, a);
      }
    }
  }

  lemma WithinBounded(ps: Parts, F: File)
    requires Within(ps, F)
    ensures Bounded(ps)
  {
  }

  /**
   * After visits in any order from an empty store, the stored bytes are those of the blocks at or below a visited
   * one in its part; a block skipped at first holds zeros for good, and every other holds the backend's bytes.
   */
  lemma {:induction false} VisitsLeave(F: File, hs: seq<nat>)
    requires AllInside(F, hs)
    ensures Left(Visits(map[], F, hs), F, hs)
  {
    hide Left, Visit;
    if hs == [] {
      LeftStart(F);
    } else {
      var n := |hs| - 1;
      var front, h := hs[..n], hs[n];
      assert hs == front + [h];
      VisitsLeave(F, front);
      VisitsConcat(map[], F, front, [h]);
      assert [h][1..] == [];
      VisitLeaves(Visits(map[], F, front), F, front, h);
    }
  }

  lemma LeftStart(F: File)
    ensures Left(map[], F, [])
  {
  }

  // ---- Runs of calls and prefetches ----

  /**
   * A call on the path, with what its block buffer held before; or iterations of prefetch jobs for these blocks that
   * ran between two calls.
   */
  datatype Step = Do(op: Op, stack: nat -> Block) | Prefetched(blocks: seq<nat>)

  function RemoteBytes(remote: Option<File>): File { if remote.Some? then remote.value else [] }

  function After(o: Object, remote: Option<File>, step: Step): Object {
    match step
    case Do(Read(off, len), stack) => ReadRun(o, remote, stack, off, len).obj
    case Do(Write(off, data), _) => WriteRun(o, off, data)
    case Prefetched(blocks) => o.(parts := Visits(o.parts, RemoteBytes(remote), blocks))
  }

  /** The object after a run. */
  function AfterRun(o: Object, remote: Option<File>, steps: seq<Step>): Object
    decreases |steps|
  {
    if |steps| == 0 then o
    else AfterRun(After(o, remote, steps[0]), remote, steps[1..])
  }

  lemma {:induction false} AfterAppend(o: Object, remote: Option<File>, steps: seq<Step>, step: Step)
    ensures AfterRun(o, remote, steps + [step]) == After(AfterRun(o, remote, steps), remote, step)
    decreases |steps|
  {
    hide After;
    if |steps| == 0 {
      assert steps + [step] == [step] && |[step][1..]| == 0;
    } else {
      AfterAppend(After(o, remote, steps[0]), remote, steps[1..], step);
      assert (steps + [step])[1..] == steps[1..] + [step];
    }
  }

  ghost predicate ReadOnly(steps: seq<Step>) { forall i :: 0 <= i < |steps| && steps[i].Do? ==> steps[i].op.Read? }

  /** Those of the blocks that lie inside the file. */
  function Inside(F: File, bs: seq<nat>): seq<nat> {
    if bs == [] then [] else (if bs[0] * B < |F| then [bs[0]] else []) + Inside(F, bs[1..])
  }

  /** The blocks inside the file that one step visits. */
  function Visited(F: File, step: Step): seq<nat>
    requires step.Do? ==> step.op.Read?
  {
    if step.Do? then BlocksOf(step.op.off, Delivered(F, step.op.off, step.op.len)) else Inside(F, step.blocks)
  }

  /** The blocks that a run of reads and prefetches visits, in order. */
  function History(F: File, steps: seq<Step>): seq<nat>
    requires ReadOnly(steps)
  {
    if |steps| == 0 then [] else Visited(F, steps[0]) + History(F, steps[1..])
  }

  /** A prefetch of blocks past the end of the file does nothing. */
  lemma {:induction false} InsideVisits(ps: Parts, F: File, bs: seq<nat>)
    ensures AllInside(F, Inside(F, bs)) && Visits(ps, F, bs) == Visits(ps, F, Inside(F, bs))
    decreases |bs|
  {
    hide Visit, Visits, Inside, Misses, Missed;
    InsideFirst(F, bs);
    if bs != [] {
      var b, rest := bs[0], bs[1..];
      assert bs == [b] + rest;
      InsideVisits(Visit(ps, F, b), F, rest);
      VisitsFirst(ps, F, b, rest);
      if b * B < |F| {
        VisitsFirst(ps, F, b, Inside(F, rest));
      } else {
        PastEndVisit(ps, F, b);
      }
    }
  }

  lemma InsideFirst(F: File, bs: seq<nat>)
    ensures Inside(F, bs) ==
            if bs == [] then [] else if bs[0] * B < |F| then [bs[0]] + Inside(F, bs[1..]) else Inside(F, bs[1..])
  {
  }

  lemma PastEndVisit(ps: Parts, F: File, blk: nat)
    requires blk * B >= |F|
    ensures Visit(ps, F, blk) == ps
  {
  }

  lemma {:induction false} VisitsWithin(ps: Parts, F: File, bs: seq<nat>)
    requires Within(ps, F) && AllInside(F, bs)
    ensures Within(Visits(ps, F, bs), F)
    decreases |bs|
  {
    hide Within, Visit;
    if bs != [] {
      VisitWithin(ps, F, bs[0]);
      VisitsWithin(Visit(ps, F, bs[0]), F, bs[1..]);
    }
  }

  lemma BlockVisits(o: Object, F: File, stack: nat -> Block, blk: nat)
    requires Within(o.parts, F) && MirrorWithin(o, F) && ReadBlock(o, Some(F), stack, blk).Some?
    ensures blk * B < |F| && ReadBlock(o, Some(F), stack, blk).value.0 == o.(parts := Visit(o.parts, F, blk))
  {
    hide Within, MirrorWithin, StoreWrite, Got;
    BlockThrough(o, F, stack, blk);
    assert blk * B < |F| by { assert BlockSeen(o, Some(F), stack, blk).Some?; }
  }

  /** A read leaves the parts as visiting its blocks does. */
  lemma {:induction false} ReadVisits(o: Object, F: File, stack: nat -> Block, off: nat, len: nat)
    requires Within(o.parts, F) && MirrorWithin(o, F)
    ensures var r := ReadRun(o, Some(F), stack, off, len);
            AllInside(F, r.blocks) && Within(r.obj.parts, F) && r.obj == o.(parts := Visits(o.parts, F, r.blocks))
    decreases len
  {
    hide Within, ReadBlock, Visit, Visits, Want, Misses, Missed, RoundUp;
    if len > 0 && ReadBlock(o, Some(F), stack, off / B).Some? {
      var w := Want(off, len);
      var o' := ReadBlock(o, Some(F), stack, off / B).value.0;
      BlockVisits(o, F, stack, off / B);
      VisitWithin(o.parts, F, off / B);
      ReadVisits(o', F, stack, off + w, len - w);
      VisitsFirst(o.parts, F, off / B, ReadRun(o', Some(F), stack, off + w, len - w).blocks);
    } else {
      VisitsNone(o.parts, F);
    }
  }

  lemma ReadHistory(o: Object, F: File, stack: nat -> Block, off: nat, len: nat)
    requires Within(o.parts, F) && MirrorWithin(o, F)
    ensures var bs := BlocksOf(off, Delivered(F, off, len));
            var o' := ReadRun(o, Some(F), stack, off, len).obj;
            AllInside(F, bs) && Within(o'.parts, F) && o' == o.(parts := Visits(o.parts, F, bs))
  {
    hide Within, MirrorWithin, ReadRun, Visits, Delivered, BlocksOf, AllInside;
    ReadVisits(o, F, stack, off, len);
    ReadTiles(o, Some(F), stack, off, len);
    ReadThroughBytes(o, F, stack, off, len);
  }

  lemma StepHistory(o: Object, F: File, step: Step)
    requires Within(o.parts, F) && MirrorWithin(o, F) && (step.Do? ==> step.op.Read?)
    ensures var o' := After(o, Some(F), step);
            && AllInside(F, Visited(F, step)) && Within(o'.parts, F)
            && o' == o.(parts := Visits(o.parts, F, Visited(F, step)))
  {
    hide Within, MirrorWithin, ReadRun, Visits, Delivered, BlocksOf, Inside, AllInside;
    if step.Do? {
      ReadHistory(o, F, step.stack, step.op.off, step.op.len);
    } else {
      InsideVisits(o.parts, F, step.blocks);
      VisitsWithin(o.parts, F, Inside(F, step.blocks));
    }
  }

  lemma {:induction false} RunHistory(o: Object, F: File, steps: seq<Step>)
    requires Within(o.parts, F) && MirrorWithin(o, F) && ReadOnly(steps)
    ensures var o' := AfterRun(o, Some(F), steps);
            && AllInside(F, History(F, steps)) && Within(o'.parts, F)
            && o' == o.(parts := Visits(o.parts, F, History(F, steps)))
    decreases |steps|
  {
    hide Within, After, Visited, Visit;
    if |steps| > 0 {
      StepHistory(o, F, steps[0]);
      var o' := After(o, Some(F), steps[0]);
      RunHistory(o', F, steps[1..]);
      VisitsConcat(o.parts, F, Visited(F, steps[0]), History(F, steps[1..]));
    }
  }

  /** A block that is covered, and full in the file, counts as cached; so what is shown is what the visits left. */
  lemma ShownAfter(ps: Parts, F: File, hs: seq<nat>, a: nat)
    requires Left(ps, F, hs) && AllInside(F, hs) && a < |F|
    ensures Shown(ps, F, a) == if Skipped(hs, a / B) then 0 else F[a]
  {
    hide Skipped, Covered, Covers, Stored, Bounded, ByteAt, Got, AllInside;
    assert a == a / B * B + a % B;
    assert LeftAt(ps, F, hs, a);
    StoreReadFlat(ps, a / B, a % B);
    if !Cached(ps, a / B * B) {
      FetchedNotSkipped(ps, F, hs, a / B, a);
    } else {
      StoreReadFlat(ps, a / B, B - 1);
    }
  }

  /**
   * Every read in every run of reads and prefetches on a fresh path, whatever was visited before: it shows zeros in
   * the blocks that were skipped and the backend's bytes in all others.
   */
  lemma ReadAfterRun(F: File, steps: seq<Step>, stack: nat -> Block, off: nat, len: nat)
    requires ReadOnly(steps)
    ensures var o := AfterRun(FRESH, Some(F), steps);
            var r := ReadRun(o, Some(F), stack, off, len);
            && Left(o.parts, F, History(F, steps))
            && |r.out| == Delivered(F, off, len)
            && (forall i :: 0 <= i < |r.out| && off + i < |F| ==>
                  r.out[i] == if Skipped(History(F, steps), (off + i) / B) then 0 else F[off + i])
  {
    hide AfterRun, ReadRun, Left, Skipped, Delivered, History, AllInside, Shown;
    var o := RunLeaves(F, steps);
    ReadThroughBytes(o, F, stack, off, len);
    var r := ReadRun(o, Some(F), stack, off, len);
    forall i | 0 <= i < |r.out| && off + i < |F|
      ensures r.out[i] == if Skipped(History(F, steps), (off + i) / B) then 0 else F[off + i]
    {
      ShownAfter(o.parts, F, History(F, steps), off + i);
    }
  }

  lemma RunLeaves(F: File, steps: seq<Step>) returns (o: Object)
    requires ReadOnly(steps)
    ensures o == AfterRun(FRESH, Some(F), steps) && Left(o.parts, F, History(F, steps))
    ensures AllInside(F, History(F, steps)) && Within(o.parts, F) && MirrorWithin(o, F)
  {
    hide AfterRun, History, Visits, Left, AllInside;
    RunHistory(FRESH, F, steps);
    VisitsLeave(F, History(F, steps));
    o := AfterRun(FRESH, Some(F), steps);
  }

  /**
   * Exactly when a read in a run of reads and prefetches has bytes and return value of POSIX, in terms of the blocks
   * visited so far: it starts inside the file, it ends there or the file ends on a block boundary, and every byte it
   * asks for that lies in a skipped block is zero in the file.
   */
  lemma PosixAfterRun(F: File, steps: seq<Step>, stack: nat -> Block, off: nat, len: nat)
    requires ReadOnly(steps)
    ensures var r := ReadRun(AfterRun(FRESH, Some(F), steps), Some(F), stack, off, len);
            r.out == Pread(F, len, off) && r.Rc() == |Pread(F, len, off)| <==>
            len == 0 || (&& off < |F| && (off + len <= |F| || |F| % B == 0)
                         && forall a :: off <= a < off + len && a < |F| && Skipped(History(F, steps), a / B) ==> F[a] == 0)
  {
    hide AfterRun, ReadRun, Left, Skipped, History, AllInside, Within, MirrorWithin, Shown;
    var o := RunLeaves(F, steps);
    ReadThroughExact(o, F, stack, off, len);
    forall a: nat | a < |F| ensures Wrong(o.parts, F, a) <==> Skipped(History(F, steps), a / B) && F[a] != 0 {
      ShownAfter(o.parts, F, History(F, steps), a);
    }
  }

  // ---- When a read leaves the store faithful ----

  lemma {:induction false} VisitsReachable(ps: Parts, F: File, bs: seq<nat>, b0: nat)
    requires Faithful(ps, F) && Reach(ps, F, b0) && Consecutive(bs, b0) && AllInside(F, bs)
    ensures Faithful(Visits(ps, F, bs), F)
    decreases |bs|
  {
    hide Faithful, Reach, StoreWrite, Cached;
    if bs != [] {
      if Cached(ps, b0 * B) { CachedFaithful(ps, F, b0); } else { StoreReachable(ps, F, b0); }
      VisitsReachable(Visit(ps, F, b0), F, bs[1..], b0 + 1);
    }
  }

  /** Visits of higher blocks do not change a stored byte. */
  lemma {:induction false} VisitsKeep(ps: Parts, F: File, bs: seq<nat>, a: nat)
    requires Within(ps, F) && Stored(ps, a) && AllInside(F, bs) && forall i :: 0 <= i < |bs| ==> a < bs[i] * B
    ensures Stored(Visits(ps, F, bs), a) && ByteAt(Visits(ps, F, bs), a) == ByteAt(ps, a)
    decreases |bs|
  {
    hide Within, StoreWrite, Stored, ByteAt, Cached;
    if bs != [] {
      VisitWithin(ps, F, bs[0]);
      if Misses(ps, F, bs[0]) {
        WithinBounded(ps, F);
        StoreWriteFlat(ps, Pread(F, B, bs[0] * B), bs[0], a);
      }
      VisitsKeep(Visit(ps, F, bs[0]), F, bs[1..], a);
    }
  }

  lemma FaithfulWithin(ps: Parts, F: File)
    requires Faithful(ps, F)
    ensures Within(ps, F)
  {
    forall a: nat | Stored(ps, a) ensures a < |F| { assert FaithfulAt(ps, F, a); }
  }

  lemma CachedHarmless(ps: Parts, F: File, blk: nat)
    requires Bounded(ps) && Cached(ps, blk * B)
    ensures forall a: nat :: HarmlessAt(ps, F, blk, a)
  {
    forall a: nat ensures !InGap(ps, blk, a) {
      StoreReadFlat(ps, blk, B - 1);
      BlockInOnePart(blk, B - 1);
      if blk * B / P * P <= a < blk * B { DivMod(a, blk * B / P, a - blk * B / P * P); }
    }
  }

  /** A harmful hole stays. */
  lemma HarmStays(ps: Parts, F: File, b0: nat, rest: seq<nat>, a: nat)
    requires Faithful(ps, F) && b0 * B < |F| && !HarmlessAt(ps, F, b0, a)
    requires AllInside(F, rest) && Consecutive(rest, b0 + 1)
    ensures !Faithful(Visits(StoreWrite(ps, Pread(F, B, b0 * B), b0 * B), F, rest), F)
  {
    hide Faithful, Within, Stored, Bounded, ByteAt, StoreWrite, Visits, AllInside;
    var got := Pread(F, B, b0 * B);
    var ps1 := StoreWrite(ps, got, b0 * B);
    FaithfulWithin(ps, F);
    WithinBounded(ps, F);
    StoreWriteFlat(ps, got, b0, a);
    StoreWithin(ps, F, b0);
    VisitsKeep(ps1, F, rest, a);
    UnfaithfulAt(Visits(ps1, F, rest), F, a);
  }

  lemma UnfaithfulAt(ps: Parts, F: File, a: nat)
    requires Stored(ps, a) && a < |F| && ByteAt(ps, a) != F[a]
    ensures !Faithful(ps, F)
  {
    assert !FaithfulAt(ps, F, a);
  }

  lemma VisitsFaithfulIff(ps: Parts, F: File, bs: seq<nat>, b0: nat)
    requires Faithful(ps, F) && bs != [] && Consecutive(bs, b0) && AllInside(F, bs)
    ensures Faithful(Visits(ps, F, bs), F) <==> forall a: nat :: HarmlessAt(ps, F, b0, a)
  {
    hide Faithful, Reach, StoreWrite, Cached, HarmlessAt;
    var rest := bs[1..];
    assert bs[0] == b0 && Visits(ps, F, bs) == Visits(Visit(ps, F, b0), F, rest);
    FaithfulWithin(ps, F);
    WithinBounded(ps, F);
    if Cached(ps, b0 * B) {
      CachedFaithful(ps, F, b0);
      CachedHarmless(ps, F, b0);
      VisitsReachable(ps, F, rest, b0 + 1);
    } else {
      var ps1 := StoreWrite(ps, Pread(F, B, b0 * B), b0 * B);
      StoreFaithfulIff(ps, F, b0);
      if forall a: nat :: HarmlessAt(ps, F, b0, a) {
        StoreReachesNext(ps, F, b0);
        VisitsReachable(ps1, F, rest, b0 + 1);
      } else {
        var a: nat :| !HarmlessAt(ps, F, b0, a);
        HarmStays(ps, F, b0, rest, a);
      }
    }
  }

  lemma StoreReachesNext(ps: Parts, F: File, blk: nat)
    requires blk * B < |F|
    ensures Reach(StoreWrite(ps, Pread(F, B, blk * B), blk * B), F, blk + 1)
  {
    ReachNext(StoreWrite(ps, Pread(F, B, blk * B), blk * B), F, blk);
  }

  /**
   * Exactly when a read leaves the store faithful: the bytes in front of its first block, in the part, that are not
   * stored yet are zero in the file. A read that starts at or below the cached prefix leaves no hole at all.
   */
  lemma ReadFaithfulIff(o: Object, F: File, stack: nat -> Block, off: nat, len: nat)
    requires Faithful(o.parts, F) && MirrorWithin(o, F)
    ensures Faithful(ReadRun(o, Some(F), stack, off, len).obj.parts, F) <==>
            len == 0 || off / B * B >= |F| || forall a: nat :: HarmlessAt(o.parts, F, off / B, a)
    ensures Reach(o.parts, F, off / B) ==> Faithful(ReadRun(o, Some(F), stack, off, len).obj.parts, F)
  {
    hide Faithful, ReadRun, HarmlessAt, Visits, Within, MirrorWithin, AllInside, BlocksOf;
    FaithfulWithin(o.parts, F);
    ReadHistory(o, F, stack, off, len);
    var n := Delivered(F, off, len);
    BlocksTile(off, n);
    DeliveredSome(F, off, len);
    if n == 0 {
      VisitsNone(o.parts, F);
    } else {
      VisitsFaithfulIff(o.parts, F, BlocksOf(off, n), off / B);
      if Reach(o.parts, F, off / B) { ReachHarmless(o.parts, F, off / B); }
    }
  }

  lemma ReachHarmless(ps: Parts, F: File, blk: nat)
    requires Reach(ps, F, blk) && blk * B < |F|
    ensures forall a: nat :: HarmlessAt(ps, F, blk, a)
  {
    forall a: nat ensures HarmlessAt(ps, F, blk, a) { ReachMeansNoGap(ps, F, blk, a); }
  }

  lemma DeliveredSome(F: File, off: nat, len: nat)
    ensures Delivered(F, off, len) == 0 <==> len == 0 || off / B * B >= |F|
  {
  }
}
