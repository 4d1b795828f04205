/** Policy keys: the entry's address in the upper half of a 64-bit word, the block index in the lower half. */
module Keys {
  import opened Posix
  import opened LruPolicy

  const HALF: nat := 0x1_0000_0000

  function Or(x: nat, y: nat): nat {
    if x == 0 then y else if y == 0 then x
    else 2 * Or(x / 2, y / 2) + if x % 2 == 1 || y % 2 == 1 then 1 else 0
  }

  function Power2(k: nat): nat { if k == 0 then 1 else 2 * Power2(k - 1) }

  lemma {:induction false} OrBound(x: nat, y: nat, k: nat)
    requires x < Power2(k) && y < Power2(k)
    ensures Or(x, y) < Power2(k)
  {
    if x > 0 && y > 0 { OrBound(x / 2, y / 2, k - 1); }
  }

  /** `address << 32 | blk` on 64 bits. */
  function Pack(address: nat, blk: nat): nat { Or(address % HALF, blk / HALF % HALF) * HALF + blk % HALF }

  /** `key >> 32`. */
  function Unpack(key: nat): nat { key / HALF }

  /** Decoding inverts packing for addresses and block indices that fit 32 bits. */
  lemma UnpackPack(address: nat, blk: nat)
    requires address < HALF && blk < HALF
    ensures Unpack(Pack(address, blk)) == address && Pack(address, blk) % HALF == blk
    ensures Pack(address, blk) == SENTINEL <==> address == blk == HALF - 1
  {
    assert Or(address, 0) == address;
  }

  /** An address above 32 bits never comes back. */
  lemma HighAddressLost(address: nat, blk: nat)
    requires address >= HALF
    ensures Unpack(Pack(address, blk)) != address
  {
    assert Power2(8) == 0x100 && Power2(16) == 0x1_0000 && Power2(24) == 0x100_0000 && Power2(32) == HALF;
    OrBound(address % HALF, blk / HALF % HALF, 32);
  }

  /** The list after the given blocks were touched under one address, oldest first. */
  function TouchBlocks(o: seq<Node>, capacity: nat, address: nat, bytes: nat, hotness: real, bs: seq<nat>): seq<Node> {
    if bs == [] then o
    else Touched(TouchBlocks(o, capacity, address, bytes, hotness, bs[..|bs| - 1]), capacity,
                 Node(Pack(address, bs[|bs| - 1]), bytes, hotness))
  }

  /** Every key decodes to one of the addresses, none is the sentinel, and every node takes part in the scan. */
  ghost predicate Known(o: seq<Node>, addresses: set<nat>) {
    forall i :: 0 <= i < |o| ==> Unpack(o[i].id) in addresses && o[i].id != SENTINEL && Score(o[i]) > -DBL_MAX
  }

  /** No key is the sentinel, and every node takes part in the scan. */
  ghost predicate Scannable(o: seq<Node>) {
    forall i :: 0 <= i < |o| ==> o[i].id != SENTINEL && Score(o[i]) > -DBL_MAX
  }

  lemma KnownScannable(o: seq<Node>, addresses: set<nat>)
    requires Known(o, addresses)
    ensures Scannable(o)
  {
    hide Score, Unpack;
    forall i | 0 <= i < |o| ensures o[i].id != SENTINEL && Score(o[i]) > -DBL_MAX { assert Unpack(o[i].id) in addresses; }
  }

  lemma WithoutShorter(o: seq<Node>, k: nat)
    requires k < |o|
    ensures |Without(o, k)| == |o| - 1
  {
  }

  /** What one `evict` yields: a node's key, or the sentinel, which from a scannable list means that it is empty. */
  lemma VictimFacts(o: seq<Node>)
    ensures forall n :: n in Evicted(o) ==> n in o
    ensures VictimId(o) != SENTINEL ==> |Evicted(o)| < |o| && exists n :: n in o && n.id == VictimId(o)
    ensures Scannable(o) ==> Scannable(Evicted(o)) && (VictimId(o) == SENTINEL ==> o == Evicted(o) == [])
  {
    hide Score, Without, Scan;
    ScanFindsFirstWorst(o, |o|);
    if Victim(o).Some? {
      WithoutMembers(o, Victim(o).value);
      WithoutShorter(o, Victim(o).value);
    }
    if Scannable(o) {
      if o != [] { assert Score(o[0]) > -DBL_MAX; }
      forall i | 0 <= i < |Evicted(o)| ensures Evicted(o)[i].id != SENTINEL && Score(Evicted(o)[i]) > -DBL_MAX {
        assert Evicted(o)[i] in o;
      }
    }
  }

  lemma EvictedKnown(o: seq<Node>, addresses: set<nat>)
    requires Known(o, addresses)
    ensures Known(Evicted(o), addresses)
    ensures o != [] ==> |Evicted(o)| < |o| && Unpack(VictimId(o)) in addresses && VictimId(o) != SENTINEL
  {
    hide Score, Unpack;
    ScanFindsFirstWorst(o, |o|);
    if o != [] { assert Score(o[0]) > -DBL_MAX; }
  }

  lemma TouchedKnown(o: seq<Node>, capacity: nat, n: Node, addresses: set<nat>)
    requires Known(o, addresses) && Known([n], addresses)
    ensures Known(Touched(o, capacity, n), addresses)
  {
    hide Score, Unpack;
    RemovedInside(o, n.id);
    EvictedKnown(Removed(o, n.id), addresses);
    assert [n][0] == n;
  }

  lemma {:induction false} TouchBlocksKept(o: seq<Node>, capacity: nat, address: nat, bytes: nat, hotness: real, bs: seq<nat>, addresses: set<nat>)
    requires Known(o, addresses) && address in addresses && address < HALF - 1 && hotness <= 1.0
    requires forall i :: 0 <= i < |bs| ==> bs[i] < HALF
    ensures Known(TouchBlocks(o, capacity, address, bytes, hotness, bs), addresses)
  {
    hide Touched, Pack, Unpack;
    if bs != [] {
      var front, blk := bs[..|bs| - 1], bs[|bs| - 1];
      TouchBlocksKept(o, capacity, address, bytes, hotness, front, addresses);
      UnpackPack(address, blk);
      TouchedKnown(TouchBlocks(o, capacity, address, bytes, hotness, front), capacity,
                   Node(Pack(address, blk), bytes, hotness), addresses);
    }
  }

  /**
   * Touching blocks keeps every key decodable to an entry exactly when the address packed into the new keys is an
   * entry's. A foreground call packs the entry's own address; a prefetch job packs that of its private copy.
   */
  lemma TouchBlocksKnown(o: seq<Node>, capacity: nat, address: nat, bytes: nat, hotness: real, bs: seq<nat>, addresses: set<nat>)
    requires Known(o, addresses) && address < HALF - 1 && hotness <= 1.0
    requires forall i :: 0 <= i < |bs| ==> bs[i] < HALF
    ensures Known(TouchBlocks(o, capacity, address, bytes, hotness, bs), addresses) <==> bs == [] || address in addresses
  {
    hide Pack, Unpack, Removed, Evicted;
    if bs != [] && address !in addresses {
      var o' := TouchBlocks(o, capacity, address, bytes, hotness, bs);
      UnpackPack(address, bs[|bs| - 1]);
      assert Unpack(o'[0].id) == address;
    } else if bs != [] {
      TouchBlocksKept(o, capacity, address, bytes, hotness, bs, addresses);
    }
  }
}
