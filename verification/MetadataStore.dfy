/** Dirty-block bitmaps: marking in memory, packing into bytes, and reading them back. */
module MetadataStore {
  import opened Posix
  import opened FsLayout
  import opened BlockStore

  // ---- Bits in bytes ----

  /** `1u << b` for a bit of a byte. */
  function Mask(b: nat): byte
    requires b < 8
  {
    if b == 0 then 1 else if b == 1 then 2 else if b == 2 then 4 else if b == 3 then 8
    else if b == 4 then 16 else if b == 5 then 32 else if b == 6 then 64 else 128
  }

  predicate BitSet(x: byte, b: nat)
    requires b < 8
  {
    x & Mask(b) != 0
  }

  /** The test with a mask finds bit `b`, counted from the least significant one. */
  lemma BitSetIsBit(x: byte, b: nat)
    requires b < 8
    ensures BitSet(x, b) <==> (x >> b) & 1 == 1
  {
    if b == 0 { assert x & 1 != 0 <==> (x >> 0) & 1 == 1; }
    else if b == 1 { assert x & 2 != 0 <==> (x >> 1) & 1 == 1; }
    else if b == 2 { assert x & 4 != 0 <==> (x >> 2) & 1 == 1; }
    else if b == 3 { assert x & 8 != 0 <==> (x >> 3) & 1 == 1; }
    else if b == 4 { assert x & 16 != 0 <==> (x >> 4) & 1 == 1; }
    else if b == 5 { assert x & 32 != 0 <==> (x >> 5) & 1 == 1; }
    else if b == 6 { assert x & 64 != 0 <==> (x >> 6) & 1 == 1; }
    else { assert x & 128 != 0 <==> (x >> 7) & 1 == 1; }
  }

  lemma OrSetsBit(x: byte, b: nat, c: nat)
    requires b < 8 && c < 8
    ensures BitSet(x | Mask(b), c) <==> b == c || BitSet(x, c)
  {
  }

  lemma OrSetsOneBit(x: byte, b: nat, c: nat)
    requires b < 8 && c < 8
    ensures ((x | Mask(b)) >> c) & 1 == 1 <==> b == c || (x >> c) & 1 == 1
  {
    hide BitSet;
    OrSetsBit(x, b, c);
    BitSetIsBit(x | Mask(b), c);
    BitSetIsBit(x, c);
  }

  /** Bit `j` of a packed bitmap: in byte `j / 8`, least significant bit first. */
  predicate PackedBit(bytes: File, j: nat)
    requires j < 8 * |bytes|
  {
    (bytes[j / 8] >> (j % 8)) & 1 == 1
  }

  /** The bytes `persistBitmap` writes: bit `j` in byte `j / 8`, padded with clear bits. */
  ghost predicate Encodes(bytes: File, bits: seq<bool>) {
    && |bytes| == (|bits| + 7) / 8
    && forall j: nat :: j < 8 * |bytes| ==> (PackedBit(bytes, j) <==> j < |bits| && bits[j])
  }

  lemma SetPackedBit(bytes: File, i: nat, j: nat)
    requires i < 8 * |bytes| && j < 8 * |bytes|
    ensures PackedBit(bytes[i / 8 := bytes[i / 8] | Mask(i % 8)], j) <==> i == j || PackedBit(bytes, j)
  {
    if i / 8 == j / 8 {
      OrSetsOneBit(bytes[i / 8], i % 8, j % 8);
    }
  }

  lemma ZeroPackedBit(n: nat, j: nat)
    requires j < 8 * n
    ensures !PackedBit(Zeros(n), j)
  {
  }

  /** The packing loop of `persistBitmap`. */
  method PackBits(bits: seq<bool>) returns (bytes: File)
    ensures Encodes(bytes, bits)
  {
    hide PackedBit, Zeros;
    bytes := Zeros((|bits| + 7) / 8);
    forall j: nat | j < 8 * |bytes| ensures !PackedBit(bytes, j) { ZeroPackedBit(|bytes|, j); }
    var i := 0;
    while i < |bits|
      invariant 0 <= i <= |bits| && |bytes| == (|bits| + 7) / 8
      invariant forall j: nat :: j < 8 * |bytes| ==> (PackedBit(bytes, j) <==> j < i && bits[j])
    {
      if bits[i] {
        var next := bytes[i / 8 := bytes[i / 8] | Mask(i % 8)];
        forall j: nat | j < 8 * |bytes| ensures PackedBit(next, j) <==> i == j || PackedBit(bytes, j) {
          SetPackedBit(bytes, i, j);
        }
        bytes := next;
      }
      i := i + 1;
    }
  }

  function Unpacked(bytes: File): seq<bool> {
    seq(8 * |bytes|, j requires 0 <= j < 8 * |bytes| => PackedBit(bytes, j))
  }

  /** The unpacking loops of `loadBitmap`, over the bytes it read. */
  method UnpackBits(bytes: File) returns (bits: seq<bool>)
    ensures bits == Unpacked(bytes)
  {
    hide BitSet;
    bits := seq(8 * |bytes|, i => false);
    var i := 0;
    while i < |bytes|
      invariant 0 <= i <= |bytes| && |bits| == 8 * |bytes|
      invariant forall j: nat :: j < 8 * i ==> (bits[j] <==> PackedBit(bytes, j))
    {
      var b := 0;
      while b < 8
        invariant 0 <= b <= 8 && |bits| == 8 * |bytes|
        invariant forall j: nat :: j < 8 * i + b ==> (bits[j] <==> PackedBit(bytes, j))
      {
        assert (8 * i + b) / 8 == i && (8 * i + b) % 8 == b;
        BitSetIsBit(bytes[i], b);
        bits := bits[8 * i + b := BitSet(bytes[i], b)];
        b := b + 1;
      }
      i := i + 1;
    }
  }

  /** How much of a bitmap file `loadBitmap` reads: its byte count is divided by eight once more. */
  function LoadedBytes(file: File): (k: nat)
    ensures k <= |file|
  {
    (|file| + 7) / 8
  }

  function LoadedBits(file: File): seq<bool> { Unpacked(file[..LoadedBytes(file)]) }

  /**
   * Loading what was persisted yields the first bits, padded with false, but only eight bits per eight bytes of the
   * file: a non-empty bitmap comes back whole exactly when it has at most eight bits.
   */
  lemma LoadAfterPersist(bytes: File, bits: seq<bool>)
    requires Encodes(bytes, bits) && bits != []
    ensures |LoadedBits(bytes)| == 8 * ((|bytes| + 7) / 8)
    ensures forall j :: 0 <= j < |LoadedBits(bytes)| ==> (LoadedBits(bytes)[j] <==> j < |bits| && bits[j])
    ensures bits <= LoadedBits(bytes) <==> |bits| <= 8
  {
    hide PackedBit;
    var k := LoadedBytes(bytes);
    forall j | 0 <= j < 8 * k ensures LoadedBits(bytes)[j] <==> j < |bits| && bits[j] {
      PackedPrefix(bytes, k, j);
    }
  }

  lemma PackedPrefix(bytes: File, k: nat, j: nat)
    requires k <= |bytes| && j < 8 * k
    ensures PackedBit(bytes[..k], j) <==> PackedBit(bytes, j)
  {
  }

  // ---- Marking ----

  type Bitmaps = map<Hash, map<nat, seq<bool>>>

  predicate BitIs(bm: Bitmaps, h: Hash, p: nat, b: nat) {
    h in bm && p in bm[h] && b < |bm[h][p]| && bm[h][p][b]
  }

  function PartBitmaps(bm: Bitmaps, h: Hash): map<nat, seq<bool>> { if h in bm then bm[h] else map[] }

  /** Every non-empty bitmap of the object is on disk. */
  ghost predicate Flushed(files: Files, bm: Bitmaps, h: Hash) {
    forall p :: p in PartBitmaps(bm, h) && bm[h][p] != [] ==> Dirty(h, p) in files && Encodes(files[Dirty(h, p)], bm[h][p])
  }

  class MetadataStore {
    const fs: FileSystem
    var bitmaps: Bitmaps

    constructor (fs: FileSystem)
      ensures this.fs == fs && bitmaps == map[]
    {
      this.fs := fs;
      bitmaps := map[];
    }

    /** Sets one bit, growing the part's vector with clear bits, and changes no other bit. */
    method MarkDirtyBlock(h: Hash, part: nat, blk: nat)
      modifies this
      ensures forall g: Hash, p: nat, b: nat ::
        BitIs(bitmaps, g, p, b) <==> BitIs(old(bitmaps), g, p, b) || (g == h && p == part && b == blk)
    {
      var parts: map<nat, seq<bool>> := PartBitmaps(bitmaps, h);
      var vec: seq<bool> := if part in parts then parts[part] else [];
      if |vec| <= blk {
        vec := vec + seq(blk + 1 - |vec|, i => false);
      }
      vec := vec[blk := true];
      parts := parts[part := vec];
      bitmaps := bitmaps[h := parts];
    }

    /** Replaces the in-memory bitmap by what the file yields; a missing file changes nothing. */
    method LoadBitmap(h: Hash, part: nat)
      modifies this
      ensures Dirty(h, part) !in fs.files ==> bitmaps == old(bitmaps)
      ensures Dirty(h, part) in fs.files ==>
        bitmaps == old(bitmaps)[h := old(PartBitmaps(bitmaps, h))[part := LoadedBits(fs.files[Dirty(h, part)])]]
    {
      if Dirty(h, part) !in fs.files { return; }
      var file := fs.files[Dirty(h, part)];
      var bits := UnpackBits(Pread(file, LoadedBytes(file), 0));
      assert Pread(file, LoadedBytes(file), 0) == file[..LoadedBytes(file)];
      bitmaps := bitmaps[h := PartBitmaps(bitmaps, h)[part := bits]];
    }

    /** Writes each non-empty bitmap of the object to its file; memory and all other files stay as they are. */
    method FlushBitmaps(h: Hash)
      modifies fs
      ensures forall n: Name :: !(n.Dirty? && n.hash == h) ==> SameAt(old(fs.files), fs.files, n)
      ensures Flushed(fs.files, bitmaps, h)
    {
      hide Encodes;
      if h !in bitmaps { return; }
      var parts := bitmaps[h];
      var todo := parts.Keys;
      while todo != {}
        invariant todo <= parts.Keys
        invariant forall n: Name :: !(n.Dirty? && n.hash == h) ==> SameAt(old(fs.files), fs.files, n)
        invariant forall p :: p in parts && p !in todo && parts[p] != [] ==>
          Dirty(h, p) in fs.files && Encodes(fs.files[Dirty(h, p)], parts[p])
        decreases |todo|
      {
        var p :| p in todo;
        if parts[p] != [] {
          var bytes := PackBits(parts[p]);
          fs.files := fs.files[Dirty(h, p) := bytes];
        }
        todo := todo - {p};
      }
    }
  }
}
