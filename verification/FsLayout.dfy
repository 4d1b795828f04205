/** Where the cache keeps its files: names, their paths, and what the prefix match of object deletion selects. */
module FsLayout {
  import opened Posix
  import opened Text

  type Hash = h: nat | h < 0x1_0000_0000_0000_0000

  /** A part's data file, a part's dirty bitmap, or the plain mirror of a path. */
  datatype Name = Data(hash: Hash, part: nat) | Dirty(hash: Hash, part: nat) | Mirror(path: string)

  predicate OfObject(n: Name, h: Hash) { !n.Mirror? && n.hash == h }

  function ShardDir(hex: string): string
    requires |hex| >= 4
  {
    hex[..2] + "/" + hex[2..4]
  }

  function FileName(n: Name): string
    requires !n.Mirror?
  {
    Hex16(n.hash) + "." + Print(n.part, 10) + (if n.Data? then ".blk" else ".dmap")
  }

  /** `data_part_path` and `bitmap_path`. */
  function PathOf(root: string, n: Name): string
    requires !n.Mirror?
  {
    Hex16Length(n.hash);
    root + "/" + ShardDir(Hex16(n.hash)) + "/" + FileName(n)
  }

  predicate StartsWith(s: string, prefix: string) { prefix <= s }

  lemma HexInjective(g: Hash, h: Hash)
    requires Hex16(g) == Hex16(h)
    ensures g == h
  {
    Hex16Value(g);
    Hex16Value(h);
  }

  /** What follows the hash in a file name tells part and kind apart. */
  lemma SuffixInjective(m: Name, n: Name)
    requires !m.Mirror? && !n.Mirror? && m.hash == n.hash && FileName(m) == FileName(n)
    ensures m == n
  {
    var s := FileName(m);
    var hex := Hex16(m.hash);
    assert s[|s| - 1] == (if m.Data? then 'k' else 'p') == (if n.Data? then 'k' else 'p');
    var ext := if m.Data? then 4 else 5;
    assert s[|hex| + 1..|s| - ext] == Print(m.part, 10);
    assert s[|hex| + 1..|s| - ext] == Print(n.part, 10);
    PrintInjective(m.part, n.part, 10);
  }

  /** Data and bitmap paths are injective in hash and part, and never equal each other. */
  lemma PathInjective(root: string, m: Name, n: Name)
    requires !m.Mirror? && !n.Mirror? && PathOf(root, m) == PathOf(root, n)
    ensures m == n
  {
    Hex16Length(m.hash);
    Hex16Length(n.hash);
    var s := PathOf(root, m);
    assert s[|root| + 7..] == FileName(m);
    assert s[|root| + 7..] == FileName(n);
    assert FileName(m)[..16] == Hex16(m.hash);
    assert FileName(n)[..16] == Hex16(n.hash);
    HexInjective(m.hash, n.hash);
    SuffixInjective(m, n);
  }

  /**
   * The paths in full: `x` is the sixteen hexadecimal digits of the hash, and its first two pairs are the two
   * directory levels.
   */
  lemma PathText(root: string, h: Hash, p: nat, x: string)
    requires |x| == 16 && AllDigits(x, 16) && Value(x, 16) == h
    ensures PathOf(root, Data(h, p)) == root + "/" + x[..2] + "/" + x[2..4] + "/" + x + "." + Print(p, 10) + ".blk"
    ensures PathOf(root, Dirty(h, p)) == root + "/" + x[..2] + "/" + x[2..4] + "/" + x + "." + Print(p, 10) + ".dmap"
  {
    hide Hex16, Value, Print;
    Hex16Length(h);
    Hex16Value(h);
    Hex16Digits(h);
    FixedWidth(x, Hex16(h), 16);
    Regroup(root, x, Print(p, 10), ".blk");
    Regroup(root, x, Print(p, 10), ".dmap");
  }

  lemma Regroup(root: string, x: string, p: string, e: string)
    requires |x| >= 4
    ensures root + "/" + (x[..2] + "/" + x[2..4]) + "/" + (x + "." + p + e) ==
            root + "/" + x[..2] + "/" + x[2..4] + "/" + x + "." + p + e
  {
  }

  /** The prefix match in `delete_object` selects exactly the files of the object. */
  lemma PrefixSelectsObject(n: Name, h: Hash)
    requires !n.Mirror?
    ensures StartsWith(FileName(n), Hex16(h)) <==> n.hash == h
  {
    Hex16Length(n.hash);
    Hex16Length(h);
    assert FileName(n)[..16] == Hex16(n.hash);
    if StartsWith(FileName(n), Hex16(h)) {
      HexInjective(n.hash, h);
    }
  }
}
