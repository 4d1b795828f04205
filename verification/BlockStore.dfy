/** The on-disk block store: part files in a file system that maps names to contents. */
module BlockStore {
  import opened Posix
  import opened Parts
  import opened Text
  import opened FsLayout

  type Files = map<Name, File>

  /** The file system below the cache root, shared by everything that opens files there. */
  class FileSystem {
    var files: Files

    constructor ()
      ensures files == map[]
    {
      files := map[];
    }
  }

  ghost predicate SameAt(files: Files, files': Files, n: Name) {
    (n in files <==> n in files') && (n in files ==> files[n] == files'[n])
  }

  /** The part files of one object. */
  function PartsOf(files: Files, h: Hash): (ps: Parts)
    ensures forall p: nat :: p in ps <==> Data(h, p) in files
    ensures forall p: nat :: p in ps ==> ps[p] == files[Data(h, p)]
  {
    map n | n in files && n.Data? && n.hash == h :: n.part := files[n]
  }

  /** The files with everything of object `h` removed. */
  function WithoutObject(files: Files, h: Hash): Files { map n | n in files && !OfObject(n, h) :: files[n] }

  lemma PartsFrame(files: Files, files': Files, h: Hash)
    requires forall p: nat :: SameAt(files, files', Data(h, p))
    ensures PartsOf(files, h) == PartsOf(files', h)
  {
    forall p: nat
      ensures p in PartsOf(files, h) <==> p in PartsOf(files', h)
      ensures p in PartsOf(files, h) ==> PartsOf(files, h)[p] == PartsOf(files', h)[p]
    {
      assert SameAt(files, files', Data(h, p));
    }
  }

  /** One directory level of the shard tree. */
  function Listing(files: Files, h: Hash): set<Name> {
    Hex16Length(h);
    set n | n in files && !n.Mirror? && SameShard(n, h)
  }

  predicate SameShard(n: Name, h: Hash)
    requires !n.Mirror?
  {
    Hex16Length(h);
    Hex16Length(n.hash);
    ShardDir(Hex16(n.hash)) == ShardDir(Hex16(h))
  }

  class BlockStore {
    const fs: FileSystem

    constructor (fs: FileSystem)
      ensures this.fs == fs
    {
      this.fs := fs;
    }

    /** `None` is the negative result of a failed `open`. */
    method Read(h: Hash, len: nat, off: nat) returns (r: Option<File>)
      ensures r == StoreRead(PartsOf(fs.files, h), len, off)
    {
      var partIdx, partOff := off / P, off % P;
      if Data(h, partIdx) !in fs.files { return None; }
      r := Some(Pread(fs.files[Data(h, partIdx)], len, partOff));
    }

    method Write(h: Hash, data: File, off: nat)
      modifies fs
      ensures PartsOf(fs.files, h) == StoreWrite(old(PartsOf(fs.files, h)), data, off)
      ensures forall n :: n != Data(h, off / P) ==> SameAt(old(fs.files), fs.files, n)
    {
      var partIdx, partOff := off / P, off % P;
      var name := Data(h, partIdx);
      var before := if name in fs.files then fs.files[name] else [];
      fs.files := fs.files[name := Pwrite(before, data, partOff)];
      assert PartsOf(fs.files, h) == StoreWrite(old(PartsOf(fs.files, h)), data, off);
    }

    /** Removes every file in the shard directory whose name starts with the hash: all of the object's, no other's. */
    method DeleteObject(h: Hash)
      modifies fs
      ensures fs.files == WithoutObject(old(fs.files), h)
      ensures forall p: nat :: Data(h, p) !in fs.files && Dirty(h, p) !in fs.files
      ensures forall n: Name :: n.Mirror? || n.hash != h ==> SameAt(old(fs.files), fs.files, n)
    {
      var todo := Listing(fs.files, h);
      ghost var all := fs.files;
      while todo != {}
        invariant todo <= all.Keys && fs.files.Keys <= all.Keys
        invariant forall n :: n in fs.files ==> fs.files[n] == all[n]
        invariant forall n :: n in all && n !in fs.files ==> OfObject(n, h)
        invariant forall n :: n in todo ==> !n.Mirror?
        invariant forall n :: n in all && OfObject(n, h) ==> n in todo || n !in fs.files
        decreases |todo|
      {
        var n :| n in todo;
        PrefixSelectsObject(n, h);
        if StartsWith(FileName(n), Hex16(h)) {
          fs.files := fs.files - {n};
        }
        todo := todo - {n};
      }
    }
  }
}
