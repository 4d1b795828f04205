/** Files as byte sequences, with the positional read and write of POSIX. */
module Posix {
  type byte = bv8
  type File = seq<byte>

  datatype Option<+T> = None | Some(value: T)

  function Min(x: int, y: int): int { if x <= y then x else y }

  function Max(x: int, y: int): int { if x <= y then y else x }

  function Zeros(n: nat): (z: File)
    ensures |z| == n && forall i :: 0 <= i < n ==> z[i] == 0
  {
    seq(n, i => 0)
  }

  /** `pread`: at most `len` bytes from `off`, cut at the end of the file. */
  function Pread(f: File, len: nat, off: nat): (r: File)
    ensures |r| == if off >= |f| then 0 else Min(len, |f| - off)
    ensures forall i :: 0 <= i < |r| ==> r[i] == f[off + i]
  {
    if off >= |f| then [] else f[off..Min(off + len, |f|)]
  }

  /** `pwrite`: a write past the end fills the gap with zeros; an empty write changes nothing. */
  function Pwrite(f: File, data: File, off: nat): (g: File)
    ensures |g| == if data == [] then |f| else Max(|f|, off + |data|)
    ensures forall i :: 0 <= i < |g| ==>
      g[i] == if off <= i < off + |data| then data[i - off] else if i < |f| then f[i] else 0
  {
    if data == [] then f
    else if off >= |f| then f + Zeros(off - |f|) + data
    else f[..off] + data + (if off + |data| <= |f| then f[off + |data|..] else [])
  }

  /** The zero-padded contents: byte `i` of the file, or zero past its end. */
  function ByteOr0(f: File, i: nat): byte { if i < |f| then f[i] else 0 }
}
