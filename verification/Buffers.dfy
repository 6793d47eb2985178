/** Writing parts of a byte buffer in place. */
module Buffers {
  import opened Arith
  import opened Bytes

  /** `pre` with `part` written at `at`. */
  function Splice(pre: seq<byte>, at: nat, part: seq<byte>): (r: seq<byte>)
    requires at + |part| <= |pre|
    ensures |r| == |pre|
  {
    pre[..at] + part + pre[at + |part|..]
  }

  lemma SpliceTwice(pre: seq<byte>, at: nat, a: seq<byte>, b: seq<byte>)
    requires at + |a| + |b| <= |pre|
    ensures Splice(Splice(pre, at, a), at + |a|, b) == Splice(pre, at, a + b)
  {
  }

  lemma SpliceByte(pre: seq<byte>, at: nat, part: seq<byte>, b: byte)
    requires at + |part| < |pre|
    ensures Splice(pre, at, part)[at + |part| := b] == Splice(pre, at, part + [b])
  {
  }

  lemma SpliceNothing(pre: seq<byte>, at: nat)
    requires at <= |pre|
    ensures Splice(pre, at, []) == pre
  {
  }

  function RowStart(row: nat, w: nat): nat { row * w }

  lemma RowEnd(row: nat, rows: nat, w: nat, room: nat)
    requires row < rows && rows * w <= room
    ensures row * w + w == (row + 1) * w <= room
  {
    MulMono(row + 1, rows, w);
  }

  lemma SliceGrows(src: seq<byte>, from: nat, k: nat)
    requires from + k < |src|
    ensures src[from..from + k] + [src[from + k]] == src[from..from + k + 1]
  {
  }

  /** `memcpy(dst + at, src + from, n)`. */
  method CopyBytes(dst: array<byte>, at: nat, src: seq<byte>, from: nat, n: nat)
    requires at + n <= dst.Length && from + n <= |src|
    modifies dst
    ensures dst[..] == Splice(old(dst[..]), at, src[from..from + n])
  {
    ghost var pre := dst[..];
    SpliceNothing(pre, at);
    for k := 0 to n
      invariant dst[..] == Splice(pre, at, src[from..from + k])
    {
      SpliceByte(pre, at, src[from..from + k], src[from + k]);
      dst[at + k] := src[from + k];
      SliceGrows(src, from, k);
    }
  }
}
