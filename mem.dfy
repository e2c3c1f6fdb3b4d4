/** The C library's memcpy and memset on byte buffers. A source buffer is
    passed as the sequence of bytes it holds when the copy starts, which is
    what memcpy reads when source and destination do not overlap. */
module Mem {

  /** memcpy(dst + at, src, |src|): bytes at .. at+|src| of `dst` become
      `src`, every other byte keeps its value. */
  method MemCpy(dst: array<bv8>, at: nat, src: seq<bv8>)
    requires at + |src| <= dst.Length
    modifies dst
    ensures forall k :: 0 <= k < dst.Length ==>
      dst[k] == if at <= k < at + |src| then src[k - at] else old(dst[k])
  {
    forall i | 0 <= i < |src| {
      dst[at + i] := src[i];
    }
  }

  /** memset(dst + at, v, n): bytes at .. at+n of `dst` become `v`, every
      other byte keeps its value. */
  method MemSet(dst: array<bv8>, at: nat, n: nat, v: bv8)
    requires at + n <= dst.Length
    modifies dst
    ensures forall k :: 0 <= k < dst.Length ==>
      dst[k] == if at <= k < at + n then v else old(dst[k])
  {
    forall i | at <= i < at + n {
      dst[i] := v;
    }
  }
}
