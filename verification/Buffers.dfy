/** In-place writes of byte ranges. */
module Buffers {
  import opened Frames

  function Zeros(n: nat): (s: seq<byte>)
    ensures |s| == n
  {
    seq(n, _ => 0)
  }

  method CopyInto(dst: array<byte>, at: nat, src: seq<byte>)
    requires at + |src| <= dst.Length
    modifies dst
    ensures dst[..] == old(dst[..at]) + src + old(dst[at + |src|..])
  {
    forall i | 0 <= i < |src| {
      dst[at + i] := src[i];
    }
  }

  method ZeroFill(dst: array<byte>, lo: nat, hi: nat)
    requires lo <= hi <= dst.Length
    modifies dst
    ensures dst[..] == old(dst[..lo]) + Zeros(hi - lo) + old(dst[hi..])
  {
    for i := lo to hi
      invariant dst[..] == old(dst[..lo]) + Zeros(i - lo) + old(dst[i..])
    {
      dst[i] := 0;
    }
  }
}
