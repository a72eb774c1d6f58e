/** Big-endian integers of any width, as the wire format uses them. */
module BigEndian {
  import opened Frames

  function Pow256(k: nat): nat {
    if k == 0 then 1 else 256 * Pow256(k - 1)
  }

  /** The k least significant bytes of v, most significant first. */
  function Write(k: nat, v: nat): (s: seq<byte>)
    ensures |s| == k
  {
    if k == 0 then [] else Write(k - 1, v / 256) + [v % 256]
  }

  function Read(s: seq<byte>): (v: nat) {
    if |s| == 0 then 0 else 256 * Read(s[..|s| - 1]) + s[|s| - 1]
  }

  lemma {:induction false} ReadBound(s: seq<byte>)
    ensures Read(s) < Pow256(|s|)
  {
    if |s| != 0 {
      ReadBound(s[..|s| - 1]);
    }
  }

  lemma Widths()
    ensures Pow256(2) == 0x1_0000
    ensures Pow256(4) == 0x1_0000_0000
    ensures Pow256(8) == 0x1_0000_0000_0000_0000
  {
    assert Pow256(4) == 256 * 256 * Pow256(2);
    assert Pow256(6) == 256 * 256 * Pow256(4);
    assert Pow256(8) == 256 * 256 * Pow256(6);
  }

  function ReadU16(s: seq<byte>): u16
    requires |s| == 2
  {
    ReadBound(s); Widths(); Read(s)
  }

  function ReadU32(s: seq<byte>): u32
    requires |s| == 4
  {
    ReadBound(s); Widths(); Read(s)
  }

  function ReadU64(s: seq<byte>): u64
    requires |s| == 8
  {
    ReadBound(s); Widths(); Read(s)
  }

  /** Reading back what was written returns the value modulo the field's width. */
  lemma {:induction false} ReadWrite(k: nat, v: nat)
    requires v < Pow256(k)
    ensures Read(Write(k, v)) == v
  {
    if k != 0 {
      ReadWrite(k - 1, v / 256);
      var s := Write(k, v);
      assert s[..|s| - 1] == Write(k - 1, v / 256);
    }
  }

  /** Writing back what was read reproduces the bytes. */
  lemma {:induction false} WriteRead(s: seq<byte>)
    ensures Write(|s|, Read(s)) == s
  {
    if |s| != 0 {
      var init := s[..|s| - 1];
      WriteRead(init);
      assert Read(s) / 256 == Read(init) && Read(s) % 256 == s[|s| - 1];
      assert s == init + [s[|s| - 1]];
    }
  }

  lemma ReadInjective(s: seq<byte>, t: seq<byte>)
    requires |s| == |t| && Read(s) == Read(t)
    ensures s == t
  {
    WriteRead(s);
    WriteRead(t);
  }

  lemma RoundTrip16(v: u16)
    ensures ReadU16(Write(2, v)) == v
  {
    Widths(); ReadWrite(2, v);
  }

  lemma RoundTrip32(v: u32)
    ensures ReadU32(Write(4, v)) == v
  {
    Widths(); ReadWrite(4, v);
  }

  lemma RoundTrip64(v: u64)
    ensures ReadU64(Write(8, v)) == v
  {
    Widths(); ReadWrite(8, v);
  }

  lemma WriteStep(k: nat, v: nat)
    requires k > 0
    ensures Write(k, v) == Write(k - 1, v / 256) + [v % 256]
  {}

  /** Writes one field in place; every other byte of the buffer is untouched. */
  method WriteAt(dst: array<byte>, at: nat, k: nat, v: nat)
    requires at + k <= dst.Length
    modifies dst
    ensures dst[..] == old(dst[..at]) + Write(k, v) + old(dst[at + k..])
  {
    hide Write;
    var i, rest: nat := k, v;
    assert Write(k, v) == Write(i, rest) + dst[at + i..at + k];
    while i > 0
      invariant 0 <= i <= k
      invariant Write(k, v) == Write(i, rest) + dst[at + i..at + k]
      invariant dst[..at] == old(dst[..at])
      invariant dst[at + k..] == old(dst[at + k..])
    {
      ghost var was := dst[at + i..at + k];
      WriteStep(i, rest);
      i := i - 1;
      dst[at + i] := rest % 256;
      assert dst[at + i..at + k] == [(rest % 256) as byte] + was;
      rest := rest / 256;
    }
    assert Write(0, rest) == [];
    assert dst[..] == dst[..at] + dst[at..at + k] + dst[at + k..];
  }
}
