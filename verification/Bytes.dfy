/** Bytes, and the little-endian numbers they make up. */
module Bytes {
  import opened NumberTheory

  type byte = b: nat | b < 256

  function Pow256(k: nat): (p: nat)
    ensures p >= 1
  {
    if k == 0 then 1 else 256 * Pow256(k - 1)
  }

  function ZeroBytes(n: nat): (z: seq<byte>)
    ensures |z| == n
  {
    seq(n, i => 0)
  }

  /** n as k bytes, least significant first. */
  function LittleEndian(n: nat, k: nat): (r: seq<byte>)
    ensures |r| == k
  {
    if k == 0 then [] else [n % 256] + LittleEndian(n / 256, k - 1)
  }

  function FromLittleEndian(s: seq<byte>): nat {
    if s == [] then 0 else s[0] + 256 * FromLittleEndian(s[1..])
  }

  /** What is written is read. */
  lemma {:induction false} LittleEndianInverse(n: nat, k: nat)
    requires n < Pow256(k)
    ensures FromLittleEndian(LittleEndian(n, k)) == n
  {
    if k > 0 {
      LittleEndianInverse(n / 256, k - 1);
      assert LittleEndian(n, k)[1..] == LittleEndian(n / 256, k - 1);
    }
  }

  lemma {:induction false} FromLittleEndianBound(s: seq<byte>)
    ensures FromLittleEndian(s) < Pow256(|s|)
  {
    if s != [] {
      FromLittleEndianBound(s[1..]);
    }
  }

  /** The numbers of one, two and four bytes. */
  lemma NumberOfBytes(s: seq<byte>)
    ensures |s| == 1 ==> FromLittleEndian(s) == s[0]
    ensures |s| == 2 ==> FromLittleEndian(s) == s[0] as nat + 0x100 * (s[1] as nat)
    ensures |s| == 4 ==> FromLittleEndian(s) == s[0] as nat + 0x100 * (s[1] as nat) + 0x1_0000 * (s[2] as nat) + 0x100_0000 * (s[3] as nat)
  {
    if |s| == 2 || |s| == 4 {
      assert s[1..][0] == s[1] && s[1..][1..] == s[2..];
    }
    if |s| == 4 {
      assert s[2..][0] == s[2] && s[2..][1..] == s[3..] && s[3..][0] == s[3] && s[3..][1..] == [];
      assert FromLittleEndian(s[3..]) == s[3] && FromLittleEndian(s[2..]) == s[2] as nat + 256 * (s[3] as nat);
    }
  }

  lemma Pow256Values()
    ensures Pow256(1) == 256 && Pow256(2) == 0x1_0000 && Pow256(3) == 0x100_0000 && Pow256(4) == 0x1_0000_0000
  {
    assert Pow256(2) == 256 * 256;
  }

  /** The sequence with some of its bytes overwritten. */
  function Overwritten(buffer: seq<byte>, at: nat, bytes: seq<byte>): (r: seq<byte>)
    requires at + |bytes| <= |buffer|
    ensures |r| == |buffer|
  {
    buffer[..at] + bytes + buffer[at + |bytes|..]
  }

  lemma OverwrittenParts(buffer: seq<byte>, at: nat, bytes: seq<byte>)
    requires at + |bytes| <= |buffer|
    ensures var r := Overwritten(buffer, at, bytes);
            && r[..at] == buffer[..at] && r[at..at + |bytes|] == bytes && r[at + |bytes|..] == buffer[at + |bytes|..]
            && r[..at + |bytes|] == buffer[..at] + bytes
  {
  }
}
