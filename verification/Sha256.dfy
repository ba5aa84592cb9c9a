/** The buffered SHA-256 context; the compression of one block is left abstract. */
module Sha256 {
  import opened Words
  import opened Bits
  import opened NumberTheory
  import opened Bytes

  type State = s: seq<Word> | |s| == 8 witness [0, 0, 0, 0, 0, 0, 0, 0]
  type Compression = (State, seq<byte>) -> State

  const INITIAL: State := [0x6A09E667, 0xBB67AE85, 0x3C6EF372, 0xA54FF53A, 0x510E527F, 0x9B05688C, 0x1F83D9AB, 0x5BE0CD19]

  /** Compresses whole blocks one after the other. */
  function Fold(f: Compression, s: State, msg: seq<byte>): State
    requires |msg| % 64 == 0
    decreases |msg|
  {
    if |msg| < 64 then s else Fold(f, f(s, msg[..64]), msg[64..])
  }

  lemma {:induction false} FoldConcat(f: Compression, s: State, a: seq<byte>, b: seq<byte>)
    requires |a| % 64 == 0 && |b| % 64 == 0
    ensures Fold(f, s, a + b) == Fold(f, Fold(f, s, a), b)
    decreases |a|
  {
    if |a| < 64 {
      assert a + b == b;
    } else {
      FoldConcat(f, f(s, a[..64]), a[64..], b);
      assert (a + b)[..64] == a[..64] && (a + b)[64..] == a[64..] + b;
    }
  }

  lemma FoldBlock(f: Compression, s: State, m: seq<byte>, c: nat)
    requires c % 64 == 0 && c + 64 <= |m|
    ensures Fold(f, s, m[..c + 64]) == f(Fold(f, s, m[..c]), m[c..c + 64])
  {
    var block := m[c..c + 64];
    assert m[..c + 64] == m[..c] + block;
    FoldConcat(f, s, m[..c], block);
    assert block[..64] == block;
  }

  // ---- the padded message ----

  /** n as k bytes, most significant first. */
  function BigEndian(n: nat, k: nat): (r: seq<byte>)
    ensures |r| == k
  {
    if k == 0 then [] else BigEndian(n / 256, k - 1) + [n % 256]
  }

  /** How many bytes of padding lead up to the length: a one bit and zeros up to eight bytes before a block ends. */
  function PadLength(length: nat): (p: nat)
    ensures 1 <= p <= 64 && (length + p) % 64 == 56
  {
    if length % 64 < 56 then 56 - length % 64 else 120 - length % 64
  }

  /** It is the least there is. */
  lemma PadLengthLeast(length: nat, q: nat)
    requires q >= 1 && (length + q) % 64 == 56
    ensures q >= PadLength(length)
  {
    ModSpec(length, 64);
    if q < PadLength(length) {
      var l := length % 64;
      ModShift(length + q, l + q, 64, length / 64);
      ModOf(l + q, 64, if l + q < 64 then 0 else 1, if l + q < 64 then l + q else l + q - 64);
    }
  }

  function Padding(length: nat): seq<byte> {
    [0x80] + ZeroBytes(PadLength(length) - 1) + BigEndian(8 * length % WORD64, 8)
  }

  /** The message padded to whole blocks, its length in bits at the end. */
  function Padded(msg: seq<byte>): (r: seq<byte>)
    ensures |r| % 64 == 0
  {
    PadEnds(|msg|, PadLength(|msg|));
    msg + Padding(|msg|)
  }

  lemma PadEnds(l: nat, p: nat)
    requires (l + p) % 64 == 56
    ensures (l + (p + 8)) % 64 == 0
  {
  }

  function Serialized(s: seq<Word>): seq<byte> {
    if s == [] then [] else BigEndian(s[0], 4) + Serialized(s[1..])
  }

  /** The hash of a message. */
  function Digest(f: Compression, msg: seq<byte>): seq<byte> {
    Serialized(Fold(f, INITIAL, Padded(msg)))
  }

  // ---- what the bytes are ----

  /** The message, a one bit, zeros, and the bit length in eight bytes. */
  lemma PaddedBytes(msg: seq<byte>)
    ensures (var p, n := Padded(msg), |Padded(msg)|;
             && |msg| + 9 <= n && p[..|msg|] == msg && p[|msg|] == 0x80
             && (forall j :: |msg| < j < n - 8 ==> p[j] == 0)
             && p[n - 8..] == BigEndian(8 * |msg| % 0x1_0000_0000_0000_0000, 8))
  {
    hide BigEndian, PadLength;
  }

  /** Byte j of n in k bytes. */
  lemma {:induction false} BigEndianByte(n: nat, k: nat, j: nat)
    requires j < k
    ensures BigEndian(n, k)[j] == n / Pow256(k - 1 - j) % 256
  {
    if j < k - 1 {
      BigEndianByte(n / 256, k - 1, j);
      DivideOnce(n, Pow256(k - 2 - j));
      assert BigEndian(n, k)[j] == BigEndian(n / 256, k - 1)[j];
    }
  }

  lemma DivideOnce(n: nat, q: nat)
    requires q > 0
    ensures n / 256 / q == n / (256 * q)
  {
    var a := n / 256;
    ModSpec(n, 256);
    ModSpec(a, q);
    assert 256 * (q * (a / q)) == (256 * q) * (a / q);
    ModOf(n, 256 * q, a / q, 256 * (a % q) + n % 256);
  }

  lemma {:induction false} SerializedWord(s: seq<Word>, i: nat)
    requires i < |s|
    ensures 4 * i + 4 <= |Serialized(s)|
    ensures Serialized(s)[4 * i..4 * i + 4] == BigEndian(s[i], 4)
  {
    hide BigEndian;
    if i > 0 {
      SerializedWord(s[1..], i - 1);
      assert Serialized(s)[4 * i..4 * i + 4] == Serialized(s[1..])[4 * (i - 1)..4 * (i - 1) + 4];
    } else {
      assert Serialized(s)[0..4] == BigEndian(s[0], 4);
    }
  }

  /** The digest is the state after the padded message, its words in order, each most significant byte first. */
  lemma DigestWord(f: Compression, msg: seq<byte>, i: nat)
    requires i < 8
    ensures (var s := Fold(f, [0x6A09E667, 0xBB67AE85, 0x3C6EF372, 0xA54FF53A,
                               0x510E527F, 0x9B05688C, 0x1F83D9AB, 0x5BE0CD19], Padded(msg));
             4 * i + 4 <= |Digest(f, msg)|
             && Digest(f, msg)[4 * i..4 * i + 4]
                == [s[i] / 0x100_0000 % 256, s[i] / 0x1_0000 % 256, s[i] / 256 % 256, s[i] % 256])
  {
    hide Fold, BigEndian, Padded, Serialized;
    var s := Fold(f, INITIAL, Padded(msg));
    SerializedWord(s, i);
    PutIsBigEndian(s[i]);
  }

  // ---- the length on two words ----

  /** The four bytes PUT_UINT32 writes. */
  function PutUint32(n: Word): (r: seq<byte>)
    ensures |r| == 4
  {
    [n / 0x100_0000 % 256, n / 0x1_0000 % 256, n / 256 % 256, n % 256]
  }

  lemma PutIsBigEndian(n: Word)
    ensures PutUint32(n) == BigEndian(n, 4)
  {
    var n1, n2, n3 := n / 256, n / 256 / 256, n / 256 / 256 / 256;
    assert n2 == n / 0x1_0000 && n3 == n / 0x100_0000;
    assert BigEndian(n3, 1) == [n3 % 256];
    assert BigEndian(n2, 2) == [n3 % 256, n2 % 256];
    assert BigEndian(n1, 3) == [n3 % 256, n2 % 256, n1 % 256];
  }

  lemma LastByte(h: nat, l: nat, q: nat)
    ensures (h * (256 * q) + l) / 256 == h * q + l / 256 && (h * (256 * q) + l) % 256 == l % 256
  {
    assert h * (256 * q) == 256 * (h * q);
    ModOf(h * (256 * q) + l, 256, h * q + l / 256, l % 256);
  }

  lemma {:induction false} BigEndianSplit(h: nat, l: nat, k: nat, p: nat)
    requires p == Pow256(k) && l < p
    ensures BigEndian(h * p + l, 4 + k) == BigEndian(h, 4) + BigEndian(l, k)
    decreases k
  {
    if k > 0 {
      var q := Pow256(k - 1);
      LastByte(h, l, q);
      BigEndianSplit(h, l / 256, k - 1, q);
      assert BigEndian(h, 4) + (BigEndian(l / 256, k - 1) + [l % 256])
          == BigEndian(h, 4) + BigEndian(l / 256, k - 1) + [l % 256];
    }
  }

  lemma LengthBytes(high: Word, low: Word)
    ensures PutUint32(high) + PutUint32(low) == BigEndian(high * BASE + low, 8)
  {
    hide PutUint32, BigEndian;
    PutIsBigEndian(high);
    PutIsBigEndian(low);
    assert Pow256(2) == 0x1_0000;
    assert Pow256(4) == BASE;
    BigEndianSplit(high, low, 4, BASE);
  }

  /** Shifting the two words of the total by three gives the length in bits. */
  lemma BitLength(total0: Word, total1: Word, length: nat)
    requires total1 * BASE + total0 == length % WORD64
    ensures BitOr(Shr(total0, 29), Shl(total1, 3)) < BASE
    ensures BitOr(Shr(total0, 29), Shl(total1, 3)) * BASE + Shl(total0, 3) == 8 * length % WORD64
  {
    ThreeBits();
    var q, r := total0 / 0x2000_0000, total0 % 0x2000_0000;
    var c, t := total1 * 8 / BASE, total1 * 8 % BASE;
    ModSpec(total1 * 8, BASE);
    ModSpec(total0, 0x2000_0000);
    ModOf(total0 * 8, BASE, q, 8 * r);
    ModOf(t, 8, total1 - c * 0x2000_0000, 0);
    BitOrDisjoint(q, t, 3);
    HighFits(q, t);
    ModSpec(length, WORD64);
    ModOf(8 * length, WORD64, 8 * (length / WORD64) + c, (q + t) * BASE + 8 * r);
  }

  lemma ThreeBits()
    ensures Pow2(3) == 8 && Pow2(29) == 0x2000_0000
  {
    assert Pow2(5) == 32;
    assert Pow2(13) == 0x2000;
    assert Pow2(21) == 0x20_0000;
  }

  lemma HighFits(q: nat, t: nat)
    requires q < 8 && t % 8 == 0 && t < BASE
    ensures q + t < BASE
  {
  }

  // ---- the context ----

  class Sha256Context {
    const compress: Compression
    const buffer: array<byte>
    var total0: Word
    var total1: Word
    var state: State
    ghost var message: seq<byte>  // everything fed since the start

    /** The state has taken in every whole block of m, the buffer holds the rest. */
    ghost predicate Holds(m: seq<byte>)
      reads this, buffer
    {
      && buffer.Length == 64
      && (var c := |m| - |m| % 64; state == Fold(compress, INITIAL, m[..c]) && buffer[..|m| % 64] == m[c..])
    }

    ghost predicate Valid()
      reads this, buffer
    {
      Holds(message) && total1 * BASE + total0 == |message| % WORD64
    }

    constructor (compress: Compression)
      ensures Valid() && message == [] && this.compress == compress && fresh(buffer)
    {
      this.compress := compress;
      this.buffer := new byte[64](_ => 0);
      this.total0 := 0;
      this.total1 := 0;
      this.state := INITIAL;
      this.message := [];
    }

    /** sha256_starts: forgets what was fed. */
    method Starts()
      requires buffer.Length == 64
      modifies this
      ensures Valid() && message == []
    {
      total0, total1 := 0, 0;
      state := INITIAL;
      message := [];
    }

    /** Adds to the 64-bit byte count, carrying into the upper word. */
    method AddTotal(length: Word)
      requires total1 * BASE + total0 == |message| % WORD64
      modifies this`total0, this`total1
      ensures total1 * BASE + total0 == (|message| + length) % WORD64
    {
      ghost var before, n := total1 * BASE + total0, |message|;
      ghost var high := total1;
      total0 := (total0 + length) % BASE;
      if total0 < length {
        total1 := (total1 + 1) % BASE;
      }
      CarryTotal(before - high * BASE, high, length, n);
    }

    /** Copies n bytes of the input to the buffer. */
    method Memcpy(left: nat, input: seq<byte>, from: nat, n: nat)
      requires buffer.Length == 64 && left + n <= 64 && from + n <= |input|
      modifies buffer
      ensures buffer[..left + n] == old(buffer[..left]) + input[from..from + n]
    {
      var i := 0;
      while i < n
        invariant i <= n
        invariant buffer[..left + i] == old(buffer[..left]) + input[from..from + i]
      {
        buffer[left + i] := input[from + i];
        i := i + 1;
      }
    }

    /** The blocks of m before c have been compressed. */
    ghost predicate TakenIn(m: seq<byte>, c: nat)
      reads this
    {
      c % 64 == 0 && c <= |m| && state == Fold(compress, INITIAL, m[..c])
    }

    /** sha256_process on the block of m at c. */
    method Process(data: seq<byte>, ghost m: seq<byte>, ghost c: nat)
      requires TakenIn(m, c) && c + 64 <= |m| && data == m[c..c + 64]
      modifies this`state
      ensures TakenIn(m, c + 64)
    {
      hide Fold;
      FoldBlock(compress, INITIAL, m, c);
      state := compress(state, data);
    }

    /** m without its first s + p bytes is still to come: nothing is buffered, or the start of a block that m continues. */
    ghost predicate Midway(m: seq<byte>, s: nat, p: nat, left: nat)
      reads this, buffer
    {
      && buffer.Length == 64 && s + p <= |m|
      && if left == 0 then TakenIn(m, s + p)
         else p == 0 && left == s % 64 && TakenIn(m, s - left) && buffer[..left] == m[s - left..s]
    }

    static lemma BlockCompletes(m: seq<byte>, input: seq<byte>, s: nat, left: nat)
      requires s + |input| == |m| && m[s..] == input && left <= s && left <= 64 <= left + |input|
      ensures m[s - left..s] + input[0..64 - left] == m[s - left..s - left + 64]
    {
    }

    /** Completes the buffered block if the input is long enough. */
    method TopUp(input: seq<byte>, left: nat, ghost m: seq<byte>, ghost s: nat) returns (p: nat, left': nat)
      requires s + |input| == |m| && m[s..] == input && left < 64 && Midway(m, s, 0, left)
      modifies this`state, buffer
      ensures p <= |input| && left' <= left && Midway(m, s, p, left') && (left' > 0 ==> left' + |input| < 64)
    {
      hide Fold, TakenIn;
      var fill := 64 - left;
      p, left' := 0, left;
      if left > 0 && |input| >= fill {
        Memcpy(left, input, 0, fill);
        assert buffer[..] == buffer[..64];
        BlockCompletes(m, input, s, left);
        Process(buffer[..], m, s - left);
        p := fill;
        left' := 0;
      }
    }

    /** Compresses the whole blocks of the input. */
    method WholeBlocks(input: seq<byte>, from: nat, left: nat, ghost m: seq<byte>, ghost s: nat) returns (p: nat)
      requires s + |input| == |m| && m[s..] == input && from <= |input| && Midway(m, s, from, left)
      requires left > 0 ==> left + |input| < 64
      modifies this`state
      ensures p <= |input| && |input| - p < 64 && Midway(m, s, p, left)
    {
      hide Fold;
      p := from;
      while |input| - p >= 64
        invariant p <= |input| && Midway(m, s, p, left)
      {
        assert input[p..p + 64] == m[s + p..s + p + 64];
        Process(input[p..p + 64], m, s + p);
        p := p + 64;
      }
    }

    /** Buffers what is left of the input. */
    method Keep(input: seq<byte>, p: nat, left: nat, ghost m: seq<byte>, ghost s: nat)
      requires s + |input| == |m| && m[s..] == input && p <= |input| && |input| - p < 64 && Midway(m, s, p, left)
      requires left > 0 ==> left + |input| < 64
      modifies buffer
      ensures Holds(m)
    {
      hide Fold;
      TakenInEnds(m, s, |input|, p, left);
      ghost var c := s + p - left;
      assert buffer[..left] == m[c..s + p];
      assert m[c..] == m[c..s + p] + input[p..];
      assert p < |input| || input[p..] == [];
      if p < |input| {
        Memcpy(left, input, p, |input| - p);
        assert input[p..p + (|input| - p)] == input[p..];
      }
    }

    lemma TakenInEnds(m: seq<byte>, s: nat, length: nat, p: nat, left: nat)
      requires |m| == s + length && p <= length && length - p < 64 && Midway(m, s, p, left)
      requires left > 0 ==> left + length < 64
      ensures |m| % 64 == left + length - p && s + p >= left
    {
      hide Fold;
      var c := s + p - left;
      ModSpec(s, 64);
      ModOf(|m|, 64, c / 64, left + length - p);
    }

    /** Feeds more bytes, whole blocks going straight to the compression. */
    method Update(input: seq<byte>)
      requires Valid() && |input| < BASE
      modifies this, buffer
      ensures Valid() && message == old(message) + input
    {
      hide Fold, Midway;
      if |input| == 0 {
        assert message + input == message;
        return;
      }
      var left := total0 % 64;
      LowSixBits(total0, total1, |message|);
      AddTotal(|input|);
      ghost var m := message + input;
      StartMidway(input, left);
      var p;
      p, left := TopUp(input, left, m, |message|);
      p := WholeBlocks(input, p, left, m, |message|);
      Keep(input, p, left, m, |message|);
      message := m;
    }

    lemma StartMidway(input: seq<byte>, left: nat)
      requires Holds(message) && left == |message| % 64
      ensures Midway(message + input, |message|, 0, left)
    {
      hide Fold;
      var m, c := message + input, |message| - left;
      ModShift(c, 0, 64, |message| / 64);
      assert m[..c] == message[..c] && m[c..|message|] == message[c..];
    }

    /** The end of the message: adds the padding and the length, and gives out the state. */
    method Finish() returns (digest: seq<byte>)
      requires Valid()
      modifies this, buffer
      ensures digest == Digest(compress, old(message))
    {
      hide Fold, BigEndian, Shr, Shl, BitOr, PutUint32;
      ghost var msg := message;
      BitLength(total0, total1, |message|);
      var high := BitOr(Shr(total0, 29), Shl(total1, 3));
      var low := Shl(total0, 3);
      LengthBytes(high, low);
      var msglen := PutUint32(high) + PutUint32(low);
      var last := total0 % 64;
      LowSixBits(total0, total1, |message|);
      var padn := if last < 56 then 56 - last else 120 - last;
      var sha256_padding := [0x80] + ZeroBytes(63);
      Update(sha256_padding[..padn]);
      Update(msglen);
      assert sha256_padding[..padn] == [0x80] + ZeroBytes(padn - 1);
      assert message == Padded(msg);
      assert message[..|message|] == message;
      digest := Serialize(state);
    }
  }

  /** The words of a state, each as four bytes. */
  method Serialize(state: State) returns (digest: seq<byte>)
    ensures digest == Serialized(state)
  {
    hide PutUint32, BigEndian;
    digest := [];
    var i := 0;
    while i < 8
      invariant i <= 8 && digest + Serialized(state[i..]) == Serialized(state)
    {
      PutIsBigEndian(state[i]);
      assert state[i..][1..] == state[i + 1..];
      digest := digest + PutUint32(state[i]);
      i := i + 1;
    }
  }

  lemma LowSixBits(total0: Word, total1: Word, length: nat)
    requires total1 * BASE + total0 == length % WORD64
    ensures total0 % 64 == length % 64
  {
    ModSpec(length, WORD64);
    ModShift(length, total0, 64, length / WORD64 * (WORD64 / 64) + total1 * (BASE / 64));
  }

  /** before is the lower word, high the upper one. */
  lemma CarryTotal(before: nat, high: Word, length: Word, n: nat)
    requires before < BASE && high * BASE + before == n % WORD64
    ensures var low := (before + length) % BASE;
            (if low < length then (high + 1) % BASE else high) * BASE + low == (n + length) % WORD64
  {
    ModSpec(n, WORD64);
    var q := n / WORD64;
    if before + length < BASE {
      ModOf(before + length, BASE, 0, before + length);
      ModOf(n + length, WORD64, q, high * BASE + before + length);
    } else {
      ModOf(before + length, BASE, 1, before + length - BASE);
      if high + 1 < BASE {
        ModOf(high + 1, BASE, 0, high + 1);
        ModOf(n + length, WORD64, q, (high + 1) * BASE + before + length - BASE);
      } else {
        ModOf(high + 1, BASE, 1, 0);
        ModOf(n + length, WORD64, q + 1, before + length - BASE);
      }
    }
  }

  function Joined(pieces: seq<seq<byte>>): seq<byte> {
    if pieces == [] then [] else Joined(pieces[..|pieces| - 1]) + pieces[|pieces| - 1]
  }

  /** However a message is cut into updates, the hash is that of the whole. */
  method HashPieces(compress: Compression, pieces: seq<seq<byte>>) returns (digest: seq<byte>)
    requires forall i :: 0 <= i < |pieces| ==> |pieces[i]| < BASE
    ensures digest == Digest(compress, Joined(pieces))
  {
    hide Digest, Fold;
    var ctx := new Sha256Context(compress);
    var i := 0;
    while i < |pieces|
      invariant i <= |pieces| && fresh(ctx) && fresh(ctx.buffer) && ctx.Valid()
      invariant ctx.message == Joined(pieces[..i])
    {
      ctx.Update(pieces[i]);
      assert pieces[..i + 1][..i] == pieces[..i];
      i := i + 1;
    }
    assert pieces[..|pieces|] == pieces;
    digest := ctx.Finish();
  }
}
