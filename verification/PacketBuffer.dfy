/** The packet buffer: a growable block of bytes with a cursor, filled by fixed-size writes and emptied by reads. */
module PacketBuffer {
  import opened NumberTheory
  import opened Bytes

  const LARGEST_LIMIT: nat := 0x7FFF_FFFF  // cursor arithmetic stays within 32 bits
  const MAX_DATA: nat := 1024 * 1024 * 16

  // ---- packets and their headers ----

  datatype Packet = Packet(opcode: byte, payload: seq<byte>)

  /** opcode in the low byte, payload size in the upper three */
  function Header(opcode: byte, dataSize: nat): nat {
    opcode + dataSize % 0x100_0000 * 256
  }

  function HeaderOpcode(header: nat): byte {
    header % 256
  }

  function HeaderSize(header: nat): nat {
    header / 256 % 0x100_0000
  }

  lemma HeaderParts(opcode: byte, dataSize: nat)
    ensures Header(opcode, dataSize) < 0x1_0000_0000
    ensures HeaderOpcode(Header(opcode, dataSize)) == opcode
    ensures HeaderSize(Header(opcode, dataSize)) == dataSize % 0x100_0000
  {
    var size := dataSize % 0x100_0000;
    ModOf(Header(opcode, dataSize), 256, size, opcode);
    ModOf(size, 0x100_0000, 0, size);
  }

  /** The bytes of a packet on the wire. */
  function Frame(p: Packet): (r: seq<byte>)
    ensures |r| == 4 + |p.payload|
  {
    LittleEndian(Header(p.opcode, |p.payload|), 4) + p.payload
  }

  /** Of the four header bytes the first is the opcode, the others the payload size from the least significant on. */
  lemma HeaderBytes(h: seq<byte>)
    requires |h| == 4
    ensures HeaderOpcode(FromLittleEndian(h)) == h[0]
    ensures HeaderSize(FromLittleEndian(h)) == h[1] as nat + 0x100 * (h[2] as nat) + 0x1_0000 * (h[3] as nat)
  {
    NumberOfBytes(h);
    var size := h[1] as nat + 0x100 * (h[2] as nat) + 0x1_0000 * (h[3] as nat);
    ModOf(FromLittleEndian(h), 256, size, h[0]);
    ModOf(size, 0x100_0000, 0, size);
  }

  /** A frame is the opcode, the payload size in three bytes, and the payload. */
  lemma FrameBytes(p: Packet)
    requires |p.payload| < 0x100_0000
    ensures Frame(p)[0] == p.opcode
    ensures Frame(p)[1] as nat + 0x100 * (Frame(p)[2] as nat) + 0x1_0000 * (Frame(p)[3] as nat) == |p.payload|
    ensures Frame(p)[4..] == p.payload
  {
    hide LittleEndian, FromLittleEndian, Header, HeaderOpcode, HeaderSize, Pow256;
    var n := |p.payload|;
    HeaderParts(p.opcode, n);
    ModOf(n, 0x100_0000, 0, n);
    Pow256Values();
    LittleEndianInverse(Header(p.opcode, n), 4);
    HeaderBytes(LittleEndian(Header(p.opcode, n), 4));
  }

  // ---- strings ----

  datatype Option<T> = None | Some(value: T)

  /** A string's bytes after their length, in one byte or two; strings have to leave room for the terminator. */
  function EncodeString(s: seq<byte>, maxStringLength: nat): Option<seq<byte>> {
    if maxStringLength == 0 || maxStringLength > 0xFFFF || |s| > maxStringLength - 1 then None
    else if maxStringLength - 1 <= 0xFF then Some(LittleEndian(|s|, 1) + s)
    else Some(LittleEndian(|s|, 2) + s)
  }

  function PrefixSize(maxStringLength: nat): nat {
    if maxStringLength <= 0x100 then 1 else 2
  }

  /** What reading a string from the front of data gives: the string and how far it reaches. */
  function DecodeString(data: seq<byte>, maxStringLength: nat): Option<(seq<byte>, nat)> {
    var k := PrefixSize(maxStringLength);
    if maxStringLength == 0 || maxStringLength > 0xFFFF || |data| < k then None
    else
      var n := FromLittleEndian(data[..k]);
      if n >= maxStringLength - 1 || k + n > |data| then None
      else Some((data[k..k + n], k + n))
  }

  /** The length goes first, in one byte when the limit is at most 256 and in two otherwise, the low one first. */
  lemma StringBytes(s: seq<byte>, maxStringLength: nat)
    ensures EncodeString(s, maxStringLength)
         == if maxStringLength == 0 || maxStringLength > 0xFFFF || |s| >= maxStringLength then None
            else if maxStringLength <= 256 then Some([|s|] + s)
            else Some([|s| % 256, |s| / 256] + s)
  {
    assert LittleEndian(|s|, 1) == [|s| % 256];
    assert LittleEndian(|s|, 2) == [|s| % 256] + LittleEndian(|s| / 256, 1);
    assert LittleEndian(|s| / 256, 1) == [|s| / 256 % 256];
    if |s| < maxStringLength <= 256 {
      ModOf(|s|, 256, 0, |s|);
    } else if |s| < maxStringLength <= 0xFFFF {
      ModOf(|s| / 256, 256, 0, |s| / 256);
      assert LittleEndian(|s|, 2) == [|s| % 256, |s| / 256];
    }
  }

  /**
   A string that was written is read back, whatever follows it, except when its
   length is the largest that writing allows: reading allows one less.
   */
  lemma StringRoundTrip(s: seq<byte>, maxStringLength: nat, rest: seq<byte>)
    requires EncodeString(s, maxStringLength).Some?
    ensures (var e := EncodeString(s, maxStringLength).value;
             && (|s| < maxStringLength - 1 ==> DecodeString(e + rest, maxStringLength) == Some((s, |e|)))
             && (|s| == maxStringLength - 1 ==> DecodeString(e + rest, maxStringLength) == None))
  {
    hide LittleEndian, FromLittleEndian, Pow256;
    var k := PrefixSize(maxStringLength);
    var e := EncodeString(s, maxStringLength).value;
    Pow256Values();
    LittleEndianInverse(|s|, k);
    assert e == LittleEndian(|s|, k) + s;
    assert (e + rest)[..k] == LittleEndian(|s|, k);
    assert (e + rest)[k..k + |s|] == s;
  }

  class PacketBuffer {
    var buffer: seq<byte>
    var parserIndex: nat
    var bufferLimit: nat
    var bufferSize: nat

    ghost predicate Valid()
      reads this
    {
      |buffer| == bufferLimit <= LARGEST_LIMIT && bufferSize <= bufferLimit && parserIndex <= bufferLimit
    }

    constructor (initialSize: nat)
      requires initialSize <= LARGEST_LIMIT
      ensures Valid() && bufferLimit == initialSize && bufferSize == 0 && parserIndex == 0
    {
      bufferLimit := initialSize;
      bufferSize := 0;
      parserIndex := 0;
      buffer := ZeroBytes(initialSize);
    }

    /** The new block starts like the old one; what lies beyond is whatever memory held. */
    method ChangeSizeLimit(sizeLimit: nat)
      requires Valid() && sizeLimit <= LARGEST_LIMIT
      modifies this
      ensures Valid() && bufferLimit == sizeLimit
      ensures bufferSize == Min(old(bufferSize), sizeLimit) && parserIndex == Min(old(parserIndex), sizeLimit)
      ensures buffer[..Min(old(bufferLimit), sizeLimit)] == old(buffer)[..Min(old(bufferLimit), sizeLimit)]
    {
      var kept := Min(bufferLimit, sizeLimit);
      bufferLimit := sizeLimit;
      bufferSize := Min(bufferSize, bufferLimit);
      parserIndex := Min(parserIndex, bufferLimit);
      ghost var example := buffer[..kept] + ZeroBytes(sizeLimit - kept);
      assert |example| == sizeLimit && example[..kept] == buffer[..kept];
      var block: seq<byte> :| |block| == sizeLimit && block[..kept] == buffer[..kept];
      buffer := block;
    }

    method BeginWritePacket(opcode: byte)
      requires Valid() && bufferLimit >= 4
      modifies this`buffer, this`parserIndex
      ensures Valid() && parserIndex == 4 && buffer == Overwritten(old(buffer), 0, LittleEndian(Header(opcode, 0), 4))
    {
      buffer := Overwritten(buffer, 0, LittleEndian(Header(opcode, 0), 4));
      parserIndex := 4;
    }

    method BeginReadPacket()
      requires Valid() && bufferLimit >= 4
      modifies this`parserIndex
      ensures Valid() && parserIndex == 4
    {
      parserIndex := 4;
    }

    /** Writes at the cursor and moves it, or reports that there is no room and does nothing. */
    method Write(bytes: seq<byte>) returns (error: bool)
      requires Valid()
      modifies this`buffer, this`parserIndex
      ensures Valid() && error == (old(parserIndex) + |bytes| > bufferLimit)
      ensures error ==> buffer == old(buffer) && parserIndex == old(parserIndex)
      ensures !error ==> parserIndex == old(parserIndex) + |bytes|
                         && buffer == Overwritten(old(buffer), old(parserIndex), bytes)
    {
      if parserIndex + |bytes| > bufferLimit {
        return true;
      }
      buffer := Overwritten(buffer, parserIndex, bytes);
      parserIndex := parserIndex + |bytes|;
      return false;
    }

    /** writeU32, writeU16 and writeU8, for k = 4, 2 and 1: reading the bytes back gives the number. */
    method WriteNumber(v: nat, k: nat) returns (error: bool)
      requires Valid() && v < Pow256(k)
      modifies this`buffer, this`parserIndex
      ensures Valid() && error == (old(parserIndex) + k > bufferLimit)
      ensures error ==> buffer == old(buffer) && parserIndex == old(parserIndex)
      ensures !error ==> parserIndex == old(parserIndex) + k
                         && buffer[..old(parserIndex)] == old(buffer[..parserIndex])
                         && buffer[parserIndex..] == old(buffer)[old(parserIndex) + k..]
                         && FromLittleEndian(buffer[old(parserIndex)..parserIndex]) == v
    {
      hide LittleEndian, FromLittleEndian;
      if parserIndex + k <= bufferLimit {
        OverwrittenParts(buffer, parserIndex, LittleEndian(v, k));
        LittleEndianInverse(v, k);
      }
      error := Write(LittleEndian(v, k));
    }

    /** readU32, readU16 and readU8: past the data they give zero and put the cursor at the end. */
    method ReadNumber(k: nat) returns (v: nat, error: bool)
      requires Valid()
      modifies this`parserIndex
      ensures Valid() && error == (old(parserIndex) + k > bufferSize)
      ensures error ==> v == 0 && parserIndex == bufferSize
      ensures !error ==> parserIndex == old(parserIndex) + k && v == FromLittleEndian(buffer[old(parserIndex)..parserIndex])
      ensures v < Pow256(k)
    {
      hide FromLittleEndian, Pow256;
      if parserIndex + k > bufferSize {
        parserIndex := bufferSize;
        return 0, true;
      }
      v := FromLittleEndian(buffer[parserIndex..parserIndex + k]);
      FromLittleEndianBound(buffer[parserIndex..parserIndex + k]);
      parserIndex := parserIndex + k;
      error := false;
    }

    /** Byte arrays of 16 megabytes and more are ignored without an error. */
    method WriteData(data: seq<byte>, error: bool) returns (error': bool)
      requires Valid()
      modifies this`buffer, this`parserIndex
      ensures Valid()
      ensures |data| >= 0x100_0000 ==> buffer == old(buffer) && parserIndex == old(parserIndex) && error' == error
      ensures |data| < 0x100_0000 ==> error' == (old(parserIndex) + |data| > bufferLimit)
      ensures error' && |data| < 0x100_0000 ==> buffer == old(buffer) && parserIndex == old(parserIndex)
      ensures !error' && |data| < 0x100_0000 ==> parserIndex == old(parserIndex) + |data|
                                                 && buffer == Overwritten(old(buffer), old(parserIndex), data)
    {
      if |data| >= MAX_DATA {
        return error;
      }
      error' := Write(data);
    }

    method ReadData(length: nat, error: bool) returns (data: seq<byte>, error': bool)
      requires Valid()
      modifies this`parserIndex
      ensures Valid()
      ensures length >= 0x100_0000 ==> data == [] && parserIndex == old(parserIndex) && error' == error
      ensures length < 0x100_0000 ==> error' == (old(parserIndex) + length > bufferSize)
      ensures error' && length < 0x100_0000 ==> data == [] && parserIndex == bufferSize
      ensures !error' && length < 0x100_0000 ==> parserIndex == old(parserIndex) + length
                                                 && data == buffer[old(parserIndex)..parserIndex]
    {
      data, error' := [], error;
      if length >= MAX_DATA {
        return;
      }
      if parserIndex + length > bufferSize {
        parserIndex := bufferSize;
        error' := true;
        return;
      }
      data := buffer[parserIndex..parserIndex + length];
      parserIndex := parserIndex + length;
      error' := false;
    }

    /** Writes the encoded string, if it is within its limit and there is room. */
    method WriteString(s: seq<byte>, maxStringLength: nat) returns (error: bool)
      requires Valid()
      modifies this`buffer, this`parserIndex
      ensures (var e := EncodeString(s, maxStringLength);
               && Valid() && error == (e.None? || old(parserIndex) + |e.value| > bufferLimit)
               && (error ==> buffer == old(buffer) && parserIndex == old(parserIndex))
               && (!error ==> parserIndex == old(parserIndex) + |e.value|
                              && buffer == Overwritten(old(buffer), old(parserIndex), e.value)))
    {
      hide LittleEndian;
      if maxStringLength == 0 || maxStringLength > 0xFFFF {
        return true;
      }
      var limit := maxStringLength - 1;
      var stringLength := |s|;
      if stringLength > limit {
        return true;
      }
      var fullLength := stringLength + (if limit <= 0xFF then 1 else 2);
      if parserIndex + fullLength > bufferLimit {
        return true;
      }
      ghost var before, at := buffer, parserIndex;
      if limit <= 0xFF {
        error := Write(LittleEndian(stringLength, 1));
      } else {
        error := Write(LittleEndian(stringLength, 2));
      }
      WriteTwice(before, at, LittleEndian(stringLength, PrefixSize(maxStringLength)), s);
      error := Write(s);
    }

    /** Reads what DecodeString finds at the cursor. */
    method ReadString(maxStringLength: nat) returns (s: seq<byte>, error: bool)
      requires Valid() && parserIndex <= bufferSize
      modifies this`parserIndex
      ensures (var d := DecodeString(buffer[old(parserIndex)..bufferSize], maxStringLength);
               && Valid() && error == d.None?
               && (!error ==> s == d.value.0 && parserIndex == old(parserIndex) + d.value.1))
    {
      hide FromLittleEndian, Pow256;
      s := [];
      if maxStringLength == 0 || maxStringLength > 0xFFFF {
        return [], true;
      }
      ghost var data, at := buffer[parserIndex..bufferSize], parserIndex;
      var limit := maxStringLength - 1;
      var stringLength;
      if limit <= 0xFF {
        stringLength, error := ReadNumber(1);
      } else {
        stringLength, error := ReadNumber(2);
      }
      if error {
        return;
      }
      assert data[..PrefixSize(maxStringLength)] == buffer[at..parserIndex];
      if stringLength >= limit {
        return [], true;
      }
      if parserIndex + stringLength > bufferSize {
        return [], true;
      }
      s := buffer[parserIndex..parserIndex + stringLength];
      SliceOfSlice(buffer, at, bufferSize, parserIndex - at, stringLength);
      parserIndex := parserIndex + stringLength;
    }

    /** Puts the payload size into the header: up to the cursor the buffer then holds the packet's frame. */
    method FinalizeWritePacket()
      requires Valid() && parserIndex >= 4
      modifies this`buffer
      ensures Valid() && buffer[4..] == old(buffer[4..])
      ensures parserIndex - 4 < 0x100_0000 ==> buffer[..parserIndex] == Frame(Packet(old(buffer[0]), buffer[4..parserIndex]))
    {
      hide LittleEndian, FromLittleEndian, HeaderOpcode;
      var opcode := HeaderOpcode(FromLittleEndian(buffer[..4]));
      FirstByte(buffer[..4]);
      var dataSize := parserIndex - 4;
      var header := Header(opcode, dataSize);
      OverwrittenParts(buffer, 0, LittleEndian(header, 4));
      buffer := Overwritten(buffer, 0, LittleEndian(header, 4));
      assert buffer[..parserIndex] == buffer[..4] + buffer[4..parserIndex];
    }
  }

  lemma WriteTwice(buffer: seq<byte>, at: nat, a: seq<byte>, b: seq<byte>)
    requires at + |a| + |b| <= |buffer|
    ensures Overwritten(Overwritten(buffer, at, a), at + |a|, b) == Overwritten(buffer, at, a + b)
  {
  }

  lemma SliceOfSlice(s: seq<byte>, from: nat, to: nat, a: nat, n: nat)
    requires from + a + n <= to <= |s|
    ensures s[from..to][a..a + n] == s[from + a..from + a + n]
  {
    var l, r := s[from..to][a..a + n], s[from + a..from + a + n];
    forall i | 0 <= i < n
      ensures l[i] == r[i]
    {
      assert s[from..to][a + i] == s[from + (a + i)];
    }
  }

  lemma FirstByte(s: seq<byte>)
    requires |s| == 4
    ensures HeaderOpcode(FromLittleEndian(s)) == s[0]
  {
    ModOf(FromLittleEndian(s), 256, FromLittleEndian(s[1..]), s[0]);
  }
}
