/** Bytes of memory and the byte-order functions of network_utility.cpp, on a little-endian host. */
module Bytes {
  type Byte = x: int | 0 <= x < 256
  type Uint16 = x: int | 0 <= x < 0x1_0000
  type Uint32 = x: int | 0 <= x < 0x1_0000_0000

  /** The bytes of an integer as they stand in memory, and back. */
  function Memory16(v: Uint16): seq<Byte> {
    [v % 256, v / 256]
  }

  function Read16(low: Byte, high: Byte): Uint16 {
    low + 256 * high
  }

  function Memory32(v: Uint32): seq<Byte> {
    [v % 256, v / 256 % 256, v / 256 / 256 % 256, v / 256 / 256 / 256]
  }

  function Read32(b0: Byte, b1: Byte, b2: Byte, b3: Byte): Uint32 {
    b0 + 256 * (b1 + 256 * (b2 + 256 * b3))
  }

  /** The byte-order conversions: the bytes of the value in reverse order. */
  function Swap16(v: Uint16): Uint16 {
    var m := Memory16(v);
    Read16(m[1], m[0])
  }

  function Swap32(v: Uint32): Uint32 {
    var m := Memory32(v);
    Read32(m[3], m[2], m[1], m[0])
  }

  lemma Memory16Inverse(v: Uint16, low: Byte, high: Byte)
    ensures Read16(Memory16(v)[0], Memory16(v)[1]) == v
    ensures Memory16(Read16(low, high)) == [low, high]
  {
  }

  lemma Memory32Inverse(v: Uint32, b0: Byte, b1: Byte, b2: Byte, b3: Byte)
    ensures (var m := Memory32(v); Read32(m[0], m[1], m[2], m[3]) == v)
    ensures Memory32(Read32(b0, b1, b2, b3)) == [b0, b1, b2, b3]
  {
    ValueRead(v);
    LowByte(b0, b1 + 256 * (b2 + 256 * b3));
    LowByte(b1, b2 + 256 * b3);
    LowByte(b2, b3);
  }

  lemma LowByte(low: Byte, rest: nat)
    ensures (low + 256 * rest) % 256 == low && (low + 256 * rest) / 256 == rest
  {
  }

  lemma ValueRead(v: Uint32)
    ensures (var m := Memory32(v); Read32(m[0], m[1], m[2], m[3]) == v)
  {
    var high := v / 256;
    assert v == v % 256 + 256 * high;
    assert high == high % 256 + 256 * (high / 256);
    assert high / 256 == high / 256 % 256 + 256 * (high / 256 / 256);
  }

  /** toNetworkByteOrder(uint32_t), whose result type keeps 16 bits only. */
  function NetworkOrder32(v: Uint32): Uint16 {
    Swap32(v) % 0x1_0000
  }

  lemma LowHalf(b0: Byte, b1: Byte, b2: Byte, b3: Byte)
    ensures Read32(b0, b1, b2, b3) % 0x1_0000 == b0 + 256 * b1
  {
    assert Read32(b0, b1, b2, b3) == 0x1_0000 * (b2 + 256 * b3) + (b0 + 256 * b1);
  }

  /** So the 32-bit conversion to network order is undone exactly on values whose low half is zero. */
  lemma NetworkOrder32Iff(v: Uint32)
    ensures Swap32(NetworkOrder32(v)) == v <==> v % 0x1_0000 == 0
  {
    var m := Memory32(v);
    var b0, b1, b2, b3 := m[0], m[1], m[2], m[3];
    Memory32Inverse(v, b3, b2, 0, 0);
    LowHalf(b0, b1, b2, b3);
    LowHalf(b3, b2, b1, b0);
    hide Memory32;
    assert NetworkOrder32(v) == Read32(b3, b2, 0, 0);
  }

  /** Conversions to network order and to host order undo each other. */
  lemma SwapInvolution(v: Uint16, w: Uint32)
    ensures Swap16(Swap16(v)) == v
    ensures Swap32(Swap32(w)) == w
  {
    Memory16Inverse(v, v / 256, v % 256);
    var m := Memory32(w);
    Memory32Inverse(w, m[3], m[2], m[1], m[0]);
  }
}
