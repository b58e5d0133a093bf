/** The FINGERPRINT on literal bytes (RFC 5389, section 15.5): the last four bytes of a sealed message,
    each exclusive-or-ed with its byte of "STUN", spell the frame check sequence of all that precedes the
    attribute. */
module Fingerprints {
  import opened Words
  import opened Bytes
  import opened Crc32

  /** The bytes a FINGERPRINT is masked with. */
  const SEAL_MASK: seq<byte> := [0x53, 0x54, 0x55, 0x4E]

  /** Bit by bit: the four bytes from `i` on, unmasked and read in network order, are the number whose
      bit `j` is bit `j` of the frame check sequence of `s`. */
  ghost predicate Seals(m: seq<byte>, i: nat, s: seq<byte>) {
    && i + 4 <= |m|
    && forall k, j :: 0 <= k < 4 && 0 <= j < 8 ==>
         (Bit(m[i + k], j) != Bit(SEAL_MASK[k], j)) == FrameCheck(s)[8 * (3 - k) + j]
  }

  // ----- bits of the bytes of a number -----

  lemma {:induction false} BitOfHigher(n: nat, i: nat)
    ensures Bit(n, i + 8) == Bit(n / 0x100, i)
  {
    hide Bit;
    var n2 := n / 2 / 2;
    var n4 := n2 / 2 / 2;
    var n6 := n4 / 2 / 2;
    TwoBits(n, i + 6);
    TwoBits(n2, i + 4);
    TwoBits(n4, i + 2);
    TwoBits(n6, i);
    assert n6 / 2 / 2 == n / 0x100;
  }

  lemma TwoBits(n: nat, i: nat)
    ensures Bit(n, i + 2) == Bit(n / 2 / 2, i)
  {
    assert Bit(n, i + 2) == Bit(n / 2, i + 1);
  }

  lemma {:induction false} BitOfPart(n: nat, r: nat, q: nat, k: nat, j: nat)
    requires j < k && n == Pow2(k) * q + r
    ensures Bit(n, j) == Bit(r, j)
    decreases k
  {
    var x := Pow2(k - 1) * q;
    assert Pow2(k) * q == 2 * x;
    assert n % 2 == r % 2;
    if j > 0 {
      assert n / 2 == x + r / 2;
      BitOfPart(n / 2, r / 2, q, k - 1, j - 1);
    }
  }

  lemma {:induction false} BitOfOctet(n: nat, k: nat, j: nat)
    requires j < 8
    ensures Bit(Octet(n, k), j) == Bit(n, 8 * k + j)
    decreases k
  {
    hide Bit;
    if k == 0 {
      PowersOfTwo();
      BitOfPart(n, n % 0x100, n / 0x100, 8, j);
    } else {
      BitOfOctet(n / 0x100, k - 1, j);
      BitOfHigher(n, 8 * (k - 1) + j);
    }
  }

  // ----- the mask -----

  /** The mask of the program is the masking bytes. */
  lemma MaskBits(k: nat, j: nat)
    requires k < 4 && j < 8
    ensures RegisterBit(0x5354554E, 8 * (3 - k) + j) == Bit(SEAL_MASK[k], j)
  {
    hide RegisterBit, Bit;
    ShiftMask();
    MaskByte(0x5354554E, 0x4E, j);
    MaskByte(0x535455, 0x55, j);
    MaskByte(0x5354, 0x54, j);
    MaskByte(0x53, 0x53, j);
    if k < 3 {
      BitOfByteShift(0x5354554E, 0x535455, 8 * (2 - k) + j);
    }
    if k < 2 {
      BitOfByteShift(0x535455, 0x5354, 8 * (1 - k) + j);
    }
    if k < 1 {
      BitOfByteShift(0x5354, 0x53, j);
    }
  }

  lemma ShiftMask()
    ensures (0x5354554E as bv32) >> 8 == 0x535455
    ensures (0x535455 as bv32) >> 8 == 0x5354
    ensures (0x5354 as bv32) >> 8 == 0x53
  {
  }

  lemma MaskByte(v: bv32, b: byte, j: nat)
    requires j < 8
    requires (v == 0x5354554E && b == 0x4E) || (v == 0x535455 && b == 0x55) || (v == 0x5354 && b == 0x54)
             || (v == 0x53 && b == 0x53)
    ensures RegisterBit(v, j) == Bit(b, j)
  {
    hide RegisterBit;
    LowBits(v);
    BitsOfFour();
    assert ByteBits(b)[j] == Bit(b, j);
  }

  lemma BitsOfFour()
    ensures ByteBits(0x4E) == [false, true, true, true, false, false, true, false]
    ensures ByteBits(0x55) == [true, false, true, false, true, false, true, false]
    ensures ByteBits(0x54) == [false, false, true, false, true, false, true, false]
    ensures ByteBits(0x53) == [true, true, false, false, true, false, true, false]
  {
  }

  // ----- the seal -----

  /** The bytes written for a seal, bit by bit. */
  lemma SealBits(s: seq<byte>, k: nat, j: nat)
    requires k < 4 && j < 8
    ensures (Bit(Be4(Seal(Crc(s)))[k], j) != Bit(SEAL_MASK[k], j)) == FrameCheck(s)[8 * (3 - k) + j]
  {
    hide Bit, RegisterBit, Octet, Crc, ToWord, FrameCheck;
    var crc := Crc(s);
    var v, i := Mask(crc), 8 * (3 - k) + j;
    BitOfOctet(ToWord(v), 3 - k, j);
    BitOfWord(v, i);
    BitOfXor(crc, 0x5354554E, v, i);
    MaskBits(k, j);
    CrcIsFrameCheck(s);
    assert RegisterBits(crc)[i] == FrameCheck(s)[i];
  }

  /** The parser's comparison is that law: the four bytes are the seal of `s` iff they are its masked
      frame check sequence. */
  lemma SealMeans(m: seq<byte>, i: nat, s: seq<byte>)
    requires i + 4 <= |m|
    ensures Get4Bytes(m, i) == Seal(Crc(s)) <==> Seals(m, i, s)
  {
    hide Bit, Seal, Crc, Get4Bytes, FrameCheck, Be4;
    var b := Be4(Seal(Crc(s)));
    Be4Inverse(Seal(Crc(s)), m, i);
    forall k, j | 0 <= k < 4 && 0 <= j < 8
      ensures (Bit(b[k], j) != Bit(SEAL_MASK[k], j)) == FrameCheck(s)[8 * (3 - k) + j]
    {
      SealBits(s, k, j);
    }
    if Seals(m, i, s) {
      forall k | 0 <= k < 4
        ensures m[i + k] == b[k]
      {
        SameBitsOfByte(m[i + k], b[k], k);
      }
      assert m[i..i + 4] == b;
    }
  }

  lemma SameBitsOfByte(a: byte, b: byte, k: nat)
    requires k < 4
    requires forall j :: 0 <= j < 8 ==> (Bit(a, j) != Bit(SEAL_MASK[k], j)) == (Bit(b, j) != Bit(SEAL_MASK[k], j))
    ensures a == b
  {
    hide Bit;
    assert forall j :: 0 <= j < 8 ==> Bit(a, j) == Bit(b, j);
    SameByte(a, b);
  }
}
