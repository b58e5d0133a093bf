/** The fixed-width unsigned integers of the program, and the bits of a byte.

    A byte is an integer below 256 and a field an integer below its bound, so that a shift is a
    division, a mask a remainder and every truncating cast an explicit `%`. Only the CRC register is
    a bit-vector. */
module Words {
  type byte = x: int | 0 <= x < 0x100
  type u16 = x: int | 0 <= x < 0x1_0000
  type u32 = x: int | 0 <= x < 0x1_0000_0000
  type u64 = x: int | 0 <= x < 0x1_0000_0000_0000_0000

  /** ':', the separator of usernames and of address keys. */
  const COLON: byte := 58

  ghost function Pow2(k: nat): nat {
    if k == 0 then 1 else 2 * Pow2(k - 1)
  }

  // ----- exclusive or of two bytes -----

  /** The `^=` of two bytes, bit by bit. */
  function Xor(a: byte, b: byte): byte {
    XorIsBelow(a, b, 8);
    XorBits(a, b, 8)
  }

  function XorBits(a: nat, b: nat, k: nat): nat {
    if k == 0 then 0 else 2 * XorBits(a / 2, b / 2, k - 1) + (if a % 2 == b % 2 then 0 else 1)
  }

  lemma {:induction false} XorIsBelow(a: nat, b: nat, k: nat)
    ensures XorBits(a, b, k) < Pow2(k)
    ensures k == 8 ==> XorBits(a, b, k) < 0x100
  {
    if k > 0 {
      XorIsBelow(a / 2, b / 2, k - 1);
    }
    if k == 8 {
      assert Pow2(5) == 32;
      assert Pow2(8) == 0x100;
    }
  }

  /** Masking a byte twice with the same byte restores it. */
  lemma XorTwice(a: byte, b: byte)
    ensures Xor(Xor(a, b), b) == a
  {
    assert Pow2(5) == 32;
    assert Pow2(8) == 0x100;
    XorBitsTwice(a, b, 8);
  }

  lemma {:induction false} XorBitsTwice(a: nat, b: nat, k: nat)
    requires a < Pow2(k)
    ensures XorBits(XorBits(a, b, k), b, k) == a
  {
    if k > 0 {
      XorBitsTwice(a / 2, b / 2, k - 1);
      Halve(XorBits(a / 2, b / 2, k - 1), XorBits(a, b, k));
    }
  }

  lemma Halve(h: nat, x: nat)
    requires x == 2 * h || x == 2 * h + 1
    ensures x / 2 == h && x % 2 == x - 2 * h
  {
  }

  // ----- between registers and numbers -----

  /** Bit `i` of a number. */
  predicate Bit(n: nat, i: nat) {
    if i == 0 then n % 2 == 1 else Bit(n / 2, i - 1)
  }

  /** A byte promoted to a 32-bit register. */
  function ToRegister(b: byte): bv32 {
    Join(Bit(b, 7), Bit(b, 6), Bit(b, 5), Bit(b, 4), Bit(b, 3), Bit(b, 2), Bit(b, 1), Bit(b, 0))
  }

  function Join(b7: bool, b6: bool, b5: bool, b4: bool, b3: bool, b2: bool, b1: bool, b0: bool): bv32 {
    (if b7 then 0x80 else 0) | (if b6 then 0x40 else 0) | (if b5 then 0x20 else 0) | (if b4 then 0x10 else 0)
    | (if b3 then 8 else 0) | (if b2 then 4 else 0) | (if b1 then 2 else 0) | (if b0 then 1 else 0)
  }

  lemma JoinFits(b7: bool, b6: bool, b5: bool, b4: bool, b3: bool, b2: bool, b1: bool, b0: bool)
    ensures Join(b7, b6, b5, b4, b3, b2, b1, b0) & 0xFF == Join(b7, b6, b5, b4, b3, b2, b1, b0)
  {
  }

  lemma JoinBits(b7: bool, b6: bool, b5: bool, b4: bool, b3: bool, b2: bool, b1: bool, b0: bool)
    ensures var v := Join(b7, b6, b5, b4, b3, b2, b1, b0);
            && (b7 <==> v & 0x80 != 0) && (b6 <==> v & 0x40 != 0) && (b5 <==> v & 0x20 != 0)
            && (b4 <==> v & 0x10 != 0) && (b3 <==> v & 8 != 0) && (b2 <==> v & 4 != 0)
            && (b1 <==> v & 2 != 0) && (b0 <==> v & 1 != 0)
  {
  }

  lemma {:induction false} SameBits(a: nat, b: nat, k: nat)
    requires a < Pow2(k) && b < Pow2(k)
    requires forall i: nat :: i < k ==> Bit(a, i) == Bit(b, i)
    ensures a == b
  {
    if k > 0 {
      forall i: nat | i < k - 1
        ensures Bit(a / 2, i) == Bit(b / 2, i)
      {
        assert Bit(a, i + 1) == Bit(b, i + 1);
      }
      assert Bit(a, 0) == Bit(b, 0);
      SameBits(a / 2, b / 2, k - 1);
    }
  }

  lemma SameByte(a: byte, b: byte)
    requires Bit(a, 7) == Bit(b, 7) && Bit(a, 6) == Bit(b, 6) && Bit(a, 5) == Bit(b, 5) && Bit(a, 4) == Bit(b, 4)
    requires Bit(a, 3) == Bit(b, 3) && Bit(a, 2) == Bit(b, 2) && Bit(a, 1) == Bit(b, 1) && Bit(a, 0) == Bit(b, 0)
    ensures a == b
  {
    assert Pow2(5) == 32;
    assert Pow2(8) == 0x100;
    SameBits(a, b, 8);
  }
}
