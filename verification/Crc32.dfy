/** `Utils::Crypto::GetCRC32`, and what it computes: the remainder of a polynomial long division. */
module Crc32 {
  import opened Words
  import opened CrcTable
  import opened Division

  /** The register after the bytes `s`, one table look-up per byte. */
  function Run(s: seq<byte>): bv32 {
    if s == [] then 0xFFFFFFFF else NextByte(Run(s[..|s| - 1]), s[|s| - 1])
  }

  /** The loop body: `crc32Table[(crc ^ b) & 0xFF] ^ (crc >> 8)`. */
  function NextByte(crc: bv32, b: byte): bv32 {
    Mix(TableEntry(Index(crc, b)), crc)
  }

  function Index(crc: bv32, b: byte): (index: bv32)
    ensures index <= 0xFF
  {
    (crc ^ ToRegister(b)) & 0xFF
  }

  function Mix(entry: bv32, crc: bv32): bv32 {
    entry ^ (crc >> 8)
  }

  /** `crc ^ ~0U`. */
  function Complement(v: bv32): bv32 {
    v ^ 0xFFFFFFFF
  }

  function Crc(s: seq<byte>): bv32 {
    Complement(Run(s))
  }

  method GetCRC32(data: array<byte>, size: nat) returns (result: bv32)
    requires size <= data.Length
    ensures result == Crc(data[..size])
  {
    hide NextByte;
    var crc: bv32 := 0xFFFFFFFF;
    var p, n := 0, size;
    while n > 0
      invariant p + n == size
      invariant crc == Run(data[..p])
    {
      assert data[..p + 1] == data[..p] + [data[p]];
      crc := NextByte(crc, data[p]);
      p, n := p + 1, n - 1;
    }
    result := Complement(crc);
  }

  /** The number put on the wire: `GetCRC32(data, size) ^ 0x5354554e` (RFC 5389, section 15.5). */
  function Seal(crc: bv32): u32 {
    ToWord(Mask(crc))
  }

  function Mask(crc: bv32): bv32 {
    crc ^ 0x5354554E
  }

  // ----- the definition -----

  /** A byte enters the division lowest bit first. */
  function ByteBits(b: byte): (bits: seq<bool>)
    ensures |bits| == 8
  {
    [Bit(b, 0), Bit(b, 1), Bit(b, 2), Bit(b, 3), Bit(b, 4), Bit(b, 5), Bit(b, 6), Bit(b, 7)]
  }

  function Bits(s: seq<byte>): (bits: seq<bool>)
    ensures |bits| == 8 * |s|
  {
    if s == [] then [] else Bits(s[..|s| - 1]) + ByteBits(s[|s| - 1])
  }

  /** The frame check sequence: complement the first 32 bits of the message, append 32 zeros, divide
      by the generator, and complement the remainder. */
  function FrameCheck(s: seq<byte>): (bits: seq<bool>)
    ensures |bits| == 32
  {
    XorPrefix(Remainder(XorPrefix(Bits(s) + Zeros(32), Ones(32))), Ones(32))
  }

  // ----- registers as bit strings, lowest bit (highest power) first -----

  predicate RegisterBit(v: bv32, j: nat)
    decreases j
  {
    if j == 0 then v & 1 == 1 else RegisterBit(v >> 1, j - 1)
  }

  function RegisterBits(v: bv32): (r: Register)
    ensures forall j :: 0 <= j < 32 ==> r[j] == RegisterBit(v, j)
  {
    seq(32, j requires 0 <= j < 32 => RegisterBit(v, j))
  }

  lemma FirstBit(v: bv32)
    ensures RegisterBit(v, 0) <==> v & 1 == 1
  {
  }

  lemma LaterBit(v: bv32, w: bv32, j: nat)
    requires w == v >> 1
    ensures RegisterBit(v, j + 1) == RegisterBit(w, j)
  {
  }

  lemma ShiftOfXor(a: bv32, b: bv32)
    ensures (a ^ b) >> 1 == (a >> 1) ^ (b >> 1)
  {
  }

  lemma LowBitOfXor(a: bv32, b: bv32)
    ensures (a ^ b) & 1 == 1 <==> ((a & 1 == 1) != (b & 1 == 1))
  {
  }

  lemma {:induction false} BitOfXor(a: bv32, b: bv32, x: bv32, j: nat)
    requires x == a ^ b
    ensures RegisterBit(x, j) == (RegisterBit(a, j) != RegisterBit(b, j))
    decreases j
  {
    hide *;
    if j == 0 {
      LowBitOfXor(a, b);
      FirstBit(a);
      FirstBit(b);
      FirstBit(x);
    } else {
      ShiftOfXor(a, b);
      BitOfXor(a >> 1, b >> 1, x >> 1, j - 1);
      LaterBit(a, a >> 1, j - 1);
      LaterBit(b, b >> 1, j - 1);
      LaterBit(x, x >> 1, j - 1);
    }
  }

  lemma BitsOfXor(a: bv32, b: bv32, x: bv32)
    requires x == a ^ b
    ensures RegisterBits(x) == XorPrefix(RegisterBits(a), RegisterBits(b))
  {
    hide RegisterBit;
    forall j | 0 <= j < 32
      ensures RegisterBit(x, j) == (RegisterBit(a, j) != RegisterBit(b, j))
    {
      BitOfXor(a, b, x, j);
    }
  }

  lemma EightShifts(v: bv32, v4: bv32, w: bv32)
    requires v4 == v >> 1 >> 1 >> 1 >> 1 && w == v >> 8
    ensures w == v4 >> 1 >> 1 >> 1 >> 1
  {
  }

  lemma BitOfFourShifts(v: bv32, w: bv32, j: nat)
    requires w == v >> 1 >> 1 >> 1 >> 1
    ensures RegisterBit(v, j + 4) == RegisterBit(w, j)
  {
    hide *;
    var v1 := v >> 1;
    var v2 := v1 >> 1;
    var v3 := v2 >> 1;
    LaterBit(v, v1, j + 3);
    LaterBit(v1, v2, j + 2);
    LaterBit(v2, v3, j + 1);
    LaterBit(v3, w, j);
  }

  lemma BitOfByteShift(v: bv32, w: bv32, j: nat)
    requires w == v >> 8
    ensures RegisterBit(v, j + 8) == RegisterBit(w, j)
  {
    hide *;
    var v4 := v >> 1 >> 1 >> 1 >> 1;
    EightShifts(v, v4, w);
    BitOfFourShifts(v, v4, j + 4);
    BitOfFourShifts(v4, w, j);
  }

  lemma {:induction false} BitOfZero(j: nat)
    ensures !RegisterBit(0, j)
  {
    if j > 0 {
      BitOfZero(j - 1);
    }
  }

  lemma NoHighBits(v: bv32, j: nat)
    requires j >= 32
    ensures !RegisterBit(v, j)
  {
    hide *;
    var v1 := v >> 8;
    var v2 := v1 >> 8;
    var v3 := v2 >> 8;
    BitOfByteShift(v, v1, j - 8);
    BitOfByteShift(v1, v2, j - 16);
    BitOfByteShift(v2, v3, j - 24);
    AllShifted(v, v1, v2, v3);
    BitOfByteShift(v3, 0, j - 32);
    BitOfZero(j - 32);
  }

  lemma AllShifted(v: bv32, v1: bv32, v2: bv32, v3: bv32)
    requires v1 == v >> 8 && v2 == v1 >> 8 && v3 == v2 >> 8
    ensures v3 >> 8 == 0
  {
  }

  lemma BitsOfByteShift(v: bv32, w: bv32)
    requires w == v >> 8
    ensures RegisterBits(w) == RegisterBits(v)[8..] + Zeros(8)
  {
    hide RegisterBit;
    forall j | 0 <= j < 32
      ensures RegisterBit(w, j) == (RegisterBits(v)[8..] + Zeros(8))[j]
    {
      BitOfByteShift(v, w, j);
      if j >= 24 {
        NoHighBits(v, j + 8);
      }
    }
  }

  lemma BitsOfShift(v: bv32)
    ensures RegisterBits(v >> 1) == RegisterBits(v)[1..] + [false]
  {
    hide RegisterBit;
    forall j | 0 <= j < 32
      ensures RegisterBit(v >> 1, j) == (RegisterBits(v)[1..] + [false])[j]
    {
      LaterBit(v, v >> 1, j);
      NoHighBits(v, 32);
    }
  }

  /** The low eight bits of a register, one by one. */
  lemma LowBits(v: bv32)
    ensures RegisterBit(v, 0) <==> v & 1 != 0
    ensures RegisterBit(v, 1) <==> v & 2 != 0
    ensures RegisterBit(v, 2) <==> v & 4 != 0
    ensures RegisterBit(v, 3) <==> v & 8 != 0
    ensures RegisterBit(v, 4) <==> v & 0x10 != 0
    ensures RegisterBit(v, 5) <==> v & 0x20 != 0
    ensures RegisterBit(v, 6) <==> v & 0x40 != 0
    ensures RegisterBit(v, 7) <==> v & 0x80 != 0
  {
    hide *;
    var v4 := v >> 1 >> 1 >> 1 >> 1;
    LowFourBits(v);
    LowFourBits(v4);
    UpperNibble(v, v4);
    BitOfFourShifts(v, v4, 0);
    BitOfFourShifts(v, v4, 1);
    BitOfFourShifts(v, v4, 2);
    BitOfFourShifts(v, v4, 3);
  }

  lemma UpperNibble(v: bv32, w: bv32)
    requires w == v >> 1 >> 1 >> 1 >> 1
    ensures w & 1 != 0 <==> v & 0x10 != 0
    ensures w & 2 != 0 <==> v & 0x20 != 0
    ensures w & 4 != 0 <==> v & 0x40 != 0
    ensures w & 8 != 0 <==> v & 0x80 != 0
  {
  }

  lemma LowFourBits(v: bv32)
    ensures RegisterBit(v, 0) <==> v & 1 != 0
    ensures RegisterBit(v, 1) <==> v & 2 != 0
    ensures RegisterBit(v, 2) <==> v & 4 != 0
    ensures RegisterBit(v, 3) <==> v & 8 != 0
  {
  }

  /** The constant 0xEDB88320 is the generator without its leading term. */
  lemma Polynomial()
    ensures RegisterBits(0xEDB88320) == Generator()[1..]
  {
    hide RegisterBit;
    LowBits(0xEDB88320);
    LowBits(0xEDB883);
    LowBits(0xEDB8);
    LowBits(0xED);
    ShiftPolynomial();
    forall j | 0 <= j < 32
      ensures RegisterBit(0xEDB88320, j) == Generator()[j + 1]
    {
      if j >= 8 {
        BitOfByteShift(0xEDB88320, 0xEDB883, j - 8);
      }
      if j >= 16 {
        BitOfByteShift(0xEDB883, 0xEDB8, j - 16);
      }
      if j >= 24 {
        BitOfByteShift(0xEDB8, 0xED, j - 24);
      }
    }
  }

  lemma ShiftPolynomial()
    ensures (0xEDB88320 as bv32) >> 8 == 0xEDB883
    ensures (0xEDB883 as bv32) >> 8 == 0xEDB8
    ensures (0xEDB8 as bv32) >> 8 == 0xED
  {
  }

  lemma AllOnes()
    ensures RegisterBits(0xFFFFFFFF) == Ones(32)
  {
    hide RegisterBit;
    LowBits(0xFFFFFFFF);
    LowBits(0xFFFFFF);
    LowBits(0xFFFF);
    LowBits(0xFF);
    ShiftOnes();
    forall j | 0 <= j < 32
      ensures RegisterBit(0xFFFFFFFF, j)
    {
      if j >= 8 {
        BitOfByteShift(0xFFFFFFFF, 0xFFFFFF, j - 8);
      }
      if j >= 16 {
        BitOfByteShift(0xFFFFFF, 0xFFFF, j - 16);
      }
      if j >= 24 {
        BitOfByteShift(0xFFFF, 0xFF, j - 24);
      }
    }
  }

  lemma ShiftOnes()
    ensures (0xFFFFFFFF as bv32) >> 8 == 0xFFFFFF
    ensures (0xFFFFFF as bv32) >> 8 == 0xFFFF
    ensures (0xFFFF as bv32) >> 8 == 0xFF
    ensures (0xFF as bv32) >> 8 == 0
  {
  }

  lemma {:induction false} BitOfAnd(a: bv32, b: bv32, x: bv32, j: nat)
    requires x == a & b
    ensures RegisterBit(x, j) == (RegisterBit(a, j) && RegisterBit(b, j))
    decreases j
  {
    hide *;
    if j == 0 {
      LowBitOfAnd(a, b);
      FirstBit(a);
      FirstBit(b);
      FirstBit(x);
    } else {
      ShiftOfAnd(a, b);
      BitOfAnd(a >> 1, b >> 1, x >> 1, j - 1);
      LaterBit(a, a >> 1, j - 1);
      LaterBit(b, b >> 1, j - 1);
      LaterBit(x, x >> 1, j - 1);
    }
  }

  lemma ShiftOfAnd(a: bv32, b: bv32)
    ensures (a & b) >> 1 == (a >> 1) & (b >> 1)
  {
  }

  lemma LowBitOfAnd(a: bv32, b: bv32)
    ensures (a & b) & 1 == 1 <==> (a & 1 == 1 && b & 1 == 1)
  {
  }

  lemma BitsOfLowByte(v: bv32)
    ensures RegisterBits(v & 0xFF) == RegisterBits(v)[..8] + Zeros(24)
  {
    hide RegisterBit;
    LowBits(0xFF);
    ShiftOnes();
    forall j | 0 <= j < 32
      ensures RegisterBit(v & 0xFF, j) == (RegisterBits(v)[..8] + Zeros(24))[j]
    {
      BitOfAnd(v, 0xFF, v & 0xFF, j);
      if j >= 8 {
        BitOfByteShift(0xFF, 0, j - 8);
        BitOfZero(j - 8);
      }
    }
  }

  // ----- the table-driven loop divides -----

  lemma StepBits(v: bv32)
    ensures RegisterBits(BitStep(v)) == Step(RegisterBits(v))
  {
    hide RegisterBit, BitStep, Generator;
    Polynomial();
    BitsOfShift(v);
    BitsOfXor(v >> 1, 0xEDB88320, (v >> 1) ^ 0xEDB88320);
    FirstBit(v);
    BitStepCases(v);
  }

  lemma BitStepCases(v: bv32)
    ensures v & 1 == 1 ==> BitStep(v) == (v >> 1) ^ 0xEDB88320
    ensures v & 1 != 1 ==> BitStep(v) == v >> 1
  {
  }

  lemma EightStepsBits(v: bv32)
    ensures RegisterBits(EightSteps(v)) == Steps(RegisterBits(v), 8)
  {
    hide RegisterBits, BitStep, Step;
    var v1 := BitStep(v);
    var v2 := BitStep(v1);
    var v3 := BitStep(v2);
    var v4 := BitStep(v3);
    var v5 := BitStep(v4);
    var v6 := BitStep(v5);
    var v7 := BitStep(v6);
    StepBits(v);
    StepBits(v1);
    StepBits(v2);
    StepBits(v3);
    StepBits(v4);
    StepBits(v5);
    StepBits(v6);
    StepBits(v7);
    assert Steps(RegisterBits(v), 8) == Steps(RegisterBits(v1), 7) == Steps(RegisterBits(v2), 6)
        == Steps(RegisterBits(v3), 5) == Steps(RegisterBits(v4), 4) == Steps(RegisterBits(v5), 3)
        == Steps(RegisterBits(v6), 2) == Steps(RegisterBits(v7), 1);
  }

  lemma RegisterOfByteBits(b: byte)
    ensures RegisterBits(ToRegister(b)) == ByteBits(b) + Zeros(24)
    ensures ToRegister(b) >> 8 == 0
  {
    hide RegisterBit, Join, Bit;
    JoinIsBits(Bit(b, 7), Bit(b, 6), Bit(b, 5), Bit(b, 4), Bit(b, 3), Bit(b, 2), Bit(b, 1), Bit(b, 0));
  }

  lemma JoinIsBits(b7: bool, b6: bool, b5: bool, b4: bool, b3: bool, b2: bool, b1: bool, b0: bool)
    ensures RegisterBits(Join(b7, b6, b5, b4, b3, b2, b1, b0)) == [b0, b1, b2, b3, b4, b5, b6, b7] + Zeros(24)
    ensures Join(b7, b6, b5, b4, b3, b2, b1, b0) >> 8 == 0
  {
    hide RegisterBit, Join, RegisterBits;
    var v := Join(b7, b6, b5, b4, b3, b2, b1, b0);
    LowBits(v);
    JoinBits(b7, b6, b5, b4, b3, b2, b1, b0);
    JoinFits(b7, b6, b5, b4, b3, b2, b1, b0);
    HighPartOfByte(v);
    forall j | 8 <= j < 32
      ensures !RegisterBit(v, j)
    {
      BitOfByteShift(v, 0, j - 8);
      BitOfZero(j - 8);
    }
    BitsInOrder(v, [b0, b1, b2, b3, b4, b5, b6, b7]);
  }

  lemma BitsInOrder(v: bv32, low: seq<bool>)
    requires |low| == 8
    requires low[0] == RegisterBit(v, 0) && low[1] == RegisterBit(v, 1) && low[2] == RegisterBit(v, 2)
    requires low[3] == RegisterBit(v, 3) && low[4] == RegisterBit(v, 4) && low[5] == RegisterBit(v, 5)
    requires low[6] == RegisterBit(v, 6) && low[7] == RegisterBit(v, 7)
    requires forall j :: 8 <= j < 32 ==> !RegisterBit(v, j)
    ensures RegisterBits(v) == low + Zeros(24)
  {
    hide RegisterBit;
  }

  lemma HighPartOfByte(v: bv32)
    requires v & 0xFF == v
    ensures v >> 8 == 0
  {
  }

  lemma HighPartOfXor(a: bv32, b: bv32, x: bv32)
    requires x == a ^ b && b >> 8 == 0
    ensures x >> 8 == a >> 8
  {
  }

  /** A table look-up feeds a whole byte into the register. */
  lemma NextByteFeeds(crc: bv32, b: byte)
    ensures RegisterBits(NextByte(crc, b)) == Feed(RegisterBits(crc), ByteBits(b))
  {
    hide *;
    var x := crc ^ ToRegister(b);
    RegisterOfByteBits(b);
    HighPartOfXor(crc, ToRegister(b), x);
    NextByteBits(crc, b, x);
    FeedByte(crc, b, x);
    StepsSplit(RegisterBits(x), 8);
  }

  lemma FeedByte(crc: bv32, b: byte, x: bv32)
    requires x == crc ^ ToRegister(b)
    ensures Feed(RegisterBits(crc), ByteBits(b)) == Steps(RegisterBits(x), 8)
  {
    hide RegisterBits, RegisterBit, ToRegister, ByteBits, Steps, Feed;
    RegisterOfByteBits(b);
    BitsOfXor(crc, ToRegister(b), x);
    assert RegisterBits(x) == XorPrefix(RegisterBits(crc), ByteBits(b));
    FeedIsSteps(RegisterBits(crc), ByteBits(b));
  }

  lemma NextByteBits(crc: bv32, b: byte, x: bv32)
    requires x == crc ^ ToRegister(b) && x >> 8 == crc >> 8
    ensures RegisterBits(NextByte(crc, b))
            == XorPrefix(Steps(RegisterBits(x)[..8] + Zeros(24), 8), RegisterBits(x)[8..] + Zeros(8))
  {
    hide RegisterBits, RegisterBit, ToRegister, Index, TableEntry, EightSteps, Mix, Steps, XorPrefix;
    IndexBits(crc, b, x);
    TableIsGenerated(Index(crc, b));
    EightStepsBits(Index(crc, b));
    MixBits(TableEntry(Index(crc, b)), crc, x);
  }

  lemma IndexBits(crc: bv32, b: byte, x: bv32)
    requires x == crc ^ ToRegister(b)
    ensures RegisterBits(Index(crc, b)) == RegisterBits(x)[..8] + Zeros(24)
  {
    hide RegisterBits, RegisterBit, ToRegister;
    BitsOfLowByte(x);
  }

  lemma MixBits(entry: bv32, crc: bv32, x: bv32)
    requires x >> 8 == crc >> 8
    ensures RegisterBits(Mix(entry, crc)) == XorPrefix(RegisterBits(entry), RegisterBits(x)[8..] + Zeros(8))
  {
    hide RegisterBits, RegisterBit, XorPrefix, Mix;
    var h := crc >> 8;
    MixIs(entry, crc, h);
    BitsOfXor(entry, h, Mix(entry, crc));
    BitsOfByteShift(x, h);
  }

  lemma MixIs(entry: bv32, crc: bv32, h: bv32)
    requires h == crc >> 8
    ensures Mix(entry, crc) == entry ^ h
  {
  }

  lemma {:induction false} RunFeeds(s: seq<byte>)
    ensures RegisterBits(Run(s)) == Feed(Ones(32), Bits(s))
    decreases |s|
  {
    if s == [] {
      AllOnes();
    } else {
      var head, b := s[..|s| - 1], s[|s| - 1];
      RunFeeds(head);
      NextByteFeeds(Run(head), b);
      FeedAppend(Ones(32), Bits(head), ByteBits(b));
    }
  }

  lemma ComplementBits(v: bv32)
    ensures RegisterBits(Complement(v)) == XorPrefix(RegisterBits(v), Ones(32))
  {
    hide RegisterBits, RegisterBit, XorPrefix;
    AllOnes();
    BitsOfXor(v, 0xFFFFFFFF, Complement(v));
  }

  /** The table-driven loop computes the frame check sequence. */
  lemma CrcIsFrameCheck(s: seq<byte>)
    ensures RegisterBits(Crc(s)) == FrameCheck(s)
  {
    hide RegisterBits, RegisterBit, Run, Feed, Remainder, XorPrefix, Bits, Complement;
    RunFeeds(s);
    RegisterDivides(Ones(32), Bits(s));
    ComplementBits(Run(s));
  }

  // ----- bursts -----

  lemma {:induction false} BitsAppend(a: seq<byte>, b: seq<byte>)
    ensures Bits(a + b) == Bits(a) + Bits(b)
    decreases |b|
  {
    if b == [] {
      assert a + b == a;
    } else {
      var init := b[..|b| - 1];
      assert (a + b)[..|a + b| - 1] == a + init;
      BitsAppend(a, init);
    }
  }

  lemma {:induction false} BitsInjective(a: seq<byte>, b: seq<byte>)
    requires |a| == |b| && Bits(a) == Bits(b)
    ensures a == b
    decreases |a|
  {
    if a != [] {
      var n := |a| - 1;
      assert Bits(a)[..8 * n] == Bits(a[..n]) && Bits(b)[..8 * n] == Bits(b[..n]);
      BitsInjective(a[..n], b[..n]);
      assert Bits(a)[8 * n..] == ByteBits(a[n]) && Bits(b)[8 * n..] == ByteBits(b[n]);
      SameByteBits(a[n], b[n]);
    }
  }

  lemma SameByteBits(a: byte, b: byte)
    requires ByteBits(a) == ByteBits(b)
    ensures a == b
  {
    var p, q := ByteBits(a), ByteBits(b);
    assert p[0] == q[0] && p[1] == q[1] && p[2] == q[2] && p[3] == q[3];
    assert p[4] == q[4] && p[5] == q[5] && p[6] == q[6] && p[7] == q[7];
    SameByte(a, b);
  }

  lemma Uncomplement(x: bv32, y: bv32)
    requires Complement(x) == Complement(y)
    ensures x == y
  {
  }

  /** A burst of at most 32 consecutive bits, at any bit offset, always changes the checksum. */
  lemma BurstChangesCrc(s: seq<byte>, t: seq<byte>, k: nat, w: nat)
    requires |s| == |t| && s != t && w <= 32 && k + w <= 8 * |s|
    requires forall i :: 0 <= i < 8 * |s| && !(k <= i < k + w) ==> Bits(s)[i] == Bits(t)[i]
    ensures Crc(s) != Crc(t)
  {
    hide Run, Bits, Complement, RegisterBits, Feed;
    if Bits(s) == Bits(t) {
      BitsInjective(s, t);
    }
    WindowChangesRegister(Ones(32), Bits(s), Bits(t), k, w);
    RunFeeds(s);
    RunFeeds(t);
    if Crc(s) == Crc(t) {
      Uncomplement(Run(s), Run(t));
    }
  }

  /** Where the bits of a byte stand. */
  lemma BitsOfByte(s: seq<byte>, i: nat)
    requires i < |s|
    ensures Bits(s)[8 * i..8 * i + 8] == ByteBits(s[i])
  {
    hide ByteBits, Bits;
    assert s == s[..i] + [s[i]] + s[i + 1..];
    BitsAppend(s[..i] + [s[i]], s[i + 1..]);
    BitsAppend(s[..i], [s[i]]);
    BitsOfOne(s[i]);
    Middle(Bits(s[..i]), ByteBits(s[i]), Bits(s[i + 1..]), 8 * i);
  }

  lemma Middle(a: seq<bool>, b: seq<bool>, c: seq<bool>, n: nat)
    requires n == |a|
    ensures (a + b + c)[n..n + |b|] == b
  {
  }

  lemma BitsOfOne(b: byte)
    ensures Bits([b]) == ByteBits(b)
  {
    assert [b][..0] == [];
  }

  // ----- registers as numbers -----

  /** The number the low `k` bits of a register spell, lowest bit first. */
  function Number(v: bv32, k: nat): nat {
    if k == 0 then 0 else 2 * Number(v >> 1, k - 1) + (if v & 1 == 1 then 1 else 0)
  }

  /** The number a register holds. */
  function ToWord(v: bv32): u32 {
    NumberBound(v, 32);
    PowersOfTwo();
    Number(v, 32)
  }

  lemma {:induction false} NumberBound(v: bv32, k: nat)
    ensures Number(v, k) < Pow2(k)
  {
    if k > 0 {
      NumberBound(v >> 1, k - 1);
    }
  }

  lemma PowersOfTwo()
    ensures Pow2(8) == 0x100 && Pow2(32) == 0x1_0000_0000
  {
    assert Pow2(4) == 0x10;
    assert Pow2(8) == 0x100;
    assert Pow2(12) == 0x1000;
    assert Pow2(16) == 0x1_0000;
    assert Pow2(20) == 0x10_0000;
    assert Pow2(24) == 0x100_0000;
    assert Pow2(28) == 0x1000_0000;
  }

  lemma {:induction false} BitOfNumber(v: bv32, k: nat, j: nat)
    requires j < k
    ensures Bit(Number(v, k), j) == RegisterBit(v, j)
    decreases k
  {
    var n := Number(v >> 1, k - 1);
    Halve(n, Number(v, k));
    if j > 0 {
      BitOfNumber(v >> 1, k - 1, j - 1);
    }
  }

  /** The bits of the number are the bits of the register. */
  lemma BitOfWord(v: bv32, j: nat)
    requires j < 32
    ensures Bit(ToWord(v), j) == RegisterBit(v, j)
  {
    hide Number, Bit, RegisterBit;
    BitOfNumber(v, 32, j);
  }

  lemma NoBits(x: bv32)
    requires forall j :: 0 <= j < 32 ==> !RegisterBit(x, j)
    ensures x == 0
  {
    hide RegisterBit;
    var x1 := x >> 8;
    var x2 := x1 >> 8;
    var x3 := x2 >> 8;
    forall j | 0 <= j < 8
      ensures !RegisterBit(x1, j) && !RegisterBit(x2, j) && !RegisterBit(x3, j)
    {
      BitOfByteShift(x, x1, j);
      BitOfByteShift(x1, x2, j);
      BitOfByteShift(x1, x2, j + 8);
      BitOfByteShift(x, x1, j + 8);
      BitOfByteShift(x, x1, j + 16);
      BitOfByteShift(x2, x3, j);
    }
    NoLowByte(x);
    NoLowByte(x1);
    NoLowByte(x2);
    NoLowByte(x3);
    FourZeroBytes(x, x1, x2, x3);
  }

  lemma NoLowByte(x: bv32)
    requires forall j :: 0 <= j < 8 ==> !RegisterBit(x, j)
    ensures x & 0xFF == 0
  {
    hide RegisterBit;
    LowBits(x);
    EightZeroBits(x);
  }

  lemma EightZeroBits(x: bv32)
    requires x & 1 == 0 && x & 2 == 0 && x & 4 == 0 && x & 8 == 0
    requires x & 0x10 == 0 && x & 0x20 == 0 && x & 0x40 == 0 && x & 0x80 == 0
    ensures x & 0xFF == 0
  {
  }

  lemma FourZeroBytes(x: bv32, x1: bv32, x2: bv32, x3: bv32)
    requires x1 == x >> 8 && x2 == x1 >> 8 && x3 == x2 >> 8
    requires x & 0xFF == 0 && x1 & 0xFF == 0 && x2 & 0xFF == 0 && x3 & 0xFF == 0
    ensures x == 0
  {
  }

  /** Distinct registers are distinct numbers. */
  lemma RegisterToWord(v: bv32, w: bv32)
    requires ToWord(v) == ToWord(w)
    ensures v == w
  {
    hide RegisterBit, Bit, ToWord;
    var x := v ^ w;
    forall j | 0 <= j < 32
      ensures !RegisterBit(x, j)
    {
      BitOfWord(v, j);
      BitOfWord(w, j);
      BitOfXor(v, w, x, j);
    }
    NoBits(x);
    NoDifference(v, w, x);
  }

  lemma NoDifference(v: bv32, w: bv32, x: bv32)
    requires x == v ^ w && x == 0
    ensures v == w
  {
  }

  lemma SealInjective(x: bv32, y: bv32)
    requires Seal(x) == Seal(y)
    ensures x == y
  {
    hide ToWord, Mask;
    RegisterToWord(Mask(x), Mask(y));
    Unmask(x, y);
  }

  lemma Unmask(x: bv32, y: bv32)
    requires Mask(x) == Mask(y)
    ensures x == y
  {
  }
}
