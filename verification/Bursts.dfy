/** What the FINGERPRINT of a message detects. */
module Bursts {
  import opened Wrappers
  import opened Words
  import opened Bytes
  import opened Crc32
  import opened Attributes
  import opened Message
  import opened Encoding

  /** `m'` has the length of `m` and differs from it, but only inside the `w` bits from bit `k` on (in
      the order the checksum reads them), which lie before the closing FINGERPRINT attribute. */
  predicate Burst(m: seq<byte>, m': seq<byte>, k: nat, w: nat) {
    && |m| == |m'| >= 8 && m != m'
    && w <= 32 && k + w <= 8 * (|m| - 8)
    && forall i :: 0 <= i < 8 * |m| && !(k <= i < k + w) ==> Bits(m)[i] == Bits(m')[i]
  }

  /** Bytes that differ only inside a window of four are such a burst. */
  lemma ByteWindowIsBurst(m: seq<byte>, m': seq<byte>, k: nat, w: nat)
    requires |m| == |m'| >= 8 && m != m' && w <= 4 && k + w <= |m| - 8
    requires forall i :: 0 <= i < |m| && !(k <= i < k + w) ==> m[i] == m'[i]
    ensures Burst(m, m', 8 * k, 8 * w)
  {
    hide Bits, ByteBits;
    forall i | 0 <= i < 8 * |m| && !(8 * k <= i < 8 * k + 8 * w)
      ensures Bits(m)[i] == Bits(m')[i]
    {
      SameBit(m, m', i / 8, i % 8);
    }
  }

  /** Equal bits of equal bytes. */
  lemma SameBit(m: seq<byte>, m': seq<byte>, i: nat, j: nat)
    requires i < |m| == |m'| && j < 8 && ByteBits(m[i])[j] == ByteBits(m'[i])[j]
    ensures Bits(m)[8 * i + j] == Bits(m')[8 * i + j]
  {
    hide Bits, ByteBits;
    BitsOfByte(m, i);
    BitsOfByte(m', i);
    assert Bits(m)[8 * i + j] == Bits(m)[8 * i..8 * i + 8][j];
    assert Bits(m')[8 * i + j] == Bits(m')[8 * i..8 * i + 8][j];
  }

  lemma BurstOutsideTail(m: seq<byte>, m': seq<byte>, k: nat, w: nat)
    requires Burst(m, m', k, w)
    ensures |m| == |m'| >= 8
    ensures var n := |m| - 8;
            && m[n..] == m'[n..] && m[..n] != m'[..n] && k + w <= 8 * n && w <= 32
            && forall i :: 0 <= i < 8 * n && !(k <= i < k + w) ==> Bits(m[..n])[i] == Bits(m'[..n])[i]
  {
    hide Bits;
    var n := |m| - 8;
    CutBits(m, n);
    CutBits(m', n);
    assert Bits(m[n..]) == Bits(m'[n..]);
    BitsInjective(m[n..], m'[n..]);
    assert m == m[..n] + m[n..] && m' == m'[..n] + m'[n..];
  }

  lemma CutBits(m: seq<byte>, n: nat)
    requires n <= |m|
    ensures Bits(m[..n]) == Bits(m)[..8 * n] && Bits(m[n..]) == Bits(m)[8 * n..]
  {
    hide Bits;
    assert m == m[..n] + m[n..];
    BitsAppend(m[..n], m[n..]);
  }

  lemma BurstBreaksSeal(m: seq<byte>, m': seq<byte>, k: nat, w: nat)
    requires Burst(m, m', k, w) && SealOk(m)
    ensures !SealOk(m')
  {
    hide Crc, Seal, Get4Bytes, Bits, Burst;
    BurstOutsideTail(m, m', k, w);
    var n := |m| - 8;
    SameTail(m, m');
    BurstChangesCrc(m[..n], m'[..n], k, w);
    if SealOk(m') {
      SealInjective(Crc(m[..n]), Crc(m'[..n]));
    }
  }

  lemma SameTail(m: seq<byte>, m': seq<byte>)
    requires |m| == |m'| >= 8 && m[|m| - 8..] == m'[|m| - 8..]
    ensures Get2Bytes(m, |m| - 8) == Get2Bytes(m', |m| - 8) && Get2Bytes(m, |m| - 6) == Get2Bytes(m', |m| - 6)
    ensures Get4Bytes(m, |m| - 4) == Get4Bytes(m', |m| - 4)
  {
    var n := |m| - 8;
    forall i | n <= i < |m|
      ensures m[i] == m'[i]
    {
      assert m[i] == m[n..][i - n] && m'[i] == m'[n..][i - n];
    }
  }

  /** A burst of up to 32 bits before the FINGERPRINT of an accepted message is either rejected or
      leaves a message without a FINGERPRINT. */
  lemma BurstNeverPassesFingerprint(m: seq<byte>, m': seq<byte>, k: nat, w: nat)
    requires Parsed(m).Some? && Parsed(m).value.hasFingerprint && Burst(m, m', k, w)
    ensures Parsed(m').Some? ==> !Parsed(m').value.hasFingerprint
  {
    hide SealOk, Burst;
    FingerprintIsSealed(m);
    BurstBreaksSeal(m, m', k, w);
    if Parsed(m').Some? && Parsed(m').value.hasFingerprint {
      FingerprintIsSealed(m');
    }
  }

  lemma FingerprintIsSealed(m: seq<byte>)
    requires Parsed(m).Some?
    ensures |m| >= 20 && SplitFrom(m, 20).Some?
    ensures Parsed(m).value.hasFingerprint == EndsInFingerprint(SplitFrom(m, 20).value)
    ensures Parsed(m).value.hasFingerprint ==> SealOk(m)
  {
    hide SealOk, Interpret, LastValues, Scan, SplitFrom, HeaderPacket, Render, Get2Bytes;
    var attrs := SplitFrom(m, 20).value;
    ParsedIsMessage(m, attrs);
    FieldsAreLastOccurrences(HeaderPacket(m), attrs, 20);
    HeaderHasNone(m);
  }

  lemma HeaderHasNone(m: seq<byte>)
    requires |m| >= 20
    ensures !HeaderPacket(m).hasFingerprint
  {
  }

  // ----- which bursts are accepted -----

  /** An attribute starts at `pos`, the first of `attrs` standing at `at`. */
  predicate StartsAt(attrs: seq<Attr>, at: nat, pos: nat)
    decreases |attrs|
  {
    attrs != [] && (at == pos || StartsAt(attrs[1..], at + Size(attrs[0]), pos))
  }

  /** The last eight bytes look like a FINGERPRINT attribute. */
  predicate LooksSealed(m: seq<byte>) {
    |m| >= 28 && Get2Bytes(m, |m| - 8) == FINGERPRINT && Get2Bytes(m, |m| - 6) == 4
  }

  /** One step of the split. */
  lemma SplitStep(m: seq<byte>, pos: nat)
    requires pos < |m| && SplitFrom(m, pos).Some?
    ensures pos + 4 <= |m| && pos + 4 + Get2Bytes(m, pos + 2) + PadLen(Get2Bytes(m, pos + 2)) <= |m|
    ensures var a := AttrAt(m, pos);
            && pos + Size(a) <= |m| && SplitFrom(m, pos + Size(a)).Some?
            && SplitFrom(m, pos).value == [a] + SplitFrom(m, pos + Size(a)).value
  {
  }

  lemma SplitEnd(m: seq<byte>)
    ensures SplitFrom(m, |m|) == Some([])
  {
  }

  lemma AttrAtFields(m: seq<byte>, pos: nat)
    requires pos + 4 <= |m| && pos + 4 + Get2Bytes(m, pos + 2) + PadLen(Get2Bytes(m, pos + 2)) <= |m|
    ensures var a, n := AttrAt(m, pos), Get2Bytes(m, pos + 2);
            a.kind == Get2Bytes(m, pos) && |a.value| == n && Size(a) == 4 + n + PadLen(n)
  {
  }

  /** A message that looks sealed ends in a FINGERPRINT iff an attribute starts where it stands. */
  lemma {:induction false} SealIsLast(m: seq<byte>, pos: nat, attrs: seq<Attr>)
    requires pos <= |m| && SplitFrom(m, pos) == Some(attrs) && LooksSealed(m)
    ensures StartsAt(attrs, pos, |m| - 8) ==> EndsInFingerprint(attrs)
    ensures EndsInFingerprint(attrs) && Size(attrs[|attrs| - 1]) == 8 ==> StartsAt(attrs, pos, |m| - 8)
    decreases |attrs|
  {
    hide SplitFrom, Get2Bytes, Encode, Size;
    if pos == |m| {
      SplitEnd(m);
    } else {
      SplitStep(m, pos);
      AttrAtFields(m, pos);
      var a, rest := AttrAt(m, pos), SplitFrom(m, pos + Size(AttrAt(m, pos))).value;
      assert attrs == [a] + rest && attrs[1..] == rest;
      SealIsLast(m, pos + Size(a), rest);
      if pos + Size(a) < |m| {
        SplitStep(m, pos + Size(a));
        assert attrs[|attrs| - 1] == rest[|rest| - 1];
      } else {
        SplitEnd(m);
      }
    }
  }

  /** After a burst of up to 32 bits before the FINGERPRINT of an accepted message, the message is
      accepted iff its header is right, its attributes are legal, and none of them starts where the
      FINGERPRINT stands: exactly when the burst made an attribute swallow the FINGERPRINT. */
  lemma BurstIsAcceptedIff(m: seq<byte>, m': seq<byte>, k: nat, w: nat)
    requires Parsed(m).Some? && Parsed(m).value.hasFingerprint && Burst(m, m', k, w)
    ensures |m'| >= 28
    ensures Parsed(m').Some? <==>
              && HeaderOk(m') && SplitFrom(m', 20).Some?
              && Admissible(SplitFrom(m', 20).value) && !StartsAt(SplitFrom(m', 20).value, 20, |m'| - 8)
  {
    hide SealOk, Burst, SplitFrom, Get2Bytes, Get4Bytes, StartsAt, Size, Scan, HeaderOk, HeaderPacket, Interpret;
    FingerprintIsSealed(m);
    LooksAsSealed(m);
    BurstOutsideTail(m, m', k, w);
    SameTail(m, m');
    BurstBreaksSeal(m, m', k, w);
    if SplitFrom(m', 20).Some? {
      var attrs := SplitFrom(m', 20).value;
      SealIsLast(m', 20, attrs);
      ScanIsAdmissible(attrs, false, false);
      if Admissible(attrs) && EndsInFingerprint(attrs) {
        LastSize(attrs);
      }
    }
  }

  lemma LooksAsSealed(m: seq<byte>)
    requires Parsed(m).Some? && Parsed(m).value.hasFingerprint
    ensures LooksSealed(m) && SplitFrom(m, 20).Some?
    ensures StartsAt(SplitFrom(m, 20).value, 20, |m| - 8)
  {
    hide SplitFrom, Get2Bytes, Get4Bytes, StartsAt, Render, Encode, Parsed, Size, SealOk, Crc, Seal, HeaderPacket,
         Interpret;
    FingerprintIsSealed(m);
    var attrs := SplitFrom(m, 20).value;
    ParsedIsMessage(m, attrs);
    LastSize(attrs);
    LastStands(m, attrs);
    SealIsLast(m, 20, attrs);
  }

  lemma LastStands(m: seq<byte>, attrs: seq<Attr>)
    requires |m| >= 20 && m[20..] == Render(attrs) && EndsInFingerprint(attrs) && LengthOk(attrs[|attrs| - 1])
    ensures LooksSealed(m)
  {
    hide Render, Encode, Get2Bytes;
    var last := attrs[|attrs| - 1];
    FingerprintIsLast(m, attrs);
    LastAttribute(attrs);
    var n := |m| - 28;
    assert Size(last) == 8;
    SubSlice(m, 20, |m|, n, n + 8);
    assert m[20..][n..] == m[20..|m|][n..n + 8];
    AttrAtOfEncode(m, |m| - 8, last);
    AttrAtFields(m, |m| - 8);
  }

  lemma LastSize(attrs: seq<Attr>)
    requires Admissible(attrs) && EndsInFingerprint(attrs)
    ensures Size(attrs[|attrs| - 1]) == 8
  {
  }

  // ----- bursts that leave the attribute lengths alone -----

  /** `m'` has the length fields of `m` wherever an attribute of `m` starts. */
  ghost predicate KeepsLengths(m: seq<byte>, m': seq<byte>, attrs: seq<Attr>, at: nat)
    requires |m| == |m'|
  {
    forall pos: nat {:trigger StartsAt(attrs, at, pos)} :: StartsAt(attrs, at, pos) && pos + 4 <= |m| ==>
      m[pos + 2] == m'[pos + 2] && m[pos + 3] == m'[pos + 3]
  }

  /** Then the attributes of `m'` start where those of `m` do. */
  lemma {:induction false} SameBoundaries(m: seq<byte>, m': seq<byte>, pos: nat, attrs: seq<Attr>, at: nat)
    requires |m| == |m'| && pos <= |m| && SplitFrom(m, pos) == Some(attrs) && KeepsLengths(m, m', attrs, pos)
    ensures SplitFrom(m', pos).Some?
    ensures StartsAt(attrs, pos, at) ==> StartsAt(SplitFrom(m', pos).value, pos, at)
    decreases |attrs|
  {
    hide Encode, SplitFrom, Get2Bytes, Size;
    if pos == |m| {
      SplitEnd(m);
      SplitEnd(m');
    } else {
      SplitStep(m, pos);
      var a, rest := AttrAt(m, pos), attrs[1..];
      assert attrs == [a] + rest;
      assert rest == SplitFrom(m, pos + Size(a)).value;
      assert StartsAt(attrs, pos, pos);
      SameField(m, m', pos + 2);
      KeepsRest(m, m', attrs, pos);
      AttrAtFields(m, pos);
      AttrAtFields(m', pos);
      SameBoundaries(m, m', pos + Size(a), rest, at);
      JoinStep(m', pos);
    }
  }

  lemma KeepsRest(m: seq<byte>, m': seq<byte>, attrs: seq<Attr>, at: nat)
    requires |m| == |m'| && attrs != [] && KeepsLengths(m, m', attrs, at)
    ensures KeepsLengths(m, m', attrs[1..], at + Size(attrs[0]))
  {
    hide Size;
    var rest, next := attrs[1..], at + Size(attrs[0]);
    forall pos: nat {:trigger StartsAt(rest, next, pos)} | StartsAt(rest, next, pos) && pos + 4 <= |m|
      ensures m[pos + 2] == m'[pos + 2] && m[pos + 3] == m'[pos + 3]
    {
      assert StartsAt(attrs, at, pos);
    }
  }

  lemma SameField(m: seq<byte>, m': seq<byte>, i: nat)
    requires i + 2 <= |m| == |m'| && m[i] == m'[i] && m[i + 1] == m'[i + 1]
    ensures Get2Bytes(m, i) == Get2Bytes(m', i)
  {
  }

  lemma JoinStep(m: seq<byte>, pos: nat)
    requires pos + 4 <= |m| && pos + 4 + Get2Bytes(m, pos + 2) + PadLen(Get2Bytes(m, pos + 2)) <= |m|
    requires SplitFrom(m, pos + Size(AttrAt(m, pos))).Some?
    ensures SplitFrom(m, pos)
            == Some([AttrAt(m, pos)] + SplitFrom(m, pos + Size(AttrAt(m, pos))).value)
  {
  }

  /** A burst of up to 32 bits before the FINGERPRINT that changes no attribute's length field, but
      header, types, values or padding, makes the message unacceptable. */
  lemma BurstIsRejected(m: seq<byte>, m': seq<byte>, k: nat, w: nat)
    requires Parsed(m).Some? && Parsed(m).value.hasFingerprint && Burst(m, m', k, w)
    requires KeepsLengths(m, m', SplitFrom(m, 20).value, 20)
    ensures Parsed(m').None?
  {
    hide SealOk, Burst, StartsAt, SplitFrom, Parsed, KeepsLengths;
    LooksAsSealed(m);
    BurstOutsideTail(m, m', k, w);
    SameBoundaries(m, m', 20, SplitFrom(m, 20).value, |m| - 8);
    BurstIsAcceptedIff(m, m', k, w);
  }

  // ----- why the length fields are excluded -----

  /** The header of a Binding request with sixteen bytes of attributes, and an attribute of unknown
      type that claims `length` bytes. */
  function Opening(length: byte): seq<byte> {
    [0, 1, 0, 16] + COOKIE + [0, 0, 0, 0, 0, 0, 0, 0, 0, 0, 0, 0] + [0, 0x30, 0, length]
  }

  /** The unknown attribute has four bytes and a correct FINGERPRINT follows. */
  function Sealed(): seq<byte> {
    var s := Opening(4) + [0, 0, 0, 0];
    s + [0x80, 0x28, 0, 4] + Be4(Seal(Crc(s)))
  }

  /** The same bytes, but the unknown attribute claims the FINGERPRINT as part of its value. */
  function Swallowed(): seq<byte> {
    Opening(12) + Sealed()[24..]
  }

  /** One flipped bit in a length field can swallow the FINGERPRINT: both messages are accepted. */
  lemma LengthBurstCanPass()
    ensures Burst(Sealed(), Swallowed(), 8 * 23 + 3, 1)
    ensures Parsed(Sealed()).Some? && Parsed(Sealed()).value.hasFingerprint
    ensures Parsed(Swallowed()).Some? && !Parsed(Swallowed()).value.hasFingerprint
  {
    hide Seal, Crc, Parsed, SplitFrom, Octet, Bits, Burst;
    var m, m' := Sealed(), Swallowed();
    OneBitFlipped();
    SealedIsMessage();
    SwallowedIsMessage();
    MessageIsParsed(m, SealedAttrs());
    MessageIsParsed(m', SwallowedAttrs(m[24..]));
    FingerprintIsSealed(m);
    FingerprintIsSealed(m');
  }

  lemma OneBitFlipped()
    ensures Burst(Sealed(), Swallowed(), 8 * 23 + 3, 1)
  {
    hide Bits, ByteBits, Sealed, Swallowed;
    var m, m' := Sealed(), Swallowed();
    OneByteChanged();
    FourAndTwelve();
    forall i | 0 <= i < 8 * |m| && i != 8 * 23 + 3
      ensures Bits(m)[i] == Bits(m')[i]
    {
      SameBit(m, m', i / 8, i % 8);
    }
  }

  lemma OneByteChanged()
    ensures var m, m' := Sealed(), Swallowed();
            && |m| == |m'| == 36 && m[23] == 4 && m'[23] == 12
            && forall i :: 0 <= i < |m| && i != 23 ==> m[i] == m'[i]
  {
    hide Seal, Crc, Be4;
  }

  lemma FourAndTwelve()
    ensures forall j :: 0 <= j < 8 && j != 3 ==> ByteBits(4)[j] == ByteBits(12)[j]
  {
    assert ByteBits(4) == [false, false, true, false, false, false, false, false];
    assert ByteBits(12) == [false, false, true, true, false, false, false, false];
  }

  function SealedAttrs(): seq<Attr> {
    [Tlv(0x30, [0, 0, 0, 0], []), FingerprintAttr(Opening(4) + [0, 0, 0, 0])]
  }

  function SwallowedAttrs(value: seq<byte>): seq<Attr>
    requires |value| == 12
  {
    [Tlv(0x30, value, [])]
  }

  lemma SmallFields()
    ensures Be2(0x30) == [0, 0x30] && Be2(4) == [0, 4] && Be2(12) == [0, 12] && Be2(FINGERPRINT) == [0x80, 0x28]
  {
  }

  lemma SealedIsMessage()
    ensures IsMessage(Sealed(), SealedAttrs())
  {
    hide Seal, Crc, Be4, Octet, Be2;
    var attrs := SealedAttrs();
    SmallFields();
    assert attrs == [attrs[0]] + [attrs[1]];
    RenderAppend([attrs[0]], [attrs[1]]);
    RenderOne(attrs[0]);
    RenderOne(attrs[1]);
    assert Sealed()[..28] == Opening(4) + [0, 0, 0, 0];
  }

  lemma SwallowedIsMessage()
    ensures IsMessage(Swallowed(), SwallowedAttrs(Sealed()[24..]))
  {
    hide Seal, Crc, Be4, Octet, Be2;
    SmallFields();
    RenderOne(SwallowedAttrs(Sealed()[24..])[0]);
  }
}
