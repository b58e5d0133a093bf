/** What the printer writes, in literal bytes: which attributes, in which order, and every byte of
    header and values (RFC 5389, sections 6 and 15). */
module WireFormat {
  import opened Words
  import opened Bytes
  import opened Crc32
  import opened Fingerprints
  import opened Attributes
  import opened Message
  import opened Encoding
  import opened RoundTrip
  import opened Authentication
  import opened Standard
  import opened Credentials

  /** The types a message for `p` carries, in order. */
  function KindsDue(p: Packet): seq<nat> {
    (if p.username != [] then [0x0006] else [])
    + (if p.priority != 0 then [0x0024] else [])
    + (if p.iceControlling != 0 then [0x802A] else [])
    + (if p.iceControlled != 0 then [0x8029] else [])
    + (if p.hasUseCandidate then [0x0025] else [])
    + (if MappedDue(p) then [0x0020] else [])
    + (if p.klass == ErrorResponse && p.errorCode != 0 then [0x0009] else [])
    + (if p.klass != ErrorResponse && p.password != [] then [0x0008] else [])
    + [0x8028]
  }

  /** XOR-MAPPED-ADDRESS goes into the success response of a Binding request, for an IPv4 or IPv6
      address. */
  predicate MappedDue(p: Packet) {
    && p.klass == SuccessResponse && p.methodCode == 1
    && (p.xorMappedAddress.Some? && (p.xorMappedAddress.value.Inet? || p.xorMappedAddress.value.Inet6?))
  }

  function Kinds(attrs: seq<Attr>): (kinds: seq<nat>)
    ensures |kinds| == |attrs| && forall i :: 0 <= i < |attrs| ==> kinds[i] == attrs[i].kind
  {
    if attrs == [] then [] else [attrs[0].kind] + Kinds(attrs[1..])
  }

  lemma {:induction false} KindsAppend(a: seq<Attr>, b: seq<Attr>)
    ensures Kinds(a + b) == Kinds(a) + Kinds(b)
    decreases |a|
  {
    if a == [] {
      assert a + b == b;
    } else {
      assert (a + b)[1..] == a[1..] + b;
      KindsAppend(a[1..], b);
    }
  }

  lemma KindsOfOne(a: Attr)
    ensures Kinds([a]) == [a.kind as nat]
  {
  }

  /** `c` is `a` exclusive-or `b`, bit by bit. */
  ghost predicate IsXor(c: byte, a: byte, b: byte) {
    forall j :: 0 <= j < 8 ==> Bit(c, j) == (Bit(a, j) != Bit(b, j))
  }

  lemma {:induction false} BitOfXorBits(a: nat, b: nat, k: nat, j: nat)
    requires j < k
    ensures Bit(XorBits(a, b, k), j) == (Bit(a, j) != Bit(b, j))
    decreases k
  {
    Halve(XorBits(a / 2, b / 2, k - 1), XorBits(a, b, k));
    if j > 0 {
      BitOfXorBits(a / 2, b / 2, k - 1, j - 1);
    }
  }

  lemma XorIsXor(a: byte, b: byte)
    ensures IsXor(Xor(a, b), a, b)
  {
    hide Bit, XorBits;
    forall j | 0 <= j < 8
      ensures Bit(Xor(a, b), j) == (Bit(a, j) != Bit(b, j))
    {
      BitOfXorBits(a, b, 8, j);
    }
  }

  // ----- the values -----

  /** Port and address, byte by byte masked with the cookie and, for IPv6, the transaction id. */
  ghost predicate ReadsMapped(v: seq<byte>, addr: SockAddr, id: Octets12) {
    match addr
    case Inet(port, ip) => |v| == 8 && v[0] == 0 && v[1] == 1 && Masked(v[2..4], port, id) && Masked(v[4..], ip, id)
    case Inet6(port, ip) => |v| == 20 && v[0] == 0 && v[1] == 2 && Masked(v[2..4], port, id) && Masked(v[4..], ip, id)
    case OtherFamily => false
  }

  ghost predicate Masked(v: seq<byte>, plain: seq<byte>, id: Octets12) {
    |v| == |plain| <= 16 && forall i :: 0 <= i < |v| ==> IsXor(v[i], plain[i], ([0x21, 0x12, 0xA4, 0x42] + id)[i])
  }

  /** Nothing, then the hundreds and the rest of the code. */
  predicate SpellsError(v: seq<byte>, code: int) {
    |v| == 4 && v[0] == 0 && v[1] == 0 && v[2] == code / 100 % 0x100 && v[3] == code % 100
  }

  /** The value of an attribute before MESSAGE-INTEGRITY, by its type. */
  ghost predicate Due(p: Packet, kind: nat, v: seq<byte>) {
    if kind == 0x0006 then v == p.username
    else if kind == 0x0024 then ReadsFour(v, p.priority)
    else if kind == 0x802A then ReadsEight(v, p.iceControlling)
    else if kind == 0x8029 then ReadsEight(v, p.iceControlled)
    else if kind == 0x0025 then v == []
    else if kind == 0x0020 then p.xorMappedAddress.Some? && ReadsMapped(v, p.xorMappedAddress.value, p.transactionId)
    else kind == 0x0009 && SpellsError(v, p.errorCode)
  }

  ghost predicate AllDue(p: Packet, attrs: seq<Attr>) {
    forall i :: 0 <= i < |attrs| ==> Due(p, attrs[i].kind, attrs[i].value)
  }

  lemma AllDueAppend(p: Packet, a: seq<Attr>, b: seq<Attr>)
    requires AllDue(p, a) && AllDue(p, b)
    ensures AllDue(p, a + b)
  {
    hide Due;
  }

  lemma OneDue(p: Packet, a: Attr)
    requires Due(p, a.kind, a.value)
    ensures AllDue(p, [a]) && Kinds([a]) == [a.kind as nat]
  {
    hide Due;
  }

  lemma MaskedByXor(v: seq<byte>, plain: seq<byte>, mask: seq<byte>, id: Octets12)
    requires |plain| <= |mask| <= 16 && v == XorWith(plain, mask) && mask == (COOKIE + id)[..|mask|]
    ensures Masked(v, plain, id)
  {
    hide Xor, IsXor;
    forall i | 0 <= i < |v|
      ensures IsXor(v[i], plain[i], ([0x21, 0x12, 0xA4, 0x42] + id)[i])
    {
      XorIsXor(plain[i], mask[i]);
    }
  }

  lemma MappedIsDue(addr: SockAddr, id: Octets12)
    requires !addr.OtherFamily?
    ensures ReadsMapped(MappedValue(addr, id), addr, id)
  {
    hide XorWith, Masked;
    var v := MappedValue(addr, id);
    match addr
    case Inet(port, ip) =>
      FourParts([0, 1], XorWith(port, COOKIE), XorWith(ip, COOKIE), []);
      assert v == [0, 1] + XorWith(port, COOKIE) + XorWith(ip, COOKIE) + [];
      assert v[4..] == v[4..8];
      MaskedByXor(v[2..4], port, COOKIE, id);
      MaskedByXor(v[4..], ip, COOKIE, id);
    case Inet6(port, ip) =>
      FourParts([0, 2], XorWith(port, COOKIE), XorWith(ip, COOKIE + id), []);
      assert v == [0, 2] + XorWith(port, COOKIE) + XorWith(ip, COOKIE + id) + [];
      assert v[4..] == v[4..20];
      MaskedByXor(v[2..4], port, COOKIE, id);
      MaskedByXor(v[4..], ip, COOKIE + id, id);
  }

  lemma ErrorIsDue(code: u16)
    ensures SpellsError([0, 0, ErrorClass(code), ErrorNumber(code)], code)
  {
    hide ErrorNumber;
    var h := code / 100;
    ErrorParts(code, h / 0x100, h % 0x100, code % 100);
  }

  /** Each piece of the body, with its condition in literal terms. */
  lemma PiecesDue(p: Packet, pad: seq<byte>)
    requires |p.username| < 0x1_0000 && |pad| == PadLen(|p.username|)
    ensures AllDue(p, UsernameAttrs(p, pad))
    ensures Kinds(UsernameAttrs(p, pad)) == (if p.username != [] then [0x0006] else [])
    ensures AllDue(p, PriorityAttrs(p)) && Kinds(PriorityAttrs(p)) == (if p.priority != 0 then [0x0024] else [])
    ensures AllDue(p, ControllingAttrs(p))
    ensures Kinds(ControllingAttrs(p)) == (if p.iceControlling != 0 then [0x802A] else [])
    ensures AllDue(p, ControlledAttrs(p))
    ensures Kinds(ControlledAttrs(p)) == (if p.iceControlled != 0 then [0x8029] else [])
    ensures AllDue(p, CandidateAttrs(p)) && Kinds(CandidateAttrs(p)) == (if p.hasUseCandidate then [0x0025] else [])
    ensures AllDue(p, MappedAttrs(p)) && Kinds(MappedAttrs(p)) == (if MappedDue(p) then [0x0020] else [])
    ensures AllDue(p, ErrorAttrs(p))
    ensures Kinds(ErrorAttrs(p)) == (if p.klass == ErrorResponse && p.errorCode != 0 then [0x0009] else [])
  {
    hide ReadsFour, ReadsEight, ReadsMapped, SpellsError, MappedValue, ErrorClass, ErrorNumber, Get4Bytes, Get8Bytes,
         Be4, Be8, AllDue, Kinds;
    NoneDue(p);
    ReadBe4(p.priority);
    ReadsAsFields(Be4(p.priority));
    ReadBe8(p.iceControlling);
    ReadsAsFields(Be8(p.iceControlling));
    ReadBe8(p.iceControlled);
    ReadsAsFields(Be8(p.iceControlled));
    if AddsMapped(p) {
      MappedIsDue(p.xorMappedAddress.value, p.transactionId);
      OneDue(p, MappedAttrs(p)[0]);
    }
    ErrorIsDue(p.errorCode);
    if p.username != [] {
      OneDue(p, UsernameAttrs(p, pad)[0]);
    }
    if p.priority != 0 {
      OneDue(p, PriorityAttrs(p)[0]);
    }
    if p.iceControlling != 0 {
      OneDue(p, ControllingAttrs(p)[0]);
    }
    if p.iceControlled != 0 {
      OneDue(p, ControlledAttrs(p)[0]);
    }
    if p.hasUseCandidate {
      OneDue(p, CandidateAttrs(p)[0]);
    }
    if AddsError(p) {
      OneDue(p, ErrorAttrs(p)[0]);
    }
  }

  lemma NoneDue(p: Packet)
    ensures AllDue(p, []) && Kinds([]) == []
  {
  }

  lemma BodyDue(p: Packet, pad: seq<byte>)
    requires |p.username| < 0x1_0000 && |pad| == PadLen(|p.username|)
    ensures AllDue(p, BodyAttrs(p, pad))
    ensures Kinds(BodyAttrs(p, pad))
            + (if p.klass != ErrorResponse && p.password != [] then [0x0008] else []) + [0x8028] == KindsDue(p)
  {
    hide AllDue, Kinds, MappedDue, UsernameAttrs, PriorityAttrs, ControllingAttrs, ControlledAttrs, CandidateAttrs,
         MappedAttrs, ErrorAttrs;
    PiecesDue(p, pad);
    var u, pr, ci, ce := UsernameAttrs(p, pad), PriorityAttrs(p), ControllingAttrs(p), ControlledAttrs(p);
    var ca, xm, ec := CandidateAttrs(p), MappedAttrs(p), ErrorAttrs(p);
    Both(p, u, pr);
    Both(p, u + pr, ci);
    Both(p, u + pr + ci, ce);
    Both(p, u + pr + ci + ce, ca);
    Both(p, u + pr + ci + ce + ca, xm);
    Both(p, u + pr + ci + ce + ca + xm, ec);
  }

  lemma Both(p: Packet, a: seq<Attr>, b: seq<Attr>)
    requires AllDue(p, a) && AllDue(p, b)
    ensures AllDue(p, a + b) && Kinds(a + b) == Kinds(a) + Kinds(b)
  {
    AllDueAppend(p, a, b);
    KindsAppend(a, b);
  }

  lemma AllKinds(p: Packet, pad: seq<byte>, hmac: Hmac)
    requires Fits(p) && |pad| == PadLen(|p.username|)
    ensures Kinds(AllAttrs(p, pad, hmac)) == KindsDue(p)
  {
    hide BodyAttrs, Kinds, KindsDue, Unsealed, SignedPart;
    BodyDue(p, pad);
    var mac, body := hmac(p.password, SignedPart(p, pad)), BodyAttrs(p, pad);
    var fp := FingerprintAttr(Unsealed(p, pad, hmac));
    KindsAppend(body + IntegrityAttrs(p, mac), [fp]);
    KindsAppend(body, IntegrityAttrs(p, mac));
    KindsOfOne(fp);
    KindsOfOne(IntegrityAttr(mac));
    NoneDue(p);
  }

  /** Which attributes are there, type by type. */
  lemma KindsIff(p: Packet)
    ensures forall kind :: kind in KindsDue(p) <==>
              || (kind == 0x0006 && p.username != []) || (kind == 0x0024 && p.priority != 0)
              || (kind == 0x802A && p.iceControlling != 0) || (kind == 0x8029 && p.iceControlled != 0)
              || (kind == 0x0025 && p.hasUseCandidate) || (kind == 0x0020 && MappedDue(p))
              || (kind == 0x0009 && p.klass == ErrorResponse && p.errorCode != 0)
              || (kind == 0x0008 && p.klass != ErrorResponse && p.password != []) || kind == 0x8028
  {
    hide MappedDue;
  }

  // ----- the message -----

  /** The header: type bits of class and method, length of what follows, 21 12 A4 42, transaction id. */
  ghost predicate HeadDue(w: seq<byte>, p: Packet) {
    && |w| >= 20
    && w[0] == p.methodCode / 0x80 % 0x20 * 2
               + (if p.klass == SuccessResponse || p.klass == ErrorResponse then 1 else 0)
    && w[1] == p.methodCode / 0x10 % 8 * 0x20 + (if p.klass == Indication || p.klass == ErrorResponse then 0x10 else 0)
               + p.methodCode % 0x10
    && Two(w[2], w[3]) == |w| - 20
    && w[4] == 0x21 && w[5] == 0x12 && w[6] == 0xA4 && w[7] == 0x42
    && w[8..20] == p.transactionId
  }

  /** The items have these types, in order. */
  ghost predicate KindsAre(items: seq<Item>, kinds: seq<nat>) {
    |items| == |kinds| && forall i :: 0 <= i < |items| ==> items[i].kind == kinds[i]
  }

  /** The value of every attribute. MESSAGE-INTEGRITY is the HMAC of what it signs in this message. */
  ghost predicate ItemDue(w: seq<byte>, p: Packet, hmac: Hmac, t: Item)
    requires t.at + 4 + t.length <= |w| <= 65532
  {
    if t.kind == 0x8028 then t.length == 4
    else if t.kind == 0x0008 then 4 <= t.at && ValueOf(w, t) == hmac(p.password, Signed(w, t.at))
    else Due(p, t.kind, ValueOf(w, t))
  }

  lemma HeadIsDue(p: Packet, pad: seq<byte>, hmac: Hmac)
    requires Fits(p) && |pad| == PadLen(|p.username|)
    ensures HeadDue(Wire(p, pad, hmac), p)
  {
    hide Wire, TypeField, Render, AllAttrs, WireSize, Get2Bytes, Unsealed;
    WireParts(p, pad, hmac);
    var w := Wire(p, pad, hmac);
    HeadFields(p, WireSize(p) - 20, w);
    FieldBytes(w, 2);
    assert w[4..8] == [w[4], w[5], w[6], w[7]];
    TypeFieldBytes(p.klass, p.methodCode);
  }

  lemma TypeFieldBytes(klass: Class, methodCode: u16)
    ensures var t := TypeField(klass, methodCode);
            && t / 0x100 == methodCode / 0x80 % 0x20 * 2
                            + (if klass == SuccessResponse || klass == ErrorResponse then 1 else 0)
            && t % 0x100 == methodCode / 0x10 % 8 * 0x20
                            + (if klass == Indication || klass == ErrorResponse then 0x10 else 0) + methodCode % 0x10
  {
    var c: int := ClassCode(klass);
    var m7, m4, m0 := methodCode / 0x80 % 0x20, methodCode / 0x10 % 8, methodCode % 0x10;
    PartsBy100(TypeField(klass, methodCode), m7 * 2 + c / 2, m4 * 0x20 + c % 2 * 0x10 + m0);
  }

  /** FINGERPRINT seals what precedes it. */
  lemma WireIsSealed(p: Packet, pad: seq<byte>, hmac: Hmac)
    requires Fits(p) && |pad| == PadLen(|p.username|)
    ensures var w := Wire(p, pad, hmac); |w| >= 28 && Seals(w, |w| - 4, w[..|w| - 8])
  {
    hide Wire, Render, Unsealed, Head, WireSize, Crc, Seal, Be4, Seals, Get4Bytes;
    WireParts(p, pad, hmac);
    var w, s := Wire(p, pad, hmac), Unsealed(p, pad, hmac);
    SealStands(p, pad, hmac);
    Be4Inverse(Seal(Crc(s)), w, |w| - 4);
    SealMeans(w, |w| - 4, s);
  }

  lemma SealStands(p: Packet, pad: seq<byte>, hmac: Hmac)
    requires Fits(p) && |pad| == PadLen(|p.username|)
    ensures var w, s := Wire(p, pad, hmac), Unsealed(p, pad, hmac);
            |w| >= 8 && w[|w| - 4..|w| - 4 + 4] == Be4(Seal(Crc(s)))
  {
    hide Unsealed, Crc, Seal, Be4, Encode;
    var f := FingerprintAttr(Unsealed(p, pad, hmac));
    EncodeTail(f);
    var w := Wire(p, pad, hmac);
    assert w[|w| - 8..] == Encode(f);
    assert w[|w| - 4..|w|] == Encode(f)[4..];
  }

  /** The written message, byte for byte but for the padding: header, attributes as due and in this
      order, their values, and the seal. */
  lemma WrittenIs(p: Packet, pad: seq<byte>, hmac: Hmac) returns (items: seq<Item>)
    requires Fits(p) && |pad| == PadLen(|p.username|)
    ensures var w := Wire(p, pad, hmac);
            && 28 <= |w| <= 65532 && HeadDue(w, p) && Seals(w, |w| - 4, w[..|w| - 8])
            && Tiles(w, items, 20) && Inside(w, items) && KindsAre(items, KindsDue(p))
            && forall i :: 0 <= i < |items| ==> ItemDue(w, p, hmac, items[i])
  {
    hide Wire, Render, Unsealed, SignedPart, WireSize, AllAttrs, Tiles, Match, SplitFrom, ItemDue, HeadDue, Seals,
         KindsDue, Inside, Kinds;
    var w, attrs := Wire(p, pad, hmac), AllAttrs(p, pad, hmac);
    WireParts(p, pad, hmac);
    SizeWithin(p);
    HeadIsDue(p, pad, hmac);
    WireIsSealed(p, pad, hmac);
    SplitOfRender(w, 20, attrs);
    SplitTiles(w, 20);
    items := ItemsOf(attrs, 20);
    TilesSplit(w, items, 20);
    MatchIsInside(w, items, attrs);
    AllKinds(p, pad, hmac);
    MatchKinds(w, items, attrs);
    forall i | 0 <= i < |items|
      ensures ItemDue(w, p, hmac, items[i])
    {
      OneItem(p, pad, hmac, items, i);
    }
  }

  lemma SizeWithin(p: Packet)
    requires Fits(p)
    ensures WireSize(p) <= 65532
  {
  }

  lemma MatchKinds(w: seq<byte>, items: seq<Item>, attrs: seq<Attr>)
    requires Match(w, items, attrs, 20)
    ensures |items| == |attrs| && KindsAre(items, Kinds(attrs))
  {
    forall i | 0 <= i < |items|
      ensures items[i].kind == attrs[i].kind
    {
      assert MatchAt(w, items, attrs, 20, i);
    }
  }

  lemma OneItem(p: Packet, pad: seq<byte>, hmac: Hmac, items: seq<Item>, i: nat)
    requires Fits(p) && |pad| == PadLen(|p.username|) && |Wire(p, pad, hmac)| <= 65532
    requires Match(Wire(p, pad, hmac), items, AllAttrs(p, pad, hmac), 20) && i < |items|
    requires items[i].at + 4 + items[i].length <= |Wire(p, pad, hmac)|
    ensures ItemDue(Wire(p, pad, hmac), p, hmac, items[i])
  {
    hide Wire, Render, Unsealed, SignedPart, WireSize, BodyAttrs, Due, Match, AddsIntegrity, AllAttrs, ValueOf,
         Signed, TotalSize;
    var w, attrs := Wire(p, pad, hmac), AllAttrs(p, pad, hmac);
    assert MatchAt(w, items, attrs, 20, i) by {
      MatchHolds(w, items, attrs, i);
    }
    AttrIs(p, pad, hmac, i);
    if i < |BodyAttrs(p, pad)| {
      BodyDue(p, pad);
      DueIsBody(p, BodyAttrs(p, pad)[i].kind, BodyAttrs(p, pad)[i].value);
    } else if attrs[i].kind == MESSAGE_INTEGRITY {
      BodySizeAgrees(p, pad);
      SignedInWire(p, pad, hmac);
    }
  }

  lemma MatchHolds(w: seq<byte>, items: seq<Item>, attrs: seq<Attr>, i: nat)
    requires Match(w, items, attrs, 20) && i < |items|
    ensures |items| == |attrs| && MatchAt(w, items, attrs, 20, i)
  {
    hide MatchAt;
  }

  lemma DueIsBody(p: Packet, kind: nat, v: seq<byte>)
    requires Due(p, kind, v)
    ensures kind != 0x0008 && kind != 0x8028
  {
    hide ReadsFour, ReadsEight, ReadsMapped, SpellsError;
  }

  /** Where the attributes of a message stand: body, MESSAGE-INTEGRITY, FINGERPRINT. */
  lemma AttrIs(p: Packet, pad: seq<byte>, hmac: Hmac, i: nat)
    requires Fits(p) && |pad| == PadLen(|p.username|) && i < |AllAttrs(p, pad, hmac)|
    ensures var attrs, body := AllAttrs(p, pad, hmac), BodyAttrs(p, pad);
            && (i < |body| ==> attrs[i] == body[i])
            && (i >= |body| && attrs[i].kind == MESSAGE_INTEGRITY ==>
                  AddsIntegrity(p) && attrs[..i] == body && attrs[i].value == hmac(p.password, SignedPart(p, pad)))
            && (i >= |body| && attrs[i].kind != MESSAGE_INTEGRITY ==>
                  attrs[i].kind == FINGERPRINT && |attrs[i].value| == 4)
  {
    hide Unsealed, SignedPart, WireSize, BodyAttrs, AddsIntegrity, Seal, Crc;
  }

  /** What is signed, read from the message: the prefix of MESSAGE-INTEGRITY with its own length. */
  lemma SignedInWire(p: Packet, pad: seq<byte>, hmac: Hmac)
    requires Fits(p) && |pad| == PadLen(|p.username|) && AddsIntegrity(p)
    ensures var w, at := Wire(p, pad, hmac), 20 + BodySize(p);
            at <= |w| && at + 4 < 0x1_0000 && Signed(w, at) == SignedPart(p, pad)
  {
    hide Wire, Render, BodyAttrs, BodySize, TypeField, Be2;
    WireIntegrity(p, pad, hmac);
    var w, at := Wire(p, pad, hmac), 20 + BodySize(p);
    HeadSlices(p, WireSize(p) - 20, w);
    TwoBytesOf(at + 4);
    assert w[4..at] == w[4..20] + w[20..at];
  }

  /** An attribute is in the message exactly when it is due: MESSAGE-INTEGRITY iff the class is not error
      response and there is a password, XOR-MAPPED-ADDRESS iff the class is success response, the method
      is 1 and there is an IPv4 or IPv6 address, and so on. */
  lemma CarriesWhatIsDue(p: Packet, pad: seq<byte>, hmac: Hmac)
    requires Fits(p) && |pad| == PadLen(|p.username|)
    ensures var w := Wire(p, pad, hmac);
            && |w| >= 20 && SplitFrom(w, 20).Some?
            && var attrs := SplitFrom(w, 20).value;
               && (Carries(attrs, 0x0006) <==> p.username != [])
               && (Carries(attrs, 0x0024) <==> p.priority != 0)
               && (Carries(attrs, 0x802A) <==> p.iceControlling != 0)
               && (Carries(attrs, 0x8029) <==> p.iceControlled != 0)
               && (Carries(attrs, 0x0025) <==> p.hasUseCandidate)
               && (Carries(attrs, 0x0020) <==>
                     p.klass == SuccessResponse && p.methodCode == 1
                     && p.xorMappedAddress.Some? && !p.xorMappedAddress.value.OtherFamily?)
               && (Carries(attrs, 0x0009) <==> p.klass == ErrorResponse && p.errorCode != 0)
               && (Carries(attrs, 0x0008) <==> p.klass != ErrorResponse && p.password != [])
               && Carries(attrs, 0x8028)
  {
    hide Wire, Render, WireSize, Unsealed, AllAttrs, SplitFrom, KindsDue, Kinds, Carries;
    WireParts(p, pad, hmac);
    SplitOfRender(Wire(p, pad, hmac), 20, AllAttrs(p, pad, hmac));
    AllKinds(p, pad, hmac);
    KindsIff(p);
    CarriesKinds(AllAttrs(p, pad, hmac));
  }

  ghost predicate Carries(attrs: seq<Attr>, kind: nat) {
    exists i :: 0 <= i < |attrs| && attrs[i].kind == kind
  }

  lemma CarriesKinds(attrs: seq<Attr>)
    ensures forall kind: nat :: Carries(attrs, kind) <==> kind in Kinds(attrs)
  {
    forall kind: nat
      ensures Carries(attrs, kind) <==> kind in Kinds(attrs)
    {
      if kind in Kinds(attrs) {
        var i :| 0 <= i < |attrs| && Kinds(attrs)[i] == kind;
        assert attrs[i].kind == kind;
      }
      if Carries(attrs, kind) {
        var i :| 0 <= i < |attrs| && attrs[i].kind == kind;
        assert Kinds(attrs)[i] == kind;
      }
    }
  }

  /** Behind the username the message keeps the prior content of the buffer. */
  lemma PaddingIsPrior(p: Packet, prior: seq<byte>, hmac: Hmac)
    requires Fits(p) && p.username != [] && 24 + |p.username| + PadLen(|p.username|) <= |prior|
    ensures var w, n := Wire(p, Padding(p, prior), hmac), |p.username|;
            24 + n + PadLen(n) <= |w| && w[24 + n..24 + n + PadLen(n)] == prior[24 + n..24 + n + PadLen(n)]
  {
    hide Wire, WireSize, Unsealed, AllAttrs, Encode, Render, PadLen;
    var pad := Padding(p, prior);
    WireParts(p, pad, hmac);
    UsernameFirst(p, pad, hmac);
    HeadOfRender(Wire(p, pad, hmac), AllAttrs(p, pad, hmac), p.username, pad);
  }

  lemma UsernameFirst(p: Packet, pad: seq<byte>, hmac: Hmac)
    requires Fits(p) && |pad| == PadLen(|p.username|) && p.username != []
    ensures AllAttrs(p, pad, hmac) != [] && AllAttrs(p, pad, hmac)[0] == Tlv(USERNAME, p.username, pad)
  {
    hide Unsealed, SignedPart, WireSize, PriorityAttrs, ControllingAttrs, ControlledAttrs, CandidateAttrs,
         MappedAttrs, ErrorAttrs, IntegrityAttrs;
  }

  lemma HeadOfRender(w: seq<byte>, attrs: seq<Attr>, value: seq<byte>, pad: seq<byte>)
    requires |w| >= 20 && w[20..] == Render(attrs) && attrs != []
    requires attrs[0].value == value && attrs[0].padding == pad
    ensures var n := |value|; 24 + n + |pad| <= |w| && w[24 + n..24 + n + |pad|] == pad
  {
    var a, n := attrs[0], |value|;
    FourParts(Be2(a.kind), Be2(n), value, pad);
    assert w[20..][..Size(a)] == Encode(a);
    SubSlice(w, 20, |w|, 4 + n, 4 + n + |pad|);
    assert w[20..|w|] == w[20..];
    assert Encode(a)[4 + n..] == w[20..][4 + n..4 + n + |pad|];
  }
}
