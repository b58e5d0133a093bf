/** XOR-MAPPED-ADDRESS: a receiver recovers the address from the message alone (RFC 5389, section 15.2). */
module MappedAddress {
  import opened Wrappers
  import opened Words
  import opened Bytes
  import opened Attributes
  import opened Message
  import opened Encoding
  import opened RoundTrip

  /** Decodes an attribute value with the cookie and transaction id found in the message `m`. */
  function Unmask(m: seq<byte>, value: seq<byte>): Option<SockAddr>
    requires |m| >= 20
  {
    if |value| == 8 && value[1] == 1 then
      Some(Inet(XorWith(value[2..4], m[4..6]), XorWith(value[4..8], m[4..8])))
    else if |value| == 20 && value[1] == 2 then
      Some(Inet6(XorWith(value[2..4], m[4..6]), XorWith(value[4..20], m[4..20])))
    else None
  }

  lemma XorWithTwice(s: seq<byte>, mask: seq<byte>, again: seq<byte>)
    requires |s| <= |mask| && |s| <= |again| && again[..|s|] == mask[..|s|]
    ensures XorWith(XorWith(s, mask), again) == s
  {
    hide Xor;
    forall i | 0 <= i < |s|
      ensures XorWith(XorWith(s, mask), again)[i] == s[i]
    {
      assert again[i] == again[..|s|][i] == mask[i];
      XorTwice(s[i], mask[i]);
    }
  }

  /** Masking the address into the attribute and unmasking it again is the identity. */
  lemma UnmaskOfMask(m: seq<byte>, addr: SockAddr, transactionId: Octets12)
    requires |m| >= 20 && m[4..8] == COOKIE && m[8..20] == transactionId && !addr.OtherFamily?
    ensures Unmask(m, MappedValue(addr, transactionId)) == Some(addr)
  {
    hide Xor, XorWith;
    var v := MappedValue(addr, transactionId);
    assert m[4..6] == m[4..8][..2] == COOKIE[..2];
    assert m[4..20] == m[4..8] + m[8..20] == COOKIE + transactionId;
    match addr
    case Inet(port, ip) =>
      FourParts([0, 1], XorWith(port, COOKIE), XorWith(ip, COOKIE), []);
      assert v == [0, 1] + XorWith(port, COOKIE) + XorWith(ip, COOKIE) + [];
      XorWithTwice(port, COOKIE, m[4..6]);
      XorWithTwice(ip, COOKIE, m[4..8]);
    case Inet6(port, ip) =>
      FourParts([0, 2], XorWith(port, COOKIE), XorWith(ip, COOKIE + transactionId), []);
      assert v == [0, 2] + XorWith(port, COOKIE) + XorWith(ip, COOKIE + transactionId) + [];
      XorWithTwice(port, COOKIE, m[4..6]);
      XorWithTwice(ip, COOKIE + transactionId, m[4..20]);
  }

  /** Every attribute of this kind in `attrs` has the value `v`. */
  predicate OnlyMapped(attrs: seq<Attr>, v: seq<byte>) {
    forall i :: 0 <= i < |attrs| && attrs[i].kind == XOR_MAPPED_ADDRESS ==> attrs[i].value == v
  }

  lemma OnlyMappedAppend(a: seq<Attr>, b: seq<Attr>, v: seq<byte>)
    requires OnlyMapped(a, v) && OnlyMapped(b, v)
    ensures OnlyMapped(a + b, v)
  {
  }

  lemma OnlyMappedInAll(p: Packet, pad: seq<byte>, hmac: Hmac, v: seq<byte>)
    requires Fits(p) && |pad| == PadLen(|p.username|)
    requires AddsMapped(p) ==> v == MappedValue(p.xorMappedAddress.value, p.transactionId)
    ensures OnlyMapped(AllAttrs(p, pad, hmac), v)
  {
    hide OnlyMapped, UsernameAttrs, PriorityAttrs, ControllingAttrs, ControlledAttrs, CandidateAttrs, MappedAttrs,
         ErrorAttrs, IntegrityAttrs, FingerprintAttr, WireSize, Unsealed, SignedPart, MappedValue;
    var u, pr, ci, ce, ca, xm := UsernameAttrs(p, pad), PriorityAttrs(p), ControllingAttrs(p), ControlledAttrs(p),
                                 CandidateAttrs(p), MappedAttrs(p);
    var mi := IntegrityAttrs(p, hmac(p.password, SignedPart(p, pad)));
    PiecesMapped(p, pad, hmac(p.password, SignedPart(p, pad)), Unsealed(p, pad, hmac), v);
    OnlyMappedAppend(u, pr, v);
    OnlyMappedAppend(u + pr, ci, v);
    OnlyMappedAppend(u + pr + ci, ce, v);
    OnlyMappedAppend(u + pr + ci + ce, ca, v);
    OnlyMappedAppend(u + pr + ci + ce + ca, xm, v);
    OnlyMappedAppend(u + pr + ci + ce + ca + xm, ErrorAttrs(p), v);
    OnlyMappedAppend(BodyAttrs(p, pad), mi, v);
    OnlyMappedAppend(UnsealedAttrs(p, pad, hmac), [FingerprintAttr(Unsealed(p, pad, hmac))], v);
  }

  lemma PiecesMapped(p: Packet, pad: seq<byte>, mac: Mac, s: seq<byte>, v: seq<byte>)
    requires |p.username| < 0x1_0000 && |pad| == PadLen(|p.username|)
    requires AddsMapped(p) ==> v == MappedValue(p.xorMappedAddress.value, p.transactionId)
    ensures OnlyMapped(UsernameAttrs(p, pad), v) && OnlyMapped(PriorityAttrs(p), v)
    ensures OnlyMapped(ControllingAttrs(p), v) && OnlyMapped(ControlledAttrs(p), v)
    ensures OnlyMapped(CandidateAttrs(p), v) && OnlyMapped(MappedAttrs(p), v) && OnlyMapped(ErrorAttrs(p), v)
    ensures OnlyMapped(IntegrityAttrs(p, mac), v) && OnlyMapped([FingerprintAttr(s)], v)
  {
    hide AddsMapped, AddsError, MappedValue, Octet, AddsIntegrity, Be4;
  }

  /** A BINDING success response carries exactly one mapped address, and whoever reads the message
      recovers family, port and address from it. */
  lemma MappedAddressRecovered(p: Packet, pad: seq<byte>, hmac: Hmac)
    requires Fits(p) && |pad| == PadLen(|p.username|) && AddsMapped(p)
    ensures var w := Wire(p, pad, hmac);
            && |w| >= 20 && SplitFrom(w, 20).Some?
            && (var attrs := SplitFrom(w, 20).value;
                && LastIndex(attrs, XOR_MAPPED_ADDRESS) >= 0
                && forall i :: 0 <= i < |attrs| && attrs[i].kind == XOR_MAPPED_ADDRESS ==>
                     Unmask(w, attrs[i].value) == p.xorMappedAddress)
  {
    hide Wire, TypeField, Unmask, MappedValue, BodySize, WireSize, AllAttrs, Render, Unsealed, Head;
    var w := Wire(p, pad, hmac);
    var attrs := AllAttrs(p, pad, hmac);
    var v := MappedValue(p.xorMappedAddress.value, p.transactionId);
    BindingType(p.klass);
    WireIsMessage(p, pad, hmac);
    MessageIsParsed(w, attrs);
    WireParts(p, pad, hmac);
    HeadFields(p, WireSize(p) - 20, w);
    OnlyMappedInAll(p, pad, hmac, v);
    UnmaskOfMask(w, p.xorMappedAddress.value, p.transactionId);
    MappedIsThere(p, pad, hmac);
  }

  lemma MappedIsThere(p: Packet, pad: seq<byte>, hmac: Hmac)
    requires Fits(p) && |pad| == PadLen(|p.username|) && AddsMapped(p)
    ensures LastIndex(AllAttrs(p, pad, hmac), XOR_MAPPED_ADDRESS) >= 0
  {
    hide UsernameAttrs, PriorityAttrs, ControllingAttrs, ControlledAttrs, CandidateAttrs, ErrorAttrs, IntegrityAttrs,
         FingerprintAttr, WireSize, Unsealed, SignedPart, MappedValue, AddsMapped, LastIndex;
    var before := UsernameAttrs(p, pad) + PriorityAttrs(p) + ControllingAttrs(p) + ControlledAttrs(p)
        + CandidateAttrs(p);
    var attrs := AllAttrs(p, pad, hmac);
    assert attrs[|before|] == MappedAttrs(p)[0];
    assert attrs[|before|].kind == XOR_MAPPED_ADDRESS;
  }
}
