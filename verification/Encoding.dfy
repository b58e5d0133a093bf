/** What `Stun::Serialize` writes, as a function of the fields and of the buffer's prior content. */
module Encoding {
  import opened Words
  import opened Bytes
  import opened Crc32
  import opened Attributes
  import opened Message

  type Mac = s: seq<byte> | |s| == 20 witness seq(20, _ => 0)

  /** HMAC-SHA1 of a byte string under a key, left uninterpreted. */
  type Hmac = (seq<byte>, seq<byte>) -> Mac

  // ----- which attributes are written -----

  predicate AddsMapped(p: Packet) {
    && p.xorMappedAddress.Some? && !p.xorMappedAddress.value.OtherFamily?
    && p.methodCode == BINDING && p.klass == SuccessResponse
  }

  predicate AddsError(p: Packet) {
    p.errorCode != 0 && p.klass == ErrorResponse
  }

  predicate AddsIntegrity(p: Packet) {
    p.klass != ErrorResponse && p.password != []
  }

  /** `s` masked byte by byte. */
  function XorWith(s: seq<byte>, mask: seq<byte>): (r: seq<byte>)
    requires |s| <= |mask|
    ensures |r| == |s|
  {
    seq(|s|, i requires 0 <= i < |s| => Xor(s[i], mask[i]))
  }

  /** The value of XOR-MAPPED-ADDRESS (RFC 5389, section 15.2). */
  function MappedValue(addr: SockAddr, transactionId: Octets12): (v: seq<byte>)
    requires !addr.OtherFamily?
    ensures |v| == if addr.Inet? then 8 else 20
  {
    match addr
    case Inet(port, ip) => [0, 1] + XorWith(port, COOKIE) + XorWith(ip, COOKIE)
    case Inet6(port, ip) => [0, 2] + XorWith(port, COOKIE) + XorWith(ip, COOKIE + transactionId)
  }

  function UsernameAttrs(p: Packet, pad: seq<byte>): seq<Attr>
    requires |p.username| < 0x1_0000 && |pad| == PadLen(|p.username|)
  {
    if p.username != [] then [Tlv(USERNAME, p.username, pad)] else []
  }

  function PriorityAttrs(p: Packet): seq<Attr> {
    if p.priority != 0 then [Tlv(PRIORITY, Be4(p.priority), [])] else []
  }

  function ControllingAttrs(p: Packet): seq<Attr> {
    if p.iceControlling != 0 then [Tlv(ICE_CONTROLLING, Be8(p.iceControlling), [])] else []
  }

  function ControlledAttrs(p: Packet): seq<Attr> {
    if p.iceControlled != 0 then [Tlv(ICE_CONTROLLED, Be8(p.iceControlled), [])] else []
  }

  function CandidateAttrs(p: Packet): seq<Attr> {
    if p.hasUseCandidate then [Tlv(USE_CANDIDATE, [], [])] else []
  }

  function MappedAttrs(p: Packet): seq<Attr> {
    if AddsMapped(p) then [Tlv(XOR_MAPPED_ADDRESS, MappedValue(p.xorMappedAddress.value, p.transactionId), [])] else []
  }

  function ErrorAttrs(p: Packet): seq<Attr> {
    if AddsError(p) then [Tlv(ERROR_CODE, [0, 0, ErrorClass(p.errorCode), ErrorNumber(p.errorCode)], [])] else []
  }

  /** Everything before MESSAGE-INTEGRITY. */
  function BodyAttrs(p: Packet, pad: seq<byte>): seq<Attr>
    requires |p.username| < 0x1_0000 && |pad| == PadLen(|p.username|)
  {
    UsernameAttrs(p, pad) + PriorityAttrs(p) + ControllingAttrs(p) + ControlledAttrs(p)
    + CandidateAttrs(p) + MappedAttrs(p) + ErrorAttrs(p)
  }

  function IntegrityAttr(mac: Mac): Attr {
    Tlv(MESSAGE_INTEGRITY, mac, [])
  }

  function IntegrityAttrs(p: Packet, mac: Mac): seq<Attr> {
    if AddsIntegrity(p) then [IntegrityAttr(mac)] else []
  }

  function FingerprintAttr(unsealed: seq<byte>): Attr {
    Tlv(FINGERPRINT, Be4(Seal(Crc(unsealed))), [])
  }

  // ----- the first pass: the size -----

  function BodySize(p: Packet): nat {
    (if p.username != [] then 4 + PadTo4Bytes(|p.username| % 0x1_0000) else 0)
    + (if p.priority != 0 then 4 + 4 else 0)
    + (if p.iceControlling != 0 then 4 + 8 else 0)
    + (if p.iceControlled != 0 then 4 + 8 else 0)
    + (if p.hasUseCandidate then 4 else 0)
    + (if AddsMapped(p) then (if p.xorMappedAddress.value.Inet? then 4 + 8 else 4 + 20) else 0)
    + (if AddsError(p) then 4 + 4 else 0)
  }

  /** `this->size` after the first pass of `Serialize`. */
  function WireSize(p: Packet): nat {
    20 + BodySize(p) + (if AddsIntegrity(p) then 4 + 20 else 0) + (4 + 4)
  }

  /** The message fits a 16-bit length and a 16-bit cursor. */
  predicate Fits(p: Packet) {
    |p.username| <= 65532 && WireSize(p) <= 65532
  }

  /** A username under 513 bytes always fits. */
  lemma ShortUsernameFits(p: Packet)
    requires |p.username| < 513
    ensures Fits(p) && WireSize(p) <= 640
  {
    hide AddsMapped, AddsError, AddsIntegrity, PadTo4Bytes;
    PaddedBound(|p.username|);
  }

  lemma PaddedBound(n: nat)
    requires n < 513
    ensures PadTo4Bytes(n % 0x1_0000) <= 516
  {
  }

  // ----- the second pass: the bytes -----

  /** The username padding is whatever the buffer held there. */
  function Padding(p: Packet, prior: seq<byte>): (pad: seq<byte>)
    requires |p.username| < 0x1_0000 && (p.username != [] ==> 24 + |p.username| + PadLen(|p.username|) <= |prior|)
    ensures |pad| == PadLen(|p.username|)
  {
    var n := |p.username|;
    if n == 0 then [] else prior[24 + n..24 + n + PadLen(n)]
  }

  function Head(p: Packet, length: u16): (s: seq<byte>)
    ensures |s| == 20
  {
    Be2(TypeField(p.klass, p.methodCode)) + Be2(length) + COOKIE + p.transactionId
  }

  /** What the HMAC is computed over: the message up to MESSAGE-INTEGRITY, with a length field that
      ends right after MESSAGE-INTEGRITY (RFC 5389, section 15.4). */
  function SignedPart(p: Packet, pad: seq<byte>): seq<byte>
    requires Fits(p) && |pad| == PadLen(|p.username|)
  {
    Head(p, WireSize(p) - 20 - 8) + Render(BodyAttrs(p, pad))
  }

  function UnsealedAttrs(p: Packet, pad: seq<byte>, hmac: Hmac): seq<Attr>
    requires Fits(p) && |pad| == PadLen(|p.username|)
  {
    BodyAttrs(p, pad) + IntegrityAttrs(p, hmac(p.password, SignedPart(p, pad)))
  }

  function Unsealed(p: Packet, pad: seq<byte>, hmac: Hmac): seq<byte>
    requires Fits(p) && |pad| == PadLen(|p.username|)
  {
    Head(p, WireSize(p) - 20) + Render(UnsealedAttrs(p, pad, hmac))
  }

  /** The whole message. */
  function Wire(p: Packet, pad: seq<byte>, hmac: Hmac): seq<byte>
    requires Fits(p) && |pad| == PadLen(|p.username|)
  {
    Unsealed(p, pad, hmac) + Encode(FingerprintAttr(Unsealed(p, pad, hmac)))
  }

  // ----- the two passes agree -----

  lemma BodySizeAgrees(p: Packet, pad: seq<byte>)
    requires Fits(p) && |pad| == PadLen(|p.username|)
    ensures TotalSize(BodyAttrs(p, pad)) == BodySize(p)
  {
    hide Render, TotalSize, UsernameAttrs, PriorityAttrs, ControllingAttrs, ControlledAttrs, CandidateAttrs,
         MappedAttrs, ErrorAttrs, PadTo4Bytes, PadLen, AddsMapped, AddsError;
    var u, pr, ci, ce, ca, xm := UsernameAttrs(p, pad), PriorityAttrs(p), ControllingAttrs(p), ControlledAttrs(p),
        CandidateAttrs(p), MappedAttrs(p);
    RenderAppend(u, pr);
    RenderAppend(u + pr, ci);
    RenderAppend(u + pr + ci, ce);
    RenderAppend(u + pr + ci + ce, ca);
    RenderAppend(u + pr + ci + ce + ca, xm);
    RenderAppend(u + pr + ci + ce + ca + xm, ErrorAttrs(p));
    PieceSizes(p, pad);
  }

  lemma BodyIsSumOfPieces(p: Packet, pad: seq<byte>)
    requires Fits(p) && |pad| == PadLen(|p.username|)
    ensures BodySize(p) == TotalSize(UsernameAttrs(p, pad)) + TotalSize(PriorityAttrs(p))
                           + TotalSize(ControllingAttrs(p))
                           + TotalSize(ControlledAttrs(p)) + TotalSize(CandidateAttrs(p)) + TotalSize(MappedAttrs(p))
                           + TotalSize(ErrorAttrs(p))
  {
    hide TotalSize, UsernameAttrs, PriorityAttrs, ControllingAttrs, ControlledAttrs, CandidateAttrs, MappedAttrs,
         ErrorAttrs, PadTo4Bytes, PadLen, AddsMapped, AddsError;
    PieceSizes(p, pad);
  }

  lemma PieceSizes(p: Packet, pad: seq<byte>)
    requires |p.username| <= 65532 && |pad| == PadLen(|p.username|)
    ensures TotalSize(UsernameAttrs(p, pad)) == (if p.username != [] then 4 + PadTo4Bytes(|p.username|) else 0)
    ensures TotalSize(PriorityAttrs(p)) == (if p.priority != 0 then 8 else 0)
    ensures TotalSize(ControllingAttrs(p)) == (if p.iceControlling != 0 then 12 else 0)
    ensures TotalSize(ControlledAttrs(p)) == (if p.iceControlled != 0 then 12 else 0)
    ensures TotalSize(CandidateAttrs(p)) == (if p.hasUseCandidate then 4 else 0)
    ensures TotalSize(MappedAttrs(p))
            == (if AddsMapped(p) then (if p.xorMappedAddress.value.Inet? then 12 else 24) else 0)
    ensures TotalSize(ErrorAttrs(p)) == (if AddsError(p) then 8 else 0)
  {
    hide AddsError, AddsMapped, Octet, MappedValue, ErrorClass, ErrorNumber, PadTo4Bytes, PadLen, TotalSize;
    CursorStep(|p.username|);
    AtMostOne(UsernameAttrs(p, pad));
    AtMostOne(PriorityAttrs(p));
    AtMostOne(ControllingAttrs(p));
    AtMostOne(ControlledAttrs(p));
    AtMostOne(CandidateAttrs(p));
    AtMostOne(MappedAttrs(p));
    AtMostOne(ErrorAttrs(p));
    NoPadding();
  }

  lemma AtMostOne(attrs: seq<Attr>)
    requires |attrs| <= 1
    ensures TotalSize(attrs) == if attrs == [] then 0 else Size(attrs[0])
  {
  }

  lemma NoPadding()
    ensures PadLen(0) == 0 && PadLen(4) == 0 && PadLen(8) == 0 && PadLen(20) == 0
  {
  }

  /** The size computed before writing is the number of bytes written. */
  lemma SizeAgrees(p: Packet, pad: seq<byte>, hmac: Hmac)
    requires Fits(p) && |pad| == PadLen(|p.username|)
    ensures |SignedPart(p, pad)| == 20 + BodySize(p)
    ensures |Unsealed(p, pad, hmac)| == WireSize(p) - 8
    ensures |Wire(p, pad, hmac)| == WireSize(p)
  {
    var mac := hmac(p.password, SignedPart(p, pad));
    BodySizeAgrees(p, pad);
    RenderSize(BodyAttrs(p, pad));
    RenderAppend(BodyAttrs(p, pad), IntegrityAttrs(p, mac));
    RenderSize(UnsealedAttrs(p, pad, hmac));
    hide BodyAttrs, BodySize, Render;
  }
}
