/** Short-term credentials: what `Stun::CheckAuthentication` decides (RFC 5389, section 15.4). */
module Authentication {
  import opened Words
  import opened Bytes
  import opened Attributes
  import opened Message
  import opened Encoding
  import opened RoundTrip

  datatype Outcome = OK | Unauthorized | BadRequest

  /** The bytes the HMAC is computed over: the message up to MESSAGE-INTEGRITY, after the length field
      was set to leave out a FINGERPRINT. */
  function SignedBytes(m: seq<byte>, p: Packet): seq<byte>
    requires 28 <= |m| < 0x1_0000 && p.messageIntegrity.Some? && 24 <= p.messageIntegrity.value <= |m| - 20
  {
    (if p.hasFingerprint then Splice(m, 2, Be2(|m| - 20 - 8)) else m)[..p.messageIntegrity.value - 4]
  }

  /** The username starts with `localUsername` and a colon. */
  predicate UsernameMatches(username: seq<byte>, localUsername: seq<byte>) {
    && |username| > |localUsername|
    && username[|localUsername|] == COLON
    && username[..|localUsername|] == localUsername
  }

  predicate IntegrityInside(m: seq<byte>, p: Packet) {
    p.messageIntegrity.Some? ==> 28 <= |m| < 0x1_0000 && 24 <= p.messageIntegrity.value <= |m| - 20
  }

  /** `Stun::CheckAuthentication` for the fields `p` of the message `m`. */
  function Check(m: seq<byte>, p: Packet, localUsername: seq<byte>, localPassword: seq<byte>, hmac: Hmac): Outcome
    requires IntegrityInside(m, p)
  {
    if p.klass == SuccessResponse || p.klass == ErrorResponse then BadRequest
    else if p.messageIntegrity.None? || p.username == [] then BadRequest
    else if !UsernameMatches(p.username, localUsername) then Unauthorized
    else
      var at := p.messageIntegrity.value;
      if m[at..at + 20] == hmac(localPassword, SignedBytes(m, p)) then OK else Unauthorized
  }

  lemma {:induction false} SplitSize(attrs: seq<Attr>, i: nat)
    requires i < |attrs|
    ensures TotalSize(attrs) == TotalSize(attrs[..i]) + Size(attrs[i]) + TotalSize(attrs[i + 1..])
  {
    assert attrs == attrs[..i] + [attrs[i]] + attrs[i + 1..];
    RenderAppend(attrs[..i] + [attrs[i]], attrs[i + 1..]);
    RenderAppend(attrs[..i], [attrs[i]]);
    RenderOne(attrs[i]);
  }

  lemma IntegrityThenFingerprint(attrs: seq<Attr>, i: nat)
    requires Admissible(attrs) && i == LastIndex(attrs, MESSAGE_INTEGRITY)
    ensures TotalSize(attrs) == TotalSize(attrs[..i]) + 24 + (if LastIndex(attrs, FINGERPRINT) >= 0 then 8 else 0)
  {
    hide TotalSize;
    var n := |attrs|;
    SplitSize(attrs, i);
    assert LengthOk(attrs[i]) && LengthOk(attrs[n - 1]);
    if i == n - 1 {
      assert attrs[i + 1..] == [];
      NoSize();
    } else {
      assert attrs[i + 1..] == [attrs[n - 1]];
      RenderOne(attrs[n - 1]);
    }
  }

  lemma NoSize()
    ensures TotalSize([]) == 0
  {
  }

  /** In an accepted message MESSAGE-INTEGRITY ends where the message ends, or eight bytes earlier
      when a FINGERPRINT follows; ... */
  lemma IntegrityIsLast(m: seq<byte>)
    requires Parsed(m).Some? && Parsed(m).value.messageIntegrity.Some?
    ensures var p := Parsed(m).value;
            var end := p.messageIntegrity.value + 20;
            24 <= p.messageIntegrity.value && end == |m| - (if p.hasFingerprint then 8 else 0)
  {
    hide Interpret, LastValues, Scan, SplitFrom, SealOk, Encode, HeaderPacket, Admissible, Render, TotalSize,
         Get2Bytes, LastIndex;
    var attrs := SplitFrom(m, 20).value;
    ParsedIsMessage(m, attrs);
    FieldsAreLastOccurrences(HeaderPacket(m), attrs, 20);
    HeaderFlags(m);
    RenderSize(attrs);
    IntegrityThenFingerprint(attrs, LastIndex(attrs, MESSAGE_INTEGRITY));
  }

  lemma HeaderFlags(m: seq<byte>)
    requires |m| >= 20
    ensures HeaderPacket(m).messageIntegrity.None? && !HeaderPacket(m).hasFingerprint
  {
  }

  /** ... so the length field the HMAC sees always ends the message right after MESSAGE-INTEGRITY. */
  lemma HmacSeesLengthUpToIntegrity(m: seq<byte>)
    requires |m| <= 65532 && Parsed(m).Some? && Parsed(m).value.messageIntegrity.Some?
    ensures var p := Parsed(m).value;
            && IntegrityInside(m, p)
            && Get2Bytes(SignedBytes(m, p), 2) == (p.messageIntegrity.value + 20) - 20
  {
    hide Parsed, SignedBytes;
    var p := Parsed(m).value;
    IntegrityIsLast(m);
    ParsedLength(m);
    LengthOfSigned(m, p);
  }

  lemma ParsedLength(m: seq<byte>)
    requires Parsed(m).Some?
    ensures |m| >= 20 && Get2Bytes(m, 2) == |m| - 20
  {
    hide Resume;
  }

  lemma LengthOfSigned(m: seq<byte>, p: Packet)
    requires IntegrityInside(m, p) && p.messageIntegrity.Some?
    ensures Get2Bytes(SignedBytes(m, p), 2) == if p.hasFingerprint then |m| - 28 else Get2Bytes(m, 2)
  {
    hide Octet, Be2;
    var s := SignedBytes(m, p);
    if p.hasFingerprint {
      assert s[2..4] == Be2(|m| - 28);
      Be2Inverse(|m| - 28, s, 2);
    }
  }

  // ----- signing and checking agree -----

  lemma WireIntegrity(p: Packet, pad: seq<byte>, hmac: Hmac)
    requires Fits(p) && |pad| == PadLen(|p.username|) && AddsIntegrity(p)
    ensures var w, at := Wire(p, pad, hmac), 20 + BodySize(p) + 4;
            && at + 28 == |w| == WireSize(p)
            && w[at..at + 20] == hmac(p.password, SignedPart(p, pad))
            && w[20..at - 4] == Render(BodyAttrs(p, pad))
            && w[..20] == Head(p, WireSize(p) - 20)
  {
    hide Head, BodyAttrs, BodySize, SignedPart, FingerprintAttr, Render, Encode;
    var body := BodyAttrs(p, pad);
    var mac := IntegrityAttr(hmac(p.password, SignedPart(p, pad)));
    SizeAgrees(p, pad, hmac);
    WireParts(p, pad, hmac);
    RenderAppend(body, [mac]);
    RenderOne(mac);
    EncodeTail(mac);
    BodySizeAgrees(p, pad);
    RenderSize(body);
    var f := Encode(FingerprintAttr(Unsealed(p, pad, hmac)));
    Layout(Head(p, WireSize(p) - 20), Render(body), Encode(mac), f);
  }

  lemma Layout<T>(h: seq<T>, b: seq<T>, c: seq<T>, f: seq<T>)
    requires |c| >= 4
    ensures var w := h + (b + c) + f;
            && w[|h|..|h| + |b|] == b
            && w[|h| + |b| + 4..|h| + |b| + |c|] == c[4..]
  {
  }

  /** A checker with password `q` accepts a signed request or indication exactly when the HMACs of the
      signed part under both passwords agree; with the signer's own password it always accepts. */
  lemma SignThenCheck(p: Packet, pad: seq<byte>, hmac: Hmac, localUsername: seq<byte>, rest: seq<byte>, q: seq<byte>)
    requires Fits(p) && |pad| == PadLen(|p.username|)
    requires p.klass == Request || p.klass == Indication
    requires p.password != [] && p.username == localUsername + [COLON] + rest
    requires TypeField(p.klass, p.methodCode) < 0x300
    ensures var w := Wire(p, pad, hmac);
            && Parsed(w).Some? && IntegrityInside(w, Parsed(w).value)
            && Check(w, Parsed(w).value, localUsername, q, hmac)
               == (if hmac(q, SignedPart(p, pad)) == hmac(p.password, SignedPart(p, pad)) then OK else Unauthorized)
            && Check(w, Parsed(w).value, localUsername, p.password, hmac) == OK
  {
    hide Wire, TypeField, SignedPart, Parsed, BodySize, SignedBytes;
    var w := Wire(p, pad, hmac);
    WireRoundTrip(p, pad, hmac);
    WireIntegrity(p, pad, hmac);
    SignedBytesAgree(p, pad, hmac);
    assert p.username[..|localUsername|] == localUsername;
  }

  lemma SignedBytesAgree(p: Packet, pad: seq<byte>, hmac: Hmac)
    requires Fits(p) && |pad| == PadLen(|p.username|) && AddsIntegrity(p)
    ensures var w := Wire(p, pad, hmac);
            && IntegrityInside(w, Received(p))
            && SignedBytes(w, Received(p)) == SignedPart(p, pad)
  {
    hide Wire, BodySize, Octet, Be2, TypeField, BodyAttrs, Render, AddsError;
    var w, at := Wire(p, pad, hmac), 20 + BodySize(p) + 4;
    WireIntegrity(p, pad, hmac);
    var length := WireSize(p) - 28;
    var s := Splice(w, 2, Be2(length));
    assert s[20..at - 4] == w[20..at - 4];
    assert s[..20] == w[..2] + Be2(length) + w[4..20];
    HeadSlices(p, WireSize(p) - 20, w);
    assert s[..20] == Head(p, length);
    assert s[..at - 4] == s[..20] + s[20..at - 4];
  }

  lemma HeadSlices(p: Packet, length: u16, w: seq<byte>)
    requires |w| >= 20 && w[..20] == Head(p, length)
    ensures w[..2] == Be2(TypeField(p.klass, p.methodCode)) && w[4..20] == COOKIE + p.transactionId
  {
  }
}
