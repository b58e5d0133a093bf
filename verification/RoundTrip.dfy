/** Reading back what `Stun::Serialize` writes. */
module RoundTrip {
  import opened Wrappers
  import opened Words
  import opened Bytes
  import opened Crc32
  import opened Attributes
  import opened Message
  import opened Encoding

  /** The fields a receiver gets from the message written for `p`: the method's low twelve bits, the
      error code modulo 25600 in an error response, a MESSAGE-INTEGRITY exactly when one was due. */
  function Received(p: Packet): Packet {
    Packet(p.klass, p.methodCode % 0x1000, p.transactionId, p.username, p.priority, p.iceControlling, p.iceControlled,
           p.hasUseCandidate, if AddsIntegrity(p) then Some(20 + BodySize(p) + 4) else None, true, None,
           if AddsError(p) then p.errorCode % 25600 else 0, [])
  }

  // ----- the attribute list -----

  predicate Ordinary(attrs: seq<Attr>) {
    forall i :: 0 <= i < |attrs| ==>
      LengthOk(attrs[i]) && attrs[i].kind != MESSAGE_INTEGRITY && attrs[i].kind != FINGERPRINT
  }

  lemma OrdinaryAppend(a: seq<Attr>, b: seq<Attr>)
    requires Ordinary(a) && Ordinary(b)
    ensures Ordinary(a + b)
  {
  }

  lemma {:induction false} ScanOrdinary(a: seq<Attr>, rest: seq<Attr>)
    requires Ordinary(a)
    ensures Scan(a + rest, false, false) == Scan(rest, false, false)
    decreases |a|
  {
    hide LengthOk;
    if a == [] {
      assert a + rest == rest;
    } else {
      assert (a + rest)[1..] == a[1..] + rest;
      assert (a + rest)[0] == a[0];
      ScanOrdinary(a[1..], rest);
    }
  }

  lemma BodyIsOrdinary(p: Packet, pad: seq<byte>)
    requires Fits(p) && |pad| == PadLen(|p.username|)
    ensures Ordinary(BodyAttrs(p, pad))
  {
    hide Ordinary, UsernameAttrs, PriorityAttrs, ControllingAttrs, ControlledAttrs, CandidateAttrs, MappedAttrs,
         ErrorAttrs, WireSize;
    var u, pr, ci, ce, ca, xm := UsernameAttrs(p, pad), PriorityAttrs(p), ControllingAttrs(p), ControlledAttrs(p),
                                 CandidateAttrs(p), MappedAttrs(p);
    PiecesAreOrdinary(p, pad);
    OrdinaryAppend(u, pr);
    OrdinaryAppend(u + pr, ci);
    OrdinaryAppend(u + pr + ci, ce);
    OrdinaryAppend(u + pr + ci + ce, ca);
    OrdinaryAppend(u + pr + ci + ce + ca, xm);
    OrdinaryAppend(u + pr + ci + ce + ca + xm, ErrorAttrs(p));
  }

  lemma PiecesAreOrdinary(p: Packet, pad: seq<byte>)
    requires |p.username| < 0x1_0000 && |pad| == PadLen(|p.username|)
    ensures Ordinary(UsernameAttrs(p, pad)) && Ordinary(PriorityAttrs(p))
    ensures Ordinary(ControllingAttrs(p)) && Ordinary(ControlledAttrs(p))
    ensures Ordinary(CandidateAttrs(p)) && Ordinary(MappedAttrs(p)) && Ordinary(ErrorAttrs(p))
  {
  }

  function AllAttrs(p: Packet, pad: seq<byte>, hmac: Hmac): seq<Attr>
    requires Fits(p) && |pad| == PadLen(|p.username|)
  {
    UnsealedAttrs(p, pad, hmac) + [FingerprintAttr(Unsealed(p, pad, hmac))]
  }

  lemma AllAdmissible(p: Packet, pad: seq<byte>, hmac: Hmac)
    requires Fits(p) && |pad| == PadLen(|p.username|)
    ensures Admissible(AllAttrs(p, pad, hmac))
  {
    hide BodyAttrs, Ordinary, Unsealed, SignedPart, WireSize, AddsIntegrity, Seal, Be4;
    var body := BodyAttrs(p, pad);
    var mac := IntegrityAttrs(p, hmac(p.password, SignedPart(p, pad)));
    var fp := [FingerprintAttr(Unsealed(p, pad, hmac))];
    BodyIsOrdinary(p, pad);
    ScanOrdinary(body, mac + fp);
    assert body + mac + fp == body + (mac + fp);
    ScanTail(mac, fp);
    ScanIsAdmissible(AllAttrs(p, pad, hmac), false, false);
  }

  lemma ScanTail(mac: seq<Attr>, fp: seq<Attr>)
    requires mac == [] || (|mac| == 1 && mac[0].kind == MESSAGE_INTEGRITY && |mac[0].value| == 20)
    requires |fp| == 1 && fp[0].kind == FINGERPRINT && |fp[0].value| == 4
    ensures Scan(mac + fp, false, false)
  {
  }

  // ----- the bytes -----

  lemma HeadFields(p: Packet, length: u16, m: seq<byte>)
    requires |m| >= 20 && m[..20] == Head(p, length)
    ensures Get2Bytes(m, 0) == TypeField(p.klass, p.methodCode) && Get2Bytes(m, 2) == length
    ensures m[4..8] == COOKIE && m[8..20] == p.transactionId
    ensures m[0] == TypeField(p.klass, p.methodCode) / 0x100 && m[1] == TypeField(p.klass, p.methodCode) % 0x100
  {
    hide Octet, Be2, TypeField;
    var t := TypeField(p.klass, p.methodCode);
    FourParts(Be2(t), Be2(length), COOKIE, p.transactionId);
    SubSlice(m, 0, 20, 0, 2);
    SubSlice(m, 0, 20, 2, 4);
    SubSlice(m, 0, 20, 4, 8);
    SubSlice(m, 0, 20, 8, 20);
    assert m[0..20] == m[..20];
    Be2Inverse(t, m, 0);
    Be2Inverse(length, m, 2);
    assert m[8..20] == Head(p, length)[8..];
  }

  lemma WireParts(p: Packet, pad: seq<byte>, hmac: Hmac)
    requires Fits(p) && |pad| == PadLen(|p.username|)
    ensures var m := Wire(p, pad, hmac);
            && |m| == WireSize(p) >= 28
            && m[..20] == Head(p, WireSize(p) - 20)
            && m[20..] == Render(AllAttrs(p, pad, hmac))
            && m[..|m| - 8] == Unsealed(p, pad, hmac)
  {
    hide Head, UnsealedAttrs, FingerprintAttr, BodySize, WireSize, Encode, Render;
    SizeAgrees(p, pad, hmac);
    var s := Unsealed(p, pad, hmac);
    var f := FingerprintAttr(s);
    FingerprintShape(s);
    RenderAppend(UnsealedAttrs(p, pad, hmac), [f]);
    RenderOne(f);
    JoinSlices(Head(p, WireSize(p) - 20), Render(UnsealedAttrs(p, pad, hmac)), Encode(f));
  }

  lemma JoinSlices<T>(a: seq<T>, b: seq<T>, c: seq<T>)
    ensures var m := (a + b) + c; m[..|a|] == a && m[|a|..] == b + c && m[..|m| - |c|] == a + b
  {
  }

  lemma FingerprintShape(s: seq<byte>)
    ensures var f := FingerprintAttr(s);
            Size(f) == 8 && f.kind == FINGERPRINT && LengthOk(f) && f.value == Be4(Seal(Crc(s)))
  {
  }

  lemma WireIsMessage(p: Packet, pad: seq<byte>, hmac: Hmac)
    requires Fits(p) && |pad| == PadLen(|p.username|) && TypeField(p.klass, p.methodCode) < 0x300
    ensures IsMessage(Wire(p, pad, hmac), AllAttrs(p, pad, hmac))
  {
    hide Wire, TypeField, Head, UnsealedAttrs, Unsealed, Admissible, Render, WireSize, BodySize, Get2Bytes,
         FingerprintAttr, Be4, Seal, Crc;
    var m, t := Wire(p, pad, hmac), TypeField(p.klass, p.methodCode);
    WireParts(p, pad, hmac);
    HeadFields(p, WireSize(p) - 20, m);
    AllAdmissible(p, pad, hmac);
    FingerprintShape(Unsealed(p, pad, hmac));
  }

  // ----- the fields -----

  lemma UsernamePiece(p: Packet, pad: seq<byte>, q: Packet, at: nat)
    requires |p.username| < 0x1_0000 && |pad| == PadLen(|p.username|) && q.username == []
    ensures LengthsOk(UsernameAttrs(p, pad))
    ensures Interpret(q, UsernameAttrs(p, pad), at) == q.(username := p.username)
  {
  }

  lemma PriorityPiece(p: Packet, q: Packet, at: nat)
    requires q.priority == 0
    ensures LengthsOk(PriorityAttrs(p)) && Interpret(q, PriorityAttrs(p), at) == q.(priority := p.priority)
  {
    hide Get4Bytes, Octet;
    ReadBe4(p.priority);
  }

  lemma ControllingPiece(p: Packet, q: Packet, at: nat)
    requires q.iceControlling == 0
    ensures LengthsOk(ControllingAttrs(p))
    ensures Interpret(q, ControllingAttrs(p), at) == q.(iceControlling := p.iceControlling)
  {
    hide Get8Bytes, Octet;
    ReadBe8(p.iceControlling);
  }

  lemma ControlledPiece(p: Packet, q: Packet, at: nat)
    requires q.iceControlled == 0
    ensures LengthsOk(ControlledAttrs(p))
    ensures Interpret(q, ControlledAttrs(p), at) == q.(iceControlled := p.iceControlled)
  {
    hide Get8Bytes, Octet;
    ReadBe8(p.iceControlled);
  }

  lemma CandidatePiece(p: Packet, q: Packet, at: nat)
    requires !q.hasUseCandidate
    ensures LengthsOk(CandidateAttrs(p))
    ensures Interpret(q, CandidateAttrs(p), at) == q.(hasUseCandidate := p.hasUseCandidate)
  {
  }

  lemma MappedPiece(p: Packet, q: Packet, at: nat)
    ensures LengthsOk(MappedAttrs(p)) && Interpret(q, MappedAttrs(p), at) == q
  {
  }

  lemma ErrorPiece(p: Packet, q: Packet, at: nat)
    requires q.errorCode == 0
    ensures LengthsOk(ErrorAttrs(p))
    ensures Interpret(q, ErrorAttrs(p), at) == q.(errorCode := if AddsError(p) then p.errorCode % 25600 else 0)
  {
    hide ErrorClass, ErrorNumber, JoinError;
    ErrorCodeRoundTrip(p.errorCode);
  }

  lemma IntegrityPiece(p: Packet, mac: Mac, q: Packet, at: nat)
    requires q.messageIntegrity.None?
    ensures LengthsOk(IntegrityAttrs(p, mac))
    ensures Interpret(q, IntegrityAttrs(p, mac), at)
            == q.(messageIntegrity := if AddsIntegrity(p) then Some(at + 4) else None)
  {
  }

  lemma FingerprintPiece(s: seq<byte>, q: Packet, at: nat)
    ensures LengthsOk([FingerprintAttr(s)])
    ensures Interpret(q, [FingerprintAttr(s)], at) == q.(hasFingerprint := true)
  {
  }

  predicate Blank(q: Packet) {
    && q.username == [] && q.priority == 0 && q.iceControlling == 0 && q.iceControlled == 0
    && !q.hasUseCandidate && q.errorCode == 0
  }

  /** The body attributes fill a blank packet with the fields they were made from. */
  lemma BodyFields(p: Packet, pad: seq<byte>, q: Packet, at: nat)
    requires Fits(p) && |pad| == PadLen(|p.username|) && Blank(q)
    ensures LengthsOk(BodyAttrs(p, pad))
    ensures Interpret(q, BodyAttrs(p, pad), at)
            == q.(username := p.username, priority := p.priority, iceControlling := p.iceControlling,
                  iceControlled := p.iceControlled, hasUseCandidate := p.hasUseCandidate,
                  errorCode := if AddsError(p) then p.errorCode % 25600 else 0)
  {
    hide Interpret, LengthsOk, WireSize, TotalSize, UsernameAttrs, PriorityAttrs, ControllingAttrs, ControlledAttrs,
         CandidateAttrs, MappedAttrs, ErrorAttrs;
    var u, pr, ci, ce, ca, xm := UsernameAttrs(p, pad), PriorityAttrs(p), ControllingAttrs(p), ControlledAttrs(p),
                                 CandidateAttrs(p), MappedAttrs(p);
    var q1 := q.(username := p.username);
    var q2 := q1.(priority := p.priority);
    var q3 := q2.(iceControlling := p.iceControlling);
    var q4 := q3.(iceControlled := p.iceControlled);
    var q5 := q4.(hasUseCandidate := p.hasUseCandidate);
    UsernamePiece(p, pad, q, at);
    PriorityPiece(p, q1, at + TotalSize(u));
    InterpretAppend(q, u, pr, at);
    ControllingPiece(p, q2, at + TotalSize(u + pr));
    InterpretAppend(q, u + pr, ci, at);
    ControlledPiece(p, q3, at + TotalSize(u + pr + ci));
    InterpretAppend(q, u + pr + ci, ce, at);
    CandidatePiece(p, q4, at + TotalSize(u + pr + ci + ce));
    InterpretAppend(q, u + pr + ci + ce, ca, at);
    MappedPiece(p, q5, at + TotalSize(u + pr + ci + ce + ca));
    InterpretAppend(q, u + pr + ci + ce + ca, xm, at);
    ErrorPiece(p, q5, at + TotalSize(u + pr + ci + ce + ca + xm));
    InterpretAppend(q, u + pr + ci + ce + ca + xm, ErrorAttrs(p), at);
  }

  lemma AllFields(p: Packet, pad: seq<byte>, hmac: Hmac, q: Packet)
    requires Fits(p) && |pad| == PadLen(|p.username|)
    requires Blank(q) && q.messageIntegrity.None?
    requires q.xorMappedAddress.None? && q.password == []
    requires q.klass == p.klass && q.methodCode == p.methodCode % 0x1000 && q.transactionId == p.transactionId
    ensures LengthsOk(AllAttrs(p, pad, hmac)) && Interpret(q, AllAttrs(p, pad, hmac), 20) == Received(p)
  {
    hide Interpret, LengthsOk, WireSize, TotalSize, BodyAttrs, IntegrityAttrs, FingerprintAttr, BodySize, SignedPart,
         Unsealed, AddsIntegrity, AddsError;
    var body := BodyAttrs(p, pad);
    var mac := hmac(p.password, SignedPart(p, pad));
    var mi := IntegrityAttrs(p, mac);
    BodyFields(p, pad, q, 20);
    BodySizeAgrees(p, pad);
    var q1 := Interpret(q, body, 20);
    IntegrityPiece(p, mac, q1, 20 + TotalSize(body));
    InterpretAppend(q, body, mi, 20);
    var q2 := Interpret(q, body + mi, 20);
    FingerprintPiece(Unsealed(p, pad, hmac), q2, 20 + TotalSize(body + mi));
    InterpretAppend(q, body + mi, [FingerprintAttr(Unsealed(p, pad, hmac))], 20);
  }

  /** The message written for any fields, over any prior buffer content, is accepted exactly when its
      type field is below 0x0300 (`IsStun` looks at the first byte), and then gives the fields back. */
  lemma WireRoundTrip(p: Packet, pad: seq<byte>, hmac: Hmac)
    requires Fits(p) && |pad| == PadLen(|p.username|)
    ensures Parsed(Wire(p, pad, hmac))
            == if TypeField(p.klass, p.methodCode) < 0x300 then Some(Received(p)) else None
  {
    hide Wire, TypeField, Head, AllAttrs, WireSize, BodySize, Get2Bytes, ClassBits, ClassOf, MethodBits, Received,
         Interpret, Resume, Render, Unsealed, AddsIntegrity, IsMessage;
    var m, t := Wire(p, pad, hmac), TypeField(p.klass, p.methodCode);
    WireParts(p, pad, hmac);
    HeadFields(p, WireSize(p) - 20, m);
    TypeFieldRoundTrip(p.klass, p.methodCode);
    if t < 0x300 {
      WireIsMessage(p, pad, hmac);
      MessageIsParsed(m, AllAttrs(p, pad, hmac));
      AllFields(p, pad, hmac, HeaderPacket(m));
    } else {
      assert m[0] >= 3;
    }
  }

  /** For a BINDING message nothing is lost but an error code of 25600 or more. */
  lemma BindingRoundTrip(p: Packet, pad: seq<byte>, hmac: Hmac)
    requires Fits(p) && |pad| == PadLen(|p.username|) && p.methodCode == BINDING
    ensures Parsed(Wire(p, pad, hmac)) == Some(Received(p))
    ensures Received(p).methodCode == BINDING
    ensures p.klass == ErrorResponse ==> (Received(p).errorCode == p.errorCode <==> p.errorCode < 25600)
  {
    hide Wire, TypeField, BodySize, WireSize, Parsed;
    BindingType(p.klass);
    WireRoundTrip(p, pad, hmac);
  }

  lemma BindingType(klass: Class)
    ensures TypeField(klass, BINDING) < 0x300
  {
  }

  lemma ReadBe8(v: u64)
    ensures Get8Bytes(Be8(v), 0) == v
  {
    hide Octet;
    Be8Inverse(v, Be8(v), 0);
    assert Be8(v)[0..8] == Be8(v);
  }

  // ----- the received packet can be sent again -----

  /** A received message's method and class came from a type below 0x0300, so they pack back into it. */
  lemma ReceivedType(m: seq<byte>)
    requires Parsed(m).Some?
    ensures var p := Parsed(m).value;
            && TypeField(p.klass, p.methodCode) == Get2Bytes(m, 0) < 0x300
            && p.methodCode < 0x1000 && p.password == [] && p.xorMappedAddress.None?
  {
    hide TypeField, MethodBits, ClassBits, ClassOf, Interpret, LastValues, SealOk, Scan, SplitFrom;
    var attrs := SplitFrom(m, 20).value;
    ParsedIsMessage(m, attrs);
    FieldsAreLastOccurrences(HeaderPacket(m), attrs, 20);
    HeaderType(m);
  }

  lemma HeaderType(m: seq<byte>)
    requires |m| >= 20 && m[0] < 3
    ensures var t := Get2Bytes(m, 0);
            t < 0x300 && MethodBits(t) < 0x1000 && TypeField(ClassOf(ClassBits(m[0], m[1])), MethodBits(t)) == t
  {
    hide TypeField, MethodBits, ClassBits, ClassOf;
    var t := Get2Bytes(m, 0);
    assert t / 0x100 == m[0] && t % 0x100 == m[1];
    TypeFieldOnto(t);
  }

  /** The username of a received message is shorter than the message. */
  lemma ReceivedUsername(m: seq<byte>)
    requires Parsed(m).Some?
    ensures |Parsed(m).value.username| + 24 <= |m| || Parsed(m).value.username == []
  {
    hide Interpret, LastFlags, Scan, SplitFrom, Get4Bytes, Get8Bytes, JoinError, Encode;
    var attrs := SplitFrom(m, 20).value;
    ParsedIsMessage(m, attrs);
    FieldsAreLastOccurrences(HeaderPacket(m), attrs, 20);
    var i := LastIndex(attrs, USERNAME);
    if i >= 0 {
      PartSize(attrs, i);
      RenderSize(attrs);
    }
  }

  lemma {:induction false} PartSize(attrs: seq<Attr>, i: nat)
    requires i < |attrs|
    ensures Size(attrs[i]) <= TotalSize(attrs)
    decreases |attrs|
  {
    if i > 0 {
      PartSize(attrs[1..], i - 1);
    }
  }

  /** Any message the server can receive fits when written again. */
  lemma ReceivedFits(m: seq<byte>)
    requires Parsed(m).Some? && |m| <= 2048
    ensures Fits(Parsed(m).value)
  {
    hide Parsed;
    ReceivedType(m);
    ReceivedUsername(m);
  }

  /** Parse, serialize, parse: everything but a lost error code survives, and a second parse and
      serialize over the same prior padding writes the same bytes, unless the error code was a
      multiple of 25600 (which the first serialization turned into no error at all). */
  lemma NormalForm(m: seq<byte>, pad: seq<byte>, hmac: Hmac)
    requires Parsed(m).Some? && Fits(Parsed(m).value) && |pad| == PadLen(|Parsed(m).value.username|)
    ensures var p := Parsed(m).value;
            var w := Wire(p, pad, hmac);
            && Parsed(w) == Some(p.(messageIntegrity := None, hasFingerprint := true,
                                    errorCode := if p.klass == ErrorResponse then p.errorCode % 25600 else 0))
            && Fits(Parsed(w).value)
            && (Wire(Parsed(w).value, pad, hmac) == w <==> (AddsError(p) ==> p.errorCode % 25600 != 0))
  {
    hide Parsed, TypeField, Wire, WireSize, BodySize;
    var p := Parsed(m).value;
    ReceivedType(m);
    WireRoundTrip(p, pad, hmac);
    var q := Received(p);
    SmallerFits(p, q);
    if AddsError(p) ==> p.errorCode % 25600 != 0 {
      ErrorIsStable(p, q);
      SameFieldsSameWire(p, q, pad, hmac);
    } else {
      SizeAgrees(p, pad, hmac);
      SizeAgrees(q, pad, hmac);
      LostError(p, q);
    }
  }

  lemma SmallerFits(p: Packet, q: Packet)
    requires Fits(p) && q == Received(p) && p.password == [] && p.xorMappedAddress.None? && p.methodCode < 0x1000
    ensures Fits(q)
  {
  }

  lemma LostError(p: Packet, q: Packet)
    requires q == Received(p) && p.password == [] && p.xorMappedAddress.None?
    requires AddsError(p) && p.errorCode % 25600 == 0
    ensures WireSize(q) < WireSize(p)
  {
  }

  lemma ErrorIsStable(p: Packet, q: Packet)
    requires q == Received(p) && (AddsError(p) ==> p.errorCode % 25600 != 0)
    ensures ErrorAttrs(q) == ErrorAttrs(p)
  {
    hide ErrorClass, ErrorNumber;
    SplitModulo(p.errorCode);
  }

  lemma SplitModulo(code: u16)
    ensures ErrorClass(code % 25600) == ErrorClass(code) && ErrorNumber(code % 25600) == ErrorNumber(code)
  {
    var c := code / 100;
    var k, r := c % 0x100, code % 100;
    ErrorParts(code, c / 0x100, k, r);
    ErrorParts(100 * k + r, 0, k, r);
  }

  lemma SameFieldsSameWire(p: Packet, q: Packet, pad: seq<byte>, hmac: Hmac)
    requires Fits(p) && Fits(q) && |pad| == PadLen(|p.username|)
    requires q == p.(messageIntegrity := q.messageIntegrity, hasFingerprint := q.hasFingerprint,
                     errorCode := q.errorCode)
    requires ErrorAttrs(p) == ErrorAttrs(q)
    ensures Wire(q, pad, hmac) == Wire(p, pad, hmac)
  {
    hide Render, Head, FingerprintAttr, Encode, BodySize, BodyAttrs;
    SameBody(p, q, pad);
    assert WireSize(q) == WireSize(p);
    SameHead(p, q, WireSize(p) - 20);
    SameHead(p, q, WireSize(p) - 28);
  }

  lemma SameBody(p: Packet, q: Packet, pad: seq<byte>)
    requires Fits(p) && Fits(q) && |pad| == PadLen(|p.username|)
    requires q == p.(messageIntegrity := q.messageIntegrity, hasFingerprint := q.hasFingerprint,
                     errorCode := q.errorCode)
    requires ErrorAttrs(p) == ErrorAttrs(q)
    ensures BodyAttrs(p, pad) == BodyAttrs(q, pad) && BodySize(p) == BodySize(q)
  {
    hide ErrorAttrs, Octet, MappedValue, BodySize;
    BodySizeAgrees(p, pad);
    BodySizeAgrees(q, pad);
  }

  lemma SameHead(p: Packet, q: Packet, length: u16)
    requires p.klass == q.klass && p.methodCode == q.methodCode && p.transactionId == q.transactionId
    ensures Head(p, length) == Head(q, length)
  {
  }
}
