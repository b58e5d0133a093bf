/** The `Stun` object: parsing a received buffer, writing one, and checking credentials in place. */
module Stun {
  import opened Wrappers
  import opened Words
  import opened Bytes
  import opened Crc32
  import opened Attributes
  import opened Message
  import opened Encoding
  import opened Authentication
  import opened RoundTrip
  import opened Writer

  /** A pointer into a buffer. */
  datatype Pointer = Pointer(buf: array<byte>, off: nat)

  // ----- one turn of the parser's loop -----

  /** An attribute that runs past the end, or that the rules exclude here, ends the parse. */
  lemma ResumeRejects(m: seq<byte>, pos: nat, mi: bool, fp: bool, p: Packet)
    requires pos + 4 <= |m|
    requires var n := Get2Bytes(m, pos + 2);
             || pos + 4 + n > |m|
             || (pos + 4 + n + PadLen(n) <= |m|
                 && (fp || (mi && Get2Bytes(m, pos) != FINGERPRINT) || !LengthOk(AttrAt(m, pos))))
    ensures Resume(m, pos, mi, fp, p).None?
  {
  }

  /** Otherwise the parse goes on behind it, with the fields it sets. */
  lemma ResumeSteps(m: seq<byte>, pos: nat, mi: bool, fp: bool, p: Packet)
    requires pos + 4 <= |m|
    requires var n := Get2Bytes(m, pos + 2); pos + 4 + n + PadLen(n) <= |m|
    requires var a := AttrAt(m, pos); !fp && (mi ==> a.kind == FINGERPRINT) && LengthOk(a)
    ensures var a := AttrAt(m, pos);
            Resume(m, pos, mi, fp, p)
            == Resume(m, pos + Size(a), mi || a.kind == MESSAGE_INTEGRITY, a.kind == FINGERPRINT, Apply(p, a, pos))
  {
    hide LengthOk, SealOk, Get2Bytes, Apply, AttrAt, SplitFrom, Scan, Interpret;
    var a := AttrAt(m, pos);
    SplitOn(m, pos);
    match SplitFrom(m, pos + Size(a))
    case None =>
    case Some(rest) =>
      ScanIsAdmissible(rest, mi || a.kind == MESSAGE_INTEGRITY, a.kind == FINGERPRINT);
      ScanIsAdmissible([a] + rest, mi, fp);
      OneMore(a, rest, mi, fp, p, pos);
  }

  lemma SplitOn(m: seq<byte>, pos: nat)
    requires pos + 4 <= |m|
    requires var n := Get2Bytes(m, pos + 2); pos + 4 + n + PadLen(n) <= |m|
    ensures var a := AttrAt(m, pos);
            SplitFrom(m, pos) == match SplitFrom(m, pos + Size(a))
                                 case None => None
                                 case Some(rest) => Some([a] + rest)
  {
    hide Get2Bytes, AttrAt, PadLen;
  }

  lemma OneMore(a: Attr, rest: seq<Attr>, mi: bool, fp: bool, p: Packet, pos: nat)
    requires !fp && (mi ==> a.kind == FINGERPRINT) && LengthOk(a)
    ensures Scan([a] + rest, mi, fp) == Scan(rest, mi || a.kind == MESSAGE_INTEGRITY, a.kind == FINGERPRINT)
    ensures rest != [] ==> EndsInFingerprint([a] + rest) == EndsInFingerprint(rest)
    ensures LengthsOk(rest) ==>
              LengthsOk([a] + rest)
              && Interpret(p, [a] + rest, pos) == Interpret(Apply(p, a, pos), rest, pos + Size(a))
  {
    hide LengthOk, Apply, Size;
    var attrs := [a] + rest;
    assert attrs[1..] == rest;
    assert rest != [] ==> attrs[|attrs| - 1] == rest[|rest| - 1];
  }

  lemma ResumeEnds(m: seq<byte>, mi: bool, fp: bool, p: Packet)
    ensures Resume(m, |m|, mi, fp, p) == if fp && !SealOk(m) then None else Some(p)
  {
  }

  /** Reading a value in the message or in the attribute is the same. */
  lemma ValueInMessage(m: seq<byte>, pos: nat)
    requires pos + 4 <= |m|
    requires var n := Get2Bytes(m, pos + 2); pos + 4 + n + PadLen(n) <= |m|
    ensures var a := AttrAt(m, pos);
            && a.kind == Get2Bytes(m, pos)
            && |a.value| == Get2Bytes(m, pos + 2) && pos + 4 + |a.value| <= |m|
            && a.value == m[pos + 4..pos + 4 + |a.value|]
            && (|a.value| >= 4 ==> Get4Bytes(m, pos + 4) == Get4Bytes(a.value, 0))
            && (|a.value| >= 8 ==> Get8Bytes(m, pos + 4) == Get8Bytes(a.value, 0))
            && (|a.value| >= 4 ==> m[pos + 6] == a.value[2] && m[pos + 7] == a.value[3])
  {
  }

  class Stun {
    var klass: Class
    var methodCode: u16
    var transactionId: Pointer
    var data: array?<byte>
    var size: nat
    var username: seq<byte>
    var priority: u32
    var iceControlling: u64
    var iceControlled: u64
    var hasUseCandidate: bool
    var messageIntegrity: Option<nat>
    var hasFingerprint: bool
    var xorMappedAddress: Option<SockAddr>
    var errorCode: u16
    var password: seq<byte>

    ghost predicate Valid()
      reads this
    {
      transactionId.off + 12 <= transactionId.buf.Length
    }

    /** The fields as values; the transaction id is read through its pointer. */
    ghost function View(): Packet
      requires Valid()
      reads this, transactionId.buf
    {
      Packet(klass, methodCode, transactionId.buf[transactionId.off..transactionId.off + 12], username, priority,
             iceControlling, iceControlled, hasUseCandidate, messageIntegrity, hasFingerprint, xorMappedAddress,
             errorCode, password)
    }

    constructor (klass: Class, methodCode: u16, transactionId: Pointer, data: array?<byte>, size: nat)
      requires transactionId.off + 12 <= transactionId.buf.Length
      ensures Valid() && this.transactionId == transactionId && this.data == data && this.size == size
      ensures View() == Packet(klass, methodCode, transactionId.buf[transactionId.off..transactionId.off + 12],
                               [], 0, 0, 0, false, None, false, None, 0, [])
    {
      this.klass := klass;
      this.methodCode := methodCode;
      this.transactionId := transactionId;
      this.data := data;
      this.size := size;
      username := [];
      priority := 0;
      iceControlling := 0;
      iceControlled := 0;
      hasUseCandidate := false;
      messageIntegrity := None;
      hasFingerprint := false;
      xorMappedAddress := None;
      errorCode := 0;
      password := [];
    }

    /** The `switch` over the attribute type in `Parse`; `ok` is false where it deletes the packet. */
    method ReadAttribute(m: seq<byte>, pos: nat) returns (ok: bool)
      requires Valid() && pos + 4 <= |m|
      requires var n := Get2Bytes(m, pos + 2); pos + 4 + n + PadLen(n) <= |m|
      modifies this
      ensures ok == LengthOk(AttrAt(m, pos))
      ensures Valid() && transactionId == old(transactionId) && data == old(data) && size == old(size)
      ensures ok ==> View() == Apply(old(View()), AttrAt(m, pos), pos)
    {
      hide Get2Bytes, Get4Bytes, Get8Bytes, PadLen, AttrAt, JoinError;
      ghost var a := AttrAt(m, pos);
      ValueInMessage(m, pos);
      var attrType, attrLength := Get2Bytes(m, pos), Get2Bytes(m, pos + 2);
      if attrType == USERNAME {
        username := m[pos + 4..pos + 4 + attrLength];
      } else if attrType == PRIORITY {
        if attrLength != 4 {
          return false;
        }
        priority := Get4Bytes(m, pos + 4);
      } else if attrType == ICE_CONTROLLING {
        if attrLength != 8 {
          return false;
        }
        iceControlling := Get8Bytes(m, pos + 4);
      } else if attrType == ICE_CONTROLLED {
        if attrLength != 8 {
          return false;
        }
        iceControlled := Get8Bytes(m, pos + 4);
      } else if attrType == USE_CANDIDATE {
        if attrLength != 0 {
          return false;
        }
        hasUseCandidate := true;
      } else if attrType == MESSAGE_INTEGRITY {
        if attrLength != 20 {
          return false;
        }
        messageIntegrity := Some(pos + 4);
      } else if attrType == FINGERPRINT {
        if attrLength != 4 {
          return false;
        }
        hasFingerprint := true;
      } else if attrType == ERROR_CODE {
        if attrLength < 4 {
          return false;
        }
        errorCode := JoinError(m[pos + 6], m[pos + 7]);
      }
      ok := true;
    }

    /** One turn of the loop in `Parse`: the checks on the attribute at `pos`, what it sets, and the
        next cursor; `ok` is false where the parse fails. */
    method ParseAttribute(m: seq<byte>, pos: nat, hasMessageIntegrity: bool, hasFingerprint: bool)
      returns (ok: bool, next: nat)
      requires Valid() && |m| % 4 == 0 && |m| <= 65532 && pos % 4 == 0 && pos + 4 <= |m|
      modifies this
      ensures Valid() && transactionId == old(transactionId) && data == old(data) && size == old(size)
      ensures !ok ==> Resume(m, pos, hasMessageIntegrity, hasFingerprint, old(View())).None?
      ensures ok ==>
                && pos < next <= |m| && next % 4 == 0
                && (Get2Bytes(m, pos) == FINGERPRINT ==> next == pos + 8)
                && Resume(m, pos, hasMessageIntegrity, hasFingerprint, old(View()))
                   == Resume(m, next, hasMessageIntegrity || Get2Bytes(m, pos) == MESSAGE_INTEGRITY,
                             Get2Bytes(m, pos) == FINGERPRINT, View())
    {
      hide Resume, Apply, Get2Bytes;
      ghost var before := View();
      var attrType, attrLength := Get2Bytes(m, pos), Get2Bytes(m, pos + 2);
      next := pos;
      if pos + 4 + attrLength > |m| {
        ResumeRejects(m, pos, hasMessageIntegrity, hasFingerprint, before);
        return false, next;
      }
      WholeAttribute(m, pos, attrLength);
      if hasFingerprint || (hasMessageIntegrity && attrType != FINGERPRINT) {
        ResumeRejects(m, pos, hasMessageIntegrity, hasFingerprint, before);
        return false, next;
      }
      ok := ReadAttribute(m, pos);
      if !ok {
        ResumeRejects(m, pos, hasMessageIntegrity, hasFingerprint, before);
        return false, next;
      }
      ResumeSteps(m, pos, hasMessageIntegrity, hasFingerprint, before);
      CursorStep(pos + 4 + attrLength);
      next := PadTo4Bytes((pos + 4 + attrLength) % 0x1_0000);
    }

    /** Accepts exactly the messages `Parsed` accepts, with its fields. Past 65532 bytes the 16-bit cursor
        wraps, so there the header must be one that is rejected. */
    static method Parse(data: array<byte>, len: nat) returns (packet: Stun?)
      requires len <= data.Length && (len <= 65532 || !HeaderOk(data[..len]))
      ensures packet == null <==> Parsed(data[..len]).None?
      ensures packet != null ==>
                && fresh(packet) && packet.Valid()
                && packet.View() == Parsed(data[..len]).value
                && packet.data == data && packet.size == len && packet.transactionId == Pointer(data, 8)
                && packet.IntegrityValid() && packet.LengthFieldOk()
    {
      hide *;
      var m := data[..len];
      ParsedHeader(m);
      if !IsStun(m) {
        return null;
      }
      var msgType, msgLength := Get2Bytes(m, 0), Get2Bytes(m, 2);
      if msgLength != len - 20 || msgLength % 4 != 0 {
        return null;
      }
      packet := new Stun(ClassOf(ClassBits(m[0], m[1])), MethodBits(msgType), Pointer(data, 8), data, len);
      assert data[8..20] == m[8..20];
      var pos, hasMessageIntegrity, hasFingerprint := 20, false, false;
      var fingerprintAttrPos, fingerprint: u32 := 0, 0;
      while pos + 4 <= len
        invariant 20 <= pos <= len && pos % 4 == 0
        invariant fresh(packet) && packet.Valid()
        invariant packet.data == data && packet.size == len && packet.transactionId == Pointer(data, 8)
        invariant Parsed(m) == Resume(m, pos, hasMessageIntegrity, hasFingerprint, packet.View())
        invariant hasFingerprint ==>
                    fingerprintAttrPos + 8 == pos && fingerprint == Get4Bytes(m, fingerprintAttrPos + 4)
        decreases len - pos
      {
        var attrType := Get2Bytes(m, pos);
        var ok, next := packet.ParseAttribute(m, pos, hasMessageIntegrity, hasFingerprint);
        if !ok {
          return null;
        }
        if attrType == FINGERPRINT {
          fingerprintAttrPos := pos;
          fingerprint := Get4Bytes(m, pos + 4);
        }
        hasMessageIntegrity := hasMessageIntegrity || attrType == MESSAGE_INTEGRITY;
        hasFingerprint := attrType == FINGERPRINT;
        pos := next;
      }
      // The cursor always ends on the last byte, so this check never rejects.
      if pos != len {
        assert false;
      }
      ResumeEnds(m, hasMessageIntegrity, hasFingerprint, packet.View());
      if hasFingerprint {
        var crc := GetCRC32(data, fingerprintAttrPos);
        SealAt(m, data[..fingerprintAttrPos], fingerprint);
        if fingerprint != Seal(crc) {
          return null;
        }
      }
      ParsedIsCheckable(m, data[..], packet.View());
      packet.Checkable();
    }

    /** The message the object refers to. */
    ghost function Bytes(): seq<byte>
      reads this, data
    {
      if data == null || size > data.Length then [] else data[..size]
    }

    /** A MESSAGE-INTEGRITY pointer points into the message. */
    ghost predicate IntegrityValid()
      requires Valid()
      reads this, transactionId.buf, data
    {
      messageIntegrity.Some? ==> data != null && size <= data.Length && IntegrityInside(data[..size], View())
    }

    /** The length field agrees with the size, as in every parsed or serialized message. */
    ghost predicate LengthFieldOk()
      reads this, data
    {
      data != null && 20 <= size <= data.Length && Get2Bytes(data[..], 2) == size - 20
    }

    lemma Checkable()
      requires Valid() && data != null && 20 <= size <= data.Length
      requires IntegrityInside(data[..size], View()) && Get2Bytes(data[..], 2) == size - 20
      ensures IntegrityValid() && LengthFieldOk()
    {
    }

    /** Decides as `Check` does. The length field is rewritten for the HMAC and restored, so the buffer
        ends as it was whenever its length field agreed with the size. */
    method CheckAuthentication(localUsername: seq<byte>, localPassword: seq<byte>, hmac: Hmac)
      returns (result: Outcome)
      requires Valid() && IntegrityValid()
      modifies data
      ensures IntegrityInside(old(Bytes()), old(View()))
      ensures result == Check(old(Bytes()), old(View()), localUsername, localPassword, hmac)
      ensures old(LengthFieldOk()) ==> data[..] == old(data[..])
    {
      hide UsernameMatches, Splice;
      if klass == SuccessResponse || klass == ErrorResponse {
        return BadRequest;
      }
      if messageIntegrity.None? || username == [] {
        return BadRequest;
      }
      if !UsernameMatches(username, localUsername) {
        return Unauthorized;
      }
      var same := CompareIntegrity(data, size, messageIntegrity.value, hasFingerprint, localPassword, hmac);
      result := if same then OK else Unauthorized;
    }

    // ----- writing -----

    /** The fields other than the transaction id are those of `p`. */
    ghost predicate Holds(p: Packet)
      reads this
    {
      && klass == p.klass && methodCode == p.methodCode && username == p.username && priority == p.priority
      && iceControlling == p.iceControlling && iceControlled == p.iceControlled
      && hasUseCandidate == p.hasUseCandidate && xorMappedAddress == p.xorMappedAddress
      && errorCode == p.errorCode && password == p.password
    }

    /** The first pass of `Serialize`. */
    method ComputeSize(ghost p: Packet) returns (bodySize: nat, total: nat)
      requires Holds(p)
      ensures bodySize == BodySize(p) && total == WireSize(p)
    {
      bodySize := 0;
      if username != [] {
        bodySize := bodySize + (4 + PadTo4Bytes(|username| % 0x1_0000));
      }
      if priority != 0 {
        bodySize := bodySize + (4 + 4);
      }
      if iceControlling != 0 {
        bodySize := bodySize + (4 + 8);
      }
      if iceControlled != 0 {
        bodySize := bodySize + (4 + 8);
      }
      if hasUseCandidate {
        bodySize := bodySize + 4;
      }
      if xorMappedAddress.Some? && methodCode == BINDING && klass == SuccessResponse {
        match xorMappedAddress.value
        case Inet(_, _) => bodySize := bodySize + (4 + 8);
        case Inet6(_, _) => bodySize := bodySize + (4 + 20);
        case OtherFamily =>
      }
      if errorCode != 0 && klass == ErrorResponse {
        bodySize := bodySize + (4 + 4);
      }
      total := 20 + bodySize;
      if klass != ErrorResponse && password != [] {
        total := total + (4 + 20);
      }
      total := total + (4 + 4);
    }

    /** Type, length, cookie and transaction id. */
    method WriteHead(buffer: array<byte>, ghost p: Packet)
      requires Valid() && View() == p && 28 <= size <= 65532 && size <= buffer.Length
      requires transactionId.buf == buffer ==> transactionId.off == 8 || transactionId.off >= 20
      modifies buffer, this`transactionId
      ensures Valid() && transactionId == Pointer(buffer, 8)
      ensures Written(buffer[..], old(buffer[..]), Head(p, size - 20))
    {
      hide Octet, Be2, TypeField, Splice, Written;
      ghost var prior := buffer[..];
      var t := TypeField(klass, methodCode);
      PutOpening(buffer, t, (size % 0x1_0000 - 20) % 0x1_0000);
      ghost var done := Be2(t) + Be2(size - 20) + COOKIE;
      WrittenTail(buffer[..], prior, done, transactionId.off, 12);
      var id := transactionId.buf[transactionId.off..transactionId.off + 12];
      assert id == p.transactionId;
      WriteNext(buffer[..], prior, done, id);
      CopyBytes(buffer, 8, id);
      transactionId := Pointer(buffer, 8);
    }

    /** The attributes before MESSAGE-INTEGRITY. */
    method WriteBody(buffer: array<byte>, ghost p: Packet, ghost prior: seq<byte>, ghost head: seq<byte>)
      returns (pos: nat, ghost pad: seq<byte>)
      requires Holds(p) && Fits(p) && |head| == 20 && Written(buffer[..], prior, head) && 20 + BodySize(p) <= |prior|
      requires Valid() && transactionId == Pointer(buffer, 8) && head[8..20] == p.transactionId
      modifies buffer
      ensures p.username != [] ==> 24 + |p.username| + PadLen(|p.username|) <= |prior|
      ensures pad == Padding(p, prior) && pos == 20 + BodySize(p)
      ensures At(buffer[..], prior, head, BodyAttrs(p, pad), pos)
    {
      hide UsernameAttrs, PriorityAttrs, ControllingAttrs, ControlledAttrs, CandidateAttrs, MappedAttrs, ErrorAttrs,
           BodySize, WireSize, TotalSize, At, Render, Written, Padding;
      BodyRoom(p, prior);
      StartAt(buffer[..], prior, head);
      pos, pad := WriteUsername(buffer, 20, username, prior, p, head);
      BodyIsSumOfPieces(p, pad);
      ghost var attrs := UsernameAttrs(p, pad);
      Position(buffer[..], prior, head, attrs, pos);
      pos := WritePriority(buffer, pos, priority, prior, p, head, attrs);
      Position(buffer[..], prior, head, attrs + PriorityAttrs(p), pos);
      Sum(attrs, PriorityAttrs(p));
      attrs := attrs + PriorityAttrs(p);
      pos := WriteControlling(buffer, pos, iceControlling, prior, p, head, attrs);
      Position(buffer[..], prior, head, attrs + ControllingAttrs(p), pos);
      Sum(attrs, ControllingAttrs(p));
      attrs := attrs + ControllingAttrs(p);
      pos := WriteControlled(buffer, pos, iceControlled, prior, p, head, attrs);
      Position(buffer[..], prior, head, attrs + ControlledAttrs(p), pos);
      Sum(attrs, ControlledAttrs(p));
      attrs := attrs + ControlledAttrs(p);
      pos := WriteCandidate(buffer, pos, hasUseCandidate, prior, p, head, attrs);
      Position(buffer[..], prior, head, attrs + CandidateAttrs(p), pos);
      Sum(attrs, CandidateAttrs(p));
      attrs := attrs + CandidateAttrs(p);
      HeadStays(buffer[..], prior, head, attrs, pos);
      var addMapped := xorMappedAddress.Some? && !xorMappedAddress.value.OtherFamily? && methodCode == BINDING
          && klass == SuccessResponse;
      pos := WriteMapped(buffer, pos, addMapped, xorMappedAddress, transactionId.buf[8..20], prior, p, head, attrs);
      Position(buffer[..], prior, head, attrs + MappedAttrs(p), pos);
      Sum(attrs, MappedAttrs(p));
      attrs := attrs + MappedAttrs(p);
      pos := WriteError(buffer, pos, errorCode != 0 && klass == ErrorResponse, errorCode, prior, p, head, attrs);
      Position(buffer[..], prior, head, attrs + ErrorAttrs(p), pos);
      Sum(attrs, ErrorAttrs(p));
    }

    /** MESSAGE-INTEGRITY, if one is due, signed with the length field that ends behind it. */
    method WriteIntegrity(buffer: array<byte>, start: nat, hmac: Hmac, ghost p: Packet, ghost pad: seq<byte>,
                          ghost prior: seq<byte>)
      returns (pos: nat)
      requires Holds(p) && Fits(p) && size == WireSize(p) && |pad| == PadLen(|p.username|) && start == 20 + BodySize(p)
      requires At(buffer[..], prior, Head(p, size - 20), BodyAttrs(p, pad), start) && size <= |prior|
      modifies buffer, this`messageIntegrity
      ensures messageIntegrity == if AddsIntegrity(p) then Some(20 + BodySize(p) + 4) else None
      ensures pos == WireSize(p) - 8 && Written(buffer[..], prior, Unsealed(p, pad, hmac))
    {
      hide Head, BodyAttrs, BodySize, WireSize, Render, Encode, Written, Octet, Be2, Splice, SignedPart, Unsealed;
      SizeBounds(p);
      ghost var done := Head(p, size - 20) + Render(BodyAttrs(p, pad));
      UnsealedForms(p, pad, hmac);
      pos := start;
      if klass != ErrorResponse && password != [] {
        SignedIsSpliced(p, pad, Head(p, size - 20));
        pos := AddIntegrity(buffer, pos, size, password, hmac, prior, done);
        messageIntegrity := Some(pos - 20);
      } else {
        messageIntegrity := None;
      }
    }

    /** The closing FINGERPRINT. */
    method WriteFingerprint(buffer: array<byte>, start: nat, ghost unsealed: seq<byte>, ghost prior: seq<byte>)
      returns (pos: nat)
      requires Written(buffer[..], prior, unsealed) && start == |unsealed| && start + 8 <= |prior|
      modifies buffer, this`hasFingerprint
      ensures hasFingerprint && pos == start + 8
      ensures Written(buffer[..], prior, unsealed + Encode(Tlv(FINGERPRINT, Be4(Seal(Crc(unsealed))), [])))
    {
      hide *;
      WrittenPrefix(buffer[..], prior, unsealed);
      assert buffer[..start] == buffer[..][..start];
      var crc := GetCRC32(buffer, start);
      pos := AddWord(buffer, start, FINGERPRINT, Seal(crc), prior, unsealed);
      hasFingerprint := true;
    }

    /** The second pass of `Serialize`. */
    method WriteMessage(buffer: array<byte>, hmac: Hmac, ghost p: Packet, ghost prior: seq<byte>)
        returns (ghost pad: seq<byte>)
      requires Valid() && View() == p && Fits(p) && size == WireSize(p) <= buffer.Length && prior == buffer[..]
      requires transactionId.buf == buffer ==> transactionId.off == 8 || transactionId.off >= 20
      modifies buffer, this`transactionId, this`messageIntegrity, this`hasFingerprint
      ensures transactionId == Pointer(buffer, 8) && hasFingerprint
      ensures messageIntegrity == if AddsIntegrity(p) then Some(20 + BodySize(p) + 4) else None
      ensures p.username != [] ==> 24 + |p.username| + PadLen(|p.username|) <= |prior|
      ensures pad == Padding(p, prior)
      ensures Written(buffer[..], prior, Unsealed(p, pad, hmac)
                                         + Encode(Tlv(FINGERPRINT, Be4(Seal(Crc(Unsealed(p, pad, hmac)))), [])))
    {
      hide Head, BodyAttrs, BodySize, WireSize, Render, Encode, Octet, Be2, Be4, Splice, At, Wire, Unsealed, Padding,
           Seal, Crc, AddsIntegrity, TypeField, Written, AddsMapped, AddsError;
      SizeBounds(p);
      WriteHead(buffer, p);
      HeadHasId(p, size - 20);
      var pos;
      pos, pad := WriteBody(buffer, p, prior, Head(p, size - 20));
      pos := WriteIntegrity(buffer, pos, hmac, p, pad, prior);
      SizeAgrees(p, pad, hmac);
      Sized(buffer[..], prior, Unsealed(p, pad, hmac));
      pos := WriteFingerprint(buffer, pos, Unsealed(p, pad, hmac), prior);
      // The write cursor ends where the first pass said it would.
      assert pos == size;
    }

    /** Writes the fields into `buffer`: the message `Wire`, over the prior content, which shows only in
        the padding of the username and behind the message. */
    method Serialize(buffer: array<byte>, hmac: Hmac)
      requires Valid() && Fits(View()) && WireSize(View()) <= buffer.Length
      requires transactionId.buf == buffer ==> transactionId.off == 8 || transactionId.off >= 20
      modifies this, buffer
      ensures Valid() && data == buffer && size == WireSize(old(View())) && transactionId == Pointer(buffer, 8)
      ensures var p, prior := old(View()), old(buffer[..]);
              && (p.username != [] ==> 24 + |p.username| + PadLen(|p.username|) <= |prior|)
              && |Wire(p, Padding(p, prior), hmac)| == size
              && buffer[..] == Wire(p, Padding(p, prior), hmac) + prior[size..]
      ensures View() == old(View()).(
                messageIntegrity := if AddsIntegrity(old(View())) then Some(20 + BodySize(old(View())) + 4) else None,
                hasFingerprint := true)
      ensures IntegrityValid() && LengthFieldOk()
    {
      hide BodySize, WireSize, Encode, Be4, Wire, Unsealed, Padding, Seal, Crc, AddsIntegrity, Written, Get2Bytes;
      ghost var p, prior := View(), buffer[..];
      var bodySize, total := ComputeSize(p);
      size := total;
      data := buffer;
      ghost var pad := WriteMessage(buffer, hmac, p, prior);
      Sealed(p, pad, hmac, buffer[..], prior);
      assert buffer[8..20] == buffer[..][8..20];
      LengthIsWritten(p, pad, hmac, buffer[..]);
    }

    // ----- responses -----

    method SetXorMappedAddress(addr: Option<SockAddr>)
      requires Valid()
      modifies this`xorMappedAddress
      ensures View() == old(View()).(xorMappedAddress := addr)
    {
      xorMappedAddress := addr;
    }

    /** A success response shares the request's method and transaction id, and nothing else. */
    method CreateSuccessResponse() returns (response: Stun)
      requires Valid()
      ensures fresh(response) && response.Valid() && response.transactionId == transactionId
      ensures response.View() == Packet(SuccessResponse, methodCode, View().transactionId,
                                        [], 0, 0, 0, false, None, false, None, 0, [])
    {
      response := new Stun(SuccessResponse, methodCode, transactionId, null, 0);
    }

    method CreateErrorResponse(code: u16) returns (response: Stun)
      requires Valid()
      ensures fresh(response) && response.Valid() && response.transactionId == transactionId
      ensures response.View() == Packet(ErrorResponse, methodCode, View().transactionId,
                                        [], 0, 0, 0, false, None, false, None, code, [])
    {
      response := new Stun(ErrorResponse, methodCode, transactionId, null, 0);
      response.errorCode := code;
    }

    /** Sets the password to sign with; an error response is never signed. */
    method Authenticate(newPassword: seq<byte>)
      requires Valid()
      modifies this`password
      ensures View() == old(View()).(password := if klass == ErrorResponse then old(password) else newPassword)
    {
      if klass == ErrorResponse {
        return;
      }
      password := newPassword;
    }
  }

  lemma Sized(now: seq<byte>, prior: seq<byte>, done: seq<byte>)
    requires Written(now, prior, done)
    ensures |now| == |prior|
  {
  }

  /** The unsealed message is head and body, with a MESSAGE-INTEGRITY behind them if one is due. */
  lemma UnsealedForms(p: Packet, pad: seq<byte>, hmac: Hmac)
    requires Fits(p) && |pad| == PadLen(|p.username|)
    ensures var done := Head(p, WireSize(p) - 20) + Render(BodyAttrs(p, pad));
            && |done| == 20 + BodySize(p)
            && (if AddsIntegrity(p) then
                  && WireSize(p) == 20 + BodySize(p) + 24 + 8
                  && Unsealed(p, pad, hmac)
                     == done + Encode(IntegrityAttr(hmac(p.password, SignedPart(p, pad))))
                else
                  WireSize(p) == 20 + BodySize(p) + 8 && Unsealed(p, pad, hmac) == done)
  {
    hide Head, BodyAttrs, BodySize, Render, Encode, SignedPart;
    BodySizeAgrees(p, pad);
    RenderSize(BodyAttrs(p, pad));
    var head, body := Head(p, WireSize(p) - 20), BodyAttrs(p, pad);
    if AddsIntegrity(p) {
      Extend(head, body, IntegrityAttr(hmac(p.password, SignedPart(p, pad))));
    } else {
      assert body + [] == body;
    }
  }

  lemma SizeBounds(p: Packet)
    requires Fits(p)
    ensures 28 <= WireSize(p) <= 65532 && 20 + BodySize(p) <= WireSize(p) - 8
  {
  }

  lemma HeadHasId(p: Packet, length: u16)
    ensures Head(p, length)[8..20] == p.transactionId && Head(p, length)[2..4] == Be2(length)
  {
  }

  lemma SignedIsSpliced(p: Packet, pad: seq<byte>, head: seq<byte>)
    requires Fits(p) && |pad| == PadLen(|p.username|) && head == Head(p, WireSize(p) - 20)
    ensures var done := head + Render(BodyAttrs(p, pad));
            && done[2..4] == Be2(WireSize(p) - 20)
            && Splice(done, 2, Be2(WireSize(p) - 28)) == SignedPart(p, pad)
  {
    hide Octet, Be2, TypeField, BodyAttrs, Render, WireSize, Head, Splice;
    SizeBounds(p);
    HeadHasId(p, WireSize(p) - 20);
    var rest := Render(BodyAttrs(p, pad));
    assert (head + rest)[2..4] == head[2..4];
    SplicePrefix(head, rest, 2, Be2(WireSize(p) - 28));
    SpliceLength(p, WireSize(p) - 20, WireSize(p) - 28);
    SignedForm(p, pad);
  }

  lemma SignedForm(p: Packet, pad: seq<byte>)
    requires Fits(p) && |pad| == PadLen(|p.username|)
    ensures WireSize(p) >= 28 && SignedPart(p, pad) == Head(p, WireSize(p) - 28) + Render(BodyAttrs(p, pad))
  {
    hide BodyAttrs, Render, Head, WireSize;
    SizeBounds(p);
  }

  lemma SplicePrefix(head: seq<byte>, rest: seq<byte>, i: nat, t: seq<byte>)
    requires i + |t| <= |head|
    ensures Splice(head + rest, i, t) == Splice(head, i, t) + rest
  {
  }

  lemma SpliceLength(p: Packet, v: u16, w: u16)
    ensures Splice(Head(p, v), 2, Be2(w)) == Head(p, w)
  {
    hide Octet, Be2, TypeField;
    var t := Be2(TypeField(p.klass, p.methodCode));
    FourParts(t, Be2(v), COOKIE, p.transactionId);
    assert Head(p, v)[..2] == t && Head(p, v)[4..] == COOKIE + p.transactionId;
    assert Head(p, w) == t + Be2(w) + (COOKIE + p.transactionId);
  }

  lemma Sealed(p: Packet, pad: seq<byte>, hmac: Hmac, now: seq<byte>, prior: seq<byte>)
    requires Fits(p) && |pad| == PadLen(|p.username|)
    requires Written(now, prior, Unsealed(p, pad, hmac)
                                 + Encode(Tlv(FINGERPRINT, Be4(Seal(Crc(Unsealed(p, pad, hmac)))), [])))
    ensures |Wire(p, pad, hmac)| == WireSize(p) <= |prior|
    ensures now == Wire(p, pad, hmac) + prior[WireSize(p)..]
    ensures |now| >= 20 && now[8..20] == p.transactionId
  {
    hide Octet, Be4, Seal, Crc, Unsealed, Head, Encode, WireSize, Render, BodyAttrs, BodySize;
    SizeAgrees(p, pad, hmac);
    WireOpening(p, pad, hmac);
  }

  /** A written message has its length in the length field, and its MESSAGE-INTEGRITY inside. */
  lemma LengthIsWritten(p: Packet, pad: seq<byte>, hmac: Hmac, now: seq<byte>)
    requires Fits(p) && |pad| == PadLen(|p.username|)
    requires |Wire(p, pad, hmac)| == WireSize(p) <= |now| && now[..WireSize(p)] == Wire(p, pad, hmac)
    ensures 28 <= WireSize(p) <= 65532 && Get2Bytes(now, 2) == WireSize(p) - 20
    ensures AddsIntegrity(p) ==> WireSize(p) == 20 + BodySize(p) + 24 + 8
  {
    hide Wire, Head, BodySize, WireSize, AddsIntegrity, Get2Bytes, Render, AllAttrs, Unsealed, TypeField;
    SizeBounds(p);
    IntegritySize(p);
    WireParts(p, pad, hmac);
    assert now[..20] == now[..WireSize(p)][..20];
    HeadFields(p, WireSize(p) - 20, now);
  }

  lemma IntegritySize(p: Packet)
    ensures AddsIntegrity(p) ==> WireSize(p) == 20 + BodySize(p) + 24 + 8
  {
    hide BodySize, AddsIntegrity;
  }

  lemma WireOpening(p: Packet, pad: seq<byte>, hmac: Hmac)
    requires Fits(p) && |pad| == PadLen(|p.username|)
    ensures |Wire(p, pad, hmac)| >= 20 && Wire(p, pad, hmac)[8..20] == p.transactionId
  {
    hide Octet, Be4, Seal, Crc, Head, Encode, WireSize, Render, UnsealedAttrs, BodyAttrs;
    SizeBounds(p);
    HeadHasId(p, WireSize(p) - 20);
    var head, w := Head(p, WireSize(p) - 20), Wire(p, pad, hmac);
    assert w[..20] == head;
    assert w[8..20] == head[8..20];
  }

  lemma BodyRoom(p: Packet, prior: seq<byte>)
    requires Fits(p) && 20 + BodySize(p) <= |prior|
    ensures p.username != [] ==> 24 + |p.username| + PadLen(|p.username|) <= |prior|
  {
    CursorStep(|p.username|);
  }

  lemma StartAt(now: seq<byte>, prior: seq<byte>, head: seq<byte>)
    requires Written(now, prior, head)
    ensures At(now, prior, head, [], |head|)
  {
  }

  lemma Position(now: seq<byte>, prior: seq<byte>, head: seq<byte>, attrs: seq<Attr>, pos: nat)
    requires At(now, prior, head, attrs, pos)
    ensures pos == |head| + TotalSize(attrs)
  {
    RenderSize(attrs);
  }

  lemma Sum(a: seq<Attr>, b: seq<Attr>)
    ensures TotalSize(a + b) == TotalSize(a) + TotalSize(b)
  {
    RenderAppend(a, b);
  }

  lemma HeadStays(now: seq<byte>, prior: seq<byte>, head: seq<byte>, attrs: seq<Attr>, pos: nat)
    requires At(now, prior, head, attrs, pos) && |head| == 20
    ensures |now| >= 20 && now[8..20] == head[8..20] && now[..20] == head
  {
  }

  /** What lies behind the written part is what was there before. */
  lemma WrittenTail(now: seq<byte>, prior: seq<byte>, done: seq<byte>, i: nat, k: nat)
    requires Written(now, prior, done)
    ensures |now| == |prior|
    ensures |done| <= i && i + k <= |prior| ==> now[i..i + k] == prior[i..i + k]
  {
  }

  /** The HMAC comparison of `CheckAuthentication`, on the buffer it edits and restores. */
  method CompareIntegrity(data: array<byte>, size: nat, at: nat, hasFingerprint: bool, localPassword: seq<byte>,
                          hmac: Hmac)
    returns (same: bool)
    requires 28 <= size <= data.Length && size < 0x1_0000 && 24 <= at <= size - 20
    modifies data
    ensures var m := old(data[..size]);
            same == (m[at..at + 20]
                     == hmac(localPassword, (if hasFingerprint then Splice(m, 2, Be2(size - 28)) else m)[..at - 4]))
    ensures Get2Bytes(old(data[..]), 2) == size - 20 ==> data[..] == old(data[..])
  {
    hide Be2, Get2Bytes, Splice;
    ghost var before := data[..];
    if hasFingerprint {
      Set2Bytes(data, 2, size - 20 - 8);
    }
    SignedPrefix(before, data[..], size, at, hasFingerprint);
    same := data[..][at..at + 20] == hmac(localPassword, data[..][..at - 4]);
    assert before[..size] == old(data[..size]);
    if hasFingerprint {
      Set2Bytes(data, 2, size - 20);
      RestoreLength(before, size - 28, size - 20);
    }
  }

  /** After the length was rewritten, the bytes before and in MESSAGE-INTEGRITY are those of `Check`. */
  lemma SignedPrefix(before: seq<byte>, now: seq<byte>, size: nat, at: nat, hasFingerprint: bool)
    requires 28 <= size <= |before| && size < 0x1_0000 && 24 <= at <= size - 20
    requires now == if hasFingerprint then Splice(before, 2, Be2(size - 28)) else before
    ensures now[at..at + 20] == before[..size][at..at + 20]
    ensures now[..at - 4]
            == (if hasFingerprint then Splice(before[..size], 2, Be2(size - 28)) else before[..size])[..at - 4]
  {
    hide Be2;
    var m := before[..size];
    SubSlice(before, 0, size, at, at + 20);
    SubSlice(before, 0, size, 0, at - 4);
    if hasFingerprint {
      var field := Be2(size - 28);
      SpliceInside(before, size, 2, field);
      SubSlice(now, 0, size, at, at + 20);
      SubSlice(now, 0, size, 0, at - 4);
      SpliceBehind(m, 2, field, at, at + 20);
    }
  }

  /** A splice inside the first `n` bytes is a splice of those bytes. */
  lemma SpliceInside(s: seq<byte>, n: nat, i: nat, t: seq<byte>)
    requires i + |t| <= n <= |s|
    ensures Splice(s, i, t)[..n] == Splice(s[..n], i, t)
  {
  }

  lemma SpliceBehind(s: seq<byte>, i: nat, t: seq<byte>, lo: nat, hi: nat)
    requires i + |t| <= lo <= hi <= |s|
    ensures Splice(s, i, t)[lo..hi] == s[lo..hi]
  {
  }

  lemma RestoreLength(s: seq<byte>, v: u16, w: u16)
    requires |s| >= 4
    ensures var r := Splice(Splice(s, 2, Be2(v)), 2, Be2(w));
            && r[..2] == s[..2] && r[4..] == s[4..]
            && (Get2Bytes(s, 2) == w ==> r == s)
  {
    hide Octet, Be2, Get2Bytes;
    var r := Splice(Splice(s, 2, Be2(v)), 2, Be2(w));
    assert r[4..] == s[4..];
    Be2Inverse(w, s, 2);
    assert s == s[..2] + s[2..4] + s[4..];
    assert r == s[..2] + Be2(w) + s[4..];
  }

  /** A parsed message has its length in the length field, and its MESSAGE-INTEGRITY inside. */
  lemma ParsedIsCheckable(m: seq<byte>, buffer: seq<byte>, p: Packet)
    requires |m| <= |buffer| && m == buffer[..|m|] && |m| <= 65532 && Parsed(m) == Some(p)
    ensures IntegrityInside(m, p) && |m| >= 20 && Get2Bytes(buffer, 2) == |m| - 20
  {
    hide Parsed;
    ParsedLength(m);
    if p.messageIntegrity.Some? {
      HmacSeesLengthUpToIntegrity(m);
    }
  }

  lemma ParsedHeader(m: seq<byte>)
    ensures !IsStun(m) ==> Parsed(m).None?
    ensures IsStun(m) ==>
              && |m| >= 20
              && (HeaderOk(m) <==> Get2Bytes(m, 2) == |m| - 20 && Get2Bytes(m, 2) % 4 == 0)
              && Parsed(m) == (
                   if Get2Bytes(m, 2) != |m| - 20 || Get2Bytes(m, 2) % 4 != 0 then None
                   else Resume(m, 20, false, false,
                               Packet(ClassOf(ClassBits(m[0], m[1])), MethodBits(Get2Bytes(m, 0)), m[8..20],
                                      [], 0, 0, 0, false, None, false, None, 0, [])))
  {
  }

  /** Inside a message whose length is a multiple of four, an attribute that fits also fits padded. */
  lemma WholeAttribute(m: seq<byte>, pos: nat, n: u16)
    requires |m| % 4 == 0 && pos % 4 == 0 && pos + 4 + n <= |m|
    ensures pos + 4 + n + PadLen(n) <= |m| && PadLen(pos + 4 + n) == PadLen(n)
  {
    var words, start, whole, r := |m| / 4, pos / 4, n / 4, n % 4;
    assert |m| == 4 * words && pos == 4 * start && n == 4 * whole + r;
    PadLenOf(n, whole, r);
    PadLenOf(pos + 4 + n, start + 1 + whole, r);
  }

  lemma PadLenOf(n: nat, whole: nat, r: nat)
    requires r < 4 && n == 4 * whole + r
    ensures PadLen(n) == if r == 0 then 0 else 4 - r
  {
  }

  lemma SealAt(m: seq<byte>, covered: seq<byte>, fingerprint: u32)
    requires |m| >= 8 && covered == m[..|m| - 8] && fingerprint == Get4Bytes(m, |m| - 4)
    ensures SealOk(m) <==> fingerprint == Seal(Crc(covered))
  {
  }
}
