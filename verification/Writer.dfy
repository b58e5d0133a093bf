/** The second pass of `Stun::Serialize`, one attribute at a time: each step writes behind what is
    already written and leaves the rest of the buffer alone. */
module Writer {
  import opened Wrappers
  import opened Words
  import opened Bytes
  import opened Attributes
  import opened Message
  import opened Encoding

  /** The buffer holds `done`, followed by what it held before. */
  predicate Written(now: seq<byte>, prior: seq<byte>, done: seq<byte>) {
    |done| <= |prior| && now == done + prior[|done|..]
  }

  lemma WriteNext(now: seq<byte>, prior: seq<byte>, done: seq<byte>, t: seq<byte>)
    requires Written(now, prior, done) && |done| + |t| <= |prior|
    ensures |now| == |prior| && Written(Splice(now, |done|, t), prior, done + t)
  {
  }

  lemma SkipNext(now: seq<byte>, prior: seq<byte>, done: seq<byte>, k: nat)
    requires Written(now, prior, done) && |done| + k <= |prior|
    ensures Written(now, prior, done + prior[|done|..|done| + k])
  {
  }

  lemma EncodeAppends(done: seq<byte>, a: Attr)
    ensures done + Be2(a.kind) + Be2(|a.value|) + a.value + a.padding == done + Encode(a)
    ensures a.padding == [] ==> done + Be2(a.kind) + Be2(|a.value|) + a.value == done + Encode(a)
    ensures done + Encode(a) == done + Render([a])
  {
  }

  /** Type and length of an attribute. */
  method PutTypeAndLength(buffer: array<byte>, pos: nat, kind: u16, length: u16, ghost prior: seq<byte>,
                          ghost done: seq<byte>)
    requires Written(buffer[..], prior, done) && |done| == pos && pos + 4 <= |prior|
    modifies buffer
    ensures Written(buffer[..], prior, done + Be2(kind) + Be2(length))
  {
    hide Octet, Be2, Splice;
    WriteNext(buffer[..], prior, done, Be2(kind));
    Set2Bytes(buffer, pos, kind);
    WriteNext(buffer[..], prior, done + Be2(kind), Be2(length));
    Set2Bytes(buffer, pos + 2, length);
  }

  /** Type field, length and cookie. */
  method PutOpening(buffer: array<byte>, typeField: u16, length: u16)
    requires 20 <= buffer.Length
    modifies buffer
    ensures Written(buffer[..], old(buffer[..]), Be2(typeField) + Be2(length) + COOKIE)
  {
    hide Octet, Be2, Splice, Written;
    ghost var prior := buffer[..];
    NothingWritten(prior);
    PutTypeAndLength(buffer, 0, typeField, length, prior, []);
    ghost var done := Be2(typeField) + Be2(length);
    assert [] + Be2(typeField) + Be2(length) == done;
    WriteNext(buffer[..], prior, done, COOKIE);
    CopyBytes(buffer, 4, COOKIE);
  }

  lemma NothingWritten(prior: seq<byte>)
    ensures Written(prior, prior, [])
  {
  }

  method AddUsername(buffer: array<byte>, pos: nat, username: seq<byte>, ghost prior: seq<byte>, ghost done: seq<byte>)
    returns (next: nat, ghost pad: seq<byte>)
    requires Written(buffer[..], prior, done) && |done| == pos && |username| <= 65532
    requires username != [] ==> pos + 4 + |username| + PadLen(|username|) <= |prior|
    modifies buffer
    ensures |pad| == PadLen(|username|)
    ensures username == [] ==> next == pos && buffer[..] == old(buffer[..]) && pad == []
    ensures username != [] ==>
              && next == pos + 4 + PadTo4Bytes(|username| % 0x1_0000)
              && pad == prior[pos + 4 + |username|..pos + 4 + |username| + PadLen(|username|)]
              && Written(buffer[..], prior, done + Encode(Tlv(USERNAME, username, pad)))
  {
    hide Octet, Be2, Splice, Written, Encode;
    next, pad := pos, [];
    if username != [] {
      var n := |username|;
      pad := prior[pos + 4 + n..pos + 4 + n + PadLen(n)];
      PutTypeAndLength(buffer, pos, USERNAME, n, prior, done);
      WriteNext(buffer[..], prior, done + Be2(USERNAME) + Be2(n), username);
      CopyBytes(buffer, pos + 4, username);
      SkipNext(buffer[..], prior, done + Be2(USERNAME) + Be2(n) + username, PadLen(n));
      EncodeAppends(done, Tlv(USERNAME, username, pad));
      CursorStep(n);
      next := pos + (4 + PadTo4Bytes(n % 0x1_0000));
    }
  }

  /** PRIORITY, and likewise the value of a FINGERPRINT. */
  method AddWord(buffer: array<byte>, pos: nat, kind: u16, value: u32, ghost prior: seq<byte>, ghost done: seq<byte>)
    returns (next: nat)
    requires Written(buffer[..], prior, done) && |done| == pos && pos + 8 <= |prior|
    modifies buffer
    ensures next == pos + 8 && Written(buffer[..], prior, done + Encode(Tlv(kind, Be4(value), [])))
  {
    hide Octet, Be2, Be4, Splice, Written, Encode;
    PutTypeAndLength(buffer, pos, kind, 4, prior, done);
    WriteNext(buffer[..], prior, done + Be2(kind) + Be2(4), Be4(value));
    Set4Bytes(buffer, pos + 4, value);
    EncodeAppends(done, Tlv(kind, Be4(value), []));
    next := pos + (4 + 4);
  }

  /** ICE-CONTROLLING and ICE-CONTROLLED. */
  method AddLong(buffer: array<byte>, pos: nat, kind: u16, value: u64, ghost prior: seq<byte>, ghost done: seq<byte>)
    returns (next: nat)
    requires Written(buffer[..], prior, done) && |done| == pos && pos + 12 <= |prior|
    modifies buffer
    ensures next == pos + 12 && Written(buffer[..], prior, done + Encode(Tlv(kind, Be8(value), [])))
  {
    hide Octet, Be2, Be8, Splice, Written, Encode;
    PutTypeAndLength(buffer, pos, kind, 8, prior, done);
    WriteNext(buffer[..], prior, done + Be2(kind) + Be2(8), Be8(value));
    Set8Bytes(buffer, pos + 4, value);
    EncodeAppends(done, Tlv(kind, Be8(value), []));
    next := pos + (4 + 8);
  }

  method AddCandidate(buffer: array<byte>, pos: nat, ghost prior: seq<byte>, ghost done: seq<byte>) returns (next: nat)
    requires Written(buffer[..], prior, done) && |done| == pos && pos + 4 <= |prior|
    modifies buffer
    ensures next == pos + 4 && Written(buffer[..], prior, done + Encode(Tlv(USE_CANDIDATE, [], [])))
  {
    hide Octet, Be2, Splice, Written, Encode;
    PutTypeAndLength(buffer, pos, USE_CANDIDATE, 0, prior, done);
    EncodeAppends(done, Tlv(USE_CANDIDATE, [], []));
    assert done + Be2(USE_CANDIDATE) + Be2(0) + [] == done + Be2(USE_CANDIDATE) + Be2(0);
    next := pos + 4;
  }

  /** The `^=` lines: the bytes from `i` on are masked in place. */
  method XorInPlace(buffer: array<byte>, i: nat, mask: seq<byte>)
    requires i + |mask| <= buffer.Length
    modifies buffer
    ensures buffer[..] == Splice(old(buffer[..]), i, XorWith(old(buffer[..])[i..i + |mask|], mask))
  {
    hide Xor;
    for k := 0 to |mask|
      invariant forall j :: 0 <= j < buffer.Length ==>
                  buffer[j] == if i <= j < i + k then Xor(old(buffer[j]), mask[j - i]) else old(buffer[j])
    {
      buffer[i + k] := Xor(buffer[i + k], mask[k]);
    }
  }

  /** Copies `field` behind what is written and masks it there. */
  method PutMasked(buffer: array<byte>, pos: nat, field: seq<byte>, mask: seq<byte>, ghost prior: seq<byte>,
                   ghost done: seq<byte>)
    requires Written(buffer[..], prior, done) && |done| == pos && pos + |field| <= |prior| && |mask| == |field|
    modifies buffer
    ensures Written(buffer[..], prior, done + XorWith(field, mask))
  {
    hide Splice, Xor, XorWith;
    WriteNext(buffer[..], prior, done, field);
    CopyBytes(buffer, pos, field);
    assert buffer[..][pos..pos + |field|] == field;
    ghost var copied := buffer[..];
    XorInPlace(buffer, pos, mask);
    Overwrite(copied, prior, done, field, XorWith(field, mask));
  }

  lemma Overwrite(now: seq<byte>, prior: seq<byte>, done: seq<byte>, s: seq<byte>, t: seq<byte>)
    requires |done| + |s| <= |prior| && Written(now, prior, done + s) && |s| == |t|
    ensures Written(Splice(now, |done|, t), prior, done + t)
  {
  }

  method AddMapped(buffer: array<byte>, pos: nat, addr: SockAddr, transactionId: Octets12, ghost prior: seq<byte>,
                   ghost done: seq<byte>)
    returns (next: nat)
    requires Written(buffer[..], prior, done) && |done| == pos && !addr.OtherFamily?
    requires pos + (if addr.Inet? then 12 else 24) <= |prior|
    modifies buffer
    ensures next == pos + (if addr.Inet? then 12 else 24)
    ensures Written(buffer[..], prior, done + Encode(Tlv(XOR_MAPPED_ADDRESS, MappedValue(addr, transactionId), [])))
  {
    hide Octet, Be2, Splice, Written, Encode, XorWith;
    var length := if addr.Inet? then 8 else 20;
    PutTypeAndLength(buffer, pos, XOR_MAPPED_ADDRESS, length, prior, done);
    ghost var d := done + Be2(XOR_MAPPED_ADDRESS) + Be2(length);
    var family: byte := if addr.Inet? then 1 else 2;
    WriteNext(buffer[..], prior, d, [0, family]);
    CopyBytes(buffer, pos + 4, [0, family]);
    PutMasked(buffer, pos + 6, addr.port, COOKIE[..2], prior, d + [0, family]);
    ghost var port := XorWith(addr.port, COOKIE[..2]);
    ghost var host;
    if addr.Inet? {
      PutMasked(buffer, pos + 8, addr.addr, COOKIE, prior, d + [0, family] + port);
      host := XorWith(addr.addr, COOKIE);
    } else {
      PutMasked(buffer, pos + 8, addr.addr6, COOKIE + transactionId, prior, d + [0, family] + port);
      host := XorWith(addr.addr6, COOKIE + transactionId);
    }
    MaskPrefix(addr.port);
    assert d + [0, family] + port + host == d + ([0, family] + port + host);
    EncodeAppends(done, Tlv(XOR_MAPPED_ADDRESS, MappedValue(addr, transactionId), []));
    next := pos + (4 + length);
  }

  lemma MaskPrefix(port: Octets2)
    ensures XorWith(port, COOKIE[..2]) == XorWith(port, COOKIE)
  {
  }

  method AddError(buffer: array<byte>, pos: nat, errorCode: u16, ghost prior: seq<byte>, ghost done: seq<byte>)
    returns (next: nat)
    requires Written(buffer[..], prior, done) && |done| == pos && pos + 8 <= |prior|
    modifies buffer
    ensures next == pos + 8
    ensures Written(buffer[..], prior,
                    done + Encode(Tlv(ERROR_CODE, [0, 0, ErrorClass(errorCode), ErrorNumber(errorCode)], [])))
  {
    hide Octet, Be2, Splice, Written, Encode, ErrorClass, ErrorNumber;
    PutTypeAndLength(buffer, pos, ERROR_CODE, 4, prior, done);
    ghost var d := done + Be2(ERROR_CODE) + Be2(4);
    var codeClass, codeNumber := ErrorClass(errorCode), ErrorNumber(errorCode);
    WriteNext(buffer[..], prior, d, Be2(0));
    Set2Bytes(buffer, pos + 4, 0);
    WriteNext(buffer[..], prior, d + Be2(0), [codeClass]);
    Set1Byte(buffer, pos + 6, codeClass);
    WriteNext(buffer[..], prior, d + Be2(0) + [codeClass], [codeNumber]);
    Set1Byte(buffer, pos + 7, codeNumber);
    ZeroField();
    assert d + Be2(0) + [codeClass] + [codeNumber] == d + [0, 0, codeClass, codeNumber];
    EncodeAppends(done, Tlv(ERROR_CODE, [0, 0, codeClass, codeNumber], []));
    next := pos + (4 + 4);
  }

  lemma ZeroField()
    ensures Be2(0) == [0, 0]
  {
  }

  /** MESSAGE-INTEGRITY: the length field is set to leave out the FINGERPRINT, the HMAC taken over
      what is written, and the length field restored. */
  method AddIntegrity(buffer: array<byte>, pos: nat, size: nat, password: seq<byte>, hmac: Hmac, ghost prior: seq<byte>,
                      ghost done: seq<byte>)
    returns (next: nat)
    requires Written(buffer[..], prior, done) && |done| == pos && 20 <= pos && pos + 24 <= |prior|
    requires 28 <= size < 0x1_0000 && done[2..4] == Be2(size - 20)
    modifies buffer
    ensures next == pos + 24
    ensures Written(buffer[..], prior,
                    done + Encode(IntegrityAttr(hmac(password, Splice(done, 2, Be2(size - 28))))))
  {
    hide Octet, Be2, Splice, Written, Encode;
    ghost var signed := Splice(done, 2, Be2(size - 28));
    WriteInside(buffer[..], prior, done, 2, Be2(size - 20 - 8));
    Set2Bytes(buffer, 2, size - 20 - 8);
    WrittenPrefix(buffer[..], prior, signed);
    var computed := hmac(password, buffer[..][..pos]);
    PutTypeAndLength(buffer, pos, MESSAGE_INTEGRITY, 20, prior, signed);
    WriteNext(buffer[..], prior, signed + Be2(MESSAGE_INTEGRITY) + Be2(20), computed);
    CopyBytes(buffer, pos + 4, computed);
    EncodeAppends(signed, IntegrityAttr(computed));
    ghost var mac := Encode(IntegrityAttr(computed));
    WriteInside(buffer[..], prior, signed + mac, 2, Be2(size - 20));
    Set2Bytes(buffer, 2, size - 20);
    Restore(done, Be2(size - 28), mac);
    next := pos + (4 + 20);
  }

  lemma WriteInside(now: seq<byte>, prior: seq<byte>, done: seq<byte>, i: nat, t: seq<byte>)
    requires Written(now, prior, done) && i + |t| <= |done|
    ensures |now| == |prior| && Written(Splice(now, i, t), prior, Splice(done, i, t))
  {
  }

  lemma WrittenPrefix(now: seq<byte>, prior: seq<byte>, done: seq<byte>)
    requires Written(now, prior, done)
    ensures |now| == |prior| && now[..|done|] == done
  {
  }

  lemma Restore(done: seq<byte>, t: seq<byte>, mac: seq<byte>)
    requires |done| >= 20 && |t| == 2
    ensures Splice(Splice(done, 2, t) + mac, 2, done[2..4]) == done + mac
  {
  }

  /** One more attribute behind the head and the attributes so far. */
  lemma Extend(head: seq<byte>, attrs: seq<Attr>, a: Attr)
    ensures head + Render(attrs) + Encode(a) == head + Render(attrs + [a])
    ensures |head + Render(attrs + [a])| == |head + Render(attrs)| + Size(a)
  {
    hide Render, Encode;
    RenderAppend(attrs, [a]);
    RenderOne(a);
    assert head + Render(attrs) + Encode(a) == head + (Render(attrs) + Encode(a));
  }

  // ----- the attributes of a message, each written if it is due -----

  /** The head and the attributes `attrs` are written, and the cursor stands behind them. */
  predicate At(now: seq<byte>, prior: seq<byte>, head: seq<byte>, attrs: seq<Attr>, pos: nat) {
    Written(now, prior, head + Render(attrs)) && pos == |head + Render(attrs)|
  }

  lemma Stays(now: seq<byte>, prior: seq<byte>, head: seq<byte>, attrs: seq<Attr>, pos: nat)
    requires At(now, prior, head, attrs, pos)
    ensures At(now, prior, head, attrs + [], pos)
  {
    assert attrs + [] == attrs;
  }

  lemma Advances(now: seq<byte>, prior: seq<byte>, head: seq<byte>, attrs: seq<Attr>, a: Attr, pos: nat)
    requires Written(now, prior, head + Render(attrs) + Encode(a)) && pos == |head + Render(attrs)| + Size(a)
    ensures At(now, prior, head, attrs + [a], pos)
  {
    hide Render, Encode, Written;
    Extend(head, attrs, a);
  }

  lemma PieceShapes(p: Packet, pad: seq<byte>)
    requires |p.username| <= 65532 && |pad| == PadLen(|p.username|)
    ensures p.username == [] ==> UsernameAttrs(p, pad) == []
    ensures p.username != [] ==> UsernameAttrs(p, pad) == [Tlv(USERNAME, p.username, pad)]
    ensures PriorityAttrs(p) == if p.priority == 0 then [] else [Tlv(PRIORITY, Be4(p.priority), [])]
    ensures ControllingAttrs(p) == if p.iceControlling == 0 then []
            else [Tlv(ICE_CONTROLLING, Be8(p.iceControlling), [])]
    ensures ControlledAttrs(p) == if p.iceControlled == 0 then [] else [Tlv(ICE_CONTROLLED, Be8(p.iceControlled), [])]
    ensures CandidateAttrs(p) == if p.hasUseCandidate then [Tlv(USE_CANDIDATE, [], [])] else []
  {
  }

  lemma OneSize(a: Attr)
    ensures TotalSize([a]) == Size(a)
  {
  }

  method WriteUsername(buffer: array<byte>, pos: nat, username: seq<byte>, ghost prior: seq<byte>, ghost p: Packet,
                       ghost head: seq<byte>)
    returns (next: nat, ghost pad: seq<byte>)
    requires username == p.username && Fits(p) && |head| == 20 && At(buffer[..], prior, head, [], pos)
    requires username != [] ==> pos + 4 + |username| + PadLen(|username|) <= |prior|
    modifies buffer
    ensures username != [] ==> 24 + |username| + PadLen(|username|) <= |prior|
    ensures pad == Padding(p, prior) && At(buffer[..], prior, head, UsernameAttrs(p, pad), next)
  {
    hide Octet, Encode, Written, UsernameAttrs, WireSize;
    assert head + Render([]) == head;
    next, pad := AddUsername(buffer, pos, username, prior, head);
    PieceShapes(p, pad);
    CursorStep(|username|);
    if username != [] {
      Advances(buffer[..], prior, head, [], Tlv(USERNAME, username, pad), next);
      assert [] + UsernameAttrs(p, pad) == UsernameAttrs(p, pad);
    }
  }

  method WritePriority(buffer: array<byte>, pos: nat, priority: u32, ghost prior: seq<byte>, ghost p: Packet,
                       ghost head: seq<byte>, ghost attrs: seq<Attr>)
    returns (next: nat)
    requires priority == p.priority && At(buffer[..], prior, head, attrs, pos)
    requires pos + TotalSize(PriorityAttrs(p)) <= |prior|
    modifies buffer
    ensures At(buffer[..], prior, head, attrs + PriorityAttrs(p), next)
  {
    hide Octet, Encode, Written, Be4, Render;
    next := pos;
    if priority != 0 {
      ghost var a := Tlv(PRIORITY, Be4(priority), []);
      OneSize(a);
      next := AddWord(buffer, pos, PRIORITY, priority, prior, head + Render(attrs));
      Advances(buffer[..], prior, head, attrs, a, next);
    } else {
      Stays(buffer[..], prior, head, attrs, pos);
    }
  }

  method WriteControlling(buffer: array<byte>, pos: nat, value: u64, ghost prior: seq<byte>, ghost p: Packet,
                          ghost head: seq<byte>, ghost attrs: seq<Attr>)
    returns (next: nat)
    requires value == p.iceControlling && At(buffer[..], prior, head, attrs, pos)
    requires pos + TotalSize(ControllingAttrs(p)) <= |prior|
    modifies buffer
    ensures At(buffer[..], prior, head, attrs + ControllingAttrs(p), next)
  {
    hide Octet, Encode, Written, Be8, Render;
    next := pos;
    if value != 0 {
      ghost var a := Tlv(ICE_CONTROLLING, Be8(value), []);
      OneSize(a);
      next := AddLong(buffer, pos, ICE_CONTROLLING, value, prior, head + Render(attrs));
      Advances(buffer[..], prior, head, attrs, a, next);
    } else {
      Stays(buffer[..], prior, head, attrs, pos);
    }
  }

  method WriteControlled(buffer: array<byte>, pos: nat, value: u64, ghost prior: seq<byte>, ghost p: Packet,
                         ghost head: seq<byte>, ghost attrs: seq<Attr>)
    returns (next: nat)
    requires value == p.iceControlled && At(buffer[..], prior, head, attrs, pos)
    requires pos + TotalSize(ControlledAttrs(p)) <= |prior|
    modifies buffer
    ensures At(buffer[..], prior, head, attrs + ControlledAttrs(p), next)
  {
    hide Octet, Encode, Written, Be8, Render;
    next := pos;
    if value != 0 {
      ghost var a := Tlv(ICE_CONTROLLED, Be8(value), []);
      OneSize(a);
      next := AddLong(buffer, pos, ICE_CONTROLLED, value, prior, head + Render(attrs));
      Advances(buffer[..], prior, head, attrs, a, next);
    } else {
      Stays(buffer[..], prior, head, attrs, pos);
    }
  }

  method WriteCandidate(buffer: array<byte>, pos: nat, hasUseCandidate: bool, ghost prior: seq<byte>, ghost p: Packet,
                        ghost head: seq<byte>, ghost attrs: seq<Attr>)
    returns (next: nat)
    requires hasUseCandidate == p.hasUseCandidate && At(buffer[..], prior, head, attrs, pos)
    requires pos + TotalSize(CandidateAttrs(p)) <= |prior|
    modifies buffer
    ensures At(buffer[..], prior, head, attrs + CandidateAttrs(p), next)
  {
    hide Octet, Encode, Written, Render;
    next := pos;
    if hasUseCandidate {
      ghost var a := Tlv(USE_CANDIDATE, [], []);
      OneSize(a);
      next := AddCandidate(buffer, pos, prior, head + Render(attrs));
      Advances(buffer[..], prior, head, attrs, a, next);
    } else {
      Stays(buffer[..], prior, head, attrs, pos);
    }
  }

  method WriteMapped(buffer: array<byte>, pos: nat, add: bool, addr: Option<SockAddr>, transactionId: Octets12,
                     ghost prior: seq<byte>, ghost p: Packet, ghost head: seq<byte>, ghost attrs: seq<Attr>)
    returns (next: nat)
    requires add == AddsMapped(p) && addr == p.xorMappedAddress && transactionId == p.transactionId
    requires At(buffer[..], prior, head, attrs, pos) && pos + TotalSize(MappedAttrs(p)) <= |prior|
    modifies buffer
    ensures At(buffer[..], prior, head, attrs + MappedAttrs(p), next)
  {
    hide Octet, Encode, Written, Render, MappedValue;
    next := pos;
    if add {
      ghost var a := Tlv(XOR_MAPPED_ADDRESS, MappedValue(addr.value, transactionId), []);
      OneSize(a);
      next := AddMapped(buffer, pos, addr.value, transactionId, prior, head + Render(attrs));
      Advances(buffer[..], prior, head, attrs, a, next);
    } else {
      Stays(buffer[..], prior, head, attrs, pos);
    }
  }

  method WriteError(buffer: array<byte>, pos: nat, add: bool, errorCode: u16, ghost prior: seq<byte>, ghost p: Packet,
                    ghost head: seq<byte>, ghost attrs: seq<Attr>)
    returns (next: nat)
    requires add == AddsError(p) && errorCode == p.errorCode && At(buffer[..], prior, head, attrs, pos)
    requires pos + TotalSize(ErrorAttrs(p)) <= |prior|
    modifies buffer
    ensures At(buffer[..], prior, head, attrs + ErrorAttrs(p), next)
  {
    hide Octet, Encode, Written, Render, ErrorClass, ErrorNumber;
    next := pos;
    if add {
      ghost var a := Tlv(ERROR_CODE, [0, 0, ErrorClass(errorCode), ErrorNumber(errorCode)], []);
      OneSize(a);
      next := AddError(buffer, pos, errorCode, prior, head + Render(attrs));
      Advances(buffer[..], prior, head, attrs, a, next);
    } else {
      Stays(buffer[..], prior, head, attrs, pos);
    }
  }
}
