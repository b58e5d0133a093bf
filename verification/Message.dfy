/** The fields of a STUN message and what a byte string means as a message (RFC 5389, sections 6 and 15). */
module Message {
  import opened Wrappers
  import opened Words
  import opened Bytes
  import opened Crc32
  import opened Attributes

  const COOKIE: seq<byte> := [0x21, 0x12, 0xA4, 0x42]
  const BINDING: u16 := 1

  datatype Class = Request | Indication | SuccessResponse | ErrorResponse

  type Octets2 = s: seq<byte> | |s| == 2 witness [0, 0]
  type Octets4 = s: seq<byte> | |s| == 4 witness [0, 0, 0, 0]
  type Octets12 = s: seq<byte> | |s| == 12 witness seq(12, _ => 0)
  type Octets16 = s: seq<byte> | |s| == 16 witness seq(16, _ => 0)

  /** A socket address; port and address are in network byte order, as in `sockaddr_in(6)`. */
  datatype SockAddr =
    | Inet(port: Octets2, addr: Octets4)
    | Inet6(port: Octets2, addr6: Octets16)
    | OtherFamily

  /** The fields of a `Stun` object. `messageIntegrity` is an offset into the message. */
  datatype Packet = Packet(
    klass: Class,
    methodCode: u16,
    transactionId: Octets12,
    username: seq<byte>,
    priority: u32,
    iceControlling: u64,
    iceControlled: u64,
    hasUseCandidate: bool,
    messageIntegrity: Option<nat>,
    hasFingerprint: bool,
    xorMappedAddress: Option<SockAddr>,
    errorCode: u16,
    password: seq<byte>)

  // ----- the message type field -----

  function ClassCode(klass: Class): u16 {
    match klass
    case Request => 0
    case Indication => 1
    case SuccessResponse => 2
    case ErrorResponse => 3
  }

  function ClassOf(code: u16): Class {
    if code == 0 then Request else if code == 1 then Indication
    else if code == 2 then SuccessResponse else ErrorResponse
  }

  /** The type field from its digits: method bits 7-11, class bit 1, method bits 4-6, class bit 0,
      method bits 0-3. */
  function Interleave(m7: nat, c1: nat, m4: nat, c0: nat, m0: nat): nat {
    m7 * 0x200 + c1 * 0x100 + m4 * 0x20 + c0 * 0x10 + m0
  }

  /** `(method & 0x0f80) << 2 | (method & 0x0070) << 1 | method & 0x000f` with the class bits at
      0x0100 and 0x0010. */
  function TypeField(klass: Class, methodCode: u16): u16 {
    var code: int := ClassCode(klass);
    InterleaveBound(methodCode / 0x80 % 0x20, code / 2, methodCode / 0x10 % 8, code % 2, methodCode % 0x10);
    Interleave(methodCode / 0x80 % 0x20, code / 2, methodCode / 0x10 % 8, code % 2, methodCode % 0x10)
  }

  lemma InterleaveBound(m7: nat, c1: nat, m4: nat, c0: nat, m0: nat)
    requires m7 < 0x20 && c1 < 2 && m4 < 8 && c0 < 2 && m0 < 0x10
    ensures Interleave(m7, c1, m4, c0, m0) < 0x4000
  {
  }

  /** `(t & 0x000f) | (t & 0x00e0) >> 1 | (t & 0x3e00) >> 2`. */
  function MethodBits(t: u16): u16 {
    JoinMethod(t / 0x200 % 0x20, t / 0x20 % 8, t % 0x10)
  }

  function JoinMethod(m7: nat, m4: nat, m0: nat): u16
    requires m7 < 0x20 && m4 < 8 && m0 < 0x10
  {
    m7 * 0x80 + m4 * 0x10 + m0
  }

  /** `(data[0] & 0x01) << 1 | (data[1] & 0x10) >> 4`. */
  function ClassBits(hi: byte, lo: byte): u16 {
    hi % 2 * 2 + lo / 0x10 % 2
  }

  lemma TypeDigits(t: nat, m7: nat, c1: nat, m4: nat, c0: nat, m0: nat)
    requires m7 < 0x20 && c1 < 2 && m4 < 8 && c0 < 2 && m0 < 0x10
    requires t == Interleave(m7, c1, m4, c0, m0)
    ensures t % 0x10 == m0 && t / 0x20 % 8 == m4 && t / 0x200 == m7
    ensures t / 0x100 % 2 == c1 && t % 0x100 / 0x10 % 2 == c0
  {
    var low := m4 * 0x20 + c0 * 0x10 + m0;
    PartsBy10(t, m7 * 0x20 + c1 * 0x10 + m4 * 2 + c0, m0);
    PartsBy20(t, m7 * 0x10 + c1 * 8 + m4, c0 * 0x10 + m0);
    PartsBy100(t, m7 * 2 + c1, low);
    PartsBy200(t, m7, c1 * 0x100 + low);
    PartsBy10(low, m4 * 2 + c0, m0);
    PartsBy8(m7 * 0x10 + c1 * 8 + m4, m7 * 2 + c1, m4);
    PartsBy2(m7 * 2 + c1, m7, c1);
    PartsBy2(m4 * 2 + c0, m4, c0);
  }

  // Quotient and remainder are unique.

  lemma PartsBy2(m: nat, q: nat, r: nat)
    requires r < 2 && m == q * 2 + r
    ensures m / 2 == q && m % 2 == r
  {
  }

  lemma PartsBy8(m: nat, q: nat, r: nat)
    requires r < 8 && m == q * 8 + r
    ensures m / 8 == q && m % 8 == r
  {
  }

  lemma PartsBy10(m: nat, q: nat, r: nat)
    requires r < 0x10 && m == q * 0x10 + r
    ensures m / 0x10 == q && m % 0x10 == r
  {
  }

  lemma PartsBy20(m: nat, q: nat, r: nat)
    requires r < 0x20 && m == q * 0x20 + r
    ensures m / 0x20 == q && m % 0x20 == r
  {
  }

  lemma PartsBy80(m: nat, q: nat, r: nat)
    requires r < 0x80 && m == q * 0x80 + r
    ensures m / 0x80 == q && m % 0x80 == r
  {
  }

  lemma PartsBy100(m: nat, q: nat, r: nat)
    requires r < 0x100 && m == q * 0x100 + r
    ensures m / 0x100 == q && m % 0x100 == r
  {
  }

  lemma PartsBy200(m: nat, q: nat, r: nat)
    requires r < 0x200 && m == q * 0x200 + r
    ensures m / 0x200 == q && m % 0x200 == r
  {
  }

  lemma PartsBy1000(m: nat, q: nat, r: nat)
    requires r < 0x1000 && m == q * 0x1000 + r
    ensures m / 0x1000 == q && m % 0x1000 == r
  {
  }

  lemma MethodDigits(m: nat)
    ensures m % 0x1000 == JoinMethod(m / 0x80 % 0x20, m / 0x10 % 8, m % 0x10)
  {
    var h := m / 0x10;
    var k := h / 8;
    MethodParts(m, k / 0x20, k % 0x20, h % 8, m % 0x10);
  }

  lemma MethodParts(m: nat, q: nat, m7: nat, m4: nat, m0: nat)
    requires m7 < 0x20 && m4 < 8 && m0 < 0x10 && m == q * 0x1000 + m7 * 0x80 + m4 * 0x10 + m0
    ensures m % 0x1000 == JoinMethod(m7, m4, m0)
    ensures m / 0x80 % 0x20 == m7 && m / 0x10 % 8 == m4 && m % 0x10 == m0
  {
    PartsBy80(m, q * 0x20 + m7, m4 * 0x10 + m0);
    PartsBy10(m, q * 0x100 + m7 * 8 + m4, m0);
    PartsBy1000(m, q, m7 * 0x80 + m4 * 0x10 + m0);
    PartsBy20(q * 0x20 + m7, q, m7);
    PartsBy8(q * 0x100 + m7 * 8 + m4, q * 0x20 + m7, m4);
  }

  lemma DigitsOfMethod(m: nat, m7: nat, m4: nat, m0: nat)
    requires m7 < 0x20 && m4 < 8 && m0 < 0x10 && m == JoinMethod(m7, m4, m0)
    ensures m / 0x80 % 0x20 == m7 && m / 0x10 % 8 == m4 && m % 0x10 == m0 && m < 0x1000
  {
    MethodParts(m, 0, m7, m4, m0);
  }

  lemma DigitsOfType(t: nat)
    requires t < 0x4000
    ensures t == Interleave(t / 0x200, t / 0x100 % 2, t / 0x20 % 8, t % 0x100 / 0x10 % 2, t % 0x10)
  {
    NestedType(t, t / 0x10, t / 0x20, t / 0x100, t / 0x200);
    LowByteDigit(t);
  }

  lemma NestedType(t: nat, u: nat, v: nat, w: nat, x: nat)
    requires u == t / 0x10 && v == t / 0x20 && w == t / 0x100 && x == t / 0x200
    ensures t == u * 0x10 + t % 0x10 && u == v * 2 + u % 2 && v == w * 8 + v % 8 && w == x * 2 + w % 2
  {
  }

  lemma LowByteDigit(t: nat)
    ensures t % 0x100 / 0x10 % 2 == t / 0x10 % 2
  {
    var w, lo := t / 0x100, t % 0x100;
    LowByteParts(t, w, lo / 0x10, lo % 0x10);
  }

  lemma LowByteParts(t: nat, w: nat, l: nat, r: nat)
    requires l < 0x10 && r < 0x10 && t == w * 0x100 + l * 0x10 + r
    ensures t / 0x10 == w * 0x10 + l && t / 0x10 % 2 == l % 2
  {
    PartsBy10(t, w * 0x10 + l, r);
    PartsBy2(w * 0x10 + l, w * 8 + l / 2, l % 2);
  }

  /** Packing and unpacking the type field are inverse between class and 12-bit method on one side
      and 14-bit types on the other. */
  lemma TypeFieldRoundTrip(klass: Class, methodCode: u16)
    ensures var t := TypeField(klass, methodCode);
            && t < 0x4000
            && MethodBits(t) == methodCode % 0x1000
            && ClassOf(ClassBits(t / 0x100, t % 0x100)) == klass
  {
    hide Interleave, JoinMethod;
    var code: int := ClassCode(klass);
    var m7, m4, m0 := methodCode / 0x80 % 0x20, methodCode / 0x10 % 8, methodCode % 0x10;
    InterleaveBound(m7, code / 2, m4, code % 2, m0);
    TypeDigits(TypeField(klass, methodCode), m7, code / 2, m4, code % 2, m0);
    MethodDigits(methodCode);
  }

  lemma TypeFieldOnto(t: u16)
    requires t < 0x4000
    ensures TypeField(ClassOf(ClassBits(t / 0x100, t % 0x100)), MethodBits(t)) == t
    ensures MethodBits(t) < 0x1000
  {
    hide Interleave, JoinMethod;
    DigitsOfType(t);
    PartsBy20(t / 0x200, 0, t / 0x200);
    DigitsOfMethod(MethodBits(t), t / 0x200 % 0x20, t / 0x20 % 8, t % 0x10);
    ClassDigits(t / 0x100, t % 0x100);
  }

  lemma ClassDigits(hi: byte, lo: byte)
    ensures var code: int := ClassCode(ClassOf(ClassBits(hi, lo))); code / 2 == hi % 2 && code % 2 == lo / 0x10 % 2
  {
  }

  // ----- the error code -----

  /** ERROR-CODE as written: `uint8_t(code / 100)` and `uint8_t(code) - class * 100` in eight bits. */
  function ErrorClass(code: u16): byte {
    code / 100 % 0x100
  }

  function ErrorNumber(code: u16): byte {
    (code % 0x100 - ErrorClass(code) * 100) % 0x100
  }

  function JoinError(errorClass: byte, errorNumber: byte): u16 {
    errorClass * 100 + errorNumber
  }

  /** The split gives the code back exactly when it is below 25600; above, the class wraps. */
  lemma ErrorCodeRoundTrip(code: u16)
    ensures JoinError(ErrorClass(code), ErrorNumber(code)) == code % 25600
    ensures JoinError(ErrorClass(code), ErrorNumber(code)) == code <==> code < 25600
  {
    var c := code / 100;
    ErrorParts(code, c / 0x100, c % 0x100, code % 100);
  }

  lemma ErrorParts(code: u16, q: nat, k: nat, r: nat)
    requires k < 0x100 && r < 100 && code == 25600 * q + 100 * k + r
    ensures ErrorClass(code) == k && ErrorNumber(code) == r && code % 25600 == 100 * k + r
  {
    var j := code / 0x100;
    assert code / 100 == 0x100 * q + k;
    LowByteOf(0x100 * q + k, q, k);
    assert code % 0x100 == code - 0x100 * j;
    LowByteOf(code % 0x100 - k * 100, 100 * q - j, r);
    RemainderOf(code, q, 100 * k + r);
  }

  lemma LowByteOf(x: int, n: int, r: nat)
    requires r < 0x100 && x == 0x100 * n + r
    ensures x % 0x100 == r
  {
  }

  lemma RemainderOf(x: int, n: int, r: nat)
    requires r < 25600 && x == 25600 * n + r
    ensures x % 25600 == r
  {
  }

  // ----- reading a message -----

  /** `Stun::IsStun`. */
  predicate IsStun(m: seq<byte>) {
    && |m| >= 20
    && m[0] < 3
    && m[4] == COOKIE[0] && m[5] == COOKIE[1] && m[6] == COOKIE[2] && m[7] == COOKIE[3]
  }

  function HeaderPacket(m: seq<byte>): Packet
    requires |m| >= 20
  {
    Packet(ClassOf(ClassBits(m[0], m[1])), MethodBits(Get2Bytes(m, 0)), m[8..20],
           [], 0, 0, 0, false, None, false, None, 0, [])
  }

  /** What one attribute, found at offset `at`, sets. */
  function Apply(p: Packet, a: Attr, at: nat): Packet
    requires LengthOk(a)
  {
    if a.kind == USERNAME then p.(username := a.value)
    else if a.kind == PRIORITY then p.(priority := Get4Bytes(a.value, 0))
    else if a.kind == ICE_CONTROLLING then p.(iceControlling := Get8Bytes(a.value, 0))
    else if a.kind == ICE_CONTROLLED then p.(iceControlled := Get8Bytes(a.value, 0))
    else if a.kind == USE_CANDIDATE then p.(hasUseCandidate := true)
    else if a.kind == MESSAGE_INTEGRITY then p.(messageIntegrity := Some(at + 4))
    else if a.kind == FINGERPRINT then p.(hasFingerprint := true)
    else if a.kind == ERROR_CODE then p.(errorCode := JoinError(a.value[2], a.value[3]))
    else p
  }

  predicate LengthsOk(attrs: seq<Attr>) {
    forall i :: 0 <= i < |attrs| ==> LengthOk(attrs[i])
  }

  /** The fields after the attributes `attrs`, the first of which is at offset `at`. */
  function Interpret(p: Packet, attrs: seq<Attr>, at: nat): Packet
    requires LengthsOk(attrs)
    decreases |attrs|
  {
    if attrs == [] then p else Interpret(Apply(p, attrs[0], at), attrs[1..], at + Size(attrs[0]))
  }

  lemma {:induction false} InterpretAppend(p: Packet, a: seq<Attr>, b: seq<Attr>, at: nat)
    requires LengthsOk(a) && LengthsOk(b)
    ensures LengthsOk(a + b)
    ensures Interpret(p, a + b, at) == Interpret(Interpret(p, a, at), b, at + TotalSize(a))
    decreases |a|
  {
    hide Apply, LengthOk;
    if a == [] {
      assert a + b == b;
    } else {
      assert (a + b)[1..] == a[1..] + b;
      InterpretAppend(Apply(p, a[0], at), a[1..], b, at + Size(a[0]));
    }
  }

  /** The position of the last attribute of a kind, -1 if there is none. */
  function LastIndex(attrs: seq<Attr>, kind: u16): (i: int)
    ensures -1 <= i < |attrs|
    ensures i >= 0 ==> attrs[i].kind == kind
    ensures forall j :: i < j < |attrs| ==> attrs[j].kind != kind
  {
    if attrs == [] then -1
    else if attrs[|attrs| - 1].kind == kind then |attrs| - 1
    else LastIndex(attrs[..|attrs| - 1], kind)
  }

  /** `q` is `p` with each field read from the last attribute of its kind, if there is one. */
  predicate LastOccurrences(p: Packet, q: Packet, attrs: seq<Attr>, at: nat)
    requires LengthsOk(attrs)
  {
    LastValues(p, q, attrs) && LastFlags(p, q, attrs, at)
  }

  predicate LastValues(p: Packet, q: Packet, attrs: seq<Attr>)
    requires LengthsOk(attrs)
  {
    var name, prio, err := LastIndex(attrs, USERNAME), LastIndex(attrs, PRIORITY), LastIndex(attrs, ERROR_CODE);
    var ing, ed := LastIndex(attrs, ICE_CONTROLLING), LastIndex(attrs, ICE_CONTROLLED);
    && q.username == (if name < 0 then p.username else attrs[name].value)
    && q.priority == (if prio < 0 then p.priority else Get4Bytes(attrs[prio].value, 0))
    && q.iceControlling == (if ing < 0 then p.iceControlling else Get8Bytes(attrs[ing].value, 0))
    && q.iceControlled == (if ed < 0 then p.iceControlled else Get8Bytes(attrs[ed].value, 0))
    && q.errorCode == (if err < 0 then p.errorCode else JoinError(attrs[err].value[2], attrs[err].value[3]))
  }

  predicate LastFlags(p: Packet, q: Packet, attrs: seq<Attr>, at: nat) {
    var mi := LastIndex(attrs, MESSAGE_INTEGRITY);
    && q.hasUseCandidate == (p.hasUseCandidate || LastIndex(attrs, USE_CANDIDATE) >= 0)
    && q.hasFingerprint == (p.hasFingerprint || LastIndex(attrs, FINGERPRINT) >= 0)
    && q.messageIntegrity == (if mi < 0 then p.messageIntegrity else Some(at + TotalSize(attrs[..mi]) + 4))
    && q.klass == p.klass && q.methodCode == p.methodCode && q.transactionId == p.transactionId
    && q.xorMappedAddress == p.xorMappedAddress && q.password == p.password
  }

  /** Each field is read from the last attribute of its kind; a field without one keeps its value. */
  lemma {:induction false} FieldsAreLastOccurrences(p: Packet, attrs: seq<Attr>, at: nat)
    requires LengthsOk(attrs)
    ensures LastOccurrences(p, Interpret(p, attrs, at), attrs, at)
    decreases |attrs|
  {
    hide LastOccurrences, Interpret, Apply, LengthOk, TotalSize;
    if attrs == [] {
      InterpretNone(p, at);
      NoOccurrences(p, at);
    } else {
      var init, last := attrs[..|attrs| - 1], attrs[|attrs| - 1];
      assert attrs == init + [last];
      FieldsAreLastOccurrences(p, init, at);
      InterpretAppend(p, init, [last], at);
      InterpretOne(Interpret(p, init, at), last, at + TotalSize(init));
      NextOccurrence(p, Interpret(p, init, at), init, last, at);
    }
  }

  lemma NoOccurrences(p: Packet, at: nat)
    ensures LastOccurrences(p, p, [], at)
  {
  }

  lemma LastIndexSnoc(attrs: seq<Attr>, a: Attr, kind: u16)
    ensures LastIndex(attrs + [a], kind) == if a.kind == kind then |attrs| else LastIndex(attrs, kind)
  {
  }

  lemma NextOccurrence(p: Packet, q: Packet, attrs: seq<Attr>, a: Attr, at: nat)
    requires LengthsOk(attrs) && LengthsOk(attrs + [a]) && LengthOk(a) && LastOccurrences(p, q, attrs, at)
    ensures LastOccurrences(p, Apply(q, a, at + TotalSize(attrs)), attrs + [a], at)
  {
    hide LastValues, LastFlags, LengthOk;
    NextValues(p, q, attrs, a, at + TotalSize(attrs));
    NextFlags(p, q, attrs, a, at);
  }

  lemma NextValues(p: Packet, q: Packet, attrs: seq<Attr>, a: Attr, end: nat)
    requires LengthsOk(attrs) && LengthsOk(attrs + [a]) && LengthOk(a) && LastValues(p, q, attrs)
    ensures LastValues(p, Apply(q, a, end), attrs + [a])
  {
    hide Get4Bytes, Get8Bytes, JoinError, Apply, LastIndex;
    LastIndexSnoc(attrs, a, USERNAME);
    LastIndexSnoc(attrs, a, PRIORITY);
    LastIndexSnoc(attrs, a, ICE_CONTROLLING);
    LastIndexSnoc(attrs, a, ICE_CONTROLLED);
    LastIndexSnoc(attrs, a, ERROR_CODE);
    ApplyEffect(q, a, end);
  }

  lemma NextFlags(p: Packet, q: Packet, attrs: seq<Attr>, a: Attr, at: nat)
    requires LengthOk(a) && LastFlags(p, q, attrs, at)
    ensures LastFlags(p, Apply(q, a, at + TotalSize(attrs)), attrs + [a], at)
  {
    hide Get4Bytes, Get8Bytes, JoinError, Apply, TotalSize, LastIndex, LengthOk;
    LastIndexSnoc(attrs, a, USE_CANDIDATE);
    LastIndexSnoc(attrs, a, FINGERPRINT);
    LastIndexSnoc(attrs, a, MESSAGE_INTEGRITY);
    ApplyEffect(q, a, at + TotalSize(attrs));
    var mi := LastIndex(attrs + [a], MESSAGE_INTEGRITY);
    assert (attrs + [a])[..|attrs|] == attrs;
    assert 0 <= mi < |attrs| ==> (attrs + [a])[..mi] == attrs[..mi];
  }

  lemma InterpretNone(p: Packet, at: nat)
    ensures Interpret(p, [], at) == p
  {
  }

  lemma InterpretOne(p: Packet, a: Attr, at: nat)
    requires LengthOk(a)
    ensures Interpret(p, [a], at) == Apply(p, a, at)
  {
  }

  lemma ApplyEffect(p: Packet, a: Attr, at: nat)
    requires LengthOk(a)
    ensures var q := Apply(p, a, at);
            && q.username == (if a.kind == USERNAME then a.value else p.username)
            && q.priority == (if a.kind == PRIORITY then Get4Bytes(a.value, 0) else p.priority)
            && q.iceControlling == (if a.kind == ICE_CONTROLLING then Get8Bytes(a.value, 0) else p.iceControlling)
            && q.iceControlled == (if a.kind == ICE_CONTROLLED then Get8Bytes(a.value, 0) else p.iceControlled)
            && q.errorCode == (if a.kind == ERROR_CODE then JoinError(a.value[2], a.value[3]) else p.errorCode)
            && q.hasUseCandidate == (p.hasUseCandidate || a.kind == USE_CANDIDATE)
            && q.hasFingerprint == (p.hasFingerprint || a.kind == FINGERPRINT)
            && q.messageIntegrity == (if a.kind == MESSAGE_INTEGRITY then Some(at + 4) else p.messageIntegrity)
            && q.klass == p.klass && q.methodCode == p.methodCode && q.transactionId == p.transactionId
            && q.xorMappedAddress == p.xorMappedAddress && q.password == p.password
  {
  }

  /** The last eight bytes hold the FINGERPRINT of what precedes them. */
  predicate SealOk(m: seq<byte>) {
    |m| >= 8 && Get4Bytes(m, |m| - 4) == Seal(Crc(m[..|m| - 8]))
  }

  predicate EndsInFingerprint(attrs: seq<Attr>) {
    attrs != [] && attrs[|attrs| - 1].kind == FINGERPRINT
  }

  /** What `Stun::Parse` makes of the rest of a message from `pos` on, given its flags so far. */
  function Resume(m: seq<byte>, pos: nat, mi: bool, fp: bool, p: Packet): Option<Packet>
    requires pos <= |m|
  {
    match SplitFrom(m, pos)
    case None => None
    case Some(attrs) =>
      ScanIsAdmissible(attrs, mi, fp);
      if Scan(attrs, mi, fp) && (fp || EndsInFingerprint(attrs) ==> SealOk(m)) then Some(Interpret(p, attrs, pos))
      else None
  }

  predicate HeaderOk(m: seq<byte>) {
    IsStun(m) && Get2Bytes(m, 2) == |m| - 20 && Get2Bytes(m, 2) % 4 == 0
  }

  /** `Stun::Parse`, as a function of the received bytes. */
  function Parsed(m: seq<byte>): Option<Packet> {
    if !HeaderOk(m) then None else Resume(m, 20, false, false, HeaderPacket(m))
  }

  // ----- the message grammar -----

  /** `m` is a STUN message whose attributes are `attrs`: type below 0x0300, the message length, the
      cookie, then the attributes under the rules above, and a closing FINGERPRINT that checks. */
  ghost predicate IsMessage(m: seq<byte>, attrs: seq<Attr>) {
    && |m| >= 20
    && m[0] < 3
    && Get2Bytes(m, 2) == |m| - 20
    && m[4..8] == COOKIE
    && m[20..] == Render(attrs)
    && Admissible(attrs)
    && (EndsInFingerprint(attrs) ==> attrs[|attrs| - 1].value == Be4(Seal(Crc(m[..|m| - 8]))))
  }

  lemma {:induction false} LastAttribute(attrs: seq<Attr>)
    requires attrs != []
    ensures var n, k := |Render(attrs)|, Size(attrs[|attrs| - 1]);
            k <= n && Render(attrs)[n - k..] == Encode(attrs[|attrs| - 1])
  {
    var init, last := attrs[..|attrs| - 1], attrs[|attrs| - 1];
    assert attrs == init + [last];
    RenderAppend(init, [last]);
    assert Render([last]) == Encode(last) + Render([]) == Encode(last);
  }

  lemma EncodeTail(a: Attr)
    requires a.padding == []
    ensures Encode(a)[4..] == a.value
  {
  }

  /** The value of a closing FINGERPRINT is the last four bytes of the message. */
  lemma FingerprintIsLast(m: seq<byte>, attrs: seq<Attr>)
    requires |m| >= 20 && m[20..] == Render(attrs) && EndsInFingerprint(attrs)
    requires LengthOk(attrs[|attrs| - 1])
    ensures |m| >= 28 && m[|m| - 4..] == attrs[|attrs| - 1].value
  {
    hide Encode, Render;
    var last := attrs[|attrs| - 1];
    LastAttribute(attrs);
    EncodeTail(last);
    var r := m[20..];
    assert r[|r| - 8..] == Encode(last);
    assert m[|m| - 4..] == r[|r| - 8..][4..];
  }

  /** The parser accepts exactly the messages of the grammar, with the fields its attributes give. */
  lemma ParsedIffMessage(m: seq<byte>, p: Packet)
    ensures Parsed(m) == Some(p) <==>
            exists attrs :: IsMessage(m, attrs) && p == Interpret(HeaderPacket(m), attrs, 20)
  {
    if Parsed(m) == Some(p) {
      var attrs := SplitFrom(m, 20).value;
      ParsedIsMessage(m, attrs);
    }
    if attrs :| IsMessage(m, attrs) && p == Interpret(HeaderPacket(m), attrs, 20) {
      MessageIsParsed(m, attrs);
    }
  }

  lemma ParsedIsMessage(m: seq<byte>, attrs: seq<Attr>)
    requires Parsed(m).Some? && SplitFrom(m, 20) == Some(attrs)
    ensures IsMessage(m, attrs) && LengthsOk(attrs)
    ensures Parsed(m) == Some(Interpret(HeaderPacket(m), attrs, 20))
  {
    hide Seal, Crc, Get4Bytes, Get2Bytes, Be4, SplitFrom, Render, Scan, Interpret, HeaderPacket;
    RenderOfSplit(m, 20);
    ScanIsAdmissible(attrs, false, false);
    assert m[4..8] == [m[4], m[5], m[6], m[7]];
    if EndsInFingerprint(attrs) {
      FingerprintIsLast(m, attrs);
      Be4Inverse(Seal(Crc(m[..|m| - 8])), m, |m| - 4);
      assert m[|m| - 4..] == m[|m| - 4..|m| - 4 + 4];
    }
  }

  lemma MessageIsParsed(m: seq<byte>, attrs: seq<Attr>)
    requires IsMessage(m, attrs)
    ensures Parsed(m) == Some(Interpret(HeaderPacket(m), attrs, 20))
    ensures SplitFrom(m, 20) == Some(attrs)
  {
    hide Seal, Crc, Get4Bytes, Get2Bytes, Be4, SplitFrom, Scan, Interpret, HeaderPacket;
    SplitOfRender(m, 20, attrs);
    ScanIsAdmissible(attrs, false, false);
    RenderSize(attrs);
    assert m[4..8] == [m[4], m[5], m[6], m[7]];
    assert COOKIE == [COOKIE[0], COOKIE[1], COOKIE[2], COOKIE[3]];
    if EndsInFingerprint(attrs) {
      FingerprintIsLast(m, attrs);
      Be4Inverse(Seal(Crc(m[..|m| - 8])), m, |m| - 4);
      assert m[|m| - 4..] == m[|m| - 4..|m| - 4 + 4];
    }
  }
}
