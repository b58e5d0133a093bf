/** Inputs at which a property of the message engine fails, and exactly which inputs those are. */
module Limits {
  import opened Wrappers
  import opened Words
  import opened Bytes
  import opened Attributes
  import opened Message
  import opened Encoding
  import opened RoundTrip

  /** What `CreateSuccessResponse` makes of a request. */
  function SuccessResponseTo(p: Packet): Packet {
    Packet(SuccessResponse, p.methodCode, p.transactionId, [], 0, 0, 0, false, None, false, None, 0, [])
  }

  /** The message printed for a packet without username. */
  function Printed(p: Packet, hmac: Hmac): seq<byte>
    requires p.username == []
  {
    ShortUsernameFits(p);
    Wire(p, [], hmac)
  }

  /** A success response to an accepted message is accepted in turn iff the method is below 0x080. */
  lemma ResponseIsAcceptedIff(m: seq<byte>, hmac: Hmac)
    requires Parsed(m).Some?
    ensures var p := Parsed(m).value;
            Parsed(Printed(SuccessResponseTo(p), hmac)).Some? <==> p.methodCode < 0x080
  {
    hide Parsed, Wire, TypeField;
    var r := SuccessResponseTo(Parsed(m).value);
    ReceivedType(m);
    ShortUsernameFits(r);
    WireRoundTrip(r, [], hmac);
    SuccessType(r.methodCode);
  }

  lemma SuccessType(methodCode: u16)
    requires methodCode < 0x1000
    ensures TypeField(SuccessResponse, methodCode) < 0x300 <==> methodCode < 0x080
  {
    var m7 := methodCode / 0x80;
    PartsBy20(m7, 0, m7);
    HighMethodType(m7, methodCode / 0x10 % 8, methodCode % 0x10);
  }

  lemma HighMethodType(m7: nat, m4: nat, m0: nat)
    requires m4 < 8 && m0 < 0x10
    ensures Interleave(m7, 1, m4, 0, m0) < 0x300 <==> m7 == 0
  {
  }

  /** A request of type 0x0200 without attributes. */
  function HighMethodRequest(): seq<byte> {
    [2, 0, 0, 0] + COOKIE + [0, 0, 0, 0, 0, 0, 0, 0, 0, 0, 0, 0]
  }

  /** It is accepted, and the response to it, of type 0x0300, is not. */
  lemma HighMethodResponseIsRejected(hmac: Hmac)
    ensures Parsed(HighMethodRequest()).Some?
    ensures var p := Parsed(HighMethodRequest()).value;
            p.klass == Request && p.methodCode == 0x080 && Parsed(Printed(SuccessResponseTo(p), hmac)).None?
  {
    hide Printed, Parsed, Interpret, Get2Bytes, HeaderPacket, HighMethodRequest;
    var m := HighMethodRequest();
    HighMethodIsMessage();
    MessageIsParsed(m, []);
    InterpretNone(HeaderPacket(m), 20);
    HighMethodFields();
    ResponseIsAcceptedIff(m, hmac);
  }

  lemma HighMethodIsMessage()
    ensures IsMessage(HighMethodRequest(), [])
  {
  }

  lemma HighMethodFields()
    ensures var m := HighMethodRequest();
            |m| >= 20 && HeaderPacket(m).klass == Request && HeaderPacket(m).methodCode == 0x080
  {
    hide ClassBits, MethodBits, JoinMethod;
    var m := HighMethodRequest();
    assert m[0] == 2 && m[1] == 0;
    Type0x0200();
  }

  lemma Type0x0200()
    ensures ClassBits(2, 0) == 0 && MethodBits(0x200) == 0x080
  {
    assert MethodBits(0x200) == JoinMethod(1, 0, 0) by {
      hide JoinMethod;
      assert 0x200 / 0x200 % 0x20 == 1 && 0x200 / 0x20 % 8 == 0 && 0x200 % 0x10 == 0;
    }
    hide MethodBits;
  }

  /** A BINDING error response whose ERROR-CODE has class 255 and number 100. */
  function WrappedError(): seq<byte> {
    [1, 0x11, 0, 8] + COOKIE + [0, 0, 0, 0, 0, 0, 0, 0, 0, 0, 0, 0] + [0, 9, 0, 4, 0, 0, 255, 100]
  }

  /** It is accepted with the code 25600, which the printer writes as 0: the second round writes other
      bytes than the first. */
  lemma WrappedErrorIsNotStable(hmac: Hmac)
    ensures Parsed(WrappedError()).Some?
    ensures var p := Parsed(WrappedError()).value;
            && p.klass == ErrorResponse && p.errorCode == 25600 && p.username == []
            && var w := Printed(p, hmac);
               && Parsed(w).Some? && Parsed(w).value.errorCode == 0 && Parsed(w).value.username == []
               && Printed(Parsed(w).value, hmac) != w
  {
    hide Wire, Parsed, Interpret, HeaderPacket, Fits, Apply, WrappedError;
    var m, a := WrappedError(), WrappedErrorAttr();
    WrappedErrorIsMessage();
    MessageIsParsed(m, [a]);
    InterpretOne(HeaderPacket(m), a, 20);
    ApplyEffect(HeaderPacket(m), a, 20);
    WrappedErrorHeader();
    ShortUsernameFits(Parsed(m).value);
    NormalForm(m, [], hmac);
  }

  function WrappedErrorAttr(): Attr {
    Tlv(ERROR_CODE, [0, 0, 255, 100], [])
  }

  lemma WrappedErrorIsMessage()
    ensures IsMessage(WrappedError(), [WrappedErrorAttr()])
  {
    RenderOne(WrappedErrorAttr());
    assert Be2(ERROR_CODE) == [0, 9] && Be2(4) == [0, 4];
  }

  lemma WrappedErrorHeader()
    ensures var m := WrappedError();
            |m| >= 20 && HeaderPacket(m).klass == ErrorResponse && HeaderPacket(m).username == []
  {
    hide ClassBits, MethodBits;
    assert WrappedError()[0] == 1 && WrappedError()[1] == 0x11;
    Type0x0111();
  }

  lemma Type0x0111()
    ensures ClassBits(1, 0x11) == 3
  {
  }
}
