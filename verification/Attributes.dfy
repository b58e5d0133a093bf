/** STUN attributes: type, length, value and padding to a 32-bit boundary (RFC 5389, section 15). */
module Attributes {
  import opened Wrappers
  import opened Words
  import opened Bytes

  const USERNAME: u16 := 0x0006
  const MESSAGE_INTEGRITY: u16 := 0x0008
  const ERROR_CODE: u16 := 0x0009
  const XOR_MAPPED_ADDRESS: u16 := 0x0020
  const PRIORITY: u16 := 0x0024
  const USE_CANDIDATE: u16 := 0x0025
  const FINGERPRINT: u16 := 0x8028
  const ICE_CONTROLLED: u16 := 0x8029
  const ICE_CONTROLLING: u16 := 0x802A

  datatype Tlv = Tlv(kind: u16, value: seq<byte>, padding: seq<byte>)

  /** An attribute that fits its 16-bit length field and ends on a 32-bit boundary. The padding bytes
      may have any value. */
  type Attr = t: Tlv | |t.value| < 0x1_0000 && |t.padding| == PadLen(|t.value|)
    witness Tlv(0, [], [])

  function Size(a: Attr): (n: nat)
    ensures n >= 4 && n % 4 == 0
  {
    4 + |a.value| + |a.padding|
  }

  function Encode(a: Attr): (s: seq<byte>)
    ensures |s| == Size(a)
  {
    Be2(a.kind) + Be2(|a.value|) + a.value + a.padding
  }

  /** The attributes of a message, one after the other. */
  function Render(attrs: seq<Attr>): seq<byte> {
    if attrs == [] then [] else Encode(attrs[0]) + Render(attrs[1..])
  }

  function TotalSize(attrs: seq<Attr>): (n: nat)
    ensures n % 4 == 0
  {
    if attrs == [] then 0 else Size(attrs[0]) + TotalSize(attrs[1..])
  }

  /** The attribute that starts at `pos`, when it fits into `m` with its padding. */
  function AttrAt(m: seq<byte>, pos: nat): (a: Attr)
    requires pos + 4 <= |m|
    requires var n := Get2Bytes(m, pos + 2); pos + 4 + n + PadLen(n) <= |m|
    ensures pos + Size(a) <= |m|
  {
    var n := Get2Bytes(m, pos + 2);
    Tlv(Get2Bytes(m, pos), m[pos + 4..pos + 4 + n], m[pos + 4 + n..pos + 4 + n + PadLen(n)])
  }

  /** The attributes from `pos` to the end of `m`, if the bytes divide into whole attributes. */
  function SplitFrom(m: seq<byte>, pos: nat): Option<seq<Attr>>
    requires pos <= |m|
    decreases |m| - pos
  {
    if pos == |m| then Some([])
    else if pos + 4 > |m| then None
    else
      var n := Get2Bytes(m, pos + 2);
      if pos + 4 + n + PadLen(n) > |m| then None
      else
        var a := AttrAt(m, pos);
        match SplitFrom(m, pos + Size(a))
        case None => None
        case Some(rest) => Some([a] + rest)
  }

  lemma RenderOne(a: Attr)
    ensures Render([a]) == Encode(a) && TotalSize([a]) == Size(a)
  {
  }

  lemma {:induction false} RenderAppend(a: seq<Attr>, b: seq<Attr>)
    ensures Render(a + b) == Render(a) + Render(b)
    ensures TotalSize(a + b) == TotalSize(a) + TotalSize(b)
    decreases |a|
  {
    if a == [] {
      assert a + b == b;
    } else {
      assert (a + b)[1..] == a[1..] + b;
      RenderAppend(a[1..], b);
    }
  }

  lemma {:induction false} RenderSize(attrs: seq<Attr>)
    ensures |Render(attrs)| == TotalSize(attrs)
  {
    if attrs != [] {
      RenderSize(attrs[1..]);
    }
  }

  /** Where an encoded attribute stands, `AttrAt` reads it back. */
  lemma AttrAtOfEncode(m: seq<byte>, pos: nat, a: Attr)
    requires pos + Size(a) <= |m| && m[pos..pos + Size(a)] == Encode(a)
    ensures Get2Bytes(m, pos + 2) == |a.value| && AttrAt(m, pos) == a
  {
    hide Octet, Be2, Get2Bytes;
    var s := m[pos..pos + Size(a)];
    var n := |a.value|;
    assert |Be2(a.kind)| == 2 && |Be2(n)| == 2;
    FourParts(Be2(a.kind), Be2(n), a.value, a.padding);
    SubSlice(m, pos, pos + Size(a), 0, 2);
    SubSlice(m, pos, pos + Size(a), 2, 4);
    SubSlice(m, pos, pos + Size(a), 4, 4 + n);
    SubSlice(m, pos, pos + Size(a), 4 + n, Size(a));
    Be2Inverse(a.kind, m, pos);
    Be2Inverse(n, m, pos + 2);
    assert s[4 + n..] == s[4 + n..Size(a)];
  }

  /** What `AttrAt` reads encodes to the bytes it read. */
  lemma EncodeOfAttrAt(m: seq<byte>, pos: nat)
    requires pos + 4 <= |m|
    requires var n := Get2Bytes(m, pos + 2); pos + 4 + n + PadLen(n) <= |m|
    ensures var a := AttrAt(m, pos); Encode(a) == m[pos..pos + Size(a)]
  {
    var a := AttrAt(m, pos);
    var n := |a.value|;
    Be2Inverse(a.kind, m, pos);
    Be2Inverse(n, m, pos + 2);
    assert m[pos..pos + Size(a)]
        == m[pos..pos + 2] + m[pos + 2..pos + 4] + m[pos + 4..pos + 4 + n] + m[pos + 4 + n..pos + Size(a)];
  }

  /** Splitting undoes rendering, ... */
  lemma {:induction false} SplitOfRender(m: seq<byte>, pos: nat, attrs: seq<Attr>)
    requires pos <= |m| && m[pos..] == Render(attrs)
    ensures SplitFrom(m, pos) == Some(attrs)
    decreases |attrs|
  {
    hide Encode, Octet, Get2Bytes;
    if attrs == [] {
      assert |m[pos..]| == 0;
      assert pos == |m|;
    } else {
      var a := attrs[0];
      assert Render(attrs) == Encode(a) + Render(attrs[1..]);
      assert |m[pos..]| == Size(a) + |Render(attrs[1..])|;
      assert m[pos..pos + Size(a)] == m[pos..][..Size(a)] == Encode(a);
      AttrAtOfEncode(m, pos, a);
      assert m[pos + Size(a)..] == m[pos..][Size(a)..] == Render(attrs[1..]);
      SplitOfRender(m, pos + Size(a), attrs[1..]);
      assert attrs == [a] + attrs[1..];
    }
  }

  /** ... and rendering undoes splitting: the attribute list of a byte string is unique. */
  lemma {:induction false} RenderOfSplit(m: seq<byte>, pos: nat)
    requires pos <= |m| && SplitFrom(m, pos).Some?
    ensures Render(SplitFrom(m, pos).value) == m[pos..]
    decreases |m| - pos
  {
    if pos < |m| {
      var a := AttrAt(m, pos);
      EncodeOfAttrAt(m, pos);
      RenderOfSplit(m, pos + Size(a));
      assert m[pos..] == m[pos..pos + Size(a)] + m[pos + Size(a)..];
    }
  }

  // ----- the rules for the attributes of one message -----

  /** The lengths `Stun::Parse` insists on. */
  predicate LengthOk(a: Attr) {
    var n := |a.value|;
    if a.kind == PRIORITY || a.kind == FINGERPRINT then n == 4
    else if a.kind == ICE_CONTROLLING || a.kind == ICE_CONTROLLED then n == 8
    else if a.kind == USE_CANDIDATE then n == 0
    else if a.kind == MESSAGE_INTEGRITY then n == 20
    else if a.kind == ERROR_CODE then n >= 4
    else true
  }

  /** Every attribute has its length, FINGERPRINT is last, and MESSAGE-INTEGRITY is last or directly
      followed by a last FINGERPRINT. */
  ghost predicate Admissible(attrs: seq<Attr>) {
    && (forall i :: 0 <= i < |attrs| ==> LengthOk(attrs[i]))
    && (forall i :: 0 <= i < |attrs| && attrs[i].kind == FINGERPRINT ==> i == |attrs| - 1)
    && (forall i :: 0 <= i < |attrs| - 1 && attrs[i].kind == MESSAGE_INTEGRITY ==>
          i == |attrs| - 2 && attrs[|attrs| - 1].kind == FINGERPRINT)
  }

  /** The same rules as the parser applies them, from left to right with its two flags. */
  predicate Scan(attrs: seq<Attr>, hasMessageIntegrity: bool, hasFingerprint: bool) {
    attrs == [] ||
    (var a := attrs[0];
     && !hasFingerprint
     && (hasMessageIntegrity ==> a.kind == FINGERPRINT)
     && LengthOk(a)
     && Scan(attrs[1..], hasMessageIntegrity || a.kind == MESSAGE_INTEGRITY, a.kind == FINGERPRINT))
  }

  lemma {:induction false} ScanIsAdmissible(attrs: seq<Attr>, mi: bool, fp: bool)
    ensures Scan(attrs, mi, fp) <==>
            && Admissible(attrs)
            && (fp ==> attrs == [])
            && (mi ==> attrs == [] || (|attrs| == 1 && attrs[0].kind == FINGERPRINT))
    decreases |attrs|
  {
    hide LengthOk, Admissible;
    if attrs == [] {
      NoneAdmissible();
    } else {
      var a, rest := attrs[0], attrs[1..];
      ScanIsAdmissible(rest, mi || a.kind == MESSAGE_INTEGRITY, a.kind == FINGERPRINT);
      assert attrs == [a] + rest;
      if Admissible(attrs) {
        AdmissibleTail(a, rest);
      } else if Scan(attrs, mi, fp) {
        ConsAdmissible(a, rest);
      }
    }
  }

  lemma NoneAdmissible()
    ensures Admissible([])
  {
  }

  lemma ConsAdmissible(a: Attr, rest: seq<Attr>)
    requires Admissible(rest) && LengthOk(a)
    requires a.kind == FINGERPRINT ==> rest == []
    requires a.kind == MESSAGE_INTEGRITY ==> rest == [] || (|rest| == 1 && rest[0].kind == FINGERPRINT)
    ensures Admissible([a] + rest)
  {
  }

  lemma AdmissibleTail(a: Attr, rest: seq<Attr>)
    requires Admissible([a] + rest)
    ensures Admissible(rest) && LengthOk(a)
    ensures a.kind == FINGERPRINT ==> rest == []
    ensures a.kind == MESSAGE_INTEGRITY ==> rest == [] || (|rest| == 1 && rest[0].kind == FINGERPRINT)
  {
    hide LengthOk;
    var attrs := [a] + rest;
    assert attrs[0] == a;
    forall i | 0 <= i < |rest|
      ensures LengthOk(rest[i])
      ensures rest[i].kind == FINGERPRINT ==> i == |rest| - 1
      ensures rest[i].kind == MESSAGE_INTEGRITY && i < |rest| - 1 ==>
                i == |rest| - 2 && rest[|rest| - 1].kind == FINGERPRINT
    {
      assert attrs[i + 1] == rest[i];
      assert attrs[|attrs| - 1] == rest[|rest| - 1];
    }
  }
}
