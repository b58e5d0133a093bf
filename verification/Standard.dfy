/** STUN messages in literal bytes, without the names of the program (RFC 5389, sections 6 and 15, and
    section 19.1 of RFC 5245): which byte strings are accepted, and what each byte means. */
module Standard {
  import opened Wrappers
  import opened Words
  import opened Bytes
  import opened Crc32
  import opened Fingerprints
  import opened Attributes
  import opened Message

  /** An attribute as it stands in a message: where, its type and the length of its value. */
  datatype Item = Item(at: nat, kind: nat, length: nat)

  /** The number of two bytes, high byte first. */
  function Two(a: int, b: int): int {
    0x100 * a + b
  }

  function Four(a: int, b: int, c: int, d: int): int {
    0x1_0000 * Two(a, b) + Two(c, d)
  }

  /** The value of an attribute. */
  function ValueOf(m: seq<byte>, t: Item): seq<byte>
    requires t.at + 4 + t.length <= |m|
  {
    m[t.at + 4..t.at + 4 + t.length]
  }

  /** From `pos` to its end, `m` consists of these attributes: type and length in two bytes each, high
      byte first, then the value, then up to the next multiple of four. */
  predicate Tiles(m: seq<byte>, items: seq<Item>, pos: nat)
    decreases |items|
  {
    if items == [] then pos == |m|
    else
      var t := items[0];
      && t.at == pos && pos + 4 + (t.length + 3) / 4 * 4 <= |m|
      && t.kind == Two(m[pos], m[pos + 1]) && t.length == Two(m[pos + 2], m[pos + 3])
      && Tiles(m, items[1..], pos + 4 + (t.length + 3) / 4 * 4)
  }

  /** The lengths and the order the types allow. 0024 is PRIORITY, 8029 and 802A ICE-CONTROLLED and
      ICE-CONTROLLING, 0025 USE-CANDIDATE, 0009 ERROR-CODE, 0008 MESSAGE-INTEGRITY, 8028 FINGERPRINT. */
  ghost predicate Legal(m: seq<byte>, items: seq<Item>) {
    && (forall i :: 0 <= i < |items| ==> LegalLength(items[i].kind, items[i].length))
    && (forall i :: 0 <= i < |items| && items[i].kind == 0x8028 ==>
          i == |items| - 1 && |m| >= 8 && Seals(m, |m| - 4, m[..|m| - 8]))
    && (forall i :: 0 <= i < |items| - 1 && items[i].kind == 0x0008 ==>
          i == |items| - 2 && items[i + 1].kind == 0x8028)
  }

  predicate LegalLength(kind: nat, length: nat) {
    && (kind == 0x0024 || kind == 0x8028 ==> length == 4)
    && (kind == 0x8029 || kind == 0x802A ==> length == 8)
    && (kind == 0x0025 ==> length == 0)
    && (kind == 0x0008 ==> length == 20)
    && (kind == 0x0009 ==> length >= 4)
  }

  // ----- tiles are attributes -----

  /** The attributes `attrs` are these items. */
  predicate Match(m: seq<byte>, items: seq<Item>, attrs: seq<Attr>, pos: nat) {
    |items| == |attrs| && forall i :: 0 <= i < |items| ==> MatchAt(m, items, attrs, pos, i)
  }

  predicate MatchAt(m: seq<byte>, items: seq<Item>, attrs: seq<Attr>, pos: nat, i: nat)
    requires i < |items| == |attrs|
  {
    var t := items[i];
    && t.at == pos + TotalSize(attrs[..i]) && t.kind == attrs[i].kind && t.length == |attrs[i].value|
    && t.at + 4 + t.length <= |m| && attrs[i].value == ValueOf(m, t)
  }

  function ItemsOf(attrs: seq<Attr>, pos: nat): seq<Item> {
    if attrs == [] then []
    else [Item(pos, attrs[0].kind, |attrs[0].value|)] + ItemsOf(attrs[1..], pos + Size(attrs[0]))
  }

  lemma PaddedUp(n: nat)
    ensures (n + 3) / 4 * 4 == n + PadLen(n)
  {
  }

  lemma FieldBytes(m: seq<byte>, i: nat)
    requires i + 2 <= |m|
    ensures Get2Bytes(m, i) == Two(m[i], m[i + 1])
  {
  }

  lemma HeadOfSplit(m: seq<byte>, pos: nat)
    requires pos + 4 <= |m|
    requires var n := Get2Bytes(m, pos + 2); pos + 4 + n + PadLen(n) <= |m|
    ensures var a, n := AttrAt(m, pos), Get2Bytes(m, pos + 2);
            && a.kind == Get2Bytes(m, pos) && |a.value| == n && Size(a) == 4 + n + PadLen(n)
            && a.value == m[pos + 4..pos + 4 + n] && pos + Size(a) <= |m|
            && SplitFrom(m, pos) == match SplitFrom(m, pos + Size(a))
                                    case None => None
                                    case Some(rest) => Some([a] + rest)
  {
    hide Get2Bytes, PadLen;
  }

  /** Tiles determine the attributes. */
  lemma {:induction false} TilesSplit(m: seq<byte>, items: seq<Item>, pos: nat)
    requires pos <= |m| && Tiles(m, items, pos)
    ensures SplitFrom(m, pos).Some? && Match(m, items, SplitFrom(m, pos).value, pos)
    decreases |items|
  {
    hide Get2Bytes, PadLen, AttrAt, Size, Match, SplitFrom;
    if items == [] {
      NoItems(m);
    } else {
      var t := items[0];
      FieldBytes(m, pos);
      FieldBytes(m, pos + 2);
      PaddedUp(t.length);
      HeadOfSplit(m, pos);
      var a := AttrAt(m, pos);
      TilesSplit(m, items[1..], pos + Size(a));
      MatchMore(m, items, a, SplitFrom(m, pos + Size(a)).value, pos);
    }
  }

  lemma NoItems(m: seq<byte>)
    ensures SplitFrom(m, |m|) == Some([]) && Match(m, [], [], |m|)
  {
  }

  lemma MatchMore(m: seq<byte>, items: seq<Item>, a: Attr, rest: seq<Attr>, pos: nat)
    requires items != [] && Match(m, items[1..], rest, pos + Size(a))
    requires items[0] == Item(pos, a.kind, |a.value|)
    requires pos + 4 + |a.value| <= |m| && a.value == m[pos + 4..pos + 4 + |a.value|]
    ensures Match(m, items, [a] + rest, pos)
  {
    hide Size;
    var attrs := [a] + rest;
    forall i | 0 <= i < |items|
      ensures MatchAt(m, items, attrs, pos, i)
    {
      if i > 0 {
        assert MatchAt(m, items[1..], rest, pos + Size(a), i - 1);
        assert attrs[..i][1..] == rest[..i - 1] && attrs[..i][0] == a;
      }
    }
  }

  /** Every split comes from tiles. */
  lemma {:induction false} SplitTiles(m: seq<byte>, pos: nat)
    requires pos <= |m| && SplitFrom(m, pos).Some?
    ensures Tiles(m, ItemsOf(SplitFrom(m, pos).value, pos), pos)
    decreases |m| - pos
  {
    hide Get2Bytes, PadLen, AttrAt, Size;
    if pos < |m| {
      HeadOfSplit(m, pos);
      var a := AttrAt(m, pos);
      SplitTiles(m, pos + Size(a));
      FieldBytes(m, pos);
      FieldBytes(m, pos + 2);
      PaddedUp(Get2Bytes(m, pos + 2));
      var attrs := SplitFrom(m, pos).value;
      assert attrs[1..] == SplitFrom(m, pos + Size(a)).value;
      assert ItemsOf(attrs, pos)[1..] == ItemsOf(attrs[1..], pos + Size(a));
    }
  }

  // ----- which messages are accepted -----

  /** Twenty bytes: a type below 0x0300, the length of what follows, 21 12 A4 42. */
  predicate Header(m: seq<byte>) {
    && |m| >= 20
    && m[0] < 3
    && Two(m[2], m[3]) == |m| - 20
    && m[4] == 0x21 && m[5] == 0x12 && m[6] == 0xA4 && m[7] == 0x42
  }

  lemma HeaderMeans(m: seq<byte>)
    ensures Header(m) <==> |m| >= 20 && m[0] < 3 && Get2Bytes(m, 2) == |m| - 20 && m[4..8] == COOKIE
  {
    if |m| >= 20 {
      FieldBytes(m, 2);
      assert m[4..8] == [m[4], m[5], m[6], m[7]];
    }
  }

  /** The rules on literal types are the parser's rules. */
  lemma LegalMeans(m: seq<byte>, items: seq<Item>, attrs: seq<Attr>)
    requires |m| >= 20 && Match(m, items, attrs, 20) && m[20..] == Render(attrs)
    ensures Legal(m, items) <==>
              && Admissible(attrs)
              && (EndsInFingerprint(attrs) ==> IsSealed(m, attrs))
  {
    hide Seal, Crc, Be4, Get4Bytes, Render, Seals, Match, LegalLength, LengthOk, IsSealed;
    LengthsMean(m, items, attrs);
    if EndsInFingerprint(attrs) && LengthOk(attrs[|attrs| - 1]) {
      SealIsMeant(m, attrs);
    }
    if Legal(m, items) {
      forall i | 0 <= i < |attrs|
        ensures LengthOk(attrs[i])
      {
        assert LegalLength(items[i].kind, items[i].length);
      }
      if EndsInFingerprint(attrs) {
        assert items[|items| - 1].kind == 0x8028;
      }
    }
    if Admissible(attrs) && (EndsInFingerprint(attrs) ==> IsSealed(m, attrs)) {
      forall i | 0 <= i < |items|
        ensures LegalLength(items[i].kind, items[i].length)
      {
        assert LengthOk(attrs[i]);
      }
    }
  }

  /** The closing FINGERPRINT has the value the program computes. */
  predicate IsSealed(m: seq<byte>, attrs: seq<Attr>)
    requires |m| >= 8 && attrs != []
  {
    attrs[|attrs| - 1].value == Be4(Seal(Crc(m[..|m| - 8])))
  }

  lemma SealIsMeant(m: seq<byte>, attrs: seq<Attr>)
    requires |m| >= 20 && m[20..] == Render(attrs) && EndsInFingerprint(attrs) && LengthOk(attrs[|attrs| - 1])
    ensures IsSealed(m, attrs) <==> Seals(m, |m| - 4, m[..|m| - 8])
  {
    hide Seal, Crc, Be4, Get4Bytes, Render, Seals;
    FingerprintIsLast(m, attrs);
    SealMeans(m, |m| - 4, m[..|m| - 8]);
    Be4Inverse(Seal(Crc(m[..|m| - 8])), m, |m| - 4);
    assert m[|m| - 4..] == m[|m| - 4..|m| - 4 + 4];
  }

  lemma LengthsMean(m: seq<byte>, items: seq<Item>, attrs: seq<Attr>)
    requires Match(m, items, attrs, 20)
    ensures |items| == |attrs| && forall i :: 0 <= i < |items| ==> items[i].kind == attrs[i].kind
    ensures forall i :: 0 <= i < |items| ==> (LegalLength(items[i].kind, items[i].length) <==> LengthOk(attrs[i]))
  {
    forall i | 0 <= i < |items|
      ensures items[i].kind == attrs[i].kind
      ensures LegalLength(items[i].kind, items[i].length) <==> LengthOk(attrs[i])
    {
      assert MatchAt(m, items, attrs, 20, i);
    }
  }

  /** A byte string is accepted iff it has the header and consists, behind it, of legal attributes. */
  lemma AcceptedIff(m: seq<byte>)
    ensures Parsed(m).Some? <==> Header(m) && exists items :: Tiles(m, items, 20) && Legal(m, items)
  {
    hide Parsed, SplitFrom, Tiles, Legal, Match, Render, Admissible, Header, Get2Bytes, Interpret, Seal, Crc, Be4;
    HeaderMeans(m);
    if Parsed(m).Some? {
      var p := Parsed(m).value;
      AcceptedHasAttrs(m);
      var attrs := SplitFrom(m, 20).value;
      SplitTiles(m, 20);
      TilesSplit(m, ItemsOf(attrs, 20), 20);
      LegalMeans(m, ItemsOf(attrs, 20), attrs);
    }
    if Header(m) && exists items :: Tiles(m, items, 20) && Legal(m, items) {
      var items :| Tiles(m, items, 20) && Legal(m, items);
      TilesSplit(m, items, 20);
      var attrs := SplitFrom(m, 20).value;
      RenderOfSplit(m, 20);
      LegalMeans(m, items, attrs);
      MessageIsParsed(m, attrs);
    }
  }

  /** An accepted message has the header, and its attributes, however found, are legal. */
  lemma AcceptedIsLegal(m: seq<byte>, items: seq<Item>)
    requires Parsed(m).Some? && Tiles(m, items, 20)
    ensures Header(m) && Legal(m, items)
  {
    hide Parsed, SplitFrom, Tiles, Legal, Match, Render, Admissible, Header, Get2Bytes, Interpret, Seal, Crc, Be4;
    HeaderMeans(m);
    AcceptedHasAttrs(m);
    TilesSplit(m, items, 20);
    LegalMeans(m, items, SplitFrom(m, 20).value);
  }

  lemma AcceptedHasAttrs(m: seq<byte>)
    requires Parsed(m).Some?
    ensures |m| >= 20 && SplitFrom(m, 20).Some? && IsMessage(m, SplitFrom(m, 20).value)
  {
    hide SplitFrom, Scan, SealOk, Interpret, IsMessage, HeaderPacket;
    ParsedIsMessage(m, SplitFrom(m, 20).value);
  }

  // ----- what an accepted message means -----

  /** The `i`th attribute is the last one of its type. */
  ghost predicate LastOf(items: seq<Item>, i: int, kind: nat) {
    0 <= i < |items| && items[i].kind == kind && forall j :: i < j < |items| ==> items[j].kind != kind
  }

  ghost predicate Absent(items: seq<Item>, kind: nat) {
    forall j :: 0 <= j < |items| ==> items[j].kind != kind
  }

  ghost predicate Inside(m: seq<byte>, items: seq<Item>) {
    forall i :: 0 <= i < |items| ==> items[i].at + 4 + items[i].length <= |m|
  }

  /** Class and method are spread over the first two bytes; the last twelve are the transaction id. */
  ghost predicate HeaderFields(m: seq<byte>, p: Packet)
    requires |m| >= 20
  {
    var hi: int, lo: int := m[0], m[1];
    && p.klass == (if hi % 2 == 0 then (if lo / 0x10 % 2 == 0 then Request else Indication)
                   else (if lo / 0x10 % 2 == 0 then SuccessResponse else ErrorResponse))
    && p.methodCode == hi / 2 * 0x80 + lo / 0x20 * 0x10 + lo % 0x10
    && p.transactionId == m[8..20] && p.password == [] && p.xorMappedAddress.None?
  }

  /** USERNAME, PRIORITY and the two ICE attributes give their values, the last of a type the one that
      counts. */
  ghost predicate ValueFields(m: seq<byte>, items: seq<Item>, p: Packet)
    requires Inside(m, items)
  {
    && (forall i :: LastOf(items, i, 0x0006) ==> p.username == ValueOf(m, items[i]))
    && (forall i :: LastOf(items, i, 0x0024) ==> ReadsFour(ValueOf(m, items[i]), p.priority))
    && (forall i :: LastOf(items, i, 0x802A) ==> ReadsEight(ValueOf(m, items[i]), p.iceControlling))
    && (forall i :: LastOf(items, i, 0x8029) ==> ReadsEight(ValueOf(m, items[i]), p.iceControlled))
    && (forall i :: LastOf(items, i, 0x0009) ==> ReadsError(ValueOf(m, items[i]), p.errorCode))
    && (Absent(items, 0x0006) ==> p.username == [])
    && (Absent(items, 0x0024) ==> p.priority == 0)
    && (Absent(items, 0x802A) ==> p.iceControlling == 0)
    && (Absent(items, 0x8029) ==> p.iceControlled == 0)
    && (Absent(items, 0x0009) ==> p.errorCode == 0)
  }

  /** USE-CANDIDATE, MESSAGE-INTEGRITY and FINGERPRINT count by being there; MESSAGE-INTEGRITY is known
      by where its value stands. */
  ghost predicate FlagFields(items: seq<Item>, p: Packet) {
    && (p.hasUseCandidate <==> !Absent(items, 0x0025))
    && (p.hasFingerprint <==> !Absent(items, 0x8028))
    && (p.messageIntegrity.None? <==> Absent(items, 0x0008))
    && (forall i :: LastOf(items, i, 0x0008) ==> p.messageIntegrity == Some(items[i].at + 4))
  }

  predicate ReadsFour(v: seq<byte>, n: int) {
    |v| == 4 && n == Four(v[0], v[1], v[2], v[3])
  }

  predicate ReadsEight(v: seq<byte>, n: int) {
    |v| == 8 && n == 0x1_0000_0000 * Four(v[0], v[1], v[2], v[3]) + Four(v[4], v[5], v[6], v[7])
  }

  /** Class and number of an error are its third and fourth byte. */
  predicate ReadsError(v: seq<byte>, n: int) {
    |v| >= 4 && (var hundreds: int, number: int := v[2], v[3]; n == 100 * hundreds + number)
  }

  lemma LastIndexOf(items: seq<Item>, attrs: seq<Attr>, kind: u16)
    requires |items| == |attrs| && forall i :: 0 <= i < |items| ==> items[i].kind == attrs[i].kind
    ensures forall i :: LastOf(items, i, kind) ==> i == LastIndex(attrs, kind)
    ensures Absent(items, kind) <==> LastIndex(attrs, kind) < 0
  {
    var last := LastIndex(attrs, kind);
    assert last >= 0 ==> items[last].kind == kind;
  }

  lemma ReadsAsFields(v: seq<byte>)
    ensures |v| == 4 ==> ReadsFour(v, Get4Bytes(v, 0))
    ensures |v| == 8 ==> ReadsEight(v, Get8Bytes(v, 0))
    ensures |v| >= 4 ==> ReadsError(v, JoinError(v[2], v[3]))
  {
  }

  lemma HeaderFieldsMean(m: seq<byte>)
    requires |m| >= 20 && m[0] < 3
    ensures HeaderFields(m, HeaderPacket(m))
  {
    TypeBytes(m[0], m[1], Get2Bytes(m, 0));
    ClassBytes(m[0], m[1]);
    hide MethodBits, ClassBits, Get2Bytes;
  }

  lemma TypeBytes(hi: byte, lo: byte, t: u16)
    requires hi < 3 && t == Two(hi, lo)
    ensures var h: int, l: int := hi, lo; MethodBits(t) == h / 2 * 0x80 + l / 0x20 * 0x10 + l % 0x10
  {
    var h: int, l: int := hi, lo;
    PartsBy200(t, h / 2, h % 2 * 0x100 + l);
    PartsBy20(h / 2, 0, h / 2);
    PartsBy20(t, h * 8 + l / 0x20, l % 0x20);
    PartsBy8(h * 8 + l / 0x20, h, l / 0x20);
    PartsBy10(t, h * 0x10 + l / 0x10, l % 0x10);
  }

  lemma ClassBytes(hi: byte, lo: byte)
    ensures ClassOf(ClassBits(hi, lo)) ==
              (if hi % 2 == 0 then (if lo / 0x10 % 2 == 0 then Request else Indication)
               else (if lo / 0x10 % 2 == 0 then SuccessResponse else ErrorResponse))
  {
  }

  /** Every field of an accepted message, from its bytes. */
  lemma FieldsAre(m: seq<byte>, items: seq<Item>, p: Packet)
    requires Parsed(m) == Some(p) && Tiles(m, items, 20)
    ensures |m| >= 20 && Inside(m, items)
    ensures HeaderFields(m, p) && ValueFields(m, items, p) && FlagFields(items, p)
  {
    hide Parsed, SplitFrom, Tiles, Match, Render, Interpret, Seal, Crc, Be4, HeaderPacket, LastOf, Absent, Inside,
         HeaderFields, ValueFields, FlagFields, LastValues, LastFlags, IsMessage;
    AcceptedHasAttrs(m);
    var attrs := SplitFrom(m, 20).value;
    ParsedIsMessage(m, attrs);
    TilesSplit(m, items, 20);
    FieldsAreLastOccurrences(HeaderPacket(m), attrs, 20);
    FirstByte(m, attrs);
    FieldsFromAttrs(m, items, attrs, HeaderPacket(m), p);
  }

  lemma FirstByte(m: seq<byte>, attrs: seq<Attr>)
    requires IsMessage(m, attrs)
    ensures |m| >= 20 && m[0] < 3
  {
    hide Admissible, Render, Seal, Crc;
  }

  lemma FieldsFromAttrs(m: seq<byte>, items: seq<Item>, attrs: seq<Attr>, h: Packet, p: Packet)
    requires |m| >= 20 && m[0] < 3 && h == HeaderPacket(m)
    requires Match(m, items, attrs, 20) && LengthsOk(attrs) && LastOccurrences(h, p, attrs, 20)
    ensures Inside(m, items) && HeaderFields(m, p) && ValueFields(m, items, p) && FlagFields(items, p)
  {
    hide LastOf, Absent, ValueFields, FlagFields, HeaderFields, LastValues, LastFlags, MatchAt, LengthsOk;
    MatchIsInside(m, items, attrs);
    HeaderFieldsMean(m);
    SameHeader(m, h, p, attrs);
    HeaderIsBlank(m);
    ValuesFromAttrs(m, items, attrs, h, p);
    FlagsFromAttrs(m, items, attrs, h, p);
  }

  lemma MatchIsInside(m: seq<byte>, items: seq<Item>, attrs: seq<Attr>)
    requires Match(m, items, attrs, 20)
    ensures Inside(m, items)
  {
    forall i | 0 <= i < |items|
      ensures items[i].at + 4 + items[i].length <= |m|
    {
      assert MatchAt(m, items, attrs, 20, i);
    }
  }

  /** No attribute has been read yet. */
  predicate Blank(h: Packet) {
    && h.username == [] && h.priority == 0 && h.iceControlling == 0 && h.iceControlled == 0 && h.errorCode == 0
    && !h.hasUseCandidate && !h.hasFingerprint && h.messageIntegrity.None?
  }

  lemma HeaderIsBlank(m: seq<byte>)
    requires |m| >= 20
    ensures Blank(HeaderPacket(m))
  {
    hide ClassBits, MethodBits, Get2Bytes, ClassOf;
  }

  lemma SameHeader(m: seq<byte>, h: Packet, p: Packet, attrs: seq<Attr>)
    requires |m| >= 20 && h == HeaderPacket(m) && HeaderFields(m, h) && LastFlags(h, p, attrs, 20)
    ensures HeaderFields(m, p)
  {
    hide HeaderPacket, TotalSize;
  }

  /** The last item of a kind is the last attribute of that kind. */
  lemma LastValue(m: seq<byte>, items: seq<Item>, attrs: seq<Attr>, kind: u16)
    requires Match(m, items, attrs, 20) && Inside(m, items)
    ensures forall i :: LastOf(items, i, kind) ==>
              0 <= i < |items| && i == LastIndex(attrs, kind) && ValueOf(m, items[i]) == attrs[i].value
              && items[i].at == 20 + TotalSize(attrs[..i])
    ensures Absent(items, kind) <==> LastIndex(attrs, kind) < 0
  {
    hide TotalSize, ValueOf;
    forall i | 0 <= i < |items|
      ensures items[i].kind == attrs[i].kind
    {
      assert MatchAt(m, items, attrs, 20, i);
    }
    LastIndexOf(items, attrs, kind);
    forall i | LastOf(items, i, kind)
      ensures ValueOf(m, items[i]) == attrs[i].value && items[i].at == 20 + TotalSize(attrs[..i])
    {
      assert MatchAt(m, items, attrs, 20, i);
    }
  }

  lemma ValuesFromAttrs(m: seq<byte>, items: seq<Item>, attrs: seq<Attr>, h: Packet, p: Packet)
    requires Blank(h) && Match(m, items, attrs, 20) && Inside(m, items)
    requires LengthsOk(attrs) && LastValues(h, p, attrs)
    ensures ValueFields(m, items, p)
  {
    hide LastOf, Absent, ReadsFour, ReadsEight, ReadsError, Match, ValueOf, Inside, LastValues, Blank, LengthsOk;
    UsernameField(m, items, attrs, h, p);
    PriorityField(m, items, attrs, h, p);
    ControllingField(m, items, attrs, h, p);
    ControlledField(m, items, attrs, h, p);
    ErrorField(m, items, attrs, h, p);
  }

  lemma UsernameField(m: seq<byte>, items: seq<Item>, attrs: seq<Attr>, h: Packet, p: Packet)
    requires Blank(h) && Match(m, items, attrs, 20) && Inside(m, items)
    requires LengthsOk(attrs) && LastValues(h, p, attrs)
    ensures forall i :: LastOf(items, i, 0x0006) ==> p.username == ValueOf(m, items[i])
    ensures Absent(items, 0x0006) ==> p.username == []
  {
    hide LastOf, Absent, Match, ValueOf, Inside, Get4Bytes, Get8Bytes, JoinError;
    LastValue(m, items, attrs, USERNAME);
  }

  lemma PriorityField(m: seq<byte>, items: seq<Item>, attrs: seq<Attr>, h: Packet, p: Packet)
    requires Blank(h) && Match(m, items, attrs, 20) && Inside(m, items)
    requires LengthsOk(attrs) && LastValues(h, p, attrs)
    ensures forall i :: LastOf(items, i, 0x0024) ==> ReadsFour(ValueOf(m, items[i]), p.priority)
    ensures Absent(items, 0x0024) ==> p.priority == 0
  {
    hide LastOf, Absent, Match, ValueOf, Inside, ReadsFour, Get4Bytes, Get8Bytes, JoinError;
    LastValue(m, items, attrs, PRIORITY);
    var last := LastIndex(attrs, PRIORITY);
    if last >= 0 {
      assert LengthOk(attrs[last]);
      ReadsAsFields(attrs[last].value);
    }
  }

  lemma ControllingField(m: seq<byte>, items: seq<Item>, attrs: seq<Attr>, h: Packet, p: Packet)
    requires Blank(h) && Match(m, items, attrs, 20) && Inside(m, items)
    requires LengthsOk(attrs) && LastValues(h, p, attrs)
    ensures forall i :: LastOf(items, i, 0x802A) ==> ReadsEight(ValueOf(m, items[i]), p.iceControlling)
    ensures Absent(items, 0x802A) ==> p.iceControlling == 0
  {
    hide LastOf, Absent, Match, ValueOf, Inside, ReadsEight, Get4Bytes, Get8Bytes, JoinError;
    LastValue(m, items, attrs, ICE_CONTROLLING);
    var last := LastIndex(attrs, ICE_CONTROLLING);
    if last >= 0 {
      assert LengthOk(attrs[last]);
      ReadsAsFields(attrs[last].value);
    }
  }

  lemma ControlledField(m: seq<byte>, items: seq<Item>, attrs: seq<Attr>, h: Packet, p: Packet)
    requires Blank(h) && Match(m, items, attrs, 20) && Inside(m, items)
    requires LengthsOk(attrs) && LastValues(h, p, attrs)
    ensures forall i :: LastOf(items, i, 0x8029) ==> ReadsEight(ValueOf(m, items[i]), p.iceControlled)
    ensures Absent(items, 0x8029) ==> p.iceControlled == 0
  {
    hide LastOf, Absent, Match, ValueOf, Inside, ReadsEight, Get4Bytes, Get8Bytes, JoinError;
    LastValue(m, items, attrs, ICE_CONTROLLED);
    var last := LastIndex(attrs, ICE_CONTROLLED);
    if last >= 0 {
      assert LengthOk(attrs[last]);
      ReadsAsFields(attrs[last].value);
    }
  }

  lemma ErrorField(m: seq<byte>, items: seq<Item>, attrs: seq<Attr>, h: Packet, p: Packet)
    requires Blank(h) && Match(m, items, attrs, 20) && Inside(m, items)
    requires LengthsOk(attrs) && LastValues(h, p, attrs)
    ensures forall i :: LastOf(items, i, 0x0009) ==> ReadsError(ValueOf(m, items[i]), p.errorCode)
    ensures Absent(items, 0x0009) ==> p.errorCode == 0
  {
    hide LastOf, Absent, Match, ValueOf, Inside, ReadsError, Get4Bytes, Get8Bytes, JoinError;
    LastValue(m, items, attrs, ERROR_CODE);
    var last := LastIndex(attrs, ERROR_CODE);
    if last >= 0 {
      assert LengthOk(attrs[last]);
      ReadsAsFields(attrs[last].value);
    }
  }

  lemma FlagsFromAttrs(m: seq<byte>, items: seq<Item>, attrs: seq<Attr>, h: Packet, p: Packet)
    requires Blank(h) && Match(m, items, attrs, 20) && Inside(m, items)
    requires LastFlags(h, p, attrs, 20)
    ensures FlagFields(items, p)
  {
    hide LastOf, Absent, Match, ValueOf, Inside, TotalSize;
    LastValue(m, items, attrs, USE_CANDIDATE);
    LastValue(m, items, attrs, FINGERPRINT);
    LastValue(m, items, attrs, MESSAGE_INTEGRITY);
  }
}
