/** Whom the authenticator lets in, on the literal bytes of an accepted message (RFC 5389, sections
    10.1.2 and 15.4). */
module Credentials {
  import opened Wrappers
  import opened Words
  import opened Bytes
  import opened Message
  import opened Encoding
  import opened Authentication
  import opened Standard

  /** What is signed when MESSAGE-INTEGRITY stands at `at`: all that precedes it, with a length field
      that ends the message behind it. */
  function Signed(m: seq<byte>, at: nat): seq<byte>
    requires 4 <= at <= |m| && at + 4 < 0x1_0000
  {
    m[..2] + [(at + 4) / 0x100, (at + 4) % 0x100] + m[4..at]
  }

  /** The last USERNAME is the local username, a colon and any rest. */
  ghost predicate NamesLocal(m: seq<byte>, items: seq<Item>, localUsername: seq<byte>)
    requires Inside(m, items)
  {
    exists j, rest :: LastOf(items, j, 0x0006) && ValueOf(m, items[j]) == localUsername + [58] + rest
  }

  /** The twenty bytes of MESSAGE-INTEGRITY are the HMAC of what is signed. */
  ghost predicate Signs(m: seq<byte>, items: seq<Item>, password: seq<byte>, hmac: Hmac)
    requires Inside(m, items) && |m| <= 65532
  {
    exists i :: LastOf(items, i, 0x0008) && 4 <= items[i].at
                && ValueOf(m, items[i]) == hmac(password, Signed(m, items[i].at))
  }

  /** No USERNAME, or an empty one. */
  ghost predicate Nameless(items: seq<Item>) {
    Absent(items, 0x0006) || exists j :: LastOf(items, j, 0x0006) && items[j].length == 0
  }

  // ----- fields -----

  lemma Prefixed(username: seq<byte>, localUsername: seq<byte>)
    ensures UsernameMatches(username, localUsername) <==> exists rest :: username == localUsername + [58] + rest
  {
    var n := |localUsername|;
    if UsernameMatches(username, localUsername) {
      assert username == localUsername + [58] + username[n + 1..];
    }
  }

  lemma {:induction false} LastExists(items: seq<Item>, kind: nat)
    ensures Absent(items, kind) || exists i :: LastOf(items, i, kind)
    decreases |items|
  {
    if items != [] {
      var n := |items| - 1;
      if items[n].kind == kind {
        assert LastOf(items, n, kind);
      } else {
        LastExists(items[..n], kind);
        if i :| LastOf(items[..n], i, kind) {
          assert LastOf(items, i, kind);
        }
      }
    }
  }

  /** The username field against the bytes. */
  lemma NamesMean(m: seq<byte>, items: seq<Item>, p: Packet, localUsername: seq<byte>)
    requires Inside(m, items) && ValueFields(m, items, p)
    ensures UsernameMatches(p.username, localUsername) <==> NamesLocal(m, items, localUsername)
    ensures p.username == [] <==> Nameless(items)
  {
    hide UsernameMatches, ReadsFour, ReadsEight, ReadsError;
    Prefixed(p.username, localUsername);
    LastExists(items, 0x0006);
    if j :| LastOf(items, j, 0x0006) {
      ThereIsOne(items, j, 0x0006);
      assert p.username == ValueOf(m, items[j]);
    }
  }

  lemma ThereIsOne(items: seq<Item>, i: int, kind: nat)
    requires LastOf(items, i, kind)
    ensures !Absent(items, kind) && 0 <= i < |items|
  {
  }

  // ----- the signature -----

  /** The bytes the HMAC is computed over are the literal ones. */
  lemma SignedMeans(m: seq<byte>, p: Packet)
    requires |m| <= 65532 && Parsed(m) == Some(p) && p.messageIntegrity.Some?
    ensures IntegrityInside(m, p) && 24 <= p.messageIntegrity.value
    ensures SignedBytes(m, p) == Signed(m, p.messageIntegrity.value - 4)
  {
    hide Parsed, Splice, Be2, Get2Bytes;
    IntegrityIsLast(m);
    ParsedLength(m);
    var at := p.messageIntegrity.value - 4;
    FieldBytes(m, 2);
    TwoBytesOf(at + 4);
    if p.hasFingerprint {
      SplicedPrefix(m, at);
    } else {
      LengthBytes(m, at);
      assert m[..at] == m[..2] + [m[2], m[3]] + m[4..at];
    }
  }

  lemma TwoBytesOf(v: u16)
    ensures Be2(v) == [v / 0x100, v % 0x100]
  {
    hide Octet;
    NextOctet(v, 0);
    TopOctet(v);
  }

  lemma LengthBytes(m: seq<byte>, at: nat)
    requires |m| >= 4 && at + 4 < 0x1_0000 && Two(m[2], m[3]) == at + 4
    ensures m[2] == (at + 4) / 0x100 && m[3] == (at + 4) % 0x100
  {
  }

  lemma SplicedPrefix(m: seq<byte>, at: nat)
    requires 4 <= at <= |m| && at + 4 < 0x1_0000
    ensures Splice(m, 2, Be2(at + 4))[..at] == m[..2] + Be2(at + 4) + m[4..at]
  {
    hide Be2;
  }

  // ----- the decision -----

  /** For any fields: what the answer depends on. */
  lemma CheckDecides(m: seq<byte>, p: Packet, localUsername: seq<byte>, localPassword: seq<byte>, hmac: Hmac)
    requires IntegrityInside(m, p)
    ensures Check(m, p, localUsername, localPassword, hmac) == BadRequest <==>
              p.klass == SuccessResponse || p.klass == ErrorResponse || p.messageIntegrity.None? || p.username == []
    ensures Check(m, p, localUsername, localPassword, hmac) == OK <==>
              && (p.klass == Request || p.klass == Indication)
              && p.messageIntegrity.Some? && UsernameMatches(p.username, localUsername)
              && m[p.messageIntegrity.value..p.messageIntegrity.value + 20] == hmac(localPassword, SignedBytes(m, p))
  {
    hide SignedBytes;
  }

  /** For an accepted message, from its bytes: it is bad if it is a response or lacks a username or a
      MESSAGE-INTEGRITY; it is let in if it is not bad, its username names the local one and its
      MESSAGE-INTEGRITY is the HMAC of what it signs; else it is unauthorized. */
  lemma AnswerIs(m: seq<byte>, items: seq<Item>, p: Packet, localUsername: seq<byte>, localPassword: seq<byte>,
                 hmac: Hmac)
    requires |m| <= 65532 && Parsed(m) == Some(p) && Tiles(m, items, 20)
    ensures IntegrityInside(m, p) && |m| >= 20 && Inside(m, items)
    ensures Check(m, p, localUsername, localPassword, hmac) ==
              if m[0] % 2 == 1 || Absent(items, 0x0008) || Nameless(items) then BadRequest
              else if NamesLocal(m, items, localUsername) && Signs(m, items, localPassword, hmac) then OK
              else Unauthorized
  {
    hide Parsed, Tiles, Absent, Nameless, NamesLocal, Signs, UsernameMatches, SignedBytes, Check, ValueFields, Inside,
         Legal, Header, LastOf;
    FieldsAre(m, items, p);
    AcceptedIsLegal(m, items);
    IntegrityLength(m, items);
    NamesMean(m, items, p, localUsername);
    if p.messageIntegrity.Some? {
      SignedMeans(m, p);
      SignsMeans(m, items, p, localPassword, hmac);
    }
    CheckDecides(m, p, localUsername, localPassword, hmac);
  }

  lemma IntegrityLength(m: seq<byte>, items: seq<Item>)
    requires Legal(m, items)
    ensures forall i :: LastOf(items, i, 0x0008) ==> 0 <= i < |items| && items[i].length == 20
  {
    forall i | LastOf(items, i, 0x0008)
      ensures 0 <= i < |items| && items[i].length == 20
    {
      assert LegalLength(items[i].kind, items[i].length);
    }
  }

  lemma SignsMeans(m: seq<byte>, items: seq<Item>, p: Packet, password: seq<byte>, hmac: Hmac)
    requires Inside(m, items) && FlagFields(items, p) && p.messageIntegrity.Some? && |m| <= 65532
    requires forall i :: LastOf(items, i, 0x0008) ==> 0 <= i < |items| && items[i].length == 20
    requires 24 <= p.messageIntegrity.value <= |m| - 20
    ensures Signs(m, items, password, hmac) <==>
              m[p.messageIntegrity.value..p.messageIntegrity.value + 20]
              == hmac(password, Signed(m, p.messageIntegrity.value - 4))
  {
    LastExists(items, 0x0008);
  }
}
