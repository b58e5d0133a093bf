/** Socket addresses as text: `inet_ntoa`, `inet_pton` and the key "a.b.c.d:port" of the address map. */
module Addresses {
  import opened Wrappers
  import opened Words

  type Text = seq<byte>

  const DOT: byte := 46
  const ZERO: byte := 48

  datatype Ip = Ip(a: byte, b: byte, c: byte, d: byte)
  datatype Address = Address(ip: Ip, port: u16)

  function Decimal(n: nat): (s: Text)
    ensures s != []
    ensures forall i :: 0 <= i < |s| ==> ZERO <= s[i] < ZERO + 10
  {
    if n < 10 then [ZERO + n] else Decimal(n / 10) + [ZERO + n % 10]
  }

  /** The number a string of digits spells. */
  function Number(s: Text): int {
    if s == [] then 0 else 10 * Number(s[..|s| - 1]) + (s[|s| - 1] - ZERO)
  }

  lemma {:induction false} NumberOfDecimal(n: nat)
    ensures Number(Decimal(n)) == n
  {
    if n >= 10 {
      NumberOfDecimal(n / 10);
      assert Decimal(n)[..|Decimal(n)| - 1] == Decimal(n / 10);
    } else {
      assert Decimal(n)[..0] == [];
    }
  }

  /** `inet_ntoa`. */
  function IpText(ip: Ip): Text {
    Decimal(ip.a) + [DOT] + Decimal(ip.b) + [DOT] + Decimal(ip.c) + [DOT] + Decimal(ip.d)
  }

  /** The key of an address in the address map. */
  function Key(text: Text, port: u16): Text {
    text + [COLON] + Decimal(port)
  }

  function KeyOf(addr: Address): Text {
    Key(IpText(addr.ip), addr.port)
  }

  // ----- reading text back -----

  /** The part of `s` before the first `sep`, all of it if there is none. */
  function Before(s: Text, sep: byte): (r: Text)
    ensures |r| <= |s| && r == s[..|r|]
    ensures |r| < |s| ==> s[|r|] == sep
  {
    if s == [] || s[0] == sep then [] else [s[0]] + Before(s[1..], sep)
  }

  lemma {:induction false} BeforeOfJoin(x: Text, sep: byte, y: Text)
    requires forall i :: 0 <= i < |x| ==> x[i] != sep
    ensures Before(x + [sep] + y, sep) == x
    decreases |x|
  {
    var s := x + [sep] + y;
    if x == [] {
      assert s[0] == sep;
    } else {
      assert s[0] == x[0];
      assert s[1..] == x[1..] + [sep] + y;
      BeforeOfJoin(x[1..], sep, y);
    }
  }

  /** A decimal number below 256 in its usual spelling. */
  function ReadByte(s: Text): Option<byte> {
    var n := Number(s);
    if 0 <= n < 0x100 && s == Decimal(n) then Some(n) else None
  }

  /** `inet_pton(AF_INET, ...)`: four such numbers between dots. */
  function ReadIp(s: Text): Option<Ip> {
    var a := Before(s, DOT);
    if |a| == |s| then None else
    var s1 := s[|a| + 1..];
    var b := Before(s1, DOT);
    if |b| == |s1| then None else
    var s2 := s1[|b| + 1..];
    var c := Before(s2, DOT);
    if |c| == |s2| then None else
    var d := s2[|c| + 1..];
    match (ReadByte(a), ReadByte(b), ReadByte(c), ReadByte(d))
    case (Some(w), Some(x), Some(y), Some(z)) => Some(Ip(w, x, y, z))
    case _ => None
  }

  lemma ReadByteOfDecimal(n: byte)
    ensures ReadByte(Decimal(n)) == Some(n)
  {
    NumberOfDecimal(n);
  }

  lemma NoDots(n: nat)
    ensures forall i :: 0 <= i < |Decimal(n)| ==> Decimal(n)[i] != DOT
  {
  }

  lemma Cut(x: Text, y: Text)
    requires forall i :: 0 <= i < |x| ==> x[i] != DOT
    ensures var s := x + [DOT] + y; Before(s, DOT) == x && |x| < |s| && s[|x| + 1..] == y
  {
    BeforeOfJoin(x, DOT, y);
  }

  /** The text of an address is read back as the address. */
  lemma ReadIpOfText(ip: Ip)
    ensures ReadIp(IpText(ip)) == Some(ip)
  {
    hide Decimal, Before, ReadByte;
    var a, b, c, d := Decimal(ip.a), Decimal(ip.b), Decimal(ip.c), Decimal(ip.d);
    TextParts(a, b, c, d);
    NoDots(ip.a);
    NoDots(ip.b);
    NoDots(ip.c);
    Cut(a, b + [DOT] + (c + [DOT] + d));
    Cut(b, c + [DOT] + d);
    Cut(c, d);
    ReadByteOfDecimal(ip.a);
    ReadByteOfDecimal(ip.b);
    ReadByteOfDecimal(ip.c);
    ReadByteOfDecimal(ip.d);
  }

  lemma TextParts(a: Text, b: Text, c: Text, d: Text)
    ensures a + [DOT] + b + [DOT] + c + [DOT] + d == a + [DOT] + (b + [DOT] + (c + [DOT] + d))
  {
  }

  lemma NoColonInIp(ip: Ip)
    ensures forall i :: 0 <= i < |IpText(ip)| ==> IpText(ip)[i] != COLON
  {
  }

  /** Two addresses with the same key are the same. */
  lemma KeyInjective(x: Address, y: Address)
    requires KeyOf(x) == KeyOf(y)
    ensures x == y
  {
    hide IpText, Decimal, Before, ReadIp;
    var s, t := IpText(x.ip), IpText(y.ip);
    NoColonInIp(x.ip);
    NoColonInIp(y.ip);
    BeforeOfJoin(s, COLON, Decimal(x.port));
    BeforeOfJoin(t, COLON, Decimal(y.port));
    assert s == t;
    assert KeyOf(x)[|s| + 1..] == Decimal(x.port) && KeyOf(y)[|t| + 1..] == Decimal(y.port);
    NumberOfDecimal(x.port);
    NumberOfDecimal(y.port);
    ReadIpOfText(x.ip);
    ReadIpOfText(y.ip);
  }

  /** The key of port 5 at 1.20.3.4, letter by letter: "1.20.3.4:5". */
  lemma KeyInLetters()
    ensures KeyOf(Address(Ip(1, 20, 3, 4), 5)) == [49, 46, 50, 48, 46, 51, 46, 52, 58, 53]
  {
    assert Decimal(20) == Decimal(2) + [48];
  }
}
