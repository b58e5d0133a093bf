/** Byte buffers: big-endian fields, 4-byte padding and in-place writes, as in `Utils::Byte`. */
module Bytes {
  import opened Words

  // ----- getters (host byte order) -----

  function Get2Bytes(s: seq<byte>, i: nat): u16
    requires i + 2 <= |s|
  {
    var hi: int, lo: int := s[i], s[i + 1];
    0x100 * hi + lo
  }

  function Get4Bytes(s: seq<byte>, i: nat): u32
    requires i + 4 <= |s|
  {
    var hi: int, lo: int := Get2Bytes(s, i), Get2Bytes(s, i + 2);
    0x1_0000 * hi + lo
  }

  function Get8Bytes(s: seq<byte>, i: nat): u64
    requires i + 8 <= |s|
  {
    var hi: int, lo: int := Get4Bytes(s, i), Get4Bytes(s, i + 4);
    0x1_0000_0000 * hi + lo
  }

  // ----- network byte order -----

  /** `static_cast<uint8_t>(v >> 8 * k)`. */
  function Octet(v: nat, k: nat): byte {
    if k == 0 then v % 0x100 else Octet(v / 0x100, k - 1)
  }

  function Be2(v: u16): (s: seq<byte>)
    ensures |s| == 2
  {
    [Octet(v, 1), Octet(v, 0)]
  }

  function Be4(v: u32): (s: seq<byte>)
    ensures |s| == 4
  {
    [Octet(v, 3), Octet(v, 2), Octet(v, 1), Octet(v, 0)]
  }

  function Be8(v: u64): (s: seq<byte>)
    ensures |s| == 8
  {
    [Octet(v, 7), Octet(v, 6), Octet(v, 5), Octet(v, 4), Octet(v, 3), Octet(v, 2), Octet(v, 1), Octet(v, 0)]
  }

  /** A 16-bit field read where `Be2(v)` stands is `v`, and no other two bytes give `v`. */
  lemma Be2Inverse(v: u16, s: seq<byte>, i: nat)
    requires i + 2 <= |s|
    ensures s[i..i + 2] == Be2(v) <==> Get2Bytes(s, i) == v
  {
    hide Octet;
    assert s[i..i + 2] == [s[i], s[i + 1]];
    NextOctet(v, 0);
    TopOctet(v);
  }

  lemma TopOctet(v: u16)
    ensures Octet(v, 1) == v / 0x100
  {
    assert Octet(v, 1) == Octet(v / 0x100, 0);
  }

  lemma NextOctet(v: nat, k: nat)
    ensures v == 0x100 * (v / 0x100) + Octet(v, 0)
    ensures Octet(v, k + 1) == Octet(v / 0x100, k)
  {
  }

  lemma Octets4(v: nat, w: nat)
    requires w == v / 0x100 / 0x100 / 0x100 / 0x100
    ensures v == 0x1_0000_0000 * w + Word(Octet(v, 3), Octet(v, 2), Octet(v, 1), Octet(v, 0))
  {
    hide Octet;
    var v1 := v / 0x100;
    var v2 := v1 / 0x100;
    var v3 := v2 / 0x100;
    NextOctet(v, 0);
    NextOctet(v1, 0);
    NextOctet(v2, 0);
    NextOctet(v3, 0);
    NextOctet(v, 1);
    NextOctet(v, 2);
    NextOctet(v1, 1);
  }

  lemma OctetsUp(v: nat, w: nat, k: nat)
    requires w == v / 0x100 / 0x100 / 0x100 / 0x100
    ensures Octet(v, k + 4) == Octet(w, k)
  {
    hide Octet;
    var v1 := v / 0x100;
    var v2 := v1 / 0x100;
    var v3 := v2 / 0x100;
    NextOctet(v, k + 3);
    NextOctet(v1, k + 2);
    NextOctet(v2, k + 1);
    NextOctet(v3, k);
  }

  /** The number four bytes spell. */
  function Word(a: int, b: int, c: int, d: int): int {
    0x100_0000 * a + 0x1_0000 * b + 0x100 * c + d
  }

  lemma Get4Value(s: seq<byte>, i: nat)
    requires i + 4 <= |s|
    ensures Get4Bytes(s, i) == Word(s[i], s[i + 1], s[i + 2], s[i + 3])
  {
  }

  lemma HighHalf(v: u64, w: nat)
    requires w == v / 0x100 / 0x100 / 0x100 / 0x100
    ensures w < 0x1_0000_0000 && w / 0x100 / 0x100 / 0x100 / 0x100 == 0
  {
  }

  lemma Octets8(v: u64)
    ensures v == 0x1_0000_0000 * Get4Bytes(Be8(v), 0) + Get4Bytes(Be8(v), 4)
  {
    hide Octet, Get2Bytes, Get4Bytes, Word;
    var w := v / 0x100 / 0x100 / 0x100 / 0x100;
    HighHalf(v, w);
    Get4Value(Be8(v), 0);
    Get4Value(Be8(v), 4);
    Octets4(v, w);
    Octets4(w, 0);
    OctetsUp(v, w, 0);
    OctetsUp(v, w, 1);
    OctetsUp(v, w, 2);
    OctetsUp(v, w, 3);
  }

  lemma Be4Inverse(v: u32, s: seq<byte>, i: nat)
    requires i + 4 <= |s|
    ensures s[i..i + 4] == Be4(v) <==> Get4Bytes(s, i) == v
  {
    var t := s[i..i + 4];
    assert t == [s[i], s[i + 1], s[i + 2], s[i + 3]];
    assert Get4Bytes(s, i) == Get4Bytes(t, 0);
    ReadBe4(v);
    if Get4Bytes(s, i) == v {
      SameDigits4(t, Be4(v));
    }
  }

  lemma ReadBe4(v: u32)
    ensures Get4Bytes(Be4(v), 0) == v
  {
    hide Octet, Get2Bytes, Get4Bytes, Word;
    Get4Value(Be4(v), 0);
    ShortWord(v, v / 0x100, v / 0x100 / 0x100, v / 0x100 / 0x100 / 0x100);
    Octets4(v, 0);
  }

  lemma ShortWord(v: u32, v1: nat, v2: nat, v3: nat)
    requires v1 == v / 0x100 && v2 == v1 / 0x100 && v3 == v2 / 0x100
    ensures v1 < 0x100_0000 && v2 < 0x1_0000 && v3 < 0x100 && v3 / 0x100 == 0
  {
  }

  lemma SameDigits4(s: seq<byte>, t: seq<byte>)
    requires |s| == |t| == 4 && Get4Bytes(s, 0) == Get4Bytes(t, 0)
    ensures s == t
  {
    assert Get2Bytes(s, 0) == Get2Bytes(t, 0) && Get2Bytes(s, 2) == Get2Bytes(t, 2);
  }

  lemma Be8Inverse(v: u64, s: seq<byte>, i: nat)
    requires i + 8 <= |s|
    ensures s[i..i + 8] == Be8(v) <==> Get8Bytes(s, i) == v
  {
    var t := s[i..i + 8];
    var w := Be8(v);
    Octets8(v);
    assert Get4Bytes(s, i) == Get4Bytes(t, 0) && Get4Bytes(s, i + 4) == Get4Bytes(t, 4);
    if Get8Bytes(s, i) == v {
      assert Get4Bytes(t, 0) == Get4Bytes(w, 0) && Get4Bytes(t, 4) == Get4Bytes(w, 4);
      SameDigits4(t[..4], w[..4]);
      SameDigits4(t[4..], w[4..]);
      assert t == t[..4] + t[4..] && w == w[..4] + w[4..];
    }
  }

  // ----- slices -----

  lemma FourParts<T>(a: seq<T>, b: seq<T>, c: seq<T>, d: seq<T>)
    ensures var s := a + b + c + d;
            && s[..|a|] == a && s[|a|..|a| + |b|] == b
            && s[|a| + |b|..|a| + |b| + |c|] == c && s[|a| + |b| + |c|..] == d
  {
  }

  lemma SubSlice<T>(m: seq<T>, lo: nat, hi: nat, i: nat, j: nat)
    requires lo <= hi <= |m| && i <= j <= hi - lo
    ensures m[lo..hi][i..j] == m[lo + i..lo + j]
  {
    var s := m[lo..hi];
    forall k | 0 <= k < j - i
      ensures s[i..j][k] == m[lo + i..lo + j][k]
    {
      assert s[i..j][k] == s[i + k] == m[lo + i + k];
    }
  }

  // ----- writes into a buffer -----

  /** `s` with the bytes from `i` on overwritten by `t`. */
  function Splice(s: seq<byte>, i: nat, t: seq<byte>): (r: seq<byte>)
    requires i + |t| <= |s|
    ensures |r| == |s|
  {
    s[..i] + t + s[i + |t|..]
  }

  lemma SpliceFrom(r: seq<byte>, s: seq<byte>, i: nat, t: seq<byte>)
    requires i + |t| <= |s| == |r|
    requires r[..i] == s[..i] && r[i..i + |t|] == t && r[i + |t|..] == s[i + |t|..]
    ensures r == Splice(s, i, t)
  {
  }

  method Set1Byte(data: array<byte>, i: nat, value: byte)
    requires i < data.Length
    modifies data
    ensures data[..] == Splice(old(data[..]), i, [value])
  {
    data[i] := value;
  }

  method Set2Bytes(data: array<byte>, i: nat, value: u16)
    requires i + 2 <= data.Length
    modifies data
    ensures data[..] == Splice(old(data[..]), i, Be2(value))
  {
    data[i + 1] := Octet(value, 0);
    data[i] := Octet(value, 1);
  }

  method Set4Bytes(data: array<byte>, i: nat, value: u32)
    requires i + 4 <= data.Length
    modifies data
    ensures data[..] == Splice(old(data[..]), i, Be4(value))
  {
    data[i + 3] := Octet(value, 0);
    data[i + 2] := Octet(value, 1);
    data[i + 1] := Octet(value, 2);
    data[i] := Octet(value, 3);
  }

  method Set8Bytes(data: array<byte>, i: nat, value: u64)
    requires i + 8 <= data.Length
    modifies data
    ensures data[..] == Splice(old(data[..]), i, Be8(value))
  {
    data[i + 7] := Octet(value, 0);
    data[i + 6] := Octet(value, 1);
    data[i + 5] := Octet(value, 2);
    data[i + 4] := Octet(value, 3);
    data[i + 3] := Octet(value, 4);
    data[i + 2] := Octet(value, 5);
    data[i + 1] := Octet(value, 6);
    data[i] := Octet(value, 7);
    assert data[i..i + 8] == Be8(value);
    assert data[..i] == old(data[..i]) && data[i + 8..] == old(data[i + 8..]);
    SpliceFrom(data[..], old(data[..]), i, Be8(value));
  }

  /** `std::memcpy` of bytes already read into `bytes`. */
  method CopyBytes(data: array<byte>, i: nat, bytes: seq<byte>)
    requires i + |bytes| <= data.Length
    modifies data
    ensures data[..] == Splice(old(data[..]), i, bytes)
  {
    forall k | 0 <= k < |bytes| {
      data[i + k] := bytes[k];
    }
  }

  // ----- padding -----

  /** `Byte::PadTo4Bytes(uint16_t)`: the sum is truncated back to sixteen bits. */
  function PadTo4Bytes(size: u16): u16 {
    if size % 4 != 0 then (size - size % 4 + 4) % 0x1_0000 else size
  }

  /** The number of padding bytes after a value of `n` bytes (RFC 5389, section 15). */
  function PadLen(n: nat): (k: nat)
    ensures k < 4 && (n + k) % 4 == 0
  {
    (4 - n % 4) % 4
  }

  /** The cursor step `PadTo4Bytes(static_cast<uint16_t>(end))` reaches the padded end exactly when
      `end` is at most 65532; past that the 16-bit cursor wraps. */
  lemma CursorStep(end: nat)
    ensures PadTo4Bytes(end % 0x1_0000) == end + PadLen(end) <==> end <= 65532
  {
  }
}
