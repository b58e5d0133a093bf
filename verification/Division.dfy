/** Long division of bit strings: polynomials over the two-element field, highest power first. */
module Division {

  /** The CRC-32 generator polynomial, coefficient of x^32 first:
      x^32 + x^26 + x^23 + x^22 + x^16 + x^12 + x^11 + x^10 + x^8 + x^7 + x^5 + x^4 + x^2 + x + 1. */
  function Generator(): (g: seq<bool>)
    ensures |g| == 33
  {
    seq(33, i requires 0 <= i < 33 => (32 - i) in {32, 26, 23, 22, 16, 12, 11, 10, 8, 7, 5, 4, 2, 1, 0})
  }

  type Register = r: seq<bool> | |r| == 32 witness seq(32, _ => false)

  function Zeros(n: nat): seq<bool> {
    seq(n, _ => false)
  }

  function Ones(n: nat): seq<bool> {
    seq(n, _ => true)
  }

  /** `d` with its first `|g|` bits exclusive-or-ed with `g`. */
  function XorPrefix(d: seq<bool>, g: seq<bool>): (r: seq<bool>)
    ensures |r| == |d|
  {
    seq(|d|, i requires 0 <= i < |d| => if i < |g| then d[i] != g[i] else d[i])
  }

  /** The remainder of dividing `d` by the generator, as done by hand: while the dividend is longer
      than the remainder, subtract the generator if the leading bit is set, and drop that bit. */
  function Remainder(d: seq<bool>): Register
    requires |d| >= 32
    decreases |d|
  {
    if |d| == 32 then d
    else if d[0] then Remainder(XorPrefix(d, Generator())[1..])
    else Remainder(d[1..])
  }

  // ----- the same division with a 32-bit register -----

  /** One division step of a register: multiply by x and reduce. */
  function Step(r: Register): Register {
    seq(32, j requires 0 <= j < 32 => (j < 31 && r[j + 1]) != (r[0] && Generator()[j + 1]))
  }

  function Steps(r: Register, n: nat): Register
    decreases n
  {
    if n == 0 then r else Steps(Step(r), n - 1)
  }

  /** Feeds a bit string into the register, one bit a step. */
  function Feed(r: Register, bits: seq<bool>): Register
    decreases |bits|
  {
    if bits == [] then r else Feed(Step(r[0 := r[0] != bits[0]]), bits[1..])
  }

  /** Long division of `bits` followed by 32 zeros, its first 32 bits masked with `r`, is what the
      register holds after the bits are fed into it. */
  lemma {:induction false} RegisterDivides(r: Register, bits: seq<bool>)
    ensures Remainder(XorPrefix(bits + Zeros(32), r)) == Feed(r, bits)
    decreases |bits|
  {
    var d := XorPrefix(bits + Zeros(32), r);
    if bits == [] {
      assert d == r;
    } else {
      var next := Step(r[0 := r[0] != bits[0]]);
      var tail := XorPrefix(bits[1..] + Zeros(32), next);
      DivisionStep(r, bits);
      RegisterDivides(next, bits[1..]);
    }
  }

  lemma DivisionStep(r: Register, bits: seq<bool>)
    requires bits != []
    ensures var d := XorPrefix(bits + Zeros(32), r);
            (if d[0] then XorPrefix(d, Generator())[1..] else d[1..])
            == XorPrefix(bits[1..] + Zeros(32), Step(r[0 := r[0] != bits[0]]))
  {
  }

  lemma {:induction false} FeedAppend(r: Register, a: seq<bool>, b: seq<bool>)
    ensures Feed(r, a + b) == Feed(Feed(r, a), b)
    decreases |a|
  {
    if a == [] {
      assert a + b == b;
    } else {
      assert (a + b)[1..] == a[1..] + b;
      FeedAppend(Step(r[0 := r[0] != a[0]]), a[1..], b);
    }
  }

  /** Feeding up to 32 bits is masking the register with them and stepping once per bit. */
  lemma {:induction false} FeedIsSteps(r: Register, bits: seq<bool>)
    requires |bits| <= 32
    ensures Feed(r, bits) == Steps(XorPrefix(r, bits), |bits|)
    decreases |bits|
  {
    if bits == [] {
      assert XorPrefix(r, bits) == r;
    } else {
      var next := Step(r[0 := r[0] != bits[0]]);
      assert Step(XorPrefix(r, bits)) == XorPrefix(next, bits[1..]);
      FeedIsSteps(next, bits[1..]);
    }
  }

  // ----- linear and one-to-one -----

  lemma {:induction false} StepsLinear(a: Register, b: Register, n: nat)
    ensures Steps(XorPrefix(a, b), n) == XorPrefix(Steps(a, n), Steps(b, n))
    decreases n
  {
    if n > 0 {
      assert Step(XorPrefix(a, b)) == XorPrefix(Step(a), Step(b));
      StepsLinear(Step(a), Step(b), n - 1);
    }
  }

  /** A register whose first `n` bits are clear is only shifted by `n` steps. */
  lemma {:induction false} StepsShift(r: Register, n: nat)
    requires n <= 32 && forall j :: 0 <= j < n ==> !r[j]
    ensures Steps(r, n) == r[n..] + Zeros(n)
    decreases n
  {
    if n > 0 {
      assert Step(r) == r[1..] + [false];
      StepsShift(Step(r), n - 1);
      assert Step(r)[n - 1..] + Zeros(n - 1) == r[n..] + Zeros(n);
    }
  }

  /** After `n` steps the first `n` bits have been divided and the rest only shifted. */
  lemma StepsSplit(r: Register, n: nat)
    requires n <= 32
    ensures Steps(r, n) == XorPrefix(Steps(r[..n] + Zeros(32 - n), n), r[n..] + Zeros(n))
  {
    var low, high := r[..n] + Zeros(32 - n), Zeros(n) + r[n..];
    assert r == XorPrefix(low, high);
    StepsLinear(low, high, n);
    StepsShift(high, n);
    assert high[n..] == r[n..];
  }

  /** The generator has a constant term, so a step can be undone. */
  lemma StepInjective(a: Register, b: Register)
    requires Step(a) == Step(b)
    ensures a == b
  {
    assert Generator()[32];
    assert Step(a)[31] == a[0] && Step(b)[31] == b[0];
    forall j | 0 < j < 32
      ensures a[j] == b[j]
    {
      assert Step(a)[j - 1] == Step(b)[j - 1];
    }
  }

  lemma {:induction false} StepsInjective(a: Register, b: Register, n: nat)
    requires Steps(a, n) == Steps(b, n)
    ensures a == b
    decreases n
  {
    if n > 0 {
      StepsInjective(Step(a), Step(b), n - 1);
      StepInjective(a, b);
    }
  }

  /** Distinct registers stay distinct whatever bits are fed into both. */
  lemma {:induction false} FeedInjective(a: Register, b: Register, bits: seq<bool>)
    requires Feed(a, bits) == Feed(b, bits)
    ensures a == b
    decreases |bits|
  {
    if bits != [] {
      var x, y := a[0 := a[0] != bits[0]], b[0 := b[0] != bits[0]];
      FeedInjective(Step(x), Step(y), bits[1..]);
      StepInjective(x, y);
      assert a == x[0 := a[0]] && b == y[0 := b[0]];
    }
  }

  /** Two bit strings of equal length up to 32 leave the same register different. */
  lemma BurstChangesRegister(r: Register, u: seq<bool>, v: seq<bool>)
    requires |u| == |v| <= 32 && Feed(r, u) == Feed(r, v)
    ensures u == v
  {
    FeedIsSteps(r, u);
    FeedIsSteps(r, v);
    StepsInjective(XorPrefix(r, u), XorPrefix(r, v), |u|);
    forall i | 0 <= i < |u|
      ensures u[i] == v[i]
    {
      assert XorPrefix(r, u)[i] == XorPrefix(r, v)[i];
    }
  }

  /** Bit strings that differ only inside a window of up to 32 bits leave the register different. */
  lemma WindowChangesRegister(r: Register, a: seq<bool>, b: seq<bool>, k: nat, w: nat)
    requires |a| == |b| && a != b && w <= 32 && k + w <= |a|
    requires forall i :: 0 <= i < |a| && !(k <= i < k + w) ==> a[i] == b[i]
    ensures Feed(r, a) != Feed(r, b)
  {
    hide Feed;
    var u, v := a[k..k + w], b[k..k + w];
    CutAt(a, k, w);
    CutAt(b, k, w);
    assert a[..k] == b[..k] && a[k + w..] == b[k + w..];
    FeedParts(r, a[..k], u, a[k + w..]);
    FeedParts(r, b[..k], v, b[k + w..]);
    if Feed(r, a) == Feed(r, b) {
      var start := Feed(r, a[..k]);
      FeedInjective(Feed(start, u), Feed(start, v), a[k + w..]);
      BurstChangesRegister(start, u, v);
    }
  }

  lemma CutAt(a: seq<bool>, k: nat, w: nat)
    requires k + w <= |a|
    ensures a == a[..k] + a[k..k + w] + a[k + w..]
  {
  }

  lemma FeedParts(r: Register, head: seq<bool>, u: seq<bool>, tail: seq<bool>)
    ensures Feed(r, head + u + tail) == Feed(Feed(Feed(r, head), u), tail)
  {
    FeedAppend(r, head + u, tail);
    FeedAppend(r, head, u);
  }
}
