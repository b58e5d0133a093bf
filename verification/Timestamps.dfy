/** 32-bit timestamps that wrap around, as in `Utils::Time`. */
module Timestamps {
  import opened Words

  const CYCLE := 0x1_0000_0000
  const HALF := 0x8000_0000

  /** The 32-bit timestamp of an unbounded time. */
  function Wrap(t: int): u32 {
    t % CYCLE
  }

  predicate IsNewerTimestamp(timestamp: u32, prevTimestamp: u32) {
    var distance := (timestamp - prevTimestamp) % CYCLE;
    if distance == HALF then timestamp > prevTimestamp
    else timestamp != prevTimestamp && distance < HALF
  }

  function LatestTimestamp(timestamp1: u32, timestamp2: u32): u32 {
    if IsNewerTimestamp(timestamp1, timestamp2) then timestamp1 else timestamp2
  }

  lemma WrappedDistance(a: int, b: int)
    ensures (Wrap(a) - Wrap(b)) % CYCLE == (a - b) % CYCLE
  {
  }

  /** Less than half a cycle apart, newer means later; between half a cycle and a full one, the order
      is reversed. */
  lemma NewerIsLater(a: int, b: int)
    ensures -HALF < a - b < HALF ==> (IsNewerTimestamp(Wrap(a), Wrap(b)) <==> a > b)
    ensures HALF < a - b < CYCLE ==> IsNewerTimestamp(Wrap(b), Wrap(a)) && !IsNewerTimestamp(Wrap(a), Wrap(b))
  {
    WrappedDistance(a, b);
    WrappedDistance(b, a);
  }

  /** Of two distinct timestamps exactly one is newer, and none is newer than itself. */
  lemma NewerIsTotal(s: u32, t: u32)
    ensures s != t ==> (IsNewerTimestamp(s, t) <==> !IsNewerTimestamp(t, s))
    ensures !IsNewerTimestamp(s, s)
  {
  }

  /** Exactly half a cycle apart, the larger number is newer. */
  lemma HalfApart(s: u32, t: u32)
    requires s - t == 0x8000_0000 || t - s == 0x8000_0000
    ensures IsNewerTimestamp(s, t) <==> s > t
  {
  }

  function Latest(times: seq<int>): u32
    requires times != []
  {
    if |times| == 1 then Wrap(times[0])
    else LatestTimestamp(Latest(times[..|times| - 1]), Wrap(times[|times| - 1]))
  }

  function Maximum(times: seq<int>): (m: int)
    requires times != []
    ensures m in times && forall t :: t in times ==> t <= m
  {
    assert |times| > 1 ==> times == times[..|times| - 1] + [times[|times| - 1]];
    if |times| == 1 then times[0]
    else
      var m := Maximum(times[..|times| - 1]);
      if m > times[|times| - 1] then m else times[|times| - 1]
  }

  /** Keeping the latest timestamp of any times less than half a cycle apart keeps the wrapped maximum. */
  lemma {:induction false} LatestIsMaximum(times: seq<int>)
    requires times != []
    requires forall s, t :: s in times && t in times ==> s - t < HALF
    ensures Latest(times) == Wrap(Maximum(times))
    decreases |times|
  {
    if |times| > 1 {
      var init, last := times[..|times| - 1], times[|times| - 1];
      assert forall t :: t in init ==> t in times;
      LatestIsMaximum(init);
      assert Maximum(init) in times && last in times;
      NewerIsLater(Maximum(init), last);
    }
  }
}
