/** Why a publish request must be one step. The handler writes its response between checking that a
    stream has no publisher and setting one; these are its two parts, should others run in between. */
module Interleaving {
  import opened Wrappers
  import opened Addresses
  import opened Session
  import opened Runs
  import opened Histories

  /** Whether a request passes the check. */
  ghost predicate Passes<C, P>(w: World<C, P>, stream: Text, c: C) {
    var v := WithCache(w, stream, c);
    CacheOf(w, stream, c) in v.caches && v.caches[CacheOf(w, stream, c)].canPublish
  }

  /** Up to the response. */
  ghost function Begin<C, P>(w: World<C, P>, stream: Text, c: C, created: Created<P>): World<C, P> {
    AddPeer(WithCache(w, stream, c), created, false)
  }

  /** From the response on. */
  ghost function End<C, P>(w: World<C, P>, c: C, p: P): World<C, P>
    requires c in w.caches && p in w.peers
  {
    Attach(w.(caches := w.caches[c := w.caches[c].(canPublish := false, publisher := Some(p))]), p, c)
  }

  lemma PartsMakeTheStep<C, P>(w: World<C, P>, stream: Text, c: C, created: Created<P>)
    requires Safe(w) && Grounded(w) && (stream in w.streams || c !in w.caches)
    ensures var d, v := CacheOf(w, stream, c), Begin(w, stream, c, created);
            && d in v.caches && created.peer in v.peers
            && (Passes(w, stream, c) <==> PublisherOfStream(w, stream).None?)
            && StepPublish(w, stream, c, created) ==
                 if Passes(w, stream, c) then End(v, d, created.peer) else WithCache(w, stream, c)
  {
    hide Safe, NewPeer, Registers, UfragOf;
    CacheOfStream(w, stream, c);
  }

  lemma PublisherIsNamed<C, P>(w: World<C, P>, p: P, c: C)
    requires Graph(w) && p in w.peers && !w.peers[p].isPlayer && w.peers[p].scache == Some(c)
    ensures c in w.caches && w.caches[c].publisher == Some(p)
  {
  }

  /** Two requests whose parts interleave both pass the check, and the second replaces the publisher the
      first one set; the first peer goes on relaying into the cache that no longer knows it. */
  lemma InterleavedPublisherIsReplaced<C, P>(w: World<C, P>, stream: Text, c: C, first: Created<P>, second: Created<P>)
    requires Safe(w) && Grounded(w) && stream in w.streams && c == w.streams[stream]
             && PublisherOfStream(w, stream).None?
    requires first.peer !in w.peers && second.peer !in w.peers && first.peer != second.peer
    ensures Passes(w, stream, c) && Passes(Begin(w, stream, c, first), stream, c)
    ensures var u := Begin(Begin(w, stream, c, first), stream, c, second);
            && c in u.caches && first.peer in u.peers && second.peer in u.peers
            && var v1 := End(u, c, first.peer);
               var v2 := End(v1, c, second.peer);
               && v1.caches[c].publisher == Some(first.peer) && v2.caches[c].publisher == Some(second.peer)
               && !v2.peers[first.peer].isPlayer && v2.peers[first.peer].scache == Some(c)
               && !Graph(v2)
  {
    hide Safe, Registers, UfragOf, Grounded, CacheOk;
    CacheOfStream(w, stream, c);
    var u := Begin(Begin(w, stream, c, first), stream, c, second);
    var v2 := End(End(u, c, first.peer), c, second.peer);
    if Graph(v2) {
      PublisherIsNamed(v2, first.peer, c);
    }
  }
}
