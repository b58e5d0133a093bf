/** What holds in every run of the session state machine. */
module Runs {
  import opened Wrappers
  import opened Words
  import opened Addresses
  import opened Session

  // ----- the object graph -----

  /** `CanPublish` means no publisher; only a published stream has players; a cache's publisher and
      players point back to it, and each player is listed once. */
  ghost predicate CacheOk<C, P>(w: World<C, P>, c: C)
    requires Grounded(w) && c in w.caches
  {
    var cache := w.caches[c];
    && (cache.canPublish <==> cache.publisher.None?)
    && (cache.players != [] ==> cache.publisher.Some?)
    && (cache.publisher.Some? ==>
          !w.peers[cache.publisher.value].isPlayer && w.peers[cache.publisher.value].scache == Some(c))
    && (forall i :: 0 <= i < |cache.players| ==>
          w.peers[cache.players[i]].isPlayer && w.peers[cache.players[i]].scache == Some(c))
    && (forall i, j :: 0 <= i < j < |cache.players| ==> cache.players[i] != cache.players[j])
  }

  /** Every peer belongs to a cache: a player is listed by it, a publisher is its publisher. */
  ghost predicate PeerOk<C, P>(w: World<C, P>, p: P)
    requires Grounded(w) && p in w.peers
  {
    var peer := w.peers[p];
    && peer.scache.Some?
    && (peer.isPlayer ==> p in w.caches[peer.scache.value].players)
    && (!peer.isPlayer ==> w.caches[peer.scache.value].publisher == Some(p))
    && (peer.state == Connected ==> peer.hasPc)
  }

  ghost predicate Graph<C, P>(w: World<C, P>) {
    && Grounded(w)
    && (forall c :: c in w.caches ==> CacheOk(w, c))
    && (forall p :: p in w.peers ==> PeerOk(w, p))
  }

  // ----- routing -----

  /** A registered peer has its sender and its ufrag. */
  ghost predicate Routes<C, P>(w: World<C, P>)
    requires Grounded(w)
  {
    && (forall u :: u in w.ufrags ==> w.peers[w.ufrags[u]].hasSender && w.peers[w.ufrags[u]].ufrag == u)
    && (forall k :: k in w.addrs ==> w.peers[w.addrs[k]].hasSender)
    && (forall p :: p in w.peers ==> RouteOk(w, p))
  }

  /** A peer's remote address, and the source of every packet it was handed, are bound to it. */
  ghost predicate RouteOk<C, P>(w: World<C, P>, p: P)
    requires p in w.peers
  {
    var peer := w.peers[p];
    && (peer.remote.Some? ==> BoundTo(w, Key(peer.remote.value.text, peer.remote.value.port), p))
    && (forall i :: 0 <= i < |peer.inbox| ==> BoundTo(w, peer.inbox[i].key, p))
  }

  ghost predicate BoundTo<C, P>(w: World<C, P>, key: Text, p: P) {
    key in w.addrs && w.addrs[key] == p
  }

  ghost predicate Invariant<C, P>(w: World<C, P>) {
    Graph(w) && Routes(w)
  }

  // ----- steps that leave the graph alone -----

  ghost predicate SameShape<C, P>(w: World<C, P>, v: World<C, P>) {
    && v.streams == w.streams && v.caches == w.caches && v.ufrags == w.ufrags && v.peers.Keys == w.peers.Keys
    && forall p :: p in w.peers ==> SamePeerShape(w.peers[p], v.peers[p])
  }

  ghost predicate SamePeerShape<C>(a: Peer<C>, b: Peer<C>) {
    && b.isPlayer == a.isPlayer && b.hasPc == a.hasPc && b.hasSender == a.hasSender && b.ufrag == a.ufrag
    && b.scache == a.scache && (b.state == Connected ==> b.hasPc)
  }

  lemma GraphKept<C, P>(w: World<C, P>, v: World<C, P>)
    requires Graph(w) && SameShape(w, v)
    requires forall k :: k in v.addrs ==> v.addrs[k] in v.peers
    ensures Graph(v)
  {
    assert Grounded(v) by {
      forall p | p in v.peers && v.peers[p].scache.Some?
        ensures v.peers[p].scache.value in v.caches
      {
        assert SamePeerShape(w.peers[p], v.peers[p]);
      }
    }
    forall c | c in v.caches
      ensures CacheOk(v, c)
    {
      assert CacheOk(w, c);
      var cache := w.caches[c];
      if cache.publisher.Some? {
        assert SamePeerShape(w.peers[cache.publisher.value], v.peers[cache.publisher.value]);
      }
      forall i | 0 <= i < |cache.players|
        ensures v.peers[cache.players[i]].isPlayer && v.peers[cache.players[i]].scache == Some(c)
      {
        assert SamePeerShape(w.peers[cache.players[i]], v.peers[cache.players[i]]);
      }
    }
    forall p | p in v.peers
      ensures PeerOk(v, p)
    {
      assert PeerOk(w, p) && SamePeerShape(w.peers[p], v.peers[p]);
    }
  }

  /** Without new addresses or packets, routing is kept too. */
  lemma RoutesKept<C, P>(w: World<C, P>, v: World<C, P>)
    requires Invariant(w) && SameShape(w, v) && v.addrs == w.addrs
    requires forall p :: p in w.peers ==> v.peers[p].remote == w.peers[p].remote && v.peers[p].inbox == w.peers[p].inbox
    ensures Invariant(v)
  {
    GraphKept(w, v);
    forall u | u in v.ufrags
      ensures v.peers[v.ufrags[u]].hasSender && v.peers[v.ufrags[u]].ufrag == u
    {
      assert SamePeerShape(w.peers[w.ufrags[u]], v.peers[w.ufrags[u]]);
    }
    forall k | k in v.addrs
      ensures v.peers[v.addrs[k]].hasSender
    {
      assert SamePeerShape(w.peers[w.addrs[k]], v.peers[w.addrs[k]]);
    }
    forall p | p in v.peers
      ensures RouteOk(v, p)
    {
      assert RouteOk(w, p);
      forall i | 0 <= i < |v.peers[p].inbox|
        ensures BoundTo(v, v.peers[p].inbox[i].key, p)
      {
        assert BoundTo(w, w.peers[p].inbox[i].key, p);
      }
    }
  }

  lemma {:induction false} FeedShape<C, P>(peers: map<P, Peer<C>>, players: seq<P>, media: Media, p: P)
    requires forall i :: 0 <= i < |players| ==> players[i] in peers
    requires p in peers && (peers[p].state == Connected ==> peers[p].hasPc)
    ensures var q := FeedAll(peers, players, media)[p];
            SamePeerShape(peers[p], q) && q.remote == peers[p].remote && q.inbox == peers[p].inbox
            && q.state == peers[p].state
    decreases |players|
  {
    if players != [] {
      var peers' := peers[players[0] := FeedOne(peers[players[0]], media)];
      FeedShape(peers', players[1..], media, p);
    }
  }

  /** What a step that only touches peers, and not their place, does. */
  ghost predicate OnlyPeers<C, P>(w: World<C, P>, v: World<C, P>) {
    && SameShape(w, v) && v.addrs == w.addrs
    && forall p :: p in w.peers ==> v.peers[p].remote == w.peers[p].remote && v.peers[p].inbox == w.peers[p].inbox
  }

  lemma ConnectedHasPc<C, P>(w: World<C, P>)
    requires Graph(w)
    ensures forall p :: p in w.peers && w.peers[p].state == Connected ==> w.peers[p].hasPc
  {
  }

  lemma {:induction false} FeedTouches<C, P>(peers: map<P, Peer<C>>, players: seq<P>, media: Media)
    requires forall i :: 0 <= i < |players| ==> players[i] in peers
    requires forall p :: p in peers && peers[p].state == Connected ==> peers[p].hasPc
    ensures var r := FeedAll(peers, players, media);
            && r.Keys == peers.Keys
            && forall p :: p in peers ==>
                 SamePeerShape(peers[p], r[p]) && r[p].remote == peers[p].remote && r[p].inbox == peers[p].inbox
  {
    hide FeedAll;
    var r := FeedAll(peers, players, media);
    forall p | p in peers
      ensures SamePeerShape(peers[p], r[p]) && r[p].remote == peers[p].remote && r[p].inbox == peers[p].inbox
    {
      FeedShape(peers, players, media, p);
    }
  }

  lemma MediaTouchesPeers<C, P>(w: World<C, P>, q: P, media: Media)
    requires Grounded(w) && q in w.peers
    requires forall p :: p in w.peers && w.peers[p].state == Connected ==> w.peers[p].hasPc
    ensures OnlyPeers(w, StepMedia(w, q, media))
  {
    hide Grounded, FeedAll, SamePeerShape;
    if !w.peers[q].isPlayer && w.peers[q].scache.Some? {
      FeedTouches(w.peers, PlayersOf(w, q), media);
    } else {
      TouchesNone(w);
    }
  }

  /** The players a publisher's media goes to. */
  ghost function PlayersOf<C, P>(w: World<C, P>, q: P): (r: seq<P>)
    requires Grounded(w) && q in w.peers && w.peers[q].scache.Some?
    ensures forall i :: 0 <= i < |r| ==> r[i] in w.peers
  {
    w.caches[w.peers[q].scache.value].players
  }

  lemma OnePeerTouched<C, P>(w: World<C, P>, p: P, peer: Peer<C>)
    requires p in w.peers && SamePeerShape(w.peers[p], peer)
    requires peer.remote == w.peers[p].remote && peer.inbox == w.peers[p].inbox
    requires forall q :: q in w.peers && w.peers[q].state == Connected ==> w.peers[q].hasPc
    ensures OnlyPeers(w, w.(peers := w.peers[p := peer]))
  {
  }

  lemma RequestTouchesPeers<C, P>(w: World<C, P>, q: P)
    requires q in w.peers
    requires forall p :: p in w.peers && w.peers[p].state == Connected ==> w.peers[p].hasPc
    ensures OnlyPeers(w, RequestKeyFrame(w, q))
  {
    hide PublisherOf, OnlyPeers;
    TouchesNone(w);
    match PublisherOf(w, q) {
      case None =>
      case Some(r) =>
        if r in w.peers {
          OnePeerTouched(w, r, w.peers[r].(keyRequests := w.peers[r].keyRequests + 1));
        }
    }
  }

  lemma ConnectionTouchesPeers<C, P>(w: World<C, P>, q: P, state: Connection)
    requires q in w.peers && w.peers[q].hasPc
    requires forall p :: p in w.peers && w.peers[p].state == Connected ==> w.peers[p].hasPc
    ensures OnlyPeers(w, StepConnection(w, q, state))
  {
    hide RequestKeyFrame, OnlyPeers, Breaks;
    var peer := w.peers[q];
    var peer1 := peer.(state := state, broken := peer.broken || (!peer.isPlayer && Breaks(state)));
    var w1 := w.(peers := w.peers[q := peer1]);
    OnePeerTouched(w, q, peer1);
    RequestTouchesPeers(w1, q);
    TouchesTwice(w, w1, RequestKeyFrame(w1, q));
  }

  lemma TouchesTwice<C, P>(w: World<C, P>, v: World<C, P>, u: World<C, P>)
    requires OnlyPeers(w, v) && OnlyPeers(v, u)
    ensures OnlyPeers(w, u)
  {
    forall p | p in w.peers
      ensures SamePeerShape(w.peers[p], u.peers[p])
      ensures u.peers[p].remote == w.peers[p].remote && u.peers[p].inbox == w.peers[p].inbox
    {
      assert SamePeerShape(w.peers[p], v.peers[p]) && SamePeerShape(v.peers[p], u.peers[p]);
    }
  }

  lemma TrackTouchesPeers<C, P>(w: World<C, P>, q: P, kind: MediaKind, ssrc: u32, codecs: seq<Codec>)
    requires q in w.peers
    requires forall p :: p in w.peers && w.peers[p].state == Connected ==> w.peers[p].hasPc
    ensures OnlyPeers(w, w.(peers := w.peers[q := WithTrack(w.peers[q], kind, ssrc, codecs)]))
  {
  }

  lemma CallbackKeeps<C, P>(w: World<C, P>, e: Event<C, P>)
    requires Invariant(w) && Enabled(w, e) && !e.Publish? && !e.Play? && !e.Receive?
    ensures Invariant(Step(w, e)) && OnlyPeers(w, Step(w, e))
  {
    hide Graph, Grounded, Routes, StepMedia, StepConnection, RequestKeyFrame, WithTrack, OnlyPeers, LivePublisher,
         SortOf;
    ConnectedHasPc(w);
    GraphIsGrounded(w);
    match e {
      case MediaIn(q, media) => MediaTouchesPeers(w, q, media);
      case ConnectionChange(q, state) => ConnectionTouchesPeers(w, q, state);
      case KeyFrameWanted(q) =>
        RequestTouchesPeers(w, q);
        TouchesNone(w);
      case LocalTrack(q, kind, ssrc, codecs) => TrackTouchesPeers(w, q, kind, ssrc, codecs);
    }
    OnlyPeersKeep(w, Step(w, e));
  }

  lemma TouchesNone<C, P>(w: World<C, P>)
    requires forall p :: p in w.peers && w.peers[p].state == Connected ==> w.peers[p].hasPc
    ensures OnlyPeers(w, w)
  {
  }

  lemma OnlyPeersKeep<C, P>(w: World<C, P>, v: World<C, P>)
    requires Invariant(w) && OnlyPeers(w, v)
    ensures Invariant(v)
  {
    RoutesKept(w, v);
  }

  // ----- packets -----

  lemma TargetExists<C, P>(w: World<C, P>, from: Address, bytes: seq<byte>)
    requires Grounded(w)
    ensures forall k :: k in AddrsAfter(w, from, bytes) ==>
              (k in w.addrs && AddrsAfter(w, from, bytes)[k] == w.addrs[k])
              || (Binds(w, bytes) && AddrsAfter(w, from, bytes)[k] == w.ufrags[SortOf(bytes).username])
    ensures forall k :: k in w.addrs ==> k in AddrsAfter(w, from, bytes) && AddrsAfter(w, from, bytes)[k] == w.addrs[k]
    ensures var t := Target(w, from, bytes);
            t.Some? ==> t.value in w.peers && KeyOf(from) in AddrsAfter(w, from, bytes)
                        && AddrsAfter(w, from, bytes)[KeyOf(from)] == t.value
  {
    hide KeyOf, SortOf;
    if Binds(w, bytes) {
      assert w.ufrags[SortOf(bytes).username] in w.peers;
    }
  }

  lemma DeliverShape<C>(peer: Peer<C>, from: Address, bytes: seq<byte>)
    requires peer.state == Connected ==> peer.hasPc
    ensures SamePeerShape(peer, Deliver(peer, from, bytes))
  {
  }

  lemma ReceiveShape<C, P>(w: World<C, P>, from: Address, bytes: seq<byte>)
    requires Grounded(w)
    requires forall p :: p in w.peers && w.peers[p].state == Connected ==> w.peers[p].hasPc
    ensures SameShape(w, StepReceive(w, from, bytes))
    ensures StepReceive(w, from, bytes).addrs == AddrsAfter(w, from, bytes)
  {
    hide KeyOf, AddrsAfter, Target, Deliver, Binds, Grounded, SamePeerShape, SortOf;
    TargetExists(w, from, bytes);
    var v := StepReceive(w, from, bytes);
    forall p | p in w.peers
      ensures SamePeerShape(w.peers[p], v.peers[p])
    {
      Itself(w.peers[p]);
      DeliverShape(w.peers[p], from, bytes);
    }
  }

  lemma Itself<C>(peer: Peer<C>)
    requires peer.state == Connected ==> peer.hasPc
    ensures SamePeerShape(peer, peer)
  {
  }

  lemma ReceiveKeeps<C, P>(w: World<C, P>, from: Address, bytes: seq<byte>)
    requires Invariant(w)
    ensures Invariant(StepReceive(w, from, bytes)) && SameShape(w, StepReceive(w, from, bytes))
  {
    hide StepReceive, AddrsAfter, SameShape, Grounded, Graph, RouteOk, SortOf;
    ConnectedHasPc(w);
    GraphIsGrounded(w);
    ReceiveShape(w, from, bytes);
    AddressesRegistered(w, from, bytes);
    var v := StepReceive(w, from, bytes);
    SameKeys(w, v);
    GraphKept(w, v);
    RegisteredKept(w, v);
    GraphIsGrounded(v);
    forall p | p in v.peers
      ensures RouteOk(v, p)
    {
      ReceiveRoutes(w, from, bytes, p);
    }
  }

  lemma SameKeys<C, P>(w: World<C, P>, v: World<C, P>)
    requires SameShape(w, v)
    ensures v.peers.Keys == w.peers.Keys
  {
  }

  lemma AddressesRegistered<C, P>(w: World<C, P>, from: Address, bytes: seq<byte>)
    requires Invariant(w)
    ensures var addrs := AddrsAfter(w, from, bytes);
            forall k :: k in addrs ==> addrs[k] in w.peers && w.peers[addrs[k]].hasSender
  {
    hide AddrsAfter, Target, Graph, RouteOk, KeyOf, SortOf;
    GraphIsGrounded(w);
    TargetExists(w, from, bytes);
  }

  lemma RegisteredKept<C, P>(w: World<C, P>, v: World<C, P>)
    requires Invariant(w) && Graph(v) && SameShape(w, v)
    requires forall k :: k in v.addrs ==> v.addrs[k] in w.peers && w.peers[v.addrs[k]].hasSender
    ensures forall u :: u in v.ufrags ==> v.peers[v.ufrags[u]].hasSender && v.peers[v.ufrags[u]].ufrag == u
    ensures forall k :: k in v.addrs ==> v.peers[v.addrs[k]].hasSender
  {
  }

  lemma ReceiveRoutes<C, P>(w: World<C, P>, from: Address, bytes: seq<byte>, p: P)
    requires Grounded(w) && p in w.peers && RouteOk(w, p)
    ensures p in StepReceive(w, from, bytes).peers && RouteOk(StepReceive(w, from, bytes), p)
  {
    hide AddrsAfter, Target, Grounded, IpText, Binds, Key, SortOf;
    TargetExists(w, from, bytes);
    var v := StepReceive(w, from, bytes);
    assert v.addrs == AddrsAfter(w, from, bytes);
    forall i | 0 <= i < |v.peers[p].inbox|
      ensures BoundTo(v, v.peers[p].inbox[i].key, p)
    {
      if i < |w.peers[p].inbox| {
        assert BoundTo(w, w.peers[p].inbox[i].key, p);
      }
    }
  }

  // ----- signalling -----

  lemma CacheAdded<C, P>(w: World<C, P>, stream: Text, c: C)
    requires Invariant(w) && (stream in w.streams || c !in w.caches)
    ensures var v := WithCache(w, stream, c);
            && Invariant(v) && CacheOf(w, stream, c) in v.caches
            && v.peers == w.peers && v.ufrags == w.ufrags && v.addrs == w.addrs
  {
    hide CacheOk, PeerOk, Routes;
    var v := WithCache(w, stream, c);
    if stream !in w.streams {
      CacheAddedGrounded(w, stream, c);
      forall d | d in v.caches
        ensures CacheOk(v, d)
      {
        if d in w.caches {
          OtherCache(w, v, d);
        } else {
          EmptyCacheOk(v, d);
        }
      }
      forall p | p in v.peers
        ensures PeerOk(v, p)
      {
        OtherPeer(w, v, p);
      }
      SameRoutes(w, v);
    }
  }

  lemma EmptyCacheOk<C, P>(w: World<C, P>, c: C)
    requires Grounded(w) && c in w.caches && w.caches[c] == NewCache()
    ensures CacheOk(w, c)
  {
  }

  lemma OtherPeer<C, P>(w: World<C, P>, v: World<C, P>, p: P)
    requires Grounded(w) && Grounded(v) && p in w.peers && PeerOk(w, p) && p in v.peers && v.peers[p] == w.peers[p]
    requires forall c :: c in w.caches ==> c in v.caches && v.caches[c] == w.caches[c]
    ensures PeerOk(v, p)
  {
  }

  lemma CacheAddedGrounded<C, P>(w: World<C, P>, stream: Text, c: C)
    requires Grounded(w) && c !in w.caches && stream !in w.streams
    ensures Grounded(WithCache(w, stream, c))
  {
  }

  lemma SameRoutes<C, P>(w: World<C, P>, v: World<C, P>)
    requires Grounded(w) && Grounded(v) && Routes(w) && v.peers == w.peers && v.ufrags == w.ufrags && v.addrs == w.addrs
    ensures Routes(v)
  {
    forall p | p in v.peers
      ensures RouteOk(v, p)
    {
      RouteStays(w, v, p);
    }
  }

  lemma RouteStays<C, P>(w: World<C, P>, v: World<C, P>, p: P)
    requires p in w.peers && p in v.peers && v.peers[p] == w.peers[p] && RouteOk(w, p) && v.addrs == w.addrs
    ensures RouteOk(v, p)
  {
  }

  /** A world with one more peer, attached to the cache `c`, whose new value is `cache`. */
  ghost function Joined<C, P>(w: World<C, P>, created: Created<P>, isPlayer: bool, c: C, cache: Cache<P>): World<C, P> {
    var w1 := AddPeer(w, created, isPlayer);
    Attach(w1.(caches := w1.caches[c := cache]), created.peer, c)
  }

  /** The new peer as it joins. */
  ghost predicate Joiner<C, P>(peer: Peer<C>, created: Created<P>, isPlayer: bool, c: C) {
    && peer.isPlayer == isPlayer && peer.scache == Some(c) && peer.state == New
    && peer.remote.None? && peer.inbox == [] && peer.hasSender == Registers(created)
    && (Registers(created) ==> peer.ufrag == UfragOf(created))
  }

  lemma JoinedParts<C, P>(w: World<C, P>, created: Created<P>, isPlayer: bool, c: C, cache: Cache<P>)
    requires created.peer !in w.peers
    ensures var v := Joined(w, created, isPlayer, c, cache);
            && v.streams == w.streams && v.addrs == w.addrs && v.caches == w.caches[c := cache]
            && v.peers.Keys == w.peers.Keys + {created.peer}
            && (forall p :: p in w.peers ==> v.peers[p] == w.peers[p])
            && Joiner(v.peers[created.peer], created, isPlayer, c)
            && (forall u :: u in v.ufrags ==>
                  (u in w.ufrags && v.ufrags[u] == w.ufrags[u])
                  || (v.ufrags[u] == created.peer && Registers(created) && u == UfragOf(created)))
  {
  }

  lemma JoinedIsGrounded<C, P>(w: World<C, P>, created: Created<P>, isPlayer: bool, c: C, cache: Cache<P>)
    requires Grounded(w) && c in w.caches && created.peer !in w.peers
    requires cache.publisher.Some? ==> cache.publisher.value in w.peers || cache.publisher.value == created.peer
    requires forall i :: 0 <= i < |cache.players| ==> cache.players[i] in w.peers || cache.players[i] == created.peer
    ensures Grounded(Joined(w, created, isPlayer, c, cache))
  {
  }

  lemma JoinedRoutes<C, P>(w: World<C, P>, created: Created<P>, isPlayer: bool, c: C, cache: Cache<P>)
    requires Grounded(w) && Routes(w) && created.peer !in w.peers
    requires Grounded(Joined(w, created, isPlayer, c, cache))
    ensures Routes(Joined(w, created, isPlayer, c, cache))
  {
    hide Joined, Registers, UfragOf;
    var v := Joined(w, created, isPlayer, c, cache);
    JoinedParts(w, created, isPlayer, c, cache);
    forall p | p in v.peers
      ensures RouteOk(v, p)
    {
      if p != created.peer {
        RouteStays(w, v, p);
      }
    }
  }

  /** The new value of the cache a peer joins. */
  ghost predicate Joins<P>(before: Cache<P>, after: Cache<P>, p: P, isPlayer: bool) {
    if isPlayer then before.publisher.Some? && after == before.(players := before.players + [p])
    else before.publisher.None? && after == before.(canPublish := false, publisher := Some(p))
  }

  lemma JoinedGraph<C, P>(w: World<C, P>, created: Created<P>, isPlayer: bool, c: C, cache: Cache<P>)
    requires Graph(w) && c in w.caches && created.peer !in w.peers
    requires Joins(w.caches[c], cache, created.peer, isPlayer)
    ensures Graph(Joined(w, created, isPlayer, c, cache))
  {
    hide Joined, CacheOk, PeerOk;
    var v := Joined(w, created, isPlayer, c, cache);
    JoinedParts(w, created, isPlayer, c, cache);
    JoinedIsGrounded(w, created, isPlayer, c, cache);
    forall d | d in v.caches
      ensures CacheOk(v, d)
    {
      if d == c {
        JoinedCache(w, v, created, isPlayer, c, cache);
      } else {
        OtherCache(w, v, d);
      }
    }
    forall p | p in v.peers
      ensures PeerOk(v, p)
    {
      JoinedPeer(w, v, created, isPlayer, c, cache, p);
    }
  }

  lemma OtherCache<C, P>(w: World<C, P>, v: World<C, P>, d: C)
    requires Grounded(w) && Grounded(v) && d in w.caches && CacheOk(w, d)
    requires d in v.caches && v.caches[d] == w.caches[d]
    requires forall p :: p in w.peers ==> p in v.peers && v.peers[p] == w.peers[p]
    ensures CacheOk(v, d)
  {
  }

  lemma JoinedCache<C, P>(w: World<C, P>, v: World<C, P>, created: Created<P>, isPlayer: bool, c: C, cache: Cache<P>)
    requires Grounded(w) && Grounded(v) && c in w.caches && CacheOk(w, c) && created.peer !in w.peers
    requires Joins(w.caches[c], cache, created.peer, isPlayer) && c in v.caches && v.caches[c] == cache
    requires created.peer in v.peers && Joiner(v.peers[created.peer], created, isPlayer, c)
    requires forall p :: p in w.peers ==> p in v.peers && v.peers[p] == w.peers[p]
    ensures CacheOk(v, c)
  {
    hide Registers, UfragOf, Grounded;
    GroundedCache(w, c);
    var before := w.caches[c].players;
    forall i | 0 <= i < |cache.players|
      ensures v.peers[cache.players[i]].isPlayer && v.peers[cache.players[i]].scache == Some(c)
      ensures forall j :: 0 <= j < i ==> cache.players[j] != cache.players[i]
    {
      if i < |before| {
        assert cache.players[i] == before[i];
      }
    }
  }

  lemma GroundedCache<C, P>(w: World<C, P>, c: C)
    requires Grounded(w) && c in w.caches
    ensures w.caches[c].publisher.Some? ==> w.caches[c].publisher.value in w.peers
    ensures forall i :: 0 <= i < |w.caches[c].players| ==> w.caches[c].players[i] in w.peers
  {
  }

  lemma JoinedPeer<C, P>(w: World<C, P>, v: World<C, P>, created: Created<P>, isPlayer: bool, c: C, cache: Cache<P>,
                         p: P)
    requires Graph(w) && Grounded(v) && c in w.caches && created.peer !in w.peers
    requires Joins(w.caches[c], cache, created.peer, isPlayer) && v.caches == w.caches[c := cache]
    requires p in v.peers && (p == created.peer || (p in w.peers && v.peers[p] == w.peers[p]))
    requires p == created.peer ==> Joiner(v.peers[p], created, isPlayer, c)
    ensures PeerOk(v, p)
  {
    hide Registers, UfragOf, CacheOk;
    if p != created.peer {
      assert PeerOk(w, p);
      var d := w.peers[p].scache.value;
      assert p in w.caches[d].players ==> p in v.caches[d].players;
    } else if isPlayer {
      assert cache.players[|cache.players| - 1] == p;
    }
  }

  lemma PublishKeeps<C, P>(w: World<C, P>, stream: Text, c: C, created: Created<P>)
    requires Invariant(w) && (stream in w.streams || c !in w.caches) && created.peer !in w.peers
    ensures Invariant(StepPublish(w, stream, c, created))
  {
    hide Graph, Routes, Grounded, CacheOf, WithCache;
    GraphIsGrounded(w);
    CacheAdded(w, stream, c);
    var d, w1 := CacheOf(w, stream, c), WithCache(w, stream, c);
    CacheOkOf(w1, d);
    if w1.caches[d].canPublish {
      var cache := w1.caches[d].(canPublish := false, publisher := Some(created.peer));
      JoinedGraph(w1, created, false, d, cache);
      GraphIsGrounded(Joined(w1, created, false, d, cache));
      JoinedRoutes(w1, created, false, d, cache);
      assert StepPublish(w, stream, c, created) == Joined(w1, created, false, d, cache);
    }
  }

  lemma PlayKeeps<C, P>(w: World<C, P>, stream: Text, c: C, created: Created<P>)
    requires Invariant(w) && (stream in w.streams || c !in w.caches) && created.peer !in w.peers
    ensures Invariant(StepPlay(w, stream, c, created))
  {
    hide Graph, Routes, Grounded, CacheOf, WithCache;
    GraphIsGrounded(w);
    CacheAdded(w, stream, c);
    var d, w1 := CacheOf(w, stream, c), WithCache(w, stream, c);
    CacheOkOf(w1, d);
    if !w1.caches[d].canPublish {
      var cache := w1.caches[d].(players := w1.caches[d].players + [created.peer]);
      JoinedGraph(w1, created, true, d, cache);
      GraphIsGrounded(Joined(w1, created, true, d, cache));
      JoinedRoutes(w1, created, true, d, cache);
      assert StepPlay(w, stream, c, created) == Joined(w1, created, true, d, cache);
    }
  }

  lemma CacheOkOf<C, P>(w: World<C, P>, c: C)
    requires Graph(w) && c in w.caches
    ensures Grounded(w) && (w.caches[c].canPublish <==> w.caches[c].publisher.None?)
    ensures w.caches[c].publisher.Some? ==> w.caches[c].publisher.value in w.peers
    ensures forall i :: 0 <= i < |w.caches[c].players| ==> w.caches[c].players[i] in w.peers
  {
  }

  /** Every step keeps the invariant. */
  lemma StepKeeps<C, P>(w: World<C, P>, e: Event<C, P>)
    requires Invariant(w) && Enabled(w, e)
    ensures Invariant(Step(w, e))
  {
    hide Graph, Routes, Grounded, StepPublish, StepPlay, StepReceive, StepConnection, StepMedia, RequestKeyFrame,
         OnlyPeers, SortOf;
    GraphIsGrounded(w);
    match e
    case Publish(stream, c, created) => PublishKeeps(w, stream, c, created);
    case Play(stream, c, created) => PlayKeeps(w, stream, c, created);
    case Receive(from, bytes) => ReceiveKeeps(w, from, bytes);
    case ConnectionChange(_, _) => CallbackKeeps(w, e);
    case KeyFrameWanted(_) => CallbackKeeps(w, e);
    case LocalTrack(_, _, _, _) => CallbackKeeps(w, e);
    case MediaIn(_, _) => CallbackKeeps(w, e);
  }

  lemma GraphIsGrounded<C, P>(w: World<C, P>)
    requires Graph(w)
    ensures Grounded(w)
  {
  }
}
