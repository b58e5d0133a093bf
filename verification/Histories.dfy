/** Whole runs: what the maps, the deliveries and the relayed frames of a run are, told from its events
    alone. A history function looks only at events; each theorem says the state agrees with it. */
module Histories {
  import opened Wrappers
  import opened Words
  import opened Addresses
  import opened Session
  import opened Runs

  // ----- runs -----

  ghost function Empty<C, P>(): World<C, P> {
    World(map[], map[], map[], map[], map[])
  }

  /** Different streams have different caches. */
  ghost predicate Distinct<C, P>(w: World<C, P>) {
    forall s, t :: s in w.streams && t in w.streams && w.streams[s] == w.streams[t] ==> s == t
  }

  ghost predicate Safe<C, P>(w: World<C, P>) {
    Invariant(w) && Distinct(w)
  }

  lemma EmptyIsSafe<C, P>(w: World<C, P>)
    requires w == Empty()
    ensures Safe(w)
  {
  }

  ghost function Last<T>(s: seq<T>): T
    requires s != []
  {
    s[|s| - 1]
  }

  ghost function Init<T>(s: seq<T>): seq<T>
    requires s != []
  {
    s[..|s| - 1]
  }

  /** The world a run of events leads to; there is none if some event could not happen. Every world
      reached is safe. */
  ghost function After<C, P>(events: seq<Event<C, P>>): (r: Option<World<C, P>>)
    ensures r.Some? ==> Safe(r.value)
    decreases |events|
  {
    if events == [] then
      var w: World<C, P> := Empty();
      EmptyIsSafe(w);
      Some(w)
    else
      match After(Init(events))
      case None => None
      case Some(w) =>
        SafeIsGrounded(w);
        if Enabled(w, Last(events)) then
          SafeStep(w, Last(events));
          Some(Step(w, Last(events)))
        else None
  }

  lemma SafeIsGrounded<C, P>(w: World<C, P>)
    requires Safe(w)
    ensures Grounded(w)
  {
  }

  /** The step a non-empty run ends with. */
  ghost predicate Ends<C, P>(events: seq<Event<C, P>>, w: World<C, P>, v: World<C, P>) {
    && events != [] && After(Init(events)) == Some(w) && Grounded(w) && Safe(w)
    && Enabled(w, Last(events)) && v == Step(w, Last(events))
  }

  lemma RunEnds<C, P>(events: seq<Event<C, P>>) returns (w: World<C, P>)
    requires events != [] && After(events).Some?
    ensures Ends(events, w, After(events).value)
  {
    hide Enabled, Step, Safe, Grounded;
    w := After(Init(events)).value;
    SafeIsGrounded(w);
  }

  lemma RunGoesOn<C, P>(events: seq<Event<C, P>>, e: Event<C, P>)
    requires After(events).Some?
    ensures var w := After(events).value;
            Grounded(w) && (Enabled(w, e) ==> After(events + [e]) == Some(Step(w, e)))
  {
    hide Enabled, Step, Safe, Grounded;
    SafeIsGrounded(After(events).value);
    assert Init(events + [e]) == events && Last(events + [e]) == e;
  }

  // ----- what signalling changes -----

  /** The publisher of a stream. */
  ghost function PublisherOfStream<C, P>(w: World<C, P>, stream: Text): Option<P>
    requires Grounded(w)
  {
    if stream in w.streams then w.caches[w.streams[stream]].publisher else None
  }

  /** The peer an event creates: a publisher for a stream without one, a player for a stream with one. */
  ghost function Creation<C, P>(w: World<C, P>, e: Event<C, P>): Option<Created<P>>
    requires Grounded(w)
  {
    match e
    case Publish(s, _, created) => if PublisherOfStream(w, s).None? then Some(created) else None
    case Play(s, _, created) => if PublisherOfStream(w, s).Some? then Some(created) else None
    case _ => None
  }

  ghost function UfragsWith<P>(ufrags: map<Text, P>, creation: Option<Created<P>>): map<Text, P> {
    if creation.Some? && Registers(creation.value)
    then Emplace(ufrags, UfragOf(creation.value), creation.value.peer) else ufrags
  }

  /** What a signalling step does to the streams, the registrations and the peers. */
  ghost predicate Signals<C, P>(w: World<C, P>, e: Event<C, P>, v: World<C, P>)
    requires Grounded(w) && (e.Publish? || e.Play?)
  {
    && Grounded(v) && Distinct(v) && v.addrs == w.addrs
    && v.ufrags == UfragsWith(w.ufrags, Creation(w, e))
    && v.streams.Keys == w.streams.Keys + {e.stream}
    && (forall s :: s in w.streams ==> s in v.streams && v.streams[s] == w.streams[s])
    && (forall s :: PublisherOfStream(v, s) ==
          if e.Publish? && s == e.stream && Creation(w, e).Some? then Some(e.created.peer) else PublisherOfStream(w, s))
    && v.peers == match Creation(w, e)
                  case None => w.peers
                  case Some(created) =>
                    w.peers[created.peer := NewPeer(created, e.Play?).(scache := Some(v.streams[e.stream]))]
  }

  lemma CacheOfStream<C, P>(w: World<C, P>, stream: Text, c: C)
    requires Safe(w) && Grounded(w) && (stream in w.streams || c !in w.caches)
    ensures var v := WithCache(w, stream, c);
            && Invariant(v) && Grounded(v) && Distinct(v)
            && v.streams.Keys == w.streams.Keys + {stream}
            && v.streams[stream] == CacheOf(w, stream, c) && v.streams[stream] in v.caches
            && v.peers == w.peers && v.ufrags == w.ufrags && v.addrs == w.addrs
            && (forall s :: s in w.streams ==> s in v.streams && v.streams[s] == w.streams[s])
            && (forall s :: PublisherOfStream(v, s) == PublisherOfStream(w, s))
            && (v.caches[v.streams[stream]].canPublish <==> PublisherOfStream(w, stream).None?)
  {
    hide Graph, Routes;
    CacheAdded(w, stream, c);
    var v := WithCache(w, stream, c);
    GraphIsGrounded(v);
    CacheOkOf(v, v.streams[stream]);
  }

  /** A world after a peer joined the cache `c`, field by field. */
  lemma JoinedWorld<C, P>(w: World<C, P>, created: Created<P>, isPlayer: bool, c: C, cache: Cache<P>)
    ensures Joined(w, created, isPlayer, c, cache) ==
              World(w.streams, UfragsWith(w.ufrags, Some(created)), w.addrs, w.caches[c := cache],
                    w.peers[created.peer := NewPeer(created, isPlayer).(scache := Some(c))])
  {
    hide NewPeer, Emplace, Registers, UfragOf;
  }

  lemma PublishForm<C, P>(w: World<C, P>, stream: Text, c: C, created: Created<P>)
    requires Grounded(w) && CacheOf(w, stream, c) in WithCache(w, stream, c).caches
    ensures var d, v := CacheOf(w, stream, c), WithCache(w, stream, c);
            StepPublish(w, stream, c, created) ==
              if !v.caches[d].canPublish then v
              else Joined(v, created, false, d, v.caches[d].(canPublish := false, publisher := Some(created.peer)))
  {
    hide WithCache, CacheOf, NewPeer, Emplace, Registers, UfragOf, Grounded;
  }

  lemma PlayForm<C, P>(w: World<C, P>, stream: Text, c: C, created: Created<P>)
    requires Grounded(w) && CacheOf(w, stream, c) in WithCache(w, stream, c).caches
    ensures var d, v := CacheOf(w, stream, c), WithCache(w, stream, c);
            StepPlay(w, stream, c, created) ==
              if v.caches[d].canPublish then v
              else Joined(v, created, true, d, v.caches[d].(players := v.caches[d].players + [created.peer]))
  {
    hide WithCache, CacheOf, NewPeer, Emplace, Registers, UfragOf, Grounded;
  }

  lemma PublishSignals<C, P>(w: World<C, P>, e: Event<C, P>)
    requires Safe(w) && Grounded(w) && e.Publish? && Enabled(w, e)
    ensures Signals(w, e, Step(w, e))
  {
    hide Graph, Routes, Grounded, UfragsWith, WithCache, CacheOf, NewPeer, SortOf, StepPublish, Joined;
    var d, v := CacheOf(w, e.stream, e.cache), WithCache(w, e.stream, e.cache);
    CacheOfStream(w, e.stream, e.cache);
    PublishForm(w, e.stream, e.cache, e.created);
    JoinedWorld(v, e.created, false, d, v.caches[d].(canPublish := false, publisher := Some(e.created.peer)));
    NobodyEnters(w.ufrags);
    PublishKeeps(w, e.stream, e.cache, e.created);
    GraphIsGrounded(Step(w, e));
  }

  lemma PlaySignals<C, P>(w: World<C, P>, e: Event<C, P>)
    requires Safe(w) && Grounded(w) && e.Play? && Enabled(w, e)
    ensures Signals(w, e, Step(w, e))
  {
    hide Graph, Routes, Grounded, UfragsWith, WithCache, CacheOf, NewPeer, SortOf, StepPlay, Joined;
    var d, v := CacheOf(w, e.stream, e.cache), WithCache(w, e.stream, e.cache);
    CacheOfStream(w, e.stream, e.cache);
    PlayForm(w, e.stream, e.cache, e.created);
    JoinedWorld(v, e.created, true, d, v.caches[d].(players := v.caches[d].players + [e.created.peer]));
    NobodyEnters(w.ufrags);
    PlayKeeps(w, e.stream, e.cache, e.created);
    GraphIsGrounded(Step(w, e));
  }

  lemma NobodyEnters<P>(ufrags: map<Text, P>)
    ensures UfragsWith(ufrags, None) == ufrags
  {
  }

  lemma SafeStep<C, P>(w: World<C, P>, e: Event<C, P>)
    requires Safe(w) && Grounded(w) && Enabled(w, e)
    ensures Safe(Step(w, e))
  {
    hide Invariant, Step, SameShape, OnlyPeers, Enabled, Grounded, Creation, SortOf;
    StepKeeps(w, e);
    if e.Publish? || e.Play? {
      SignalStep(w, e);
    } else {
      OtherStep(w, e);
    }
  }

  lemma SignalStep<C, P>(w: World<C, P>, e: Event<C, P>)
    requires Safe(w) && Grounded(w) && Enabled(w, e) && (e.Publish? || e.Play?)
    ensures Signals(w, e, Step(w, e)) && Distinct(Step(w, e))
  {
    hide Invariant, Step, Enabled, Grounded, Creation, SortOf;
    if e.Publish? {
      PublishSignals(w, e);
    } else {
      PlaySignals(w, e);
    }
  }

  /** The other steps leave streams, caches and registrations alone. */
  lemma OtherStep<C, P>(w: World<C, P>, e: Event<C, P>)
    requires Safe(w) && Grounded(w) && Enabled(w, e) && !e.Publish? && !e.Play?
    ensures SameShape(w, Step(w, e)) && Step(w, e).streams == w.streams && Step(w, e).caches == w.caches
    ensures Step(w, e).ufrags == w.ufrags && Step(w, e).peers.Keys == w.peers.Keys
    ensures Step(w, e).addrs == if e.Receive? then AddrsAfter(w, e.from, e.bytes) else w.addrs
  {
    hide Invariant, Enabled, Grounded, SortOf, StepReceive, StepMedia, StepConnection, RequestKeyFrame, WithTrack,
         AddrsAfter;
    if e.Receive? {
      ReceiveKeeps(w, e.from, e.bytes);
      AddrsOfReceive(w, e.from, e.bytes);
    } else {
      CallbackKeeps(w, e);
    }
  }

  lemma AddrsOfReceive<C, P>(w: World<C, P>, from: Address, bytes: seq<byte>)
    requires Grounded(w)
    ensures StepReceive(w, from, bytes).addrs == AddrsAfter(w, from, bytes)
  {
    hide SortOf, KeyOf, AddrsAfter, Target;
    TargetExists(w, from, bytes);
  }

  // ----- publishers -----

  /** The first request to publish a stream. */
  ghost function FirstPublish<C, P>(events: seq<Event<C, P>>, stream: Text): Option<Created<P>>
    decreases |events|
  {
    if events == [] then None
    else
      var r, e := FirstPublish(Init(events), stream), Last(events);
      if r.None? && e.Publish? && e.stream == stream then Some(e.created) else r
  }

  ghost function PeerOf<P>(creation: Option<Created<P>>): Option<P> {
    match creation
    case None => None
    case Some(created) => Some(created.peer)
  }

  /** The publisher of a stream is, for good, the peer of the first request to publish it. It has a
      peer connection iff it got one when it was created. */
  lemma {:induction false} PublisherIsFirst<C, P>(events: seq<Event<C, P>>, stream: Text)
    requires After(events).Some?
    ensures var w := After(events).value;
            && Grounded(w)
            && PublisherOfStream(w, stream) == PeerOf(FirstPublish(events, stream))
            && (FirstPublish(events, stream).Some? ==>
                  var created := FirstPublish(events, stream).value;
                  created.peer in w.peers && w.peers[created.peer].hasPc == created.hasPc)
    decreases |events|
  {
    hide Safe, Step, Enabled, Grounded, SameShape, Registers, UfragOf, SortOf;
    SafeIsGrounded(After(events).value);
    if events == [] {
    } else {
      var w := RunEnds(events);
      PublisherIsFirst(Init(events), stream);
      PublisherStep(w, Last(events), stream);
    }
  }

  lemma PublisherStep<C, P>(w: World<C, P>, e: Event<C, P>, stream: Text)
    requires Safe(w) && Grounded(w) && Enabled(w, e)
    ensures var v := Step(w, e);
            && Grounded(v)
            && PublisherOfStream(v, stream) ==
                 (if e.Publish? && e.stream == stream && PublisherOfStream(w, stream).None? then Some(e.created.peer)
                  else PublisherOfStream(w, stream))
            && (forall p :: p in w.peers ==> p in v.peers && v.peers[p].hasPc == w.peers[p].hasPc)
            && (e.Publish? && e.stream == stream && PublisherOfStream(w, stream).None? ==>
                  e.created.peer in v.peers && v.peers[e.created.peer].hasPc == e.created.hasPc)
  {
    hide Safe, Step, Grounded, Registers, UfragOf, SortOf;
    SafeStep(w, e);
    SafeIsGrounded(Step(w, e));
    if e.Publish? || e.Play? {
      SignalStep(w, e);
    } else {
      OtherStep(w, e);
    }
  }

  // ----- streams -----

  /** Whether anybody asked to publish or play a stream. */
  ghost predicate Named<C, P>(events: seq<Event<C, P>>, stream: Text) {
    exists i :: 0 <= i < |events| && (events[i].Publish? || events[i].Play?) && events[i].stream == stream
  }

  /** A stream has a cache iff anybody ever asked for it, be it that the request was refused. */
  lemma {:induction false} StreamsAreNamed<C, P>(events: seq<Event<C, P>>, stream: Text)
    requires After(events).Some?
    ensures stream in After(events).value.streams <==> Named(events, stream)
    decreases |events|
  {
    hide Safe, Step, Enabled, Grounded, SameShape, Registers, UfragOf, SortOf, Named;
    if events == [] {
      NamedMore(events, stream);
    } else {
      var w := RunEnds(events);
      StreamsAreNamed(Init(events), stream);
      NamedMore(events, stream);
      StreamsStep(w, Last(events), stream);
    }
  }

  lemma NamedMore<C, P>(events: seq<Event<C, P>>, stream: Text)
    ensures events == [] ==> !Named(events, stream)
    ensures events != [] ==>
              var e := Last(events);
              (Named(events, stream) <==>
                 Named(Init(events), stream) || ((e.Publish? || e.Play?) && e.stream == stream))
  {
    if events != [] && Named(Init(events), stream) {
      var i :| 0 <= i < |Init(events)| && (Init(events)[i].Publish? || Init(events)[i].Play?)
               && Init(events)[i].stream == stream;
      assert events[i] == Init(events)[i];
    }
    if events != [] && Named(events, stream) {
      var i :| 0 <= i < |events| && (events[i].Publish? || events[i].Play?) && events[i].stream == stream;
      assert i < |events| - 1 ==> Init(events)[i] == events[i];
    }
  }

  lemma StreamsStep<C, P>(w: World<C, P>, e: Event<C, P>, stream: Text)
    requires Safe(w) && Grounded(w) && Enabled(w, e)
    ensures stream in Step(w, e).streams <==> stream in w.streams || ((e.Publish? || e.Play?) && e.stream == stream)
  {
    hide Safe, Step, Grounded, Registers, UfragOf, SortOf, Enabled;
    if e.Publish? || e.Play? {
      SignalStep(w, e);
    } else {
      OtherStep(w, e);
    }
  }

  // ----- registrations and bindings -----

  /** The peer a request creates after a run: a publisher for a stream nobody asked to publish before, a
      player for a stream somebody did. */
  ghost function Creates<C, P>(events: seq<Event<C, P>>, e: Event<C, P>): Option<Created<P>> {
    match e
    case Publish(s, _, created) => if FirstPublish(events, s).None? then Some(created) else None
    case Play(s, _, created) => if FirstPublish(events, s).Some? then Some(created) else None
    case _ => None
  }

  /** The first peer created with a ufrag pair. */
  ghost function FirstWithUfrag<C, P>(events: seq<Event<C, P>>, ufrag: Text): Option<P>
    decreases |events|
  {
    if events == [] then None
    else
      var r, creation := FirstWithUfrag(Init(events), ufrag), Creates(Init(events), Last(events));
      if r.None? && creation.Some? && Registers(creation.value) && UfragOf(creation.value) == ufrag
      then Some(creation.value.peer) else r
  }

  /** The peer registered under the username of the first Binding request from an address whose username
      was registered when it arrived. */
  ghost function FirstBinding<C, P>(events: seq<Event<C, P>>, key: Text): Option<P>
    decreases |events|
  {
    if events == [] then None
    else
      var r, e := FirstBinding(Init(events), key), Last(events);
      if r.None? && e.Receive? && KeyOf(e.from) == key && SortOf(e.bytes).Binding?
      then FirstWithUfrag(Init(events), SortOf(e.bytes).username) else r
  }

  ghost function Lookup<K, V>(m: map<K, V>, k: K): Option<V> {
    if k in m then Some(m[k]) else None
  }

  lemma CreationIsHistory<C, P>(events: seq<Event<C, P>>, w: World<C, P>, e: Event<C, P>)
    requires After(events) == Some(w) && Grounded(w)
    ensures Creation(w, e) == Creates(events, e)
  {
    hide Safe, Enabled, Step, Grounded, After, FirstPublish;
    if e.Publish? {
      PublisherIsFirst(events, e.stream);
    } else if e.Play? {
      PublisherIsFirst(events, e.stream);
    }
  }

  /** A ufrag pair is registered to the first peer created with it, for good. */
  lemma {:induction false} RegistrationIsFirst<C, P>(events: seq<Event<C, P>>, ufrag: Text)
    requires After(events).Some?
    ensures Lookup(After(events).value.ufrags, ufrag) == FirstWithUfrag(events, ufrag)
    decreases |events|
  {
    hide Safe, Step, Enabled, Grounded, SameShape, Registers, UfragOf, SortOf, Creates, Creation;
    if events == [] {
    } else {
      var w := RunEnds(events);
      RegistrationIsFirst(Init(events), ufrag);
      CreationIsHistory(Init(events), w, Last(events));
      UfragsStep(w, Last(events));
    }
  }

  lemma UfragsStep<C, P>(w: World<C, P>, e: Event<C, P>)
    requires Safe(w) && Grounded(w) && Enabled(w, e)
    ensures Step(w, e).ufrags == UfragsWith(w.ufrags, Creation(w, e))
  {
    hide Safe, Step, Grounded, Registers, UfragOf, SortOf, Enabled;
    if e.Publish? || e.Play? {
      SignalStep(w, e);
    } else {
      OtherStep(w, e);
    }
  }

  /** An address is bound by the first Binding request that can bind it, for good. */
  lemma {:induction false} BindingIsFirst<C, P>(events: seq<Event<C, P>>, key: Text)
    requires After(events).Some?
    ensures Lookup(After(events).value.addrs, key) == FirstBinding(events, key)
    decreases |events|
  {
    hide Safe, Step, Enabled, Grounded, SameShape, Registers, UfragOf, SortOf, Creates, Creation, KeyOf,
         FirstWithUfrag;
    if events == [] {
    } else {
      var w := RunEnds(events);
      var e := Last(events);
      BindingIsFirst(Init(events), key);
      AddrsStep(w, e);
      if e.Receive? && SortOf(e.bytes).Binding? {
        RegistrationIsFirst(Init(events), SortOf(e.bytes).username);
      }
    }
  }

  lemma AddrsStep<C, P>(w: World<C, P>, e: Event<C, P>)
    requires Safe(w) && Grounded(w) && Enabled(w, e)
    ensures Step(w, e).addrs == if e.Receive? then AddrsAfter(w, e.from, e.bytes) else w.addrs
  {
    hide Safe, Step, Grounded, Registers, UfragOf, SortOf, Enabled, AddrsAfter;
    if e.Publish? || e.Play? {
      SignalStep(w, e);
    } else {
      OtherStep(w, e);
    }
  }

  /** Nothing is removed from the three maps or bound anew, and no publisher is replaced. */
  lemma {:induction false} MapsOnlyGrow<C, P>(events: seq<Event<C, P>>, more: seq<Event<C, P>>)
    requires After(events + more).Some?
    ensures After(events).Some?
    ensures var w, v := After(events).value, After(events + more).value;
            && Grounded(w) && Grounded(v)
            && (forall s :: s in w.streams ==> s in v.streams && v.streams[s] == w.streams[s])
            && (forall u :: u in w.ufrags ==> u in v.ufrags && v.ufrags[u] == w.ufrags[u])
            && (forall k :: k in w.addrs ==> k in v.addrs && v.addrs[k] == w.addrs[k])
            && (forall s :: PublisherOfStream(w, s).Some? ==> PublisherOfStream(v, s) == PublisherOfStream(w, s))
    decreases |more|
  {
    hide Safe, Step, Enabled, Grounded, SameShape, Registers, UfragOf, SortOf, KeyOf, PublisherOfStream;
    if more == [] {
      assert events + more == events;
      SafeIsGrounded(After(events).value);
    } else {
      assert Init(events + more) == events + Init(more) && Last(events + more) == Last(more);
      var u := RunEnds(events + more);
      MapsOnlyGrow(events, Init(more));
      GrowingStep(u, Last(more));
    }
  }

  lemma GrowingStep<C, P>(w: World<C, P>, e: Event<C, P>)
    requires Safe(w) && Grounded(w) && Enabled(w, e)
    ensures var v := Step(w, e);
            && Grounded(v)
            && (forall s :: s in w.streams ==> s in v.streams && v.streams[s] == w.streams[s])
            && (forall u :: u in w.ufrags ==> u in v.ufrags && v.ufrags[u] == w.ufrags[u])
            && (forall k :: k in w.addrs ==> k in v.addrs && v.addrs[k] == w.addrs[k])
            && (forall s :: PublisherOfStream(w, s).Some? ==> PublisherOfStream(v, s) == PublisherOfStream(w, s))
  {
    hide Safe, Step, Grounded, Registers, UfragOf, SortOf, Enabled, KeyOf;
    UfragsStep(w, e);
    AddrsStep(w, e);
    SafeStep(w, e);
    SafeIsGrounded(Step(w, e));
    if e.Publish? || e.Play? {
      SignalStep(w, e);
    } else {
      OtherStep(w, e);
    }
  }
}
