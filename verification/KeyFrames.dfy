/** Connection states and key frames, told from the events of a run alone: what state a peer is in,
    whether a publisher's connection broke, and how often a publisher was asked for a key frame. */
module KeyFrames {
  import opened Wrappers
  import opened Session
  import opened Histories
  import opened Traces
  import opened Relay

  /** The state a peer was last told, new until then. */
  ghost function StateOf<C, P>(events: seq<Event<C, P>>, p: P): Connection
    decreases |events|
  {
    if events == [] then New
    else if Last(events).ConnectionChange? && Last(events).peer == p then Last(events).state
    else StateOf(Init(events), p)
  }

  /** Whether `p`, not being a player, was ever told that it is disconnected, failed or closed. */
  ghost predicate Broke<C, P>(events: seq<Event<C, P>>, p: P)
    decreases |events|
  {
    events != [] && (
      || Broke(Init(events), p)
      || (&& Last(events).ConnectionChange? && Last(events).peer == p
          && Last(events).state in {Disconnected, Failed, Connection.Closed}
          && ListenerOf(Init(events), p).None?))
  }

  /** Whether an event makes a player ask `q`: the player is asked for a key frame, or gets connected, and
      `q` is the first publisher of its stream. */
  ghost predicate Wants<C, P>(events: seq<Event<C, P>>, e: Event<C, P>, q: P) {
    && (e.KeyFrameWanted? || (e.ConnectionChange? && e.state == Connected))
    && ListenerOf(events, e.peer).Some?
    && PeerOf(FirstPublish(events, ListenerOf(events, e.peer).value.stream)) == Some(q)
  }

  /** How often `q` was asked. */
  ghost function RequestsTo<C, P>(events: seq<Event<C, P>>, q: P): nat
    decreases |events|
  {
    if events == [] then 0
    else RequestsTo(Init(events), q) + (if Wants(Init(events), Last(events), q) then 1 else 0)
  }

  // ----- one event -----

  lemma AsksIsWants<C, P>(events: seq<Event<C, P>>, w: World<C, P>, e: Event<C, P>, q: P)
    requires After(events) == Some(w) && Grounded(w) && Enabled(w, e)
    ensures Asks(w, e, q) <==> Wants(events, e, q)
  {
    hide After, ListenerOf, FirstPublish, Safe, Grounded, PublisherOf, IsPlayer;
    if e.KeyFrameWanted? || e.ConnectionChange? {
      ListenersArePlayers(events, e.peer);
      IsAPlayer(w, e.peer, ListenerOf(events, e.peer));
      if w.peers[e.peer].isPlayer {
        CallbacksFindPublisher(events, e.peer);
      }
    }
  }

  /** What a step does to state, broken flag and requests of an existing peer. */
  lemma CountersStep<C, P>(w: World<C, P>, e: Event<C, P>, p: P)
    requires Safe(w) && Grounded(w) && Enabled(w, e) && p in w.peers
    ensures p in Step(w, e).peers
    ensures var peer, peer', told := w.peers[p], Step(w, e).peers[p], e.ConnectionChange? && e.peer == p;
            && peer'.isPlayer == peer.isPlayer
            && peer'.state == (if told then e.state else peer.state)
            && peer'.keyRequests == peer.keyRequests + (if Asks(w, e, p) then 1 else 0)
            && (peer'.broken <==>
                  (peer.broken || (told && !peer.isPlayer && e.state in {Disconnected, Failed, Connection.Closed})))
  {
    hide Safe, Grounded, Step, LivePublisher, PublisherOf, Target, Relays, ChoosePayload, FrameFor;
    StepPeer(w, e, p);
  }

  /** A peer that does not exist yet was told and asked nothing. */
  lemma NothingBefore<C, P>(events: seq<Event<C, P>>, w: World<C, P>, e: Event<C, P>, p: P)
    requires After(events) == Some(w) && Grounded(w) && Enabled(w, e) && p !in w.peers
    ensures !Wants(events, e, p) && !(e.ConnectionChange? && e.peer == p)
  {
    hide After, ListenerOf, FirstPublish, Safe, Grounded, PublisherOf, LivePublisher;
    if Wants(events, e, p) {
      PublisherIsFirst(events, ListenerOf(events, e.peer).value.stream);
    }
  }

  /** After any run every peer is in the state it was last told; it is broken iff it is no player and was
      told so; and it was asked for exactly as many key frames as the players of its stream wanted. */
  lemma {:induction false} CountersAreHistory<C, P>(events: seq<Event<C, P>>, p: P)
    requires After(events).Some?
    ensures var w := After(events).value;
            && (p in w.peers ==>
                  && w.peers[p].state == StateOf(events, p)
                  && (w.peers[p].broken <==> Broke(events, p))
                  && w.peers[p].keyRequests == RequestsTo(events, p))
            && (p !in w.peers ==> StateOf(events, p) == New && !Broke(events, p) && RequestsTo(events, p) == 0)
    decreases |events|
  {
    hide Safe, Step, Grounded, Enabled, ListenerOf, Wants, Asks, NewPeer, Is;
    if events != [] {
      var w := RunEnds(events);
      var e, v := Last(events), After(events).value;
      CountersAreHistory(Init(events), p);
      ListenersArePlayers(Init(events), p);
      if p in w.peers {
        AsksIsWants(Init(events), w, e, p);
        CountersStep(w, e, p);
        IsAPlayer(w, p, ListenerOf(Init(events), p));
      } else {
        NothingBefore(Init(events), w, e, p);
        if p in v.peers {
          NewcomerIsBlank(w, e, p);
          NothingCounted<C, P>(e.created, e.Play?, v.streams[e.stream]);
        }
      }
    }
  }

  lemma IsAPlayer<C, P>(w: World<C, P>, p: P, l: Option<Listener>)
    requires p in w.peers && Described(w, p, l)
    ensures w.peers[p].isPlayer <==> l.Some?
  {
  }

  lemma NothingCounted<C, P>(created: Created<P>, isPlayer: bool, c: C)
    ensures var peer := NewPeer<C, P>(created, isPlayer).(scache := Some(c));
            peer.state == New && !peer.broken && peer.keyRequests == 0
  {
  }
}
