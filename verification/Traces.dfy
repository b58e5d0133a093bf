/** What a single peer sees of a run: the packets delivered to it, where it sends, the frames relayed
    to it. */
module Traces {
  import opened Wrappers
  import opened Words
  import opened Addresses
  import opened Session
  import opened Runs
  import opened Histories

  // ----- one step, seen from one peer -----

  /** Whether what `q` receives goes to `p`. */
  ghost predicate Relays<C, P>(w: World<C, P>, q: P, p: P)
    requires q in w.peers && p in w.peers
  {
    !w.peers[q].isPlayer && w.peers[p].isPlayer && w.peers[p].scache == w.peers[q].scache
  }

  /** Whether an event makes a player ask the publisher `q` for a key frame. */
  ghost predicate Asks<C, P>(w: World<C, P>, e: Event<C, P>, q: P) {
    && (e.KeyFrameWanted? || (e.ConnectionChange? && e.state == Connected))
    && e.peer in w.peers && w.peers[e.peer].isPlayer && PublisherOf(w, e.peer) == Some(q)
  }

  ghost function Counted<C>(peer: Peer<C>, asks: bool): Peer<C> {
    if asks then peer.(keyRequests := peer.keyRequests + 1) else peer
  }

  /** A peer in a new connection state. */
  ghost function InState<C>(peer: Peer<C>, s: Connection): Peer<C> {
    peer.(state := s, broken := peer.broken || (!peer.isPlayer && Breaks(s)))
  }

  /** What an event makes of an existing peer. */
  ghost function Own<C, P>(w: World<C, P>, e: Event<C, P>, p: P): Peer<C>
    requires Grounded(w) && p in w.peers && Enabled(w, e)
  {
    var peer := w.peers[p];
    match e
    case Receive(from, bytes) => if Target(w, from, bytes) == Some(p) then Deliver(peer, from, bytes) else peer
    case ConnectionChange(q, s) => Counted(if p == q then InState(peer, s) else peer, Asks(w, e, p))
    case KeyFrameWanted(_) => Counted(peer, Asks(w, e, p))
    case LocalTrack(q, kind, ssrc, codecs) => if p == q then WithTrack(peer, kind, ssrc, codecs) else peer
    case MediaIn(q, media) => if Relays(w, q, p) then FeedOne(peer, media) else peer
    case _ => peer
  }

  lemma StepPeer<C, P>(w: World<C, P>, e: Event<C, P>, p: P)
    requires Safe(w) && Grounded(w) && Enabled(w, e) && p in w.peers
    ensures p in Step(w, e).peers && Step(w, e).peers[p] == Own(w, e, p)
  {
    hide Safe, SortOf, Grounded, Target, Deliver, WithTrack, FeedOne, Relays, Signals, StepReceive, Counted, InState,
         StepConnection, StepMedia, RequestKeyFrame, StepPublish, StepPlay, LivePublisher, PublisherOf;
    match e
    case Publish(_, _, _) => SignalPeer(w, e, p);
    case Play(_, _, _) => SignalPeer(w, e, p);
    case Receive(from, bytes) => ReceivePeer(w, from, bytes, p);
    case ConnectionChange(q, s) => ConnectionPeer(w, q, s, p);
    case KeyFrameWanted(q) =>
      RequestPeer(w, q, p);
      NotCounted(w.peers[p]);
    case LocalTrack(q, kind, ssrc, codecs) =>
    case MediaIn(q, media) => MediaPeer(w, q, media, p);
  }

  lemma NotCounted<C>(peer: Peer<C>)
    ensures Counted(peer, false) == peer
  {
  }

  lemma SignalPeer<C, P>(w: World<C, P>, e: Event<C, P>, p: P)
    requires Safe(w) && Grounded(w) && Enabled(w, e) && p in w.peers && (e.Publish? || e.Play?)
    ensures p in Step(w, e).peers && Step(w, e).peers[p] == w.peers[p]
  {
    hide Safe, SortOf, Grounded, Step, NewPeer;
    SignalStep(w, e);
  }

  lemma ReceivePeer<C, P>(w: World<C, P>, from: Address, bytes: seq<byte>, p: P)
    requires Grounded(w) && p in w.peers
    ensures var v := StepReceive(w, from, bytes);
            p in v.peers
            && v.peers[p] == if Target(w, from, bytes) == Some(p) then Deliver(w.peers[p], from, bytes) else w.peers[p]
  {
    hide SortOf, Grounded, Target, Deliver, AddrsAfter;
    TargetExists(w, from, bytes);
  }

  lemma RequestPeer<C, P>(w: World<C, P>, q: P, p: P)
    requires q in w.peers && p in w.peers
    ensures p in RequestKeyFrame(w, q).peers
    ensures RequestKeyFrame(w, q).peers[p] == Counted(w.peers[p], PublisherOf(w, q) == Some(p))
  {
    hide PublisherOf;
  }

  lemma ConnectionPeer<C, P>(w: World<C, P>, q: P, s: Connection, p: P)
    requires q in w.peers && p in w.peers
    ensures var v := StepConnection(w, q, s);
            && p in v.peers
            && v.peers[p] == Counted(if p == q then InState(w.peers[p], s) else w.peers[p],
                                   w.peers[q].isPlayer && s == Connected && PublisherOf(w, q) == Some(p))
  {
    hide RequestKeyFrame, Breaks, PublisherOf, Counted;
    var peer := w.peers[q];
    var w1 := w.(peers := w.peers[q := InState(peer, s)]);
    SamePublisher(w, w1, q);
    NotCounted(w1.peers[p]);
    RequestPeer(w1, q, p);
  }

  lemma SamePublisher<C, P>(w: World<C, P>, v: World<C, P>, p: P)
    requires p in w.peers && p in v.peers && v.caches == w.caches && v.peers[p].scache == w.peers[p].scache
    ensures PublisherOf(v, p) == PublisherOf(w, p)
  {
  }

  /** The fan-out feeds each listed player once, as it was, and nobody else. */
  lemma {:induction false} FeedPeer<C, P>(peers: map<P, Peer<C>>, players: seq<P>, media: Media, p: P)
    requires forall i :: 0 <= i < |players| ==> players[i] in peers
    requires forall i, j :: 0 <= i < j < |players| ==> players[i] != players[j]
    requires p in peers
    ensures FeedAll(peers, players, media)[p] == if p in players then FeedOne(peers[p], media) else peers[p]
    decreases |players|
  {
    hide FeedOne;
    if players != [] {
      var peers1 := peers[players[0] := FeedOne(peers[players[0]], media)];
      FeedPeer(peers1, players[1..], media, p);
      assert players == [players[0]] + players[1..];
      if p == players[0] {
        forall j | 0 <= j < |players[1..]|
          ensures players[1..][j] != p
        {
          assert players[1..][j] == players[j + 1];
        }
      }
    }
  }

  lemma MediaPeer<C, P>(w: World<C, P>, q: P, media: Media, p: P)
    requires Safe(w) && Grounded(w) && q in w.peers && p in w.peers
    ensures var v := StepMedia(w, q, media);
            p in v.peers && v.peers[p] == if Relays(w, q, p) then FeedOne(w.peers[p], media) else w.peers[p]
  {
    hide FeedAll, FeedOne, Routes, Distinct, Grounded;
    assert PeerOk(w, q) && PeerOk(w, p);
    if !w.peers[q].isPlayer {
      var players := PlayersOf(w, q);
      PlayersAreListeners(w, q, p);
      FeedPeer(w.peers, players, media, p);
    }
  }

  lemma PlayersAreListeners<C, P>(w: World<C, P>, q: P, p: P)
    requires Safe(w) && Grounded(w) && q in w.peers && p in w.peers && !w.peers[q].isPlayer
    ensures w.peers[q].scache.Some?
    ensures var players := PlayersOf(w, q);
            && (forall i, j :: 0 <= i < j < |players| ==> players[i] != players[j])
            && (p in players <==> Relays(w, q, p))
  {
  }

  // ----- deliveries -----

  /** Whether a run ends with a packet that is delivered to `p`: it is not dropped, and its source is by
      now bound to `p`. */
  ghost predicate Delivers<C, P>(events: seq<Event<C, P>>, p: P)
    requires events != []
  {
    var e := Last(events);
    && e.Receive?
    && !SortOf(e.bytes).Malformed?
    && (SortOf(e.bytes).Binding? ==> FirstWithUfrag(Init(events), SortOf(e.bytes).username).Some?)
    && FirstBinding(events, KeyOf(e.from)) == Some(p)
  }

  ghost function DeliveredTo<C, P>(events: seq<Event<C, P>>, p: P): seq<Inbound>
    decreases |events|
  {
    if events == [] then []
    else if Delivers(events, p)
    then DeliveredTo(Init(events), p) + [Inbound(KeyOf(Last(events).from), Last(events).bytes)]
    else DeliveredTo(Init(events), p)
  }

  /** The source of the latest delivery to `p`. */
  ghost function LastSource<C, P>(events: seq<Event<C, P>>, p: P): Option<Address>
    decreases |events|
  {
    if events == [] then None
    else if Delivers(events, p) then Some(Last(events).from)
    else LastSource(Init(events), p)
  }

  lemma TargetIsHistory<C, P>(events: seq<Event<C, P>>, w: World<C, P>, p: P)
    requires events != [] && After(events).Some? && Ends(events, w, After(events).value)
    ensures Delivers(events, p) <==>
              Last(events).Receive? && Target(w, Last(events).from, Last(events).bytes) == Some(p)
  {
    hide Safe, Step, Enabled, Grounded, AddrsAfter, FirstBinding, FirstWithUfrag, After, SortOf, KeyOf;
    var e := Last(events);
    if e.Receive? {
      BindingIsFirst(events, KeyOf(e.from));
      AddrsStep(w, e);
      if SortOf(e.bytes).Binding? {
        RegistrationIsFirst(Init(events), SortOf(e.bytes).username);
      }
    }
  }

  /** What a delivery or a step without one leaves in a peer. */
  lemma InboxStep<C, P>(w: World<C, P>, e: Event<C, P>, p: P)
    requires Safe(w) && Grounded(w) && Enabled(w, e) && p in w.peers
    ensures p in Step(w, e).peers
    ensures var peer, peer', d := w.peers[p], Step(w, e).peers[p], e.Receive? && Target(w, e.from, e.bytes) == Some(p);
            && peer'.hasPc == peer.hasPc
            && peer'.inbox == (if d && peer.hasPc then peer.inbox + [Inbound(KeyOf(e.from), e.bytes)] else peer.inbox)
            && (d ==> Destination(peer') == Some(e.from))
            && (!d ==> Destination(peer') == Destination(peer))
  {
    hide Safe, SortOf, Grounded, Step, Enabled, Target, ChoosePayload, KeyOf, IpText, ReadIp;
    StepPeer(w, e, p);
    if e.Receive? {
      ReadIpOfText(e.from.ip);
    }
  }

  /** A peer only exists once it is created; then nothing was delivered to it, and it has nowhere to
      send. */
  lemma NewcomerIsBlank<C, P>(w: World<C, P>, e: Event<C, P>, p: P)
    requires Safe(w) && Grounded(w) && Enabled(w, e) && p !in w.peers && p in Step(w, e).peers
    ensures (e.Publish? || e.Play?) && Creation(w, e) == Some(e.created) && e.created.peer == p
    ensures e.stream in Step(w, e).streams
    ensures Step(w, e).peers[p] == NewPeer(e.created, e.Play?).(scache := Some(Step(w, e).streams[e.stream]))
  {
    hide Safe, SortOf, Grounded, Step, Enabled, NewPeer;
    if e.Publish? || e.Play? {
      SignalStep(w, e);
    } else {
      OtherStep(w, e);
    }
  }

  lemma TargetKnown<C, P>(w: World<C, P>, e: Event<C, P>, p: P)
    requires Grounded(w) && e.Receive? && Target(w, e.from, e.bytes) == Some(p)
    ensures p in w.peers
  {
    hide SortOf, Grounded, Target, AddrsAfter, KeyOf;
    TargetExists(w, e.from, e.bytes);
  }

  /** A peer is handed exactly the packets delivered to it, in order, and it sends to the source of the
      latest one. */
  lemma {:induction false} DeliveriesInOrder<C, P>(events: seq<Event<C, P>>, p: P)
    requires After(events).Some?
    ensures var w := After(events).value;
            && (p in w.peers ==>
                  && w.peers[p].inbox == (if w.peers[p].hasPc then DeliveredTo(events, p) else [])
                  && Destination(w.peers[p]) == LastSource(events, p))
            && (p !in w.peers ==> DeliveredTo(events, p) == [] && LastSource(events, p).None?)
    decreases |events|
  {
    hide Safe, Step, Enabled, Grounded, Target, Delivers, Destination, KeyOf, NewPeer;
    if events != [] {
      var w := RunEnds(events);
      var e, v := Last(events), After(events).value;
      DeliveriesInOrder(Init(events), p);
      TargetIsHistory(events, w, p);
      if p in w.peers {
        InboxStep(w, e, p);
      } else {
        if e.Receive? && Target(w, e.from, e.bytes) == Some(p) {
          TargetKnown(w, e, p);
        }
        if p in v.peers {
          NewcomerIsBlank(w, e, p);
          BlankPeer<C, P>(e.created, e.Play?, v.streams[e.stream]);
        }
      }
    }
  }

  lemma BlankPeer<C, P>(created: Created<P>, isPlayer: bool, c: C)
    ensures var peer := NewPeer<C, P>(created, isPlayer).(scache := Some(c));
            peer.inbox == [] && Destination(peer).None? && peer.fed == []
  {
  }

  /** The address a peer sends to is one bound to that peer, and the peer has its sender. */
  lemma {:induction false} SendsToOwnAddress<C, P>(events: seq<Event<C, P>>, p: P, a: Address)
    requires After(events).Some? && p in After(events).value.peers
    requires Destination(After(events).value.peers[p]) == Some(a)
    ensures FirstBinding(events, KeyOf(a)) == Some(p)
    ensures After(events).value.peers[p].hasSender
    decreases |events|
  {
    hide Step, Enabled, Grounded, KeyOf, Destination, After, LastSource;
    DeliveriesInOrder(events, p);
    SourceIsBound(events, p);
    BindingIsFirst(events, KeyOf(a));
  }

  lemma {:induction false} SourceIsBound<C, P>(events: seq<Event<C, P>>, p: P)
    ensures LastSource(events, p).Some? ==> FirstBinding(events, KeyOf(LastSource(events, p).value)) == Some(p)
    decreases |events|
  {
    hide KeyOf, SortOf, FirstWithUfrag;
    if events != [] {
      SourceIsBound(Init(events), p);
    }
  }
}
