/** The relay: which frames a player gets, told from the events of a run alone. */
module Relay {
  import opened Wrappers
  import opened Words
  import opened Addresses
  import opened Session
  import opened Histories
  import opened Traces

  datatype Track = Track(ssrc: u32, payloadType: u32)

  /** A player, as its own events make it. */
  datatype Listener = Listener(stream: Text, connected: bool, video: Track, audio: Track)

  ghost function NewListener<P>(stream: Text, created: Created<P>): Listener {
    Listener(stream, false,
             Track(if created.hasPc then created.videoSsrc else 0, 0),
             Track(if created.hasPc then created.audioSsrc else 0, 0))
  }

  ghost function Retrack(track: Track, ssrc: u32, codecs: seq<Codec>): Track {
    Track(ssrc, ChoosePayload(track.payloadType, codecs))
  }

  /** What an event makes of the player `p`, so far `r`, if it is one. */
  ghost function Heard<C, P>(e: Event<C, P>, p: P, r: Option<Listener>): Option<Listener> {
    match e
    case ConnectionChange(q, s) =>
      if q == p && r.Some? then Some(r.value.(connected := s == Connected)) else r
    case LocalTrack(q, kind, ssrc, codecs) =>
      if q != p || r.None? then r
      else if kind == Video then Some(r.value.(video := Retrack(r.value.video, ssrc, codecs)))
      else if kind == Audio then Some(r.value.(audio := Retrack(r.value.audio, ssrc, codecs)))
      else r
    case _ => r
  }

  ghost function ListenerOf<C, P>(events: seq<Event<C, P>>, p: P): Option<Listener>
    decreases |events|
  {
    if events == [] then None
    else
      var r := ListenerOf(Init(events), p);
      var e := Last(events);
      if e.Play? && e.created.peer == p && Creates(Init(events), e).Some? then Some(NewListener(e.stream, e.created))
      else Heard(e, p, r)
  }

  /** Whether `p` is a connected player of the stream that `q` publishes. */
  ghost predicate Hears<C, P>(events: seq<Event<C, P>>, q: P, p: P) {
    var l := ListenerOf(events, p);
    l.Some? && l.value.connected && PeerOf(FirstPublish(events, l.value.stream)) == Some(q)
  }

  /** The frame a listener gets: the media itself, under its own ssrc and payload type. */
  ghost function FrameOf(l: Listener, media: Media): Frame {
    match media.kind
    case Video => Frame(media, l.video.ssrc, l.video.payloadType)
    case Audio => Frame(media, l.audio.ssrc, l.audio.payloadType)
    case OtherMedia => Frame(media, 0, 0)
  }

  ghost function RelayedTo<C, P>(events: seq<Event<C, P>>, p: P): seq<Frame>
    decreases |events|
  {
    if events == [] then []
    else
      var e := Last(events);
      if e.MediaIn? && Hears(Init(events), e.peer, p)
      then RelayedTo(Init(events), p) + [FrameOf(ListenerOf(Init(events), p).value, e.media)]
      else RelayedTo(Init(events), p)
  }

  // ----- listeners -----

  /** The player `p` is the listener `l`. */
  ghost predicate Is<C, P>(w: World<C, P>, p: P, l: Listener) {
    && p in w.peers && l.stream in w.streams && w.peers[p].scache == Some(w.streams[l.stream])
    && IsPlayer(w.peers[p], l)
  }

  ghost predicate IsPlayer<C>(peer: Peer<C>, l: Listener) {
    && peer.isPlayer && (l.connected <==> peer.state == Connected)
    && l.video == Track(peer.videoSsrc, peer.videoPt) && l.audio == Track(peer.audioSsrc, peer.audioPt)
  }

  ghost predicate Described<C, P>(w: World<C, P>, p: P, l: Option<Listener>) {
    && (l.None? ==> p !in w.peers || !w.peers[p].isPlayer)
    && (l.Some? ==> Is(w, p, l.value))
  }

  /** The listeners are exactly the players. */
  lemma {:induction false} ListenersArePlayers<C, P>(events: seq<Event<C, P>>, p: P)
    requires After(events).Some?
    ensures Described(After(events).value, p, ListenerOf(events, p))
    decreases |events|
  {
    hide Safe, Step, Grounded, Is, Creates, Creation, NewPeer, NewListener, Retrack, LivePublisher;
    if events != [] {
      var w := RunEnds(events);
      var e, v := Last(events), After(events).value;
      ListenersArePlayers(Init(events), p);
      CreationIsHistory(Init(events), w, e);
      if p in w.peers {
        ListenerStep(w, e, p, ListenerOf(Init(events), p), ListenerOf(events, p));
      } else {
        NoListener(w, p, ListenerOf(Init(events), p));
        NewListenerStep(w, e, p, ListenerOf(events, p));
      }
    }
  }

  lemma NoListener<C, P>(w: World<C, P>, p: P, l: Option<Listener>)
    requires Described(w, p, l) && p !in w.peers
    ensures l.None?
  {
  }

  lemma ListenerStep<C, P>(w: World<C, P>, e: Event<C, P>, p: P, r: Option<Listener>, l: Option<Listener>)
    requires Safe(w) && Grounded(w) && Enabled(w, e) && p in w.peers
    requires Described(w, p, r) && l == Heard(e, p, r)
    ensures Described(Step(w, e), p, l)
  {
    hide Safe, Grounded, Step, KeyOf, IpText, SortOf, Target, ChoosePayload, LivePublisher, Relays;
    StepPeer(w, e, p);
    StreamsStay(w, e);
  }

  lemma StreamsStay<C, P>(w: World<C, P>, e: Event<C, P>)
    requires Safe(w) && Grounded(w) && Enabled(w, e)
    ensures forall s :: s in w.streams ==> s in Step(w, e).streams && Step(w, e).streams[s] == w.streams[s]
  {
    hide Safe, Grounded, Step, Enabled, PublisherOfStream;
    GrowingStep(w, e);
  }

  lemma NewListenerStep<C, P>(w: World<C, P>, e: Event<C, P>, p: P, l: Option<Listener>)
    requires Safe(w) && Grounded(w) && Enabled(w, e) && p !in w.peers
    requires l == if e.Play? && e.created.peer == p && Creation(w, e).Some?
                  then Some(NewListener(e.stream, e.created)) else None
    ensures Described(Step(w, e), p, l)
  {
    hide Safe, Grounded, Step, Enabled, SortOf, Registers, UfragOf;
    if p in Step(w, e).peers {
      NewcomerIsBlank(w, e, p);
    }
    if l.Some? {
      SignalStep(w, e);
    }
  }

  // ----- the relay -----

  /** The publisher a listener hears is the one whose media is relayed to it. */
  lemma HearsWhatIsRelayed<C, P>(events: seq<Event<C, P>>, w: World<C, P>, q: P, p: P)
    requires After(events) == Some(w) && Grounded(w) && q in w.peers && p in w.peers
    ensures Hears(events, q, p) <==> Relays(w, q, p) && w.peers[p].state == Connected
  {
    hide After, ListenerOf, Step, Grounded;
    var l := ListenerOf(events, p);
    ListenersArePlayers(events, p);
    if l.Some? {
      PublisherIsFirst(events, l.value.stream);
      PublisherIsUnique(w, q, p);
    }
  }

  lemma PublisherIsUnique<C, P>(w: World<C, P>, q: P, p: P)
    requires Safe(w) && Grounded(w) && q in w.peers && p in w.peers && w.peers[p].isPlayer
    ensures w.peers[p].scache.Some? && w.peers[p].scache.value in w.caches
    ensures w.caches[w.peers[p].scache.value].publisher == Some(q) <==> Relays(w, q, p)
    ensures w.caches[w.peers[p].scache.value].publisher.Some?
  {
  }

  lemma FedStep<C, P>(w: World<C, P>, e: Event<C, P>, p: P)
    requires Safe(w) && Grounded(w) && Enabled(w, e) && p in w.peers
    ensures p in Step(w, e).peers
    ensures Step(w, e).peers[p].fed == w.peers[p].fed +
              if e.MediaIn? && Relays(w, e.peer, p) && w.peers[p].state == Connected
              then [FrameFor(w.peers[p], e.media)] else []
  {
    hide Safe, Grounded, Step, KeyOf, IpText, SortOf, Target, ChoosePayload, LivePublisher, Relays, FrameFor;
    StepPeer(w, e, p);
  }

  lemma NotHeard<C, P>(events: seq<Event<C, P>>, q: P, p: P)
    requires After(events).Some? && p !in After(events).value.peers
    ensures !Hears(events, q, p)
  {
    hide After, ListenerOf, Step, Grounded, Safe;
    ListenersArePlayers(events, p);
  }

  lemma FrameOfPlayer<C>(peer: Peer<C>, l: Listener, media: Media)
    requires IsPlayer(peer, l)
    ensures FrameFor(peer, media) == FrameOf(l, media)
  {
  }

  /** The frames fed to a player are exactly, in order and once each, the media its stream's publisher
      received while it was a connected player of that stream, each under the ssrc and payload type the
      player had then for the kind of media. */
  lemma {:induction false} FramesAreRelayed<C, P>(events: seq<Event<C, P>>, p: P)
    requires After(events).Some?
    ensures var w := After(events).value;
            && (p in w.peers ==> w.peers[p].fed == RelayedTo(events, p))
            && (p !in w.peers ==> RelayedTo(events, p) == [])
    decreases |events|
  {
    hide Safe, Step, Grounded, NewPeer, ListenerOf, Hears, IsPlayer, LivePublisher, Relays, FrameOf, FrameFor;
    if events != [] {
      var w := RunEnds(events);
      var e, v := Last(events), After(events).value;
      FramesAreRelayed(Init(events), p);
      ListenersArePlayers(Init(events), p);
      if p in w.peers {
        FedStep(w, e, p);
        if e.MediaIn? {
          HearsWhatIsRelayed(Init(events), w, e.peer, p);
          if Hears(Init(events), e.peer, p) {
            RelayedFrame(Init(events), w, e.peer, p, e.media);
          }
        }
      } else {
        if e.MediaIn? {
          NotHeard(Init(events), e.peer, p);
        }
        if p in v.peers {
          NewcomerIsBlank(w, e, p);
          BlankPeer<C, P>(e.created, e.Play?, v.streams[e.stream]);
        }
      }
    }
  }

  lemma RelayedFrame<C, P>(events: seq<Event<C, P>>, w: World<C, P>, q: P, p: P, media: Media)
    requires After(events) == Some(w) && p in w.peers && Hears(events, q, p)
    ensures FrameFor(w.peers[p], media) == FrameOf(ListenerOf(events, p).value, media)
  {
    hide After, ListenerOf, IsPlayer, FrameOf, FrameFor, Safe;
    ListenersArePlayers(events, p);
    FrameOfPlayer(w.peers[p], ListenerOf(events, p).value, media);
  }

  /** A player's callbacks always find a publisher, the first one of its stream; it can be asked for a
      key frame iff it got a peer connection when it was created. */
  lemma CallbacksFindPublisher<C, P>(events: seq<Event<C, P>>, p: P)
    requires After(events).Some? && p in After(events).value.peers && After(events).value.peers[p].isPlayer
    ensures var w, l := After(events).value, ListenerOf(events, p);
            && l.Some? && FirstPublish(events, l.value.stream).Some?
            && PublisherOf(w, p) == PeerOf(FirstPublish(events, l.value.stream))
            && (LivePublisher(w, p) <==> FirstPublish(events, l.value.stream).value.hasPc)
  {
    hide After, ListenerOf, Grounded, IsPlayer, FirstPublish;
    var w, l := After(events).value, ListenerOf(events, p);
    ListenersArePlayers(events, p);
    SafeIsGrounded(w);
    PublisherIsFirst(events, l.value.stream);
    PublisherIsUnique(w, p, p);
  }

  // ----- a run that relays -----

  /** A request that creates a peer can be the next event when its objects are new. */
  lemma RequestRuns<C, P>(events: seq<Event<C, P>>, e: Event<C, P>)
    requires After(events).Some? && (e.Publish? || e.Play?) && Creates(events, e).Some?
    requires e.stream in After(events).value.streams || e.cache !in After(events).value.caches
    requires e.created.peer !in After(events).value.peers
    ensures After(events + [e]).Some?
    ensures var w, v := After(events).value, After(events + [e]).value;
            && e.stream in v.streams && v.peers.Keys == w.peers.Keys + {e.created.peer}
            && (forall p :: p in w.peers ==> v.peers[p] == w.peers[p])
            && v.peers[e.created.peer] == NewPeer(e.created, e.Play?).(scache := Some(v.streams[e.stream]))
  {
    hide After, Step, Safe, Grounded, NewPeer, Creates;
    RunGoesOn(events, e);
    var w := After(events).value;
    CreationIsHistory(events, w, e);
    SignalStep(w, e);
  }

  lemma {:induction false} NothingRelayed<C, P>(events: seq<Event<C, P>>, p: P)
    requires forall i :: 0 <= i < |events| ==> !events[i].MediaIn?
    ensures RelayedTo(events, p) == []
    decreases |events|
  {
    if events != [] {
      NothingRelayed(Init(events), p);
    }
  }

  /** What the four events of `MediaReachesPlayer` say to the history functions. */
  lemma HistoryOfRelay<C, P>(publish: Event<C, P>, play: Event<C, P>, connect: Event<C, P>, media: Event<C, P>)
    requires publish.Publish? && play.Play? && play.stream == publish.stream
    requires connect == ConnectionChange(play.created.peer, Connected) && media.MediaIn?
             && media.peer == publish.created.peer
    ensures Creates([], publish) == Some(publish.created)
    ensures Creates([publish], play) == Some(play.created)
    ensures var l := NewListener(play.stream, play.created);
            && ListenerOf([publish, play], play.created.peer) == Some(l)
            && FirstPublish([publish, play], l.stream) == Some(publish.created)
            && RelayedTo([publish, play, connect, media], play.created.peer) == [FrameOf(l, media.media)]
  {
    var one, two, three, four := [publish], [publish, play], [publish, play, connect], [publish, play, connect, media];
    assert Init(one) == [] && Last(one) == publish;
    assert Init(two) == one && Last(two) == play;
    assert Init(three) == two && Last(three) == connect;
    assert Init(four) == three && Last(four) == media;
    var p := play.created.peer;
    NothingRelayed(one, p);
    NothingRelayed(two, p);
    NothingRelayed(three, p);
  }

  /** Runs exist, and they relay: with a publisher and a player that have peer connections, any media
      reaches the player once it is connected. */
  lemma MediaReachesPlayer<C, P>(stream: Text, c: C, a: Created<P>, b: Created<P>, media: Media)
    requires a.peer != b.peer && a.hasPc && b.hasPc
    ensures var run := [Publish(stream, c, a), Play(stream, c, b), ConnectionChange(b.peer, Connected),
                        MediaIn(a.peer, media)];
            && After(run).Some? && b.peer in After(run).value.peers
            && After(run).value.peers[b.peer].fed == [FrameOf(NewListener(stream, b), media)]
  {
    hide After, Creates, FirstPublish, ListenerOf, RelayedTo, Step, Safe, Grounded, FrameOf, NewListener,
         LivePublisher;
    var publish, play: Event<C, P> := Publish(stream, c, a), Play(stream, c, b);
    var connect, input: Event<C, P> := ConnectionChange(b.peer, Connected), MediaIn(a.peer, media);
    HistoryOfRelay(publish, play, connect, input);
    NothingYet<C, P>();
    assert [] + [publish] == [publish] && [publish] + [play] == [publish, play];
    RequestRuns([], publish);
    RequestRuns([publish], play);
    assert [publish, play] + [connect] == [publish, play, connect];
    assert [publish, play, connect] + [input] == [publish, play, connect, input];
    CallbacksFindPublisher([publish, play], b.peer);
    NewPeersHavePc<C, P>(a, false, c);
    NewPeersHavePc<C, P>(b, true, c);
    RunGoesOn([publish, play], connect);
    StaysThere([publish, play], connect, a.peer);
    StaysThere([publish, play], connect, b.peer);
    RunGoesOn([publish, play, connect], input);
    StaysThere([publish, play, connect], input, b.peer);
    FramesAreRelayed([publish, play, connect, input], b.peer);
  }

  /** A publisher created without a peer connection is published all the same; then a player's
      connection cannot be handled, for it asks that publisher for a key frame. */
  lemma ConnectionNeedsPublisher<C, P>(stream: Text, c: C, a: Created<P>, b: Created<P>)
    requires a.peer != b.peer && !a.hasPc && b.hasPc
    ensures var run := [Publish(stream, c, a), Play(stream, c, b)];
            && After(run).Some? && b.peer in After(run).value.peers && After(run).value.peers[b.peer].hasPc
            && !Enabled(After(run).value, ConnectionChange(b.peer, Connected))
  {
    hide After, Creates, FirstPublish, ListenerOf, RelayedTo, Step, Safe, Grounded, FrameOf, NewListener,
         LivePublisher;
    var publish, play: Event<C, P> := Publish(stream, c, a), Play(stream, c, b);
    HistoryOfRelay(publish, play, ConnectionChange(b.peer, Connected),
                   MediaIn(a.peer, Media(Video, [], 0, 0, 0)));
    NothingYet<C, P>();
    assert [] + [publish] == [publish] && [publish] + [play] == [publish, play];
    RequestRuns([], publish);
    RequestRuns([publish], play);
    CallbacksFindPublisher([publish, play], b.peer);
    NewPeersHavePc<C, P>(b, true, c);
  }

  lemma NothingYet<C, P>()
    ensures var start: World<C, P> := Empty(); After<C, P>([]) == Some(start)
  {
  }

  lemma NewPeersHavePc<C, P>(created: Created<P>, isPlayer: bool, c: C)
    requires created.hasPc
    ensures var peer: Peer<C> := NewPeer(created, isPlayer); peer.hasPc && peer.isPlayer == isPlayer
  {
  }

  lemma StaysThere<C, P>(events: seq<Event<C, P>>, e: Event<C, P>, p: P)
    requires After(events).Some? && After(events + [e]).Some? && p in After(events).value.peers
    ensures p in After(events + [e]).value.peers
    ensures After(events + [e]).value.peers[p].hasPc == After(events).value.peers[p].hasPc
  {
    hide After, Step, Safe, Grounded, Enabled;
    assert Init(events + [e]) == events && Last(events + [e]) == e;
    var w := RunEnds(events + [e]);
    PublisherStep(w, e, []);
  }

  /** The payload type a player gets from a track: the one it has, if any; else the first wanted one that
      is not zero. */
  lemma {:induction false} FirstWantedIsChosen(current: u32, codecs: seq<Codec>)
    ensures var r := ChoosePayload(current, codecs);
            && (current != 0 ==> r == current)
            && (current == 0 && r == 0 ==>
                  forall i :: 0 <= i < |codecs| && codecs[i].wanted ==> codecs[i].payloadType == 0)
            && (current == 0 && r != 0 ==>
                  exists i :: 0 <= i < |codecs| && codecs[i].wanted && codecs[i].payloadType == r
                              && forall j :: 0 <= j < i && codecs[j].wanted ==> codecs[j].payloadType == 0)
    decreases |codecs|
  {
    if codecs != [] {
      var next := if current == 0 && codecs[0].wanted then codecs[0].payloadType else current;
      FirstWantedIsChosen(next, codecs[1..]);
      var r := ChoosePayload(current, codecs);
      if current == 0 && r == 0 {
        forall i | 0 <= i < |codecs| && codecs[i].wanted
          ensures codecs[i].payloadType == 0
        {
          assert i > 0 ==> codecs[i] == codecs[1..][i - 1];
        }
      } else if current == 0 && r != 0 {
        var i := FirstWanted(codecs, next, r);
      }
    }
  }

  lemma FirstWanted(codecs: seq<Codec>, next: u32, r: u32) returns (i: nat)
    requires codecs != [] && r != 0
    requires next == if codecs[0].wanted then codecs[0].payloadType else 0
    requires next != 0 ==> r == next
    requires next == 0 ==>
               exists k :: 0 <= k < |codecs[1..]| && codecs[1..][k].wanted && codecs[1..][k].payloadType == r
                           && forall j :: 0 <= j < k && codecs[1..][j].wanted ==> codecs[1..][j].payloadType == 0
    ensures i < |codecs| && codecs[i].wanted && codecs[i].payloadType == r
    ensures forall j :: 0 <= j < i && codecs[j].wanted ==> codecs[j].payloadType == 0
  {
    if next != 0 {
      i := 0;
    } else {
      var k :| 0 <= k < |codecs[1..]| && codecs[1..][k].wanted && codecs[1..][k].payloadType == r
               && forall j :: 0 <= j < k && codecs[1..][j].wanted ==> codecs[1..][j].payloadType == 0;
      i := k + 1;
      forall j | 0 <= j < i && codecs[j].wanted
        ensures codecs[j].payloadType == 0
      {
        assert j > 0 ==> codecs[j] == codecs[1..][j - 1];
      }
    }
  }
}
