/** The server's objects: peers, stream caches, the three maps and the handlers that change them.

    `Snapshot` is the abstract world of module `Session` that the objects stand for, with the objects
    themselves as identities. Every handler is proved to take the step of that state machine. */
module Server {
  import opened Wrappers
  import opened Words
  import opened Message
  import opened Addresses
  import opened Session
  import opened Runs
  import opened Histories
  import opened Traces
  import opened Relay
  import opened KeyFrames
  import S = Stun

  ghost function CacheRef(c: StreamCache?): Option<StreamCache> {
    if c == null then None else var d: StreamCache := c; Some(d)
  }

  ghost function PeerRef(p: RtcPeer?): Option<RtcPeer> {
    if p == null then None else var q: RtcPeer := p; Some(q)
  }

  /** A publisher or a player. Its peer connection is foreign: what is handed to it is recorded. */
  class RtcPeer {
    const isPlayer: bool
    var hasPc: bool
    var hasSender: bool
    var ufrag: Text
    var scache: StreamCache?
    var state: Connection
    var broken: bool
    var videoSsrc: u32
    var audioSsrc: u32
    var videoPt: u32
    var audioPt: u32
    var remote: Option<Remote>
    var inbox: seq<Inbound>
    var fed: seq<Frame>
    var keyRequests: nat

    constructor (isPlayer: bool)
      ensures this.isPlayer == isPlayer
      ensures View() == Peer(isPlayer, false, false, [], None, New, false, 0, 0, 0, 0, None, [], [], 0)
    {
      this.isPlayer := isPlayer;
      hasPc, hasSender, ufrag, scache := false, false, [], null;
      state, broken := New, false;
      videoSsrc, audioSsrc, videoPt, audioPt := 0, 0, 0, 0;
      remote, inbox, fed, keyRequests := None, [], [], 0;
    }

    /** A peer that no event has created. */
    ghost constructor Nobody()
    {
      isPlayer := false;
    }

    /** What `CreateRtcPeer` does to a new peer. */
    method Initialize(setup: Setup) returns (registered: bool)
      requires View() == Peer(isPlayer, false, false, [], None, New, false, 0, 0, 0, 0, None, [], [], 0)
      modifies this
      ensures View() == NewPeer(CreatedAs(this, setup), isPlayer)
      ensures registered <==> Registers(CreatedAs(this, setup))
      ensures registered ==> ufrag == UfragOf(CreatedAs(this, setup))
      ensures registered <==> setup.hasPc && setup.offerUfrag.Some? && setup.answerUfrag.Some?
      ensures registered ==> ufrag == setup.answerUfrag.value + [58] + setup.offerUfrag.value
      ensures hasPc == setup.hasPc && hasSender == registered
      ensures setup.hasPc ==> videoSsrc == setup.videoSsrc && audioSsrc == setup.audioSsrc
    {
      if !setup.hasPc {
        return false;
      }
      hasPc := true;
      videoSsrc, audioSsrc := setup.videoSsrc, setup.audioSsrc;
      if setup.offerUfrag.None? || setup.answerUfrag.None? {
        return false;
      }
      hasSender := true;
      ufrag := setup.answerUfrag.value + [COLON] + setup.offerUfrag.value;
      return true;
    }

    method SetStreamCache(c: StreamCache)
      modifies this`scache
      ensures scache == c
      ensures View() == old(View()).(scache := Some(c))
    {
      scache := c;
    }

    ghost function View(): Peer<StreamCache>
      reads this
    {
      Peer(isPlayer, hasPc, hasSender, ufrag, CacheRef(scache), state, broken,
           videoSsrc, audioSsrc, videoPt, audioPt, remote, inbox, fed, keyRequests)
    }

    lemma ViewKnows()
      ensures View().isPlayer == isPlayer && View().hasPc == hasPc
    {
    }

    /** The second half of `OnRecvClientPkt`. */
    method Receive(from: Address, ip: Text, key: Text, bytes: seq<byte>)
      requires ip == IpText(from.ip) && key == KeyOf(from)
      modifies this`remote, this`inbox
      ensures View() == Deliver(old(View()), from, bytes)
    {
      hide IpText, KeyOf;
      remote := Some(Remote(ip, from.port));
      UdpSocketRecv(key, bytes);
    }

    /** `UdpSocketRecv`. */
    method UdpSocketRecv(key: Text, bytes: seq<byte>)
      modifies this`inbox
      ensures View() == old(View()).(inbox := if hasPc then old(inbox) + [Inbound(key, bytes)] else old(inbox))
    {
      if hasPc {
        inbox := inbox + [Inbound(key, bytes)];
      }
    }

    /** `SendPktToClient`: where the packet goes. */
    method SendPktToClient() returns (addr: Option<Address>)
      ensures addr == Destination(View())
      ensures forall ip, port :: remote == Some(Remote(IpText(ip), port)) ==> addr == Some(Address(ip, port))
    {
      hide IpText, ReadIp;
      ReadAnyIp();
      if remote.None? {
        return None;
      }
      var ip := ReadIp(remote.value.text);
      addr := if ip.Some? then Some(Address(ip.value, remote.value.port)) else None;
    }

    method RequestIFrame()
      requires hasPc
      modifies this`keyRequests
      ensures View() == old(View()).(keyRequests := old(View()).keyRequests + 1)
    {
      keyRequests := keyRequests + 1;
    }

    /** A player asks the publisher it reaches through its cache for a key frame. */
    method RequestFromPublisher(ghost server: RTCServer)
      requires LivePublisher(server.Snapshot(), this)
      modifies server.peers
      ensures server.SameTables()
      ensures server.Snapshot() == RequestKeyFrame(old(server.Snapshot()), this)
    {
      hide Grounded, Enabled, RTCServer.Snapshot, View, StreamCache.View;
      server.Views();
      ghost var w := server.Snapshot();
      server.PublisherAt(this);
      scache.publisher.RequestIFrame();
      server.SnapshotIs(w.caches, w.peers[scache.publisher := scache.publisher.View()]);
    }

    /** `OnRequestIFrame` of a publisher or a player. */
    method OnRequestIFrame(ghost server: RTCServer)
      requires server.Ready(KeyFrameWanted(this))
      modifies server.peers, server`history
      ensures server.SameTables() && server.Took(KeyFrameWanted(this))
    {
      hide Grounded, RequestKeyFrame, After, Safe, Enabled, Step, LivePublisher, RTCServer.Snapshot, View,
           StreamCache.View;
      ghost var w := server.Snapshot();
      server.ValidIsSafe();
      StepCases(w, KeyFrameWanted(this));
      ViewKnows();
      server.Views();
      if isPlayer {
        RequestFromPublisher(server);
      }
      server.Record(KeyFrameWanted(this), w);
    }

    /** The peer's own part of `OnConnectionChange`. */
    method SetState(newState: Connection)
      modifies this`state, this`broken
      ensures View() == old(View()).(state := newState, broken := old(broken) || (!isPlayer && Breaks(newState)))
      ensures View().isPlayer == isPlayer && View().hasPc == hasPc && old(View()).broken == old(broken)
    {
      state := newState;
      if !isPlayer && (newState == Disconnected || newState == Failed || newState == Connection.Closed) {
        broken := true;
      }
    }

    /** `OnConnectionChange` of a publisher or a player. */
    method OnConnectionChange(newState: Connection, ghost server: RTCServer)
      requires server.Ready(ConnectionChange(this, newState))
      modifies this, server.peers, server`history
      ensures server.SameTables() && server.Took(ConnectionChange(this, newState))
    {
      hide Grounded, After, Safe, Enabled, Step, StepConnection, LivePublisher, RTCServer.Snapshot, View,
           StreamCache.View;
      ghost var w := server.Snapshot();
      server.ValidIsSafe();
      StepCases(w, ConnectionChange(this, newState));
      ViewKnows();
      server.Views();
      ChangeState(newState, server);
      server.Record(ConnectionChange(this, newState), w);
    }

    method ChangeState(newState: Connection, ghost server: RTCServer)
      requires this in server.peers && (isPlayer && newState == Connected ==> LivePublisher(server.Snapshot(), this))
      modifies this, server.peers
      ensures server.SameTables()
      ensures this in old(server.Snapshot()).peers
      ensures server.Snapshot() == StepConnection(old(server.Snapshot()), this, newState)
    {
      hide RequestKeyFrame, PublisherOf, View, StreamCache.View, RTCServer.Snapshot;
      ghost var w := server.Snapshot();
      server.Views();
      SetState(newState);
      server.SnapshotIs(w.caches, w.peers[this := View()]);
      if isPlayer && newState == Connected {
        StillLive(w, server.Snapshot(), this);
        RequestFromPublisher(server);
      }
    }

    /** `FeedMediaData`. */
    method FeedMediaData(frame: Frame)
      requires hasPc
      modifies this`fed
      ensures View() == old(View()).(fed := old(View()).fed + [frame])
    {
      fed := fed + [frame];
    }

    /** One turn of the fan-out; a player that is not connected is passed over. */
    method Feed(media: Media, ssrc: u32, payloadType: u32) returns (ssrc': u32, payloadType': u32)
      requires media.kind == OtherMedia ==> ssrc == 0 && payloadType == 0
      requires state == Connected ==> hasPc
      modifies this`fed
      ensures View() == FeedOne(old(View()), media)
      ensures media.kind == OtherMedia ==> ssrc' == 0 && payloadType' == 0
    {
      ssrc', payloadType' := ssrc, payloadType;
      if state != Connected {
        return;
      }
      if media.kind == Video {
        ssrc', payloadType' := videoSsrc, videoPt;
      } else if media.kind == Audio {
        ssrc', payloadType' := audioSsrc, audioPt;
      }
      FeedMediaData(Frame(media, ssrc', payloadType'));
    }

    /** The same turn, as the server's snapshot shows it. */
    method FeedIn(media: Media, ssrc: u32, payloadType: u32, ghost server: RTCServer)
        returns (ssrc': u32, payloadType': u32)
      requires media.kind == OtherMedia ==> ssrc == 0 && payloadType == 0
      requires this in server.peers && (state == Connected ==> hasPc)
      modifies this`fed
      ensures media.kind == OtherMedia ==> ssrc' == 0 && payloadType' == 0
      ensures this in old(server.Snapshot()).peers
      ensures server.Snapshot() == old(server.Snapshot()).(
                peers := old(server.Snapshot()).peers[this := FeedOne(old(server.Snapshot()).peers[this], media)])
    {
      hide FeedOne, View, StreamCache.View, RTCServer.Snapshot;
      server.Views();
      ghost var w := server.Snapshot();
      ssrc', payloadType' := Feed(media, ssrc, payloadType);
      server.SnapshotIs(w.caches, w.peers[this := View()]);
    }

    /** `OnRecvMediaData`: a publisher's media is relayed. */
    method OnRecvMediaData(media: Media, ghost server: RTCServer)
      requires server.Ready(MediaIn(this, media))
      modifies server.peers, server`history
      ensures server.SameTables() && server.Took(MediaIn(this, media))
    {
      hide Grounded, Invariant, After, Safe, Enabled, Step, StepMedia, RTCServer.Snapshot, View, StreamCache.View;
      ghost var w := server.Snapshot();
      server.ValidIsSafe();
      StepCases(w, MediaIn(this, media));
      Relay(media, server);
      server.Record(MediaIn(this, media), w);
    }

    method Relay(media: Media, ghost server: RTCServer)
      requires this in server.Snapshot().peers && Grounded(server.Snapshot()) && Invariant(server.Snapshot())
      modifies server.peers
      ensures server.SameTables()
      ensures server.Snapshot() == StepMedia(old(server.Snapshot()), this, media)
    {
      hide Grounded, Invariant, FeedAll;
      server.Views();
      server.HasCache(this);
      if !isPlayer {
        scache.CacheMedia(media, server);
      }
    }

    /** `OnAddLocalVideoTrack`. */
    method OnAddLocalVideoTrack(ssrc: u32, codecs: seq<Codec>, ghost server: RTCServer)
      requires server.Ready(LocalTrack(this, Video, ssrc, codecs))
      modifies this`videoPt, this`videoSsrc, server`history
      ensures server.SameTables() && server.Took(LocalTrack(this, Video, ssrc, codecs))
    {
      hide StreamCache.View, RTCServer.Snapshot, View, WithTrack, After, Safe, Grounded, Enabled, Step;
      ghost var w := server.Snapshot();
      server.ValidIsSafe();
      StepCases(w, LocalTrack(this, Video, ssrc, codecs));
      server.Views();
      AddVideoTrack(ssrc, codecs);
      server.SnapshotIs(w.caches, w.peers[this := View()]);
      server.Record(LocalTrack(this, Video, ssrc, codecs), w);
    }

    method AddVideoTrack(ssrc: u32, codecs: seq<Codec>)
      modifies this`videoPt, this`videoSsrc
      ensures View() == WithTrack(old(View()), Video, ssrc, codecs)
    {
      var i := 0;
      while i < |codecs|
        invariant 0 <= i <= |codecs|
        invariant ChoosePayload(videoPt, codecs[i..]) == ChoosePayload(old(videoPt), codecs)
        invariant videoSsrc == old(videoSsrc)
      {
        if videoPt == 0 && codecs[i].wanted {
          videoPt := codecs[i].payloadType;
        }
        i := i + 1;
      }
      videoSsrc := ssrc;
    }

    /** `OnAddLocalAudioTrack`. */
    method OnAddLocalAudioTrack(ssrc: u32, codecs: seq<Codec>, ghost server: RTCServer)
      requires server.Ready(LocalTrack(this, Audio, ssrc, codecs))
      modifies this`audioPt, this`audioSsrc, server`history
      ensures server.SameTables() && server.Took(LocalTrack(this, Audio, ssrc, codecs))
    {
      hide StreamCache.View, RTCServer.Snapshot, View, WithTrack, After, Safe, Grounded, Enabled, Step;
      ghost var w := server.Snapshot();
      server.ValidIsSafe();
      StepCases(w, LocalTrack(this, Audio, ssrc, codecs));
      server.Views();
      AddAudioTrack(ssrc, codecs);
      server.SnapshotIs(w.caches, w.peers[this := View()]);
      server.Record(LocalTrack(this, Audio, ssrc, codecs), w);
    }

    method AddAudioTrack(ssrc: u32, codecs: seq<Codec>)
      modifies this`audioPt, this`audioSsrc
      ensures View() == WithTrack(old(View()), Audio, ssrc, codecs)
    {
      var i := 0;
      while i < |codecs|
        invariant 0 <= i <= |codecs|
        invariant ChoosePayload(audioPt, codecs[i..]) == ChoosePayload(old(audioPt), codecs)
        invariant audioSsrc == old(audioSsrc)
      {
        if audioPt == 0 && codecs[i].wanted {
          audioPt := codecs[i].payloadType;
        }
        i := i + 1;
      }
      audioSsrc := ssrc;
    }
  }

  class StreamCache {
    var canPublish: bool
    var publisher: RtcPeer?
    var players: seq<RtcPeer>

    constructor ()
      ensures View() == NewCache()
    {
      canPublish, publisher, players := true, null, [];
    }

    ghost function View(): Cache<RtcPeer>
      reads this
    {
      Cache(canPublish, PeerRef(publisher), players)
    }

    method SetPublisher(p: RtcPeer)
      modifies this
      ensures publisher == p
      ensures View() == old(View()).(canPublish := false, publisher := Some(p))
    {
      canPublish := false;
      publisher := p;
    }

    /** The fan-out: each connected player gets the media under its own ssrc and payload type. */
    method CacheMedia(media: Media, ghost server: RTCServer)
      requires server.Players(this)
      modifies server.peers
      ensures server.SameTables()
      ensures forall i :: 0 <= i < |players| ==> players[i] in old(server.Snapshot()).peers
      ensures server.Snapshot() ==
                old(server.Snapshot()).(peers := FeedAll(old(server.Snapshot()).peers, players, media))
    {
      hide FeedAll, FeedOne, FrameFor, RtcPeer.View, View, RTCServer.Snapshot;
      var ssrc, payloadType: u32 := 0, 0;
      var i := 0;
      ghost var w := server.Snapshot();
      server.Views();
      assert players[0..] == players;
      while i < |players|
        invariant 0 <= i <= |players| && server.Players(this) && server.SameTables()
        invariant server.Snapshot().peers.Keys == server.peers
        invariant media.kind == OtherMedia ==> ssrc == 0 && payloadType == 0
        invariant server.Snapshot() == w.(peers := server.Snapshot().peers)
        invariant FeedAll(server.Snapshot().peers, players[i..], media) == FeedAll(w.peers, players, media)
      {
        server.Views();
        ghost var v := server.Snapshot();
        FeedNext(v.peers, players[i..], media);
        assert players[i..][1..] == players[i + 1..] && players[i..][0] == players[i];
        ssrc, payloadType := players[i].FeedIn(media, ssrc, payloadType, server);
        i := i + 1;
      }
      FeedNone(server.Snapshot().peers, players[i..], media);
    }

    method AddPlayer(p: RtcPeer)
      modifies this
      ensures players == old(players) + [p]
      ensures View() == old(View()).(players := old(View()).players + [p])
    {
      players := players + [p];
    }
  }

  lemma ReadAnyIp()
    ensures forall ip :: ReadIp(IpText(ip)) == Some(ip)
  {
    forall ip ensures ReadIp(IpText(ip)) == Some(ip) {
      ReadIpOfText(ip);
    }
  }

  lemma FeedNext(views: map<RtcPeer, Peer<StreamCache>>, players: seq<RtcPeer>, media: Media)
    requires players != [] && forall i :: 0 <= i < |players| ==> players[i] in views
    ensures var views1 := views[players[0] := FeedOne(views[players[0]], media)];
            (forall i :: 0 <= i < |players[1..]| ==> players[1..][i] in views1)
            && FeedAll(views, players, media) == FeedAll(views1, players[1..], media)
  {
  }

  lemma FeedNone(views: map<RtcPeer, Peer<StreamCache>>, players: seq<RtcPeer>, media: Media)
    requires players == []
    ensures FeedAll(views, players, media) == views
  {
  }

  lemma StillLive(w: World<StreamCache, RtcPeer>, v: World<StreamCache, RtcPeer>, p: RtcPeer)
    requires LivePublisher(w, p) && p in w.peers
    requires v.caches == w.caches && v.peers.Keys == w.peers.Keys
    requires forall q :: q in w.peers ==> v.peers[q].hasPc == w.peers[q].hasPc && v.peers[q].scache == w.peers[q].scache
    ensures LivePublisher(v, p)
  {
  }

  /** What creating a peer connection gives: whether there is one, the random ssrcs and the ufrags found
      in offer and answer. */
  datatype Setup = Setup(hasPc: bool, videoSsrc: u32, audioSsrc: u32, offerUfrag: Option<Text>,
                         answerUfrag: Option<Text>)

  ghost function CreatedAs(peer: RtcPeer, s: Setup): Created<RtcPeer> {
    Created(peer, s.hasPc, s.videoSsrc, s.audioSsrc, s.offerUfrag, s.answerUfrag)
  }

  class RTCServer {
    var streams: map<Text, StreamCache>
    var ufrags: map<Text, RtcPeer>
    var addrs: map<Text, RtcPeer>
    ghost var caches: set<StreamCache>
    ghost var peers: set<RtcPeer>
    ghost var history: seq<Event<StreamCache, RtcPeer>>

    constructor ()
      ensures Valid() && history == [] && Snapshot() == Empty()
    {
      streams, ufrags, addrs, caches, peers, history := map[], map[], map[], {}, {}, [];
      new;
      SnapshotIs(map[], map[]);
    }

    ghost function Snapshot(): World<StreamCache, RtcPeer>
      reads this`streams, this`ufrags, this`addrs, this`caches, this`peers, caches, peers
    {
      World(streams, ufrags, addrs, map c | c in caches :: c.View(), map p | p in peers :: p.View())
    }

    /** The objects the snapshot shows. */
    lemma Views()
      ensures Snapshot() == World(streams, ufrags, addrs, Snapshot().caches, Snapshot().peers)
      ensures Shows(Snapshot().caches, Snapshot().peers)
    {
    }

    ghost predicate Shows(cs: map<StreamCache, Cache<RtcPeer>>, ps: map<RtcPeer, Peer<StreamCache>>)
      reads this, caches, peers
    {
      && cs.Keys == caches && ps.Keys == peers
      && (forall c :: c in caches ==> cs[c] == c.View())
      && (forall p :: p in peers ==> ps[p] == p.View())
    }

    /** The snapshot is known from what it shows. */
    lemma SnapshotIs(cs: map<StreamCache, Cache<RtcPeer>>, ps: map<RtcPeer, Peer<StreamCache>>)
      requires Shows(cs, ps)
      ensures Snapshot() == World(streams, ufrags, addrs, cs, ps)
    {
    }

    /** The objects are where the run of all events so far leads: every theorem about runs holds of them. */
    ghost predicate Valid()
      reads this, caches, peers
    {
      After(history) == Some(Snapshot())
    }

    ghost predicate Ready(e: Event<StreamCache, RtcPeer>)
      reads this, caches, peers
    {
      Valid() && Enabled(Snapshot(), e)
    }

    /** The server took exactly the step `e`, and the run goes on with it. */
    twostate predicate Took(new e: Event<StreamCache, RtcPeer>)
      reads this, caches, peers
    {
      && Grounded(old(Snapshot())) && Enabled(old(Snapshot()), e) && Snapshot() == Step(old(Snapshot()), e)
      && history == old(history) + [e] && Valid()
    }

    lemma ValidIsSafe()
      requires Valid()
      ensures Safe(Snapshot()) && Invariant(Snapshot()) && Grounded(Snapshot())
    {
      hide After, Invariant, Grounded;
      SafeIsGrounded(Snapshot());
    }

    /** Records the event that led from the world `w` to the present one. */
    ghost method Record(e: Event<StreamCache, RtcPeer>, w: World<StreamCache, RtcPeer>)
      requires After(history) == Some(w) && Grounded(w) && Enabled(w, e) && Snapshot() == Step(w, e)
      modifies this`history
      ensures history == old(history) + [e] && Valid()
    {
      hide After, Enabled, Step, Snapshot;
      RunGoesOn(history, e);
      history := history + [e];
    }

    lemma HasCache(p: RtcPeer)
      requires Invariant(Snapshot()) && p in Snapshot().peers
      ensures p.scache != null && p.scache in caches && Players(p.scache)
      ensures Snapshot().caches[p.scache].players == p.scache.players
    {
    }

    /** The players of a cache are known, and the connected ones have a peer connection. */
    ghost predicate Players(c: StreamCache)
      reads this, c, peers
    {
      forall i :: 0 <= i < |c.players| ==>
        c.players[i] in peers && (c.players[i].state == Connected ==> c.players[i].hasPc)
    }

    twostate predicate SameTables()
      reads this
    {
      streams == old(streams) && ufrags == old(ufrags) && addrs == old(addrs) && caches == old(caches)
          && peers == old(peers)
    }

    lemma PublisherAt(p: RtcPeer)
      requires LivePublisher(Snapshot(), p)
      ensures p.scache != null && p.scache in caches && p.scache.publisher != null && p.scache.publisher in peers
      ensures PublisherOf(Snapshot(), p) == Some(p.scache.publisher) && p.scache.publisher.hasPc
    {
    }

    // ----- signalling -----

    /** What creating a peer does to it and to the registrations: it is entered under the answer's ufrag, a
        colon and the offer's ufrag, if both are there and nobody has that pair yet. */
    ghost predicate Enters(before: map<Text, RtcPeer>, peer: RtcPeer, setup: Setup)
      reads this`ufrags, peer`hasPc, peer`hasSender, peer`videoSsrc, peer`audioSsrc, peer`ufrag
    {
      && peer.hasPc == setup.hasPc
      && peer.hasSender == (setup.hasPc && setup.offerUfrag.Some? && setup.answerUfrag.Some?)
      && (setup.hasPc ==> peer.videoSsrc == setup.videoSsrc && peer.audioSsrc == setup.audioSsrc)
      && if setup.hasPc && setup.offerUfrag.Some? && setup.answerUfrag.Some? then
           var u := setup.answerUfrag.value + [58] + setup.offerUfrag.value;
           peer.ufrag == u && ufrags == if u in before then before else before[u := peer]
         else
           ufrags == before
    }

    method GetOrCreateStreamCache(stream: Text) returns (c: StreamCache)
      requires Grounded(Snapshot())
      modifies this`streams, this`caches
      ensures peers == old(peers) && caches == old(caches) + {c} && (c in old(caches) || fresh(c))
      ensures stream in old(streams) || fresh(c)
      ensures Snapshot() == WithCache(old(Snapshot()), stream, c) && c == CacheOf(old(Snapshot()), stream, c)
      ensures stream !in old(streams) ==> c !in old(caches)
    {
      hide StreamCache.View, RtcPeer.View, Snapshot;
      Views();
      ghost var w := Snapshot();
      if stream in streams {
        assert w.streams[stream] in w.caches;
        return streams[stream];
      }
      c := new StreamCache();
      streams := streams[stream := c];
      caches := caches + {c};
      SnapshotIs(w.caches[c := c.View()], w.peers);
    }

    /** `CreateRtcPeer` for a new peer. */
    method CreateRtcPeer(peer: RtcPeer, setup: Setup) returns (ret: int)
      requires peer !in peers
      requires peer.View() == Peer(peer.isPlayer, false, false, [], None, New, false, 0, 0, 0, 0, None, [], [], 0)
      modifies this`ufrags, this`peers, peer
      ensures caches == old(caches) && peers == old(peers) + {peer}
      ensures Snapshot() == AddPeer(old(Snapshot()), CreatedAs(peer, setup), peer.isPlayer)
      ensures Enters(old(ufrags), peer, setup)
      ensures ret == if setup.hasPc && setup.offerUfrag.Some? && setup.answerUfrag.Some? then 0 else -1
    {
      hide StreamCache.View, RtcPeer.View, NewPeer, Snapshot, Registers, UfragOf;
      Views();
      ghost var w := Snapshot();
      var registered := peer.Initialize(setup);
      if registered && peer.ufrag !in ufrags {
        ufrags := ufrags[peer.ufrag := peer];
      }
      peers := peers + {peer};
      SnapshotIs(w.caches, w.peers[peer := peer.View()]);
      ret := if registered then 0 else -1;
    }

    method CreateRtcPublisher(setup: Setup) returns (peer: RtcPeer)
      modifies this`ufrags, this`peers
      ensures fresh(peer) && !peer.isPlayer && peers == old(peers) + {peer} && caches == old(caches)
      ensures Enters(old(ufrags), peer, setup)
      ensures Snapshot() == AddPeer(old(Snapshot()), CreatedAs(peer, setup), false)
    {
      hide Snapshot, Enters, AddPeer, Registers, UfragOf;
      Views();
      ghost var w := Snapshot();
      peer := new RtcPeer(false);
      SnapshotIs(w.caches, w.peers);
      var created := CreateRtcPeer(peer, setup);
    }

    method CreateRtcPlayer(setup: Setup) returns (peer: RtcPeer)
      modifies this`ufrags, this`peers
      ensures fresh(peer) && peer.isPlayer && peers == old(peers) + {peer} && caches == old(caches)
      ensures Enters(old(ufrags), peer, setup)
      ensures Snapshot() == AddPeer(old(Snapshot()), CreatedAs(peer, setup), true)
    {
      hide Snapshot, Enters, AddPeer, Registers, UfragOf;
      Views();
      ghost var w := Snapshot();
      peer := new RtcPeer(true);
      SnapshotIs(w.caches, w.peers);
      var created := CreateRtcPeer(peer, setup);
    }

    /** The end of `HandlePublish`. */
    method BecomePublisher(c: StreamCache, peer: RtcPeer)
      requires c in caches && peer in peers
      modifies c, peer`scache
      ensures peer.scache == c && c.publisher == peer
      ensures c in old(Snapshot()).caches && peer in old(Snapshot()).peers
      ensures Snapshot() == old(Snapshot()).(
                caches := old(Snapshot()).caches[
                            c := old(Snapshot()).caches[c].(canPublish := false, publisher := Some(peer))],
                peers := old(Snapshot()).peers[peer := old(Snapshot()).peers[peer].(scache := Some(c))])
    {
      hide Snapshot, RtcPeer.View, StreamCache.View;
      Views();
      ghost var w := Snapshot();
      c.SetPublisher(peer);
      peer.SetStreamCache(c);
      SnapshotIs(w.caches[c := c.View()], w.peers[peer := peer.View()]);
    }

    /** `HandlePublish`; `written` is what writing the response returns. */
    method HandlePublish(stream: Text, setup: Setup, written: int) returns (ret: int, c: StreamCache, peer: RtcPeer?)
      requires Valid()
      modifies this, caches
      ensures stream in old(streams) || fresh(c)
      ensures FirstPublish(old(history), stream).Some? <==> peer == null
      ensures ret == if peer == null then -15 else written
      ensures history != [] && Took(Last(history)) && Asked(Last(history), false, stream, c, setup, peer)
      ensures peer == null ==> Snapshot() == old(Snapshot())
      ensures peer != null ==>
                fresh(peer) && Enters(old(ufrags), peer, setup) && peer.scache == c && c.publisher == peer
      ensures peer == null ==> ufrags == old(ufrags)
    {
      hide Invariant, Grounded, Safe, After, Enabled, Step, WithCache, CacheOf, NewPeer, AddPeer, FirstPublish,
           StepPublish, CreatedAs, RtcPeer.View, Snapshot, Enters;
      ghost var w := Snapshot();
      Views();
      ValidIsSafe();
      c := GetOrCreateStreamCache(stream);
      Views();
      CacheFound(history, w, stream, c);
      if !c.canPublish {
        RefusePublish(stream, c, setup, w);
        return -15, c, null;
      }
      peer := AdmitPublisher(stream, c, setup, w);
      ret := written;
    }

    /** The rest of `HandlePublish`, past the check. */
    method AdmitPublisher(stream: Text, c: StreamCache, setup: Setup, ghost w: World<StreamCache, RtcPeer>)
        returns (peer: RtcPeer)
      requires After(history) == Some(w) && Grounded(w)
      requires c == CacheOf(w, stream, c) && c in WithCache(w, stream, c).caches
      requires WithCache(w, stream, c).caches[c].canPublish
      requires (stream in w.streams || c !in w.caches) && c in caches
      requires w.peers.Keys == peers && Snapshot() == WithCache(w, stream, c)
      modifies this`ufrags, this`peers, this`history, c
      ensures fresh(peer) && history != [] && history == old(history) + [Last(history)] && Valid()
      ensures Enters(old(ufrags), peer, setup) && peer.scache == c
      ensures Asked(Last(history), false, stream, c, setup, peer) && c.publisher == peer
      ensures Enabled(w, Last(history)) && Snapshot() == Step(w, Last(history))
    {
      hide Grounded, After, Enabled, Step, WithCache, CacheOf, NewPeer, AddPeer, StepPublish, Snapshot, Enters,
           RtcPeer.View, StreamCache.View;
      peer := CreateRtcPublisher(setup);
      BecomePublisher(c, peer);
      ghost var e: Event<StreamCache, RtcPeer> := Publish(stream, c, CreatedAs(peer, setup));
      PublishParts(w, stream, c, CreatedAs(peer, setup));
      RequestCases(w, e, peer, setup);
      Record(e, w);
    }

    ghost method RefusePublish(stream: Text, c: StreamCache, setup: Setup, w: World<StreamCache, RtcPeer>)
      requires After(history) == Some(w) && Grounded(w)
      requires c == CacheOf(w, stream, c) && c in WithCache(w, stream, c).caches
      requires !WithCache(w, stream, c).caches[c].canPublish
      requires stream in w.streams || c !in w.caches
      requires w.peers.Keys == peers && Snapshot() == WithCache(w, stream, c)
      modifies this`history
      ensures history != [] && history == old(history) + [Last(history)] && Valid()
      ensures Asked(Last(history), false, stream, c, setup, null)
      ensures Enabled(w, Last(history)) && Snapshot() == Step(w, Last(history))
    {
      hide Grounded, After, Enabled, Step, WithCache, CacheOf, StepPublish, CreatedAs, Snapshot;
      ghost var nobody := new RtcPeer.Nobody();
      ghost var e: Event<StreamCache, RtcPeer> := Publish(stream, c, CreatedAs(nobody, setup));
      PublishRefused(w, stream, c, CreatedAs(nobody, setup));
      RequestCases(w, e, nobody, setup);
      Record(e, w);
    }

    /** The end of `HandlePlay`. */
    method BecomePlayer(c: StreamCache, peer: RtcPeer)
      requires c in caches && peer in peers
      modifies c, peer`scache
      ensures peer.scache == c && peer in c.players
      ensures c in old(Snapshot()).caches && peer in old(Snapshot()).peers
      ensures Snapshot() == old(Snapshot()).(
                caches := old(Snapshot()).caches[
                            c := old(Snapshot()).caches[c].(players := old(Snapshot()).caches[c].players + [peer])],
                peers := old(Snapshot()).peers[peer := old(Snapshot()).peers[peer].(scache := Some(c))])
    {
      hide Snapshot, RtcPeer.View, StreamCache.View;
      Views();
      ghost var w := Snapshot();
      c.AddPlayer(peer);
      peer.SetStreamCache(c);
      SnapshotIs(w.caches[c := c.View()], w.peers[peer := peer.View()]);
    }

    /** `HandlePlay`. */
    method HandlePlay(stream: Text, setup: Setup, written: int) returns (ret: int, c: StreamCache, peer: RtcPeer?)
      requires Valid()
      modifies this, caches
      ensures stream in old(streams) || fresh(c)
      ensures FirstPublish(old(history), stream).Some? <==> peer != null
      ensures ret == if peer == null then -15 else 0
      ensures history != [] && Took(Last(history)) && Asked(Last(history), true, stream, c, setup, peer)
      ensures peer != null ==> fresh(peer) && Enters(old(ufrags), peer, setup) && peer.scache == c && peer in c.players
      ensures peer == null ==> ufrags == old(ufrags)
    {
      hide Invariant, Grounded, Safe, After, Enabled, Step, WithCache, CacheOf, NewPeer, AddPeer, FirstPublish,
           StepPlay, CreatedAs, RtcPeer.View, Snapshot, Enters;
      ghost var w := Snapshot();
      Views();
      ValidIsSafe();
      c := GetOrCreateStreamCache(stream);
      Views();
      CacheFound(history, w, stream, c);
      if c.canPublish {
        RefusePlay(stream, c, setup, w);
        return -15, c, null;
      }
      peer := AdmitPlayer(stream, c, setup, w);
      ret := 0;
    }

    /** The rest of `HandlePlay`, past the check. */
    method AdmitPlayer(stream: Text, c: StreamCache, setup: Setup, ghost w: World<StreamCache, RtcPeer>)
        returns (peer: RtcPeer)
      requires After(history) == Some(w) && Grounded(w)
      requires c == CacheOf(w, stream, c) && c in WithCache(w, stream, c).caches
      requires !WithCache(w, stream, c).caches[c].canPublish
      requires (stream in w.streams || c !in w.caches) && c in caches
      requires w.peers.Keys == peers && Snapshot() == WithCache(w, stream, c)
      modifies this`ufrags, this`peers, this`history, c
      ensures fresh(peer) && history != [] && history == old(history) + [Last(history)] && Valid()
      ensures Enters(old(ufrags), peer, setup) && peer.scache == c
      ensures Asked(Last(history), true, stream, c, setup, peer) && peer in c.players
      ensures Enabled(w, Last(history)) && Snapshot() == Step(w, Last(history))
    {
      hide Grounded, After, Enabled, Step, WithCache, CacheOf, NewPeer, AddPeer, StepPlay, Snapshot, Enters,
           RtcPeer.View, StreamCache.View;
      peer := CreateRtcPlayer(setup);
      BecomePlayer(c, peer);
      ghost var e: Event<StreamCache, RtcPeer> := Play(stream, c, CreatedAs(peer, setup));
      PlayParts(w, stream, c, CreatedAs(peer, setup));
      RequestCases(w, e, peer, setup);
      Record(e, w);
    }

    ghost method RefusePlay(stream: Text, c: StreamCache, setup: Setup, w: World<StreamCache, RtcPeer>)
      requires After(history) == Some(w) && Grounded(w)
      requires c == CacheOf(w, stream, c) && c in WithCache(w, stream, c).caches
      requires WithCache(w, stream, c).caches[c].canPublish
      requires stream in w.streams || c !in w.caches
      requires w.peers.Keys == peers && Snapshot() == WithCache(w, stream, c)
      modifies this`history
      ensures history != [] && history == old(history) + [Last(history)] && Valid()
      ensures Asked(Last(history), true, stream, c, setup, null)
      ensures Enabled(w, Last(history)) && Snapshot() == Step(w, Last(history))
    {
      hide Grounded, After, Enabled, Step, WithCache, CacheOf, StepPlay, CreatedAs, Snapshot;
      ghost var nobody := new RtcPeer.Nobody();
      ghost var e: Event<StreamCache, RtcPeer> := Play(stream, c, CreatedAs(nobody, setup));
      PlayRefused(w, stream, c, CreatedAs(nobody, setup));
      RequestCases(w, e, nobody, setup);
      Record(e, w);
    }

    // ----- packets -----

    /** The first half of `OnRecvClientPkt`: what a packet binds, and whether it is dropped. */
    method Bind(buf: array<byte>, len: nat, key: Text, ghost addr: Address) returns (dropped: bool)
      requires len <= buf.Length && len <= 2048 && key == KeyOf(addr)
      modifies this`addrs
      ensures dropped <==> Dropped(old(Snapshot()), buf[..len])
      ensures addrs == AddrsAfter(old(Snapshot()), addr, buf[..len])
    {
      hide SortOf, KeyOf, Parsed, IsStun, RtcPeer.View, StreamCache.View;
      SortOfParsed(buf[..len]);
      if IsStun(buf[..len]) {
        var stun := S.Stun.Parse(buf, len);
        if stun == null {
          return true;
        }
        if stun.klass == Request && stun.methodCode == BINDING {
          if stun.username !in ufrags {
            return true;
          }
          if key !in addrs {
            addrs := addrs[key := ufrags[stun.username]];
          }
        }
      }
      return false;
    }

    /** `OnRecvClientPkt`. */
    method OnRecvClientPkt(buf: array<byte>, len: nat, addr: Address)
      requires len <= buf.Length && len <= 2048 && Valid()
      modifies this`addrs, this`history, peers
      ensures peers == old(peers) && caches == old(caches)
      ensures Took(Event.Receive(addr, buf[..len]))
    {
      hide Grounded, Safe, After, Enabled, Step, StepReceive, Snapshot;
      ValidIsSafe();
      ghost var w := Snapshot();
      ghost var e: Event<StreamCache, RtcPeer> := Event.Receive(addr, buf[..len]);
      StepCases(w, e);
      Route(buf, len, addr);
      Record(e, w);
    }

    method Route(buf: array<byte>, len: nat, addr: Address)
      requires len <= buf.Length && len <= 2048 && Grounded(Snapshot())
      modifies this`addrs, peers
      ensures peers == old(peers) && caches == old(caches)
      ensures Snapshot() == StepReceive(old(Snapshot()), addr, buf[..len])
    {
      hide SortOf, KeyOf, IpText, RtcPeer.View, StreamCache.View, Snapshot, AddrsAfter, Dropped, Grounded;
      Views();
      ghost var w := Snapshot();
      TargetExists(w, addr, buf[..len]);
      var ip := IpText(addr.ip);
      var key := KeyOf(addr);
      var dropped := Bind(buf, len, key, addr);
      if dropped || key !in addrs {
        SnapshotIs(w.caches, w.peers);
        return;
      }
      var peer := addrs[key];
      peer.Receive(addr, ip, key, buf[..len]);
      SnapshotIs(w.caches, w.peers[peer := peer.View()]);
    }

    // ----- the objects after any run -----

    /** A peer object was fed exactly the frames relayed to it, handed exactly the packets delivered to it,
        sends to the source of the latest one, is in the state it was last told, and was asked for as many
        key frames as its players wanted. */
    lemma PeerAfterRun(p: RtcPeer)
      requires Valid() && p in peers
      ensures p.fed == RelayedTo(history, p)
      ensures p.inbox == if p.hasPc then DeliveredTo(history, p) else []
      ensures Destination(p.View()) == LastSource(history, p)
      ensures p.state == StateOf(history, p) && (p.broken <==> Broke(history, p))
      ensures p.keyRequests == RequestsTo(history, p)
    {
      hide After, RelayedTo, DeliveredTo, LastSource, Destination, Snapshot, StateOf, Broke, RequestsTo;
      Views();
      FramesAreRelayed(history, p);
      CountersAreHistory(history, p);
      DeliveriesInOrder(history, p);
    }

    /** The publisher of a stream's cache object is the peer of the first request to publish the stream. */
    lemma PublisherAfterRun(stream: Text)
      requires Valid() && stream in streams
      ensures streams[stream] in caches
      ensures PeerRef(streams[stream].publisher) == PeerOf(FirstPublish(history, stream))
    {
      hide After, FirstPublish, Snapshot;
      Views();
      ValidIsSafe();
      PublisherIsFirst(history, stream);
    }
  }

  lemma PublishParts(w: World<StreamCache, RtcPeer>, stream: Text, c: StreamCache, created: Created<RtcPeer>)
    requires Grounded(w) && c == CacheOf(w, stream, c) && c in WithCache(w, stream, c).caches
    requires WithCache(w, stream, c).caches[c].canPublish
    ensures var v := AddPeer(WithCache(w, stream, c), created, false);
            && c in v.caches && created.peer in v.peers
            && StepPublish(w, stream, c, created) ==
                 v.(caches := v.caches[c := v.caches[c].(canPublish := false, publisher := Some(created.peer))],
                    peers := v.peers[created.peer := v.peers[created.peer].(scache := Some(c))])
  {
  }

  lemma PlayParts(w: World<StreamCache, RtcPeer>, stream: Text, c: StreamCache, created: Created<RtcPeer>)
    requires Grounded(w) && c == CacheOf(w, stream, c) && c in WithCache(w, stream, c).caches
    requires !WithCache(w, stream, c).caches[c].canPublish
    ensures var v := AddPeer(WithCache(w, stream, c), created, true);
            && c in v.caches && created.peer in v.peers
            && StepPlay(w, stream, c, created) ==
                 v.(caches := v.caches[c := v.caches[c].(players := v.caches[c].players + [created.peer])],
                    peers := v.peers[created.peer := v.peers[created.peer].(scache := Some(c))])
  {
  }

  /** A request to publish or play a stream, refused if `peer` is null. */
  ghost predicate Asked(e: Event<StreamCache, RtcPeer>, isPlayer: bool, stream: Text, c: StreamCache, setup: Setup,
                        peer: RtcPeer?) {
    && (if isPlayer then e.Play? else e.Publish?)
    && e.stream == stream && e.cache == c
    && (peer != null ==> e.created == CreatedAs(peer, setup))
  }

  lemma RequestCases(w: World<StreamCache, RtcPeer>, e: Event<StreamCache, RtcPeer>, peer: RtcPeer, setup: Setup)
    requires Grounded(w) && (e.Publish? || e.Play?) && e.created == CreatedAs(peer, setup)
    requires (e.stream in w.streams || e.cache !in w.caches) && peer !in w.peers
    ensures Enabled(w, e)
    ensures Step(w, e) == if e.Publish? then StepPublish(w, e.stream, e.cache, e.created)
                          else StepPlay(w, e.stream, e.cache, e.created)
  {
    hide Grounded, StepPublish, StepPlay;
  }

  lemma PublishRefused(w: World<StreamCache, RtcPeer>, stream: Text, c: StreamCache, created: Created<RtcPeer>)
    requires Grounded(w) && c == CacheOf(w, stream, c) && c in WithCache(w, stream, c).caches
    requires !WithCache(w, stream, c).caches[c].canPublish
    ensures StepPublish(w, stream, c, created) == WithCache(w, stream, c)
  {
    hide WithCache, CacheOf;
  }

  lemma PlayRefused(w: World<StreamCache, RtcPeer>, stream: Text, c: StreamCache, created: Created<RtcPeer>)
    requires Grounded(w) && c == CacheOf(w, stream, c) && c in WithCache(w, stream, c).caches
    requires WithCache(w, stream, c).caches[c].canPublish
    ensures StepPlay(w, stream, c, created) == WithCache(w, stream, c)
  {
    hide WithCache, CacheOf;
  }

  /** The cache of a stream can be published iff nobody asked to publish the stream yet. */
  lemma CacheFound(events: seq<Event<StreamCache, RtcPeer>>, w: World<StreamCache, RtcPeer>, stream: Text,
                   c: StreamCache)
    requires After(events) == Some(w) && Grounded(w)
    requires c == CacheOf(w, stream, c) && (stream in w.streams || c !in w.caches)
    ensures var v := WithCache(w, stream, c);
            && c in v.caches && (v.caches[c].canPublish <==> FirstPublish(events, stream).None?)
            && (FirstPublish(events, stream).Some? ==> v == w)
  {
    hide After, FirstPublish, Grounded, Invariant;
    PublisherIsFirst(events, stream);
    CacheOfStream(w, stream, c);
  }
}
