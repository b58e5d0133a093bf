/** The server's sessions as a state machine: signalling, packet routing and media relay.

    Each handler is one atomic step and callbacks of a peer connection run between steps. Caches and
    peers are named by identities `C` and `P`; the heap objects of module `Server` are their own. */
module Session {
  import opened Wrappers
  import opened Words
  import opened Message
  import opened Addresses

  datatype Connection = New | Connecting | Connected | Disconnected | Failed | Closed
  datatype MediaKind = Video | Audio | OtherMedia
  datatype Media = Media(kind: MediaKind, data: seq<byte>, timestamp: u64, rotation: u32, audioLength: u32)
  datatype Frame = Frame(media: Media, ssrc: u32, payloadType: u32)

  /** An entry of a track's codec map; `wanted` says it is H264 (video) or Opus (audio). */
  datatype Codec = Codec(payloadType: u32, wanted: bool)

  datatype Remote = Remote(text: Text, port: u16)
  datatype Inbound = Inbound(key: Text, bytes: seq<byte>)

  datatype Peer<C> = Peer(
    isPlayer: bool, hasPc: bool, hasSender: bool, ufrag: Text, scache: Option<C>,
    state: Connection, broken: bool,
    videoSsrc: u32, audioSsrc: u32, videoPt: u32, audioPt: u32,
    remote: Option<Remote>,
    inbox: seq<Inbound>,      // packets handed to the peer connection
    fed: seq<Frame>,          // frames handed to the peer connection
    keyRequests: nat)         // key frames asked of the peer connection

  datatype Cache<P> = Cache(canPublish: bool, publisher: Option<P>, players: seq<P>)

  datatype World<C, P> = World(
    streams: map<Text, C>, ufrags: map<Text, P>, addrs: map<Text, P>,
    caches: map<C, Cache<P>>, peers: map<P, Peer<C>>)

  /** What `CreateRtcPeer` gets from outside: the new object, whether a peer connection was created,
      the random ssrcs, and the ufrag of offer and answer where the SDP has one. */
  datatype Created<P> = Created(peer: P, hasPc: bool, videoSsrc: u32, audioSsrc: u32, offerUfrag: Option<Text>,
                                answerUfrag: Option<Text>)

  datatype Event<C, P> =
    | Publish(stream: Text, cache: C, created: Created<P>)
    | Play(stream: Text, cache: C, created: Created<P>)
    | Receive(from: Address, bytes: seq<byte>)
    | ConnectionChange(peer: P, state: Connection)
    | KeyFrameWanted(peer: P)
    | LocalTrack(peer: P, kind: MediaKind, ssrc: u32, codecs: seq<Codec>)
    | MediaIn(peer: P, media: Media)

  // ----- signalling -----

  function NewCache<P>(): Cache<P> {
    Cache(true, None, [])
  }

  /** `GetOrCreateStreamCache`: the cache of a stream, the given new one if it has none yet. */
  function CacheOf<C(==), P>(w: World<C, P>, stream: Text, newCache: C): C {
    if stream in w.streams then w.streams[stream] else newCache
  }

  function WithCache<C(==), P>(w: World<C, P>, stream: Text, newCache: C): World<C, P> {
    if stream in w.streams then w
    else w.(streams := w.streams[stream := newCache], caches := w.caches[newCache := NewCache()])
  }

  /** The peer as `CreateRtcPeer` leaves it. */
  function NewPeer<C, P>(created: Created<P>, isPlayer: bool): Peer<C> {
    var registered := Registers(created);
    Peer(isPlayer, created.hasPc, registered, if registered then UfragOf(created) else [], None, New, false,
         if created.hasPc then created.videoSsrc else 0, if created.hasPc then created.audioSsrc else 0, 0, 0,
         None, [], [], 0)
  }

  predicate Registers<P>(created: Created<P>) {
    created.hasPc && created.offerUfrag.Some? && created.answerUfrag.Some?
  }

  /** `lufrag + ":" + ufrag`. */
  function UfragOf<P>(created: Created<P>): Text
    requires Registers(created)
  {
    created.answerUfrag.value + [COLON] + created.offerUfrag.value
  }

  /** `map::emplace`: an existing entry stays. */
  function Emplace<K, V>(m: map<K, V>, k: K, v: V): map<K, V> {
    if k in m then m else m[k := v]
  }

  function AddPeer<C, P(==)>(w: World<C, P>, created: Created<P>, isPlayer: bool): World<C, P> {
    w.(peers := w.peers[created.peer := NewPeer(created, isPlayer)],
       ufrags := if Registers(created) then Emplace(w.ufrags, UfragOf(created), created.peer) else w.ufrags)
  }

  /** `SetStreamCache`. */
  function Attach<C, P(==)>(w: World<C, P>, p: P, c: C): World<C, P>
    requires p in w.peers
  {
    w.(peers := w.peers[p := w.peers[p].(scache := Some(c))])
  }

  /** `HandlePublish`. */
  function StepPublish<C(==), P(==)>(w: World<C, P>, stream: Text, newCache: C, created: Created<P>): World<C, P>
    requires Grounded(w)
  {
    var c, w1 := CacheOf(w, stream, newCache), WithCache(w, stream, newCache);
    if !w1.caches[c].canPublish then w1
    else
      var w2 := AddPeer(w1, created, false);
      Attach(w2.(caches := w2.caches[c := w2.caches[c].(canPublish := false, publisher := Some(created.peer))]),
             created.peer, c)
  }

  /** `HandlePlay`. */
  function StepPlay<C(==), P(==)>(w: World<C, P>, stream: Text, newCache: C, created: Created<P>): World<C, P>
    requires Grounded(w)
  {
    var c, w1 := CacheOf(w, stream, newCache), WithCache(w, stream, newCache);
    if w1.caches[c].canPublish then w1
    else
      var w2 := AddPeer(w1, created, true);
      Attach(w2.(caches := w2.caches[c := w2.caches[c].(players := w2.caches[c].players + [created.peer])]),
             created.peer, c)
  }

  // ----- packets -----

  /** How `OnRecvClientPkt` sees a packet. */
  datatype Sort = NotBinding | Malformed | Binding(username: seq<byte>)

  function SortOf(bytes: seq<byte>): Sort {
    if !IsStun(bytes) then NotBinding
    else match Parsed(bytes)
      case None => Malformed
      case Some(p) => if p.klass == Request && p.methodCode == BINDING then Binding(p.username) else NotBinding
  }

  lemma SortOfParsed(bytes: seq<byte>)
    ensures !IsStun(bytes) ==> SortOf(bytes) == NotBinding
    ensures IsStun(bytes) && Parsed(bytes).None? ==> SortOf(bytes) == Malformed
    ensures IsStun(bytes) && Parsed(bytes).Some? ==>
              var p := Parsed(bytes).value;
              SortOf(bytes) == if p.klass == Request && p.methodCode == BINDING then Binding(p.username) else NotBinding
  {
  }

  /** A packet that binds its source address, if the address is not bound yet: a Binding request under
      a registered username. */
  predicate Binds<C, P>(w: World<C, P>, bytes: seq<byte>) {
    SortOf(bytes).Binding? && SortOf(bytes).username in w.ufrags
  }

  /** A packet `OnRecvClientPkt` gives up on before it looks for the address. */
  predicate Dropped<C, P>(w: World<C, P>, bytes: seq<byte>) {
    SortOf(bytes).Malformed? || (SortOf(bytes).Binding? && !Binds(w, bytes))
  }

  function AddrsAfter<C, P>(w: World<C, P>, from: Address, bytes: seq<byte>): map<Text, P> {
    if Binds(w, bytes) then Emplace(w.addrs, KeyOf(from), w.ufrags[SortOf(bytes).username]) else w.addrs
  }

  /** The peer a packet is delivered to. */
  function Target<C, P>(w: World<C, P>, from: Address, bytes: seq<byte>): Option<P> {
    var addrs := AddrsAfter(w, from, bytes);
    if Dropped(w, bytes) || KeyOf(from) !in addrs then None else Some(addrs[KeyOf(from)])
  }

  /** Delivery: the peer's remote address becomes the source, and its peer connection gets the bytes. */
  function Deliver<C>(peer: Peer<C>, from: Address, bytes: seq<byte>): Peer<C> {
    peer.(remote := Some(Remote(IpText(from.ip), from.port)),
          inbox := if peer.hasPc then peer.inbox + [Inbound(KeyOf(from), bytes)] else peer.inbox)
  }

  /** `OnRecvClientPkt`. */
  function StepReceive<C, P(==)>(w: World<C, P>, from: Address, bytes: seq<byte>): World<C, P>
    requires Grounded(w)
  {
    match Target(w, from, bytes)
    case None => w.(addrs := AddrsAfter(w, from, bytes))
    case Some(p) =>
      w.(addrs := AddrsAfter(w, from, bytes), peers := w.peers[p := Deliver(w.peers[p], from, bytes)])
  }

  /** Where `SendPktToClient` sends: the remote address, read back from its text. */
  function Destination<C>(peer: Peer<C>): Option<Address> {
    match peer.remote
    case None => None
    case Some(r) =>
      match ReadIp(r.text)
      case None => None
      case Some(ip) => Some(Address(ip, r.port))
  }

  // ----- callbacks -----

  /** The publisher a player's callbacks reach through its cache. */
  function PublisherOf<C, P>(w: World<C, P>, p: P): Option<P> {
    if p in w.peers && w.peers[p].scache.Some? && w.peers[p].scache.value in w.caches
    then w.caches[w.peers[p].scache.value].publisher else None
  }

  function RequestKeyFrame<C, P(==)>(w: World<C, P>, p: P): World<C, P>
    requires p in w.peers
  {
    match PublisherOf(w, p)
    case Some(q) =>
      if q in w.peers then w.(peers := w.peers[q := w.peers[q].(keyRequests := w.peers[q].keyRequests + 1)]) else w
    case None => w
  }

  predicate Breaks(state: Connection) {
    state == Disconnected || state == Failed || state == Connection.Closed
  }

  /** `RtcPeer::OnConnectionChange` for a publisher, `RtcPlayer::OnConnectionChange` for a player. */
  function StepConnection<C, P(==)>(w: World<C, P>, p: P, state: Connection): World<C, P>
    requires p in w.peers
  {
    var peer := w.peers[p];
    var broken := peer.broken || (!peer.isPlayer && Breaks(state));
    var w1 := w.(peers := w.peers[p := peer.(state := state, broken := broken)]);
    if peer.isPlayer && state == Connected then RequestKeyFrame(w1, p) else w1
  }

  /** The payload type chosen from a track's codec map, in key order: the first wanted one, while none
      is chosen yet. */
  function ChoosePayload(current: u32, codecs: seq<Codec>): u32
    decreases |codecs|
  {
    if codecs == [] then current
    else ChoosePayload(if current == 0 && codecs[0].wanted then codecs[0].payloadType else current, codecs[1..])
  }

  /** `OnAddLocalVideoTrack` and `OnAddLocalAudioTrack`. */
  function WithTrack<C>(peer: Peer<C>, kind: MediaKind, ssrc: u32, codecs: seq<Codec>): Peer<C> {
    match kind
    case Video => peer.(videoPt := ChoosePayload(peer.videoPt, codecs), videoSsrc := ssrc)
    case Audio => peer.(audioPt := ChoosePayload(peer.audioPt, codecs), audioSsrc := ssrc)
    case OtherMedia => peer
  }

  // ----- media -----

  /** The frame a player gets for incoming media: its own ssrc and payload type for the media kind. */
  function FrameFor<C>(peer: Peer<C>, media: Media): Frame {
    match media.kind
    case Video => Frame(media, peer.videoSsrc, peer.videoPt)
    case Audio => Frame(media, peer.audioSsrc, peer.audioPt)
    case OtherMedia => Frame(media, 0, 0)
  }

  function FeedOne<C>(peer: Peer<C>, media: Media): Peer<C> {
    if peer.state == Connected then peer.(fed := peer.fed + [FrameFor(peer, media)]) else peer
  }

  /** The fan-out loop of `CacheMedia`. */
  function FeedAll<C, P(==)>(peers: map<P, Peer<C>>, players: seq<P>, media: Media): (r: map<P, Peer<C>>)
    requires forall i :: 0 <= i < |players| ==> players[i] in peers
    ensures r.Keys == peers.Keys
    decreases |players|
  {
    if players == [] then peers
    else FeedAll(peers[players[0] := FeedOne(peers[players[0]], media)], players[1..], media)
  }

  /** `RtcPublisher::OnRecvMediaData`; media received by a player is not relayed. */
  function StepMedia<C, P(==)>(w: World<C, P>, p: P, media: Media): World<C, P>
    requires Grounded(w) && p in w.peers
  {
    if w.peers[p].isPlayer || w.peers[p].scache.None? then w
    else w.(peers := FeedAll(w.peers, w.caches[w.peers[p].scache.value].players, media))
  }

  // ----- runs -----

  /** Every identity a map or object refers to exists. */
  ghost predicate Grounded<C, P>(w: World<C, P>) {
    && (forall s :: s in w.streams ==> w.streams[s] in w.caches)
    && (forall u :: u in w.ufrags ==> w.ufrags[u] in w.peers)
    && (forall k :: k in w.addrs ==> w.addrs[k] in w.peers)
    && (forall c :: c in w.caches ==> w.caches[c].publisher.Some? ==> w.caches[c].publisher.value in w.peers)
    && (forall c, i :: c in w.caches && 0 <= i < |w.caches[c].players| ==> w.caches[c].players[i] in w.peers)
    && (forall p :: p in w.peers && w.peers[p].scache.Some? ==> w.peers[p].scache.value in w.caches)
  }

  /** Handlers get new objects; callbacks come from an existing peer with a peer connection. A key
      frame request that reaches a publisher calls its peer connection, so there must be one. */
  ghost predicate Enabled<C, P>(w: World<C, P>, e: Event<C, P>) {
    match e
    case Publish(s, c, created) => (s in w.streams || c !in w.caches) && created.peer !in w.peers
    case Play(s, c, created) => (s in w.streams || c !in w.caches) && created.peer !in w.peers
    case Receive(_, _) => true
    case ConnectionChange(p, s) =>
      p in w.peers && w.peers[p].hasPc && (w.peers[p].isPlayer && s == Connected ==> LivePublisher(w, p))
    case KeyFrameWanted(p) => p in w.peers && w.peers[p].hasPc && (w.peers[p].isPlayer ==> LivePublisher(w, p))
    case LocalTrack(p, _, _, _) => p in w.peers && w.peers[p].hasPc
    case MediaIn(p, _) => p in w.peers && w.peers[p].hasPc
  }

  ghost predicate LivePublisher<C, P>(w: World<C, P>, p: P) {
    var q := PublisherOf(w, p);
    q.Some? && q.value in w.peers && w.peers[q.value].hasPc
  }

  ghost function Step<C, P>(w: World<C, P>, e: Event<C, P>): World<C, P>
    requires Grounded(w) && Enabled(w, e)
  {
    match e
    case Publish(stream, c, created) => StepPublish(w, stream, c, created)
    case Play(stream, c, created) => StepPlay(w, stream, c, created)
    case Receive(from, bytes) => StepReceive(w, from, bytes)
    case ConnectionChange(p, s) => StepConnection(w, p, s)
    case KeyFrameWanted(p) => if w.peers[p].isPlayer then RequestKeyFrame(w, p) else w
    case LocalTrack(p, kind, ssrc, codecs) => w.(peers := w.peers[p := WithTrack(w.peers[p], kind, ssrc, codecs)])
    case MediaIn(p, media) => StepMedia(w, p, media)
  }

  /** What it takes for each event to happen, and the step it takes. */
  lemma StepCases<C, P>(w: World<C, P>, e: Event<C, P>)
    requires Grounded(w)
    ensures e.Receive? ==> Enabled(w, e) && Step(w, e) == StepReceive(w, e.from, e.bytes)
    ensures (e.ConnectionChange? || e.KeyFrameWanted? || e.LocalTrack? || e.MediaIn?) && Enabled(w, e) ==>
              e.peer in w.peers && w.peers[e.peer].hasPc
    ensures e.ConnectionChange? && Enabled(w, e) ==>
              && Step(w, e) == StepConnection(w, e.peer, e.state)
              && (w.peers[e.peer].isPlayer && e.state == Connected ==> LivePublisher(w, e.peer))
    ensures e.KeyFrameWanted? && Enabled(w, e) ==>
              && Step(w, e) == (if w.peers[e.peer].isPlayer then RequestKeyFrame(w, e.peer) else w)
              && (w.peers[e.peer].isPlayer ==> LivePublisher(w, e.peer))
    ensures e.LocalTrack? && Enabled(w, e) ==>
              Step(w, e) == w.(peers := w.peers[e.peer := WithTrack(w.peers[e.peer], e.kind, e.ssrc, e.codecs)])
    ensures e.MediaIn? && Enabled(w, e) ==> Step(w, e) == StepMedia(w, e.peer, e.media)
  {
    hide Grounded, StepReceive, StepConnection, StepMedia, RequestKeyFrame, WithTrack, LivePublisher;
  }
}
