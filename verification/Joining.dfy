/** How a client joins: the Binding request that the message engine writes is the one that binds its
    address to the peer. */
module Joining {
  import opened Wrappers
  import opened Words
  import opened Bytes
  import opened Message
  import opened Encoding
  import opened RoundTrip
  import opened Addresses
  import opened Session
  import opened Standard
  import opened Histories
  import opened Traces

  /** A written Binding request is seen as one, with its username. */
  lemma RequestIsBinding(request: Packet, pad: seq<byte>, hmac: Hmac)
    requires Fits(request) && |pad| == PadLen(|request.username|)
    requires request.klass == Request && request.methodCode == BINDING
    ensures SortOf(Wire(request, pad, hmac)) == Binding(request.username)
  {
    hide Wire, Resume, IsStun, BodySize, Fits;
    BindingRoundTrip(request, pad, hmac);
  }

  /** Which packets are Binding requests: the accepted ones of type 0001. Malformed ones start like a
      message but are not accepted. */
  lemma SortMeans(bytes: seq<byte>)
    ensures SortOf(bytes).Binding? <==> Parsed(bytes).Some? && |bytes| >= 2 && bytes[0] == 0 && bytes[1] == 1
    ensures SortOf(bytes).Binding? ==> SortOf(bytes).username == Parsed(bytes).value.username
    ensures SortOf(bytes).Malformed? <==>
              && Parsed(bytes).None?
              && |bytes| >= 20 && bytes[0] < 3
              && bytes[4] == 0x21 && bytes[5] == 0x12 && bytes[6] == 0xA4 && bytes[7] == 0x42
  {
    hide Parsed, Tiles, ValueFields, FlagFields, Inside, HeaderFields, Legal;
    SortOfParsed(bytes);
    if Parsed(bytes).Some? {
      var p := Parsed(bytes).value;
      AcceptedIff(bytes);
      var items :| Tiles(bytes, items, 20) && Legal(bytes, items);
      FieldsAre(bytes, items, p);
      TypeOne(bytes, p);
    }
  }

  lemma TypeOne(m: seq<byte>, p: Packet)
    requires |m| >= 20 && m[0] < 3 && HeaderFields(m, p)
    ensures p.klass == Request && p.methodCode == BINDING <==> m[0] == 0 && m[1] == 1
  {
  }

  /** In any run, a written Binding request under the ufrag pair of a registered peer is delivered: to
      that peer if it comes from an unbound address, which it binds, else to the peer it is bound to. */
  lemma BindingRequestIsDelivered<C, P>(events: seq<Event<C, P>>, p: P, from: Address,
                                        request: Packet, pad: seq<byte>, hmac: Hmac)
    requires After(events).Some? && FirstWithUfrag(events, request.username) == Some(p)
    requires Fits(request) && |pad| == PadLen(|request.username|)
    requires request.klass == Request && request.methodCode == BINDING
    ensures var bytes := Wire(request, pad, hmac);
            var bound := FirstBinding(events, KeyOf(from));
            var q := if bound.Some? then bound.value else p;
            var run := events + [Receive(from, bytes)];
            && After(run).Some? && q in After(run).value.peers
            && FirstBinding(run, KeyOf(from)) == Some(q)
            && DeliveredTo(run, q) == DeliveredTo(events, q) + [Inbound(KeyOf(from), bytes)]
            && Destination(After(run).value.peers[q]) == Some(from)
  {
    hide After, Step, Safe, Grounded, SortOf, KeyOf, FirstWithUfrag, Wire, Fits, Destination;
    var bytes := Wire(request, pad, hmac);
    RequestIsBinding(request, pad, hmac);
    var e: Event<C, P> := Receive(from, bytes);
    var run := events + [e];
    RunGoesOn(events, e);
    assert Init(run) == events && Last(run) == e;
    var bound := FirstBinding(events, KeyOf(from));
    var q := if bound.Some? then bound.value else p;
    assert Delivers(run, q);
    DeliveriesInOrder(run, q);
  }

  // ----- registration -----

  /** Whether an event creates a peer: a publisher for a stream nobody asked to publish before, or a
      player for a stream somebody did. */
  ghost predicate CreatesPeer<C, P>(events: seq<Event<C, P>>, e: Event<C, P>) {
    (e.Publish? && FirstPublish(events, e.stream).None?) || (e.Play? && FirstPublish(events, e.stream).Some?)
  }

  /** The registrations after any event: a created peer with a peer connection, whose offer and answer
      both had a ufrag, is entered under the answer's ufrag, a colon and the offer's ufrag, unless
      somebody already is; nothing else changes. */
  lemma RegistrationsAre<C, P>(events: seq<Event<C, P>>, e: Event<C, P>)
    requires After(events).Some? && After(events + [e]).Some?
    ensures var before, after := After(events).value.ufrags, After(events + [e]).value.ufrags;
            if CreatesPeer(events, e) && e.created.hasPc
               && e.created.offerUfrag.Some? && e.created.answerUfrag.Some? then
              var u := e.created.answerUfrag.value + [58] + e.created.offerUfrag.value;
              after == if u in before then before else before[u := e.created.peer]
            else
              after == before
  {
    hide After, Step, Safe, Grounded, Enabled, FirstPublish;
    var run := events + [e];
    assert Init(run) == events && Last(run) == e;
    var w := RunEnds(run);
    CreationIsHistory(events, w, e);
    UfragsStep(w, e);
  }

  /** Whoever joins gets through: in a run whose last event creates a peer with offer ufrag `o` and answer
      ufrag `l`, not registered before, a Binding request under `l:o` from an unbound address binds it and
      is delivered to that peer. */
  lemma NewPeerIsReached<C, P>(events: seq<Event<C, P>>, e: Event<C, P>, o: Text, l: Text, from: Address,
                               request: Packet, pad: seq<byte>, hmac: Hmac)
    requires After(events).Some? && After(events + [e]).Some? && CreatesPeer(events, e)
    requires e.created.hasPc && e.created.offerUfrag == Some(o) && e.created.answerUfrag == Some(l)
    requires l + [58] + o !in After(events).value.ufrags
    requires Fits(request) && |pad| == PadLen(|request.username|)
    requires request.klass == Request && request.methodCode == BINDING && request.username == l + [58] + o
    requires FirstBinding(events + [e], KeyOf(from)).None?
    ensures var bytes := Wire(request, pad, hmac);
            var run := events + [e] + [Receive(from, bytes)];
            && After(run).Some? && e.created.peer in After(run).value.peers
            && FirstBinding(run, KeyOf(from)) == Some(e.created.peer)
            && DeliveredTo(run, e.created.peer)
               == DeliveredTo(events + [e], e.created.peer) + [Inbound(KeyOf(from), bytes)]
            && Destination(After(run).value.peers[e.created.peer]) == Some(from)
  {
    hide After, FirstBinding, FirstWithUfrag, DeliveredTo, Destination, Wire, Fits, KeyOf;
    RegistrationsAre(events, e);
    RegistrationIsFirst(events + [e], l + [58] + o);
    BindingRequestIsDelivered(events + [e], e.created.peer, from, request, pad, hmac);
  }
}
