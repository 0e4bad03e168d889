/** The hub as a protocol: every interleaving of registrations, broadcasts, disconnects, writer progress and
    shutdown (backend/internal/ws/hub.go, backend/internal/ws/client.go). */
module HubRuns {
  import opened Prelude
  import opened Hub

  type Id = nat

  /** A client joins once, and leaves by unregistering, by shutdown, or by joining too late. */
  datatype Phase = Waiting | Member | Gone

  datatype Msg = Msg(data: Bytes, v1: Option<Bytes>, filter: Option<set<Id>>)

  /** A client's phase, encoding and channel, with its history: the broadcast frames accepted and dropped,
      every frame accepted, the frames the writer has taken, and the sends tried on the closed and on the open
      channel. */
  datatype Peer = Peer(phase: Phase, speaksV1: bool, chan: Chan, got: seq<Bytes>, missed: nat,
                       accepted: seq<Bytes>, taken: seq<Bytes>, lost: nat, tried: nat)

  /** A broadcast handled by the event loop, and who was a member then. */
  datatype Handled = Handled(msg: Msg, members: set<Id>)

  datatype State = State(peers: map<Id, Peer>, clients: set<Id>, queue: seq<Msg>, running: bool, swept: bool,
                         posted: seq<Msg>, handled: seq<Handled>)

  datatype Event =
    | Connect(c: Id, speaksV1: bool)    // a connection exists and calls Register
    | Post(msg: Msg)                    // Broadcast or BroadcastBoth
    | LoopRegister(c: Id)               // the loop receives from register
    | LoopUnregister(c: Id)             // the loop receives from unregister
    | LoopBroadcast                     // the loop receives from broadcast
    | Cancel                            // the loop ends and CloseAll closes done
    | CloseClients                      // CloseAll, under the lock
    | LateRegister(c: Id)               // Register finds done closed
    | Send(c: Id, data: Bytes)          // any other TrySend: session expiry, pump replies
    | Take(c: Id)                       // the writer takes a frame

  /** The channel operations happen only as the source's selects allow. */
  ghost predicate Enabled(s: State, e: Event) {
    match e
    case Connect(c, _) => c !in s.peers
    case Post(_) => true
    case LoopRegister(c) => s.running && c in s.peers && s.peers[c].phase == Waiting
    case LoopUnregister(c) => s.running && c in s.peers && s.peers[c].phase != Waiting
    case LoopBroadcast => s.running && s.queue != []
    case Cancel => s.running
    case CloseClients => !s.running && !s.swept
    case LateRegister(c) => !s.running && c in s.peers && s.peers[c].phase == Waiting
    case Send(c, _) => c in s.peers
    case Take(c) => c in s.peers && s.peers[c].chan.buffer != []
  }

  function Matches(msg: Msg, c: Id): bool {
    msg.filter.None? || c in msg.filter.value
  }

  /** TrySend on a peer's channel, recorded. */
  function Offer(p: Peer, data: Bytes): Peer {
    var ch := AfterSend(p.chan, data);
    if !p.chan.open then p.(lost := p.lost + 1)
    else if |p.chan.buffer| < SEND_BUFFER then p.(chan := ch, accepted := p.accepted + [data], tried := p.tried + 1)
    else p.(chan := ch, tried := p.tried + 1)
  }

  function OfferBroadcast(p: Peer, msg: Msg): Peer {
    var data := Encode(msg.data, msg.v1, p.speaksV1);
    var q := Offer(p, data);
    if p.chan.open && |p.chan.buffer| < SEND_BUFFER then q.(got := p.got + [data]) else q.(missed := p.missed + 1)
  }

  function Close(p: Peer): Peer {
    p.(chan := AfterClose(p.chan), phase := Gone)
  }

  function Next(s: State, e: Event): State
    requires Enabled(s, e)
  {
    match e
    case Connect(c, speaksV1) => s.(peers := s.peers[c := Peer(Waiting, speaksV1, NEW_CHAN, [], 0, [], [], 0, 0)])
    case Post(msg) =>
      if |s.queue| < BROADCAST_BUFFER then s.(queue := s.queue + [msg], posted := s.posted + [msg]) else s
    case LoopRegister(c) => s.(peers := s.peers[c := s.peers[c].(phase := Member)], clients := s.clients + {c})
    case LoopUnregister(c) =>
      if c in s.clients then s.(peers := s.peers[c := Close(s.peers[c])], clients := s.clients - {c}) else s
    case LoopBroadcast =>
      var msg := s.queue[0];
      s.(queue := s.queue[1..], handled := s.handled + [Handled(msg, s.clients)],
         peers := map c | c in s.peers ::
           if c in s.clients && Matches(msg, c) then OfferBroadcast(s.peers[c], msg) else s.peers[c])
    case Cancel => s.(running := false)
    case CloseClients =>
      s.(swept := true, clients := {},
         peers := map c | c in s.peers :: if c in s.clients then Close(s.peers[c]) else s.peers[c])
    case LateRegister(c) => s.(peers := s.peers[c := Close(s.peers[c])])
    case Send(c, data) => s.(peers := s.peers[c := Offer(s.peers[c], data)])
    case Take(c) =>
      var p := s.peers[c];
      s.(peers := s.peers[c := p.(chan := p.chan.(buffer := p.chan.buffer[1..]), taken := p.taken + [p.chan.buffer[0]])])
  }

  const START: State := State(map[], {}, [], true, false, [], [])

  ghost predicate Execution(states: seq<State>, events: seq<Event>) {
    |states| == |events| + 1 && states[0] == START &&
    forall i :: 0 <= i < |events| ==> Enabled(states[i], events[i]) && states[i + 1] == Next(states[i], events[i])
  }

  // ---------------------------------------------------------------------
  // Lifecycle
  // ---------------------------------------------------------------------

  /** Members are the registered clients with open channels; a channel is closed, by exactly one CloseSend
      call, once its client is gone. */
  ghost predicate Lifecycle(s: State) {
    && s.clients <= s.peers.Keys
    && (s.swept ==> !s.running && s.clients == {})
    && (forall c :: c in s.peers ==>
          var p := s.peers[c];
          (c in s.clients <==> p.phase == Member) &&
          (p.chan.open <==> p.phase != Gone) &&
          p.chan.closeCalls == p.chan.closes == if p.phase == Gone then 1 else 0)
  }

  lemma LifecycleStep(s: State, e: Event)
    requires Lifecycle(s) && Enabled(s, e)
    ensures Lifecycle(Next(s, e))
  {
    hide Offer, OfferBroadcast, AfterClose;
    if e.LoopBroadcast? {
      FanOutLives(s);
    } else if e.Send? {
      OfferLives(s.peers[e.c], e.data);
    } else if e.LoopUnregister? || e.CloseClients? || e.LateRegister? {
      ClosingLives(s, e);
    }
  }

  lemma ClosingLives(s: State, e: Event)
    requires Lifecycle(s) && Enabled(s, e) && (e.LoopUnregister? || e.CloseClients? || e.LateRegister?)
    ensures Lifecycle(Next(s, e))
  {
    hide Offer, OfferBroadcast;
  }

  lemma FanOutLives(s: State)
    requires Lifecycle(s) && Enabled(s, LoopBroadcast)
    ensures Lifecycle(Next(s, LoopBroadcast))
  {
    hide Offer, OfferBroadcast;
    forall c | c in s.peers {
      OfferBroadcastLives(s.peers[c], s.queue[0]);
    }
  }

  ghost predicate SameLife(p: Peer, q: Peer) {
    q.phase == p.phase && q.chan.open == p.chan.open && q.chan.closes == p.chan.closes && q.chan.closeCalls == p.chan.closeCalls
  }

  lemma OfferLives(p: Peer, data: Bytes)
    ensures SameLife(p, Offer(p, data))
  {
  }

  lemma OfferBroadcastLives(p: Peer, msg: Msg)
    ensures SameLife(p, OfferBroadcast(p, msg))
  {
    hide Encode;
    OfferLives(p, Encode(msg.data, msg.v1, p.speaksV1));
    hide Offer;
  }

  lemma {:induction false} LifecycleAlways(states: seq<State>, events: seq<Event>, i: nat)
    requires Execution(states, events) && i <= |events|
    ensures Lifecycle(states[i])
  {
    if i > 0 {
      LifecycleAlways(states, events, i - 1);
      LifecycleStep(states[i - 1], events[i - 1]);
    }
  }

  /** A registered client's channel is open, a departed one's is closed, and no channel is ever closed twice,
      even without the once-guard. */
  lemma ClosedAtMostOnce(states: seq<State>, events: seq<Event>, i: nat, c: Id)
    requires Execution(states, events) && i <= |events| && c in states[i].peers
    ensures var p := states[i].peers[c];
      && p.chan.closeCalls == p.chan.closes <= 1
      && (c in states[i].clients ==> p.chan.open)
      && (p.phase == Gone ==> !p.chan.open)
  {
    LifecycleAlways(states, events, i);
  }

  /** Once shutdown has swept the clients and no registration is pending, every channel is closed. */
  lemma ShutdownClosesAll(states: seq<State>, events: seq<Event>, i: nat)
    requires Execution(states, events) && i <= |events| && states[i].swept
    requires forall c :: c in states[i].peers ==> states[i].peers[c].phase != Waiting
    ensures forall c :: c in states[i].peers ==> !states[i].peers[c].chan.open
  {
    LifecycleAlways(states, events, i);
  }

  /** Fan-out never meets a closed channel, so the recovery from a panic is never needed there. */
  lemma FanOutHitsOpenChannels(states: seq<State>, events: seq<Event>, i: nat, c: Id)
    requires Execution(states, events) && i < |events| && events[i].LoopBroadcast?
    requires c in states[i].clients
    ensures c in states[i].peers && states[i].peers[c].chan.open
    ensures states[i + 1].peers[c].lost == states[i].peers[c].lost
  {
    LifecycleAlways(states, events, i);
  }

  // ---------------------------------------------------------------------
  // Delivery
  // ---------------------------------------------------------------------

  /** a can be had from b by leaving frames out. */
  ghost predicate Subsequence(a: seq<Bytes>, b: seq<Bytes>) {
    if a == [] then true
    else if b == [] then false
    else (a[|a| - 1] == b[|b| - 1] && Subsequence(a[..|a| - 1], b[..|b| - 1])) || Subsequence(a, b[..|b| - 1])
  }

  /** The matching broadcasts handled while c was a member, in c's encoding, in order. */
  function Due(handled: seq<Handled>, c: Id, speaksV1: bool): seq<Bytes> {
    if handled == [] then []
    else
      var h := handled[|handled| - 1];
      Due(handled[..|handled| - 1], c, speaksV1) +
      if c in h.members && Matches(h.msg, c) then [Encode(h.msg.data, h.msg.v1, speaksV1)] else []
  }

  ghost predicate Delivery(s: State) {
    forall c :: c in s.peers ==> PeerDelivery(s.peers[c], Due(s.handled, c, s.peers[c].speaksV1))
  }

  /** Broadcasts are handled in the order in which they entered the queue. */
  ghost predicate Fifo(s: State) {
    s.posted == seq(|s.handled|, i requires 0 <= i < |s.handled| => s.handled[i].msg) + s.queue
  }

  lemma SubsequenceSnoc(a: seq<Bytes>, b: seq<Bytes>, x: Bytes)
    requires Subsequence(a, b)
    ensures Subsequence(a, b + [x]) && Subsequence(a + [x], b + [x])
  {
    assert (b + [x])[..|b|] == b && (a + [x])[..|a|] == a;
  }

  lemma DueSnoc(handled: seq<Handled>, h: Handled, c: Id, speaksV1: bool)
    ensures Due(handled + [h], c, speaksV1) ==
            Due(handled, c, speaksV1) +
            if c in h.members && Matches(h.msg, c) then [Encode(h.msg.data, h.msg.v1, speaksV1)] else []
  {
    assert (handled + [h])[..|handled|] == handled;
  }

  /** Members of handled broadcasts had connected; someone yet to connect was a member of none. */
  ghost predicate MembersKnown(s: State) {
    forall i :: 0 <= i < |s.handled| ==> s.handled[i].members <= s.peers.Keys
  }

  lemma {:induction false} NothingDueToStrangers(handled: seq<Handled>, c: Id, speaksV1: bool)
    requires forall i :: 0 <= i < |handled| ==> c !in handled[i].members
    ensures Due(handled, c, speaksV1) == []
  {
    if handled != [] {
      NothingDueToStrangers(handled[..|handled| - 1], c, speaksV1);
    }
  }

  /** What one client has against what it was due. */
  ghost predicate PeerDelivery(p: Peer, due: seq<Bytes>) {
    && Subsequence(p.got, due)
    && |p.got| + p.missed == |due|
    && Subsequence(p.got, p.accepted)
    && p.taken + p.chan.buffer == p.accepted
    && |p.accepted| + p.chan.drops == p.tried
    && |p.chan.buffer| <= SEND_BUFFER
  }

  /** What an offer leaves of a peer's record. */
  lemma OfferShape(p: Peer, data: Bytes)
    ensures var q, room := Offer(p, data), p.chan.open && |p.chan.buffer| < SEND_BUFFER;
      && q.got == p.got && q.missed == p.missed && q.taken == p.taken
      && q.accepted == (if room then p.accepted + [data] else p.accepted)
      && q.chan.buffer == (if room then p.chan.buffer + [data] else p.chan.buffer)
      && q.tried - q.chan.drops == p.tried - p.chan.drops + if room then 1 else 0
  {
  }

  lemma Assoc<T>(a: seq<T>, b: seq<T>, c: seq<T>)
    ensures a + (b + c) == (a + b) + c
  {
  }

  lemma OfferKeeps(p: Peer, data: Bytes, due: seq<Bytes>)
    requires PeerDelivery(p, due)
    ensures PeerDelivery(Offer(p, data), due)
  {
    hide Offer, AfterSend, Subsequence;
    OfferShape(p, data);
    SubsequenceSnoc(p.got, p.accepted, data);
    var q := Offer(p, data);
    if p.chan.open && |p.chan.buffer| < SEND_BUFFER {
      Assoc(p.taken, p.chan.buffer, [data]);
      assert q.taken + q.chan.buffer == q.accepted;
    } else {
      assert q.taken == p.taken && q.chan.buffer == p.chan.buffer && q.accepted == p.accepted;
    }
  }

  lemma OfferBroadcastKeeps(p: Peer, msg: Msg, due: seq<Bytes>)
    requires PeerDelivery(p, due)
    ensures PeerDelivery(OfferBroadcast(p, msg), due + [Encode(msg.data, msg.v1, p.speaksV1)])
  {
    var data := Encode(msg.data, msg.v1, p.speaksV1);
    hide Offer, Encode, AfterSend, Subsequence;
    OfferKeeps(p, data, due);
    OfferShape(p, data);
    SubsequenceSnoc(p.got, due, data);
    SubsequenceSnoc(p.got, p.accepted, data);
  }

  lemma DeliveryStep(s: State, e: Event, c: Id)
    requires Lifecycle(s) && Delivery(s) && MembersKnown(s) && Enabled(s, e) && c in Next(s, e).peers
    ensures PeerDelivery(Next(s, e).peers[c], Due(Next(s, e).handled, c, Next(s, e).peers[c].speaksV1))
  {
    hide Subsequence, Due, PeerDelivery, Lifecycle;
    if e.Connect? && e.c == c {
      NothingDueToStrangers(s.handled, c, e.speaksV1);
      NewPeer(e.speaksV1);
    } else {
      var p := s.peers[c];
      assert PeerDelivery(p, Due(s.handled, c, p.speaksV1));
      if e.LoopBroadcast? {
        var msg := s.queue[0];
        DueSnoc(s.handled, Handled(msg, s.clients), c, p.speaksV1);
        OfferBroadcastKeeps(p, msg, Due(s.handled, c, p.speaksV1));
        assert Due(s.handled, c, p.speaksV1) + [] == Due(s.handled, c, p.speaksV1);
      } else if e.Send? && e.c == c {
        OfferKeeps(p, e.data, Due(s.handled, c, p.speaksV1));
      } else {
        QuietStep(s, e, c);
      }
    }
  }

  lemma NewPeer(speaksV1: bool)
    ensures PeerDelivery(Peer(Waiting, speaksV1, NEW_CHAN, [], 0, [], [], 0, 0), [])
  {
  }

  /** Every other step leaves a client's frames alone, or moves one from the channel to the writer. */
  lemma QuietStep(s: State, e: Event, c: Id)
    requires Enabled(s, e) && c in s.peers && !e.LoopBroadcast? && !(e.Send? && e.c == c)
    requires PeerDelivery(s.peers[c], Due(s.handled, c, s.peers[c].speaksV1))
    ensures PeerDelivery(Next(s, e).peers[c], Due(Next(s, e).handled, c, s.peers[c].speaksV1))
    ensures Next(s, e).peers[c].speaksV1 == s.peers[c].speaksV1
  {
    hide Subsequence, Due;
    var p := s.peers[c];
    if e.Take? && e.c == c {
      assert p.taken + p.chan.buffer == p.taken + [p.chan.buffer[0]] + p.chan.buffer[1..];
    }
  }

  lemma OrderStep(s: State, e: Event)
    requires Lifecycle(s) && Fifo(s) && MembersKnown(s) && Enabled(s, e)
    ensures Fifo(Next(s, e)) && MembersKnown(Next(s, e))
  {
    var s' := Next(s, e);
    var old_ := seq(|s.handled|, i requires 0 <= i < |s.handled| => s.handled[i].msg);
    if e.LoopBroadcast? {
      var new_ := seq(|s'.handled|, i requires 0 <= i < |s'.handled| => s'.handled[i].msg);
      assert new_ == old_ + [s.queue[0]];
      assert old_ + s.queue == new_ + s.queue[1..];
    }
  }

  /** In every run: each client's accepted broadcasts are, in order, among the matching broadcasts handled
      while it was a member, each in its encoding; every one of those was either accepted or dropped; what
      the writer took and what is buffered are the accepted frames in order; and broadcasts are handled in
      the order in which they were queued. */
  lemma {:induction false} DeliveryAlways(states: seq<State>, events: seq<Event>, i: nat)
    requires Execution(states, events) && i <= |events|
    ensures Delivery(states[i]) && Fifo(states[i]) && MembersKnown(states[i])
  {
    if i > 0 {
      DeliveryAlways(states, events, i - 1);
      LifecycleAlways(states, events, i - 1);
      var s, e := states[i - 1], events[i - 1];
      OrderStep(s, e);
      forall c | c in states[i].peers
        ensures PeerDelivery(states[i].peers[c], Due(states[i].handled, c, states[i].peers[c].speaksV1))
      {
        DeliveryStep(s, e, c);
      }
    }
  }

  // ---------------------------------------------------------------------
  // What a peer receives
  // ---------------------------------------------------------------------

  /** The frame that a broadcast is for a peer: the native encoding for one that speaks v1, when there is one. */
  ghost predicate FrameFor(msg: Msg, speaksV1: bool, frame: Bytes) {
    if speaksV1 && msg.v1.Some? then frame == msg.v1.value else frame == msg.data
  }

  /** One broadcast: a member whom the filter lets through gets the frame in its encoding if its channel has room,
      and misses it if not; everyone else is left alone. */
  lemma BroadcastReaches(s: State, c: Id, frame: Bytes)
    requires Lifecycle(s) && Enabled(s, LoopBroadcast) && c in s.peers && FrameFor(s.queue[0], s.peers[c].speaksV1, frame)
    ensures var msg, p, q := s.queue[0], s.peers[c], Next(s, LoopBroadcast).peers[c];
      if c !in s.clients || (msg.filter.Some? && c !in msg.filter.value) then q == p
      else if |p.chan.buffer| < 256
      then q == p.(chan := p.chan.(buffer := p.chan.buffer + [frame]), got := p.got + [frame],
                   accepted := p.accepted + [frame], tried := p.tried + 1)
      else q == p.(chan := p.chan.(drops := p.chan.drops + 1), missed := p.missed + 1, tried := p.tried + 1)
  {
  }

  ghost predicate Increasing(js: seq<nat>, n: nat) {
    (forall k :: 0 <= k < |js| ==> js[k] < n) && forall k, l :: 0 <= k < l < |js| ==> js[k] < js[l]
  }

  /** Where the frames of a stand in b. */
  lemma {:induction false} SubsequenceAt(a: seq<Bytes>, b: seq<Bytes>) returns (js: seq<nat>)
    requires Subsequence(a, b)
    ensures |js| == |a| && Increasing(js, |b|) && forall k :: 0 <= k < |a| ==> a[k] == b[js[k]]
    decreases |b|
  {
    if a == [] {
      js := [];
    } else {
      var n := |b| - 1;
      if a[|a| - 1] == b[n] && Subsequence(a[..|a| - 1], b[..n]) {
        js := SubsequenceAt(a[..|a| - 1], b[..n]);
        js := js + [n];
      } else {
        js := SubsequenceAt(a, b[..n]);
      }
    }
  }

  /** A broadcast was for a peer: it was a member then, and no filter kept it out. */
  ghost predicate For(h: Handled, c: Id) {
    c in h.members && (h.msg.filter.Some? ==> c in h.msg.filter.value)
  }

  /** Which handled broadcasts were due to a peer, and the frames they were. */
  lemma {:induction false} DueAt(handled: seq<Handled>, c: Id, speaksV1: bool) returns (js: seq<nat>)
    ensures |js| == |Due(handled, c, speaksV1)| && Increasing(js, |handled|)
    ensures forall j :: 0 <= j < |handled| ==> (j in js <==> For(handled[j], c))
    ensures forall k :: 0 <= k < |js| ==> FrameFor(handled[js[k]].msg, speaksV1, Due(handled, c, speaksV1)[k])
  {
    if handled == [] {
      js := [];
    } else {
      var n := |handled| - 1;
      var before := DueAt(handled[..n], c, speaksV1);
      js := before + if For(handled[n], c) then [n] else [];
    }
  }

  /** The frames got are, in order, those of the broadcasts js, which are among the due ones. */
  ghost predicate Got(handled: seq<Handled>, due: seq<nat>, js: seq<nat>, speaksV1: bool, got: seq<Bytes>) {
    && Increasing(js, |handled|) && |js| == |got|
    && forall k :: 0 <= k < |js| ==> js[k] in due && FrameFor(handled[js[k]].msg, speaksV1, got[k])
  }

  lemma GotAt(handled: seq<Handled>, due: seq<nat>, at: seq<nat>, speaksV1: bool, frames: seq<Bytes>, got: seq<Bytes>)
    returns (js: seq<nat>)
    requires Increasing(due, |handled|) && |due| == |frames| && Increasing(at, |due|) && |at| == |got|
    requires forall k :: 0 <= k < |due| ==> FrameFor(handled[due[k]].msg, speaksV1, frames[k])
    requires forall k :: 0 <= k < |got| ==> got[k] == frames[at[k]]
    ensures Got(handled, due, js, speaksV1, got)
  {
    hide FrameFor;
    js := seq(|at|, k requires 0 <= k < |at| => due[at[k]]);
  }

  /** In every run, what a peer got of the broadcasts: `due` are exactly those handled while it was a member and that
      no filter kept from it, `js` those among them that it got, in the order of handling, each in its encoding; and it
      missed as many as are left. */
  lemma ReceivedInOrder(states: seq<State>, events: seq<Event>, i: nat, c: Id) returns (due: seq<nat>, js: seq<nat>)
    requires Execution(states, events) && i <= |events| && c in states[i].peers
    ensures var handled, p := states[i].handled, states[i].peers[c];
      && Increasing(due, |handled|) && (forall j :: 0 <= j < |handled| ==> (j in due <==> For(handled[j], c)))
      && |due| == |p.got| + p.missed
      && Got(handled, due, js, p.speaksV1, p.got)
  {
    DeliveryAlways(states, events, i);
    hide Execution, Subsequence, Due, FrameFor, For, Increasing, Got;
    var handled, p := states[i].handled, states[i].peers[c];
    due := DueAt(handled, c, p.speaksV1);
    var frames := Due(handled, c, p.speaksV1);
    var at := SubsequenceAt(p.got, frames);
    js := GotAt(handled, due, at, p.speaksV1, frames, p.got);
  }
}
