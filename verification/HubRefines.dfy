/** The hub's objects follow the protocol: each of their operations is a step of HubRuns
    (backend/internal/ws/hub.go, backend/internal/ws/client.go). */
module HubRefines {
  import opened HubRuns
  import H = Hub

  type Ids = map<Id, H.Client>

  /** Different ids are different clients. */
  ghost predicate Distinct(ids: Ids) {
    forall a, b :: a in ids && b in ids && ids[a] == ids[b] ==> a == b
  }

  ghost function MembersOf(clients: set<H.Client>, ids: Ids): set<Id> {
    set c | c in ids && ids[c] in clients
  }

  ghost function Views(ids: Ids): map<Id, H.Chan>
    reads ids.Values
  {
    map c | c in ids :: ids[c].View()
  }

  /** The members, and the channel of each client that has connected; the others are new. */
  ghost predicate Stands(members: set<Id>, views: map<Id, H.Chan>, s: State) {
    && members == s.clients <= s.peers.Keys <= views.Keys
    && forall c :: c in views ==> views[c] == if c in s.peers then s.peers[c].chan else H.NEW_CHAN
  }

  ghost predicate SameProtocol(ids: Ids, s: State) {
    forall c :: c in ids && c in s.peers ==> ids[c].speaksV1 == s.peers[c].speaksV1
  }

  ghost predicate SameMsg(m: Msg, b: H.BroadcastMsg, ids: Ids) {
    m.data == b.data && m.v1 == b.v1 && forall c :: c in ids ==> (Matches(m, c) <==> H.Passes(b, ids[c]))
  }

  ghost predicate SameQueue(queue: seq<Msg>, broadcast: seq<H.BroadcastMsg>, ids: Ids) {
    |queue| == |broadcast| && forall i :: 0 <= i < |queue| ==> SameMsg(queue[i], broadcast[i], ids)
  }

  /** The objects are in protocol state s. */
  ghost predicate Shows(h: H.Hub, ids: Ids, s: State)
    reads h, ids.Values
  {
    && Distinct(ids) && h.clients <= ids.Values && SameProtocol(ids, s)
    && Stands(MembersOf(h.clients, ids), Views(ids), s) && SameQueue(s.queue, h.broadcast, ids) && (s.running <==> !h.done)
  }

  lemma NewHub(h: H.Hub, ids: Ids)
    requires h.clients == {} && h.broadcast == [] && !h.done && Distinct(ids)
    requires forall c :: c in ids ==> ids[c].View() == H.NEW_CHAN
    ensures Shows(h, ids, START)
  {
    assert MembersOf(h.clients, ids) == {};
  }

  lemma Connecting(h: H.Hub, ids: Ids, s: State, c: Id)
    requires Shows(h, ids, s) && c in ids && c !in s.peers
    ensures Enabled(s, Connect(c, ids[c].speaksV1)) && Shows(h, ids, Next(s, Connect(c, ids[c].speaksV1)))
  {
    hide Distinct, MembersOf, SameQueue;
    var t := Next(s, Connect(c, ids[c].speaksV1));
    assert Stands(MembersOf(h.clients, ids), Views(ids), t);
  }

  /** What a step does that concerns one client: the rest of the hub's state is as it was. */
  ghost predicate OneStep(s: State, t: State, c: Id, members: set<Id>, ch: H.Chan) {
    && c in s.peers && t.peers.Keys == s.peers.Keys && (forall a :: a in s.peers && a != c ==> t.peers[a] == s.peers[a])
    && t.peers[c].chan == ch && t.peers[c].speaksV1 == s.peers[c].speaksV1
    && t.clients == members <= t.peers.Keys && t.queue == s.queue && t.running == s.running
  }

  /** If the objects do to one client what the step does to its peer, they follow. */
  lemma Follows(h: H.Hub, ids: Ids, s: State, t: State, c: Id, before: map<Id, H.Chan>, were: set<Id>)
    requires Distinct(ids) && h.clients <= ids.Values && SameProtocol(ids, s) && Stands(were, before, s)
    requires before.Keys == ids.Keys && c in s.peers && (forall a :: a in ids && a != c ==> ids[a].View() == before[a])
    requires OneStep(s, t, c, MembersOf(h.clients, ids), ids[c].View())
    requires SameQueue(s.queue, h.broadcast, ids) && (s.running <==> !h.done)
    ensures Shows(h, ids, t)
  {
    hide Distinct, MembersOf, SameQueue;
    assert Views(ids) == before[c := ids[c].View()];
  }

  lemma Others(ids: Ids, c: Id)
    requires Distinct(ids) && c in ids
    ensures forall a :: a in ids && a != c ==> ids[a] != ids[c]
  {
  }

  lemma MembersChange(clients: set<H.Client>, ids: Ids, c: Id)
    requires Distinct(ids) && c in ids
    ensures MembersOf(clients + {ids[c]}, ids) == MembersOf(clients, ids) + {c}
    ensures MembersOf(clients - {ids[c]}, ids) == MembersOf(clients, ids) - {c}
    ensures ids[c] in clients <==> c in MembersOf(clients, ids)
  {
  }

  method Posting(h: H.Hub, b: H.BroadcastMsg, ghost m: Msg, ghost ids: Ids, ghost s: State)
    requires Shows(h, ids, s) && SameMsg(m, b, ids)
    modifies h`broadcast
    ensures Shows(h, ids, Next(s, Post(m)))
  {
    hide SameMsg, Distinct, MembersOf, Views;
    assert H.BroadcastMsg(b.data, b.v1, b.filter) == b;
    h.BroadcastBoth(b.data, b.v1, b.filter);
  }

  lemma RegisterStep(s: State, c: Id)
    requires Enabled(s, LoopRegister(c)) && s.clients <= s.peers.Keys
    ensures OneStep(s, Next(s, LoopRegister(c)), c, s.clients + {c}, s.peers[c].chan)
  {
    hide H.AfterSend, H.AfterClose;
  }

  lemma UnregisterStep(s: State, c: Id)
    requires Enabled(s, LoopUnregister(c)) && s.clients <= s.peers.Keys
    ensures OneStep(s, Next(s, LoopUnregister(c)), c, s.clients - {c},
            if c in s.clients then H.AfterClose(s.peers[c].chan) else s.peers[c].chan)
  {
    hide H.AfterSend, H.AfterClose;
  }

  lemma LateStep(s: State, c: Id)
    requires Enabled(s, LateRegister(c)) && s.clients <= s.peers.Keys
    ensures OneStep(s, Next(s, LateRegister(c)), c, s.clients, H.AfterClose(s.peers[c].chan))
  {
    hide H.AfterSend, H.AfterClose;
  }

  lemma SendStep(s: State, c: Id, data: H.Bytes)
    requires Enabled(s, Send(c, data)) && s.clients <= s.peers.Keys
    ensures OneStep(s, Next(s, Send(c, data)), c, s.clients, H.AfterSend(s.peers[c].chan, data))
  {
    hide H.AfterSend, H.AfterClose;
    SentChan(s.peers[c], data);
    hide Offer;
  }

  lemma TakeStep(s: State, c: Id)
    requires Enabled(s, Take(c)) && s.clients <= s.peers.Keys
    ensures OneStep(s, Next(s, Take(c)), c, s.clients, s.peers[c].chan.(buffer := s.peers[c].chan.buffer[1..]))
  {
    hide H.AfterSend, H.AfterClose;
  }

  lemma SentChan(p: Peer, data: H.Bytes)
    ensures Offer(p, data).chan == H.AfterSend(p.chan, data) && Offer(p, data).speaksV1 == p.speaksV1
    ensures Offer(p, data).phase == p.phase
  {
  }

  lemma ShownView(h: H.Hub, ids: Ids, s: State, c: Id)
    requires Shows(h, ids, s) && c in s.peers
    ensures c in ids && ids[c].View() == s.peers[c].chan && s.clients == MembersOf(h.clients, ids) <= s.peers.Keys
  {
    assert Views(ids)[c] == ids[c].View();
  }

  method Registering(h: H.Hub, x: H.Client, ghost c: Id, ghost ids: Ids, ghost s: State)
    requires Shows(h, ids, s) && !h.done && c in s.peers && s.peers[c].phase == Waiting && ids[c] == x
    modifies h`clients
    ensures Enabled(s, LoopRegister(c)) && Shows(h, ids, Next(s, LoopRegister(c)))
  {
    ShownView(h, ids, s, c);
    RegisterStep(s, c);
    MembersChange(h.clients, ids, c);
    Others(ids, c);
    ghost var before := Views(ids);
    hide Distinct, MembersOf, SameQueue, Next, Enabled, Stands, SameProtocol, OneStep, Lifecycle;
    h.HandleRegister(x);
    Follows(h, ids, s, Next(s, LoopRegister(c)), c, before, s.clients);
  }

  method Unregistering(h: H.Hub, x: H.Client, ghost c: Id, ghost ids: Ids, ghost s: State)
    requires Shows(h, ids, s) && !h.done && c in s.peers && s.peers[c].phase != Waiting && ids[c] == x
    modifies h`clients, x
    ensures Enabled(s, LoopUnregister(c)) && Shows(h, ids, Next(s, LoopUnregister(c)))
  {
    ShownView(h, ids, s, c);
    UnregisterStep(s, c);
    MembersChange(h.clients, ids, c);
    Others(ids, c);
    ghost var before := Views(ids);
    hide Distinct, MembersOf, SameQueue, Next, Enabled, Stands, SameProtocol, OneStep, Lifecycle, H.AfterClose;
    h.HandleUnregister(x);
    Follows(h, ids, s, Next(s, LoopUnregister(c)), c, before, s.clients);
  }

  lemma BroadcastStep(ids: Ids, s: State, members: set<Id>, before: map<Id, H.Chan>, after: map<Id, H.Chan>,
                      b: H.BroadcastMsg)
    requires Stands(members, before, s) && SameProtocol(ids, s) && Enabled(s, LoopBroadcast)
    requires SameMsg(s.queue[0], b, ids) && before.Keys == after.Keys == ids.Keys
    requires forall c :: c in ids ==>
      after[c] == if c in members && H.Passes(b, ids[c])
                  then H.AfterSend(before[c], H.Encode(b.data, b.v1, ids[c].speaksV1)) else before[c]
    ensures Stands(members, after, Next(s, LoopBroadcast)) && SameProtocol(ids, Next(s, LoopBroadcast))
  {
    hide H.AfterSend, H.Encode, OfferBroadcast, H.Passes, Matches;
    forall c | c in s.peers {
      OfferedChan(s.peers[c], s.queue[0]);
    }
  }

  method Broadcasting(h: H.Hub, ghost ids: Ids, ghost s: State)
    requires Shows(h, ids, s) && !h.done && h.broadcast != []
    modifies h`broadcast, h.clients
    ensures Enabled(s, LoopBroadcast) && Shows(h, ids, Next(s, LoopBroadcast))
  {
    ghost var before, members, b := Views(ids), MembersOf(h.clients, ids), h.broadcast[0];
    QueueTail(s.queue, h.broadcast, ids);
    assert forall c :: c in ids ==> (ids[c] in h.clients <==> c in members);
    hide H.AfterSend, H.Encode, H.Passes, Distinct, SameQueue, SameMsg, Stands, SameProtocol, MembersOf;
    h.HandleBroadcast();
    BroadcastStep(ids, s, members, before, Views(ids), b);
  }

  lemma QueueTail(queue: seq<Msg>, broadcast: seq<H.BroadcastMsg>, ids: Ids)
    requires SameQueue(queue, broadcast, ids) && queue != []
    ensures broadcast != [] && SameMsg(queue[0], broadcast[0], ids) && SameQueue(queue[1..], broadcast[1..], ids)
  {
    hide SameMsg;
  }

  lemma OfferedChan(p: Peer, m: Msg)
    ensures OfferBroadcast(p, m).chan == H.AfterSend(p.chan, H.Encode(m.data, m.v1, p.speaksV1))
    ensures OfferBroadcast(p, m).speaksV1 == p.speaksV1
  {
  }

  lemma CloseStep(ids: Ids, s: State, members: set<Id>, before: map<Id, H.Chan>, after: map<Id, H.Chan>)
    requires Stands(members, before, s) && SameProtocol(ids, s) && Enabled(s, Cancel) && !s.swept
    requires before.Keys == after.Keys
    requires forall c :: c in after ==> after[c] == if c in members then H.AfterClose(before[c]) else before[c]
    ensures var t := Next(Next(s, Cancel), CloseClients);
      Stands({}, after, t) && SameProtocol(ids, t) && t.queue == s.queue && !t.running
  {
    hide H.AfterClose;
  }

  /** The end of the loop and closeAll together. */
  method Closing(h: H.Hub, ghost ids: Ids, ghost s: State)
    requires Shows(h, ids, s) && !h.done && !s.swept
    modifies h`clients, h`done, h.clients
    ensures Enabled(s, Cancel) && Enabled(Next(s, Cancel), CloseClients) && Shows(h, ids, Next(Next(s, Cancel), CloseClients))
  {
    ghost var before, members := Views(ids), MembersOf(h.clients, ids);
    assert forall c :: c in ids ==> (ids[c] in h.clients <==> c in members);
    hide H.AfterClose, Distinct, SameQueue, Stands, SameProtocol, Next;
    h.CloseAll();
    CloseStep(ids, s, members, before, Views(ids));
    assert MembersOf(h.clients, ids) == {};
  }

  method RegisteringLate(h: H.Hub, x: H.Client, ghost c: Id, ghost ids: Ids, ghost s: State)
    requires Shows(h, ids, s) && h.done && c in s.peers && s.peers[c].phase == Waiting && ids[c] == x
    modifies x
    ensures Enabled(s, LateRegister(c)) && Shows(h, ids, Next(s, LateRegister(c)))
  {
    ShownView(h, ids, s, c);
    LateStep(s, c);
    Others(ids, c);
    ghost var before := Views(ids);
    hide Distinct, MembersOf, SameQueue, Next, Enabled, Stands, SameProtocol, OneStep, Lifecycle, H.AfterClose;
    h.RegisterLate(x);
    Follows(h, ids, s, Next(s, LateRegister(c)), c, before, s.clients);
  }

  method Sending(h: H.Hub, x: H.Client, data: H.Bytes, ghost c: Id, ghost ids: Ids, ghost s: State)
    requires Shows(h, ids, s) && c in s.peers && ids[c] == x
    modifies x
    ensures Enabled(s, Send(c, data)) && Shows(h, ids, Next(s, Send(c, data)))
  {
    ShownView(h, ids, s, c);
    SendStep(s, c, data);
    Others(ids, c);
    ghost var before := Views(ids);
    hide Distinct, MembersOf, SameQueue, Next, Enabled, Stands, SameProtocol, OneStep, Lifecycle, H.AfterSend;
    x.TrySend(data);
    Follows(h, ids, s, Next(s, Send(c, data)), c, before, s.clients);
  }

  method Taking(h: H.Hub, x: H.Client, ghost c: Id, ghost ids: Ids, ghost s: State) returns (data: H.Bytes)
    requires Shows(h, ids, s) && c in s.peers && ids[c] == x && x.buffer != []
    modifies x
    ensures Enabled(s, Take(c)) && Shows(h, ids, Next(s, Take(c))) && data == s.peers[c].chan.buffer[0]
  {
    ShownView(h, ids, s, c);
    TakeStep(s, c);
    Others(ids, c);
    ghost var before := Views(ids);
    assert x.View().buffer == x.buffer != [];
    hide Distinct, MembersOf, SameQueue, Next, Enabled, Stands, SameProtocol, OneStep, Lifecycle;
    data := x.Take();
    Follows(h, ids, s, Next(s, Take(c)), c, before, s.clients);
  }

  /** Disconnecting a session is a send followed, while the loop runs, by its unregistration. */
  method Disconnecting(h: H.Hub, x: H.Client, frame: H.Bytes, ghost c: Id, ghost ids: Ids, ghost s: State)
    requires Shows(h, ids, s) && Lifecycle(s) && c in s.clients && ids[c] == x
    modifies h`clients, x
    ensures Enabled(s, Send(c, frame)) && (s.running ==> Enabled(Next(s, Send(c, frame)), LoopUnregister(c)))
    ensures var sent := Next(s, Send(c, frame));
      Shows(h, ids, if s.running then Next(sent, LoopUnregister(c)) else sent)
  {
    ShownView(h, ids, s, c);
    DisconnectedState(s, c, frame);
    MembersChange(h.clients, ids, c);
    Others(ids, c);
    ghost var before := Views(ids);
    hide Distinct, MembersOf, SameQueue, Next, Enabled, Stands, SameProtocol, OneStep, Lifecycle, H.Expire;
    h.DisconnectOne(x, frame);
    ghost var sent := Next(s, Send(c, frame));
    Follows(h, ids, s, if s.running then Next(sent, LoopUnregister(c)) else sent, c, before, s.clients);
  }

  lemma DisconnectedState(s: State, c: Id, frame: H.Bytes)
    requires Lifecycle(s) && c in s.clients
    ensures Enabled(s, Send(c, frame)) && (s.running ==> Enabled(Next(s, Send(c, frame)), LoopUnregister(c)))
    ensures var sent := Next(s, Send(c, frame));
      OneStep(s, if s.running then Next(sent, LoopUnregister(c)) else sent, c,
              if s.running then s.clients - {c} else s.clients, H.Expire(s.peers[c].chan, frame, !s.running))
  {
    hide H.AfterSend, H.AfterClose;
    SentChan(s.peers[c], frame);
  }
}
