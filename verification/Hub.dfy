/** The WebSocket hub and its clients as objects (backend/internal/ws/hub.go, backend/internal/ws/client.go). */
module Hub {
  import opened Prelude

  const SEND_BUFFER: nat := 256
  const BROADCAST_BUFFER: nat := 256

  type Bytes = seq<byte>

  /** A client's send channel: whether it is open, what the writer has yet to take, how many frames were
      dropped because it was full, how often CloseSend was called, and how often the channel was closed. */
  datatype Chan = Chan(open: bool, buffer: seq<Bytes>, drops: nat, closeCalls: nat, closes: nat)

  const NEW_CHAN: Chan := Chan(true, [], 0, 0, 0)

  /** Non-blocking send; on a closed channel the panic is recovered and the frame lost. */
  function AfterSend(ch: Chan, data: Bytes): Chan {
    if !ch.open then ch
    else if |ch.buffer| < SEND_BUFFER then ch.(buffer := ch.buffer + [data])
    else ch.(drops := ch.drops + 1)
  }

  function AfterClose(ch: Chan): Chan {
    ch.(open := false, closeCalls := ch.closeCalls + 1, closes := ch.closes + if ch.open then 1 else 0)
  }

  /** A channel after any mixture of sends (Some) and closes (None). */
  function After(ops: seq<Option<Bytes>>): Chan {
    if ops == [] then NEW_CHAN
    else
      var ch := After(ops[..|ops| - 1]);
      match ops[|ops| - 1]
      case Some(data) => AfterSend(ch, data)
      case None => AfterClose(ch)
  }

  /** However often CloseSend is called, the channel is closed once, by the first call. */
  lemma {:induction false} GuardClosesOnce(ops: seq<Option<Bytes>>)
    ensures After(ops).closes == if None in ops then 1 else 0
    ensures After(ops).open <==> None !in ops
  {
    if ops != [] {
      GuardClosesOnce(ops[..|ops| - 1]);
      assert ops == ops[..|ops| - 1] + [ops[|ops| - 1]];
    }
  }

  /** The frame a client gets: the native encoding if it speaks v1 and there is one. */
  function Encode(legacy: Bytes, v1: Option<Bytes>, speaksV1: bool): Bytes {
    if speaksV1 && v1.Some? then v1.value else legacy
  }

  class Client {
    const speaksV1: bool
    const userID: int
    var open: bool
    var buffer: seq<Bytes>
    var dropCount: nat
    ghost var closeCalls: nat
    ghost var closes: nat

    ghost function View(): Chan
      reads this
    {
      Chan(open, buffer, dropCount, closeCalls, closes)
    }

    constructor (userID: int, speaksV1: bool)
      ensures View() == NEW_CHAN && this.userID == userID && this.speaksV1 == speaksV1
    {
      this.userID, this.speaksV1 := userID, speaksV1;
      open, buffer, dropCount, closeCalls, closes := true, [], 0, 0, 0;
    }

    /** Closes the channel unless that was done before. */
    method CloseSend()
      modifies this
      ensures View() == AfterClose(old(View()))
      ensures !open && closes == old(closes) + (if old(open) then 1 else 0) && closeCalls == old(closeCalls) + 1
      ensures buffer == old(buffer) && dropCount == old(dropCount)
    {
      if open {
        open := false;
        closes := closes + 1;
      }
      closeCalls := closeCalls + 1;
    }

    method TrySend(data: Bytes)
      modifies this
      ensures View() == AfterSend(old(View()), data)
      ensures open == old(open) && closes == old(closes) && closeCalls == old(closeCalls)
      ensures buffer == if open && |old(buffer)| < 256 then old(buffer) + [data] else old(buffer)
      ensures dropCount == if open && |old(buffer)| >= 256 then old(dropCount) + 1 else old(dropCount)
    {
      if !open {
        return;
      }
      if |buffer| < SEND_BUFFER {
        buffer := buffer + [data];
      } else {
        dropCount := dropCount + 1;
      }
    }

    /** The writer receives a frame. */
    method Take() returns (data: Bytes)
      requires buffer != []
      modifies this`buffer
      ensures data == old(buffer)[0] && View() == old(View()).(buffer := old(buffer)[1..])
    {
      data := buffer[0];
      buffer := buffer[1..];
    }
  }

  datatype BroadcastMsg = BroadcastMsg(data: Bytes, v1: Option<Bytes>, filter: Option<set<Client>>)

  predicate Passes(msg: BroadcastMsg, c: Client) {
    msg.filter.None? || c in msg.filter.value
  }

  class Hub {
    var clients: set<Client>
    var broadcast: seq<BroadcastMsg>
    var done: bool

    constructor ()
      ensures clients == {} && broadcast == [] && !done
    {
      clients, broadcast, done := {}, [], false;
    }

    /** Broadcast and BroadcastBoth: enqueue without blocking, or drop when the hub is busy. */
    method BroadcastBoth(legacy: Bytes, v1: Option<Bytes>, filter: Option<set<Client>>)
      modifies this`broadcast
      ensures broadcast ==
        if |old(broadcast)| < 256 then old(broadcast) + [BroadcastMsg(legacy, v1, filter)]
        else old(broadcast)
    {
      if |broadcast| < BROADCAST_BUFFER {
        broadcast := broadcast + [BroadcastMsg(legacy, v1, filter)];
      }
    }

    method HandleRegister(c: Client)
      modifies this`clients
      ensures clients == old(clients) + {c}
    {
      clients := clients + {c};
    }

    method HandleUnregister(c: Client)
      modifies this`clients, c
      ensures clients == old(clients) - {c}
      ensures c.View() == if c in old(clients) then AfterClose(old(c.View())) else old(c.View())
    {
      if c in clients {
        clients := clients - {c};
        c.CloseSend();
      }
    }

    /** One broadcast: every matching client is offered its encoding, the others are left alone. */
    method HandleBroadcast()
      requires broadcast != []
      modifies this`broadcast, clients
      ensures clients == old(clients) && broadcast == old(broadcast)[1..]
      ensures var msg := old(broadcast)[0];
        forall c :: c in clients ==>
          if msg.filter.Some? && c !in msg.filter.value then c.View() == old(c.View())
          else if c.speaksV1 && msg.v1.Some? then c.View() == AfterSend(old(c.View()), msg.v1.value)
          else c.View() == AfterSend(old(c.View()), msg.data)
    {
      hide AfterSend;
      var msg := broadcast[0];
      broadcast := broadcast[1..];
      var todo := clients;
      while todo != {}
        invariant todo <= clients && clients == old(clients) && broadcast == old(broadcast)[1..]
        invariant forall c :: c in clients ==>
          c.View() == if c !in todo && Passes(msg, c)
                      then AfterSend(old(c.View()), Encode(msg.data, msg.v1, c.speaksV1))
                      else old(c.View())
        decreases |todo|
      {
        var c :| c in todo;
        todo := todo - {c};
        if msg.filter.Some? && c !in msg.filter.value {
          continue;
        }
        var data := msg.data;
        if c.speaksV1 && msg.v1.Some? {
          data := msg.v1.value;
        }
        c.TrySend(data);
      }
    }

    /** Called when the event loop ends. */
    method CloseAll()
      modifies this`clients, this`done, clients
      ensures done && clients == {}
      ensures forall c :: c in old(clients) ==> c.View() == AfterClose(old(c.View()))
    {
      hide AfterClose;
      done := true;
      var all := clients;
      while clients != {}
        invariant done && clients <= all
        invariant forall c :: c in all ==> c.View() == if c in clients then old(c.View()) else AfterClose(old(c.View()))
        decreases |clients|
      {
        var c :| c in clients;
        c.CloseSend();
        clients := clients - {c};
      }
    }

    /** Register once the hub has shut down: the channel is closed instead. */
    method RegisterLate(c: Client)
      requires done
      modifies c
      ensures c.View() == AfterClose(old(c.View()))
    {
      c.CloseSend();
    }

    /** Tells every session of a user that it has expired, and unregisters it if the loop still runs. */
    method DisconnectByUser(userID: int, legacyExpired: Bytes, v1Expired: Bytes)
      modifies this`clients, clients
      ensures forall c :: c in clients <==> c in old(clients) && (done || c.userID != userID)
      ensures forall c :: c in old(clients) && c.userID != userID ==> c.View() == old(c.View())
      ensures forall c :: c in old(clients) && c.userID == userID ==>
        Expired(old(c.View()), c.View(), if c.speaksV1 then v1Expired else legacyExpired, done)
    {
      hide Expire, Expired;
      var todo := SessionsOf(clients, userID);
      ghost var before := map c | c in clients :: c.View();
      assert forall c :: c in todo <==> c in before && c.userID == userID;
      ghost var sessions := todo;
      hide SessionsOf;
      while todo != {}
        invariant todo <= sessions
        invariant forall c :: c in todo ==> c in clients
        invariant clients == if done then before.Keys else before.Keys - (sessions - todo)
        invariant forall c :: c in before && (c.userID != userID || c in todo) ==> c.View() == before[c]
        invariant forall c :: c in sessions && c !in todo ==>
          Expired(before[c], c.View(), if c.speaksV1 then v1Expired else legacyExpired, done)
        decreases |todo|
      {
        var c :| c in todo;
        DisconnectOne(c, if c.speaksV1 then v1Expired else legacyExpired);
        todo := todo - {c};
      }
    }

    method DisconnectOne(c: Client, frame: Bytes)
      requires c in clients
      modifies this`clients, c
      ensures c.View() == Expire(old(c.View()), frame, done) && Expired(old(c.View()), c.View(), frame, done)
      ensures clients == if done then old(clients) else old(clients) - {c}
    {
      c.TrySend(frame);
      if !done {
        HandleUnregister(c);
      }
    }
  }

  function SessionsOf(clients: set<Client>, userID: int): set<Client> {
    set c | c in clients && c.userID == userID
  }

  function Expire(ch: Chan, frame: Bytes, done: bool): Chan {
    if done then AfterSend(ch, frame) else AfterClose(AfterSend(ch, frame))
  }

  /** A frame was put at the end of an open channel that had room, counted as dropped on a full one, and lost on a
      closed one; after which the channel was closed, unless the hub had shut down. */
  predicate Expired(was: Chan, ch: Chan, frame: Bytes, done: bool) {
    && ch.buffer == (if was.open && |was.buffer| < 256 then was.buffer + [frame] else was.buffer)
    && ch.drops == was.drops + (if was.open && |was.buffer| >= 256 then 1 else 0)
    && ch.open == (was.open && done)
    && ch.closes == was.closes + (if was.open && !done then 1 else 0)
    && ch.closeCalls == was.closeCalls + (if done then 0 else 1)
  }
}
