/** The stream manager: start-up, call fan-out and one connection's write loop
    (backend/internal/stream/manager.go, backend/internal/stream/encoder.go). */
module StreamManager {
  import opened Prelude
  import opened Stream
  import opened Timeline
  import Mp3

  /** The client's end of a connection that accepts `capacity` bytes before it fails. */
  class Connection {
    const capacity: nat
    var received: seq<byte>

    constructor (capacity: nat)
      ensures this.capacity == capacity && received == []
    {
      this.capacity, received := capacity, [];
    }

    method Write(frame: Frame) returns (ok: bool)
      requires |received| <= capacity
      modifies this
      ensures |received| <= capacity
      ensures ok <==> |old(received)| + |frame| <= capacity
      ensures received == old(received) + if ok then frame else frame[..capacity - |old(received)|]
    {
      ok := |received| + |frame| <= capacity;
      received := received + if ok then frame else frame[..capacity - |received|];
    }
  }

  function PrimeFrames(period: int): nat
    requires period > 0
  {
    PRIME_SECONDS * NANOS_PER_SECOND / period
  }

  /** The burst is the number of whole frames that 2 seconds hold. */
  lemma PrimeFramesIs(period: int)
    requires period > 0
    ensures PrimeFrames(period) * period <= 2 * 1_000_000_000 < (PrimeFrames(period) + 1) * period
  {
    WholeTimes(PRIME_SECONDS * NANOS_PER_SECOND, period);
  }

  class Manager {
    var listeners: set<Listener>
    var silence: seq<Frame>
    var period: int

    constructor ()
      ensures listeners == {} && silence == [] && period == 0
    {
      listeners, silence, period := {}, [], 0;
    }

    /** `encoded` is the encoder's output for the silent source, or nothing when the encoder failed. */
    method Start(encoded: Option<seq<byte>>) returns (ok: bool)
      modifies this`silence, this`period
      ensures ok <==> encoded.Some? && Mp3.Carve(encoded.value) != []
      ensures ok ==> silence == Mp3.Carve(encoded.value) && Mp3.AllWhole(silence) && period == Period(silence[0])
      ensures !ok ==> silence == old(silence) && period == old(period)
    {
      if encoded == None {
        return false;
      }
      var frames := Mp3.SplitFrames(encoded.value);
      if frames == [] {
        return false;
      }
      assert Mp3.Whole(frames[0]);
      silence, period := frames, Period(frames[0]);
      ok := true;
    }

    /** Offers a call to every listener. `resolved` says whether the call id could be looked up, `wanted`
        whom the filter accepts, `encoded` what the transcoder produced, if it ran. */
    method Notify(callID: int, resolved: bool, wanted: set<Listener>, encoded: Option<seq<byte>>)
      modifies listeners
      ensures forall l :: l in listeners ==>
        l.State() ==
        if silence != [] && resolved && l in wanted && encoded.Some? && Mp3.Carve(encoded.value) != []
        then PushStep(old(l.State()), callID, Mp3.Carve(encoded.value), MaxFrames(period))
        else old(l.State())
    {
      if listeners == {} || silence == [] {
        return;
      }
      var maxFrames := MaxFrames(period);
      if !resolved {
        return;
      }
      var targets := listeners * wanted;
      if targets == {} || encoded == None {
        return;
      }
      var frames := Mp3.SplitFrames(encoded.value);
      if frames == [] {
        return;
      }
      var todo := targets;
      while todo != {}
        invariant todo <= targets
        invariant forall l :: l in listeners ==>
          l.State() == if l in targets - todo then PushStep(old(l.State()), callID, frames, maxFrames)
                       else old(l.State())
        decreases |todo|
      {
        var l :| l in todo;
        l.Enqueue(callID, frames, maxFrames);
        todo := todo - {l};
      }
    }

    /** Streams to one listener. `schedule` interleaves the calls that arrive with the moments a frame is due;
        when it is used up the request context is cancelled. The first n events were handled. */
    method Serve(schedule: seq<Event>, conn: Connection)
      returns (started: bool, intact: bool, n: nat, cues: seq<Cue>)
      requires conn.received == []
      modifies this`listeners, conn
      ensures listeners == old(listeners)
      ensures started <==> silence != [] && period > 0
      ensures !started ==> conn.received == [] && cues == []
      ensures n <= |schedule| && (started && intact ==> n == |schedule|)
      ensures started ==>
        Delivered(Exec(schedule[..n], silence, MaxFrames(period)).out, conn.received, cues, PrimeFrames(period), intact)
    {
      intact, n, cues := true, 0, [];
      started := silence != [] && period > 0;
      if !started {
        return;
      }
      var l := new Listener();
      listeners := listeners + {l};
      var maxFrames, prime := MaxFrames(period), PrimeFrames(period);
      assert Live(Exec(schedule[..0], silence, maxFrames), l, conn, cues, prime);
      n, intact := Prime(l, silence, conn, schedule, prime, maxFrames);
      if intact {
        n, intact, cues := Pace(l, silence, conn, schedule, n, prime, maxFrames);
      }
      listeners := listeners - {l};
      assert schedule[..|schedule|] == schedule;
    }
  }

  /** Both ends of a connection agree with the run so far. */
  ghost predicate Live(run: Run, l: Listener, conn: Connection, cues: seq<Cue>, prime: nat)
    reads l, conn
  {
    |conn.received| <= conn.capacity && run.state == l.State() && run.state.framesWritten == |run.out| &&
    Delivered(run.out, conn.received, cues, prime, true)
  }

  /** The priming burst: ids are discarded, nothing is announced. */
  method Prime(l: Listener, silence: seq<Frame>, conn: Connection, schedule: seq<Event>, prime: nat, maxFrames: int)
    returns (n: nat, intact: bool)
    requires silence != []
    requires Live(Exec([], silence, maxFrames), l, conn, [], prime)
    modifies l, conn
    ensures n <= |schedule|
    ensures var run := Exec(schedule[..n], silence, maxFrames);
      if intact then Live(run, l, conn, [], prime) && (n < |schedule| ==> |run.out| >= prime)
      else Delivered(run.out, conn.received, [], prime, false)
  {
    n, intact := 0, true;
    var i := 0;
    ghost var run := INITIAL;
    assert Exec(schedule[..0], silence, maxFrames) == run;
    hide Delivered, Live, Exec, Step;
    while n < |schedule| && i < prime
      invariant n <= |schedule| && i == |run.out| <= prime
      invariant run == Exec(schedule[..n], silence, maxFrames) && Live(run, l, conn, [], prime)
    {
      ExecNext(schedule, n, silence, maxFrames);
      var e := schedule[n];
      n := n + 1;
      match e {
        case Arrive(callID, frames) =>
          Offer(l, callID, frames, maxFrames, conn, silence, run, [], prime);
        case Pop =>
          i := i + 1;
          var _, _, ok := SendNext(l, silence, conn, run, [], prime, maxFrames);
          intact := ok;
          if !intact {
            return;
          }
      }
      run := Step(run, e, silence, maxFrames);
    }
  }

  /** The paced loop: one frame a tick, and a cue when the frame starts a call. */
  method Pace(l: Listener, silence: seq<Frame>, conn: Connection, schedule: seq<Event>, from: nat,
              ghost prime: nat, maxFrames: int)
    returns (n: nat, intact: bool, cues: seq<Cue>)
    requires silence != [] && from <= |schedule|
    requires var run := Exec(schedule[..from], silence, maxFrames);
      Live(run, l, conn, [], prime) && (from < |schedule| ==> |run.out| >= prime)
    modifies l, conn
    ensures n <= |schedule| && (intact ==> n == |schedule|)
    ensures Delivered(Exec(schedule[..n], silence, maxFrames).out, conn.received, cues, prime, intact)
  {
    n, intact, cues := from, true, [];
    ghost var run := Exec(schedule[..from], silence, maxFrames);
    hide Delivered, Live, Exec, Step;
    while n < |schedule|
      invariant n <= |schedule| && (n < |schedule| ==> |run.out| >= prime)
      invariant run == Exec(schedule[..n], silence, maxFrames) && Live(run, l, conn, cues, prime)
    {
      ExecNext(schedule, n, silence, maxFrames);
      var e := schedule[n];
      n := n + 1;
      match e {
        case Arrive(callID, frames) =>
          Offer(l, callID, frames, maxFrames, conn, silence, run, cues, prime);
        case Pop =>
          var callID, at;
          callID, at, intact := SendNext(l, silence, conn, run, cues, prime, maxFrames);
          if !intact {
            return;
          }
          if callID != 0 {
            cues := cues + [Cue(callID, at)];
          }
      }
      run := Step(run, e, silence, maxFrames);
    }
  }

  lemma ExecNext(events: seq<Event>, n: nat, silence: seq<Frame>, maxFrames: int)
    requires silence != [] && n < |events|
    ensures Exec(events[..n + 1], silence, maxFrames) ==
            Step(Exec(events[..n], silence, maxFrames), events[n], silence, maxFrames)
  {
    assert events[..n + 1][..n] == events[..n];
  }

  /** A call is offered while the connection lives. */
  method Offer(l: Listener, callID: int, frames: seq<Frame>, maxFrames: int,
               ghost conn: Connection, ghost silence: seq<Frame>, ghost run: Run, ghost cues: seq<Cue>, ghost prime: nat)
    requires silence != [] && Live(run, l, conn, cues, prime)
    modifies l
    ensures var r := Step(run, Arrive(callID, frames), silence, maxFrames);
      r.out == run.out && Live(r, l, conn, cues, prime)
  {
    hide Delivered;
    l.Enqueue(callID, frames, maxFrames);
  }

  /** Takes the next frame off a listener and writes it. */
  method SendNext(l: Listener, silence: seq<Frame>, conn: Connection, ghost run: Run,
                  ghost cues: seq<Cue>, ghost prime: nat, ghost maxFrames: int)
    returns (callID: int, at: nat, ok: bool)
    requires silence != [] && Live(run, l, conn, cues, prime)
    modifies l, conn
    ensures var r := Step(run, Pop, silence, maxFrames);
      && |r.out| == |run.out| + 1 && at == |run.out| && callID == r.out[at].callID
      && if ok then Live(r, l, conn, if at >= prime && callID != 0 then cues + [Cue(callID, at)] else cues, prime)
         else Delivered(r.out, conn.received, cues, prime, false)
  {
    var frame;
    frame, callID, at := l.Next(silence);
    DeliverOne(run.out, Popped(frame, callID, at), conn.received, cues, prime);
    hide Delivered;
    ok := conn.Write(frame);
    assert cues + [] == cues;
  }

  /** What a client holds after the pops `out`: all their frames and cues, or, on a connection that failed,
      the frames before the last pop, a strict prefix of that one, and the cues before it. */
  ghost predicate Delivered(out: seq<Popped>, received: seq<byte>, cues: seq<Cue>, prime: nat, intact: bool) {
    if intact then received == Flatten(Data(out)) && cues == Cues(out, prime)
    else
      out != [] &&
      var sent, broken := out[..|out| - 1], out[|out| - 1].data;
      cues == Cues(sent, prime) &&
      exists k: nat :: k < |broken| && received == Flatten(Data(sent)) + broken[..k]
  }

  lemma DeliverOne(out: seq<Popped>, p: Popped, received: seq<byte>, cues: seq<Cue>, prime: nat)
    requires Delivered(out, received, cues, prime, true)
    ensures Delivered(out + [p], received + p.data,
                      cues + if |out| >= prime && p.callID != 0 then [Cue(p.callID, |out|)] else [], prime, true)
    ensures forall k: nat :: k < |p.data| ==> Delivered(out + [p], received + p.data[..k], cues, prime, false)
  {
    var all := out + [p];
    assert all[..|out|] == out;
    assert Data(all) == Data(out) + [p.data];
    FlattenAppend(Data(out), [p.data]);
    FlattenOne(p.data);
  }

  /** What the client received, cut short or not, splits into exactly the frames that were sent completely. */
  lemma ServedBytesSplitBack(events: seq<Event>, rawSilence: seq<byte>, maxFrames: int,
                             received: seq<byte>, cues: seq<Cue>, prime: nat, intact: bool)
    requires Mp3.Carve(rawSilence) != [] && FromEncoder(events)
    requires Delivered(Exec(events, Mp3.Carve(rawSilence), maxFrames).out, received, cues, prime, intact)
    ensures var chosen := Data(Exec(events, Mp3.Carve(rawSilence), maxFrames).out);
      Mp3.Carve(received) == if intact then chosen else chosen[..|chosen| - 1]
  {
    var out := Exec(events, Mp3.Carve(rawSilence), maxFrames).out;
    var chosen := Data(out);
    WrittenAreWhole(events, rawSilence, maxFrames);
    hide Mp3.Carve, Mp3.Whole, Exec;
    if intact {
      Mp3.SplitConcat(chosen);
    } else {
      var sent, broken := out[..|out| - 1], out[|out| - 1].data;
      var k: nat :| k < |broken| && received == Flatten(Data(sent)) + broken[..k];
      assert Data(sent) == chosen[..|chosen| - 1];
      assert Mp3.Whole(chosen[|chosen| - 1]);
      Mp3.SplitConcatCut(Data(sent), broken, k);
    }
  }
}
