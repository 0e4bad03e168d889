/** Whole runs of one listener: what is played, trimmed, cued and written
    (backend/internal/stream/manager.go). */
module Timeline {
  import opened Prelude
  import opened Stream
  import Mp3

  /** A call's frames arrive, or the connection takes the next frame. */
  datatype Event = Arrive(callID: int, frames: seq<Frame>) | Pop

  datatype Fate = Played(at: nat) | Trimmed

  /** A listener's state with its history: every frame ever offered, what became of those no longer queued,
      every frame popped, and which offered frame each popped one was (None for filler). */
  datatype Run = Run(state: ListenerState, offered: seq<QueuedFrame>, fate: seq<Fate>,
                     out: seq<Popped>, source: seq<Option<nat>>)

  const INITIAL: Run := Run(ListenerState(0, [], 0), [], [], [], [])

  function Step(r: Run, e: Event, silence: seq<Frame>, maxFrames: int): Run
    requires silence != []
  {
    match e
    case Arrive(callID, frames) =>
      var dropped := Excess(|r.state.queue| + |frames|, maxFrames);
      r.(state := PushStep(r.state, callID, frames, maxFrames),
         offered := r.offered + Tag(callID, frames),
         fate := r.fate + seq(dropped, _ => Trimmed))
    case Pop =>
      var (state, popped) := PopStep(r.state, silence);
      var call := r.state.queue != [];
      r.(state := state,
         fate := if call then r.fate + [Played(popped.at)] else r.fate,
         out := r.out + [popped],
         source := r.source + [if call then Some(|r.fate|) else None])
  }

  function Exec(events: seq<Event>, silence: seq<Frame>, maxFrames: int): Run
    requires silence != []
  {
    if events == [] then INITIAL
    else Step(Exec(events[..|events| - 1], silence, maxFrames), events[|events| - 1], silence, maxFrames)
  }

  function Fillers(source: seq<Option<nat>>): nat {
    if source == [] then 0
    else Fillers(source[..|source| - 1]) + if source[|source| - 1] == None then 1 else 0
  }

  function Plays(fate: seq<Fate>): nat {
    if fate == [] then 0 else Plays(fate[..|fate| - 1]) + if fate[|fate| - 1].Played? then 1 else 0
  }

  // ---------------------------------------------------------------------
  // Conservation
  // ---------------------------------------------------------------------

  /** The queue is exactly the offered frames whose fate is still open. */
  ghost predicate QueueIsTail(r: Run) {
    |r.fate| <= |r.offered| && r.state.queue == r.offered[|r.fate|..]
  }

  /** Positions count the pops, and silence has been used as often as it was played. */
  ghost predicate Positions(r: Run) {
    && r.state.framesWritten == |r.out| == |r.source|
    && r.state.silenceIdx == Fillers(r.source)
    && (forall k :: 0 <= k < |r.out| ==> r.out[k].at == k)
    && Plays(r.fate) + Fillers(r.source) == |r.out|
  }

  /** Fates and sources are the two sides of one matching, increasing on both. */
  ghost predicate Matching(r: Run)
    requires |r.fate| <= |r.offered| && |r.out| == |r.source|
  {
    && (forall k :: 0 <= k < |r.source| && r.source[k].Some? ==>
          var j := r.source[k].value;
          j < |r.fate| && r.fate[j] == Played(k) &&
          r.out[k].data == r.offered[j].data && r.out[k].callID == r.offered[j].callID)
    && (forall j :: 0 <= j < |r.fate| && r.fate[j].Played? ==>
          r.fate[j].at < |r.source| && r.source[r.fate[j].at] == Some(j))
    && (forall k, l :: 0 <= k < l < |r.source| && r.source[k].Some? && r.source[l].Some? ==>
          r.source[k].value < r.source[l].value)
  }

  /** The filler frames alone are the filler played round and round. */
  ghost predicate FillerCycles(r: Run, silence: seq<Frame>)
    requires silence != [] && |r.out| == |r.source|
  {
    forall k :: 0 <= k < |r.source| && r.source[k] == None ==>
      r.out[k].callID == 0 && r.out[k].data == silence[Fillers(r.source[..k]) % |silence|]
  }

  ghost predicate Consistent(r: Run, silence: seq<Frame>)
    requires silence != []
  {
    QueueIsTail(r) && Positions(r) && Matching(r) && FillerCycles(r, silence)
  }

  lemma CountsSnoc(source: seq<Option<nat>>, x: Option<nat>, fate: seq<Fate>, y: Fate)
    ensures Fillers(source + [x]) == Fillers(source) + if x == None then 1 else 0
    ensures Plays(fate + [y]) == Plays(fate) + if y.Played? then 1 else 0
  {
    assert (source + [x])[..|source|] == source;
    assert (fate + [y])[..|fate|] == fate;
  }

  lemma {:induction false} TrimmingPlaysNothing(fate: seq<Fate>, n: nat)
    ensures Plays(fate + seq(n, _ => Trimmed)) == Plays(fate)
  {
    if n == 0 {
      assert fate + seq(n, _ => Trimmed) == fate;
    } else {
      TrimmingPlaysNothing(fate, n - 1);
      assert fate + seq(n, _ => Trimmed) == (fate + seq(n - 1, _ => Trimmed)) + [Trimmed];
      CountsSnoc([], None, fate + seq(n - 1, _ => Trimmed), Trimmed);
    }
  }

  lemma ArriveKeepsQueue(r: Run, callID: int, frames: seq<Frame>, silence: seq<Frame>, maxFrames: int)
    requires silence != [] && QueueIsTail(r)
    ensures QueueIsTail(Step(r, Arrive(callID, frames), silence, maxFrames))
  {
    assert r.offered[|r.fate|..] + Tag(callID, frames) == (r.offered + Tag(callID, frames))[|r.fate|..];
  }

  lemma ArriveKeepsMatching(r: Run, callID: int, frames: seq<Frame>, silence: seq<Frame>, maxFrames: int)
    requires silence != [] && QueueIsTail(r) && |r.out| == |r.source| && Matching(r)
    requires QueueIsTail(Step(r, Arrive(callID, frames), silence, maxFrames))
    ensures Matching(Step(r, Arrive(callID, frames), silence, maxFrames))
  {
    hide Tag, PushStep, Excess;
    var r' := Step(r, Arrive(callID, frames), silence, maxFrames);
    assert r'.fate[..|r.fate|] == r.fate && r'.offered[..|r.offered|] == r.offered;
  }

  lemma ArriveKeepsConsistent(r: Run, callID: int, frames: seq<Frame>, silence: seq<Frame>, maxFrames: int)
    requires silence != [] && Consistent(r, silence)
    ensures Consistent(Step(r, Arrive(callID, frames), silence, maxFrames), silence)
  {
    hide QueueIsTail, Matching, Fillers, Plays, Tag, Excess;
    var d := Excess(|r.state.queue| + |frames|, maxFrames);
    ArriveKeepsQueue(r, callID, frames, silence, maxFrames);
    ArriveKeepsMatching(r, callID, frames, silence, maxFrames);
    TrimmingPlaysNothing(r.fate, d);
  }

  lemma PopKeepsMatching(r: Run, silence: seq<Frame>, maxFrames: int)
    requires silence != [] && QueueIsTail(r) && Positions(r) && Matching(r)
    ensures var r' := Step(r, Pop, silence, maxFrames); QueueIsTail(r') && Matching(r')
  {
    hide Fillers, Plays, Tag, PushStep, Excess;
    var r', n, m := Step(r, Pop, silence, maxFrames), |r.source|, |r.fate|;
    assert r'.source[..n] == r.source && r'.out[..n] == r.out && r'.offered == r.offered;
    if r.state.queue == [] {
      assert r'.fate == r.fate && r'.source[n] == None;
    } else {
      assert r'.fate[..m] == r.fate && r'.fate[m] == Played(n) && r'.source[n] == Some(m);
      assert r.state.queue[0] == r.offered[m] && r.state.queue[1..] == r.offered[m + 1..];
    }
  }

  /** The shape of a pop, leaving out the queue. */
  lemma PopShape(r: Run, silence: seq<Frame>, maxFrames: int)
    requires silence != [] && r.state.framesWritten == |r.out| == |r.source|
    ensures var r', n, call := Step(r, Pop, silence, maxFrames), |r.source|, r.state.queue != [];
      && r'.state.framesWritten == n + 1 && r'.state.silenceIdx == r.state.silenceIdx + (if call then 0 else 1)
      && r'.source == r.source + [if call then Some(|r.fate|) else None]
      && r'.fate == (if call then r.fate + [Played(n)] else r.fate)
      && |r'.out| == n + 1 && r'.out[..n] == r.out && r'.out[n].at == n
      && (!call ==> r'.out[n].callID == 0 && r'.out[n].data == silence[r.state.silenceIdx % |silence|])
  {
  }

  lemma PopKeepsCounts(r: Run, silence: seq<Frame>, maxFrames: int)
    requires silence != [] && Positions(r) && FillerCycles(r, silence)
    ensures var r' := Step(r, Pop, silence, maxFrames); Positions(r') && FillerCycles(r', silence)
  {
    PopKeepsPositions(r, silence, maxFrames);
    PopKeepsCycle(r, silence, maxFrames);
  }

  lemma PopKeepsPositions(r: Run, silence: seq<Frame>, maxFrames: int)
    requires silence != [] && Positions(r)
    ensures Positions(Step(r, Pop, silence, maxFrames))
  {
    PopShape(r, silence, maxFrames);
    hide Step, Fillers, Plays;
    var r', n := Step(r, Pop, silence, maxFrames), |r.source|;
    CountsSnoc(r.source, r'.source[n], r.fate, Played(n));
    assert forall k :: 0 <= k < n ==> r'.out[k] == r'.out[..n][k];
  }

  lemma PopKeepsCycle(r: Run, silence: seq<Frame>, maxFrames: int)
    requires silence != [] && Positions(r) && FillerCycles(r, silence)
    ensures |Step(r, Pop, silence, maxFrames).out| == |Step(r, Pop, silence, maxFrames).source|
    ensures FillerCycles(Step(r, Pop, silence, maxFrames), silence)
  {
    PopShape(r, silence, maxFrames);
    hide Step, Fillers, Plays;
    var r', n := Step(r, Pop, silence, maxFrames), |r.source|;
    assert r'.source[..n] == r.source;
    forall k | 0 <= k < |r'.source| && r'.source[k] == None
      ensures r'.out[k].callID == 0 && r'.out[k].data == silence[Fillers(r'.source[..k]) % |silence|]
    {
      if k < n {
        assert r'.source[..k] == r.source[..k] && r'.out[k] == r'.out[..n][k] == r.out[k] && r'.source[k] == r.source[k];
      }
    }
  }

  /** Conservation, in every run: each offered frame is still queued, was played once, or was trimmed. */
  lemma {:induction false} RunIsConsistent(events: seq<Event>, silence: seq<Frame>, maxFrames: int)
    requires silence != []
    ensures Consistent(Exec(events, silence, maxFrames), silence)
  {
    if events != [] {
      var before := Exec(events[..|events| - 1], silence, maxFrames);
      RunIsConsistent(events[..|events| - 1], silence, maxFrames);
      match events[|events| - 1]
      case Arrive(callID, frames) => ArriveKeepsConsistent(before, callID, frames, silence, maxFrames);
      case Pop =>
        PopKeepsMatching(before, silence, maxFrames);
        PopKeepsCounts(before, silence, maxFrames);
    }
  }

  /** The backlog bound holds in every reachable state. */
  lemma {:induction false} BacklogBounded(events: seq<Event>, silence: seq<Frame>, maxFrames: int)
    requires silence != [] && maxFrames > 0
    ensures |Exec(events, silence, maxFrames).state.queue| <= maxFrames
  {
    if events != [] {
      BacklogBounded(events[..|events| - 1], silence, maxFrames);
    }
  }

  // ---------------------------------------------------------------------
  // Cues
  // ---------------------------------------------------------------------

  /** The cues announced for a run whose first `prime` pops were the priming burst, in order. */
  function Cues(out: seq<Popped>, prime: nat): seq<Cue> {
    if out == [] then []
    else
      var p := out[|out| - 1];
      Cues(out[..|out| - 1], prime) +
      if |out| > prime && p.callID != 0 then [Cue(p.callID, |out| - 1)] else []
  }

  /** Every frame offered by the arrivals among the events, in order. */
  function Offered(events: seq<Event>): seq<QueuedFrame> {
    if events == [] then []
    else
      Offered(events[..|events| - 1]) +
      match events[|events| - 1]
      case Arrive(callID, frames) => Tag(callID, frames)
      case Pop => []
  }

  lemma {:induction false} OfferedIsHistory(events: seq<Event>, silence: seq<Frame>, maxFrames: int)
    requires silence != []
    ensures Exec(events, silence, maxFrames).offered == Offered(events)
  {
    if events != [] {
      OfferedIsHistory(events[..|events| - 1], silence, maxFrames);
    }
  }

  /** The frames of the arrivals, one call after the other. */
  function Arrived(events: seq<Event>): seq<Frame> {
    if events == [] then []
    else
      Arrived(events[..|events| - 1]) +
      match events[|events| - 1]
      case Arrive(_, frames) => frames
      case Pop => []
  }

  /** What is offered is what arrived: no frame is lost, repeated or moved on its way into the queue. */
  lemma {:induction false} OfferedIsArrived(events: seq<Event>)
    ensures Frames(Offered(events)) == Arrived(events)
  {
    if events != [] {
      OfferedIsArrived(events[..|events| - 1]);
    }
  }

  /** The j-th offered frame is the first frame of the call that arrived as event i. */
  ghost predicate OpensCall(events: seq<Event>, i: nat, j: nat) {
    i < |events| && events[i].Arrive? && events[i].frames != [] && j == |Offered(events[..i])|
  }

  /** The j-th offered frame opens a call of id c. */
  ghost predicate OpensCallOf(events: seq<Event>, j: nat, c: int) {
    exists i: nat :: OpensCall(events, i, j) && events[i].callID == c
  }

  /** A frame carries a nonzero id exactly when it opens a call of that id. */
  lemma {:induction false} IdMarksCallStart(events: seq<Event>, j: nat, c: int)
    requires j < |Offered(events)| && c != 0
    ensures Offered(events)[j].callID == c <==> OpensCallOf(events, j, c)
  {
    var init := events[..|events| - 1];
    var last := events[|events| - 1];
    assert forall i :: 0 <= i < |init| ==> events[..i] == init[..i] && events[i] == init[i];
    if j < |Offered(init)| {
      IdMarksCallStart(init, j, c);
      assert forall i: nat :: i < |init| ==> (OpensCall(init, i, j) <==> OpensCall(events, i, j));
      assert !OpensCall(events, |init|, j);
    } else {
      OfferedGrows(init);
      assert forall i: nat :: i < |init| ==> !OpensCall(events, i, j);
      assert OpensCall(events, |init|, j) <==> j == |Offered(init)|;
    }
  }

  lemma {:induction false} OfferedGrows(events: seq<Event>)
    ensures forall i :: 0 <= i < |events| && events[i].Arrive? ==>
      |Offered(events[..i])| + |events[i].frames| <= |Offered(events)|
  {
    if events != [] {
      var init := events[..|events| - 1];
      OfferedGrows(init);
      assert forall i :: 0 <= i < |init| ==> events[..i] == init[..i];
    }
  }

  lemma {:induction false} CueIff(out: seq<Popped>, prime: nat, c: Cue)
    ensures c in Cues(out, prime) <==> prime <= c.at < |out| && out[c.at].callID == c.callID && c.callID != 0
  {
    if out != [] {
      CueIff(out[..|out| - 1], prime, c);
    }
  }

  /** Cues come out in stream order. */
  lemma {:induction false} CuesIncrease(out: seq<Popped>, prime: nat)
    ensures forall k, l :: 0 <= k < l < |Cues(out, prime)| ==> Cues(out, prime)[k].at < Cues(out, prime)[l].at
    ensures forall k :: 0 <= k < |Cues(out, prime)| ==> Cues(out, prime)[k].at < |out|
  {
    if out != [] {
      CuesIncrease(out[..|out| - 1], prime);
    }
  }

  /** In every run, a cue (c, at) is announced exactly when, after priming, the frame written at position
      `at` is the first frame of a call that arrived with id c. */
  lemma CuesExact(events: seq<Event>, silence: seq<Frame>, maxFrames: int, prime: nat, c: int, at: nat)
    requires silence != [] && c != 0
    ensures var r := Exec(events, silence, maxFrames);
      Cue(c, at) in Cues(r.out, prime) <==>
      prime <= at && exists j: nat :: OpensCallOf(events, j, c) && j < |r.fate| && r.fate[j] == Played(at)
  {
    var r := Exec(events, silence, maxFrames);
    RunIsConsistent(events, silence, maxFrames);
    OfferedIsHistory(events, silence, maxFrames);
    CueIff(r.out, prime, Cue(c, at));
    hide Exec, Offered, Cues;
    if Cue(c, at) in Cues(r.out, prime) {
      var j := r.source[at].value;
      IdMarksCallStart(events, j, c);
      assert OpensCallOf(events, j, c) && j < |r.fate| && r.fate[j] == Played(at);
    }
    if j: nat :| prime <= at && OpensCallOf(events, j, c) && j < |r.fate| && r.fate[j] == Played(at) {
      IdMarksCallStart(events, j, c);
      assert r.source[at] == Some(j);
    }
  }

  /** Each call id is offered by at most one arrival. */
  ghost predicate DistinctCalls(events: seq<Event>) {
    forall i, k :: 0 <= i < k < |events| && events[i].Arrive? && events[k].Arrive? ==>
      events[i].callID != events[k].callID
  }

  /** A call whose first frame was trimmed is never announced, however much of the rest is played. */
  lemma TrimmedCallNeverCued(events: seq<Event>, silence: seq<Frame>, maxFrames: int, prime: nat, i: nat, j: nat)
    requires silence != [] && DistinctCalls(events) && OpensCall(events, i, j)
    requires var r := Exec(events, silence, maxFrames); j < |r.fate| && r.fate[j] == Trimmed
    ensures forall cue :: cue in Cues(Exec(events, silence, maxFrames).out, prime) ==>
      cue.callID != events[i].callID
  {
    var out := Exec(events, silence, maxFrames).out;
    forall cue | cue in Cues(out, prime)
      ensures cue.callID != events[i].callID
    {
      CueIff(out, prime, cue);
      CuesExact(events, silence, maxFrames, prime, cue.callID, cue.at);
      hide Exec, Cues, Offered;
      var fate := Exec(events, silence, maxFrames).fate;
      var m: nat :| OpensCallOf(events, m, cue.callID) && m < |fate| && fate[m] == Played(cue.at);
      var k: nat :| OpensCall(events, k, m) && events[k].callID == cue.callID;
      if cue.callID == events[i].callID {
        assert false;
      }
    }
  }

  /** The two frames decode to equally many samples at the same rate. */
  predicate SameFormat(f: Frame, g: Frame) {
    var h, k := Mp3.ParseFrameHeader(f), Mp3.ParseFrameHeader(g);
    h.Some? && k.Some? && h.value.samples == k.value.samples && h.value.sampleRate == k.value.sampleRate
  }

  /** All frames, filler included, are in the filler's format: the encoder is told one rate for everything. */
  ghost predicate OneFormat(events: seq<Event>, silence: seq<Frame>)
    requires silence != []
  {
    (forall f :: f in silence ==> SameFormat(f, silence[0])) &&
    forall e, f :: e in events && e.Arrive? && f in e.frames ==> SameFormat(f, silence[0])
  }

  /** How many samples the popped frames decode to. */
  function PlayedSamples(out: seq<Popped>): nat {
    if out == [] then 0
    else
      PlayedSamples(out[..|out| - 1]) +
      match Mp3.ParseFrameHeader(out[|out| - 1].data) case Some(h) => h.samples case None => 0
  }

  lemma {:induction false} OfferedFormat(events: seq<Event>, silence: seq<Frame>)
    requires silence != [] && OneFormat(events, silence)
    ensures forall q :: q in Offered(events) ==> SameFormat(q.data, silence[0])
  {
    hide SameFormat;
    if events != [] {
      OfferedFormat(events[..|events| - 1], silence);
    }
  }

  lemma PlayedFormat(events: seq<Event>, silence: seq<Frame>, maxFrames: int)
    requires silence != [] && OneFormat(events, silence)
    ensures forall p :: p in Exec(events, silence, maxFrames).out ==> SameFormat(p.data, silence[0])
  {
    var r := Exec(events, silence, maxFrames);
    RunIsConsistent(events, silence, maxFrames);
    OfferedIsHistory(events, silence, maxFrames);
    OfferedFormat(events, silence);
    hide Exec, Offered, SameFormat;
    forall k | 0 <= k < |r.out|
      ensures SameFormat(r.out[k].data, silence[0])
    {
      if r.source[k].Some? {
        assert r.offered[r.source[k].value] in r.offered;
      } else {
        assert r.out[k].data == silence[Fillers(r.source[..k]) % |silence|];
      }
    }
  }

  lemma {:induction false} SamplesAddUp(out: seq<Popped>, f: Frame)
    requires Mp3.ParseFrameHeader(f).Some? && forall p :: p in out ==> SameFormat(p.data, f)
    ensures PlayedSamples(out) == |out| * Mp3.ParseFrameHeader(f).value.samples
  {
    hide Mp3.ParseFrameHeader;
    if out != [] {
      var n := |out| - 1;
      SamplesAddUp(out[..n], f);
      assert out[n] in out;
    }
  }

  /** In every run the offset announced for position `at`, which is `at` periods, never runs ahead of what the
      first `at` frames written play and lags it by less than `at` nanoseconds (both scaled by the rate). */
  lemma OffsetLag(events: seq<Event>, silence: seq<Frame>, maxFrames: int, at: nat)
    requires silence != [] && Mp3.Whole(silence[0]) && OneFormat(events, silence)
    requires at <= |Exec(events, silence, maxFrames).out|
    ensures var rate := Mp3.ParseFrameHeader(silence[0]).value.sampleRate;
      var played := PlayedSamples(Exec(events, silence, maxFrames).out[..at]) * NANOS_PER_SECOND;
      var announced := at * Period(silence[0]) * rate;
      announced <= played && (at > 0 ==> played - announced < at * rate)
  {
    PlayedFormat(events, silence, maxFrames);
    hide Exec, SameFormat, PlayedSamples, Period, Mp3.ParseFrameHeader;
    var out := Exec(events, silence, maxFrames).out[..at];
    SamplesAddUp(out, silence[0]);
    PeriodLag(silence[0], at);
    Regroup(at, Mp3.ParseFrameHeader(silence[0]).value.samples, NANOS_PER_SECOND);
  }

  lemma PeriodLag(frame: Frame, at: nat)
    requires Mp3.Whole(frame)
    ensures var h := Mp3.ParseFrameHeader(frame).value;
      var exact := at * (h.samples * NANOS_PER_SECOND);
      var announced := at * Period(frame) * h.sampleRate;
      announced <= exact && (at > 0 ==> exact - announced < at * h.sampleRate)
  {
    var h := Mp3.ParseFrameHeader(frame).value;
    LagBound(at, h.samples * NANOS_PER_SECOND, h.sampleRate);
  }

  lemma Regroup(a: int, b: int, c: int)
    ensures a * b * c == a * (b * c)
  {
  }

  lemma LagBound(at: nat, n: nat, rate: nat)
    requires rate > 0
    ensures at * (n / rate) * rate <= at * n
    ensures at > 0 ==> at * n - at * (n / rate) * rate < at * rate
  {
    var q, m := n / rate, n % rate;
    Distribute(at, q, rate, m);
    if at > 0 {
      ScaledRemainder(at, m, rate);
    }
  }

  lemma Distribute(at: nat, q: nat, rate: nat, m: nat)
    ensures at * (q * rate + m) == at * q * rate + at * m
  {
  }

  lemma ScaledRemainder(at: nat, m: nat, rate: nat)
    requires at > 0 && m < rate
    ensures at * m < at * rate
  {
  }

  // ---------------------------------------------------------------------
  // The bytes on the wire
  // ---------------------------------------------------------------------

  function Data(out: seq<Popped>): (d: seq<Frame>)
    ensures |d| == |out|
  {
    seq(|out|, k requires 0 <= k < |out| => out[k].data)
  }

  /** Everything the arrivals carry came out of the frame splitter. */
  ghost predicate FromEncoder(events: seq<Event>) {
    forall e :: e in events && e.Arrive? ==> exists raw :: e.frames == Mp3.Carve(raw)
  }

  lemma {:induction false} OfferedAreWhole(events: seq<Event>)
    requires FromEncoder(events)
    ensures forall j :: 0 <= j < |Offered(events)| ==> Mp3.Whole(Offered(events)[j].data)
  {
    hide Mp3.Whole, Mp3.Carve;
    if events != [] {
      var last := events[|events| - 1];
      OfferedAreWhole(events[..|events| - 1]);
      if last.Arrive? {
        var raw :| last.frames == Mp3.Carve(raw);
        CarvedIsWhole(raw);
      }
    }
  }

  lemma CarvedIsWhole(raw: seq<byte>)
    ensures Mp3.AllWhole(Mp3.Carve(raw))
  {
    Mp3.CarvedFramesAreWhole(raw, Mp3.Start(raw));
  }

  /** Only whole frames are ever written. */
  lemma WrittenAreWhole(events: seq<Event>, rawSilence: seq<byte>, maxFrames: int)
    requires Mp3.Carve(rawSilence) != [] && FromEncoder(events)
    ensures Mp3.AllWhole(Data(Exec(events, Mp3.Carve(rawSilence), maxFrames).out))
  {
    var silence := Mp3.Carve(rawSilence);
    var r := Exec(events, silence, maxFrames);
    RunIsConsistent(events, silence, maxFrames);
    OfferedIsHistory(events, silence, maxFrames);
    OfferedAreWhole(events);
    CarvedIsWhole(rawSilence);
    hide Mp3.Whole, Mp3.Carve, Exec, Offered;
    forall k | 0 <= k < |r.out|
      ensures Mp3.Whole(Data(r.out)[k])
    {
      if r.source[k].Some? {
        assert Mp3.Whole(r.offered[r.source[k].value].data);
      } else {
        assert Mp3.Whole(silence[Fillers(r.source[..k]) % |silence|]);
      }
    }
  }

  /** Whatever the interleaving of arrivals and pops, the bytes written split back into exactly the frames
      that were chosen, in order. */
  lemma StreamSplitsBack(events: seq<Event>, rawSilence: seq<byte>, maxFrames: int)
    requires Mp3.Carve(rawSilence) != [] && FromEncoder(events)
    ensures var chosen := Data(Exec(events, Mp3.Carve(rawSilence), maxFrames).out);
      Mp3.Carve(Flatten(chosen)) == chosen
  {
    WrittenAreWhole(events, rawSilence, maxFrames);
    Mp3.SplitConcat(Data(Exec(events, Mp3.Carve(rawSilence), maxFrames).out));
  }
}
