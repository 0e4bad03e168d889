/** The per-listener audio timeline (backend/internal/stream/manager.go). */
module Stream {
  import opened Prelude
  import Mp3

  const NANOS_PER_SECOND: int := 1_000_000_000
  const PRIME_SECONDS: int := 2
  const MAX_QUEUE_SECONDS: int := 120

  type Frame = seq<byte>

  /** callID is nonzero only on the first frame of a call. */
  datatype QueuedFrame = QueuedFrame(callID: int, data: Frame)

  datatype ListenerState = ListenerState(framesWritten: nat, queue: seq<QueuedFrame>, silenceIdx: nat)

  /** What `next` returns: the frame, the id of the call starting there (or 0), its position. */
  datatype Popped = Popped(data: Frame, callID: int, at: nat)

  datatype Cue = Cue(callID: int, at: nat)

  function Tag(callID: int, frames: seq<Frame>): (q: seq<QueuedFrame>)
    ensures |q| == |frames|
  {
    seq(|frames|, i requires 0 <= i < |frames| => QueuedFrame(if i == 0 then callID else 0, frames[i]))
  }

  /** How many of n queued frames the backlog bound drops. */
  function Excess(n: nat, maxFrames: int): (d: nat)
    ensures d <= n
  {
    if maxFrames > 0 && n > maxFrames then n - maxFrames else 0
  }

  function PopStep(s: ListenerState, silence: seq<Frame>): (ListenerState, Popped)
    requires silence != []
  {
    if s.queue != [] then
      (ListenerState(s.framesWritten + 1, s.queue[1..], s.silenceIdx),
       Popped(s.queue[0].data, s.queue[0].callID, s.framesWritten))
    else
      (ListenerState(s.framesWritten + 1, [], s.silenceIdx + 1),
       Popped(silence[s.silenceIdx % |silence|], 0, s.framesWritten))
  }

  function PushStep(s: ListenerState, callID: int, frames: seq<Frame>, maxFrames: int): ListenerState {
    var grown := s.queue + Tag(callID, frames);
    s.(queue := grown[Excess(|grown|, maxFrames)..])
  }

  /** The frames of a queue without their ids. */
  function Frames(queue: seq<QueuedFrame>): (f: seq<Frame>)
    ensures |f| == |queue|
  {
    seq(|queue|, i requires 0 <= i < |queue| => queue[i].data)
  }

  /** After an arrival the queue holds, of the frames that were waiting and the call's in that order, exactly the
      last maxFrames, or all when they are no more or there is no limit. */
  lemma PushKeepsLast(s: ListenerState, callID: int, frames: seq<Frame>, maxFrames: int)
    ensures var all, kept := Frames(s.queue) + frames, Frames(PushStep(s, callID, frames, maxFrames).queue);
      kept == if 0 < maxFrames < |all| then all[|all| - maxFrames..] else all
    ensures PushStep(s, callID, frames, maxFrames).framesWritten == s.framesWritten
    ensures PushStep(s, callID, frames, maxFrames).silenceIdx == s.silenceIdx
  {
    assert Frames(s.queue + Tag(callID, frames)) == Frames(s.queue) + frames;
  }

  // ---------------------------------------------------------------------
  // The listener and the manager, as objects
  // ---------------------------------------------------------------------

  class Listener {
    var framesWritten: nat
    var queue: seq<QueuedFrame>
    var silenceIdx: nat

    function State(): ListenerState
      reads this
    {
      ListenerState(framesWritten, queue, silenceIdx)
    }

    constructor ()
      ensures State() == ListenerState(0, [], 0)
    {
      framesWritten, queue, silenceIdx := 0, [], 0;
    }

    method Next(silence: seq<Frame>) returns (data: Frame, callID: int, at: nat)
      requires silence != []
      modifies this
      ensures (State(), Popped(data, callID, at)) == PopStep(old(State()), silence)
    {
      at := framesWritten;
      framesWritten := framesWritten + 1;
      if |queue| > 0 {
        var f := queue[0];
        queue := queue[1..];
        return f.data, f.callID, at;
      }
      data := silence[silenceIdx % |silence|];
      silenceIdx := silenceIdx + 1;
      callID := 0;
    }

    method Enqueue(callID: int, frames: seq<Frame>, maxFrames: int)
      modifies this
      ensures State() == PushStep(old(State()), callID, frames, maxFrames)
      ensures var all := Frames(old(queue)) + frames;
        Frames(queue) == if 0 < maxFrames < |all| then all[|all| - maxFrames..] else all
    {
      ghost var was := queue;
      PushKeepsLast(State(), callID, frames, maxFrames);
      for i := 0 to |frames|
        invariant framesWritten == old(framesWritten) && silenceIdx == old(silenceIdx)
        invariant queue == was + Tag(callID, frames)[..i]
      {
        var id := 0;
        if i == 0 {
          id := callID;
        }
        queue := queue + [QueuedFrame(id, frames[i])];
      }
      if maxFrames > 0 && |queue| > maxFrames {
        var dropped := |queue| - maxFrames;
        queue := queue[dropped..];
      }
    }
  }

  function MaxFrames(period: int): int {
    if period <= 0 then 0 else MAX_QUEUE_SECONDS * NANOS_PER_SECOND / period
  }

  /** The limit is the number of whole frames that 120 seconds hold; none is set before the period is known. */
  lemma MaxFramesIs(period: int)
    ensures period <= 0 ==> MaxFrames(period) == 0
    ensures period > 0 ==>
      MaxFrames(period) * period <= 120 * 1_000_000_000 < (MaxFrames(period) + 1) * period
  {
    if period > 0 {
      WholeTimes(MAX_QUEUE_SECONDS * NANOS_PER_SECOND, period);
    }
  }

  lemma WholeTimes(n: nat, d: int)
    requires d > 0
    ensures n / d * d <= n < (n / d + 1) * d
  {
    assert n == n / d * d + n % d;
  }

  /** Frame duration in nanoseconds, rounded down; frames of a started manager last 12 to 144 ms. */
  function Period(frame: Frame): (p: nat)
    requires Mp3.Whole(frame)
    ensures 12_000_000 <= p <= 144_000_000
  {
    var h := Mp3.ParseFrameHeader(frame).value;
    h.samples * NANOS_PER_SECOND / h.sampleRate
  }

  /** A period is the longest whole number of nanoseconds in which no more than the frame's samples are played. */
  lemma PeriodIs(frame: Frame)
    requires Mp3.Whole(frame)
    ensures var h, p := Mp3.ParseFrameHeader(frame).value, Period(frame);
      p * h.sampleRate <= h.samples * 1_000_000_000 < (p + 1) * h.sampleRate
  {
    var h := Mp3.ParseFrameHeader(frame).value;
    WholeTimes(h.samples * NANOS_PER_SECOND, h.sampleRate);
  }
}
