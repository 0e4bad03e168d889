/** Duplicate-call detection at ingest (backend/internal/audio/duplicate.go, backend/internal/db/calls.sql.go). */
module Duplicate {
  /** A stored call: its system and talkgroup rows and its start in Unix seconds. */
  datatype Call = Call(system: int, talkgroup: int, at: int)

  predicate HasCallAtTimestamp(calls: seq<Call>, system: int, talkgroup: int, at: int) {
    exists c :: c in calls && c.system == system && c.talkgroup == talkgroup && c.at == at
  }

  predicate HasCallInTimeRange(calls: seq<Call>, system: int, talkgroup: int, lo: int, hi: int) {
    exists c :: c in calls && c.system == system && c.talkgroup == talkgroup && lo <= c.at <= hi
  }

  /** The window in whole seconds, at least one. */
  function WindowSeconds(windowMs: int): (w: int)
    requires windowMs > 0
    ensures w >= 1
  {
    if windowMs / 1000 < 1 then 1 else windowMs / 1000
  }

  predicate IsDuplicate(calls: seq<Call>, call: Call, windowMs: int) {
    if windowMs <= 0 then false
    else if HasCallAtTimestamp(calls, call.system, call.talkgroup, call.at) then true
    else
      var w := WindowSeconds(windowMs);
      HasCallInTimeRange(calls, call.system, call.talkgroup, call.at - w, call.at + w)
  }

  /** What is stored after the calls arrived in this order, each checked and stored in one step. */
  function Stored(arrivals: seq<Call>, windowMs: int): seq<Call> {
    if arrivals == [] then []
    else
      var calls, call := Stored(arrivals[..|arrivals| - 1], windowMs), arrivals[|arrivals| - 1];
      if IsDuplicate(calls, call, windowMs) then calls else calls + [call]
  }

  predicate SameStream(a: Call, b: Call) {
    a.system == b.system && a.talkgroup == b.talkgroup
  }

  predicate Near(a: Call, b: Call, w: int) {
    SameStream(a, b) && -w <= a.at - b.at <= w
  }

  /** Any two stored calls of one system and talkgroup are more than w seconds apart. */
  ghost predicate Spaced(calls: seq<Call>, w: int) {
    forall i, j :: 0 <= i < j < |calls| ==> !Near(calls[i], calls[j], w)
  }

  /** The exact-timestamp query never changes the answer. */
  lemma TimestampCheckRedundant(calls: seq<Call>, call: Call, windowMs: int)
    requires windowMs > 0
    ensures IsDuplicate(calls, call, windowMs) <==> exists c :: c in calls && Near(c, call, WindowSeconds(windowMs))
  {
    var w := WindowSeconds(windowMs);
    if c :| c in calls && Near(c, call, w) {
      assert c.system == call.system && call.at - w <= c.at <= call.at + w;
    }
    if c :| c in calls && c.system == call.system && c.talkgroup == call.talkgroup && call.at - w <= c.at <= call.at + w {
      assert Near(c, call, w);
    }
    if c :| c in calls && c.system == call.system && c.talkgroup == call.talkgroup && c.at == call.at {
      assert Near(c, call, w);
    }
  }

  /** Whatever arrives in whatever order, what is stored is spaced. */
  lemma {:induction false} StoredIsSpaced(arrivals: seq<Call>, windowMs: int)
    requires windowMs > 0
    ensures Spaced(Stored(arrivals, windowMs), WindowSeconds(windowMs))
  {
    if arrivals != [] {
      var init, call := arrivals[..|arrivals| - 1], arrivals[|arrivals| - 1];
      StoredIsSpaced(init, windowMs);
      TimestampCheckRedundant(Stored(init, windowMs), call, windowMs);
    }
  }

  /** Only arrivals are stored, and storing one never displaces another. */
  lemma {:induction false} StoredGrows(arrivals: seq<Call>, call: Call, windowMs: int)
    ensures Stored(arrivals, windowMs) <= Stored(arrivals + [call], windowMs)
    ensures forall c :: c in Stored(arrivals + [call], windowMs) ==> c in Stored(arrivals, windowMs) || c == call
  {
    assert (arrivals + [call])[..|arrivals|] == arrivals;
  }

  /** Nothing is lost without a reason: every arrival is stored or near a stored call. */
  lemma {:induction false} EveryArrivalCovered(arrivals: seq<Call>, windowMs: int, i: nat) returns (c: Call)
    requires windowMs > 0 && i < |arrivals|
    ensures c in Stored(arrivals, windowMs) && Near(c, arrivals[i], WindowSeconds(windowMs))
  {
    var n := |arrivals| - 1;
    var init, call := arrivals[..n], arrivals[n];
    assert arrivals == init + [call];
    StoredGrows(init, call, windowMs);
    if i < n {
      c := EveryArrivalCovered(init, windowMs, i);
    } else {
      TimestampCheckRedundant(Stored(init, windowMs), call, windowMs);
      if IsDuplicate(Stored(init, windowMs), call, windowMs) {
        c :| c in Stored(init, windowMs) && Near(c, call, WindowSeconds(windowMs));
      } else {
        c := call;
        assert Stored(arrivals, windowMs)[|Stored(init, windowMs)|] == call;
      }
    }
  }

  // ---------------------------------------------------------------------
  // How many fit
  // ---------------------------------------------------------------------

  /** Stored calls of c's stream starting between lo and hi, both included. */
  function CountIn(calls: seq<Call>, c: Call, lo: int, hi: int): nat {
    if calls == [] then 0
    else
      var d := calls[|calls| - 1];
      CountIn(calls[..|calls| - 1], c, lo, hi) + if SameStream(d, c) && lo <= d.at <= hi then 1 else 0
  }

  lemma {:induction false} CountSplits(calls: seq<Call>, c: Call, lo: int, mid: int, hi: int)
    requires mid <= hi
    ensures CountIn(calls, c, lo, hi) <= CountIn(calls, c, lo, mid) + CountIn(calls, c, mid + 1, hi)
  {
    if calls != [] {
      CountSplits(calls[..|calls| - 1], c, lo, mid, hi);
    }
  }

  lemma {:induction false} CountZero(calls: seq<Call>, c: Call, lo: int, hi: int)
    requires forall i :: 0 <= i < |calls| ==> !(SameStream(calls[i], c) && lo <= calls[i].at <= hi)
    ensures CountIn(calls, c, lo, hi) == 0
  {
    if calls != [] {
      CountZero(calls[..|calls| - 1], c, lo, hi);
    }
  }

  lemma {:induction false} AtMostOne(calls: seq<Call>, w: int, c: Call, lo: int)
    requires Spaced(calls, w) && w >= 0
    ensures CountIn(calls, c, lo, lo + w) <= 1
  {
    if calls != [] {
      var n := |calls| - 1;
      if SameStream(calls[n], c) && lo <= calls[n].at <= lo + w {
        assert forall i :: 0 <= i < n ==> !Near(calls[i], calls[n], w);
        CountZero(calls[..n], c, lo, lo + w);
      } else {
        AtMostOne(calls[..n], w, c, lo);
      }
    }
  }

  /** Each stored call after the first needs w + 1 of the interval's seconds to itself. */
  lemma {:induction false} CountBound(calls: seq<Call>, w: int, c: Call, lo: int, length: nat)
    requires Spaced(calls, w) && w >= 0
    ensures var n := CountIn(calls, c, lo, lo + length); n <= 1 || (n - 1) * (w + 1) <= length
    decreases length
  {
    var n: int := CountIn(calls, c, lo, lo + length);
    var mid := lo + length - w - 1;
    CountSplits(calls, c, lo, mid, lo + length);
    AtMostOne(calls, w, c, mid + 1);
    hide CountIn, Spaced;
    if length >= w + 1 {
      CountBound(calls, w, c, lo, length - w - 1);
      var m: int := CountIn(calls, c, lo, mid);
      Monotone(n - 1, m, w + 1);
      OneFewer(m, w + 1);
    } else {
      CountZero(calls, c, lo, mid);
    }
  }

  lemma OneFewer(m: int, d: int)
    ensures m * d == (m - 1) * d + d
  {
  }

  lemma Monotone(a: int, b: int, d: nat)
    requires a <= b
    ensures a * d <= b * d
  {
  }

  lemma Quotient(n: int, d: nat, x: nat)
    requires d > 0 && n * d <= x
    ensures n <= x / d
  {
    var q := x / d;
    assert (q + 1) * d > x;
    if q + 1 <= n {
      Monotone(q + 1, n, d);
      assert false;
    }
  }

  /** A closed interval of `length` seconds holds at most length / (w + 1) + 1 stored calls of a stream. */
  lemma CountRate(calls: seq<Call>, w: nat, c: Call, lo: int, length: nat)
    requires Spaced(calls, w)
    ensures CountIn(calls, c, lo, lo + length) <= length / (w + 1) + 1
  {
    hide CountIn, Spaced;
    var n: int := CountIn(calls, c, lo, lo + length);
    CountBound(calls, w, c, lo, length);
    if n > 1 {
      Quotient(n - 1, w + 1, length);
    }
  }

  /** The rate that detection guarantees at ingest. */
  lemma IngestRate(arrivals: seq<Call>, windowMs: int, c: Call, lo: int, length: nat)
    requires windowMs > 0
    ensures CountIn(Stored(arrivals, windowMs), c, lo, lo + length) <= length / (WindowSeconds(windowMs) + 1) + 1
  {
    hide *;
    StoredIsSpaced(arrivals, windowMs);
    CountRate(Stored(arrivals, windowMs), WindowSeconds(windowMs), c, lo, length);
  }

  // ---------------------------------------------------------------------
  // In milliseconds
  // ---------------------------------------------------------------------

  /** Two starts are within the configured window, or within the one second that is always kept. */
  predicate Within(a: Call, b: Call, windowMs: int) {
    var d := if a.at <= b.at then b.at - a.at else a.at - b.at;
    1000 * d <= windowMs || d <= 1
  }

  lemma NearIsWithin(a: Call, b: Call, windowMs: int)
    requires windowMs > 0
    ensures Near(a, b, WindowSeconds(windowMs)) <==>
            a.system == b.system && a.talkgroup == b.talkgroup && Within(a, b, windowMs)
  {
  }

  /** Detection off never finds a duplicate; on, it finds one exactly when a stored call of the same system and
      talkgroup started within the window. */
  lemma DuplicateExactly(calls: seq<Call>, call: Call, windowMs: int)
    ensures IsDuplicate(calls, call, windowMs) <==>
            windowMs > 0 &&
            exists c :: c in calls && c.system == call.system && c.talkgroup == call.talkgroup && Within(c, call, windowMs)
  {
    if windowMs > 0 {
      TimestampCheckRedundant(calls, call, windowMs);
      forall c {
        NearIsWithin(c, call, windowMs);
      }
    }
  }

  /** No two stored calls of one system and talkgroup started within the window of each other. */
  lemma StoredApart(arrivals: seq<Call>, windowMs: int, i: nat, j: nat)
    requires windowMs > 0 && i < j < |Stored(arrivals, windowMs)|
    ensures var a, b := Stored(arrivals, windowMs)[i], Stored(arrivals, windowMs)[j];
      a.system == b.system && a.talkgroup == b.talkgroup ==> !Within(a, b, windowMs)
  {
    StoredIsSpaced(arrivals, windowMs);
    NearIsWithin(Stored(arrivals, windowMs)[i], Stored(arrivals, windowMs)[j], windowMs);
  }

  /** With detection off every arrival is stored. */
  lemma {:induction false} DetectionOff(arrivals: seq<Call>, windowMs: int)
    requires windowMs <= 0
    ensures Stored(arrivals, windowMs) == arrivals
  {
    if arrivals != [] {
      DetectionOff(arrivals[..|arrivals| - 1], windowMs);
    }
  }
}
