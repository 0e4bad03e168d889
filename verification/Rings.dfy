/** The two ring buffers and the log query (backend/internal/trmqtt/ringbuf.go, backend/internal/logging/logging.go). */
module Rings {
  import opened Prelude
  import opened Text

  /** Trimming as one goes leaves what trimming once at the end would. */
  lemma LastNStep<T>(s: seq<T>, x: T, n: nat)
    requires n > 0
    ensures LastN(LastN(s, n) + [x], n) == LastN(s + [x], n)
  {
  }

  lemma ModOnce(a: int, c: int)
    requires 0 <= a < 2 * c
    ensures a % c == if a < c then a else a - c
  {
    if a >= c {
      assert a == (a - c) + 1 * c;
      assert (a - c) % c == a - c;
    }
  }

  /** A ring laid out in an array: unwrapped up to `next` while not full, and from `next` around when full. */
  function Unroll<T>(buf: seq<T>, next: nat, full: bool): seq<T>
    requires next <= |buf|
  {
    if full then buf[next..] + buf[..next] else buf[..next]
  }

  /** Overwriting the slot at `next` drops the oldest entry of a full ring and appends the new one. */
  lemma UnrollPush<T>(buf: seq<T>, next: nat, full: bool, x: T)
    requires next < |buf|
    ensures var buf' := buf[next := x];
      var wraps := next + 1 == |buf|;
      Unroll(buf', if wraps then 0 else next + 1, full || wraps) == LastN(Unroll(buf, next, full) + [x], |buf|)
  {
    var buf' := buf[next := x];
    assert buf'[next + 1..] == buf[next + 1..] && buf'[..next] == buf[..next];
    if full {
      assert Unroll(buf, next, full) + [x] == [buf[next]] + (buf[next + 1..] + buf[..next] + [x]);
      if next + 1 == |buf| {
        assert buf'[0..] + buf'[..0] == buf[..next] + [x];
      } else {
        assert buf'[..next + 1] == buf[..next] + [x];
      }
    } else if next + 1 == |buf| {
      assert buf'[0..] + buf'[..0] == buf[..next] + [x];
    } else {
      assert buf'[..next + 1] == buf[..next] + [x];
    }
  }

  /** The index arithmetic of a read: the i-th oldest of `count` entries ending before `head`. */
  lemma UnrollAt<T>(buf: seq<T>, head: nat, count: nat, i: nat)
    requires head < |buf| && i < count <= |buf| && (count < |buf| ==> head == count)
    ensures var start := (head - count + |buf|) % |buf|;
      Unroll(buf, head, count == |buf|)[i] == buf[(start + i) % |buf|]
  {
    ModOnce(head - count + |buf|, |buf|);
    var start := (head - count + |buf|) % |buf|;
    ModOnce(start + i, |buf|);
  }

  /** trmqtt.Ring */
  class Ring<T(0)> {
    var buf: array<T>
    var capacity: int
    var head: int
    var count: int
    /** Everything pushed so far, oldest first. */
    ghost var pushed: seq<T>

    ghost predicate Valid()
      reads this, buf
    {
      && 0 < capacity == buf.Length && 0 <= head < capacity && 0 <= count <= capacity
      && (count < capacity ==> head == count)
      && Unroll(buf[..], head, count == capacity) == LastN(pushed, capacity)
    }

    constructor (capN: int)
      ensures Valid() && fresh(buf) && pushed == []
      ensures capacity == if capN < 1 then 1 else capN
    {
      var c := if capN < 1 then 1 else capN;
      buf := new T[c];
      capacity, head, count := c, 0, 0;
      pushed := [];
    }

    method Push(v: T)
      requires Valid()
      modifies this, buf
      ensures Valid() && buf == old(buf) && capacity == old(capacity)
      ensures pushed == old(pushed) + [v]
    {
      hide Unroll, LastN;
      UnrollPush(buf[..], head, count == capacity, v);
      LastNStep(pushed, v, capacity);
      ModOnce(head + 1, capacity);
      buf[head] := v;
      head := (head + 1) % capacity;
      if count < capacity {
        count := count + 1;
      }
      pushed := pushed + [v];
    }

    /** However many pushes went before, the snapshot is the last `capacity` of them, oldest first. */
    method Snapshot() returns (out: array<T>)
      requires Valid()
      ensures fresh(out) && out[..] == LastN(pushed, capacity)
      ensures out[..] == if |pushed| > capacity then pushed[|pushed| - capacity..] else pushed
    {
      out := new T[count];
      if count == 0 {
        return;
      }
      ModOnce(head - count + capacity, capacity);
      var start := (head - count + capacity) % capacity;
      ghost var all := Unroll(buf[..], head, count == capacity);
      for i := 0 to count
        invariant out[..i] == all[..i]
      {
        UnrollAt(buf[..], head, count, i);
        out[i] := buf[(start + i) % capacity];
      }
      assert out[..] == out[..count];
    }
  }

  // ---------------------------------------------------------------------
  // The log buffer
  // ---------------------------------------------------------------------

  /** `text` stands for the lower-cased message followed by the lower-cased attribute values. */
  datatype LogEntry = LogEntry(time: int, level: string, text: string)

  /** logging.ringBuffer */
  class RingBuffer {
    var buf: array<LogEntry>
    var pos: int
    var full: bool
    const capacity: int
    ghost var pushed: seq<LogEntry>

    ghost predicate Valid()
      reads this, buf
    {
      && 0 < capacity == buf.Length && 0 <= pos < capacity
      && Unroll(buf[..], pos, full) == LastN(pushed, capacity)
    }

    constructor (size: int)
      requires size > 0
      ensures Valid() && fresh(buf) && pushed == [] && capacity == size
    {
      buf := new LogEntry[size](_ => LogEntry(0, "", ""));
      capacity, pos, full, pushed := size, 0, false, [];
    }

    method Push(e: LogEntry)
      requires Valid()
      modifies this, buf
      ensures Valid() && buf == old(buf)
      ensures pushed == old(pushed) + [e]
    {
      UnrollPush(buf[..], pos, full, e);
      LastNStep(pushed, e, capacity);
      ModOnce(pos + 1, capacity);
      buf[pos] := e;
      pos := (pos + 1) % capacity;
      if pos == 0 {
        full := true;
      }
      pushed := pushed + [e];
    }

    method Snapshot() returns (out: seq<LogEntry>)
      requires Valid()
      ensures out == LastN(pushed, capacity)
      ensures out == if |pushed| > capacity then pushed[|pushed| - capacity..] else pushed
    {
      if full {
        out := buf[pos..] + buf[..pos];
      } else {
        out := buf[..pos];
      }
    }
  }

  /** A query whose level and text are already trimmed and lower-cased; "" and times up to 0 do not filter. */
  datatype Query = Query(level: string, from: int, to: int, text: string)

  predicate Matches(q: Query, e: LogEntry) {
    && (q.from > 0 ==> q.from <= e.time)
    && (q.to > 0 ==> e.time <= q.to)
    && (q.level != "" ==> e.level == q.level)
    && Contains(e.text, q.text)
  }

  /** The matching entries, in their own order. */
  function Matching(q: Query, s: seq<LogEntry>): seq<LogEntry> {
    if s == [] then []
    else (if Matches(q, s[0]) then [s[0]] else []) + Matching(q, s[1..])
  }

  lemma {:induction false} MatchingSplits(q: Query, a: seq<LogEntry>, b: seq<LogEntry>)
    ensures Matching(q, a + b) == Matching(q, a) + Matching(q, b)
  {
    if a == [] {
      assert a + b == b;
    } else {
      assert (a + b)[1..] == a[1..] + b;
      MatchingSplits(q, a[1..], b);
    }
  }

  /** The places of the entries that a query asks for: within its times and of its level, where it has any, and with its
      text somewhere in theirs. */
  ghost predicate Asked(q: Query, s: seq<LogEntry>, i: int) {
    0 <= i < |s| && (q.from <= 0 || q.from <= s[i].time) && (q.to <= 0 || s[i].time <= q.to) &&
    (q.level == "" || s[i].level == q.level) &&
    exists a, b :: s[i].text == a + q.text + b
  }

  lemma ContainsIs(text: string, pat: string)
    ensures Contains(text, pat) <==> exists a, b :: text == a + pat + b
  {
    if i :| 0 <= i <= |text| && OccursAt(text, pat, i) {
      assert text == text[..i] + pat + text[i + |pat|..];
    }
    if a, b :| text == a + pat + b {
      assert OccursAt(text, pat, |a|);
    }
  }

  /** The result of a query are the entries asked for, each once, in their order. */
  lemma {:induction false} MatchingAt(q: Query, s: seq<LogEntry>) returns (at: seq<nat>)
    ensures |at| == |Matching(q, s)| && forall k, l :: 0 <= k < l < |at| ==> at[k] < at[l]
    ensures forall i :: i in at <==> Asked(q, s, i)
    ensures forall k :: 0 <= k < |at| ==> at[k] < |s| && Matching(q, s)[k] == s[at[k]]
  {
    hide Contains;
    if s == [] {
      at := [];
    } else {
      var n := |s| - 1;
      MatchingSplits(q, s[..n], [s[n]]);
      assert s == s[..n] + [s[n]];
      ContainsIs(s[n].text, q.text);
      at := MatchingAt(q, s[..n]);
      assert forall i :: 0 <= i < n ==> (Asked(q, s[..n], i) <==> Asked(q, s, i));
      if Matches(q, s[n]) {
        at := at + [n];
      }
    }
  }

  lemma NoneMatch(q: Query)
    ensures Matching(q, []) == []
  {
  }

  lemma MatchingFrom(q: Query, s: seq<LogEntry>, i: nat)
    requires i < |s|
    ensures var rest := Matching(q, s[i + 1..]);
      Matching(q, s[i..]) == if Matches(q, s[i]) then [s[i]] + rest else rest
  {
    assert s[i..][1..] == s[i + 1..];
  }

  function Reversed<T>(s: seq<T>): seq<T> {
    seq(|s|, i requires 0 <= i < |s| => s[|s| - 1 - i])
  }

  /** The backward scan: the most recent matches, newest first; at least one may be taken whatever the limit. */
  method ScanNewestFirst(all: seq<LogEntry>, q: Query, limit: int) returns (found: seq<LogEntry>)
    ensures Reversed(found) == LastN(Matching(q, all), if limit < 1 then 1 else limit)
  {
    hide Matching, Contains, LastN;
    ghost var most: nat := if limit < 1 then 1 else limit;
    found := [];
    var i := |all| - 1;
    NoneMatch(q);
    assert all[i + 1..] == [];
    while i >= 0
      invariant -1 <= i < |all|
      invariant Reversed(found) == Matching(q, all[i + 1..])
      invariant |found| < most
      decreases i
    {
      var e := all[i];
      MatchingFrom(q, all, i);
      i := i - 1;
      if q.from > 0 && e.time < q.from {
        continue;
      }
      if q.to > 0 && e.time > q.to {
        continue;
      }
      if q.level != "" && e.level != q.level {
        continue;
      }
      if q.text != "" && !Contains(e.text, q.text) {
        continue;
      }
      EmptyTextMatches(e, q);
      assert Reversed(found + [e]) == [e] + Reversed(found);
      found := found + [e];
      if |found| >= limit {
        break;
      }
    }
    LastMatches(q, all, i + 1, most);
  }

  lemma EmptyTextMatches(e: LogEntry, q: Query)
    ensures q.text == "" ==> Contains(e.text, q.text)
  {
    assert q.text == "" ==> OccursAt(e.text, q.text, 0);
  }

  /** Matches found in a suffix are the last ones when they are `n` many or the suffix is everything. */
  lemma LastMatches(q: Query, all: seq<LogEntry>, i: nat, n: nat)
    requires i <= |all|
    requires |Matching(q, all[i..])| == n || (i == 0 && |Matching(q, all)| <= n)
    ensures Matching(q, all[i..]) == LastN(Matching(q, all), n)
  {
    hide Matching;
    MatchingSplits(q, all[..i], all[i..]);
    assert all == all[..i] + all[i..];
    assert i == 0 ==> all[i..] == all;
  }

  /**
   * QueryEntries on the buffer: the most recent matches among the retained entries, oldest first.
   * A limit of 0 still yields one entry; a negative one makes the allocation fail.
   */
  method QueryEntries(ring: RingBuffer, q: Query, limit: int) returns (result: seq<LogEntry>)
    requires ring.Valid() && limit >= 0
    ensures result == LastN(Matching(q, LastN(ring.pushed, ring.capacity)), if limit < 1 then 1 else limit)
  {
    var all := ring.Snapshot();
    var found := ScanNewestFirst(all, q, limit);
    result := ReverseInPlace(found);
  }

  /** The two-index swap loop that ends the query. */
  method ReverseInPlace<T>(found: seq<T>) returns (result: seq<T>)
    ensures result == Reversed(found)
  {
    result := found;
    var i, j := 0, |result| - 1;
    while i < j
      invariant |result| == |found| && 0 <= i <= j + 1 && i + j == |found| - 1
      invariant forall k :: 0 <= k < i || j < k < |found| ==> result[k] == found[|found| - 1 - k]
      invariant forall k :: i <= k <= j ==> result[k] == found[k]
    {
      result := result[i := result[j]][j := result[i]];
      i, j := i + 1, j - 1;
    }
  }
}
