/** What the upload limiter guarantees over any sequence of requests (backend/internal/handler/calls/calls.go). */
module LimiterRuns {
  import opened Limiter

  /** An upload by a key, with the limit configured for it, and the three readings of the clock it may make: to
      evict, to start a new window, and to be admitted. */
  datatype Request = Request(key: int, limit: int, sweep: int, found: int, now: int)

  /** One request after the other, on a clock that does not run backwards. */
  ghost predicate InOrder(reqs: seq<Request>) {
    (forall i :: 0 <= i < |reqs| ==> reqs[i].sweep <= reqs[i].found <= reqs[i].now) &&
    (forall i, j :: 0 <= i < j < |reqs| ==> reqs[i].now <= reqs[j].sweep)
  }

  /** A request whose readings agree. */
  function At(key: int, limit: int, now: int): Request {
    Request(key, limit, now, now, now)
  }

  /** The table that a request finds. */
  function Kept(table: map<int, Window>, sweep: int, evicting: bool): map<int, Window> {
    if evicting then Evict(table, sweep) else table
  }

  /** The table and the answers after the requests, with or without eviction. */
  function Serve(reqs: seq<Request>, evicting: bool): (r: (map<int, Window>, seq<bool>))
    ensures |r.1| == |reqs|
  {
    if reqs == [] then (map[], [])
    else
      var (table, answers) := Serve(reqs[..|reqs| - 1], evicting);
      var q := reqs[|reqs| - 1];
      var (next, ok) := Ask(Kept(table, q.sweep, evicting), q.key, q.limit, q.found, q.now);
      (next, answers + [ok])
  }

  lemma ServeSnoc(reqs: seq<Request>, q: Request, evicting: bool)
    ensures var (table, answers) := Serve(reqs, evicting);
      var (next, ok) := Ask(Kept(table, q.sweep, evicting), q.key, q.limit, q.found, q.now);
      Serve(reqs + [q], evicting) == (next, answers + [ok])
    ensures reqs == [] ==> Serve(reqs, evicting) == (map[], [])
  {
    assert (reqs + [q])[..|reqs|] == reqs;
  }

  // ---------------------------------------------------------------------
  // The bound
  // ---------------------------------------------------------------------

  /** How many requests of the key were admitted at times from `lo` up to, but not including, `hi`. */
  function Admitted(reqs: seq<Request>, answers: seq<bool>, key: int, lo: int, hi: int): nat
    requires |answers| == |reqs|
  {
    if reqs == [] then 0
    else
      var n := |reqs| - 1;
      Admitted(reqs[..n], answers[..n], key, lo, hi) +
      if reqs[n].key == key && answers[n] && lo <= reqs[n].now < hi then 1 else 0
  }

  function AdmittedBy(reqs: seq<Request>, evicting: bool, key: int, lo: int, hi: int): nat {
    Admitted(reqs, Serve(reqs, evicting).1, key, lo, hi)
  }

  lemma {:induction false} AdmittedSplits(reqs: seq<Request>, answers: seq<bool>, key: int, lo: int, mid: int, hi: int)
    requires |answers| == |reqs| && lo <= mid <= hi
    ensures Admitted(reqs, answers, key, lo, hi) ==
            Admitted(reqs, answers, key, lo, mid) + Admitted(reqs, answers, key, mid, hi)
  {
    if reqs != [] {
      var n := |reqs| - 1;
      AdmittedSplits(reqs[..n], answers[..n], key, lo, mid, hi);
    }
  }

  lemma AdmittedSnoc(reqs: seq<Request>, evicting: bool, key: int, lo: int, hi: int)
    requires reqs != []
    ensures var q := reqs[|reqs| - 1];
      var ok := Serve(reqs, evicting).1[|reqs| - 1];
      AdmittedBy(reqs, evicting, key, lo, hi) ==
      AdmittedBy(reqs[..|reqs| - 1], evicting, key, lo, hi) + if q.key == key && ok && lo <= q.now < hi then 1 else 0
  {
    var n := |reqs| - 1;
    assert Serve(reqs, evicting).1[..n] == Serve(reqs[..n], evicting).1;
  }

  ghost predicate ConstantLimit(reqs: seq<Request>, key: int, limit: int) {
    forall i :: 0 <= i < |reqs| && reqs[i].key == key ==> reqs[i].limit == limit
  }

  /** The key's requests are admitted, or not, at the very instant at which their limiter was looked up. */
  ghost predicate Prompt(reqs: seq<Request>, key: int) {
    forall i :: 0 <= i < |reqs| && reqs[i].key == key ==> reqs[i].found == reqs[i].now
  }

  ghost predicate NoneFrom(reqs: seq<Request>, evicting: bool, key: int, at: int) {
    forall lo, hi :: at <= lo ==> AdmittedBy(reqs, evicting, key, lo, hi) == 0
  }

  /** What a window says about the past: it counts what was admitted since it opened, nothing was admitted after
      it ran out, and any stretch before it shorter than a window holds at most the limit. A prompt key's window
      opened with an admitted request, and such a stretch holds less than the limit. */
  ghost predicate WindowTells(reqs: seq<Request>, evicting: bool, key: int, limit: int, prompt: bool, w: Window) {
    && reqs != [] && w.start <= reqs[|reqs| - 1].now && w.count <= limit
    && AdmittedBy(reqs, evicting, key, w.start, w.start + RATE_WINDOW) == w.count
    && NoneFrom(reqs, evicting, key, w.start + RATE_WINDOW)
    && (prompt ==> AdmittedBy(reqs, evicting, key, w.start, w.start + 1) >= 1)
    && (forall lo :: w.start - RATE_WINDOW < lo <= w.start ==>
          AdmittedBy(reqs, evicting, key, lo, w.start) <= if prompt then limit - 1 else limit)
  }

  /** What a table says about the key at a time not before its last request: no entry, and nothing admitted for
      the length of a window, or a telling one. */
  ghost predicate TableTells(reqs: seq<Request>, evicting: bool, key: int, limit: int, prompt: bool,
                             table: map<int, Window>, at: int) {
    if key in table then WindowTells(reqs, evicting, key, limit, prompt, table[key])
    else NoneFrom(reqs, evicting, key, at - RATE_WINDOW)
  }

  ghost predicate WindowInv(reqs: seq<Request>, evicting: bool, key: int, limit: int, prompt: bool) {
    reqs != [] ==>
      TableTells(reqs, evicting, key, limit, prompt, Serve(reqs, evicting).0, reqs[|reqs| - 1].sweep)
  }

  /** Eviction takes a key away only when nothing was admitted for the length of a window. */
  lemma EvictionTells(reqs: seq<Request>, evicting: bool, key: int, limit: int, prompt: bool, sweep: int)
    requires WindowInv(reqs, evicting, key, limit, prompt)
    requires reqs != [] ==> reqs[|reqs| - 1].sweep <= sweep
    ensures TableTells(reqs, evicting, key, limit, prompt, Kept(Serve(reqs, evicting).0, sweep, evicting), sweep)
  {
    if reqs != [] {
      hide AdmittedBy;
    }
  }

  /** The invariant, in every run, with or without eviction. */
  lemma {:induction false} WindowAlways(reqs: seq<Request>, evicting: bool, key: int, limit: int, prompt: bool)
    requires InOrder(reqs) && ConstantLimit(reqs, key, limit) && limit >= 1 && (prompt ==> Prompt(reqs, key))
    ensures WindowInv(reqs, evicting, key, limit, prompt)
  {
    hide Serve, TableTells, Kept;
    if reqs != [] {
      var n := |reqs| - 1;
      var init, q := reqs[..n], reqs[n];
      WindowAlways(init, evicting, key, limit, prompt);
      EvictionTells(init, evicting, key, limit, prompt, q.sweep);
      var table := Kept(Serve(init, evicting).0, q.sweep, evicting);
      ServeSnoc(init, q, evicting);
      assert reqs == init + [q];
      if q.key == key {
        OwnTells(reqs, evicting, limit, prompt, table);
      } else {
        OthersTell(reqs, evicting, key, limit, prompt, table);
        TellsOf(reqs, evicting, key, limit, prompt, table, Ask(table, q.key, q.limit, q.found, q.now).0, q.sweep);
      }
    }
  }

  lemma TellsOf(reqs: seq<Request>, evicting: bool, key: int, limit: int, prompt: bool,
                table: map<int, Window>, next: map<int, Window>, at: int)
    requires TableTells(reqs, evicting, key, limit, prompt, table, at)
    requires if key in table then key in next && next[key] == table[key] else key !in next
    ensures TableTells(reqs, evicting, key, limit, prompt, next, at)
  {
    hide WindowTells, NoneFrom;
  }

  /** The key's own request opens a window, reopens it, or counts in it. */
  lemma OwnTells(reqs: seq<Request>, evicting: bool, limit: int, prompt: bool, table: map<int, Window>)
    requires reqs != [] && InOrder(reqs) && limit >= 1 && reqs[|reqs| - 1].limit == limit
    requires prompt ==> reqs[|reqs| - 1].found == reqs[|reqs| - 1].now
    requires var q := reqs[|reqs| - 1];
      && TableTells(reqs[..|reqs| - 1], evicting, q.key, limit, prompt, table, q.sweep)
      && Serve(reqs, evicting).1[|reqs| - 1] == Ask(table, q.key, q.limit, q.found, q.now).1
    ensures var q := reqs[|reqs| - 1];
      TableTells(reqs, evicting, q.key, limit, prompt, Ask(table, q.key, q.limit, q.found, q.now).0, q.sweep)
  {
    hide AdmittedBy, WindowTells, NoneFrom, Serve, InOrder;
    var q := reqs[|reqs| - 1];
    if q.key !in table {
      WindowOpens(reqs, evicting, limit, prompt, q.found);
    } else if q.now - table[q.key].start >= RATE_WINDOW {
      WindowReopens(reqs, evicting, limit, prompt, table[q.key]);
    } else {
      WindowCounts(reqs, evicting, limit, prompt, table[q.key]);
    }
  }

  /** Another key's request says nothing new. */
  lemma OthersTell(reqs: seq<Request>, evicting: bool, key: int, limit: int, prompt: bool, table: map<int, Window>)
    requires reqs != [] && InOrder(reqs) && reqs[|reqs| - 1].key != key
    requires TableTells(reqs[..|reqs| - 1], evicting, key, limit, prompt, table, reqs[|reqs| - 1].sweep)
    ensures TableTells(reqs, evicting, key, limit, prompt, table, reqs[|reqs| - 1].sweep)
  {
    forall lo, hi { AdmittedSnoc(reqs, evicting, key, lo, hi); }
    hide AdmittedBy;
  }

  /** The request starts a window, at the instant it was looked up or, if that is long ago, when it asks. */
  lemma WindowOpens(reqs: seq<Request>, evicting: bool, limit: int, prompt: bool, found: int)
    requires reqs != [] && InOrder(reqs) && reqs[|reqs| - 1].found == found && limit >= 1
    requires prompt ==> found == reqs[|reqs| - 1].now
    requires NoneFrom(reqs[..|reqs| - 1], evicting, reqs[|reqs| - 1].key, reqs[|reqs| - 1].sweep - RATE_WINDOW)
    requires Serve(reqs, evicting).1[|reqs| - 1]
    ensures var q := reqs[|reqs| - 1];
      WindowTells(reqs, evicting, q.key, limit, prompt,
                  Window(if q.now - found >= RATE_WINDOW then q.now else found, 1))
  {
    var key := reqs[|reqs| - 1].key;
    forall lo, hi { AdmittedSnoc(reqs, evicting, key, lo, hi); }
    hide AdmittedBy, Serve;
  }

  /** The request starts a new window after an old one ran out. */
  lemma WindowReopens(reqs: seq<Request>, evicting: bool, limit: int, prompt: bool, w: Window)
    requires reqs != [] && limit >= 1 && Serve(reqs, evicting).1[|reqs| - 1]
    requires WindowTells(reqs[..|reqs| - 1], evicting, reqs[|reqs| - 1].key, limit, prompt, w)
    requires reqs[|reqs| - 1].now - w.start >= RATE_WINDOW
    ensures WindowTells(reqs, evicting, reqs[|reqs| - 1].key, limit, prompt, Window(reqs[|reqs| - 1].now, 1))
  {
    var n := |reqs| - 1;
    var init, key, now := reqs[..n], reqs[n].key, reqs[n].now;
    forall lo, hi { AdmittedSnoc(reqs, evicting, key, lo, hi); }
    forall lo | now - RATE_WINDOW < lo <= now
      ensures AdmittedBy(init, evicting, key, lo, now) <= if prompt then limit - 1 else limit
    {
      OldWindowTail(init, evicting, key, limit, prompt, w, lo, now);
    }
    hide AdmittedBy;
  }

  /** What a closed window holds after its opening. */
  lemma OldWindowTail(reqs: seq<Request>, evicting: bool, key: int, limit: int, prompt: bool, w: Window, lo: int, hi: int)
    requires WindowTells(reqs, evicting, key, limit, prompt, w) && w.start < lo <= hi && hi >= w.start + RATE_WINDOW
    ensures AdmittedBy(reqs, evicting, key, lo, hi) <= if prompt then limit - 1 else limit
  {
    var answers, end := Serve(reqs, evicting).1, w.start + RATE_WINDOW;
    AdmittedSplits(reqs, answers, key, w.start, end, hi);
    AdmittedSplits(reqs, answers, key, w.start, w.start + 1, hi);
    AdmittedSplits(reqs, answers, key, w.start + 1, lo, hi);
    assert AdmittedBy(reqs, evicting, key, end, hi) == 0;
  }

  /** The request falls into the open window. */
  lemma WindowCounts(reqs: seq<Request>, evicting: bool, limit: int, prompt: bool, w: Window)
    requires reqs != [] && InOrder(reqs) && limit >= 1
    requires WindowTells(reqs[..|reqs| - 1], evicting, reqs[|reqs| - 1].key, limit, prompt, w)
    requires reqs[|reqs| - 1].now - w.start < RATE_WINDOW
    requires Serve(reqs, evicting).1[|reqs| - 1] <==> w.count < limit
    ensures WindowTells(reqs, evicting, reqs[|reqs| - 1].key, limit, prompt,
                        if w.count < limit then Window(w.start, w.count + 1) else w)
  {
    var key := reqs[|reqs| - 1].key;
    forall lo, hi { AdmittedSnoc(reqs, evicting, key, lo, hi); }
    hide AdmittedBy;
    assert w.start <= reqs[|reqs| - 2].now <= reqs[|reqs| - 1].now;
  }

  lemma {:induction false} CountsAreNatural(reqs: seq<Request>, evicting: bool)
    ensures forall k :: k in Serve(reqs, evicting).0 ==> Serve(reqs, evicting).0[k].count >= 0
  {
    if reqs != [] {
      CountsAreNatural(reqs[..|reqs| - 1], evicting);
    }
  }

  lemma AdmissionNeedsLimit(reqs: seq<Request>, evicting: bool)
    requires reqs != [] && Serve(reqs, evicting).1[|reqs| - 1]
    ensures reqs[|reqs| - 1].limit >= 1
  {
    CountsAreNatural(reqs[..|reqs| - 1], evicting);
  }

  /** A stretch that reaches into the current window. */
  lemma StretchBound(reqs: seq<Request>, evicting: bool, key: int, limit: int, prompt: bool, w: Window, from: int)
    requires WindowTells(reqs, evicting, key, limit, prompt, w) && limit >= 1
    requires w.start < from + RATE_WINDOW
    ensures AdmittedBy(reqs, evicting, key, from, from + RATE_WINDOW) <= if prompt then 2 * limit - 1 else 2 * limit
  {
    var answers, end, close := Serve(reqs, evicting).1, from + RATE_WINDOW, w.start + RATE_WINDOW;
    if from >= w.start {
      AdmittedSplits(reqs, answers, key, w.start, close, end);
      AdmittedSplits(reqs, answers, key, w.start, from, end);
      assert AdmittedBy(reqs, evicting, key, close, end) == 0;
    } else {
      AdmittedSplits(reqs, answers, key, from, w.start, end);
      AdmittedSplits(reqs, answers, key, w.start, end, close);
      assert AdmittedBy(reqs, evicting, key, from, w.start) <= if prompt then limit - 1 else limit;
    }
  }

  /** Over any stretch of one window's length a key is admitted at most twice its limit, whatever the readings
      of the clock, with eviction as deployed or without; one less when the readings agree. */
  lemma {:induction false} AdmissionBound(reqs: seq<Request>, evicting: bool, key: int, limit: int, from: int)
    requires InOrder(reqs) && ConstantLimit(reqs, key, limit)
    ensures AdmittedBy(reqs, evicting, key, from, from + RATE_WINDOW) <=
            if limit < 1 then 0 else if Prompt(reqs, key) then 2 * limit - 1 else 2 * limit
  {
    if reqs != [] {
      var n := |reqs| - 1;
      var q := reqs[n];
      AdmissionBound(reqs[..n], evicting, key, limit, from);
      AdmittedSnoc(reqs, evicting, key, from, from + RATE_WINDOW);
      if q.key == key && Serve(reqs, evicting).1[n] && from <= q.now < from + RATE_WINDOW {
        AdmissionNeedsLimit(reqs, evicting);
        WindowAlways(reqs, evicting, key, limit, Prompt(reqs, key));
        hide AdmittedBy, WindowTells;
        StretchBound(reqs, evicting, key, limit, Prompt(reqs, key), Serve(reqs, evicting).0[key], from);
      }
    }
  }

  // ---------------------------------------------------------------------
  // The bound is reached
  // ---------------------------------------------------------------------

  function Burst(key: int, limit: int, now: int, n: nat): seq<Request> {
    seq(n, _ => At(key, limit, now))
  }

  /** One request looked up at 0 and admitted at `asks`, then L - 1 at `late`, then L when the window is over. */
  function Straddle(key: int, limit: int, asks: int, late: int): seq<Request>
    requires limit >= 1
  {
    [Request(key, limit, 0, 0, asks)] + Burst(key, limit, late, limit - 1) + Burst(key, limit, RATE_WINDOW, limit)
  }

  /** The table holds the key's window alone; how many were admitted from `lo` up to `hi`. */
  ghost predicate Stands(reqs: seq<Request>, evicting: bool, key: int, lo: int, hi: int, w: Window, admitted: nat) {
    Serve(reqs, evicting).0 == map[key := w] && AdmittedBy(reqs, evicting, key, lo, hi) == admitted
  }

  /** One more request, which the window admits. */
  lemma OneMore(reqs: seq<Request>, evicting: bool, q: Request, lo: int, hi: int, w: Window, admitted: nat)
    requires Stands(reqs, evicting, q.key, lo, hi, w, admitted) && Decide(w, q.limit, q.now).1
    ensures Stands(reqs + [q], evicting, q.key, lo, hi, Decide(w, q.limit, q.now).0,
                   admitted + if lo <= q.now < hi then 1 else 0)
  {
    hide Serve, AdmittedBy, Decide;
    ServeSnoc(reqs, q, evicting);
    assert |map[q.key := w]| == 1;
    AdmittedSnoc(reqs + [q], evicting, q.key, lo, hi);
    assert (reqs + [q])[..|reqs|] == reqs;
  }

  /** A burst that the open window has room for is admitted as a whole. */
  lemma {:induction false} BurstAdmitted(reqs: seq<Request>, evicting: bool, key: int, limit: int, now: int, n: nat,
                                         lo: int, hi: int, w: Window, admitted: nat)
    requires Stands(reqs, evicting, key, lo, hi, w, admitted) && lo <= now < hi
    requires now - w.start < RATE_WINDOW && w.count + n <= limit
    ensures Stands(reqs + Burst(key, limit, now, n), evicting, key, lo, hi, Window(w.start, w.count + n), admitted + n)
  {
    hide Stands;
    if n == 0 {
      assert reqs + Burst(key, limit, now, n) == reqs;
    } else {
      BurstAdmitted(reqs, evicting, key, limit, now, n - 1, lo, hi, w, admitted);
      var q := At(key, limit, now);
      OneMore(reqs + Burst(key, limit, now, n - 1), evicting, q, lo, hi, Window(w.start, w.count + n - 1), admitted + n - 1);
      assert reqs + Burst(key, limit, now, n - 1) + [q] == reqs + Burst(key, limit, now, n);
    }
  }

  lemma FirstRequest(q: Request, evicting: bool, lo: int, hi: int)
    requires q.limit >= 1 && q.found <= q.now < q.found + RATE_WINDOW
    ensures Stands([q], evicting, q.key, lo, hi, Window(q.found, 1), if lo <= q.now < hi then 1 else 0)
  {
    ServeSnoc([], q, evicting);
    assert [] + [q] == [q] && [q][..0] == [];
    AdmittedSnoc([q], evicting, q.key, lo, hi);
  }

  lemma StraddleInOrder(key: int, limit: int, asks: int, late: int)
    requires limit >= 1 && 0 <= asks <= late && 0 < late < RATE_WINDOW
    ensures InOrder(Straddle(key, limit, asks, late)) && ConstantLimit(Straddle(key, limit, asks, late), key, limit)
    ensures asks == 0 ==> Prompt(Straddle(key, limit, asks, late), key)
  {
    assert forall i :: 0 <= i < |Straddle(key, limit, asks, late)| ==>
      Straddle(key, limit, asks, late)[i] ==
      if i == 0 then Request(key, limit, 0, 0, asks) else At(key, limit, if i < limit then late else RATE_WINDOW);
  }

  lemma StraddleParts(key: int, limit: int, asks: int, late: int)
    requires limit >= 1
    ensures Straddle(key, limit, asks, late) ==
      [Request(key, limit, 0, 0, asks)] + Burst(key, limit, late, limit - 1) + [At(key, limit, RATE_WINDOW)] +
      Burst(key, limit, RATE_WINDOW, limit - 1)
  {
    assert Burst(key, limit, RATE_WINDOW, limit) == [At(key, limit, RATE_WINDOW)] + Burst(key, limit, RATE_WINDOW, limit - 1);
  }

  /** How the run goes, counted from `late`. */
  lemma StraddleAdmits(evicting: bool, key: int, limit: int, asks: int, late: int)
    requires limit >= 1 && 0 <= asks <= late && 0 < late < RATE_WINDOW
    ensures AdmittedBy(Straddle(key, limit, asks, late), evicting, key, late, late + RATE_WINDOW) ==
            if asks == late then 2 * limit else 2 * limit - 1
  {
    hide Serve, AdmittedBy, Admitted, Stands, Straddle, Burst;
    var to := late + RATE_WINDOW;
    var first, q := [Request(key, limit, 0, 0, asks)], At(key, limit, RATE_WINDOW);
    var k := if asks == late then 1 else 0;
    FirstRequest(first[0], evicting, late, to);
    BurstAdmitted(first, evicting, key, limit, late, limit - 1, late, to, Window(0, 1), k);
    var full := first + Burst(key, limit, late, limit - 1);
    OneMore(full, evicting, q, late, to, Window(0, limit), k + limit - 1);
    BurstAdmitted(full + [q], evicting, key, limit, RATE_WINDOW, limit - 1, late, to, Window(RATE_WINDOW, 1), k + limit);
    StraddleParts(key, limit, asks, late);
    StandsTells(Straddle(key, limit, asks, late), evicting, key, late, to, Window(RATE_WINDOW, limit), k + 2 * limit - 1);
  }

  lemma StandsTells(reqs: seq<Request>, evicting: bool, key: int, lo: int, hi: int, w: Window, admitted: nat)
    requires Stands(reqs, evicting, key, lo, hi, w, admitted)
    ensures AdmittedBy(reqs, evicting, key, lo, hi) == admitted
  {
  }

  /** Both bounds are reached, for every key and limit, with eviction and without: 2L requests pass when the first
      was looked up an instant before it was admitted, 2L - 1 when all readings agree. */
  lemma BoundIsReached(evicting: bool, key: int, limit: int)
    requires limit >= 1
    ensures var reqs := Straddle(key, limit, 1, 1);
      InOrder(reqs) && ConstantLimit(reqs, key, limit) &&
      AdmittedBy(reqs, evicting, key, 1, 1 + RATE_WINDOW) == 2 * limit
    ensures var reqs := Straddle(key, limit, 0, 1);
      InOrder(reqs) && ConstantLimit(reqs, key, limit) && Prompt(reqs, key) &&
      AdmittedBy(reqs, evicting, key, 1, 1 + RATE_WINDOW) == 2 * limit - 1
  {
    hide AdmittedBy, Straddle, InOrder, ConstantLimit, Prompt;
    StraddleInOrder(key, limit, 1, 1);
    StraddleInOrder(key, limit, 0, 1);
    StraddleAdmits(evicting, key, limit, 1, 1);
    StraddleAdmits(evicting, key, limit, 0, 1);
  }
}
