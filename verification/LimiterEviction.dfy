/** Whether evicting stale limiters can be noticed (backend/internal/handler/calls/calls.go). */
module LimiterEviction {
  import opened Limiter
  import opened LimiterRuns

  /** The i-th request re-creates a window that eviction has taken away. */
  ghost predicate Recreates(reqs: seq<Request>, i: nat)
    requires i < |reqs|
  {
    reqs[i].key in Serve(reqs[..i], false).0 &&
    reqs[i].key !in Evict(Serve(reqs[..i], true).0, reqs[i].sweep)
  }

  /** The limiter is asked after the instant at which it would have been created, and within its window. */
  predicate Late(q: Request) {
    q.found < q.now < q.found + RATE_WINDOW
  }

  /** No window is re-created late. */
  ghost predicate Harmless(reqs: seq<Request>) {
    forall i :: 0 <= i < |reqs| ==> !(Recreates(reqs, i) && Late(reqs[i]))
  }

  ghost predicate Invisible(reqs: seq<Request>) {
    Serve(reqs, true).1 == Serve(reqs, false).1
  }

  /** The evicting table holds some of the other's entries, and those it lacks are out of date. */
  ghost predicate Covers(some: map<int, Window>, all: map<int, Window>, now: int) {
    (forall k :: k in some ==> k in all && some[k] == all[k]) &&
    (forall k :: k in all && k !in some ==> now - all[k].start >= RATE_WINDOW)
  }

  lemma HarmlessPrefix(reqs: seq<Request>, n: nat)
    requires n <= |reqs| && Harmless(reqs)
    ensures Harmless(reqs[..n])
  {
    hide Serve;
    forall i | 0 <= i < n
      ensures !(Recreates(reqs[..n], i) && Late(reqs[..n][i]))
    {
      assert reqs[..n][..i] == reqs[..i];
      assert !(Recreates(reqs, i) && Late(reqs[i]));
    }
  }

  /** One request keeps the tables in step and is answered alike. */
  lemma StepCovers(some: map<int, Window>, all: map<int, Window>, q: Request)
    requires Covers(some, all, q.sweep) && q.sweep <= q.found <= q.now
    requires q.key in all && q.key !in some ==> !Late(q)
    ensures var (some', okSome) := Ask(some, q.key, q.limit, q.found, q.now);
      var (all', okAll) := Ask(all, q.key, q.limit, q.found, q.now);
      okSome == okAll && Covers(some', all', q.now)
  {
  }

  lemma EvictCovers(some: map<int, Window>, all: map<int, Window>, sweep: int)
    requires Covers(some, all, sweep)
    ensures Covers(Evict(some, sweep), all, sweep)
  {
  }

  lemma StepTogether(reqs: seq<Request>, q: Request)
    requires Covers(Serve(reqs, true).0, Serve(reqs, false).0, q.sweep) && Invisible(reqs)
    requires q.sweep <= q.found <= q.now
    requires q.key in Serve(reqs, false).0 && q.key !in Evict(Serve(reqs, true).0, q.sweep) ==> !Late(q)
    ensures Covers(Serve(reqs + [q], true).0, Serve(reqs + [q], false).0, q.now) && Invisible(reqs + [q])
  {
    hide Serve, Evict, Late, Covers;
    var some, all := Serve(reqs, true).0, Serve(reqs, false).0;
    EvictCovers(some, all, q.sweep);
    hide Ask;
    StepCovers(Evict(some, q.sweep), all, q);
    ServeSnoc(reqs, q, true);
    ServeSnoc(reqs, q, false);
  }

  lemma NothingServed()
    ensures Serve([], true) == Serve([], false) == (map[], [])
  {
  }

  lemma {:induction false} EvictionCovers(reqs: seq<Request>, now: int)
    requires InOrder(reqs) && Harmless(reqs) && (reqs != [] ==> reqs[|reqs| - 1].now <= now)
    ensures Covers(Serve(reqs, true).0, Serve(reqs, false).0, now)
    ensures Invisible(reqs)
  {
    hide Serve, Evict, Late;
    if reqs == [] {
      NothingServed();
    } else {
      var n := |reqs| - 1;
      var init, q := reqs[..n], reqs[n];
      HarmlessPrefix(reqs, n);
      EvictionCovers(init, q.sweep);
      assert !(Recreates(reqs, n) && Late(q));
      hide Harmless, Covers, Invisible;
      StepTogether(init, q);
      assert reqs == init + [q];
      CoversLater(Serve(reqs, true).0, Serve(reqs, false).0, q.now, now);
    }
  }

  lemma CoversLater(some: map<int, Window>, all: map<int, Window>, now: int, later: int)
    requires Covers(some, all, now) && now <= later
    ensures Covers(some, all, later)
  {
  }

  /** When all readings of a request agree, eviction changes no answer, whatever the keys, limits and times. */
  lemma EvictionInvisible(reqs: seq<Request>)
    requires InOrder(reqs) && forall i :: 0 <= i < |reqs| ==> reqs[i].found == reqs[i].now
    ensures Invisible(reqs)
  {
    hide Serve;
    EvictionCovers(reqs, if reqs == [] then 0 else reqs[|reqs| - 1].now);
  }

  // ---------------------------------------------------------------------
  // When it shows
  // ---------------------------------------------------------------------

  /** A late re-creation leaves two windows of one count, one starting at `found` and one at `now`. The next answer
      differs exactly when it falls between their ends with the count at the limit. */
  lemma NextAnswerDiffers(found: int, now: int, count: nat, limit: int, t: int)
    requires found <= now <= t
    ensures Decide(Window(found, count), limit, t).1 != Decide(Window(now, count), limit, t).1 <==>
            found + RATE_WINDOW <= t < now + RATE_WINDOW && 1 <= limit <= count
  {
  }

  /** The tables after a late re-creation. */
  lemma LateWindows(reqs: seq<Request>)
    requires reqs != [] && InOrder(reqs) && Harmless(reqs[..|reqs| - 1])
    requires Recreates(reqs, |reqs| - 1) && Late(reqs[|reqs| - 1])
    ensures var q := reqs[|reqs| - 1];
      var count := if q.limit >= 1 then 1 else 0;
      && q.key in Serve(reqs, true).0 && Serve(reqs, true).0[q.key] == Window(q.found, count)
      && q.key in Serve(reqs, false).0 && Serve(reqs, false).0[q.key] == Window(q.now, count)
  {
    hide Serve, Harmless, Covers, Evict;
    var init, q := reqs[..|reqs| - 1], reqs[|reqs| - 1];
    assert reqs == init + [q];
    EvictionCovers(init, q.sweep);
    EvictedWasStale(init, q.key, q.sweep);
    ServeSnoc(init, q, true);
    ServeSnoc(init, q, false);
  }

  /** What eviction took away ended before the sweep. */
  lemma EvictedWasStale(reqs: seq<Request>, key: int, sweep: int)
    requires Covers(Serve(reqs, true).0, Serve(reqs, false).0, sweep)
    requires key in Serve(reqs, false).0 && key !in Evict(Serve(reqs, true).0, sweep)
    ensures sweep - Serve(reqs, false).0[key].start >= RATE_WINDOW
  {
  }

  /** One request of a key whose windows are known, made at one instant within two windows of their starts. */
  lemma AskedNext(reqs: seq<Request>, key: int, limit: int, t: int, a: Window, b: Window)
    requires key in Serve(reqs, true).0 && Serve(reqs, true).0[key] == a && t - a.start < 2 * RATE_WINDOW
    requires key in Serve(reqs, false).0 && Serve(reqs, false).0[key] == b
    ensures var next := reqs + [At(key, limit, t)];
      && key in Serve(next, true).0 && Serve(next, true).0[key] == Decide(a, limit, t).0
      && key in Serve(next, false).0 && Serve(next, false).0[key] == Decide(b, limit, t).0
      && Serve(next, true).1 == Serve(reqs, true).1 + [Decide(a, limit, t).1]
      && Serve(next, false).1 == Serve(reqs, false).1 + [Decide(b, limit, t).1]
  {
    hide Serve, Decide;
    ServeSnoc(reqs, At(key, limit, t), true);
    ServeSnoc(reqs, At(key, limit, t), false);
  }

  /** Requests that go on after reqs, each made at one instant. */
  ghost predicate Continues(reqs: seq<Request>, more: seq<Request>) {
    InOrder(reqs + more) && forall i :: 0 <= i < |more| ==> more[i].found == more[i].now
  }

  lemma OrderSnoc(reqs: seq<Request>, q: Request)
    requires reqs != [] && InOrder(reqs) && q.sweep == q.found == q.now && reqs[|reqs| - 1].now <= q.now
    ensures InOrder(reqs + [q])
  {
  }

  /** When the windows have counted one request, the next at the end of the earlier one is answered differently. */
  lemma ShowsAtEnd(reqs: seq<Request>, key: int, found: int, now: int)
    requires reqs != [] && InOrder(reqs) && reqs[|reqs| - 1].now == now && found < now < found + RATE_WINDOW
    requires key in Serve(reqs, true).0 && Serve(reqs, true).0[key] == Window(found, 1)
    requires key in Serve(reqs, false).0 && Serve(reqs, false).0[key] == Window(now, 1)
    ensures InOrder(reqs + [At(key, 1, found + RATE_WINDOW)]) && !Invisible(reqs + [At(key, 1, found + RATE_WINDOW)])
  {
    hide Serve;
    OrderSnoc(reqs, At(key, 1, found + RATE_WINDOW));
    AskedNext(reqs, key, 1, found + RATE_WINDOW, Window(found, 1), Window(now, 1));
    hide InOrder;
    var next := reqs + [At(key, 1, found + RATE_WINDOW)];
    LastDiffers(Serve(next, true).1, Serve(next, false).1);
  }

  /** A late re-creation can be made to show: at most two further requests are answered differently. */
  lemma LateRecreationShows(reqs: seq<Request>) returns (more: seq<Request>)
    requires reqs != [] && InOrder(reqs) && Harmless(reqs[..|reqs| - 1])
    requires Recreates(reqs, |reqs| - 1) && Late(reqs[|reqs| - 1])
    ensures Continues(reqs, more) && !Invisible(reqs + more)
  {
    hide Serve, Recreates, Harmless, Evict, InOrder, Invisible;
    LateWindows(reqs);
    var q := reqs[|reqs| - 1];
    var one, last := At(q.key, 1, q.now), At(q.key, 1, q.found + RATE_WINDOW);
    if q.limit >= 1 {
      ShowsAtEnd(reqs, q.key, q.found, q.now);
      more := [last];
    } else {
      AskedNext(reqs, q.key, 1, q.now, Window(q.found, 0), Window(q.now, 0));
      OrderSnoc(reqs, one);
      ShowsAtEnd(reqs + [one], q.key, q.found, q.now);
      more := [one, last];
      assert reqs + [one] + [last] == reqs + more;
    }
  }

  lemma LastDiffers(a: seq<bool>, b: seq<bool>)
    requires |a| == |b| > 0 && a[|a| - 1] != b[|b| - 1]
    ensures a != b
  {
  }

  /** The first late re-creation. */
  lemma {:induction false} FirstHarm(reqs: seq<Request>) returns (i: nat)
    requires !Harmless(reqs)
    ensures i < |reqs| && Recreates(reqs, i) && Late(reqs[i]) && Harmless(reqs[..i])
  {
    hide Serve;
    var n := |reqs| - 1;
    if Harmless(reqs[..n]) {
      forall k | 0 <= k < n
        ensures !(Recreates(reqs, k) && Late(reqs[k]))
      {
        assert reqs[..n][..k] == reqs[..k];
        assert !(Recreates(reqs[..n], k) && Late(reqs[..n][k]));
      }
      i := n;
    } else {
      i := FirstHarm(reqs[..n]);
      assert reqs[..n][..i] == reqs[..i];
    }
  }

  lemma HarmlessLonger(reqs: seq<Request>, more: seq<Request>)
    requires Harmless(reqs) && Continues(reqs, more)
    ensures Harmless(reqs + more)
  {
    hide Serve;
    var all := reqs + more;
    forall i | 0 <= i < |all|
      ensures !(Recreates(all, i) && Late(all[i]))
    {
      if i < |reqs| {
        assert all[..i] == reqs[..i] && all[i] == reqs[i];
        assert !(Recreates(reqs, i) && Late(reqs[i]));
      } else {
        assert all[i] == more[i - |reqs|];
      }
    }
  }

  /** Eviction cannot be noticed at any point of the run, however it goes on. */
  ghost predicate NeverShows(reqs: seq<Request>) {
    forall n: nat, more :: n <= |reqs| && Continues(reqs[..n], more) ==> Invisible(reqs[..n] + more)
  }

  /** Eviction is invisible exactly when no evicted window is re-created by a request that asks later than it
      looks up, within the new window. */
  lemma InvisibleExactly(reqs: seq<Request>)
    requires InOrder(reqs)
    ensures NeverShows(reqs) <==> Harmless(reqs)
  {
    hide Serve;
    if Harmless(reqs) {
      forall n: nat, more | n <= |reqs| && Continues(reqs[..n], more)
        ensures Invisible(reqs[..n] + more)
      {
        HarmlessPrefix(reqs, n);
        HarmlessLonger(reqs[..n], more);
        var all := reqs[..n] + more;
        EvictionCovers(all, if all == [] then 0 else all[|all| - 1].now);
      }
    } else {
      var i := FirstHarm(reqs);
      var run := reqs[..i + 1];
      assert run[..i] == reqs[..i] && run[i] == reqs[i];
      var more := LateRecreationShows(run);
      assert Continues(reqs[..i + 1], more) && !Invisible(reqs[..i + 1] + more);
    }
  }

  // ---------------------------------------------------------------------
  // It does show
  // ---------------------------------------------------------------------

  /** Keys 0 to n - 1, each asking once at time 0. */
  function Opening(n: nat): seq<Request> {
    seq(n, k => At(k, 1, 0))
  }

  function Opened(n: nat): (t: map<int, Window>)
    ensures forall k :: k in t <==> 0 <= k < n
    ensures forall k :: k in t ==> t[k] == Window(0, 1)
    ensures |t| == n
  {
    if n == 0 then map[] else Opened(n - 1)[n - 1 := Window(0, 1)]
  }

  lemma NothingStale(n: nat, evicting: bool)
    ensures Kept(Opened(n), 0, evicting) == Opened(n)
  {
    hide Opened;
  }

  lemma {:induction false} OpeningServed(n: nat, evicting: bool)
    ensures Serve(Opening(n), evicting).0 == Opened(n)
  {
    hide Serve;
    if n == 0 {
      assert Opening(n) == [];
      NothingServed();
    } else {
      var q := At(n - 1, 1, 0);
      OpeningServed(n - 1, evicting);
      ServeSnoc(Opening(n - 1), q, evicting);
      assert Opening(n - 1) + [q] == Opening(n);
      NothingStale(n - 1, evicting);
      hide Kept, Opening;
      assert (n - 1) !in Opened(n - 1);
    }
  }

  /** A table too large to be left alone; two windows later key 0 is looked up an instant before it asks. From then
      on the deployed table and one that never evicts can be told apart. */
  lemma EvictionCanShow(n: nat) returns (reqs: seq<Request>, more: seq<Request>)
    requires n == EVICT_ABOVE + 1
    ensures InOrder(reqs) && |reqs| == n + 1 && Continues(reqs, more) && !Invisible(reqs + more)
  {
    hide Serve, Evict, Opened;
    var q := Request(0, 1, 2 * RATE_WINDOW, 2 * RATE_WINDOW, 2 * RATE_WINDOW + 1);
    reqs := Opening(n) + [q];
    assert reqs[..n] == Opening(n);
    OpeningServed(n, true);
    OpeningServed(n, false);
    AllStale(n);
    OpeningHarmless(n);
    assert Recreates(reqs, n);
    hide Recreates, Harmless;
    more := LateRecreationShows(reqs);
  }

  lemma AllStale(n: nat)
    requires n == EVICT_ABOVE + 1
    ensures 0 in Opened(n) && 0 !in Evict(Opened(n), 2 * RATE_WINDOW)
  {
    hide Opened;
  }

  lemma OpeningHarmless(n: nat)
    ensures Harmless(Opening(n))
  {
    hide Recreates;
  }
}
