/** The cap on active refresh families (backend/internal/handler/auth/auth.go,
    backend/internal/db/refresh_tokens.sql.go). */
module RefreshCap {
  import opened Prelude
  import opened Refresh
  import opened RefreshHistory

  lemma SubsetSize<T>(a: set<T>, b: set<T>)
    requires a <= b
    ensures |a| <= |b|
  {
    if a != b {
      var x :| x in b && x !in a;
      assert a <= b - {x};
      SubsetSize(a, b - {x});
    }
  }

  ghost predicate Within(rows: Rows, t: int) {
    forall u :: |Active(rows, u, t)| <= 20
  }

  lemma FewerActive(rows: Rows, rows': Rows, user: int, t: int)
    requires Fewer(rows, rows')
    ensures Active(rows', user, t) <= Active(rows, user, t)
    ensures |Active(rows', user, t)| <= |Active(rows, user, t)|
  {
    SubsetSize(Active(rows', user, t), Active(rows, user, t));
  }

  lemma LaterActive(rows: Rows, user: int, t: int, t': int)
    requires t <= t'
    ensures |Active(rows, user, t')| <= |Active(rows, user, t)|
  {
    SubsetSize(Active(rows, user, t'), Active(rows, user, t));
  }

  lemma InsertActive(w: World, user: int, secret: Secret, family: Family, now: int, u: int)
    requires w.nextId !in w.rows
    ensures Active(Insert(w, user, secret, family, now).rows, u, Unix(now)) ==
            Active(w.rows, u, Unix(now)) + if u == user then {family} else {}
  {
    var rows, rows' := w.rows, Insert(w, user, secret, family, now).rows;
    var t := Unix(now);
    forall f | f in Active(rows, u, t)
      ensures f in Active(rows', u, t)
    {
      var id :| id in rows && ActiveRow(rows, id, u, t) && rows[id].family == f;
      assert ActiveRow(rows', id, u, t);
    }
    assert u == user ==> ActiveRow(rows', w.nextId, u, t);
  }

  /** Login at the cap kills the family whose live token was issued longest ago, and only that family. */
  lemma LoginEvictsLeastRecentlyRotated(tr: Trace, user: int, secret: Secret, family: Family, now: int, pick: nat)
    requires Inv(tr, now) && Enabled(tr, LoginE(user, secret, family, now, pick))
    requires |Active(tr.w.rows, user, Unix(now))| >= 20
    ensures var rows, rows' := tr.w.rows, Login(tr.w, user, secret, family, now, pick).rows;
      var out := rows[pick].family;
      && out in Active(rows, user, Unix(now))
      && (forall id :: id in rows && rows[id].family == out ==> rows'[id].revoked)
      && (forall id :: id in rows && rows[id].family != out ==> rows'[id] == rows[id])
      && (forall id, k :: ActiveRow(rows, id, user, Unix(now)) && k in rows && rows[k].family == out ==>
            rows[k].createdAt <= rows[id].createdAt)
  {
    hide Unix;
  }

  lemma EvictActive(rows: Rows, pick: nat, user: int, t: int)
    requires ActiveRow(rows, pick, user, t)
    ensures |Active(RevokeFamily(rows, rows[pick].family), user, t)| < |Active(rows, user, t)|
  {
    var out := rows[pick].family;
    assert out in Active(rows, user, t);
    assert Active(RevokeFamily(rows, out), user, t) <= Active(rows, user, t) - {out};
    SubsetSize(Active(RevokeFamily(rows, out), user, t), Active(rows, user, t) - {out});
  }

  lemma LoginWithin(tr: Trace, e: Event)
    requires e.LoginE? && Inv(tr, e.now) && Enabled(tr, e) && Within(tr.w.rows, Unix(e.now))
    ensures Within(Apply(tr.w, e).rows, Unix(e.now))
  {
    hide Inv, Unix, Active;
    var LoginE(user, secret, family, now, pick) := e;
    var t := Unix(now);
    var full := |Active(tr.w.rows, user, t)| >= MAX_FAMILIES;
    var rows := if full then RevokeFamily(tr.w.rows, tr.w.rows[pick].family) else tr.w.rows;
    var w := tr.w.(rows := rows);
    FreshId(tr, now);
    if full {
      EvictActive(tr.w.rows, pick, user, t);
    }
    forall u
      ensures |Active(Apply(tr.w, e).rows, u, t)| <= MAX_FAMILIES
    {
      InsertActive(w, user, secret, family, now, u);
      FewerActive(tr.w.rows, rows, u, t);
    }
  }

  lemma FreshId(tr: Trace, now: int)
    requires Inv(tr, now)
    ensures tr.w.nextId !in tr.w.rows
  {
  }

  /** Revoking a family's one live token takes the family off the list. */
  lemma RevokeActive(rows: Rows, id: nat, u: int, t: int)
    requires OneLive(rows) && id in rows && !rows[id].revoked
    ensures Active(RevokeId(rows, id), u, t) == Active(rows, u, t) - {rows[id].family}
    ensures rows[id].family in Active(rows, u, t) <==> rows[id].user == u && rows[id].expiresAt > t
  {
    var family, before, after := rows[id].family, Active(rows, u, t), Active(RevokeId(rows, id), u, t);
    forall f | f in before && f != family
      ensures f in after
    {
      var k :| k in rows && ActiveRow(rows, k, u, t) && rows[k].family == f;
      assert ActiveRow(RevokeId(rows, id), k, u, t);
    }
    assert rows[id].user == u && rows[id].expiresAt > t ==> ActiveRow(rows, id, u, t);
  }

  /** Rotation neither adds nor removes an active family, except when the presented token has expired by the time
      its successor is created: the count already leaves its family out. */
  lemma RotateCounts(tr: Trace, id: nat, now: int, outcome: Outcome, u: int)
    requires Inv(tr, now) && id in tr.w.rows && !tr.w.rows[id].revoked
    requires outcome.Issue?
    ensures |Active(Rotate(tr.w, id, now, outcome).0.rows, u, Unix(now))| ==
            |Active(tr.w.rows, u, Unix(now))| +
            if u == tr.w.rows[id].user && tr.w.rows[id].expiresAt <= Unix(now) then 1 else 0
  {
    var row, t := tr.w.rows[id], Unix(now);
    var rows1 := RevokeId(tr.w.rows, id);
    RevokeActive(tr.w.rows, id, u, t);
    FreshId(tr, now);
    hide Active, Unix, Inv;
    InsertActive(tr.w.(rows := rows1), row.user, outcome.successor, row.family, now, u);
  }

  /** The token is accepted, in the second of its expiry at the latest, and its successor created in that second at
      the earliest. With one reading of the clock that is the very second in which it expires. */
  ghost predicate OnTheDot(tr: Trace, e: Event) {
    Accepted(tr.w, e) && tr.w.rows[IdOf(tr.w.rows, e.secret).value].expiresAt <= Unix(e.now)
  }

  /** One step breaks the cap exactly when it is such a refresh by a user who is already at the cap. */
  lemma CapBreaksExactly(tr: Trace, e: Event)
    requires Inv(tr, e.now) && Enabled(tr, e) && Within(tr.w.rows, Unix(e.now))
    ensures !Within(Apply(tr.w, e).rows, Unix(e.now)) <==>
      OnTheDot(tr, e) &&
      |Active(tr.w.rows, tr.w.rows[IdOf(tr.w.rows, e.secret).value].user, Unix(e.now))| == 20
  {
    var t, rows' := Unix(e.now), Apply(tr.w, e).rows;
    if e.LoginE? {
      LoginWithin(tr, e);
    } else if Accepted(tr.w, e) {
      AcceptedRotates(tr, e);
      var id := IdOf(tr.w.rows, e.secret).value;
      hide Active, Rotate, Unix, IdOf, Apply, Inv;
      forall u
        ensures |Active(rows', u, t)| == |Active(tr.w.rows, u, t)| +
                if u == tr.w.rows[id].user && tr.w.rows[id].expiresAt <= t then 1 else 0
      {
        RotateCounts(tr, id, e.now, e.outcome, u);
      }
    } else {
      OthersShrink(tr.w, e);
      hide Active, Fewer, Apply, IdOf;
      forall u { FewerActive(tr.w.rows, rows', u, t); }
    }
  }

  lemma OthersShrink(w: World, e: Event)
    requires !e.LoginE? && !Accepted(w, e)
    ensures Fewer(w.rows, Apply(w, e).rows)
  {
    if e.RefreshE? {
      RefusedShrinks(w, e);
    }
  }

  /** In every run without such a refresh, no user ever has more than twenty active families. */
  lemma {:induction false} CapHolds(traces: seq<Trace>, events: seq<Event>, i: nat, now: int)
    requires Execution(traces, events) && i <= |events|
    requires forall k :: 0 <= k < i ==> !OnTheDot(traces[k], events[k])
    requires i > 0 ==> ClockAt(events, i) <= now
    ensures Within(traces[i].w.rows, Unix(now))
  {
    if i == 0 {
      forall u ensures Active(traces[0].w.rows, u, Unix(now)) == {} {}
    } else {
      var e := events[i - 1];
      CapHolds(traces, events, i - 1, e.now);
      InvAtEvent(traces, events, i - 1);
      CapBreaksExactly(traces[i - 1], e);
      hide Active, Execution;
      forall u { LaterActive(traces[i].w.rows, u, Unix(e.now), Unix(now)); }
    }
  }

  // ---------------------------------------------------------------------
  // A run that exceeds the cap
  // ---------------------------------------------------------------------

  /** One login at time zero, nineteen a second later, one when the first token expires. */
  function LoginTime(k: nat): int {
    if k == 0 then 0 else if k < 20 then NANOS_PER_SECOND else REFRESH_TOKEN_EXPIRY
  }

  function LoginRow(k: nat): Row {
    Row(1, k, k, Unix(LoginTime(k) + REFRESH_TOKEN_EXPIRY), false, Unix(LoginTime(k)))
  }

  function Range(a: nat, b: nat): (s: set<nat>)
    ensures forall i :: i in s <==> a <= i < b
    ensures |s| == if a <= b then b - a else 0
    decreases b
  {
    if b <= a then {} else Range(a, b - 1) + {b - 1}
  }

  ghost function FilledRows(k: nat): Rows {
    map id | id in Range(0, k) :: LoginRow(id)
  }

  /** The state after the first k logins. */
  ghost function Filled(k: nat): Trace {
    Trace(World(FilledRows(k), k, map[]), Range(0, k), Range(0, k))
  }

  lemma WhoIsActive(id: nat, k: nat)
    requires id < k <= 21
    ensures LoginRow(id).expiresAt > Unix(LoginTime(k)) <==> k < 20 || id >= 1
  {
  }

  lemma FilledActive(k: nat)
    requires k <= 21
    ensures Active(FilledRows(k), 1, Unix(LoginTime(k))) == Range(if k < 20 then 0 else 1, k)
  {
    var rows, t, lo := FilledRows(k), Unix(LoginTime(k)), if k < 20 then 0 else 1;
    hide Range, Unix, LoginTime;
    forall id | id in rows
      ensures rows[id].family == id && (ActiveRow(rows, id, 1, t) <==> id >= lo)
    {
      WhoIsActive(id, k);
    }
    assert forall i :: i in Range(lo, k) ==> ActiveRow(rows, i, 1, t) && rows[i].family == i;
  }

  lemma FilledCount(k: nat)
    requires k <= 21
    ensures |Active(FilledRows(k), 1, Unix(LoginTime(k)))| == if k < 20 then k else k - 1
  {
    FilledActive(k);
    hide Active, Unix, LoginTime, FilledRows;
  }

  /** A login below the cap just inserts: nothing is revoked. */
  lemma LoginBelowCap(tr: Trace, user: int, secret: Secret, family: Family, now: int, pick: nat)
    requires |Active(tr.w.rows, user, Unix(now))| < 20
    requires secret !in tr.secrets && family !in tr.families
    ensures var e := LoginE(user, secret, family, now, pick);
      Enabled(tr, e) && Next(tr, e) == Inserted(tr, user, secret, family, now)
  {
    hide Active, Unix;
  }

  lemma FilledStep(k: nat)
    requires k <= 20
    ensures var e := LoginE(1, k, k, LoginTime(k), 0); Enabled(Filled(k), e) && Next(Filled(k), e) == Filled(k + 1)
  {
    FilledCount(k);
    hide Active, Unix, LoginTime, Range, Enabled, Next, FilledRows;
    LoginBelowCap(Filled(k), 1, k, k, LoginTime(k), 0);
    FilledGrows(k);
  }

  lemma FilledGrows(k: nat)
    ensures FilledRows(k)[k := LoginRow(k)] == FilledRows(k + 1)
    ensures Range(0, k) + {k} == Range(0, k + 1)
  {
    hide LoginRow;
  }

  lemma EmptyStart(tr: Trace)
    requires tr == Filled(0)
    ensures tr == Trace(World(map[], 0, map[]), {}, {})
  {
  }

  lemma LastIsOnTheDot(n: nat)
    requires n == MAX_FAMILIES + 1
    ensures IdOf(FilledRows(n), 0) == Some(0)
    ensures var last := RefreshE(0, REFRESH_TOKEN_EXPIRY, REFRESH_TOKEN_EXPIRY, Issue("", n));
      Enabled(Filled(n), last) && OnTheDot(Filled(n), last)
  {
    hide Range;
    assert FilledRows(n)[0] == LoginRow(0);
  }

  lemma LastRevives(n: nat)
    requires n == MAX_FAMILIES + 1 && Inv(Filled(n), REFRESH_TOKEN_EXPIRY)
    requires Enabled(Filled(n), RefreshE(0, REFRESH_TOKEN_EXPIRY, REFRESH_TOKEN_EXPIRY, Issue("", n)))
    ensures |Active(Next(Filled(n), RefreshE(0, REFRESH_TOKEN_EXPIRY, REFRESH_TOKEN_EXPIRY, Issue("", n))).w.rows, 1, Unix(REFRESH_TOKEN_EXPIRY))| == n
  {
    LastIsOnTheDot(n);
    FilledCount(n);
    hide Active, Range, Inv, Enabled, FilledRows;
    RotateCounts(Filled(n), 0, REFRESH_TOKEN_EXPIRY, Issue("", n), 1);
  }

  lemma ExceedsCap(rows: Rows, u: int, t: int)
    requires |Active(rows, u, t)| > MAX_FAMILIES
    ensures !Within(rows, t)
  {
  }

  /** Twenty families are active, and a refresh in the second in which a further token of the user expires
      revives its family: state n of the run is the n-th login's, the last one the refresh's. */
  lemma ExceedingRun(n: nat) returns (traces: seq<Trace>, events: seq<Event>)
    requires n == MAX_FAMILIES + 1
    ensures Execution(traces, events) && |events| == n + 1
    ensures |Active(traces[n + 1].w.rows, 1, Unix(events[n].now))| == n
  {
    hide Active, Within, Range, Enabled, Next;
    var last := RefreshE(0, REFRESH_TOKEN_EXPIRY, REFRESH_TOKEN_EXPIRY, Issue("", n));
    events := seq(n, k requires 0 <= k < n => LoginE(1, k, k, LoginTime(k), 0)) + [last];
    LastIsOnTheDot(n);
    traces := seq(n + 1, k requires 0 <= k <= n => Filled(k)) + [Next(Filled(n), last)];
    forall k | 0 <= k < n
      ensures Enabled(traces[k], events[k]) && traces[k + 1] == Next(traces[k], events[k])
    {
      FilledStep(k);
    }
    assert traces[0] == Filled(0);
    EmptyStart(traces[0]);
    InvAtEvent(traces, events, n);
    LastRevives(n);
  }

  /** The cap is not unconditional. */
  lemma CapCanBeExceeded()
    ensures exists traces: seq<Trace>, events: seq<Event> ::
      Execution(traces, events) && |events| > 0 &&
      !Within(traces[|events|].w.rows, Unix(events[|events| - 1].now))
  {
    var n := MAX_FAMILIES + 1;
    var traces, events := ExceedingRun(n);
    hide Execution, Active;
    ExceedsCap(traces[n + 1].w.rows, 1, Unix(events[n].now));
  }
}
