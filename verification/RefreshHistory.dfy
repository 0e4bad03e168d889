/** Every run of login, refresh, logout, password change and sweep
    (backend/internal/handler/auth/auth.go, backend/internal/db/refresh_tokens.sql.go). */
module RefreshHistory {
  import opened Prelude
  import opened Refresh

  datatype Event =
    | LoginE(user: int, secret: Secret, family: Family, now: int, pick: nat)
    | RefreshE(secret: Secret, checked: int, now: int, outcome: Outcome)
    | LogoutE(secret: Secret, now: int)
    | PasswordE(user: int, now: int)
    | SweepE(now: int)

  /** A world together with every secret and family ever issued. */
  datatype Trace = Trace(w: World, secrets: set<Secret>, families: set<Family>)

  ghost function Apply(w: World, e: Event): World
    requires e.LoginE? && |Active(w.rows, e.user, Unix(e.now))| >= MAX_FAMILIES ==>
      Oldest(w.rows, e.pick, e.user, Unix(e.now))
  {
    match e
    case LoginE(user, secret, family, now, pick) => Login(w, user, secret, family, now, pick)
    case RefreshE(secret, checked, now, outcome) => Present(w, secret, checked, now, outcome).0
    case LogoutE(secret, _) => Logout(w, secret)
    case PasswordE(user, _) => ChangePassword(w, user)
    case SweepE(now) => Sweep(w, now)
  }

  /** New secrets and families are new, and the evicted row is one the query may return. */
  ghost predicate Enabled(tr: Trace, e: Event) {
    match e
    case LoginE(user, secret, family, now, pick) =>
      secret !in tr.secrets && family !in tr.families &&
      (|Active(tr.w.rows, user, Unix(now))| >= MAX_FAMILIES ==> Oldest(tr.w.rows, pick, user, Unix(now)))
    case RefreshE(secret, checked, now, outcome) => checked <= now && (outcome.Issue? ==> outcome.successor !in tr.secrets)
    case _ => true
  }

  ghost function Next(tr: Trace, e: Event): Trace
    requires Enabled(tr, e)
  {
    Trace(Apply(tr.w, e),
          tr.secrets + (if e.LoginE? then {e.secret} else if e.RefreshE? && e.outcome.Issue? then {e.outcome.successor} else {}),
          tr.families + if e.LoginE? then {e.family} else {})
  }

  /** When an event first reads the clock. */
  function Began(e: Event): int {
    if e.RefreshE? then e.checked else e.now
  }

  /** A run, as the list of states it passes through: one event after the other. */
  ghost predicate Execution(traces: seq<Trace>, events: seq<Event>) {
    |traces| == |events| + 1 &&
    traces[0] == Trace(World(map[], 0, map[]), {}, {}) &&
    (forall i :: 0 <= i < |events| ==> Enabled(traces[i], events[i]) && traces[i + 1] == Next(traces[i], events[i])) &&
    (forall i, j :: 0 <= i <= j < |events| ==> events[i].now <= events[j].now) &&
    (forall i, j :: 0 <= i < j < |events| ==> events[i].now <= Began(events[j]))
  }

  // ---------------------------------------------------------------------
  // The invariant
  // ---------------------------------------------------------------------

  ghost predicate RowsKnown(tr: Trace) {
    && UniqueSecrets(tr.w.rows)
    && forall id :: id in tr.w.rows ==>
         id < tr.w.nextId && tr.w.rows[id].secret in tr.secrets && tr.w.rows[id].family in tr.families
  }

  /** Each family has at most one unrevoked token. */
  ghost predicate OneLive(rows: Rows) {
    forall a, b :: a in rows && b in rows && !rows[a].revoked && !rows[b].revoked && rows[a].family == rows[b].family
      ==> a == b
  }

  /** A family belongs to one user, and its live token is its newest. */
  ghost predicate FamilyShape(rows: Rows) {
    && (forall a, b :: a in rows && b in rows && rows[a].family == rows[b].family ==> rows[a].user == rows[b].user)
    && (forall a, b :: a in rows && b in rows && rows[a].family == rows[b].family && !rows[a].revoked ==>
          rows[b].createdAt <= rows[a].createdAt)
  }

  ghost predicate CreatedBy(rows: Rows, t: int) {
    forall id :: id in rows ==> rows[id].createdAt <= t
  }

  /** Cache keys are rotated tokens; the cached successor belongs to the same family and user. */
  ghost predicate CacheKnown(tr: Trace) {
    forall h :: h in tr.w.cache ==>
      var c := tr.w.cache[h];
      && h in tr.secrets && c.successor in tr.secrets
      && (forall id :: id in tr.w.rows && tr.w.rows[id].secret == h ==>
            tr.w.rows[id].revoked && tr.w.rows[id].family == c.family && tr.w.rows[id].user == c.user)
      && (forall id :: id in tr.w.rows && tr.w.rows[id].secret == c.successor ==>
            tr.w.rows[id].family == c.family && tr.w.rows[id].user == c.user)
  }

  ghost predicate Inv(tr: Trace, now: int) {
    RowsKnown(tr) && OneLive(tr.w.rows) && FamilyShape(tr.w.rows) && CreatedBy(tr.w.rows, Unix(now)) && CacheKnown(tr)
  }

  /** Rows may have been revoked or deleted, and nothing else. */
  ghost predicate Fewer(rows: Rows, rows': Rows) {
    forall id :: id in rows' ==> id in rows && (rows'[id] == rows[id] || rows'[id] == rows[id].(revoked := true))
  }

  lemma FewerKeepsInv(tr: Trace, w': World, now: int)
    requires Inv(tr, now)
    requires Fewer(tr.w.rows, w'.rows) && w'.nextId == tr.w.nextId
    requires forall h :: h in w'.cache ==> h in tr.w.cache && w'.cache[h] == tr.w.cache[h]
    ensures Inv(tr.(w := w'), now)
  {
    var rows, rows' := tr.w.rows, w'.rows;
    forall id | id in rows'
      ensures id in rows && rows'[id].user == rows[id].user && rows'[id].secret == rows[id].secret &&
              rows'[id].family == rows[id].family && rows'[id].createdAt == rows[id].createdAt &&
              (rows[id].revoked ==> rows'[id].revoked)
    {
    }
    hide Fewer;
    assert RowsKnown(tr.(w := w'));
    assert OneLive(rows');
    assert FamilyShape(rows');
    assert CacheKnown(tr.(w := w'));
  }

  ghost predicate Joins(rows: Rows, user: int, family: Family) {
    forall id :: id in rows && rows[id].family == family ==> rows[id].revoked && rows[id].user == user
  }

  ghost function Inserted(tr: Trace, user: int, secret: Secret, family: Family, now: int): Trace {
    Trace(Insert(tr.w, user, secret, family, now), tr.secrets + {secret}, tr.families + {family})
  }

  lemma InsertKeepsRows(tr: Trace, user: int, secret: Secret, family: Family, now: int)
    requires RowsKnown(tr) && OneLive(tr.w.rows) && secret !in tr.secrets && Joins(tr.w.rows, user, family)
    ensures var tr' := Inserted(tr, user, secret, family, now); RowsKnown(tr') && OneLive(tr'.w.rows)
  {
    hide Unix;
  }

  lemma InsertKeepsShape(tr: Trace, user: int, secret: Secret, family: Family, now: int)
    requires RowsKnown(tr) && FamilyShape(tr.w.rows) && CreatedBy(tr.w.rows, Unix(now)) && Joins(tr.w.rows, user, family)
    ensures var rows := Inserted(tr, user, secret, family, now).w.rows; FamilyShape(rows) && CreatedBy(rows, Unix(now))
  {
    hide Unix, UniqueSecrets;
  }

  /** A new token may join a family that has no live one. */
  lemma InsertKeepsInv(tr: Trace, user: int, secret: Secret, family: Family, now: int)
    requires Inv(tr, now) && secret !in tr.secrets && Joins(tr.w.rows, user, family)
    ensures Inv(Inserted(tr, user, secret, family, now), now)
  {
    InsertKeepsRows(tr, user, secret, family, now);
    InsertKeepsShape(tr, user, secret, family, now);
    hide Unix, UniqueSecrets, OneLive, FamilyShape, CreatedBy, Joins;
  }

  lemma LoginKeepsInv(tr: Trace, e: Event)
    requires e.LoginE? && Enabled(tr, e) && Inv(tr, e.now)
    ensures Inv(Next(tr, e), e.now)
  {
    var LoginE(user, secret, family, now, pick) := e;
    var rows := if |Active(tr.w.rows, user, Unix(now))| >= MAX_FAMILIES
                then RevokeFamily(tr.w.rows, tr.w.rows[pick].family) else tr.w.rows;
    var w := tr.w.(rows := rows);
    FewerKeepsInv(tr, w, now);
    InsertKeepsInv(tr.(w := w), user, secret, family, now);
  }

  lemma RefreshKeepsInv(tr: Trace, e: Event)
    requires e.RefreshE? && Enabled(tr, e) && Inv(tr, e.now)
    ensures Inv(Next(tr, e), e.now)
  {
    hide Inv, Unix;
    var RefreshE(secret, checked, now, outcome) := e;
    if Accepted(tr.w, e) {
      AcceptedRotates(tr, e);
      KnownFamily(tr, IdOf(tr.w.rows, secret).value, now);
      hide IdOf, Rotate, Accepted;
      RotateKeepsInv(tr, IdOf(tr.w.rows, secret).value, now, outcome);
    } else {
      var w' := Apply(tr.w, e);
      RefusedShrinks(tr.w, e);
      hide Fewer, Accepted, IdOf;
      FewerKeepsInv(tr, w', now);
      MoreSecrets(tr.(w := w'), Next(tr, e).secrets, now);
      assert tr.families + {} == tr.families;
    }
  }

  /** The presented token is accepted and gets a successor. */
  ghost predicate Accepted(w: World, e: Event) {
    e.RefreshE? && e.outcome.Issue? && IdOf(w.rows, e.secret).Some? &&
    var row := w.rows[IdOf(w.rows, e.secret).value];
    !row.revoked && Unix(e.checked) <= row.expiresAt
  }

  lemma AcceptedRotates(tr: Trace, e: Event)
    requires Enabled(tr, e) && Accepted(tr.w, e)
    ensures Next(tr, e) ==
      Trace(Rotate(tr.w, IdOf(tr.w.rows, e.secret).value, e.now, e.outcome).0, tr.secrets + {e.outcome.successor},
            tr.families)
    ensures Apply(tr.w, e) == Rotate(tr.w, IdOf(tr.w.rows, e.secret).value, e.now, e.outcome).0
  {
    hide IdOf, Unix, Rotate;
    assert tr.families + {} == tr.families;
  }

  lemma KnownFamily(tr: Trace, id: nat, now: int)
    requires Inv(tr, now) && id in tr.w.rows
    ensures tr.families + {tr.w.rows[id].family} == tr.families
  {
  }

  /** Any other presentation only revokes rows and forgets a cache entry. */
  lemma RefusedShrinks(w: World, e: Event)
    requires e.RefreshE? && !Accepted(w, e)
    ensures var w' := Apply(w, e);
      && Fewer(w.rows, w'.rows) && w'.nextId == w.nextId
      && forall h :: h in w'.cache ==> h in w.cache && w'.cache[h] == w.cache[h]
  {
    hide IdOf, Unix;
  }

  lemma MoreSecrets(tr: Trace, secrets: set<Secret>, now: int)
    requires Inv(tr, now) && tr.secrets <= secrets
    ensures Inv(tr.(secrets := secrets), now)
  {
  }

  lemma RotateKeepsInv(tr: Trace, id: nat, now: int, outcome: Outcome)
    requires Inv(tr, now) && id in tr.w.rows && !tr.w.rows[id].revoked
    requires outcome.Issue? && outcome.successor !in tr.secrets
    ensures Inv(Trace(Rotate(tr.w, id, now, outcome).0, tr.secrets + {outcome.successor}, tr.families), now)
  {
    var row := tr.w.rows[id];
    var w1 := tr.w.(rows := RevokeId(tr.w.rows, id));
    FewerKeepsInv(tr, w1, now);
    InsertKeepsInv(tr.(w := w1), row.user, outcome.successor, row.family, now);
    var w2 := Insert(w1, row.user, outcome.successor, row.family, now);
    assert tr.families + {row.family} == tr.families;
    var tr2 := Trace(w2, tr.secrets + {outcome.successor}, tr.families);
    assert Inv(tr2, now);
    var c := Cached(outcome.access, outcome.successor, row.user, row.family, now + REPLAY_GRACE);
    CacheOne(tr2, row.secret, c, id, w1.nextId, now);
  }

  lemma CacheOne(tr: Trace, secret: Secret, c: Cached, id: nat, new_: nat, now: int)
    requires Inv(tr, now)
    requires id in tr.w.rows && new_ in tr.w.rows
    requires tr.w.rows[id].secret == secret && tr.w.rows[id].revoked
    requires tr.w.rows[id].family == tr.w.rows[new_].family == c.family
    requires tr.w.rows[id].user == tr.w.rows[new_].user == c.user && tr.w.rows[new_].secret == c.successor
    ensures Inv(tr.(w := tr.w.(cache := Unexpired(tr.w.cache[secret := c], now))), now)
  {
  }

  lemma OthersKeepInv(tr: Trace, e: Event)
    requires (e.LogoutE? || e.PasswordE? || e.SweepE?) && Inv(tr, e.now)
    ensures Inv(Next(tr, e), e.now)
  {
    FewerKeepsInv(tr, Apply(tr.w, e), e.now);
    assert tr.secrets + {} == tr.secrets && tr.families + {} == tr.families;
  }

  lemma StepKeepsInv(tr: Trace, e: Event)
    requires Enabled(tr, e) && Inv(tr, e.now)
    ensures Inv(Next(tr, e), e.now)
  {
    match e
    case LoginE(_, _, _, _, _) => LoginKeepsInv(tr, e);
    case RefreshE(_, _, _, _) => RefreshKeepsInv(tr, e);
    case _ => OthersKeepInv(tr, e);
  }

  lemma LaterKeepsInv(tr: Trace, t: int, t': int)
    requires Inv(tr, t) && t <= t'
    ensures Inv(tr, t')
  {
    assert Unix(t) <= Unix(t');
    hide Unix, RowsKnown, OneLive, FamilyShape, CacheKnown;
  }

  /** The instant of the latest event before state i. */
  ghost function ClockAt(events: seq<Event>, i: nat): int
    requires 0 < i <= |events|
  {
    events[i - 1].now
  }

  /** In every reachable state each family has at most one live token, and the rest of the invariant holds. */
  lemma {:induction false} ReachableInv(traces: seq<Trace>, events: seq<Event>, i: nat)
    requires Execution(traces, events) && i <= |events|
    ensures i > 0 ==> Inv(traces[i], ClockAt(events, i))
    ensures i == 0 ==> forall t :: Inv(traces[0], t)
    ensures OneLive(traces[i].w.rows)
  {
    if i > 0 {
      ReachableInv(traces, events, i - 1);
      var e := events[i - 1];
      if i > 1 {
        LaterKeepsInv(traces[i - 1], events[i - 2].now, e.now);
      }
      StepKeepsInv(traces[i - 1], e);
    }
  }

  /** The invariant at the moment the i-th event happens. */
  lemma InvAtEvent(traces: seq<Trace>, events: seq<Event>, i: nat)
    requires Execution(traces, events) && i < |events|
    ensures Inv(traces[i], events[i].now)
  {
    ReachableInv(traces, events, i);
    if i > 0 {
      LaterKeepsInv(traces[i], events[i - 1].now, events[i].now);
    }
  }

  // ---------------------------------------------------------------------
  // Dead families stay dead
  // ---------------------------------------------------------------------

  ghost predicate Dead(tr: Trace, family: Family) {
    family in tr.families && forall id :: id in tr.w.rows && tr.w.rows[id].family == family ==> tr.w.rows[id].revoked
  }

  lemma StepKeepsDead(tr: Trace, e: Event, family: Family)
    requires Enabled(tr, e) && Inv(tr, e.now) && Dead(tr, family)
    ensures Dead(Next(tr, e), family)
  {
    hide IdOf, Active, Oldest, OneLive, FamilyShape, CacheKnown, Unix;
  }

  /** A family without a live token never gains one again. */
  lemma {:induction false} DeadForever(traces: seq<Trace>, events: seq<Event>, i: nat, j: nat, family: Family)
    requires Execution(traces, events) && i <= j <= |events|
    requires Dead(traces[i], family)
    ensures Dead(traces[j], family)
    decreases j - i
  {
    if i < j {
      InvAtEvent(traces, events, i);
      StepKeepsDead(traces[i], events[i], family);
      DeadForever(traces, events, i + 1, j, family);
    }
  }

  // ---------------------------------------------------------------------
  // Replay
  // ---------------------------------------------------------------------

  /** Event e, in state tr, rotates the token `secret` into the pair (access, successor). */
  ghost predicate Rotates(tr: Trace, e: Event, secret: Secret, access: string, successor: Secret) {
    e.RefreshE? && e.secret == secret && e.outcome == Issue(access, successor) &&
    IdOf(tr.w.rows, secret).Some? &&
    var row := tr.w.rows[IdOf(tr.w.rows, secret).value];
    !row.revoked && Unix(e.checked) <= row.expiresAt
  }

  /** Nothing the cache says about `secret` differs from c, it says so until c expires, and every row of
      `secret` is a revoked one of c's family. */
  ghost predicate Remembers(tr: Trace, secret: Secret, c: Cached, now: int) {
    && secret in tr.secrets
    && (secret in tr.w.cache ==> tr.w.cache[secret] == c)
    && (now <= c.expiresAt ==> secret in tr.w.cache)
    && forall id :: id in tr.w.rows && tr.w.rows[id].secret == secret ==>
         tr.w.rows[id].revoked && tr.w.rows[id].family == c.family
  }

  lemma RotationRemembered(tr: Trace, e: Event, secret: Secret, access: string, successor: Secret)
    requires Enabled(tr, e) && Inv(tr, e.now) && Rotates(tr, e, secret, access, successor)
    ensures var row := tr.w.rows[IdOf(tr.w.rows, secret).value];
      Remembers(Next(tr, e), secret, Cached(access, successor, row.user, row.family, e.now + 30 * 1_000_000_000), e.now)
  {
    hide OneLive, FamilyShape, CacheKnown, Unix;
  }

  lemma StepRemembers(tr: Trace, e: Event, secret: Secret, c: Cached, before: int)
    requires Enabled(tr, e) && Inv(tr, e.now) && Remembers(tr, secret, c, before) && before <= e.now
    ensures Remembers(Next(tr, e), secret, c, e.now)
  {
    hide Active, Oldest, OneLive, FamilyShape, CacheKnown, Unix;
    if e.RefreshE? && e.secret == secret {
      assert IdOf(tr.w.rows, secret).Some? ==> tr.w.rows[IdOf(tr.w.rows, secret).value].revoked;
    }
  }

  lemma {:induction false} RunRemembers(traces: seq<Trace>, events: seq<Event>, i: nat, j: nat, secret: Secret, c: Cached)
    requires Execution(traces, events) && 0 < i <= j <= |events|
    requires Remembers(traces[i], secret, c, ClockAt(events, i))
    ensures Remembers(traces[j], secret, c, ClockAt(events, j))
    decreases j - i
  {
    if i < j {
      InvAtEvent(traces, events, i);
      StepRemembers(traces[i], events[i], secret, c, ClockAt(events, i));
      RunRemembers(traces, events, i + 1, j, secret, c);
    }
  }

  /** The sweep at this instant deletes a revoked row: it expired earlier, or was created in an earlier second. */
  predicate Sweeps(e: Event, row: Row) {
    e.SweepE? && (row.expiresAt < Unix(e.now) || row.createdAt < Unix(e.now))
  }

  /** Some event between i and j is such a sweep. */
  predicate Swept(events: seq<Event>, i: nat, j: nat, row: Row)
    requires j <= |events|
  {
    exists k :: i < k < j && Sweeps(events[k], row)
  }

  ghost predicate Absent(tr: Trace, secret: Secret) {
    secret in tr.secrets && forall id :: id in tr.w.rows ==> tr.w.rows[id].secret != secret
  }

  /** A revoked row stays as it is until a sweep deletes it. */
  lemma StepKeepsRow(tr: Trace, e: Event, id: nat, row: Row)
    requires Enabled(tr, e) && Inv(tr, e.now) && id in tr.w.rows && tr.w.rows[id] == row && row.revoked
    ensures if Sweeps(e, row) then Absent(Next(tr, e), row.secret)
            else id in Next(tr, e).w.rows && Next(tr, e).w.rows[id] == row
  {
    hide Active, Oldest, OneLive, FamilyShape, CacheKnown, Unix;
  }

  lemma StepKeepsAbsent(tr: Trace, e: Event, secret: Secret)
    requires Enabled(tr, e) && Inv(tr, e.now) && Absent(tr, secret)
    ensures Absent(Next(tr, e), secret)
  {
    hide Active, Oldest, OneLive, FamilyShape, CacheKnown, Unix;
  }

  lemma NotYetSwept(events: seq<Event>, i: nat, row: Row)
    requires i < |events|
    ensures !Swept(events, i, i + 1, row)
  {
  }

  lemma SweptOneMore(events: seq<Event>, i: nat, j: nat, row: Row)
    requires i < j < |events|
    ensures Swept(events, i, j + 1, row) <==> Swept(events, i, j, row) || Sweeps(events[j], row)
  {
    hide Sweeps;
  }

  /** The steps above, at one event of a run. */
  lemma RowStep(tr: Trace, e: Event, id: nat, row: Row, swept: bool)
    requires Enabled(tr, e) && Inv(tr, e.now) && row.revoked
    requires if swept then Absent(tr, row.secret) else id in tr.w.rows && tr.w.rows[id] == row
    ensures if swept || Sweeps(e, row) then Absent(Next(tr, e), row.secret)
            else id in Next(tr, e).w.rows && Next(tr, e).w.rows[id] == row
  {
    hide Enabled, Inv, Absent, Sweeps, Next;
    if swept {
      StepKeepsAbsent(tr, e, row.secret);
    } else {
      StepKeepsRow(tr, e, id, row);
    }
  }

  /** So whether a revoked row is still there depends on the sweeps alone. */
  lemma {:induction false} RowSurvives(traces: seq<Trace>, events: seq<Event>, i: nat, j: nat, id: nat, row: Row)
    requires Execution(traces, events) && i < j <= |events|
    requires id in traces[i + 1].w.rows && traces[i + 1].w.rows[id] == row && row.revoked
    ensures if Swept(events, i, j, row) then Absent(traces[j], row.secret)
            else id in traces[j].w.rows && traces[j].w.rows[id] == row
    decreases j
  {
    hide *;
    if i + 1 == j {
      NotYetSwept(events, i, row);
    } else {
      RowSurvives(traces, events, i, j - 1, id, row);
      InvAtEvent(traces, events, j - 1);
      SweptOneMore(events, i, j - 1, row);
      StepOf(traces, events, j - 1);
      RowStep(traces[j - 1], events[j - 1], id, row, Swept(events, i, j - 1, row));
    }
  }

  lemma StepOf(traces: seq<Trace>, events: seq<Event>, k: nat)
    requires Execution(traces, events) && k < |events|
    ensures |traces| == |events| + 1 && Enabled(traces[k], events[k]) && traces[k + 1] == Next(traces[k], events[k])
  {
    hide Enabled, Next;
  }

  /** Whatever happened since a rotation, presenting the old token again within the grace period returns the
      identical pair and changes nothing, unless a sweep in a later second than the token's creation (or than
      its expiry) came in between: then it is refused without effect. */
  lemma ReplayWithinGrace(traces: seq<Trace>, events: seq<Event>, i: nat, j: nat,
                          secret: Secret, access: string, successor: Secret, checked: int, now: int,
                          outcome: Outcome)
    requires Execution(traces, events) && i < j <= |events|
    requires Rotates(traces[i], events[i], secret, access, successor)
    requires ClockAt(events, j) <= checked <= events[i].now + 30 * 1_000_000_000
    ensures var (w, response) := Present(traces[j].w, secret, checked, now, outcome);
      var row := traces[i].w.rows[IdOf(traces[i].w.rows, secret).value];
      && w == traces[j].w
      && response == if Swept(events, i, j, row) then Refused else Granted(access, successor, row.user)
  {
    InvAtEvent(traces, events, i);
    var id := IdOf(traces[i].w.rows, secret).value;
    var row := traces[i].w.rows[id];
    var c := Cached(access, successor, row.user, row.family, events[i].now + REPLAY_GRACE);
    RotationRemembered(traces[i], events[i], secret, access, successor);
    RotationRevokes(traces[i], events[i], secret, access, successor);
    RunRemembers(traces, events, i + 1, j, secret, c);
    RowSurvives(traces, events, i, j, id, Revoked(row));
    SweptRevoked(events, i, j, row);
    hide Execution, Swept;
  }

  lemma SweptRevoked(events: seq<Event>, i: nat, j: nat, row: Row)
    requires j <= |events|
    ensures Swept(events, i, j, Revoked(row)) <==> Swept(events, i, j, row)
  {
    assert forall k :: i < k < j ==> (Sweeps(events[k], Revoked(row)) <==> Sweeps(events[k], row));
  }

  /** A rotation leaves the old row in place, revoked. */
  lemma RotationRevokes(tr: Trace, e: Event, secret: Secret, access: string, successor: Secret)
    requires Enabled(tr, e) && Inv(tr, e.now) && Rotates(tr, e, secret, access, successor)
    ensures var id := IdOf(tr.w.rows, secret).value;
      id in Next(tr, e).w.rows && Next(tr, e).w.rows[id] == Revoked(tr.w.rows[id])
  {
    hide OneLive, FamilyShape, CacheKnown, Unix;
  }

  const FRESH: Trace := Trace(World(map[], 0, map[]), {}, {})

  lemma FirstLogin(user: int, secret: Secret, family: Family)
    ensures var e := LoginE(user, secret, family, 0, 0);
      Enabled(FRESH, e) && Next(FRESH, e) ==
        Trace(World(map[0 := Row(user, secret, family, Unix(REFRESH_TOKEN_EXPIRY), false, Unix(0))], 1, map[]), {secret}, {family})
  {
    assert Active(FRESH.w.rows, user, Unix(0)) == {};
  }

  lemma ThenRotates(tr: Trace, row: Row, e: Event)
    requires tr.w.rows == map[0 := row] && tr.secrets == {row.secret} && !row.revoked
    requires e.RefreshE? && e.secret == row.secret && e.outcome.Issue? && e.outcome.successor != row.secret
    requires Unix(e.checked) <= row.expiresAt && e.checked <= e.now
    ensures Enabled(tr, e) && Rotates(tr, e, row.secret, e.outcome.access, e.outcome.successor)
    ensures IdOf(tr.w.rows, row.secret) == Some(0)
  {
    hide IdOf, Unix;
    assert 0 in tr.w.rows && tr.w.rows[0] == row;
    assert IdOf(tr.w.rows, row.secret) == Some(0);
  }

  /** The exception is real: a sweep one second after the login refuses a replay within the same second. */
  lemma SweepCutsGrace() returns (traces: seq<Trace>, events: seq<Event>)
    ensures Execution(traces, events) && |events| == 3 && Rotates(traces[1], events[1], 0, "a", 1)
    ensures events[2].now <= events[1].now + 30 * 1_000_000_000
    ensures Present(traces[3].w, 0, events[2].now, events[2].now, Abandon) == (traces[3].w, Refused)
  {
    hide Next, IdOf, Present, Rotates, Active;
    var login, rotation, sweep := LoginE(7, 0, 0, 0, 0), RefreshE(0, NANOS_PER_SECOND, NANOS_PER_SECOND, Issue("a", 1)), SweepE(NANOS_PER_SECOND);
    FirstLogin(7, 0, 0);
    var t1 := Next(FRESH, login);
    ThenRotates(t1, t1.w.rows[0], rotation);
    var t2 := Next(t1, rotation);
    traces, events := [FRESH, t1, t2, Next(t2, sweep)], [login, rotation, sweep];
    assert Sweeps(events[2], t1.w.rows[0]);
    hide Enabled;
    assert Execution(traces, events);
    hide Execution, Sweeps;
    assert Swept(events, 1, 3, t1.w.rows[0]);
    ReplayWithinGrace(traces, events, 1, 3, 0, "a", 1, NANOS_PER_SECOND, NANOS_PER_SECOND, Abandon);
  }

  /** Presented after the grace period while its row still exists, it is refused and its family is left
      without a live token. */
  lemma ReplayAfterGrace(traces: seq<Trace>, events: seq<Event>, i: nat, j: nat,
                         secret: Secret, access: string, successor: Secret, checked: int, now: int,
                         outcome: Outcome)
    requires Execution(traces, events) && i < j <= |events|
    requires Rotates(traces[i], events[i], secret, access, successor)
    requires ClockAt(events, j) <= checked && events[i].now + 30 * 1_000_000_000 < checked
    requires IdOf(traces[j].w.rows, secret).Some?
    ensures var (w, response) := Present(traces[j].w, secret, checked, now, outcome);
      var family := traces[i].w.rows[IdOf(traces[i].w.rows, secret).value].family;
      response == Refused && Dead(traces[j].(w := w), family)
  {
    InvAtEvent(traces, events, i);
    var row := traces[i].w.rows[IdOf(traces[i].w.rows, secret).value];
    var c := Cached(access, successor, row.user, row.family, events[i].now + REPLAY_GRACE);
    RotationRemembered(traces[i], events[i], secret, access, successor);
    RunRemembers(traces, events, i + 1, j, secret, c);
    ReachableInv(traces, events, j);
    hide Execution;
  }
}
