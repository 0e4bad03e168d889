/** What a client sees: which presentations are granted, how long a token lasts, and what ends it
    (backend/internal/handler/auth/auth.go, backend/internal/db/refresh_tokens.sql.go). */
module RefreshAnswers {
  import opened Prelude
  import opened Refresh
  import opened RefreshHistory

  // ---------------------------------------------------------------------
  // Answers
  // ---------------------------------------------------------------------

  lemma KnownId(rows: Rows, id: nat)
    requires UniqueSecrets(rows) && id in rows
    ensures IdOf(rows, rows[id].secret) == Some(id)
    ensures forall k :: k in rows && rows[k].secret == rows[id].secret ==> k == id
  {
    hide IdOf;
  }

  /** A presented token with a row is granted the new pair when it is unrevoked, unexpired and a pair was made, and
      the pair of its rotation when it is revoked and still cached; every other one is refused. */
  lemma AnswerExactly(w: World, id: nat, checked: int, now: int, outcome: Outcome)
    requires UniqueSecrets(w.rows) && id in w.rows
    ensures var row := w.rows[id];
      Present(w, row.secret, checked, now, outcome).1 ==
      if !row.revoked && checked / 1_000_000_000 <= row.expiresAt && outcome.Issue? then
        Granted(outcome.access, outcome.successor, row.user)
      else if row.revoked && row.secret in w.cache && checked <= w.cache[row.secret].expiresAt then
        Granted(w.cache[row.secret].access, w.cache[row.secret].successor, w.cache[row.secret].user)
      else Refused
  {
    KnownId(w.rows, id);
    hide IdOf;
  }

  lemma UnknownRefused(w: World, secret: Secret, checked: int, now: int, outcome: Outcome)
    requires forall id :: id in w.rows ==> w.rows[id].secret != secret
    ensures Present(w, secret, checked, now, outcome) == (w, Refused)
  {
    hide IdOf;
  }

  /** A refresh is accepted, and rotates the token, exactly when the token has an unrevoked, unexpired row and a pair
      was made. */
  lemma RotatesExactly(tr: Trace, e: Event, secret: Secret, access: string, successor: Secret)
    requires UniqueSecrets(tr.w.rows)
    ensures Rotates(tr, e, secret, access, successor) <==>
            e.RefreshE? && e.secret == secret && e.outcome == Issue(access, successor) &&
            exists id :: id in tr.w.rows && tr.w.rows[id].secret == secret && !tr.w.rows[id].revoked &&
                         e.checked / 1_000_000_000 <= tr.w.rows[id].expiresAt
  {
    hide UniqueSecrets;
    if id :| id in tr.w.rows && tr.w.rows[id].secret == secret {
      KnownId(tr.w.rows, id);
    }
    hide IdOf;
  }

  /** An accepted refresh answers with the pair it has just made. */
  lemma RotationGranted(tr: Trace, e: Event, secret: Secret, access: string, successor: Secret)
    requires Enabled(tr, e) && Inv(tr, e.now) && Rotates(tr, e, secret, access, successor)
    ensures Present(tr.w, secret, e.checked, e.now, e.outcome).1 ==
            Granted(access, successor, tr.w.rows[IdOf(tr.w.rows, secret).value].user)
  {
    hide IdOf, Inv;
  }

  // ---------------------------------------------------------------------
  // How long a token lasts
  // ---------------------------------------------------------------------

  /** Row `id` holds a token issued at `now` to the user in the family: unrevoked, and good for thirty days. */
  ghost predicate IssuedAt(tr: Trace, id: nat, user: int, secret: Secret, family: Family, now: int) {
    id in tr.w.rows &&
    tr.w.rows[id] == Row(user, secret, family, (now + 30 * 86_400 * 1_000_000_000) / 1_000_000_000, false,
                         now / 1_000_000_000)
  }

  lemma RotationIssues(tr: Trace, e: Event, secret: Secret, access: string, successor: Secret)
    requires Enabled(tr, e) && Inv(tr, e.now) && Rotates(tr, e, secret, access, successor)
    ensures var row := tr.w.rows[IdOf(tr.w.rows, secret).value];
      IssuedAt(Next(tr, e), tr.w.nextId, row.user, successor, row.family, e.now)
  {
    hide IdOf, Inv;
  }

  lemma LoginIssues(tr: Trace, e: Event)
    requires e.LoginE? && Enabled(tr, e)
    ensures IssuedAt(Next(tr, e), tr.w.nextId, e.user, e.secret, e.family, e.now)
  {
    hide Active, Oldest;
  }

  /** Until it is used, its family is ended or its thirty days are over, an issued token is granted. */
  lemma IssuedIsGranted(tr: Trace, id: nat, user: int, secret: Secret, family: Family, now: int,
                        checked: int, later: int, access: string, successor: Secret)
    requires Inv(tr, now) && IssuedAt(tr, id, user, secret, family, now)
    requires checked <= now + 30 * 86_400 * 1_000_000_000
    ensures Present(tr.w, secret, checked, later, Issue(access, successor)).1 == Granted(access, successor, user)
  {
    AnswerExactly(tr.w, id, checked, later, Issue(access, successor));
    hide Present, Inv;
    assert checked / 1_000_000_000 <= (now + 30 * 86_400 * 1_000_000_000) / 1_000_000_000;
  }

  // ---------------------------------------------------------------------
  // What ends it
  // ---------------------------------------------------------------------

  /** Nothing but the rows of these families changed, and no row appeared or went. */
  ghost predicate OthersKept(w: World, w': World, ended: iset<Family>) {
    && w'.rows.Keys == w.rows.Keys && w'.cache == w.cache
    && forall id :: id in w.rows && w.rows[id].family !in ended ==> w'.rows[id] == w.rows[id]
  }

  /** Logging out with a known token ends its family and no other. */
  lemma LogoutEnds(tr: Trace, id: nat, now: int)
    requires Inv(tr, now) && id in tr.w.rows
    ensures var row := tr.w.rows[id];
      var next := Next(tr, LogoutE(row.secret, now));
      Dead(next, row.family) && OthersKept(tr.w, next.w, iset{row.family})
  {
    KnownId(tr.w.rows, id);
    hide IdOf;
  }

  lemma UnknownLogoutChangesNothing(tr: Trace, secret: Secret, now: int)
    requires forall id :: id in tr.w.rows ==> tr.w.rows[id].secret != secret
    ensures Next(tr, LogoutE(secret, now)) == tr
  {
    hide IdOf;
  }

  /** A password change ends every family of the user and no other. */
  lemma PasswordEnds(tr: Trace, user: int, now: int, id: nat)
    requires Inv(tr, now) && id in tr.w.rows
    ensures var row, next := tr.w.rows[id], Next(tr, PasswordE(user, now));
      && (row.user == user ==> Dead(next, row.family))
      && (row.user != user ==> id in next.w.rows && next.w.rows[id] == row)
      && next.w.rows.Keys == tr.w.rows.Keys && next.w.cache == tr.w.cache
  {
  }

  /** A presentation that is refused leaves the token's family without a live one: an expired token, one whose
      successor could not be made, and a replay after the grace period alike. */
  lemma RefusalEnds(tr: Trace, id: nat, checked: int, now: int, outcome: Outcome)
    requires Inv(tr, now) && id in tr.w.rows
    requires Present(tr.w, tr.w.rows[id].secret, checked, now, outcome).1 == Refused
    ensures Dead(tr.(w := Present(tr.w, tr.w.rows[id].secret, checked, now, outcome).0), tr.w.rows[id].family)
  {
    KnownId(tr.w.rows, id);
    hide IdOf, FamilyShape, CacheKnown, Unix;
  }

  /** The sweep deletes exactly the rows that expired in an earlier second and the revoked ones created in one; the
      rows it leaves, every token that can still be presented among them, are as they were. */
  lemma SweepDeletes(tr: Trace, now: int, id: nat)
    requires id in tr.w.rows
    ensures var row, next := tr.w.rows[id], Next(tr, SweepE(now));
      var t := now / 1_000_000_000;
      && (id in next.w.rows <==> t <= row.expiresAt && (row.revoked ==> t <= row.createdAt))
      && (id in next.w.rows ==> next.w.rows[id] == row)
      && next.w.rows.Keys <= tr.w.rows.Keys && next.w.cache == tr.w.cache
  {
  }

  /** No token of an ended family is rotated again, in any run. */
  lemma EndedIsNotRotated(traces: seq<Trace>, events: seq<Event>, i: nat, j: nat, family: Family,
                          secret: Secret, access: string, successor: Secret)
    requires Execution(traces, events) && i <= j < |events| && Dead(traces[i], family)
    requires Rotates(traces[j], events[j], secret, access, successor)
    ensures traces[j].w.rows[IdOf(traces[j].w.rows, secret).value].family != family
  {
    DeadForever(traces, events, i, j, family);
    hide IdOf, Execution;
  }

  /** After a logout no token of the family is rotated again, in any run. */
  lemma LogoutIsFinal(traces: seq<Trace>, events: seq<Event>, i: nat, j: nat, id: nat,
                      secret: Secret, access: string, successor: Secret)
    requires Execution(traces, events) && i < j < |events| && id in traces[i].w.rows
    requires events[i].LogoutE? && events[i].secret == traces[i].w.rows[id].secret
    requires Rotates(traces[j], events[j], secret, access, successor)
    ensures traces[j].w.rows[IdOf(traces[j].w.rows, secret).value].family != traces[i].w.rows[id].family
  {
    InvAtEvent(traces, events, i);
    LogoutEnds(traces[i], id, events[i].now);
    assert traces[i + 1] == Next(traces[i], events[i]);
    hide Next, Inv, Rotates, IdOf;
    EndedIsNotRotated(traces, events, i + 1, j, traces[i].w.rows[id].family, secret, access, successor);
  }

  /** After a password change no token of a family the user had is rotated again, in any run. */
  lemma PasswordIsFinal(traces: seq<Trace>, events: seq<Event>, i: nat, j: nat, id: nat,
                        secret: Secret, access: string, successor: Secret)
    requires Execution(traces, events) && i < j < |events| && id in traces[i].w.rows
    requires events[i].PasswordE? && events[i].user == traces[i].w.rows[id].user
    requires Rotates(traces[j], events[j], secret, access, successor)
    ensures traces[j].w.rows[IdOf(traces[j].w.rows, secret).value].family != traces[i].w.rows[id].family
  {
    InvAtEvent(traces, events, i);
    PasswordEnds(traces[i], events[i].user, events[i].now, id);
    assert traces[i + 1] == Next(traces[i], events[i]);
    hide Next, Inv, Rotates, IdOf;
    EndedIsNotRotated(traces, events, i + 1, j, traces[i].w.rows[id].family, secret, access, successor);
  }
}
