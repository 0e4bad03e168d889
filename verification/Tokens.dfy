/** Access-token tracking and revocation (TokenTracker in backend/internal/auth/auth.go). Times are in
    nanoseconds; a token is one unique JTI. */
module Tokens {
  import opened Prelude

  const ACCESS_TOKEN_EXPIRY: int := 15 * 60 * 1_000_000_000
  const MAX_REFRESH_FAMILIES: nat := 20

  type Jti = string
  datatype Entry = Entry(jti: Jti, expiresAt: int)
  datatype TrackerState = TrackerState(userTokens: map<int, seq<Entry>>, denied: map<Jti, int>)

  /** The entries not yet expired, in order. */
  function Live(es: seq<Entry>, now: int): seq<Entry> {
    if es == [] then []
    else Live(es[..|es| - 1], now) + if es[|es| - 1].expiresAt > now then [es[|es| - 1]] else []
  }

  function EntriesOf(userTokens: map<int, seq<Entry>>, user: int): seq<Entry> {
    if user in userTokens then userTokens[user] else []
  }

  /** JTIs of the expired entries the given users still hold. */
  function ExpiredOf(es: seq<Entry>, now: int): set<Jti> {
    set i | 0 <= i < |es| && es[i].expiresAt <= now :: es[i].jti
  }

  function ExpiredJtis(userTokens: map<int, seq<Entry>>, users: set<int>, now: int): set<Jti> {
    set u, i | u in users && u in userTokens && 0 <= i < |userTokens[u]| && userTokens[u][i].expiresAt <= now
      :: userTokens[u][i].jti
  }

  lemma FilterStep(es: seq<Entry>, i: nat, now: int)
    requires i < |es|
    ensures Live(es[..i + 1], now) == Live(es[..i], now) + if es[i].expiresAt > now then [es[i]] else []
    ensures ExpiredOf(es[..i + 1], now) == ExpiredOf(es[..i], now) + if es[i].expiresAt > now then {} else {es[i].jti}
  {
    assert es[..i + 1][..i] == es[..i];
    assert forall k :: 0 <= k < i ==> es[..i + 1][k] == es[..i][k];
  }

  lemma FilterEnds(es: seq<Entry>, now: int)
    ensures Live(es[..0], now) == [] && ExpiredOf(es[..0], now) == {}
    ensures es[..|es|] == es
  {
  }

  /** The token table when cleanup has yet to visit `todo`. */
  ghost function PartlyCleaned(userTokens: map<int, seq<Entry>>, todo: set<int>, now: int): map<int, seq<Entry>> {
    map u | u in userTokens && (u in todo || Live(userTokens[u], now) != []) ::
      if u in todo then userTokens[u] else Live(userTokens[u], now)
  }

  lemma CleaningStep(userTokens: map<int, seq<Entry>>, todo: set<int>, uid: int, now: int)
    requires uid in todo && todo <= userTokens.Keys
    ensures uid in PartlyCleaned(userTokens, todo, now)
    ensures PartlyCleaned(userTokens, todo, now)[uid] == userTokens[uid]
    ensures var live, part := Live(userTokens[uid], now), PartlyCleaned(userTokens, todo, now);
      PartlyCleaned(userTokens, todo - {uid}, now) == if live == [] then part - {uid} else part[uid := live]
    ensures ExpiredJtis(userTokens, userTokens.Keys - (todo - {uid}), now) ==
            ExpiredJtis(userTokens, userTokens.Keys - todo, now) + ExpiredOf(userTokens[uid], now)
  {
  }

  lemma CleaningEnds(userTokens: map<int, seq<Entry>>, now: int)
    ensures PartlyCleaned(userTokens, userTokens.Keys, now) == userTokens
    ensures ExpiredJtis(userTokens, {}, now) == {}
    ensures PartlyCleaned(userTokens, {}, now) == Cleanup(TrackerState(userTokens, map[]), now).userTokens
  {
  }

  function Unexpired(denied: map<Jti, int>, now: int): map<Jti, int> {
    map j | j in denied && now <= denied[j] :: denied[j]
  }

  function Cleanup(s: TrackerState, now: int): TrackerState {
    TrackerState(
      map u | u in s.userTokens && Live(s.userTokens[u], now) != [] :: Live(s.userTokens[u], now),
      Unexpired(s.denied - ExpiredJtis(s.userTokens, s.userTokens.Keys, now), now))
  }

  function TrackStep(s: TrackerState, user: int, jti: Jti, expiresAt: int, now: int, max: nat): TrackerState
    requires max > 0
  {
    Append(Cleanup(s, now), user, Entry(jti, expiresAt), max)
  }

  /** Adds an entry; a user already at the cap loses the oldest one to the deny list. */
  function Append(c: TrackerState, user: int, e: Entry, max: nat): TrackerState
    requires max > 0
  {
    var es := EntriesOf(c.userTokens, user);
    if |es| >= max then
      TrackerState(c.userTokens[user := es[1..] + [e]], c.denied[es[0].jti := es[0].expiresAt])
    else
      TrackerState(c.userTokens[user := es + [e]], c.denied)
  }

  function Query(s: TrackerState, jti: Jti, now: int): (TrackerState, bool) {
    if jti !in s.denied then (s, false)
    else if now > s.denied[jti] then (s.(denied := s.denied - {jti}), false)
    else (s, true)
  }

  function RevokeStep(s: TrackerState, jti: Jti, now: int): TrackerState {
    s.(denied := s.denied[jti := now + ACCESS_TOKEN_EXPIRY])
  }

  function Denials(es: seq<Entry>): map<Jti, int> {
    if es == [] then map[] else Denials(es[..|es| - 1])[es[|es| - 1].jti := es[|es| - 1].expiresAt]
  }

  function RevokeAll(s: TrackerState, user: int): TrackerState {
    TrackerState(s.userTokens - {user}, s.denied + Denials(EntriesOf(s.userTokens, user)))
  }

  // ---------------------------------------------------------------------
  // The tracker object
  // ---------------------------------------------------------------------

  class TokenTracker {
    const MaxTokens: nat
    var userTokens: map<int, seq<Entry>>
    var denied: map<Jti, int>

    function State(): TrackerState
      reads this
    {
      TrackerState(userTokens, denied)
    }

    constructor ()
      ensures MaxTokens == 20 && State() == TrackerState(map[], map[])
    {
      MaxTokens, userTokens, denied := MAX_REFRESH_FAMILIES, map[], map[];
    }

    method CleanupLocked(now: int)
      modifies this
      ensures State() == Cleanup(old(State()), now)
    {
      hide Live, ExpiredJtis, PartlyCleaned;
      ghost var ut0, d0 := userTokens, denied;
      CleaningEnds(ut0, now);
      var users := userTokens.Keys;
      assert ut0.Keys - users == {};
      while users != {}
        invariant users <= ut0.Keys
        invariant userTokens == PartlyCleaned(ut0, users, now)
        invariant denied == d0 - ExpiredJtis(ut0, ut0.Keys - users, now)
        decreases |users|
      {
        var uid := Pick(users);
        CleaningStep(ut0, users, uid, now);
        var valid := FilterEntries(uid, now);
        if valid == [] {
          userTokens := userTokens - {uid};
        } else {
          userTokens := userTokens[uid := valid];
        }
        users := users - {uid};
      }
      assert ut0.Keys - {} == ut0.Keys;
      SweepDenied(now);
    }

    /** Keeps one user's live entries and forgets the denials of the others. */
    method FilterEntries(uid: int, now: int) returns (valid: seq<Entry>)
      requires uid in userTokens
      modifies this`denied
      ensures valid == Live(userTokens[uid], now)
      ensures denied == old(denied) - ExpiredOf(userTokens[uid], now)
    {
      var entries := userTokens[uid];
      valid := [];
      hide Live, ExpiredOf;
      FilterEnds(entries, now);
      for i := 0 to |entries|
        invariant valid == Live(entries[..i], now)
        invariant denied == old(denied) - ExpiredOf(entries[..i], now)
      {
        var e := entries[i];
        FilterStep(entries, i, now);
        if e.expiresAt > now {
          valid := valid + [e];
        } else {
          denied := denied - {e.jti};
        }
      }
    }

    method SweepDenied(now: int)
      modifies this`denied
      ensures denied == Unexpired(old(denied), now)
    {
      ghost var d0 := denied;
      var todo := denied.Keys;
      while todo != {}
        invariant todo <= d0.Keys
        invariant denied == map j | j in d0 && (j in todo || now <= d0[j]) :: d0[j]
        decreases |todo|
      {
        var jti := Pick(todo);
        if now > denied[jti] {
          denied := denied - {jti};
        }
        todo := todo - {jti};
      }
    }

    method Track(user: int, jti: Jti, expiresAt: int, now: int)
      requires MaxTokens > 0
      modifies this
      ensures State() == TrackStep(old(State()), user, jti, expiresAt, now, MaxTokens)
    {
      CleanupLocked(now);
      var entries := if user in userTokens then userTokens[user] else [];
      if |entries| >= MaxTokens {
        denied := denied[entries[0].jti := entries[0].expiresAt];
        entries := entries[1..];
      }
      userTokens := userTokens[user := entries + [Entry(jti, expiresAt)]];
    }

    method IsRevoked(jti: Jti, now: int) returns (revoked: bool)
      modifies this
      ensures (State(), revoked) == Query(old(State()), jti, now)
    {
      if jti !in denied {
        return false;
      }
      var exp := denied[jti];
      if now > exp {
        denied := denied - {jti};
        return false;
      }
      return true;
    }

    method Revoke(jti: Jti, now: int)
      modifies this
      ensures State() == RevokeStep(old(State()), jti, now)
      ensures userTokens == old(userTokens) && denied == old(denied)[jti := now + 900_000_000_000]
    {
      denied := denied[jti := now + ACCESS_TOKEN_EXPIRY];
    }

    method RevokeAllForUser(user: int)
      modifies this
      ensures State() == RevokeAll(old(State()), user)
    {
      var entries := if user in userTokens then userTokens[user] else [];
      for i := 0 to |entries|
        invariant userTokens == old(userTokens)
        invariant denied == old(denied) + Denials(entries[..i])
      {
        assert entries[..i + 1][..i] == entries[..i];
        denied := denied[entries[i].jti := entries[i].expiresAt];
      }
      assert entries[..|entries|] == entries;
      userTokens := userTokens - {user};
    }
  }

  // ---------------------------------------------------------------------
  // What a cleanup keeps
  // ---------------------------------------------------------------------

  lemma {:induction false} LiveIn(es: seq<Entry>, t: int, e: Entry)
    ensures e in Live(es, t) <==> e in es && e.expiresAt > t
    ensures |Live(es, t)| <= |es|
  {
    if es != [] {
      assert es == es[..|es| - 1] + [es[|es| - 1]];
      LiveIn(es[..|es| - 1], t, e);
    }
  }

  /** The entries that stay keep their order. */
  lemma {:induction false} LiveConcat(a: seq<Entry>, b: seq<Entry>, now: int)
    ensures Live(a + b, now) == Live(a, now) + Live(b, now)
  {
    if b == [] {
      assert a + b == a;
    } else {
      var n := |b| - 1;
      assert (a + b)[..|a + b| - 1] == a + b[..n];
      LiveConcat(a, b[..n], now);
    }
  }

  /** Some user holds an expired entry for this JTI. */
  ghost predicate HeldExpired(s: TrackerState, jti: Jti, now: int) {
    exists u, e :: u in s.userTokens && e in s.userTokens[u] && e.jti == jti && e.expiresAt <= now
  }

  /** A cleanup keeps exactly the unexpired entries, and no user without any. */
  lemma CleanupEntries(s: TrackerState, now: int, user: int, e: Entry)
    ensures var after := Cleanup(s, now).userTokens;
      && (e in EntriesOf(after, user) <==> e in EntriesOf(s.userTokens, user) && e.expiresAt > now)
      && (user in after ==> after[user] != [])
  {
    if user in s.userTokens {
      LiveIn(s.userTokens[user], now, e);
    }
    hide Live;
  }

  /** A cleanup keeps a denial, as it is, exactly when it has not expired and no expired entry is held for its JTI. */
  lemma CleanupDenials(s: TrackerState, now: int, jti: Jti)
    ensures var after := Cleanup(s, now).denied;
      && (jti in after <==> jti in s.denied && now <= s.denied[jti] && !HeldExpired(s, jti, now))
      && (jti in after ==> after[jti] == s.denied[jti])
  {
    ExpiredIs(s, jti, now);
    hide Live, ExpiredJtis, HeldExpired;
  }

  lemma ExpiredIs(s: TrackerState, j: Jti, now: int)
    ensures j in ExpiredJtis(s.userTokens, s.userTokens.Keys, now) <==> HeldExpired(s, j, now)
  {
    if HeldExpired(s, j, now) {
      var u, e :| u in s.userTokens && e in s.userTokens[u] && e.jti == j && e.expiresAt <= now;
      var i :| 0 <= i < |s.userTokens[u]| && s.userTokens[u][i] == e;
    }
    if j in ExpiredJtis(s.userTokens, s.userTokens.Keys, now) {
      var u, i :| u in s.userTokens && 0 <= i < |s.userTokens[u]| && s.userTokens[u][i].expiresAt <= now
                  && s.userTokens[u][i].jti == j;
      assert s.userTokens[u][i] in s.userTokens[u];
    }
  }
}
