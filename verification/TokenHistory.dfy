/** The token tracker against a record that never forgets (backend/internal/auth/auth.go). */
module TokenHistory {
  import opened Tokens

  datatype Event =
    | Tracked(user: int, jti: Jti, expiresAt: int, now: int)
    | LoggedOut(jti: Jti, now: int)
    | UserRevoked(user: int, now: int)
    | Queried(jti: Jti, now: int)

  datatype Token = Token(user: int, jti: Jti, expiresAt: int)

  /** Every token ever issued; those taken from their user; those that must be refused. Nothing is removed. */
  datatype Ledger = Ledger(tokens: seq<Token>, retired: set<Jti>, revoked: set<Jti>)

  /** The user's tokens that were not taken away, oldest first, expired ones included. */
  function Kept(tokens: seq<Token>, user: int, retired: set<Jti>): seq<Entry> {
    if tokens == [] then []
    else
      var t := tokens[|tokens| - 1];
      Kept(tokens[..|tokens| - 1], user, retired) +
      if t.user == user && t.jti !in retired then [Entry(t.jti, t.expiresAt)] else []
  }

  function Held(l: Ledger, user: int, now: int): seq<Entry> {
    Live(Kept(l.tokens, user, l.retired), now)
  }

  function JtisOf(tokens: seq<Token>, user: int): set<Jti> {
    set i | 0 <= i < |tokens| && tokens[i].user == user :: tokens[i].jti
  }

  function Record(l: Ledger, e: Event, max: nat): Ledger
    requires max > 0
  {
    match e
    case Tracked(user, jti, expiresAt, now) =>
      var held := Held(l, user, now);
      var evicted := if |held| >= max then {held[0].jti} else {};
      Ledger(l.tokens + [Token(user, jti, expiresAt)], l.retired + evicted, l.revoked + evicted)
    case LoggedOut(jti, now) => l.(revoked := l.revoked + {jti})
    case UserRevoked(user, now) =>
      l.(retired := l.retired + JtisOf(l.tokens, user), revoked := l.revoked + JtisOf(l.tokens, user))
    case Queried(jti, now) => l
  }

  function Apply(s: TrackerState, e: Event, max: nat): TrackerState
    requires max > 0
  {
    match e
    case Tracked(user, jti, expiresAt, now) => TrackStep(s, user, jti, expiresAt, now, max)
    case LoggedOut(jti, now) => RevokeStep(s, jti, now)
    case UserRevoked(user, now) => RevokeAll(s, user)
    case Queried(jti, now) => Query(s, jti, now).0
  }

  function History(events: seq<Event>, max: nat): Ledger
    requires max > 0
  {
    if events == [] then Ledger([], {}, {})
    else Record(History(events[..|events| - 1], max), events[|events| - 1], max)
  }

  function Run(events: seq<Event>, max: nat): TrackerState
    requires max > 0
  {
    if events == [] then TrackerState(map[], map[])
    else Apply(Run(events[..|events| - 1], max), events[|events| - 1], max)
  }

  predicate Mentions(e: Event, jti: Jti) {
    (e.Tracked? || e.LoggedOut?) && e.jti == jti
  }

  /** Time does not run backwards, JTIs are issued once, and no token outlives AccessTokenExpiry. */
  ghost predicate Admissible(events: seq<Event>) {
    && (forall i, j :: 0 <= i < j < |events| ==> events[i].now <= events[j].now)
    && (forall j :: 0 <= j < |events| && events[j].Tracked? ==>
          events[j].expiresAt <= events[j].now + ACCESS_TOKEN_EXPIRY &&
          forall i :: 0 <= i < j ==> !Mentions(events[i], events[j].jti))
  }

  // ---------------------------------------------------------------------
  // Filters
  // ---------------------------------------------------------------------

  lemma {:induction false} LiveLater(es: seq<Entry>, t: int, t': int)
    requires t <= t'
    ensures Live(Live(es, t), t') == Live(es, t')
  {
    if es != [] {
      var e, init := es[|es| - 1], es[..|es| - 1];
      LiveLater(init, t, t');
      if e.expiresAt > t {
        LiveSnoc(Live(init, t), e, t');
      } else {
        assert Live(es, t) == Live(init, t);
      }
    }
  }

  lemma LiveSnoc(es: seq<Entry>, e: Entry, t: int)
    ensures Live(es + [e], t) == Live(es, t) + if e.expiresAt > t then [e] else []
  {
    assert (es + [e])[..|es|] == es;
  }

  lemma LiveNil(t: int)
    ensures Live([], t) == []
  {
  }

  lemma {:induction false} KeptIn(tokens: seq<Token>, user: int, retired: set<Jti>, e: Entry)
    ensures e in Kept(tokens, user, retired) <==> Token(user, e.jti, e.expiresAt) in tokens && e.jti !in retired
  {
    if tokens != [] {
      assert tokens == tokens[..|tokens| - 1] + [tokens[|tokens| - 1]];
      KeptIn(tokens[..|tokens| - 1], user, retired, e);
    }
  }

  /** Retiring tokens that are not the user's leaves the user's as they were. */
  lemma {:induction false} KeptFrame(tokens: seq<Token>, user: int, retired: set<Jti>, more: set<Jti>)
    requires JtisOf(tokens, user) !! more
    ensures Kept(tokens, user, retired + more) == Kept(tokens, user, retired)
  {
    if tokens != [] {
      var init, t := tokens[..|tokens| - 1], tokens[|tokens| - 1];
      assert forall i :: 0 <= i < |init| ==> init[i] == tokens[i];
      assert JtisOf(init, user) <= JtisOf(tokens, user);
      KeptFrame(init, user, retired, more);
      assert t.user == user ==> t.jti in JtisOf(tokens, user);
    }
  }

  lemma {:induction false} KeptNothing(tokens: seq<Token>, user: int, retired: set<Jti>)
    requires JtisOf(tokens, user) <= retired
    ensures Kept(tokens, user, retired) == []
  {
    if tokens != [] {
      var init, t := tokens[..|tokens| - 1], tokens[|tokens| - 1];
      assert forall i :: 0 <= i < |init| ==> init[i] == tokens[i];
      assert JtisOf(init, user) <= JtisOf(tokens, user);
      KeptNothing(init, user, retired);
      assert t.user == user ==> t.jti in JtisOf(tokens, user);
    }
  }

  ghost predicate UniqueJtis(tokens: seq<Token>) {
    forall i, j :: 0 <= i < j < |tokens| ==> tokens[i].jti != tokens[j].jti
  }

  /** Retiring the oldest live token removes exactly the head of the live list. */
  lemma {:induction false} RetireOldest(tokens: seq<Token>, user: int, retired: set<Jti>, now: int)
    requires UniqueJtis(tokens)
    requires Live(Kept(tokens, user, retired), now) != []
    ensures var held := Live(Kept(tokens, user, retired), now);
      Live(Kept(tokens, user, retired + {held[0].jti}), now) == held[1..]
  {
    hide Live, Kept;
    if tokens == [] {
      HeldSnoc(tokens, user, retired, now);
    } else {
      var init, t := tokens[..|tokens| - 1], tokens[|tokens| - 1];
      var held := Live(Kept(init, user, retired), now);
      HeldSnoc(tokens, user, retired, now);
      if held == [] {
        assert forall i :: 0 <= i < |init| ==> init[i] == tokens[i];
        KeptFrame(init, user, retired, {t.jti});
        HeldSnoc(tokens, user, retired + {t.jti}, now);
      } else {
        RetireOldest(init, user, retired, now);
        LiveIn(Kept(init, user, retired), now, held[0]);
        KeptIn(init, user, retired, held[0]);
        assert t.jti != held[0].jti;
        HeldSnoc(tokens, user, retired + {held[0].jti}, now);
      }
    }
  }

  lemma HeldSnoc(tokens: seq<Token>, user: int, retired: set<Jti>, now: int)
    ensures tokens == [] ==> Live(Kept(tokens, user, retired), now) == []
    ensures tokens != [] ==>
      var t := tokens[|tokens| - 1];
      Live(Kept(tokens, user, retired), now) ==
      Live(Kept(tokens[..|tokens| - 1], user, retired), now) +
      if t.user == user && t.jti !in retired && t.expiresAt > now then [Entry(t.jti, t.expiresAt)] else []
  {
    if tokens != [] {
      var t := tokens[|tokens| - 1];
      var init := Kept(tokens[..|tokens| - 1], user, retired);
      LiveSnoc(init, Entry(t.jti, t.expiresAt), now);
      assert init + [] == init;
    }
  }

  lemma {:induction false} DenialsIn(es: seq<Entry>, j: Jti)
    ensures j in Denials(es) <==> exists i :: 0 <= i < |es| && es[i].jti == j
    ensures j in Denials(es) ==> Entry(j, Denials(es)[j]) in es
  {
    if es != [] {
      DenialsIn(es[..|es| - 1], j);
      assert forall i :: 0 <= i < |es| - 1 ==> es[..|es| - 1][i] == es[i];
    }
  }

  // ---------------------------------------------------------------------
  // The invariant relating the tracker to the ledger
  // ---------------------------------------------------------------------

  /** Both sides list the same live tokens for every user. */
  ghost predicate SameHeld(s: TrackerState, l: Ledger, t: int) {
    forall u :: Live(EntriesOf(s.userTokens, u), t) == Held(l, u, t)
  }

  ghost predicate Capped(s: TrackerState, max: nat) {
    forall u :: u in s.userTokens ==> |s.userTokens[u]| <= max
  }

  /** The tracker only holds tokens that were issued. */
  ghost predicate EntriesIssued(s: TrackerState, l: Ledger) {
    forall u, e :: u in s.userTokens && e in s.userTokens[u] ==> Token(u, e.jti, e.expiresAt) in l.tokens
  }

  /** A revoked token is denied for as long as it lives, and nothing else is denied. */
  ghost predicate DenialsExact(s: TrackerState, l: Ledger, t: int) {
    && (forall k :: k in l.tokens && k.expiresAt > t && k.jti in l.revoked ==>
          k.jti in s.denied && s.denied[k.jti] >= k.expiresAt)
    && (forall j :: j in s.denied ==> j in l.revoked)
  }

  ghost predicate WellIssued(l: Ledger, t: int) {
    UniqueJtis(l.tokens) && l.retired <= l.revoked &&
    forall k :: k in l.tokens ==> k.expiresAt <= t + ACCESS_TOKEN_EXPIRY
  }

  ghost predicate Agrees(s: TrackerState, l: Ledger, t: int, max: nat) {
    SameHeld(s, l, t) && Capped(s, max) && EntriesIssued(s, l) && DenialsExact(s, l, t) && WellIssued(l, t)
  }

  lemma SameToken(tokens: seq<Token>, a: Token, b: Token)
    requires UniqueJtis(tokens) && a in tokens && b in tokens && a.jti == b.jti
    ensures a == b
  {
    var i :| 0 <= i < |tokens| && tokens[i] == a;
    var j :| 0 <= j < |tokens| && tokens[j] == b;
  }

  lemma TimePasses(s: TrackerState, l: Ledger, t: int, t': int, max: nat)
    requires Agrees(s, l, t, max) && t <= t'
    ensures Agrees(s, l, t', max)
  {
    forall u
      ensures Live(EntriesOf(s.userTokens, u), t') == Held(l, u, t')
    {
      LiveLater(EntriesOf(s.userTokens, u), t, t');
      LiveLater(Kept(l.tokens, u, l.retired), t, t');
    }
  }

  /** Cleanup forgets nothing that still matters. */
  lemma CleanupAgrees(s: TrackerState, l: Ledger, t: int, max: nat)
    requires Agrees(s, l, t, max)
    ensures Agrees(Cleanup(s, t), l, t, max)
    ensures forall u :: EntriesOf(Cleanup(s, t).userTokens, u) == Held(l, u, t)
  {
    hide Live, Kept;
    var c := Cleanup(s, t);
    forall u
      ensures EntriesOf(c.userTokens, u) == Live(EntriesOf(s.userTokens, u), t)
      ensures Live(EntriesOf(c.userTokens, u), t) == Held(l, u, t)
    {
      LiveLater(EntriesOf(s.userTokens, u), t, t);
      LiveNil(t);
    }
    forall u | u in c.userTokens
      ensures |c.userTokens[u]| <= max && forall e :: e in c.userTokens[u] ==> e in s.userTokens[u]
    {
      forall e { LiveIn(s.userTokens[u], t, e); }
      LiveIn(s.userTokens[u], t, Entry("", 0));
    }
    forall k | k in l.tokens && k.expiresAt > t && k.jti in l.revoked
      ensures k.jti in c.denied && c.denied[k.jti] >= k.expiresAt
    {
      if k.jti in ExpiredJtis(s.userTokens, s.userTokens.Keys, t) {
        var u, i :| u in s.userTokens && 0 <= i < |s.userTokens[u]| && s.userTokens[u][i].expiresAt <= t &&
          s.userTokens[u][i].jti == k.jti;
        var e := s.userTokens[u][i];
        assert e in s.userTokens[u];
        SameToken(l.tokens, k, Token(u, e.jti, e.expiresAt));
        assert false;
      }
    }
  }

  /** After cleanup, adding a token changes both lists of live tokens alike. */
  lemma AppendSameHeld(c: TrackerState, l: Ledger, user: int, e: Entry, t: int, max: nat, u: int)
    requires max > 0 && WellIssued(l, t)
    requires forall v :: EntriesOf(c.userTokens, v) == Held(l, v, t)
    requires e.jti !in l.retired && forall k :: k in l.tokens ==> k.jti != e.jti
    ensures Live(EntriesOf(Append(c, user, e, max).userTokens, u), t) ==
            Held(Record(l, Tracked(user, e.jti, e.expiresAt, t), max), u, t)
  {
    hide Live, Kept;
    var held := Held(l, user, t);
    var l' := Record(l, Tracked(user, e.jti, e.expiresAt, t), max);
    var evicted := if |held| >= max then {held[0].jti} else {};
    assert l'.tokens[..|l.tokens|] == l.tokens;
    HeldSnoc(l'.tokens, u, l'.retired, t);
    if |held| >= max {
      LiveIn(Kept(l.tokens, user, l.retired), t, held[0]);
      KeptIn(l.tokens, user, l.retired, held[0]);
    }
    if u == user {
      var rest := Live(Kept(l.tokens, u, l'.retired), t);
      if |held| >= max {
        RetireOldest(l.tokens, user, l.retired, t);
      } else {
        assert l.retired + {} == l.retired;
      }
      LiveLater(Kept(l.tokens, u, l'.retired), t, t);
      LiveSnoc(rest, e, t);
      assert EntriesOf(Append(c, user, e, max).userTokens, u) == rest + [e];
    } else {
      assert JtisOf(l.tokens, u) !! evicted by {
        if |held| >= max {
          var k := Token(user, held[0].jti, held[0].expiresAt);
          forall i | 0 <= i < |l.tokens| && l.tokens[i].jti == k.jti
            ensures l.tokens[i].user != u
          {
            SameToken(l.tokens, l.tokens[i], k);
          }
        }
      }
      KeptFrame(l.tokens, u, l.retired, evicted);
      LiveLater(Kept(l.tokens, u, l.retired), t, t);
      assert EntriesOf(Append(c, user, e, max).userTokens, u) == Held(l, u, t);
    }
  }

  lemma TrackAgrees(s: TrackerState, l: Ledger, user: int, jti: Jti, expiresAt: int, t: int, max: nat)
    requires max > 0 && Agrees(s, l, t, max)
    requires expiresAt <= t + ACCESS_TOKEN_EXPIRY
    requires jti !in l.revoked && forall k :: k in l.tokens ==> k.jti != jti
    ensures var e := Tracked(user, jti, expiresAt, t); Agrees(Apply(s, e, max), Record(l, e, max), t, max)
  {
    hide Live, Kept, Cleanup;
    CleanupAgrees(s, l, t, max);
    var c, e, held := Cleanup(s, t), Entry(jti, expiresAt), Held(l, user, t);
    var s', l' := Append(c, user, e, max), Record(l, Tracked(user, jti, expiresAt, t), max);
    assert SameHeld(s', l', t) by {
      forall u { AppendSameHeld(c, l, user, e, t, max, u); }
    }
    if |held| >= max {
      LiveIn(Kept(l.tokens, user, l.retired), t, held[0]);
      KeptIn(l.tokens, user, l.retired, held[0]);
      AppendDenials(c, l, held[0], user, e, t);
    }
    assert WellIssued(l', t);
    assert EntriesIssued(s', l');
  }

  /** Denying an evicted token with its own expiry is exact. */
  lemma AppendDenials(c: TrackerState, l: Ledger, out: Entry, user: int, e: Entry, t: int)
    requires DenialsExact(c, l, t) && WellIssued(l, t) && Token(user, out.jti, out.expiresAt) in l.tokens
    requires e.jti !in l.revoked && forall k :: k in l.tokens ==> k.jti != e.jti
    ensures DenialsExact(c.(denied := c.denied[out.jti := out.expiresAt]),
                         l.(tokens := l.tokens + [Token(user, e.jti, e.expiresAt)], revoked := l.revoked + {out.jti}), t)
  {
    forall k | k in l.tokens && k.jti == out.jti
      ensures k.expiresAt == out.expiresAt
    {
      SameToken(l.tokens, k, Token(user, out.jti, out.expiresAt));
    }
  }

  lemma RevokeAgrees(s: TrackerState, l: Ledger, jti: Jti, t: int, max: nat)
    requires max > 0 && Agrees(s, l, t, max)
    ensures Agrees(Apply(s, LoggedOut(jti, t), max), Record(l, LoggedOut(jti, t), max), t, max)
  {
    hide Live, Kept;
  }

  lemma QueryAgrees(s: TrackerState, l: Ledger, jti: Jti, t: int, max: nat)
    requires max > 0 && Agrees(s, l, t, max)
    ensures Agrees(Apply(s, Queried(jti, t), max), Record(l, Queried(jti, t), max), t, max)
  {
    hide Live, Kept;
  }

  lemma UserRevokedAgrees(s: TrackerState, l: Ledger, user: int, t: int, max: nat)
    requires max > 0 && Agrees(s, l, t, max)
    ensures Agrees(Apply(s, UserRevoked(user, t), max), Record(l, UserRevoked(user, t), max), t, max)
  {
    hide Live, Kept, Denials;
    var gone := JtisOf(l.tokens, user);
    var s', l' := RevokeAll(s, user), Record(l, UserRevoked(user, t), max);
    forall u
      ensures Live(EntriesOf(s'.userTokens, u), t) == Held(l', u, t)
    {
      if u == user {
        KeptNothing(l.tokens, u, l'.retired);
        assert EntriesOf(s'.userTokens, u) == Kept(l.tokens, u, l'.retired);
      } else {
        forall i, j | 0 <= i < |l.tokens| && 0 <= j < |l.tokens| && l.tokens[i].user == u && l.tokens[j].user == user
          ensures l.tokens[i].jti != l.tokens[j].jti
        {
        }
        KeptFrame(l.tokens, u, l.retired, gone);
        assert EntriesOf(s'.userTokens, u) == EntriesOf(s.userTokens, u);
      }
    }
    forall k | k in l.tokens && k.expiresAt > t && k.jti in l'.revoked
      ensures k.jti in s'.denied && s'.denied[k.jti] >= k.expiresAt
    {
      UserDenied(s, l, user, t, max, k);
    }
    forall j | j in s'.denied
      ensures j in l'.revoked
    {
      var es := EntriesOf(s.userTokens, user);
      DenialsIn(es, j);
      if j in Denials(es) {
        var k := Token(user, j, Denials(es)[j]);
        assert k in l.tokens;
        assert j in gone;
      }
    }
  }

  lemma UserDenied(s: TrackerState, l: Ledger, user: int, t: int, max: nat, k: Token)
    requires Agrees(s, l, t, max)
    requires k in l.tokens && k.expiresAt > t && (k.jti in l.revoked || k.user == user)
    ensures var d := RevokeAll(s, user).denied; k.jti in d && d[k.jti] >= k.expiresAt
  {
    hide Live, Kept, Denials;
    var es, e := EntriesOf(s.userTokens, user), Entry(k.jti, k.expiresAt);
    DenialsIn(es, k.jti);
    if k.jti !in l.revoked {
      KeptIn(l.tokens, user, l.retired, e);
      LiveIn(Kept(l.tokens, user, l.retired), t, e);
      LiveIn(es, t, e);
      assert e in es;
      assert k.jti in Denials(es);
    }
    if k.jti in Denials(es) {
      SameToken(l.tokens, k, Token(user, k.jti, Denials(es)[k.jti]));
    }
  }

  // ---------------------------------------------------------------------
  // Whole histories
  // ---------------------------------------------------------------------

  lemma {:induction false} LedgerMentions(events: seq<Event>, max: nat)
    requires max > 0
    ensures forall k :: k in History(events, max).tokens ==> exists e :: e in events && Mentions(e, k.jti)
    ensures forall j :: j in History(events, max).revoked ==> exists e :: e in events && Mentions(e, j)
  {
    hide Live, Kept;
    if events != [] {
      var init, last := events[..|events| - 1], events[|events| - 1];
      LedgerMentions(init, max);
      assert events == init + [last];
      var l := History(init, max);
      if last.Tracked? {
        assert Mentions(last, last.jti);
        var held := Held(l, last.user, last.now);
        if |held| >= max {
          LiveIn(Kept(l.tokens, last.user, l.retired), last.now, held[0]);
          KeptIn(l.tokens, last.user, l.retired, held[0]);
        }
      } else if last.LoggedOut? {
        assert Mentions(last, last.jti);
      }
    }
  }

  /** In every admissible history the tracker agrees with the ledger that never forgets. */
  lemma {:induction false} TrackerRefinesLedger(events: seq<Event>, max: nat, now: int)
    requires max > 0 && Admissible(events)
    requires events != [] ==> events[|events| - 1].now <= now
    ensures Agrees(Run(events, max), History(events, max), now, max)
  {
    hide Live, Kept, Apply, Record;
    if events == [] {
      InitiallyAgrees(now, max);
    } else {
      var init, e := events[..|events| - 1], events[|events| - 1];
      assert Admissible(init);
      TrackerRefinesLedger(init, max, e.now);
      LedgerMentions(init, max);
      var s, l := Run(init, max), History(init, max);
      match e {
        case Tracked(user, jti, expiresAt, _) => TrackAgrees(s, l, user, jti, expiresAt, e.now, max);
        case LoggedOut(jti, _) => RevokeAgrees(s, l, jti, e.now, max);
        case UserRevoked(user, _) => UserRevokedAgrees(s, l, user, e.now, max);
        case Queried(jti, _) => QueryAgrees(s, l, jti, e.now, max);
      }
      TimePasses(Run(events, max), History(events, max), e.now, now, max);
    }
  }

  lemma InitiallyAgrees(now: int, max: nat)
    ensures Agrees(TrackerState(map[], map[]), Ledger([], {}, {}), now, max)
  {
  }

  /** At every instant before its own expiry a token is reported revoked exactly when it was evicted by the
      cap, logged out, or revoked with its user; and no user ever holds more than the cap. */
  lemma VerdictExact(events: seq<Event>, max: nat, now: int, k: Token)
    requires max > 0 && Admissible(events)
    requires events != [] ==> events[|events| - 1].now <= now
    requires k in History(events, max).tokens && now < k.expiresAt
    ensures Query(Run(events, max), k.jti, now).1 <==> k.jti in History(events, max).revoked
    ensures forall u :: |EntriesOf(Run(events, max).userTokens, u)| <= max
  {
    TrackerRefinesLedger(events, max, now);
  }

  /** A JTI that was never revoked is never reported so, at any time. */
  lemma NoFalseRevocation(events: seq<Event>, max: nat, now: int, jti: Jti)
    requires max > 0 && Admissible(events)
    requires events != [] ==> events[|events| - 1].now <= now
    requires jti !in History(events, max).revoked
    ensures !Query(Run(events, max), jti, now).1
  {
    TrackerRefinesLedger(events, max, now);
  }

  // ---------------------------------------------------------------------
  // What the ledger records
  // ---------------------------------------------------------------------

  /** The user's i-th token is neither taken away nor expired. */
  predicate Active(l: Ledger, user: int, now: int, i: int) {
    0 <= i < |l.tokens| && l.tokens[i].user == user && l.tokens[i].jti !in l.retired && l.tokens[i].expiresAt > now
  }

  /** These are the user's active tokens, in the order of issue. */
  ghost predicate ActiveAt(l: Ledger, user: int, now: int, at: seq<nat>) {
    && (forall k :: 0 <= k < |at| ==> Active(l, user, now, at[k]))
    && (forall k, m :: 0 <= k < m < |at| ==> at[k] < at[m])
    && (forall i :: Active(l, user, now, i) ==> i in at)
  }

  lemma ActiveSnoc(l: Ledger, user: int, now: int, at: seq<nat>)
    requires l.tokens != [] && ActiveAt(Ledger(l.tokens[..|l.tokens| - 1], l.retired, l.revoked), user, now, at)
    ensures var n := |l.tokens| - 1; ActiveAt(l, user, now, if Active(l, user, now, n) then at + [n] else at)
  {
    var n := |l.tokens| - 1;
    var before := Ledger(l.tokens[..n], l.retired, l.revoked);
    assert forall i :: 0 <= i < n ==> (Active(before, user, now, i) <==> Active(l, user, now, i));
    forall i | Active(l, user, now, i) && i < n
      ensures i in at
    {
      assert Active(before, user, now, i);
    }
  }

  function EntriesAt(tokens: seq<Token>, at: seq<nat>): seq<Entry>
    requires forall k :: 0 <= k < |at| ==> at[k] < |tokens|
  {
    seq(|at|, k requires 0 <= k < |at| => Entry(tokens[at[k]].jti, tokens[at[k]].expiresAt))
  }

  /** The entries of the user's active tokens. */
  ghost predicate HoldsAt(l: Ledger, user: int, now: int, at: seq<nat>) {
    ActiveAt(l, user, now, at) && Held(l, user, now) == EntriesAt(l.tokens, at)
  }

  lemma {:induction false} HeldAt(l: Ledger, user: int, now: int) returns (at: seq<nat>)
    ensures HoldsAt(l, user, now, at)
    decreases |l.tokens|
  {
    hide HoldsAt;
    if l.tokens == [] {
      at := [];
      HoldsNothing(l, user, now);
    } else {
      var n := |l.tokens| - 1;
      at := HeldAt(Ledger(l.tokens[..n], l.retired, l.revoked), user, now);
      HoldsMore(l, user, now, at);
      if Active(l, user, now, n) {
        at := at + [n];
      }
    }
  }

  lemma HoldsNothing(l: Ledger, user: int, now: int)
    requires l.tokens == []
    ensures HoldsAt(l, user, now, [])
  {
    HeldStep(l, user, now);
  }

  lemma HoldsMore(l: Ledger, user: int, now: int, at: seq<nat>)
    requires l.tokens != [] && HoldsAt(Ledger(l.tokens[..|l.tokens| - 1], l.retired, l.revoked), user, now, at)
    ensures HoldsAt(l, user, now, if Active(l, user, now, |l.tokens| - 1) then at + [|l.tokens| - 1] else at)
  {
    var n := |l.tokens| - 1;
    HeldStep(l, user, now);
    ActiveSnoc(l, user, now, at);
    ActiveElements(Ledger(l.tokens[..n], l.retired, l.revoked), user, now, at);
    EntriesSnoc(l.tokens, at);
    hide Held, EntriesAt, ActiveAt, Active;
  }

  lemma HeldStep(l: Ledger, user: int, now: int)
    ensures l.tokens == [] ==> Held(l, user, now) == [] && ActiveAt(l, user, now, [])
    ensures l.tokens != [] ==>
      var n := |l.tokens| - 1;
      Held(l, user, now) == Held(Ledger(l.tokens[..n], l.retired, l.revoked), user, now) +
      if Active(l, user, now, n) then [Entry(l.tokens[n].jti, l.tokens[n].expiresAt)] else []
  {
    HeldSnoc(l.tokens, user, l.retired, now);
    hide Live, Kept;
  }

  lemma EntriesSnoc(tokens: seq<Token>, at: seq<nat>)
    requires tokens != [] && forall k :: 0 <= k < |at| ==> at[k] < |tokens| - 1
    ensures var n := |tokens| - 1;
      && EntriesAt(tokens, at) == EntriesAt(tokens[..n], at)
      && EntriesAt(tokens, at + [n]) == EntriesAt(tokens[..n], at) + [Entry(tokens[n].jti, tokens[n].expiresAt)]
  {
  }

  lemma ActiveElements(l: Ledger, user: int, now: int, at: seq<nat>)
    requires ActiveAt(l, user, now, at)
    ensures forall k :: 0 <= k < |at| ==> Active(l, user, now, at[k]) && at[k] < |l.tokens|
  {
  }

  /** What each event adds to the ledger. Issuing a token revokes one other, and only if the user holds `max` active
      tokens already: the oldest of them. Logging out revokes the one token, and revoking a user all of the user's. */
  lemma RecordIs(l: Ledger, e: Event, max: nat)
    requires max > 0
    ensures var r := Record(l, e, max);
      match e
      case Tracked(user, jti, expiresAt, now) =>
        r.tokens == l.tokens + [Token(user, jti, expiresAt)] &&
        exists at: seq<nat> :: ActiveAt(l, user, now, at) &&
          if |at| >= max
          then r.retired == l.retired + {l.tokens[at[0]].jti} && r.revoked == l.revoked + {l.tokens[at[0]].jti}
          else r.retired == l.retired && r.revoked == l.revoked
      case LoggedOut(jti, _) => r == l.(revoked := l.revoked + {jti})
      case UserRevoked(user, _) =>
        && r.tokens == l.tokens
        && (forall j :: j in r.retired <==> j in l.retired || exists t :: t in l.tokens && t.user == user && t.jti == j)
        && (forall j :: j in r.revoked <==> j in l.revoked || exists t :: t in l.tokens && t.user == user && t.jti == j)
      case Queried(_, _) => r == l
  {
    if e.Tracked? {
      var at := HeldAt(l, e.user, e.now);
      hide Held;
      assert HoldsAt(l, e.user, e.now, at);
    } else if e.UserRevoked? {
      forall j
        ensures j in JtisOf(l.tokens, e.user) <==> exists t :: t in l.tokens && t.user == e.user && t.jti == j
      {
        if t :| t in l.tokens && t.user == e.user && t.jti == j {
          var i :| 0 <= i < |l.tokens| && l.tokens[i] == t;
        }
      }
    }
  }
}
