/** Refresh-token rotation: the token table, the replay cache and the handlers over them
    (backend/internal/handler/auth/auth.go, backend/internal/handler/auth/replay_cache.go,
    backend/internal/db/refresh_tokens.sql.go). Each handler is one atomic step at one instant. */
module Refresh {
  import opened Prelude

  const NANOS_PER_SECOND: int := 1_000_000_000
  const REFRESH_TOKEN_EXPIRY: int := 30 * 24 * 3600 * NANOS_PER_SECOND
  const REPLAY_GRACE: int := 30 * NANOS_PER_SECOND
  const MAX_FAMILIES: nat := 20

  /** A refresh token, its cookie value and its digest alike: digests are taken to be collision-free. */
  type Secret = nat
  type Family = nat

  datatype Row = Row(user: int, secret: Secret, family: Family, expiresAt: int, revoked: bool, createdAt: int)

  /** The response issued when a token was rotated. */
  datatype Cached = Cached(access: string, successor: Secret, user: int, family: Family, expiresAt: int)

  type Rows = map<nat, Row>
  datatype World = World(rows: Rows, nextId: nat, cache: map<Secret, Cached>)

  datatype Outcome = Abandon | Issue(access: string, successor: Secret)
  datatype Response = Refused | Granted(access: string, successor: Secret, user: int)

  function Unix(now: int): int {
    now / NANOS_PER_SECOND
  }

  // ---------------------------------------------------------------------
  // The SQL statements
  // ---------------------------------------------------------------------

  ghost predicate UniqueSecrets(rows: Rows) {
    forall a, b :: a in rows && b in rows && rows[a].secret == rows[b].secret ==> a == b
  }

  ghost function IdOf(rows: Rows, secret: Secret): (r: Option<nat>)
    ensures r.Some? ==> r.value in rows && rows[r.value].secret == secret
    ensures r.None? ==> forall id :: id in rows ==> rows[id].secret != secret
  {
    if exists id :: id in rows && rows[id].secret == secret then
      var id :| id in rows && rows[id].secret == secret;
      Some(id)
    else None
  }

  function Revoked(row: Row): Row {
    Row(row.user, row.secret, row.family, row.expiresAt, true, row.createdAt)
  }

  function RevokeId(rows: Rows, id: nat): Rows {
    map k | k in rows :: if k == id then Revoked(rows[k]) else rows[k]
  }

  function RevokeFamily(rows: Rows, family: Family): Rows {
    map k | k in rows :: if rows[k].family == family then Revoked(rows[k]) else rows[k]
  }

  function RevokeUser(rows: Rows, user: int): Rows {
    map k | k in rows :: if rows[k].user == user then Revoked(rows[k]) else rows[k]
  }

  predicate ActiveRow(rows: Rows, id: nat, user: int, t: int) {
    id in rows && rows[id].user == user && !rows[id].revoked && rows[id].expiresAt > t
  }

  /** The families counted against the cap. */
  function Active(rows: Rows, user: int, t: int): set<Family> {
    set id | id in rows && ActiveRow(rows, id, user, t) :: rows[id].family
  }

  /** A row the ascending creation-time order may list first; ties are broken arbitrarily. */
  ghost predicate Oldest(rows: Rows, id: nat, user: int, t: int) {
    ActiveRow(rows, id, user, t) &&
    forall k :: ActiveRow(rows, k, user, t) ==> rows[id].createdAt <= rows[k].createdAt
  }

  function Insert(w: World, user: int, secret: Secret, family: Family, now: int): World {
    w.(rows := w.rows[w.nextId := Row(user, secret, family, Unix(now + REFRESH_TOKEN_EXPIRY), false, Unix(now))],
       nextId := w.nextId + 1)
  }

  function DeleteStale(rows: Rows, t: int): Rows {
    map k | k in rows && !(rows[k].expiresAt < t || (rows[k].revoked && rows[k].createdAt < t)) :: rows[k]
  }

  function Unexpired(cache: map<Secret, Cached>, now: int): map<Secret, Cached> {
    map h | h in cache && now <= cache[h].expiresAt :: cache[h]
  }

  // ---------------------------------------------------------------------
  // The handlers as steps
  // ---------------------------------------------------------------------

  /** `pick` is the row chosen as the oldest when the user is at the cap. */
  ghost function Login(w: World, user: int, secret: Secret, family: Family, now: int, pick: nat): World
    requires |Active(w.rows, user, Unix(now))| >= MAX_FAMILIES ==> Oldest(w.rows, pick, user, Unix(now))
  {
    var rows := if |Active(w.rows, user, Unix(now))| >= MAX_FAMILIES
                then RevokeFamily(w.rows, w.rows[pick].family) else w.rows;
    Insert(w.(rows := rows), user, secret, family, now)
  }

  ghost function Rotate(w: World, id: nat, now: int, outcome: Outcome): (World, Response)
    requires id in w.rows
  {
    var row := w.rows[id];
    var revoked := w.(rows := RevokeId(w.rows, id));
    match outcome
    case Abandon => (revoked, Refused)
    case Issue(access, successor) =>
      var inserted := Insert(revoked, row.user, successor, row.family, now);
      var entry := Cached(access, successor, row.user, row.family, now + REPLAY_GRACE);
      (inserted.(cache := Unexpired(w.cache[row.secret := entry], now)), Granted(access, successor, row.user))
  }

  /** `outcome` says what comes of an accepted token: nothing (account gone or expired, a failed generation
      or write) or the new pair. `checked` is when the token is judged, `now` when the new one is created. */
  ghost function Present(w: World, secret: Secret, checked: int, now: int, outcome: Outcome): (World, Response) {
    match IdOf(w.rows, secret)
    case None => (w, Refused)
    case Some(id) =>
      var row := w.rows[id];
      if row.revoked then
        if secret in w.cache && checked <= w.cache[secret].expiresAt then
          (w, Granted(w.cache[secret].access, w.cache[secret].successor, w.cache[secret].user))
        else
          (w.(rows := RevokeFamily(w.rows, row.family), cache := w.cache - {secret}), Refused)
      else if Unix(checked) > row.expiresAt then (w.(rows := RevokeId(w.rows, id)), Refused)
      else Rotate(w, id, now, outcome)
  }

  ghost function Logout(w: World, secret: Secret): World {
    match IdOf(w.rows, secret)
    case None => w
    case Some(id) => w.(rows := RevokeFamily(w.rows, w.rows[id].family))
  }

  function ChangePassword(w: World, user: int): World {
    w.(rows := RevokeUser(w.rows, user))
  }

  function Sweep(w: World, now: int): World {
    w.(rows := DeleteStale(w.rows, Unix(now)))
  }

  // ---------------------------------------------------------------------
  // The objects
  // ---------------------------------------------------------------------

  class ReplayCache {
    const ttl: int
    var items: map<Secret, Cached>

    constructor (ttl: int)
      ensures this.ttl == ttl && items == map[]
    {
      this.ttl, items := ttl, map[];
    }

    method Put(secret: Secret, e: Cached, now: int)
      modifies this
      ensures items == Unexpired(old(items)[secret := e.(expiresAt := now + ttl)], now)
    {
      items := items[secret := e.(expiresAt := now + ttl)];
      SweepLocked(now);
    }

    method Get(secret: Secret, now: int) returns (e: Option<Cached>)
      modifies this
      ensures e == if secret in old(items) && now <= old(items)[secret].expiresAt then Some(old(items)[secret]) else None
      ensures items == if e == None then old(items) - {secret} else old(items)
    {
      if secret !in items {
        assert items - {secret} == items;
        return None;
      }
      if now > items[secret].expiresAt {
        items := items - {secret};
        return None;
      }
      return Some(items[secret]);
    }

    method SweepLocked(now: int)
      modifies this
      ensures items == Unexpired(old(items), now)
    {
      ghost var was := items;
      var todo := items.Keys;
      while todo != {}
        invariant todo <= was.Keys
        invariant items == map h | h in was && (h in todo || now <= was[h].expiresAt) :: was[h]
        decreases |todo|
      {
        var h := Pick(todo);
        if now > items[h].expiresAt {
          items := items - {h};
        }
        todo := todo - {h};
      }
    }
  }

  class Handler {
    var rows: Rows
    var nextId: nat
    var replayCache: ReplayCache

    ghost predicate Valid()
      reads this, replayCache
    {
      UniqueSecrets(rows) && replayCache.ttl == REPLAY_GRACE
    }

    function State(): World
      reads this, replayCache
    {
      World(rows, nextId, replayCache.items)
    }

    constructor ()
      ensures Valid() && State() == World(map[], 0, map[]) && fresh(replayCache)
    {
      rows, nextId := map[], 0;
      replayCache := new ReplayCache(REPLAY_GRACE);
    }

    method GetRefreshTokenByHash(secret: Secret) returns (r: Option<nat>)
      requires Valid()
      ensures r == IdOf(rows, secret)
    {
      var todo := rows.Keys;
      while todo != {}
        invariant todo <= rows.Keys
        invariant forall id :: id in rows && id !in todo ==> rows[id].secret != secret
        decreases |todo|
      {
        var id := Pick(todo);
        if rows[id].secret == secret {
          return Some(id);
        }
        todo := todo - {id};
      }
      return None;
    }

    method GetOldestActiveRefreshTokenFamily(user: int, t: int) returns (pick: nat)
      requires Active(rows, user, t) != {}
      ensures Oldest(rows, pick, user, t)
    {
      var active := set id | id in rows && ActiveRow(rows, id, user, t);
      assert active != {} by {
        var f :| f in Active(rows, user, t);
        var id :| id in rows && ActiveRow(rows, id, user, t) && rows[id].family == f;
        assert id in active;
      }
      pick := Pick(active);
      var todo := active - {pick};
      while todo != {}
        invariant todo <= active && pick in active
        invariant forall id :: id in active && id !in todo ==> rows[pick].createdAt <= rows[id].createdAt
        decreases |todo|
      {
        var id := Pick(todo);
        if rows[id].createdAt < rows[pick].createdAt {
          pick := id;
        }
        todo := todo - {id};
      }
    }

    method PostLogin(user: int, secret: Secret, family: Family, now: int) returns (ghost pick: nat)
      requires Valid() && IdOf(rows, secret).None?
      modifies this
      ensures |Active(old(rows), user, Unix(now))| >= MAX_FAMILIES ==> Oldest(old(rows), pick, user, Unix(now))
      ensures State() == Login(old(State()), user, secret, family, now, pick)
      ensures Valid() && replayCache == old(replayCache)
    {
      pick := 0;
      var t := Unix(now);
      var count := |Active(rows, user, t)|;
      if count >= MAX_FAMILIES {
        var oldest := GetOldestActiveRefreshTokenFamily(user, t);
        pick := oldest;
        rows := RevokeFamily(rows, rows[oldest].family);
      }
      rows := rows[nextId := Row(user, secret, family, Unix(now + REFRESH_TOKEN_EXPIRY), false, t)];
      nextId := nextId + 1;
    }

    /** The clock is read to judge the token, and again when its successor is created. */
    method PostRefresh(secret: Secret, checked: int, now: int, outcome: Outcome) returns (response: Response)
      requires Valid() && (outcome.Issue? ==> IdOf(rows, outcome.successor).None?)
      modifies this, replayCache
      ensures (State(), response) == Present(old(State()), secret, checked, now, outcome)
      ensures Valid() && replayCache == old(replayCache)
    {
      var found := GetRefreshTokenByHash(secret);
      if found == None {
        return Refused;
      }
      var id := found.value;
      var rt := rows[id];
      if rt.revoked {
        var cached := replayCache.Get(secret, checked);
        if cached.Some? {
          return Granted(cached.value.access, cached.value.successor, cached.value.user);
        }
        rows := RevokeFamily(rows, rt.family);
        return Refused;
      }
      rows := RevokeId(rows, id);
      if Unix(checked) > rt.expiresAt || outcome == Abandon {
        return Refused;
      }
      var Issue(access, successor) := outcome;
      rows := rows[nextId := Row(rt.user, successor, rt.family, Unix(now + REFRESH_TOKEN_EXPIRY), false, Unix(now))];
      nextId := nextId + 1;
      replayCache.Put(secret, Cached(access, successor, rt.user, rt.family, 0), now);
      return Granted(access, successor, rt.user);
    }

    method PostLogout(secret: Secret)
      requires Valid()
      modifies this
      ensures State() == Logout(old(State()), secret)
      ensures Valid() && replayCache == old(replayCache)
    {
      var found := GetRefreshTokenByHash(secret);
      if found.Some? {
        rows := RevokeFamily(rows, rows[found.value].family);
      }
    }

    method PutPassword(user: int)
      requires Valid()
      modifies this
      ensures State() == ChangePassword(old(State()), user)
      ensures Valid() && replayCache == old(replayCache)
    {
      rows := RevokeUser(rows, user);
    }

    method DeleteExpiredRefreshTokens(now: int)
      requires Valid()
      modifies this
      ensures State() == Sweep(old(State()), now)
      ensures Valid() && replayCache == old(replayCache)
    {
      rows := DeleteStale(rows, Unix(now));
    }
  }
}
