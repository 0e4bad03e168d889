/** The per-key upload limiter and its evicting table (backend/internal/handler/calls/calls.go). */
module Limiter {
  import opened Prelude

  const RATE_WINDOW: int := 60 * 1_000_000_000
  const EVICT_ABOVE: nat := 100

  datatype Window = Window(start: int, count: int)

  function Decide(w: Window, limit: int, now: int): (Window, bool) {
    var v := if now - w.start >= RATE_WINDOW then Window(now, 0) else w;
    if v.count >= limit then (v, false) else (v.(count := v.count + 1), true)
  }

  /** A window is renewed after 60 seconds, and a request admitted and counted while fewer than the limit were. */
  lemma DecideIs(w: Window, limit: int, now: int)
    ensures var (after, ok) := Decide(w, limit, now);
      var before := if now < w.start + 60_000_000_000 then w else Window(now, 0);
      && (ok <==> before.count < limit)
      && after == Window(before.start, if ok then before.count + 1 else before.count)
  {
  }

  /** Entries not yet two windows old; nothing is evicted from a small table. */
  function Evict(table: map<int, Window>, now: int): map<int, Window> {
    if |table| > EVICT_ABOVE then map k | k in table && now - table[k].start < 2 * RATE_WINDOW :: table[k] else table
  }

  /** From a table of more than 100 exactly the entries opened 120 seconds ago or earlier go. */
  lemma EvictIs(table: map<int, Window>, now: int, key: int)
    ensures var after := Evict(table, now);
      && (key in after <==> key in table && (|table| <= 100 || now < table[key].start + 120_000_000_000))
      && (key in after ==> after[key] == table[key])
  {
  }

  function EntryOf(table: map<int, Window>, key: int, found: int): Window {
    if key in table then table[key] else Window(found, 0)
  }

  /** One request against a table: find or create the key's window at one reading of the clock, then ask it at
      another. */
  function Ask(table: map<int, Window>, key: int, limit: int, found: int, now: int): (map<int, Window>, bool) {
    var (w, ok) := Decide(EntryOf(table, key, found), limit, now);
    (table[key := w], ok)
  }

  // ---------------------------------------------------------------------
  // The objects
  // ---------------------------------------------------------------------

  class ApiKeyLimiter {
    var windowStart: int
    var count: int
    var rateLimit: int

    constructor (windowStart: int, rateLimit: int)
      ensures View() == Window(windowStart, 0) && this.rateLimit == rateLimit
    {
      this.windowStart, this.count, this.rateLimit := windowStart, 0, rateLimit;
    }

    function View(): Window
      reads this
    {
      Window(windowStart, count)
    }

    method Allow(now: int) returns (ok: bool)
      modifies this
      ensures (View(), ok) == Decide(old(View()), rateLimit, now) && rateLimit == old(rateLimit)
    {
      if now - windowStart >= RATE_WINDOW {
        windowStart := now;
        count := 0;
      }
      if count >= rateLimit {
        return false;
      }
      count := count + 1;
      return true;
    }
  }

  class Handler {
    var limiters: map<int, ApiKeyLimiter>

    ghost predicate Valid()
      reads this
    {
      forall a, b :: a in limiters && b in limiters && limiters[a] == limiters[b] ==> a == b
    }

    ghost function Table(): map<int, Window>
      reads this, limiters.Values
    {
      map k | k in limiters :: limiters[k].View()
    }

    constructor ()
      ensures Valid() && Table() == map[]
    {
      limiters := map[];
    }

    method EvictStale(now: int)
      requires Valid()
      modifies this
      ensures Valid() && limiters.Keys <= old(limiters.Keys)
      ensures forall k :: k in limiters ==> limiters[k] == old(limiters[k])
      ensures Table() == Evict(old(Table()), now)
    {
      assert Table().Keys == limiters.Keys && |Table()| == |Table().Keys|;
      if |limiters.Keys| > EVICT_ABOVE {
        ghost var was := limiters;
        var todo := limiters.Keys;
        while todo != {}
          invariant todo <= was.Keys && Valid()
          invariant limiters == map k | k in was && (k in todo || now - was[k].windowStart < 2 * RATE_WINDOW) :: was[k]
          decreases |todo|
        {
          var id := Pick(todo);
          var stale := now - limiters[id].windowStart >= 2 * RATE_WINDOW;
          if stale {
            limiters := limiters - {id};
          }
          todo := todo - {id};
        }
        assert forall k :: k in was ==> old(Table())[k] == was[k].View();
        assert Table().Keys == Evict(old(Table()), now).Keys;
      }
    }

    /** The clock is read twice: for the eviction, and for the start of a new window. */
    method GetLimiter(apiKeyID: int, rateLimit: int, sweep: int, found: int) returns (l: ApiKeyLimiter)
      requires Valid()
      modifies this, limiters.Values
      ensures Valid() && apiKeyID in limiters && limiters[apiKeyID] == l && l.rateLimit == rateLimit
      ensures fresh(l) || (apiKeyID in old(limiters) && l == old(limiters[apiKeyID]))
      ensures forall k :: k in limiters && k != apiKeyID ==> k in old(limiters) && limiters[k] == old(limiters[k])
      ensures forall k :: k in limiters && k != apiKeyID ==> limiters[k].rateLimit == old(limiters[k].rateLimit)
      ensures var before := Evict(old(Table()), sweep);
        Table() == before[apiKeyID := EntryOf(before, apiKeyID, found)]
    {
      hide Evict;
      EvictStale(sweep);
      ghost var before := Table();
      if apiKeyID !in limiters {
        l := new ApiKeyLimiter(found, rateLimit);
        limiters := limiters[apiKeyID := l];
      } else {
        l := limiters[apiKeyID];
        l.rateLimit := rateLimit;
      }
      assert forall k :: k in limiters && k != apiKeyID ==> limiters[k] != l && limiters[k].View() == before[k];
    }

    /** What an upload does first: three readings of the clock, no two of which need agree. */
    method Admit(apiKeyID: int, rateLimit: int, sweep: int, found: int, now: int) returns (ok: bool)
      requires Valid()
      modifies this, limiters.Values
      ensures Valid()
      ensures forall k :: k in limiters && k !in old(limiters) ==> fresh(limiters[k])
      ensures forall k :: k in limiters && k != apiKeyID ==>
        k in old(limiters) && limiters[k].rateLimit == old(limiters[k].rateLimit)
      ensures (Table(), ok) == Ask(Evict(old(Table()), sweep), apiKeyID, rateLimit, found, now)
    {
      var l := GetLimiter(apiKeyID, rateLimit, sweep, found);
      ghost var before := Table();
      assert Ask(Evict(old(Table()), sweep), apiKeyID, rateLimit, found, now).0 ==
             before[apiKeyID := Decide(before[apiKeyID], rateLimit, now).0];
      ok := l.Allow(now);
      assert forall k :: k in limiters && k != apiKeyID ==> limiters[k] != l && limiters[k].View() == before[k];
      assert Table() == before[apiKeyID := l.View()];
    }
  }
}
