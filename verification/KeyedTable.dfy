/** A table with an autoincrement id and one unique key, and the two ways an import writes into it
    (backend/internal/admin/imports.go and the statements it runs). */
module KeyedTable {
  import opened Prelude

  datatype Table<R> = Table(rows: map<int, R>, next: int)

  /** Ids are below the next one, and no two rows share a key. */
  ghost predicate Sound<R, K>(t: Table<R>, key: R -> K) {
    && (forall id :: id in t.rows ==> id < t.next)
    && (forall a, b :: a in t.rows && b in t.rows && key(t.rows[a]) == key(t.rows[b]) ==> a == b)
  }

  ghost function IdOf<R, K>(t: Table<R>, key: R -> K, k: K): (r: Option<int>)
    ensures r.Some? ==> r.value in t.rows && key(t.rows[r.value]) == k
    ensures r.None? ==> forall id :: id in t.rows ==> key(t.rows[id]) != k
  {
    if exists id :: id in t.rows && key(t.rows[id]) == k then
      var id :| id in t.rows && key(t.rows[id]) == k;
      Some(id)
    else None
  }

  function Insert<R>(t: Table<R>, r: R): Table<R> {
    Table(t.rows[t.next := r], t.next + 1)
  }

  /** Create, or on a unique violation look the existing row up; it is not updated. */
  ghost function Ensure<R, K>(t: Table<R>, key: R -> K, r: R): (Table<R>, int) {
    match IdOf(t, key, key(r))
    case Some(id) => (t, id)
    case None => (Insert(t, r), t.next)
  }

  /** Insert, or on conflict overwrite the existing row. */
  ghost function Upsert<R, K>(t: Table<R>, key: R -> K, r: R): (Table<R>, int) {
    match IdOf(t, key, key(r))
    case Some(id) => (t.(rows := t.rows[id := r]), id)
    case None => (Insert(t, r), t.next)
  }

  datatype Exported<R> = Exported(id: int, row: R)

  /** Ensures every exported row and maps the exported ids to the ids here. */
  ghost function EnsureAll<R, K>(t: Table<R>, key: R -> K, list: seq<Exported<R>>): (Table<R>, map<int, int>) {
    if list == [] then (t, map[])
    else
      var (t1, remap) := EnsureAll(t, key, list[..|list| - 1]);
      var e := list[|list| - 1];
      var (t2, id) := Ensure(t1, key, e.row);
      (t2, remap[e.id := id])
  }

  ghost predicate UniqueIds<R>(list: seq<Exported<R>>) {
    forall i, j :: 0 <= i < j < |list| ==> list[i].id != list[j].id
  }

  /** Rows of the first table are still there, unchanged. */
  ghost predicate Extends<R>(t: Table<R>, t': Table<R>) {
    forall id :: id in t.rows ==> id in t'.rows && t'.rows[id] == t.rows[id]
  }

  lemma ExtendedRow<R>(t: Table<R>, t': Table<R>, id: int)
    requires Extends(t, t') && id in t.rows
    ensures id in t'.rows && t'.rows[id] == t.rows[id]
  {
  }

  lemma SoundId<R, K>(t: Table<R>, key: R -> K, id: int)
    requires Sound(t, key) && id in t.rows
    ensures IdOf(t, key, key(t.rows[id])) == Some(id)
  {
  }

  function Ids<R>(list: seq<Exported<R>>): set<int> {
    if list == [] then {} else Ids(list[..|list| - 1]) + {list[|list| - 1].id}
  }

  /** Ensuring a list keeps the table sound and its rows, and maps exactly the exported ids. */
  lemma {:induction false} EnsureAllKeeps<R, K>(t: Table<R>, key: R -> K, list: seq<Exported<R>>)
    requires Sound(t, key)
    ensures var (t', remap) := EnsureAll(t, key, list);
      Sound(t', key) && Extends(t, t') && t.next <= t'.next && remap.Keys == Ids(list) &&
      forall k :: k in remap ==> remap[k] in t'.rows
  {
    if list != [] {
      var n := |list| - 1;
      EnsureAllKeeps(t, key, list[..n]);
      EnsureKeeps(EnsureAll(t, key, list[..n]).0, key, list[n].row);
    }
  }

  /** Each exported id is sent to a row of its key. */
  lemma {:induction false} EnsureAllMaps<R, K>(t: Table<R>, key: R -> K, list: seq<Exported<R>>, i: nat)
    requires Sound(t, key) && UniqueIds(list) && i < |list|
    ensures var (t', remap) := EnsureAll(t, key, list);
      list[i].id in remap && remap[list[i].id] in t'.rows && key(t'.rows[remap[list[i].id]]) == key(list[i].row)
  {
    var n := |list| - 1;
    EnsureAllKeeps(t, key, list[..n]);
    EnsureKeeps(EnsureAll(t, key, list[..n]).0, key, list[n].row);
    if i < n {
      assert UniqueIds(list[..n]);
      EnsureAllMaps(t, key, list[..n], i);
    }
  }

  /** Rows with another key than the listed ones are only those that were there. */
  lemma {:induction false} EnsureAllFrame<R, K>(t: Table<R>, key: R -> K, list: seq<Exported<R>>)
    requires Sound(t, key)
    ensures var t' := EnsureAll(t, key, list).0;
      forall id :: id in t'.rows ==> id in t.rows || (id >= t.next && KeyIn(list, key, key(t'.rows[id])))
  {
    if list != [] {
      var n := |list| - 1;
      EnsureAllFrame(t, key, list[..n]);
      EnsureAllKeeps(t, key, list[..n]);
      forall k | KeyIn(list[..n], key, k)
        ensures KeyIn(list, key, k)
      {
        var i :| 0 <= i < n && key(list[..n][i].row) == k;
        assert key(list[i].row) == k;
      }
      assert KeyIn(list, key, key(list[n].row));
    }
  }

  /** The row of a listed key is the one that was there, as it was; or else a new one, the first listed with the key. */
  lemma {:induction false} EnsureAllRow<R, K>(t: Table<R>, key: R -> K, list: seq<Exported<R>>, f: nat)
    requires Sound(t, key) && f < |list| && forall j :: 0 <= j < f ==> key(list[j].row) != key(list[f].row)
    ensures var t', k := EnsureAll(t, key, list).0, key(list[f].row);
      exists id :: id in t'.rows && key(t'.rows[id]) == k &&
        if exists x :: x in t.rows && key(t.rows[x]) == k then id in t.rows && t'.rows[id] == t.rows[id]
        else id >= t.next && t'.rows[id] == list[f].row
  {
    var n, k := |list| - 1, key(list[f].row);
    var t1, t' := EnsureAll(t, key, list[..n]).0, EnsureAll(t, key, list).0;
    EnsureAllKeeps(t, key, list[..n]);
    EnsureKeeps(t1, key, list[n].row);
    if x :| x in t.rows && key(t.rows[x]) == k {
      assert x in t'.rows && t'.rows[x] == t.rows[x];
    } else if f < n {
      EnsureAllRow(t, key, list[..n], f);
      var id :| id in t1.rows && key(t1.rows[id]) == k && id >= t.next && t1.rows[id] == list[f].row;
      assert id in t'.rows && t'.rows[id] == t1.rows[id];
    } else {
      EnsureAllFrame(t, key, list[..n]);
      assert forall j :: 0 <= j < n ==> list[..n][j] == list[j];
      assert !KeyIn(list[..n], key, k);
      assert t'.rows[t1.next] == list[n].row;
    }
  }

  /** Where each exported id goes, and what stands there. */
  lemma EnsureAllMapsTo<R, K>(t: Table<R>, key: R -> K, list: seq<Exported<R>>, i: nat, f: nat)
    requires Sound(t, key) && UniqueIds(list) && f <= i < |list| && key(list[f].row) == key(list[i].row)
    requires forall j :: 0 <= j < f ==> key(list[j].row) != key(list[f].row)
    ensures var (t', remap) := EnsureAll(t, key, list);
      list[i].id in remap &&
      var id := remap[list[i].id];
      id in t'.rows && key(t'.rows[id]) == key(list[i].row) &&
      if exists x :: x in t.rows && key(t.rows[x]) == key(list[i].row) then id in t.rows && t'.rows[id] == t.rows[id]
      else id !in t.rows && t'.rows[id] == list[f].row
  {
    EnsureAllKeeps(t, key, list);
    EnsureAllMaps(t, key, list, i);
    EnsureAllRow(t, key, list, f);
  }

  lemma EnsureKeeps<R, K>(t: Table<R>, key: R -> K, r: R)
    requires Sound(t, key)
    ensures var (t', id) := Ensure(t, key, r);
      Sound(t', key) && Extends(t, t') && t.next <= t'.next && id in t'.rows && key(t'.rows[id]) == key(r)
  {
  }

  lemma UpsertKeeps<R, K>(t: Table<R>, key: R -> K, r: R)
    requires Sound(t, key)
    ensures var (t', id) := Upsert(t, key, r);
      && Sound(t', key) && t.next <= t'.next && id in t'.rows && t'.rows[id] == r
      && (forall k :: k in t.rows && k != id ==> k in t'.rows && t'.rows[k] == t.rows[k])
      && (forall k :: k in t'.rows ==> k in t.rows || k == id)
      && (id in t.rows ==> key(t.rows[id]) == key(r))
  {
  }

  /** Ensuring a list whose keys are all present changes nothing and finds the rows that are there. */
  lemma {:induction false} EnsureAllAgain<R, K>(t: Table<R>, key: R -> K, list: seq<Exported<R>>, remap: map<int, int>)
    requires Sound(t, key) && UniqueIds(list)
    requires forall i :: 0 <= i < |list| ==>
      list[i].id in remap && remap[list[i].id] in t.rows && key(t.rows[remap[list[i].id]]) == key(list[i].row)
    ensures var (t', again) := EnsureAll(t, key, list);
      t' == t && forall k :: k in again ==> k in remap && again[k] == remap[k]
  {
    if list != [] {
      var n := |list| - 1;
      assert forall i :: 0 <= i < n ==> list[..n][i] == list[i];
      EnsureAllAgain(t, key, list[..n], remap);
      SoundId(t, key, remap[list[n].id]);
    }
  }

  /** Importing the same list twice is importing it once. */
  lemma EnsureAllIdempotent<R, K>(t: Table<R>, key: R -> K, list: seq<Exported<R>>)
    requires Sound(t, key) && UniqueIds(list)
    ensures var once := EnsureAll(t, key, list); EnsureAll(once.0, key, list) == once
  {
    var (t', remap) := EnsureAll(t, key, list);
    EnsureAllKeeps(t, key, list);
    forall i | 0 <= i < |list|
      ensures list[i].id in remap && remap[list[i].id] in t'.rows && key(t'.rows[remap[list[i].id]]) == key(list[i].row)
    {
      EnsureAllMaps(t, key, list, i);
    }
    EnsureAllAgain(t', key, list, remap);
    EnsureAllKeeps(t', key, list);
    var (t'', again) := EnsureAll(t', key, list);
    assert again.Keys == remap.Keys;
    assert forall k :: k in again ==> again[k] == remap[k];
    assert again == remap;
  }

  // ---------------------------------------------------------------------
  // Upserting a list
  // ---------------------------------------------------------------------

  ghost function UpsertAll<R, K>(t: Table<R>, key: R -> K, list: seq<Exported<R>>): (Table<R>, map<int, int>) {
    if list == [] then (t, map[])
    else
      var (t1, remap) := UpsertAll(t, key, list[..|list| - 1]);
      var e := list[|list| - 1];
      var (t2, id) := Upsert(t1, key, e.row);
      (t2, remap[e.id := id])
  }

  ghost predicate UniqueKeys<R, K>(list: seq<Exported<R>>, key: R -> K) {
    forall i, j :: 0 <= i < j < |list| ==> key(list[i].row) != key(list[j].row)
  }

  ghost predicate KeyIn<R, K>(list: seq<Exported<R>>, key: R -> K, k: K) {
    exists i :: 0 <= i < |list| && key(list[i].row) == k
  }

  /** Rows whose key is not in the list are untouched, and every other row has a key from the list. */
  lemma {:induction false} UpsertAllFrame<R, K>(t: Table<R>, key: R -> K, list: seq<Exported<R>>)
    requires Sound(t, key)
    ensures var (t', remap) := UpsertAll(t, key, list);
      && Sound(t', key) && t.next <= t'.next && remap.Keys == Ids(list)
      && (forall id :: id in t.rows ==> id in t'.rows && key(t'.rows[id]) == key(t.rows[id]))
      && (forall id :: id in t'.rows ==>
            (id in t.rows && t'.rows[id] == t.rows[id]) || KeyIn(list, key, key(t'.rows[id])))
      && (forall id :: id in t.rows && !KeyIn(list, key, key(t.rows[id])) ==> t'.rows[id] == t.rows[id])
  {
    if list != [] {
      var n := |list| - 1;
      UpsertAllFrame(t, key, list[..n]);
      UpsertKeeps(UpsertAll(t, key, list[..n]).0, key, list[n].row);
      forall k | KeyIn(list[..n], key, k)
        ensures KeyIn(list, key, k)
      {
        var i :| 0 <= i < n && key(list[..n][i].row) == k;
        assert key(list[i].row) == k;
      }
      assert KeyIn(list, key, key(list[n].row));
    }
  }

  /** Every listed row is there at the end, where the remap says. */
  lemma {:induction false} UpsertAllMaps<R, K>(t: Table<R>, key: R -> K, list: seq<Exported<R>>, i: nat)
    requires Sound(t, key) && UniqueIds(list) && UniqueKeys(list, key) && i < |list|
    ensures var (t', remap) := UpsertAll(t, key, list);
      list[i].id in remap && remap[list[i].id] in t'.rows && t'.rows[remap[list[i].id]] == list[i].row
  {
    var n := |list| - 1;
    UpsertAllFrame(t, key, list[..n]);
    UpsertKeeps(UpsertAll(t, key, list[..n]).0, key, list[n].row);
    if i < n {
      assert UniqueIds(list[..n]) && UniqueKeys(list[..n], key);
      UpsertAllMaps(t, key, list[..n], i);
    }
  }

  /** Upserting rows that are all present as they are changes nothing and finds them. */
  lemma {:induction false} UpsertAllAgain<R, K>(t: Table<R>, key: R -> K, list: seq<Exported<R>>, remap: map<int, int>)
    requires Sound(t, key)
    requires forall i :: 0 <= i < |list| ==>
      list[i].id in remap && remap[list[i].id] in t.rows && t.rows[remap[list[i].id]] == list[i].row
    ensures var (t', again) := UpsertAll(t, key, list);
      t' == t && forall k :: k in again ==> k in remap && again[k] == remap[k]
  {
    if list != [] {
      var n := |list| - 1;
      assert forall i :: 0 <= i < n ==> list[..n][i] == list[i];
      UpsertAllAgain(t, key, list[..n], remap);
      SoundId(t, key, remap[list[n].id]);
      assert t.rows[remap[list[n].id] := list[n].row] == t.rows;
    }
  }

  /** The lookup behind both, as a scan. */
  method Find<R, K(==)>(t: Table<R>, key: R -> K, k: K) returns (r: Option<int>)
    requires Sound(t, key)
    ensures r == IdOf(t, key, k)
  {
    var todo := t.rows.Keys;
    while todo != {}
      invariant todo <= t.rows.Keys
      invariant forall id :: id in t.rows && id !in todo ==> key(t.rows[id]) != k
      decreases |todo|
    {
      var id := Pick(todo);
      if key(t.rows[id]) == k {
        return Some(id);
      }
      todo := todo - {id};
    }
    return None;
  }
}
