/** Restoring a configuration backup into another database (backend/internal/admin/imports.go). */
module Import {
  import opened Prelude
  import opened KeyedTable

  datatype SystemRow = SystemRow(systemID: int, caption: string, autoPopulate: int, blacklists: Option<string>,
                                 led: Option<string>, order: int)
  datatype Attributes = Attributes(caption: Option<string>, name: Option<string>, frequency: Option<int>,
                                   led: Option<string>, order: int)
  datatype TalkgroupRow = TalkgroupRow(system: int, talkgroupID: int, attributes: Attributes,
                                       grp: Option<int>, tag: Option<int>)
  datatype Watch = Watch(directory: string, kind: string, mask: Option<string>, extension: Option<string>,
                         frequency: Option<int>, delay: Option<int>, deleteAfter: int, usePolling: int,
                         disabled: int, order: int)
  datatype DirMonitorRow = DirMonitorRow(watch: Watch, system: Option<int>, talkgroup: Option<int>)

  datatype Db = Db(groups: Table<string>, tags: Table<string>, systems: Table<SystemRow>,
                   talkgroups: Table<TalkgroupRow>, dirMonitors: Table<DirMonitorRow>)

  datatype Backup = Backup(groups: seq<Exported<string>>, tags: seq<Exported<string>>,
                           systems: seq<Exported<SystemRow>>, talkgroups: seq<Exported<TalkgroupRow>>,
                           dirMonitors: seq<DirMonitorRow>)

  // The unique keys of the schema.

  function LabelKey(text: string): string { text }

  function SystemKey(r: SystemRow): int { r.systemID }

  function TalkgroupKey(r: TalkgroupRow): (int, int) { (r.system, r.talkgroupID) }

  /** A foreign key through a remap; one that is not exported is dropped. */
  function Remapped(fk: Option<int>, remap: map<int, int>): Option<int> {
    if fk.Some? && fk.value in remap then Some(remap[fk.value]) else None
  }

  datatype Remaps = Remaps(groups: map<int, int>, tags: map<int, int>, systems: map<int, int>)

  function TranslateTalkgroup(r: TalkgroupRow, m: Remaps): Option<TalkgroupRow> {
    if r.system !in m.systems then None
    else Some(TalkgroupRow(m.systems[r.system], r.talkgroupID, r.attributes,
                           Remapped(r.grp, m.groups), Remapped(r.tag, m.tags)))
  }

  /** The talkgroups that are written: those whose system is in the backup. */
  function Translated(list: seq<Exported<TalkgroupRow>>, m: Remaps): seq<Exported<TalkgroupRow>> {
    if list == [] then []
    else
      var e := list[|list| - 1];
      Translated(list[..|list| - 1], m) +
      match TranslateTalkgroup(e.row, m) case Some(r) => [Exported(e.id, r)] case None => []
  }

  function TranslateDirMonitor(r: DirMonitorRow, systems: map<int, int>, talkgroups: map<int, int>): DirMonitorRow {
    DirMonitorRow(r.watch, Remapped(r.system, systems), Remapped(r.talkgroup, talkgroups))
  }

  /** Directory monitors have no unique key: each is appended. */
  function AddDirMonitors(t: Table<DirMonitorRow>, list: seq<DirMonitorRow>,
                          systems: map<int, int>, talkgroups: map<int, int>): Table<DirMonitorRow> {
    if list == [] then t
    else
      Insert(AddDirMonitors(t, list[..|list| - 1], systems, talkgroups),
             TranslateDirMonitor(list[|list| - 1], systems, talkgroups))
  }

  ghost function BackupRemaps(db: Db, b: Backup): Remaps {
    Remaps(EnsureAll(db.groups, LabelKey, b.groups).1, EnsureAll(db.tags, LabelKey, b.tags).1,
           EnsureAll(db.systems, SystemKey, b.systems).1)
  }

  ghost function TalkgroupImport(db: Db, b: Backup): (Table<TalkgroupRow>, map<int, int>) {
    UpsertAll(db.talkgroups, TalkgroupKey, Translated(b.talkgroups, BackupRemaps(db, b)))
  }

  /** The database after a successful import. */
  ghost function Imported(db: Db, b: Backup): Db {
    var (talkgroups, tgRemap) := TalkgroupImport(db, b);
    Db(EnsureAll(db.groups, LabelKey, b.groups).0, EnsureAll(db.tags, LabelKey, b.tags).0,
       EnsureAll(db.systems, SystemKey, b.systems).0, talkgroups,
       AddDirMonitors(db.dirMonitors, b.dirMonitors, BackupRemaps(db, b).systems, tgRemap))
  }

  ghost predicate SoundDb(db: Db) {
    Sound(db.groups, LabelKey) && Sound(db.tags, LabelKey) && Sound(db.systems, SystemKey) &&
    Sound(db.talkgroups, TalkgroupKey) && (forall id :: id in db.dirMonitors.rows ==> id < db.dirMonitors.next)
  }

  // ---------------------------------------------------------------------
  // The import, statement by statement, in one transaction
  // ---------------------------------------------------------------------

  function Records(b: Backup): nat {
    |b.groups| + |b.tags| + |b.systems| + |b.talkgroups| + |b.dirMonitors|
  }

  /** What statements read and write, and, while a transaction is open, what a rollback restores. */
  class Database {
    var tables: Db
    var before: Option<Db>

    constructor (db: Db)
      ensures tables == db && before == None
    {
      tables, before := db, None;
    }

    method Begin()
      requires before == None
      modifies this
      ensures tables == old(tables) && before == Some(tables)
    {
      before := Some(tables);
    }

    method Commit()
      modifies this
      ensures tables == old(tables) && before == None
    {
      before := None;
    }

    /** Undoes an open transaction; after a commit there is nothing to undo. */
    method Rollback()
      modifies this
      ensures before == None
      ensures tables == if old(before).Some? then old(before).value else old(tables)
    {
      if before.Some? {
        tables, before := before.value, None;
      }
    }

    /** `failAt` is the record, counted over the whole backup, whose statement fails for a reason other than
        a unique violation, if any. The rollback is deferred: it runs whatever happened. */
    method ImportConfig(b: Backup, failAt: Option<nat>) returns (ok: bool)
      requires SoundDb(tables) && before == None
      modifies this
      ensures ok <==> failAt.None? || failAt.value >= Records(b)
      ensures tables == if ok then Imported(old(tables), b) else old(tables)
      ensures before == None
    {
      Begin();
      ok := ImportRows(b, if failAt.Some? then failAt.value else Records(b));
      Rollback();
    }

    /** The statements, which leave what was written so far when one fails, and commit at the end. */
    method ImportRows(b: Backup, failAt: nat) returns (ok: bool)
      requires SoundDb(tables)
      modifies this
      ensures ok <==> failAt >= Records(b)
      ensures if ok then tables == Imported(old(tables), b) && before == None else before == old(before)
    {
      var fail: int := failAt;
      var groups, groupRemap, tags, tagRemap, systems, systemRemap, talkgroups, tgRemap, dirMonitors;
      ok, groups, groupRemap := EnsureRows(tables.groups, LabelKey, b.groups, fail);
      tables := tables.(groups := groups);
      if !ok { return; }
      fail := fail - |b.groups|;
      ok, tags, tagRemap := EnsureRows(tables.tags, LabelKey, b.tags, fail);
      tables := tables.(tags := tags);
      if !ok { return; }
      fail := fail - |b.tags|;
      ok, systems, systemRemap := EnsureRows(tables.systems, SystemKey, b.systems, fail);
      tables := tables.(systems := systems);
      if !ok { return; }
      fail := fail - |b.systems|;
      var m := Remaps(groupRemap, tagRemap, systemRemap);
      ok, talkgroups, tgRemap := UpsertTalkgroups(tables.talkgroups, b.talkgroups, m, fail);
      tables := tables.(talkgroups := talkgroups);
      if !ok { return; }
      fail := fail - |b.talkgroups|;
      ok, dirMonitors := CreateDirMonitors(tables.dirMonitors, b.dirMonitors, systemRemap, tgRemap, fail);
      tables := tables.(dirMonitors := dirMonitors);
      if !ok { return; }
      Commit();
    }
  }

  /** Creates each row, falling back to the existing one on a unique violation; record `fail` fails. */
  method EnsureRows<R, K(==)>(t0: Table<R>, key: R -> K, list: seq<Exported<R>>, fail: int)
    returns (ok: bool, t: Table<R>, remap: map<int, int>)
    requires Sound(t0, key)
    ensures ok <==> !(0 <= fail < |list|)
    ensures ok ==> (t, remap) == EnsureAll(t0, key, list)
  {
    t, remap := t0, map[];
    for i := 0 to |list|
      invariant fail < 0 || i <= fail
      invariant (t, remap) == EnsureAll(t0, key, list[..i])
    {
      if i == fail {
        return false, t, remap;
      }
      EnsureAllKeeps(t0, key, list[..i]);
      assert list[..i + 1][..i] == list[..i];
      var e := list[i];
      var newID := t.next;
      var existing := Find(t, key, key(e.row));
      if existing.Some? {
        newID := existing.value;
      } else {
        t := Insert(t, e.row);
      }
      remap := remap[e.id := newID];
    }
    assert list[..|list|] == list;
    ok := true;
  }

  /** Translates each talkgroup's keys, upserts it and reads back its id. */
  method UpsertTalkgroups(t0: Table<TalkgroupRow>, list: seq<Exported<TalkgroupRow>>, m: Remaps, fail: int)
    returns (ok: bool, t: Table<TalkgroupRow>, remap: map<int, int>)
    requires Sound(t0, TalkgroupKey)
    ensures ok <==> !(0 <= fail < |list|)
    ensures ok ==> (t, remap) == UpsertAll(t0, TalkgroupKey, Translated(list, m))
  {
    t, remap := t0, map[];
    for i := 0 to |list|
      invariant fail < 0 || i <= fail
      invariant (t, remap) == UpsertAll(t0, TalkgroupKey, Translated(list[..i], m))
    {
      if i == fail {
        return false, t, remap;
      }
      UpsertAllFrame(t0, TalkgroupKey, Translated(list[..i], m));
      assert list[..i + 1][..i] == list[..i];
      var tg := list[i].row;
      if tg.system !in m.systems {
        assert Translated(list[..i + 1], m) == Translated(list[..i], m);
        continue;
      }
      var row := TalkgroupRow(m.systems[tg.system], tg.talkgroupID, tg.attributes,
                              Remapped(tg.grp, m.groups), Remapped(tg.tag, m.tags));
      var before := Translated(list[..i], m);
      assert Translated(list[..i + 1], m) == before + [Exported(list[i].id, row)];
      assert (before + [Exported(list[i].id, row)])[..|before|] == before;
      var existing := Find(t, TalkgroupKey, TalkgroupKey(row));
      var id := t.next;
      if existing.Some? {
        id := existing.value;
        t := Table(t.rows[id := row], t.next);
      } else {
        t := Insert(t, row);
      }
      remap := remap[list[i].id := id];
    }
    assert list[..|list|] == list;
    ok := true;
  }

  method CreateDirMonitors(t0: Table<DirMonitorRow>, list: seq<DirMonitorRow>,
                           systems: map<int, int>, talkgroups: map<int, int>, fail: int)
    returns (ok: bool, t: Table<DirMonitorRow>)
    ensures ok <==> !(0 <= fail < |list|)
    ensures ok ==> t == AddDirMonitors(t0, list, systems, talkgroups)
  {
    t := t0;
    for i := 0 to |list|
      invariant fail < 0 || i <= fail
      invariant t == AddDirMonitors(t0, list[..i], systems, talkgroups)
    {
      if i == fail {
        return false, t;
      }
      assert list[..i + 1][..i] == list[..i];
      t := Insert(t, TranslateDirMonitor(list[i], systems, talkgroups));
    }
    assert list[..|list|] == list;
    ok := true;
  }
}
