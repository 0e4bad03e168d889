/** What a restored backup means: rows are compared by what they show, not by their ids
    (backend/internal/admin/imports.go). */
module ImportMeaning {
  import opened Prelude
  import opened KeyedTable
  import opened Import

  /** A talkgroup with its foreign keys replaced by what they point at. */
  datatype View = View(radioSystem: int, talkgroupID: int, attributes: Attributes,
                       grp: Option<string>, tag: Option<string>)

  function TextAt(t: Table<string>, fk: Option<int>): Option<string> {
    if fk.Some? && fk.value in t.rows then Some(t.rows[fk.value]) else None
  }

  function ViewOf(db: Db, r: TalkgroupRow): View
    requires r.system in db.systems.rows
  {
    View(db.systems.rows[r.system].systemID, r.talkgroupID, r.attributes, TextAt(db.groups, r.grp), TextAt(db.tags, r.tag))
  }

  function Lookup<R>(list: seq<Exported<R>>, id: int): Option<R> {
    if list == [] then None
    else if list[|list| - 1].id == id then Some(list[|list| - 1].row)
    else Lookup(list[..|list| - 1], id)
  }

  function LookupText(list: seq<Exported<string>>, fk: Option<int>): Option<string> {
    if fk.Some? then Lookup(list, fk.value) else None
  }

  /** The view in the backup itself, or None when its system is not part of it. */
  function SourceView(b: Backup, r: TalkgroupRow): Option<View> {
    match Lookup(b.systems, r.system)
    case None => None
    case Some(s) =>
      Some(View(s.systemID, r.talkgroupID, r.attributes, LookupText(b.groups, r.grp), LookupText(b.tags, r.tag)))
  }

  /** Ids are unique, and no two talkgroups are the same talkgroup of the same radio system. */
  ghost predicate WellFormed(b: Backup) {
    UniqueIds(b.groups) && UniqueIds(b.tags) && UniqueIds(b.systems) && UniqueIds(b.talkgroups) &&
    forall i, j :: 0 <= i < j < |b.talkgroups| ==>
      var v, w := SourceView(b, b.talkgroups[i].row), SourceView(b, b.talkgroups[j].row);
      v.Some? && w.Some? ==> (v.value.radioSystem, v.value.talkgroupID) != (w.value.radioSystem, w.value.talkgroupID)
  }

  /** The row's foreign keys point at rows. */
  predicate Resolves(db: Db, r: TalkgroupRow) {
    r.system in db.systems.rows &&
    (r.grp.Some? ==> r.grp.value in db.groups.rows) && (r.tag.Some? ==> r.tag.value in db.tags.rows)
  }

  ghost predicate KeysResolve(db: Db) {
    forall id :: id in db.talkgroups.rows ==> Resolves(db, db.talkgroups.rows[id])
  }

  lemma {:induction false} LookupAt<R>(list: seq<Exported<R>>, i: nat)
    requires UniqueIds(list) && i < |list|
    ensures Lookup(list, list[i].id) == Some(list[i].row)
  {
    var n := |list| - 1;
    if i < n {
      assert UniqueIds(list[..n]);
      LookupAt(list[..n], i);
    }
  }

  lemma {:induction false} LookupIndex<R>(list: seq<Exported<R>>, id: int) returns (i: nat)
    ensures Lookup(list, id).Some? <==> id in Ids(list)
    ensures id in Ids(list) ==> i < |list| && list[i].id == id
  {
    i := 0;
    if list != [] {
      var n := |list| - 1;
      if list[n].id == id {
        i := n;
      } else {
        i := LookupIndex(list[..n], id);
      }
    }
  }

  /** A remapped key points at the row whose text the backup gives. */
  lemma TextResolves(t: Table<string>, list: seq<Exported<string>>, fk: Option<int>)
    requires Sound(t, LabelKey) && UniqueIds(list)
    ensures var (t', remap) := EnsureAll(t, LabelKey, list); TextAt(t', Remapped(fk, remap)) == LookupText(list, fk)
  {
    EnsureAllKeeps(t, LabelKey, list);
    if fk.Some? {
      var i := LookupIndex(list, fk.value);
      if fk.value in Ids(list) {
        EnsureAllMaps(t, LabelKey, list, i);
        LookupAt(list, i);
      }
    }
  }

  lemma SystemResolves(t: Table<SystemRow>, list: seq<Exported<SystemRow>>, id: int)
    requires Sound(t, SystemKey) && UniqueIds(list)
    ensures var (t', remap) := EnsureAll(t, SystemKey, list);
      && (id in remap <==> Lookup(list, id).Some?)
      && (id in remap ==> remap[id] in t'.rows && t'.rows[remap[id]].systemID == Lookup(list, id).value.systemID)
  {
    EnsureAllKeeps(t, SystemKey, list);
    var i := LookupIndex(list, id);
    if id in Ids(list) {
      EnsureAllMaps(t, SystemKey, list, i);
      LookupAt(list, i);
    }
  }

  /** Each exported system is afterwards the row that was there under its radio system id, with none of its columns
      changed, or a new row: the first exported one with that radio system id, column by column. */
  lemma SystemsRestored(db: Db, b: Backup, i: nat, f: nat)
    requires SoundDb(db) && WellFormed(b) && f <= i < |b.systems|
    requires b.systems[f].row.systemID == b.systems[i].row.systemID
    requires forall j :: 0 <= j < f ==> b.systems[j].row.systemID != b.systems[f].row.systemID
    ensures var after, remap, s := Imported(db, b).systems.rows, BackupRemaps(db, b).systems, b.systems[i];
      s.id in remap && remap[s.id] in after &&
      var id, row := remap[s.id], after[remap[s.id]];
      row.systemID == s.row.systemID &&
      if exists x :: x in db.systems.rows && db.systems.rows[x].systemID == s.row.systemID
      then id in db.systems.rows && row == db.systems.rows[id]
      else id !in db.systems.rows && row == b.systems[f].row
  {
    assert forall x :: x in db.systems.rows ==> SystemKey(db.systems.rows[x]) == db.systems.rows[x].systemID;
    EnsureAllMapsTo(db.systems, SystemKey, b.systems, i, f);
    hide EnsureAll, UpsertAll, AddDirMonitors, Translated;
  }

  /** The row written for an exported talkgroup shows what the backup shows. */
  lemma TranslationMeans(db: Db, b: Backup, r: TalkgroupRow)
    requires SoundDb(db) && WellFormed(b)
    ensures var t := TranslateTalkgroup(r, BackupRemaps(db, b));
      && (t.Some? <==> SourceView(b, r).Some?)
      && (t.Some? ==> t.value.system in Imported(db, b).systems.rows &&
                      ViewOf(Imported(db, b), t.value) == SourceView(b, r).value)
  {
    SystemResolves(db.systems, b.systems, r.system);
    TextResolves(db.groups, b.groups, r.grp);
    TextResolves(db.tags, b.tags, r.tag);
    hide EnsureAll, Lookup;
  }

  /** One of the first `bound` exported talkgroups translates to e. */
  ghost predicate ComesFrom(list: seq<Exported<TalkgroupRow>>, m: Remaps, bound: nat, e: Exported<TalkgroupRow>) {
    exists h :: 0 <= h < bound <= |list| && list[h].id == e.id && TranslateTalkgroup(list[h].row, m) == Some(e.row)
  }

  /** Every translated talkgroup comes from an exported one. */
  lemma {:induction false} TranslatedFrom(list: seq<Exported<TalkgroupRow>>, m: Remaps, j: nat) returns (i: nat)
    requires j < |Translated(list, m)|
    ensures i < |list| && list[i].id == Translated(list, m)[j].id
    ensures TranslateTalkgroup(list[i].row, m) == Some(Translated(list, m)[j].row)
    ensures forall k :: 0 <= k < j ==> ComesFrom(list, m, i, Translated(list, m)[k])
  {
    var n := |list| - 1;
    var init := Translated(list[..n], m);
    if j < |init| {
      i := TranslatedFrom(list[..n], m, j);
      assert forall h :: 0 <= h < n ==> list[..n][h] == list[h];
      assert forall e :: ComesFrom(list[..n], m, i, e) ==> ComesFrom(list, m, i, e);
    } else {
      i := n;
      forall k | 0 <= k < j
        ensures ComesFrom(list, m, i, Translated(list, m)[k])
      {
        var h := TranslatedFrom(list[..n], m, k);
        assert list[..n][h] == list[h];
      }
    }
  }

  lemma {:induction false} TranslatedTo(list: seq<Exported<TalkgroupRow>>, m: Remaps, i: nat) returns (j: nat)
    requires i < |list| && TranslateTalkgroup(list[i].row, m).Some?
    ensures j < |Translated(list, m)|
    ensures Translated(list, m)[j] == Exported(list[i].id, TranslateTalkgroup(list[i].row, m).value)
  {
    var n := |list| - 1;
    if i < n {
      j := TranslatedTo(list[..n], m, i);
    } else {
      j := |Translated(list[..n], m)|;
    }
  }

  /** The translated list has unique ids and unique keys. */
  lemma TranslatedUnique(db: Db, b: Backup)
    requires SoundDb(db) && WellFormed(b)
    ensures var list := Translated(b.talkgroups, BackupRemaps(db, b)); UniqueIds(list) && UniqueKeys(list, TalkgroupKey)
  {
    var m := BackupRemaps(db, b);
    var list := Translated(b.talkgroups, m);
    hide BackupRemaps, Translated, SourceView, Imported, TranslateTalkgroup;
    forall k, j | 0 <= k < j < |list|
      ensures list[k].id != list[j].id && TalkgroupKey(list[k].row) != TalkgroupKey(list[j].row)
    {
      var i := TranslatedFrom(b.talkgroups, m, j);
      assert ComesFrom(b.talkgroups, m, i, list[k]);
      var h :| 0 <= h < i && b.talkgroups[h].id == list[k].id && TranslateTalkgroup(b.talkgroups[h].row, m) == Some(list[k].row);
      TranslationMeans(db, b, b.talkgroups[h].row);
      TranslationMeans(db, b, b.talkgroups[i].row);
    }
  }

  /** After a successful import every talkgroup whose system is in the backup is there, showing what the
      backup shows. */
  lemma TalkgroupsRestored(db: Db, b: Backup, i: nat)
    requires SoundDb(db) && WellFormed(b) && i < |b.talkgroups| && SourceView(b, b.talkgroups[i].row).Some?
    ensures var db', remap := Imported(db, b), TalkgroupImport(db, b).1;
      var e := b.talkgroups[i];
      && e.id in remap && remap[e.id] in db'.talkgroups.rows
      && var row := db'.talkgroups.rows[remap[e.id]];
         row.system in db'.systems.rows && ViewOf(db', row) == SourceView(b, e.row).value
  {
    var m := BackupRemaps(db, b);
    TranslationMeans(db, b, b.talkgroups[i].row);
    var j := TranslatedTo(b.talkgroups, m, i);
    TranslatedUnique(db, b);
    UpsertAllMaps(db.talkgroups, TalkgroupKey, Translated(b.talkgroups, m), j);
    hide BackupRemaps, Translated, SourceView, EnsureAll, UpsertAll, AddDirMonitors;
  }

  /** The talkgroup is one of those the backup restores. */
  ghost predicate InBackup(b: Backup, v: View) {
    exists i :: 0 <= i < |b.talkgroups| &&
      var w := SourceView(b, b.talkgroups[i].row);
      w.Some? && (w.value.radioSystem, w.value.talkgroupID) == (v.radioSystem, v.talkgroupID)
  }

  lemma UnrelatedKey(db: Db, b: Backup, r: TalkgroupRow)
    requires SoundDb(db) && WellFormed(b) && r.system in db.systems.rows && !InBackup(b, ViewOf(db, r))
    ensures !KeyIn(Translated(b.talkgroups, BackupRemaps(db, b)), TalkgroupKey, TalkgroupKey(r))
  {
    var m := BackupRemaps(db, b);
    var list := Translated(b.talkgroups, m);
    EnsureAllKeeps(db.systems, SystemKey, b.systems);
    hide BackupRemaps, Translated, SourceView, EnsureAll, UpsertAll, AddDirMonitors, TranslateTalkgroup, TextAt;
    forall j | 0 <= j < |list|
      ensures TalkgroupKey(list[j].row) != TalkgroupKey(r)
    {
      var i := TranslatedFrom(b.talkgroups, m, j);
      TranslationMeans(db, b, b.talkgroups[i].row);
      if TalkgroupKey(list[j].row) == TalkgroupKey(r) {
        assert false;
      }
    }
  }

  lemma ViewKept(db: Db, b: Backup, r: TalkgroupRow)
    requires SoundDb(db) && r.system in db.systems.rows
    requires (r.grp.Some? ==> r.grp.value in db.groups.rows) && (r.tag.Some? ==> r.tag.value in db.tags.rows)
    ensures r.system in Imported(db, b).systems.rows && ViewOf(Imported(db, b), r) == ViewOf(db, r)
  {
    EnsureAllKeeps(db.groups, LabelKey, b.groups);
    EnsureAllKeeps(db.tags, LabelKey, b.tags);
    EnsureAllKeeps(db.systems, SystemKey, b.systems);
    var db' := Imported(db, b);
    TextKept(db.groups, db'.groups, r.grp);
    TextKept(db.tags, db'.tags, r.tag);
    assert Extends(db.systems, db'.systems);
  }

  lemma TextKept(t: Table<string>, t': Table<string>, fk: Option<int>)
    requires Extends(t, t') && (fk.Some? ==> fk.value in t.rows)
    ensures TextAt(t', fk) == TextAt(t, fk)
  {
    if fk.Some? {
      ExtendedRow(t, t', fk.value);
    }
  }

  /** A row that the backup does not name keeps its id, its columns and what it shows. */
  lemma UnrelatedUntouched(db: Db, b: Backup, id: int)
    requires SoundDb(db) && KeysResolve(db) && WellFormed(b)
    requires id in db.talkgroups.rows && !InBackup(b, ViewOf(db, db.talkgroups.rows[id]))
    ensures var db' := Imported(db, b);
      && id in db'.talkgroups.rows && db'.talkgroups.rows[id] == db.talkgroups.rows[id]
      && db.talkgroups.rows[id].system in db'.systems.rows
      && ViewOf(db', db.talkgroups.rows[id]) == ViewOf(db, db.talkgroups.rows[id])
  {
    UnrelatedKey(db, b, db.talkgroups.rows[id]);
    ViewKept(db, b, db.talkgroups.rows[id]);
    UpsertAllFrame(db.talkgroups, TalkgroupKey, Translated(b.talkgroups, BackupRemaps(db, b)));
    assert Imported(db, b).talkgroups == TalkgroupImport(db, b).0;
    hide BackupRemaps, Translated, EnsureAll, UpsertAll, AddDirMonitors, ViewOf, InBackup, Imported;
  }

  /** Nothing else appears: every talkgroup afterwards was there unchanged or shows an exported one. */
  lemma NothingElseAppears(db: Db, b: Backup, id: int)
    requires SoundDb(db) && WellFormed(b) && id in Imported(db, b).talkgroups.rows
    ensures var db' := Imported(db, b);
      var r := db'.talkgroups.rows[id];
      || (id in db.talkgroups.rows && r == db.talkgroups.rows[id])
      || (r.system in db'.systems.rows &&
          exists i :: 0 <= i < |b.talkgroups| && SourceView(b, b.talkgroups[i].row) == Some(ViewOf(db', r)))
  {
    var m, db' := BackupRemaps(db, b), Imported(db, b);
    var list, r := Translated(b.talkgroups, m), db'.talkgroups.rows[id];
    UpsertAllFrame(db.talkgroups, TalkgroupKey, list);
    if !(id in db.talkgroups.rows && r == db.talkgroups.rows[id]) {
      var j :| 0 <= j < |list| && TalkgroupKey(list[j].row) == TalkgroupKey(r);
      var i := TranslatedFrom(b.talkgroups, m, j);
      TranslatedUnique(db, b);
      UpsertAllMaps(db.talkgroups, TalkgroupKey, list, j);
      TranslationMeans(db, b, b.talkgroups[i].row);
      var other := TalkgroupImport(db, b).1[list[j].id];
      assert TalkgroupKey(db'.talkgroups.rows[other]) == TalkgroupKey(r);
      assert other == id;
    }
  }

  /** Restoring the same backup again changes nothing in groups, tags, systems and talkgroups. */
  lemma SecondImportChangesNothing(db: Db, b: Backup)
    requires SoundDb(db) && WellFormed(b)
    ensures var once, twice := Imported(db, b), Imported(Imported(db, b), b);
      once.groups == twice.groups && once.tags == twice.tags && once.systems == twice.systems &&
      once.talkgroups == twice.talkgroups
  {
    var once := Imported(db, b);
    EnsureAllIdempotent(db.groups, LabelKey, b.groups);
    EnsureAllIdempotent(db.tags, LabelKey, b.tags);
    EnsureAllIdempotent(db.systems, SystemKey, b.systems);
    var m := BackupRemaps(db, b);
    assert BackupRemaps(once, b) == m;
    var list, remap := Translated(b.talkgroups, m), TalkgroupImport(db, b).1;
    TranslatedUnique(db, b);
    UpsertAllFrame(db.talkgroups, TalkgroupKey, list);
    forall j | 0 <= j < |list|
      ensures list[j].id in remap && remap[list[j].id] in once.talkgroups.rows &&
              once.talkgroups.rows[remap[list[j].id]] == list[j].row
    {
      UpsertAllMaps(db.talkgroups, TalkgroupKey, list, j);
    }
    UpsertAllAgain(once.talkgroups, TalkgroupKey, list, remap);
  }

  /** An imported database is sound, so it can be imported into again. */
  lemma ImportedIsSound(db: Db, b: Backup)
    requires SoundDb(db)
    ensures SoundDb(Imported(db, b))
  {
    EnsureAllKeeps(db.groups, LabelKey, b.groups);
    EnsureAllKeeps(db.tags, LabelKey, b.tags);
    EnsureAllKeeps(db.systems, SystemKey, b.systems);
    UpsertAllFrame(db.talkgroups, TalkgroupKey, Translated(b.talkgroups, BackupRemaps(db, b)));
    AddedDirMonitors(db.dirMonitors, b.dirMonitors, BackupRemaps(db, b).systems, TalkgroupImport(db, b).1);
  }

  /** No talkgroup is left pointing at nothing. */
  lemma ImportedKeysResolve(db: Db, b: Backup)
    requires SoundDb(db) && KeysResolve(db) && WellFormed(b)
    ensures KeysResolve(Imported(db, b))
  {
    var db', m := Imported(db, b), BackupRemaps(db, b);
    EnsureAllKeeps(db.groups, LabelKey, b.groups);
    EnsureAllKeeps(db.tags, LabelKey, b.tags);
    EnsureAllKeeps(db.systems, SystemKey, b.systems);
    var list := Translated(b.talkgroups, m);
    UpsertAllFrame(db.talkgroups, TalkgroupKey, list);
    hide EnsureAll, UpsertAll, Translated, AddDirMonitors;
    forall id | id in db'.talkgroups.rows
      ensures Resolves(db', db'.talkgroups.rows[id])
    {
      var r := db'.talkgroups.rows[id];
      if id in db.talkgroups.rows && r == db.talkgroups.rows[id] {
        ResolvesKept(db, db', r);
      } else {
        var j :| 0 <= j < |list| && TalkgroupKey(list[j].row) == TalkgroupKey(r);
        TranslatedUnique(db, b);
        UpsertAllMaps(db.talkgroups, TalkgroupKey, list, j);
        var other := TalkgroupImport(db, b).1[list[j].id];
        assert TalkgroupKey(db'.talkgroups.rows[other]) == TalkgroupKey(r);
        assert other == id;
        var i := TranslatedFrom(b.talkgroups, m, j);
        TranslationResolves(db, b, b.talkgroups[i].row);
      }
    }
  }

  lemma TranslationResolves(db: Db, b: Backup, r: TalkgroupRow)
    requires SoundDb(db) && TranslateTalkgroup(r, BackupRemaps(db, b)).Some?
    ensures Resolves(Imported(db, b), TranslateTalkgroup(r, BackupRemaps(db, b)).value)
  {
    EnsureAllKeeps(db.groups, LabelKey, b.groups);
    EnsureAllKeeps(db.tags, LabelKey, b.tags);
    EnsureAllKeeps(db.systems, SystemKey, b.systems);
    hide EnsureAll, UpsertAll, Translated, AddDirMonitors, Ids, Sound, Extends;
    var db', m := Imported(db, b), BackupRemaps(db, b);
    assert r.system in m.systems && m.systems[r.system] in db'.systems.rows;
    assert forall k :: k in m.groups ==> m.groups[k] in db'.groups.rows;
    assert forall k :: k in m.tags ==> m.tags[k] in db'.tags.rows;
  }

  lemma ResolvesKept(db: Db, db': Db, r: TalkgroupRow)
    requires Extends(db.groups, db'.groups) && Extends(db.tags, db'.tags) && Extends(db.systems, db'.systems)
    requires Resolves(db, r)
    ensures Resolves(db', r)
  {
    ExtendedRow(db.systems, db'.systems, r.system);
    if r.grp.Some? {
      ExtendedRow(db.groups, db'.groups, r.grp.value);
    }
    if r.tag.Some? {
      ExtendedRow(db.tags, db'.tags, r.tag.value);
    }
  }

  /** Directory monitors that were there keep their ids and columns, and the only new ones are the backup's. */
  lemma DirMonitorsKept(db: Db, b: Backup, id: int)
    requires SoundDb(db)
    ensures var before, after := db.dirMonitors, Imported(db, b).dirMonitors;
      && (id in before.rows ==> id in after.rows && after.rows[id] == before.rows[id])
      && (id in after.rows && id !in before.rows ==> before.next <= id < before.next + |b.dirMonitors|)
  {
    AddedDirMonitors(db.dirMonitors, b.dirMonitors, BackupRemaps(db, b).systems, TalkgroupImport(db, b).1);
  }

  lemma {:induction false} AddedDirMonitors(t: Table<DirMonitorRow>, list: seq<DirMonitorRow>,
                                            systems: map<int, int>, talkgroups: map<int, int>)
    requires forall id :: id in t.rows ==> id < t.next
    ensures var t' := AddDirMonitors(t, list, systems, talkgroups);
      && t'.next == t.next + |list| && Extends(t, t')
      && forall id :: id in t'.rows ==> id < t'.next && (id in t.rows || t.next <= id)
  {
    if list != [] {
      AddedDirMonitors(t, list[..|list| - 1], systems, talkgroups);
    }
  }

  lemma {:induction false} AddedDirMonitorAt(t: Table<DirMonitorRow>, list: seq<DirMonitorRow>,
                                             systems: map<int, int>, talkgroups: map<int, int>, k: nat)
    requires (forall id :: id in t.rows ==> id < t.next) && k < |list|
    ensures var rows := AddDirMonitors(t, list, systems, talkgroups).rows;
      t.next + k in rows && rows[t.next + k] == TranslateDirMonitor(list[k], systems, talkgroups)
  {
    hide TranslateDirMonitor;
    var n := |list| - 1;
    AddedDirMonitors(t, list[..n], systems, talkgroups);
    if k < n {
      AddedDirMonitorAt(t, list[..n], systems, talkgroups, k);
    }
  }

  /** Each restored directory monitor points at the row that matches what it pointed at in the backup. */
  lemma DirMonitorsRestored(db: Db, b: Backup, k: nat)
    requires SoundDb(db) && WellFormed(b) && k < |b.dirMonitors|
    ensures var db', id, source := Imported(db, b), db.dirMonitors.next + k, b.dirMonitors[k];
      && id in db'.dirMonitors.rows
      && var row := db'.dirMonitors.rows[id];
         && row.watch == source.watch
         && (row.system.Some? <==> source.system.Some? && Lookup(b.systems, source.system.value).Some?)
         && (row.system.Some? ==>
               row.system.value in db'.systems.rows &&
               db'.systems.rows[row.system.value].systemID == Lookup(b.systems, source.system.value).value.systemID)
         && (row.talkgroup.Some? ==> exists i :: 0 <= i < |b.talkgroups| && source.talkgroup == Some(b.talkgroups[i].id))
         && (forall i :: 0 <= i < |b.talkgroups| && source.talkgroup == Some(b.talkgroups[i].id) ==>
               (row.talkgroup.Some? <==> SourceView(b, b.talkgroups[i].row).Some?))
         && (forall i :: 0 <= i < |b.talkgroups| && source.talkgroup == Some(b.talkgroups[i].id) && row.talkgroup.Some? ==>
               row.talkgroup.value in db'.talkgroups.rows &&
               db'.talkgroups.rows[row.talkgroup.value].system in db'.systems.rows &&
               ViewOf(db', db'.talkgroups.rows[row.talkgroup.value]) == SourceView(b, b.talkgroups[i].row).value)
  {
    var m, remap, source := BackupRemaps(db, b), TalkgroupImport(db, b).1, b.dirMonitors[k];
    AddedDirMonitorAt(db.dirMonitors, b.dirMonitors, m.systems, remap, k);
    if source.system.Some? {
      SystemResolves(db.systems, b.systems, source.system.value);
    }
    if source.talkgroup.Some? {
      RestoredFrom(db, b, source.talkgroup.value);
    }
    forall i | 0 <= i < |b.talkgroups| && source.talkgroup == Some(b.talkgroups[i].id)
      ensures b.talkgroups[i].id in remap <==> SourceView(b, b.talkgroups[i].row).Some?
    {
      RestoredIds(db, b, i);
    }
    forall i | 0 <= i < |b.talkgroups| && SourceView(b, b.talkgroups[i].row).Some?
    {
      TalkgroupsRestored(db, b, i);
    }
    hide BackupRemaps, Translated, SourceView, EnsureAll, UpsertAll, AddDirMonitors, ViewOf;
  }

  /** Only exported talkgroups get a new id. */
  lemma RestoredFrom(db: Db, b: Backup, id: int)
    requires SoundDb(db)
    ensures id in TalkgroupImport(db, b).1 ==> exists i :: 0 <= i < |b.talkgroups| && b.talkgroups[i].id == id
  {
    var m := BackupRemaps(db, b);
    var list := Translated(b.talkgroups, m);
    UpsertAllFrame(db.talkgroups, TalkgroupKey, list);
    if id in TalkgroupImport(db, b).1 {
      var j := LookupIndex(list, id);
      var i := TranslatedFrom(b.talkgroups, m, j);
    }
  }

  lemma RestoredIds(db: Db, b: Backup, i: nat)
    requires SoundDb(db) && WellFormed(b) && i < |b.talkgroups|
    ensures b.talkgroups[i].id in TalkgroupImport(db, b).1 <==> SourceView(b, b.talkgroups[i].row).Some?
  {
    var m := BackupRemaps(db, b);
    var list := Translated(b.talkgroups, m);
    UpsertAllFrame(db.talkgroups, TalkgroupKey, list);
    if SourceView(b, b.talkgroups[i].row).Some? {
      TalkgroupsRestored(db, b, i);
    } else if b.talkgroups[i].id in Ids(list) {
      var j := LookupIndex(list, b.talkgroups[i].id);
      var h := TranslatedFrom(b.talkgroups, m, j);
      TranslationMeans(db, b, b.talkgroups[h].row);
      assert false;
    }
  }
}
