/** `setupDatabase` of the SQLite engine: the fall-through chain of schema upgrades to version 3. */
module Migration {
  import opened Bytes
  import opened Store

  /** A row of `torrents` under any schema version; `modifiedOn` is None while the column is missing. */
  datatype Record = Record(infoHash: Hash, name: string, totalSize: int, discoveredOn: int,
                           updatedOn: Option<int>, modifiedOn: Option<int>)

  /** A database file; `index` is None while `torrents_idx` and its triggers are missing. */
  datatype Disk = Disk(version: int, records: map<int, Record>, files: seq<FileRow>, index: Option<Index>)

  predicate RepeatsHash(records: map<int, Record>) {
    exists i, j :: i in records && j in records && i != j && records[i].infoHash == records[j].infoHash
  }

  /** A discovery later than the default of `modified_on`. */
  predicate Overdue(records: map<int, Record>) {
    exists id :: id in records && records[id].discoveredOn > FAR
  }

  /** `MAX(discovered_on, IFNULL(updated_on, 0))`. */
  function LastModified(r: Record): int {
    var updated := if r.updatedOn.Some? then r.updatedOn.value else 0;
    if updated > r.discoveredOn then updated else r.discoveredOn
  }

  ghost predicate IndexHolds(index: Index, records: map<int, Record>, ids: set<int>) {
    forall id, name :: Postings(index, id, name) ==
      if id in ids && id in records && records[id].name == name then 1 else 0
  }

  /** The record after the upgrade from `version`: the columns it lacked get their defaults. */
  function Upgraded(version: int, r: Record): Record {
    var r2 := if version < 2 then r.(updatedOn := None) else r;
    r2.(modifiedOn := Some(LastModified(r2)))
  }

  /** Version 3 with every torrent and file kept, `modified_on` set to the later of discovery and
      update, and one posting per torrent. */
  ghost predicate Migrated(before: Disk, after: Disk) {
    && after.version == 3
    && after.files == before.files
    && after.records.Keys == before.records.Keys
    && (forall id :: id in before.records ==> after.records[id] == Upgraded(before.version, before.records[id]))
    && after.index.Some? && IndexHolds(after.index.value, after.records, after.records.Keys)
  }

  /** Field by field, what `Migrated` says of a kept row: nothing but the new columns changes, and
      `modified_on` is the later of the two dates. A column that the old version lacks counts as NULL. */
  lemma MigratedRow(before: Disk, after: Disk, id: int)
    requires Migrated(before, after) && id in before.records
    ensures id in after.records
    ensures var b, a := before.records[id], after.records[id];
            && a.infoHash == b.infoHash && a.name == b.name && a.totalSize == b.totalSize && a.discoveredOn == b.discoveredOn
            && a.updatedOn == (if before.version < 2 then None else b.updatedOn)
            && a.modifiedOn.Some? && a.modifiedOn.value >= a.discoveredOn
            && (a.updatedOn.Some? ==> a.modifiedOn.value >= a.updatedOn.value)
            && (b.discoveredOn > 0 ==> a.modifiedOn == Some(a.discoveredOn) || a.modifiedOn == a.updatedOn)
  {
  }

  lemma SomeMember(ids: set<int>)
    requires ids != {}
    ensures exists id :: id in ids
  {
    assert (forall id :: id !in ids) ==> ids == {};
  }

  /** `INSERT INTO torrents_idx(rowid, name) SELECT id, name FROM torrents`. */
  method Populate(records: map<int, Record>) returns (index: Index)
    ensures IndexHolds(index, records, records.Keys)
  {
    index := map[];
    var todo := records.Keys;
    while todo != {}
      invariant todo <= records.Keys && IndexHolds(index, records, records.Keys - todo)
      decreases todo
    {
      SomeMember(todo);
      var id :| id in todo;
      ghost var before := index;
      index := Post(index, id, records[id].name, 1);
      forall i, name ensures Postings(index, i, name) ==
        if i in records.Keys - (todo - {id}) && i in records && records[i].name == name then 1 else 0
      {
        assert Postings(before, i, name) == if i in records.Keys - todo && i in records && records[i].name == name then 1 else 0;
      }
      todo := todo - {id};
    }
  }

  /** `UPDATE torrents SET modified_on = ...`: every updated row fires `torrents_idx_au_t`. */
  method SetModified(old_: map<int, Record>, index0: Index) returns (records: map<int, Record>, index: Index)
    requires IndexHolds(index0, old_, old_.Keys)
    ensures records.Keys == old_.Keys
    ensures forall id :: id in old_ ==> records[id] == old_[id].(modifiedOn := Some(LastModified(old_[id])))
    ensures forall id :: id in old_ ==>
              var r := records[id];
              && r.modifiedOn.Some? && r.modifiedOn.value >= r.discoveredOn
              && (r.updatedOn.Some? ==> r.modifiedOn.value >= r.updatedOn.value)
              && (r.discoveredOn > 0 ==> r.modifiedOn == Some(r.discoveredOn) || r.modifiedOn == r.updatedOn)
    ensures IndexHolds(index, records, records.Keys)
  {
    records, index := old_, index0;
    var todo := old_.Keys;
    while todo != {}
      invariant todo <= old_.Keys && records.Keys == old_.Keys
      invariant forall id :: id in old_ ==>
        records[id] == if id in todo then old_[id] else old_[id].(modifiedOn := Some(LastModified(old_[id])))
      invariant IndexHolds(index, records, records.Keys)
      decreases todo
    {
      SomeMember(todo);
      var id :| id in todo;
      ghost var before, before' := index, records;
      var name := records[id].name;
      index := Post(Post(index, id, name, -1), id, name, 1);
      records := records[id := records[id].(modifiedOn := Some(LastModified(records[id])))];
      forall i, n ensures Postings(index, i, n) == if i in records && records[i].name == n then 1 else 0 {
        assert Postings(before, i, n) == if i in before' && before'[i].name == n then 1 else 0;
      }
      todo := todo - {id};
    }
  }

  /** From version 2 to 3. `testsExisting` tells whether ADD COLUMN tests its CHECK against the rows
      already there, which depends on the SQLite release. */
  method AddIndexAndModified(d: Disk, testsExisting: bool) returns (r: Option<Disk>)
    requires d.version == 2
    ensures r.None? <==> testsExisting && Overdue(d.records)
    ensures r.Some? ==> Migrated(d, r.value)
  {
    var index := Populate(d.records);
    if testsExisting && Overdue(d.records) { return None; }
    var added := map id | id in d.records :: d.records[id].(modifiedOn := Some(FAR));
    assert forall id, name :: Postings(index, id, name) == if id in added && added[id].name == name then 1 else 0;
    var records;
    records, index := SetModified(added, index);
    return Some(Disk(3, records, d.files, Some(index)));
  }

  /** From version 1 to 2: the new columns are NULL everywhere. */
  function AddUpdatedOn(d: Disk): Disk {
    d.(version := 2, records := map id | id in d.records :: d.records[id].(updatedOn := None))
  }

  lemma UpgradeFromOlder(d: Disk, after: Disk)
    requires 0 <= d.version <= 1 && Migrated(AddUpdatedOn(d), after)
    ensures Migrated(d, after)
  {
    var mid := AddUpdatedOn(d);
    assert mid.records.Keys == d.records.Keys;
    assert forall id | id in d.records :: Upgraded(2, mid.records[id]) == Upgraded(d.version, d.records[id]);
  }

  lemma SameDates(d: Disk)
    ensures Overdue(AddUpdatedOn(d).records) <==> Overdue(d.records)
  {
    assert AddUpdatedOn(d).records.Keys == d.records.Keys;
    if Overdue(d.records) {
      var id :| id in d.records && d.records[id].discoveredOn > FAR;
      assert AddUpdatedOn(d).records[id].discoveredOn > FAR;
    }
  }

  class Sqlite3File {
    var disk: Disk

    constructor (d: Disk)
      ensures disk == d
    {
      disk := d;
    }

    /** `faults` numbers the steps at which the engine fails: 0 the base tables, 1 to 3 the three
        upgrades, 4 the commit. Any return before the commit rolls everything back. */
    method SetupDatabase(testsExisting: bool, faults: set<nat>) returns (ok: bool)
      modifies this
      ensures !ok ==> disk == old(disk)
      ensures ok ==> if 0 <= old(disk).version <= 2 then Migrated(old(disk), disk) else disk == old(disk)
      // Every row is kept, with its old columns and the later of its dates.
      ensures ok && 0 <= old(disk).version <= 2 ==> forall id :: id in old(disk).records ==>
        && id in disk.records
        && var b, a := old(disk).records[id], disk.records[id];
        && a.infoHash == b.infoHash && a.name == b.name && a.totalSize == b.totalSize && a.discoveredOn == b.discoveredOn
        && a.updatedOn == (if old(disk).version < 2 then None else b.updatedOn)
        && a.modifiedOn.Some? && a.modifiedOn.value >= a.discoveredOn
        && (a.updatedOn.Some? ==> a.modifiedOn.value >= a.updatedOn.value)
        && (a.discoveredOn > 0 ==> a.modifiedOn == Some(a.discoveredOn) || a.modifiedOn == a.updatedOn)
      ensures ok && 0 <= old(disk).version <= 2 ==>
        disk.version == 3 && disk.files == old(disk).files && disk.records.Keys == old(disk).records.Keys && disk.index.Some?
      ensures faults == {} ==>
        (!ok <==> || (old(disk).version == 0 && RepeatsHash(old(disk).records))
                  || (0 <= old(disk).version <= 2 && testsExisting && Overdue(old(disk).records)))
      // Row by row: a hash stored twice stops the first upgrade, a discovery after the year 2999 the last.
      ensures faults == {} && old(disk).version == 0 && ok ==>
        forall i, j | i in old(disk).records && j in old(disk).records && i != j ::
          old(disk).records[i].infoHash != old(disk).records[j].infoHash
      ensures faults == {} && 1 <= old(disk).version <= 2 && !ok ==>
        testsExisting && exists id :: id in old(disk).records && old(disk).records[id].discoveredOn > 32503680000
      ensures 0 <= old(disk).version <= 2 && testsExisting && ok ==>
        forall id | id in old(disk).records :: old(disk).records[id].discoveredOn <= 32503680000
    {
      if 0 in faults { return false; }
      var tx := disk;
      if tx.version == 0 {
        if 1 in faults || RepeatsHash(tx.records) { return false; }
        tx := tx.(version := 1);
      }
      if tx.version == 1 {
        if 2 in faults { return false; }
        SameDates(tx);
        tx := AddUpdatedOn(tx);
      }
      if tx.version == 2 {
        if 3 in faults { return false; }
        var upgraded := AddIndexAndModified(tx, testsExisting);
        if upgraded.None? { return false; }
        if disk.version < 2 { UpgradeFromOlder(disk, upgraded.value); }
        tx := upgraded.value;
      }
      if 4 in faults { return false; }
      if 0 <= disk.version <= 2 {
        forall id | id in disk.records ensures id in tx.records { MigratedRow(disk, tx, id); }
      }
      disk := tx;
      return true;
    }

    /** Whatever a first start has left, a second one leaves as it is, unless the first one failed. */
    method SetupTwice(testsExisting: bool, faults: set<nat>, laterFaults: set<nat>) returns (ok: bool, once: Disk)
      modifies this
      ensures ok && 0 <= old(disk).version <= 2 ==> Migrated(old(disk), once)
      ensures ok ==> disk == once
    {
      ok := SetupDatabase(testsExisting, faults);
      once := disk;
      var again := SetupDatabase(testsExisting, laterFaults);
    }
  }

  /** The store that a version 3 file holds. */
  function AsDb(d: Disk): Db {
    Db(map id | id in d.records ::
         var r := d.records[id];
         Torrent(r.infoHash, r.name, r.totalSize, r.discoveredOn, r.updatedOn,
                 if r.modifiedOn.Some? then r.modifiedOn.value else 0),
       d.files,
       if d.index.Some? then d.index.value else map[])
  }

  /** What the constraints of the older schemas guarantee. */
  ghost predicate OldSchemaHolds(d: Disk) {
    && !RepeatsHash(d.records)
    && (forall id :: id in d.records ==>
          && d.records[id].totalSize > 0 && d.records[id].discoveredOn > 0
          && (d.records[id].updatedOn.Some? ==> d.records[id].updatedOn.value > 0))
    && forall f :: f in d.files ==> f.torrentId in d.records
  }

  /** A migrated file is a sound store: what is proved of AddNewTorrent, of the triggers and of
      paging starts from here. */
  lemma MigratedIsSound(before: Disk, after: Disk)
    requires OldSchemaHolds(before) && Migrated(before, after)
    ensures Sound(AsDb(after))
  {
    var db := AsDb(after);
    forall id, name ensures Postings(db.index, id, name) ==
      if id in db.torrents && db.torrents[id].name == name then 1 else 0
    {
      assert Postings(after.index.value, id, name) ==
        if id in after.records && after.records[id].name == name then 1 else 0;
    }
  }
}
