/** `AddNewTorrent` of the PostgreSQL engine, which may abandon a torrent in the middle of its files. */
module Postgres {
  import opened Bytes
  import opened Store

  const TWO_31 := 0x8000_0000

  datatype PgTorrent = PgTorrent(infoHash: Hash, name: string, totalSize: int, discoveredOn: int)
  datatype PgDb = PgDb(torrents: map<int, PgTorrent>, files: seq<FileRow>)

  predicate PgExists(db: PgDb, infoHash: Hash) {
    exists id :: id in db.torrents && db.torrents[id].infoHash == infoHash
  }

  /** `discovered_on` is a 32-bit INTEGER here and `total_size` a BIGINT, both checked positive. */
  predicate PgStorable(db: PgDb, infoHash: Hash, files: seq<File>, now: int) {
    && 0 < SumSizes(files) % TWO_64 < TWO_63
    && !PgExists(db, infoHash)
    && 0 < now < TWO_31
  }

  function PgWithTorrent(db: PgDb, id: int, infoHash: Hash, name: string, files: seq<File>, now: int): PgDb {
    PgDb(db.torrents[id := PgTorrent(infoHash, name, SumSizes(files) % TWO_64, now)],
         db.files + RowsOf(id, files))
  }

  ghost predicate PgSizesAgree(db: PgDb) {
    && (forall id :: id in db.torrents ==>
          0 < db.torrents[id].totalSize && db.torrents[id].totalSize == StoredSize(db.files, id))
    && forall f :: f in db.files ==> f.torrentId in db.torrents
  }

  /** Totals stay positive and equal to the stored file sums exactly when the true sum is a
      positive int64. */
  lemma PgAddKeepsSizes(db: PgDb, id: int, infoHash: Hash, name: string, files: seq<File>, now: int)
    requires PgSizesAgree(db) && id !in db.torrents && PgStorable(db, infoHash, files, now)
    ensures PgSizesAgree(PgWithTorrent(db, id, infoHash, name, files, now)) <==> 0 < SumSizes(files) < TWO_63
  {
    var after := PgWithTorrent(db, id, infoHash, name, files, now);
    assert id in after.torrents;
    forall other | other in after.torrents
      ensures StoredSize(after.files, other) == if other == id then SumSizes(files) else StoredSize(db.files, other)
    {
      StoredSizeConcat(db.files, RowsOf(id, files), other);
      StoredSizeOfRows(id, files, other);
      if other == id { StoredSizeAbsent(db.files, id); }
    }
  }

  /** Field by field, one more torrent: its own row and file rows, and everything else as it was. */
  ghost predicate PgStoredInFull(before: PgDb, after: PgDb, id: int, infoHash: Hash, name: string, files: seq<File>, now: int) {
    && after.torrents.Keys == before.torrents.Keys + {id}
    && (forall other :: other in before.torrents ==> after.torrents[other] == before.torrents[other])
    && after.torrents[id].infoHash == infoHash && after.torrents[id].name == name && after.torrents[id].discoveredOn == now
    && after.torrents[id].totalSize == SumSizes(files) % TWO_64
    && FilesAppended(before.files, after.files, id, files)
  }

  lemma PgAddedInFull(db: PgDb, id: int, infoHash: Hash, name: string, files: seq<File>, now: int)
    requires id !in db.torrents
    ensures PgStoredInFull(db, PgWithTorrent(db, id, infoHash, name, files, now), id, infoHash, name, files, now)
  {
  }

  /** How the inserts of the file rows end. */
  datatype Filing = Filed(rows: seq<FileRow>) | NotUtf8 | Broken

  class PostgresDatabase {
    var committed: PgDb
    const utf8: string -> bool  // unicode/utf8.ValidString

    constructor (db: PgDb, utf8: string -> bool)
      ensures committed == db && this.utf8 == utf8
    {
      committed := db;
      this.utf8 := utf8;
    }

    /** The inserts of the file rows, up to the first path that is not UTF-8 or the first that fails. */
    method InsertFiles(before: seq<FileRow>, id: int, files: seq<File>, faults: set<nat>) returns (r: Filing)
      ensures r.Filed? <==> (forall f | f in files :: utf8(f.path)) && forall k | 4 <= k < |files| + 4 :: k !in faults
      ensures r.Filed? ==> r.rows == before + RowsOf(id, files)
      ensures r.Broken? ==> exists k: nat :: 4 <= k < |files| + 4 && k in faults
    {
      var rows := before;
      for i := 0 to |files|
        invariant rows == before + RowsOf(id, files[..i])
        invariant forall k | 0 <= k < i :: utf8(files[k].path)
        invariant forall k | 4 <= k < i + 4 :: k !in faults
      {
        if !utf8(files[i].path) {
          assert files[i] in files;
          return NotUtf8;
        }
        if 4 + i in faults { return Broken; }
        assert RowsOf(id, files[..i + 1]) == RowsOf(id, files[..i]) + [FileRow(id, files[i].size, files[i].path)];
        rows := rows + [FileRow(id, files[i].size, files[i].path)];
      }
      assert files[..|files|] == files;
      return Filed(rows);
    }

    /** `faults` numbers failing database calls as in the SQLite engine. A file whose path is not
        UTF-8 makes the call return without an error and without the torrent. */
    method AddNewTorrent(infoHash: Hash, name: string, files: seq<File>,
                         now: int, id: int, faults: set<nat>) returns (status: Status)
      requires id !in committed.torrents
      modifies this`committed
      ensures committed == old(committed) ||
              (status == Done && committed == PgWithTorrent(old(committed), id, infoHash, name, files, now))
      ensures committed != old(committed) <==>
              && PgStorable(old(committed), infoHash, files, now)
              && utf8(name)
              && (forall f | f in files :: utf8(f.path))
              && forall k | 0 <= k <= |files| + 4 :: k == 2 || k !in faults
      ensures status == Failed(UniqueViolated) ==> PgExists(old(committed), infoHash) && 2 in faults
      ensures (forall i, j | i in old(committed).torrents && j in old(committed).torrents && i != j ::
                 old(committed).torrents[i].infoHash != old(committed).torrents[j].infoHash) ==>
              forall i, j | i in committed.torrents && j in committed.torrents && i != j ::
                committed.torrents[i].infoHash != committed.torrents[j].infoHash
      ensures committed != old(committed) ==> PgStoredInFull(old(committed), committed, id, infoHash, name, files, now)
      // The status when no call fails.
      ensures faults == {} ==>
              status == if !utf8(name) || SumSizes(files) % TWO_64 == 0 || PgExists(old(committed), infoHash) then Done
                        else if SumSizes(files) % TWO_64 >= TWO_63 || !(-TWO_31 <= now < TWO_31) then Failed(NotAnInt64)
                        else if now <= 0 then Failed(CheckViolated) else Done
      ensures status == Failed(Unavailable) ==> exists k: nat :: k in faults && k != 2
    {
      PgAddedInFull(committed, id, infoHash, name, files, now);
      if !utf8(name) { return Done; }
      if 0 in faults { return Failed(Unavailable); }
      var tx := committed;
      var totalSize := TotalSize(files);
      if totalSize == 0 { return Done; }
      if 1 in faults { return Failed(Unavailable); }
      if 2 !in faults && PgExists(committed, infoHash) { return Done; }
      if 3 in faults { return Failed(Unavailable); }
      if totalSize >= TWO_63 || !(-TWO_31 <= now < TWO_31) { return Failed(NotAnInt64); }
      if PgExists(tx, infoHash) { return Failed(UniqueViolated); }
      if now <= 0 { return Failed(CheckViolated); }
      tx := tx.(torrents := tx.torrents[id := PgTorrent(infoHash, name, totalSize, now)]);
      var filing := InsertFiles(tx.files, id, files, faults);
      if filing.NotUtf8? { return Done; }
      if filing.Broken? { return Failed(Unavailable); }
      tx := tx.(files := filing.rows);
      if 4 + |files| in faults { return Failed(Unavailable); }
      assert id in tx.torrents;
      committed := tx;
      return Done;
    }
  }
}
