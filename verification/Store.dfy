/**
 The `torrents` and `files` tables of the SQLite engine, the full-text index over torrent names,
 the triggers that keep the index and `modified_on` in step, and `AddNewTorrent`.
 */
module Store {
  import opened Bytes

  /** The default of column `modified_on`: January 1, 3000. */
  const FAR := 32503680000
  const TWO_63 := 0x8000_0000_0000_0000
  const TWO_64 := 0x1_0000_0000_0000_0000

  datatype File = File(size: int, path: string)

  datatype Torrent = Torrent(infoHash: Hash, name: string, totalSize: int,
                             discoveredOn: int, updatedOn: Option<int>, modifiedOn: int)

  datatype FileRow = FileRow(torrentId: int, size: int, path: string)

  /** The index counts, for every (rowid, name), insertions minus deletions of that posting. */
  type Index = map<(int, string), int>

  datatype Db = Db(torrents: map<int, Torrent>, files: seq<FileRow>, index: Index)

  datatype Cause = Unavailable | UniqueViolated | CheckViolated | NotAnInt64
  datatype Status = Done | Failed(cause: Cause)
  datatype Outcome = Ok(db: Db) | Refused(cause: Cause)

  predicate Exists(db: Db, infoHash: Hash) {
    exists id :: id in db.torrents && db.torrents[id].infoHash == infoHash
  }

  function Postings(index: Index, id: int, name: string): int {
    if (id, name) in index then index[(id, name)] else 0
  }

  function Post(index: Index, id: int, name: string, delta: int): Index {
    index[(id, name) := Postings(index, id, name) + delta]
  }

  // ---------------------------------------------------------------------------------------------
  // Row statements and their triggers
  // ---------------------------------------------------------------------------------------------

  /** SQLite does not specify in which order the two AFTER INSERT triggers fire. */
  datatype FiringOrder = IndexFirst | ModifiedFirst

  /** The CHECK constraints. The one on `modified_on` compares with `updated_on` only where the
      comparison is NULL, and SQLite accepts a CHECK that evaluates to NULL. */
  predicate CheckRow(t: Torrent) {
    && t.totalSize > 0
    && t.discoveredOn > 0
    && (t.updatedOn.Some? ==> t.updatedOn.value > 0)
    && t.modifiedOn >= t.discoveredOn
  }

  /** An UPDATE of one row, followed by trigger `torrents_idx_au_t`. */
  function UpdateRow(db: Db, id: int, newId: int, row: Torrent): Db
    requires id in db.torrents
  {
    var index := Post(db.index, id, db.torrents[id].name, -1);
    Db((db.torrents - {id})[newId := row], db.files, Post(index, newId, row.name, 1))
  }

  /** Trigger `torrents_idx_ai_t`. */
  function IndexInserted(db: Db, id: int, row: Torrent): Db {
    db.(index := Post(db.index, id, row.name, 1))
  }

  /** Trigger `torrents_modified_on_default_t`; its UPDATE fires `torrents_idx_au_t`. */
  function DefaultModified(db: Db, id: int, row: Torrent): Db
    requires id in db.torrents
  {
    if row.modifiedOn != FAR then db
    else UpdateRow(db, id, id, db.torrents[id].(modifiedOn := row.discoveredOn))
  }

  function InsertRow(db: Db, id: int, row: Torrent, order: FiringOrder): Db {
    var inserted := db.(torrents := db.torrents[id := row]);
    if order == IndexFirst
    then DefaultModified(IndexInserted(inserted, id, row), id, row)
    else IndexInserted(DefaultModified(inserted, id, row), id, row)
  }

  datatype Statement =
    | Insert(id: int, row: Torrent, order: FiringOrder)
    | Update(id: int, newId: int, row: Torrent)
    | Delete(id: int)

  /** A row outside `except` already has the key or the hash. */
  predicate Taken(db: Db, except: set<int>, id: int, infoHash: Hash) {
    || (id in db.torrents && id !in except)
    || exists other :: other in db.torrents && other !in except && db.torrents[other].infoHash == infoHash
  }

  function Execute(db: Db, s: Statement): Outcome {
    match s
    case Insert(id, row, order) =>
      if Taken(db, {}, id, row.infoHash) then Refused(UniqueViolated)
      else if !CheckRow(row) then Refused(CheckViolated)
      else Ok(InsertRow(db, id, row, order))
    case Update(id, newId, row) =>
      if id !in db.torrents then Ok(db)
      else if Taken(db, {id}, newId, row.infoHash) then Refused(UniqueViolated)
      else if !CheckRow(row) then Refused(CheckViolated)
      else if id != newId && exists f :: f in db.files && f.torrentId == id then Refused(CheckViolated)
      else Ok(UpdateRow(db, id, newId, row))
    case Delete(id) =>
      if id !in db.torrents then Ok(db)
      else Ok(Db(db.torrents - {id},
                 Without(db.files, id),
                 Post(db.index, id, db.torrents[id].name, -1)))
  }

  /** ON DELETE CASCADE. */
  function Without(files: seq<FileRow>, id: int): (r: seq<FileRow>)
    ensures forall f :: f in r <==> f in files && f.torrentId != id
  {
    if files == [] then [] else
    var rest := Without(files[..|files| - 1], id);
    var last := files[|files| - 1];
    assert files == files[..|files| - 1] + [last];
    if last.torrentId == id then rest else rest + [last]
  }

  /** Runs statements one after another; a refused one changes nothing. */
  function ExecuteAll(db: Db, script: seq<Statement>): Db {
    if script == [] then db else
    var before := ExecuteAll(db, script[..|script| - 1]);
    match Execute(before, script[|script| - 1])
    case Ok(after) => after
    case Refused(_) => before
  }

  /** Exactly one posting per row, and none besides. */
  ghost predicate IndexAgrees(db: Db) {
    forall id, name :: Postings(db.index, id, name) ==
      if id in db.torrents && db.torrents[id].name == name then 1 else 0
  }

  ghost predicate UniqueHashes(db: Db) {
    forall i, j | i in db.torrents && j in db.torrents && i != j ::
      db.torrents[i].infoHash != db.torrents[j].infoHash
  }

  ghost predicate FilesReferenced(db: Db) {
    forall f :: f in db.files ==> f.torrentId in db.torrents
  }

  ghost predicate RowsChecked(db: Db) {
    forall id :: id in db.torrents ==> CheckRow(db.torrents[id])
  }

  ghost predicate Sound(db: Db) {
    IndexAgrees(db) && UniqueHashes(db) && FilesReferenced(db) && RowsChecked(db)
  }

  /** Whichever AFTER INSERT trigger fires first, the row, `modified_on` and the index end up the
      same: one posting more, although `ModifiedFirst` deletes a posting that is not there yet. */
  lemma InsertIsOrderFree(db: Db, id: int, row: Torrent, order: FiringOrder)
    ensures InsertRow(db, id, row, order) ==
      Db(db.torrents[id := row.(modifiedOn := if row.modifiedOn == FAR then row.discoveredOn else row.modifiedOn)],
         db.files, Post(db.index, id, row.name, 1))
  {
    var inserted := db.torrents[id := row];
    var dated := row.(modifiedOn := row.discoveredOn);
    assert (inserted - {id})[id := dated] == db.torrents[id := dated];
  }

  /** One statement on the index. */
  datatype Posting = Posting(id: int, name: string, delta: int)

  function PostAll(index: Index, ps: seq<Posting>): Index {
    if ps == [] then index else
    var p := ps[|ps| - 1];
    Post(PostAll(index, ps[..|ps| - 1]), p.id, p.name, p.delta)
  }

  /** The statements of trigger `torrents_idx_au_t`. */
  function UpdatePostings(id: int, name: string, newId: int, newName: string): seq<Posting> {
    [Posting(id, name, -1), Posting(newId, newName, 1)]
  }

  /** The postings that an insert makes one after another: the index trigger's own, and, if the
      default date is replaced, the two of the nested update. */
  function InsertPostings(id: int, row: Torrent, order: FiringOrder): seq<Posting> {
    var own := [Posting(id, row.name, 1)];
    var nested := if row.modifiedOn == FAR then UpdatePostings(id, row.name, id, row.name) else [];
    if order == IndexFirst then own + nested else nested + own
  }

  /** They are what the insert does to the index; on the way a posting is deleted that is not there
      if and only if the date trigger fires first and replaces the default. */
  lemma ModifiedFirstDeletesTooEarly(db: Db, id: int, row: Torrent, order: FiringOrder)
    requires Sound(db) && id !in db.torrents
    ensures InsertRow(db, id, row, order).index == PostAll(db.index, InsertPostings(id, row, order))
    ensures (exists k: nat :: k <= |InsertPostings(id, row, order)| &&
              Postings(PostAll(db.index, InsertPostings(id, row, order)[..k]), id, row.name) < 0) <==>
            order == ModifiedFirst && row.modifiedOn == FAR
  {
    var ps, own := InsertPostings(id, row, order), Posting(id, row.name, 1);
    assert Postings(db.index, id, row.name) == 0;
    assert ps[..0] == [] && ps[..|ps|] == ps;
    if row.modifiedOn != FAR {
      assert ps == [own];
      PostAllStep(db.index, ps, 0);
    } else {
      PostAllStep(db.index, ps, 0);
      PostAllStep(db.index, ps, 1);
      PostAllStep(db.index, ps, 2);
    }
  }

  lemma PostAllStep(index: Index, ps: seq<Posting>, k: nat)
    requires k < |ps|
    ensures var before := PostAll(index, ps[..k]);
            PostAll(index, ps[..k + 1]) == Post(before, ps[k].id, ps[k].name, ps[k].delta)
  {
    assert ps[..k + 1][..k] == ps[..k];
  }

  lemma InsertKeepsSound(db: Db, id: int, row: Torrent, order: FiringOrder)
    requires Sound(db) && !Taken(db, {}, id, row.infoHash) && CheckRow(row)
    ensures Sound(InsertRow(db, id, row, order))
  {
    InsertIsOrderFree(db, id, row, order);
    var after := InsertRow(db, id, row, order);
    forall i, name ensures Postings(after.index, i, name) ==
      if i in after.torrents && after.torrents[i].name == name then 1 else 0
    {
      assert Postings(db.index, i, name) == if i in db.torrents && db.torrents[i].name == name then 1 else 0;
    }
  }

  lemma UpdateKeepsSound(db: Db, id: int, newId: int, row: Torrent)
    requires Sound(db) && id in db.torrents && !Taken(db, {id}, newId, row.infoHash) && CheckRow(row)
    requires id == newId || forall f :: f in db.files ==> f.torrentId != id
    ensures Sound(UpdateRow(db, id, newId, row))
  {
    var after := UpdateRow(db, id, newId, row);
    forall i, name ensures Postings(after.index, i, name) ==
      if i in after.torrents && after.torrents[i].name == name then 1 else 0
    {
      assert Postings(db.index, i, name) == if i in db.torrents && db.torrents[i].name == name then 1 else 0;
    }
  }

  lemma DeleteKeepsSound(db: Db, id: int)
    requires Sound(db) && id in db.torrents
    ensures Execute(db, Delete(id)).Ok? && Sound(Execute(db, Delete(id)).db)
  {
    var after := Execute(db, Delete(id)).db;
    forall i, name ensures Postings(after.index, i, name) ==
      if i in after.torrents && after.torrents[i].name == name then 1 else 0
    {
      assert Postings(db.index, i, name) == if i in db.torrents && db.torrents[i].name == name then 1 else 0;
    }
  }

  /** Which statements are accepted, constraint by constraint: keys and hashes are unique, the checks of
      the columns hold, and a key that file rows refer to does not change. A delete always is. */
  lemma AcceptedStatements(db: Db, id: int, newId: int, row: Torrent, order: FiringOrder)
    ensures var checked := row.totalSize > 0 && row.discoveredOn > 0 && row.modifiedOn >= row.discoveredOn &&
                           (row.updatedOn.Some? ==> row.updatedOn.value > 0);
            && (Execute(db, Insert(id, row, order)).Ok? <==>
                  checked && id !in db.torrents && forall other | other in db.torrents :: db.torrents[other].infoHash != row.infoHash)
            && (id in db.torrents ==>
                  (Execute(db, Update(id, newId, row)).Ok? <==>
                     && checked && (newId == id || newId !in db.torrents)
                     && (forall other | other in db.torrents && other != id :: db.torrents[other].infoHash != row.infoHash)
                     && (newId == id || forall f | f in db.files :: f.torrentId != id)))
            && Execute(db, Delete(id)).Ok?
  {
  }

  /** What an accepted update and a delete do, row by row. */
  lemma ChangedRows(db: Db, id: int, newId: int, row: Torrent)
    requires id in db.torrents
    ensures var o := Execute(db, Update(id, newId, row));
            o.Ok? ==>
              && o.db.files == db.files && newId in o.db.torrents && o.db.torrents[newId] == row
              && forall other | other != id && other != newId ::
                   (other in o.db.torrents <==> other in db.torrents) &&
                   (other in db.torrents ==> o.db.torrents[other] == db.torrents[other])
    ensures var o := Execute(db, Delete(id));
            && o.Ok? && o.db.torrents.Keys == db.torrents.Keys - {id}
            && (forall other | other in o.db.torrents :: o.db.torrents[other] == db.torrents[other])
            && forall f :: f in o.db.files <==> f in db.files && f.torrentId != id
  {
  }

  /** After any script of inserts, updates and deletes the index holds one posting per row, hashes
      stay unique, and no file row dangles. */
  lemma {:induction false} ScriptKeepsSound(db: Db, script: seq<Statement>)
    requires Sound(db)
    ensures Sound(ExecuteAll(db, script))
  {
    if script != [] {
      ScriptKeepsSound(db, script[..|script| - 1]);
      var before := ExecuteAll(db, script[..|script| - 1]);
      match script[|script| - 1]
      case Insert(id, row, order) =>
        if !Taken(before, {}, id, row.infoHash) && CheckRow(row) { InsertKeepsSound(before, id, row, order); }
      case Update(id, newId, row) =>
        if id in before.torrents && Execute(before, script[|script| - 1]).Ok? {
          UpdateKeepsSound(before, id, newId, row);
        }
      case Delete(id) =>
        if id in before.torrents { DeleteKeepsSound(before, id); }
    }
  }

  // ---------------------------------------------------------------------------------------------
  // AddNewTorrent
  // ---------------------------------------------------------------------------------------------

  function SumSizes(files: seq<File>): int {
    if files == [] then 0 else SumSizes(files[..|files| - 1]) + files[|files| - 1].size
  }

  function RowsOf(id: int, files: seq<File>): seq<FileRow> {
    seq(|files|, i requires 0 <= i < |files| => FileRow(id, files[i].size, files[i].path))
  }

  /** What the store holds for one torrent: the sum of the sizes of its file rows. */
  function StoredSize(files: seq<FileRow>, id: int): int {
    if files == [] then 0 else
    var last := files[|files| - 1];
    StoredSize(files[..|files| - 1], id) + if last.torrentId == id then last.size else 0
  }

  /** The torrent passes the zero-size test, is new, and meets every constraint. */
  predicate Storable(db: Db, infoHash: Hash, files: seq<File>, now: int) {
    && 0 < SumSizes(files) % TWO_64 < TWO_63
    && !Exists(db, infoHash)
    && 0 < now <= FAR
  }

  /** What `AddNewTorrent` returns before any insert, if it does. Of the database calls, `faults`
      names those that fail: 0 begin, 1 the existence query, 2 its rows, 3 the torrent insert, 4 + i
      the insert of file i, and then the commit. */
  function EarlyReturn(db: Db, infoHash: Hash, files: seq<File>, faults: set<nat>): Option<Status> {
    if 0 in faults then Some(Failed(Unavailable))
    else if SumSizes(files) % TWO_64 == 0 then Some(Done)
    else if 1 in faults then Some(Failed(Unavailable))
    else if Exists(db, infoHash) && 2 !in faults then Some(Done)
    else None
  }

  /** What the inserts and the commit come to. */
  function InsertVerdict(db: Db, infoHash: Hash, files: seq<File>, now: int, faults: set<nat>): Status {
    if 3 in faults then Failed(Unavailable)
    else if SumSizes(files) % TWO_64 >= TWO_63 then Failed(NotAnInt64)
    else if Exists(db, infoHash) then Failed(UniqueViolated)
    else if !(0 < now <= FAR) then Failed(CheckViolated)
    else if exists k | 4 <= k <= |files| + 4 :: k in faults then Failed(Unavailable)
    else Done
  }

  function AddStatus(db: Db, infoHash: Hash, files: seq<File>, now: int, faults: set<nat>): Status {
    var early := EarlyReturn(db, infoHash, files, faults);
    if early.Some? then early.value else InsertVerdict(db, infoHash, files, now, faults)
  }

  predicate AddStores(db: Db, infoHash: Hash, files: seq<File>, now: int, faults: set<nat>) {
    EarlyReturn(db, infoHash, files, faults).None? && InsertVerdict(db, infoHash, files, now, faults) == Done
  }

  /** The store with one more torrent, discovered and modified at `now`, and exactly its files. */
  function WithTorrent(db: Db, id: int, infoHash: Hash, name: string, files: seq<File>, now: int): Db {
    Db(db.torrents[id := Torrent(infoHash, name, SumSizes(files) % TWO_64, now, None, now)],
       db.files + RowsOf(id, files),
       Post(db.index, id, name, 1))
  }

  lemma {:induction false} StoredSizeConcat(a: seq<FileRow>, b: seq<FileRow>, id: int)
    ensures StoredSize(a + b, id) == StoredSize(a, id) + StoredSize(b, id)
  {
    if b == [] {
      assert a + b == a;
    } else {
      assert (a + b)[..|a + b| - 1] == a + b[..|b| - 1];
      StoredSizeConcat(a, b[..|b| - 1], id);
    }
  }

  lemma {:induction false} StoredSizeOfRows(id: int, files: seq<File>, other: int)
    ensures StoredSize(RowsOf(id, files), other) == if other == id then SumSizes(files) else 0
  {
    if files != [] {
      assert RowsOf(id, files)[..|files| - 1] == RowsOf(id, files[..|files| - 1]);
      StoredSizeOfRows(id, files[..|files| - 1], other);
    }
  }

  lemma {:induction false} StoredSizeAbsent(files: seq<FileRow>, id: int)
    requires forall f :: f in files ==> f.torrentId != id
    ensures StoredSize(files, id) == 0
  {
    if files != [] { StoredSizeAbsent(files[..|files| - 1], id); }
  }

  /** Every stored total is the sum of the stored file sizes. */
  ghost predicate SizesAgree(db: Db) {
    forall id :: id in db.torrents ==> db.torrents[id].totalSize == StoredSize(db.files, id)
  }

  lemma AddKeepsSound(db: Db, id: int, infoHash: Hash, name: string, files: seq<File>, now: int)
    requires Sound(db) && id !in db.torrents && Storable(db, infoHash, files, now)
    ensures Sound(WithTorrent(db, id, infoHash, name, files, now))
  {
    var row := Torrent(infoHash, name, SumSizes(files) % TWO_64, now, None, FAR);
    InsertIsOrderFree(db, id, row, IndexFirst);
    InsertKeepsSound(db, id, row, IndexFirst);
    var after := WithTorrent(db, id, infoHash, name, files, now);
    assert after == InsertRow(db, id, row, IndexFirst).(files := after.files);
    forall f | f in after.files ensures f.torrentId in after.torrents {
      assert f in db.files || f in RowsOf(id, files);
    }
  }

  /** With one more torrent the totals equal the stored file sums exactly when they did before and the
      true sum is a positive int64; otherwise the 64-bit addition has wrapped. */
  lemma AddKeepsSizes(db: Db, id: int, infoHash: Hash, name: string, files: seq<File>, now: int)
    requires Sound(db) && id !in db.torrents && Storable(db, infoHash, files, now)
    ensures SizesAgree(WithTorrent(db, id, infoHash, name, files, now)) <==>
            SizesAgree(db) && 0 < SumSizes(files) < TWO_63
  {
    var after := WithTorrent(db, id, infoHash, name, files, now);
    assert forall other | other in db.torrents :: other in after.torrents && after.torrents[other] == db.torrents[other];
    forall other | other in after.torrents
      ensures StoredSize(after.files, other) == if other == id then SumSizes(files) else StoredSize(db.files, other)
    {
      StoredSizeConcat(db.files, RowsOf(id, files), other);
      StoredSizeOfRows(id, files, other);
      if other == id { StoredSizeAbsent(db.files, id); }
    }
    assert id in after.torrents;
  }

  /** One row per file, in order, behind the rows that were there. */
  ghost predicate FilesAppended(before: seq<FileRow>, after: seq<FileRow>, id: int, files: seq<File>) {
    && |after| == |before| + |files| && before <= after
    && forall i | 0 <= i < |files| ::
         var row := after[|before| + i]; row.torrentId == id && row.size == files[i].size && row.path == files[i].path
  }

  /** Field by field, one more torrent: its own row and file rows, and everything else as it was. */
  ghost predicate StoredInFull(before: Db, after: Db, id: int, infoHash: Hash, name: string, files: seq<File>, now: int) {
    && after.torrents.Keys == before.torrents.Keys + {id}
    && (forall other :: other in before.torrents ==> after.torrents[other] == before.torrents[other])
    && after.torrents[id].infoHash == infoHash && after.torrents[id].name == name
    && after.torrents[id].discoveredOn == after.torrents[id].modifiedOn == now
    && after.torrents[id].totalSize == SumSizes(files) % TWO_64
    && FilesAppended(before.files, after.files, id, files)
  }

  lemma AddedInFull(db: Db, id: int, infoHash: Hash, name: string, files: seq<File>, now: int)
    requires id !in db.torrents
    ensures StoredInFull(db, WithTorrent(db, id, infoHash, name, files, now), id, infoHash, name, files, now)
  {
  }

  /** The loop that adds `uint64(file.Size)` file by file. */
  method TotalSize(files: seq<File>) returns (total: int)
    ensures total == SumSizes(files) % TWO_64
  {
    total := 0;
    for i := 0 to |files|
      invariant total == SumSizes(files[..i]) % TWO_64
    {
      assert files[..i + 1][..i] == files[..i];
      total := (total + files[i].size % TWO_64) % TWO_64;
    }
    assert files[..|files|] == files;
  }

  class Sqlite3Database {
    var committed: Db

    constructor (db: Db)
      ensures committed == db
    {
      committed := db;
    }

    /** Whether a row has the hash, and whether an error is returned. A "yes" is always right. The
        error tested after the iteration is not the one returned, which is nil by then: so a wrong "no"
        comes without an error, exactly when the rows of a stored torrent are lost. */
    method DoesTorrentExist(infoHash: Hash, queryFails: bool, rowsFail: bool) returns (exists_: bool, err: bool)
      ensures exists_ ==> Exists(committed, infoHash) && !err
      ensures err <==> queryFails
      ensures !err && exists_ != Exists(committed, infoHash) <==> !queryFails && rowsFail && Exists(committed, infoHash)
    {
      err := queryFails;
      if err { return false, err; }
      var rows := set id | id in committed.torrents && committed.torrents[id].infoHash == infoHash;
      exists_ := !rowsFail && rows != {};
      if Exists(committed, infoHash) {
        ghost var id :| id in committed.torrents && committed.torrents[id].infoHash == infoHash;
        assert id in rows;
      }
      assert (forall id :: id !in rows) ==> rows == {};
      if rowsFail { return false, err; }
      return exists_, false;
    }

    /** The inserts of the file rows, up to the first that fails. */
    static method InsertFiles(tx: Db, id: int, files: seq<File>, faults: set<nat>) returns (after: Option<Db>)
      ensures after == if exists k | 4 <= k < |files| + 4 :: k in faults then None
                       else Some(tx.(files := tx.files + RowsOf(id, files)))
    {
      var rows := tx.files;
      for i := 0 to |files|
        invariant rows == tx.files + RowsOf(id, files[..i])
        invariant forall k | 4 <= k < i + 4 :: k !in faults
      {
        if 4 + i in faults { return None; }
        assert RowsOf(id, files[..i + 1]) == RowsOf(id, files[..i]) + [FileRow(id, files[i].size, files[i].path)];
        rows := rows + [FileRow(id, files[i].size, files[i].path)];
      }
      assert files[..|files|] == files;
      return Some(tx.(files := rows));
    }

    /** `tx` is what the transaction sees; every return without commit rolls it back. */
    method AddNewTorrent(infoHash: Hash, name: string, files: seq<File>,
                         now: int, id: int, order: FiringOrder, faults: set<nat>) returns (status: Status)
      requires id > 0 && id !in committed.torrents
      modifies this
      ensures status == AddStatus(old(committed), infoHash, files, now, faults)
      // All or nothing: the new store is the old one, or the old one plus this torrent and its files.
      ensures committed == if AddStores(old(committed), infoHash, files, now, faults)
                           then WithTorrent(old(committed), id, infoHash, name, files, now) else old(committed)
      ensures committed != old(committed) <==>
              Storable(old(committed), infoHash, files, now) && forall k | 0 <= k <= |files| + 4 :: k == 2 || k !in faults
      // The insert meets its own hash only when the existence test lost its rows.
      ensures status == Failed(UniqueViolated) ==> Exists(old(committed), infoHash) && 2 in faults
      ensures committed != old(committed) ==> StoredInFull(old(committed), committed, id, infoHash, name, files, now)
      // The status when no call fails: a torrent that is empty or stored already is no error.
      ensures faults == {} ==>
              status == if SumSizes(files) % TWO_64 == 0 || Exists(old(committed), infoHash) then Done
                        else if SumSizes(files) % TWO_64 >= TWO_63 then Failed(NotAnInt64)
                        else if now <= 0 || now > FAR then Failed(CheckViolated) else Done
      ensures status == Failed(Unavailable) ==> exists k: nat :: k in faults && k != 2
      ensures 0 in faults || (1 in faults && SumSizes(files) % TWO_64 != 0) ==> status == Failed(Unavailable)
    {
      AddedInFull(committed, id, infoHash, name, files, now);
      if 0 in faults { return Failed(Unavailable); }
      var tx := committed;
      var totalSize := TotalSize(files);
      if totalSize == 0 { return Done; }
      var exist, err := DoesTorrentExist(infoHash, 1 in faults, 2 in faults);
      if exist || err { return if err then Failed(Unavailable) else Done; }
      if 3 in faults { return Failed(Unavailable); }
      if totalSize >= TWO_63 { return Failed(NotAnInt64); }
      var inserted := Execute(tx, Insert(id, Torrent(infoHash, name, totalSize, now, None, FAR), order));
      if inserted.Refused? { return Failed(inserted.cause); }
      InsertIsOrderFree(tx, id, Torrent(infoHash, name, totalSize, now, None, FAR), order);
      tx := inserted.db;
      var filed := InsertFiles(tx, id, files, faults);
      if filed == None { return Failed(Unavailable); }
      tx := filed.value;
      if 4 + |files| in faults { return Failed(Unavailable); }
      assert id in tx.torrents;
      committed := tx;
      return Done;
    }
  }
}
