/**
 Keyset pagination: the page query of `QueryTorrents`, and the browser's `load()`, which asks for
 page after page with the ordered value and the id of the last row it was given.
 */
module Paging {
  import opened Bytes
  import opened Store

  datatype Row = Row(id: int, infoHash: Hash, name: string, size: int, discoveredOn: int, nFiles: int)

  datatype OrderBy = ByRelevance | ByTotalSize | ByDiscoveredOn | ByNFiles | ByNSeeders | ByNLeechers | ByUpdatedOn

  /** The ORDER BY of one query: a criterion, a direction, and the bm25 rank of the matching rows. */
  datatype Order = Order(criterion: OrderBy, ascending: bool, rank: map<int, real>)

  /** A pair `(ordered value, id)`, compared as an SQL row value. */
  datatype Key = Key(value: real, id: int)

  /** `orderOn` panics on every other criterion. */
  predicate Supported(c: OrderBy) {
    c.ByRelevance? || c.ByTotalSize? || c.ByDiscoveredOn? || c.ByNFiles?
  }

  /** The columns that `orderOn` names, and `orderedValue` reads back in the browser. */
  function OrderedValue(o: Order, r: Row): real {
    match o.criterion
    case ByTotalSize => r.size as real
    case ByDiscoveredOn => r.discoveredOn as real
    case ByNFiles => r.nFiles as real
    case _ => if r.id in o.rank then o.rank[r.id] else 0.0
  }

  function KeyOf(o: Order, r: Row): Key {
    Key(OrderedValue(o, r), r.id)
  }

  predicate Less(a: Key, b: Key) {
    a.value < b.value || (a.value == b.value && a.id < b.id)
  }

  /** `a` comes before `b` in the direction of the order. */
  predicate Before(o: Order, a: Key, b: Key) {
    if o.ascending then Less(a, b) else Less(b, a)
  }

  ghost predicate DistinctIds(rows: set<Row>) {
    forall a, b | a in rows && b in rows && a != b :: a.id != b.id
  }

  predicate IsFirst(o: Order, rows: set<Row>, r: Row) {
    r in rows && forall x | x in rows && x != r :: Before(o, KeyOf(o, r), KeyOf(o, x))
  }

  lemma {:induction false} FirstExists(o: Order, rows: set<Row>)
    requires rows != {} && DistinctIds(rows)
    ensures exists r :: IsFirst(o, rows, r)
    decreases rows
  {
    var x :| x in rows;
    var others := rows - {x};
    if others == {} {
      assert rows == {x};
      assert IsFirst(o, rows, x);
    } else {
      FirstExists(o, others);
      var r :| IsFirst(o, others, r);
      assert IsFirst(o, rows, if Before(o, KeyOf(o, r), KeyOf(o, x)) then r else x);
    }
  }

  /** The rows, each once, in the given order. */
  ghost predicate IsListing(o: Order, rows: set<Row>, list: seq<Row>) {
    SortedList(o, list) && forall r :: r in list <==> r in rows
  }

  ghost predicate SortedList(o: Order, list: seq<Row>) {
    forall i, j | 0 <= i < j < |list| :: Before(o, KeyOf(o, list[i]), KeyOf(o, list[j]))
  }

  lemma {:induction false} ListingExists(o: Order, rows: set<Row>)
    requires DistinctIds(rows)
    ensures exists list :: IsListing(o, rows, list)
    decreases rows
  {
    if rows == {} {
      assert IsListing(o, rows, []);
    } else {
      FirstExists(o, rows);
      var first :| IsFirst(o, rows, first);
      ListingExists(o, rows - {first});
      var rest :| IsListing(o, rows - {first}, rest);
      ListingPrepends(o, rows, first, rest);
    }
  }

  lemma ListingPrepends(o: Order, rows: set<Row>, first: Row, rest: seq<Row>)
    requires IsFirst(o, rows, first) && IsListing(o, rows - {first}, rest)
    ensures IsListing(o, rows, [first] + rest)
  {
    forall r ensures r in [first] + rest <==> r in rows {
      assert r in [first] + rest <==> r == first || r in rest;
    }
    forall i | 0 <= i < |rest| ensures Before(o, KeyOf(o, first), KeyOf(o, rest[i])) {
      assert rest[i] in rest;
    }
  }

  /** ORDER BY. */
  ghost function Listing(o: Order, rows: set<Row>): (list: seq<Row>)
    requires DistinctIds(rows)
    ensures IsListing(o, rows, list)
  {
    ListingExists(o, rows);
    var list :| IsListing(o, rows, list);
    list
  }

  lemma EmptyListing(o: Order)
    ensures Listing(o, {}) == []
  {
    SortedUnique(o, Listing(o, {}), []);
  }

  /** A strictly sorted list is determined by its rows. */
  lemma {:induction false} SortedUnique(o: Order, a: seq<Row>, b: seq<Row>)
    requires SortedList(o, a) && SortedList(o, b)
    requires forall r :: r in a <==> r in b
    ensures a == b
  {
    if a == [] {
      assert forall i :: 0 <= i < |b| ==> b[i] in b;
    } else {
      assert a[0] in a && b != [] && b[0] in b;
      assert a[0] == b[0];
      var a', b' := a[1..], b[1..];
      forall r ensures r in a' <==> r in b' {
        if r in a' { assert r in a && r != a[0]; }
        if r in b' { assert r in b && r != b[0]; }
      }
      SortedUnique(o, a', b');
    }
  }

  /** The value `a` of row `i` comes before the value `b` of row `j`: by value, then by id. */
  predicate Ahead(ascending: bool, a: real, i: int, b: real, j: int) {
    if ascending then a < b || (a == b && i < j) else a > b || (a == b && i > j)
  }

  /** Column by column, how a list is sorted. */
  ghost predicate SortedByColumn(o: Order, list: seq<Row>) {
    forall i, j | 0 <= i < j < |list| ::
      var a, b := list[i], list[j];
      && (o.criterion.ByTotalSize? ==> Ahead(o.ascending, a.size as real, a.id, b.size as real, b.id))
      && (o.criterion.ByDiscoveredOn? ==> Ahead(o.ascending, a.discoveredOn as real, a.id, b.discoveredOn as real, b.id))
      && (o.criterion.ByNFiles? ==> Ahead(o.ascending, a.nFiles as real, a.id, b.nFiles as real, b.id))
      && (o.criterion.ByRelevance? && a.id in o.rank && b.id in o.rank ==>
            Ahead(o.ascending, o.rank[a.id], a.id, o.rank[b.id], b.id))
  }

  lemma ListingByColumn(o: Order, list: seq<Row>)
    requires SortedList(o, list)
    ensures SortedByColumn(o, list)
  {
    forall i, j | 0 <= i < j < |list| ensures Before(o, KeyOf(o, list[i]), KeyOf(o, list[j])) {}
  }

  // ---------------------------------------------------------------------------------------------
  // One page
  // ---------------------------------------------------------------------------------------------

  /** The row-value comparison of the WHERE clause; a first page has none. */
  function After(o: Order, rows: set<Row>, cursor: Option<Key>): set<Row> {
    set r | r in rows && (cursor.Some? ==> Before(o, cursor.value, KeyOf(o, r)))
  }

  /** WHERE, ORDER BY and LIMIT together. */
  ghost function Page(o: Order, rows: set<Row>, cursor: Option<Key>, limit: nat): seq<Row>
    requires DistinctIds(rows)
  {
    var all := Listing(o, After(o, rows, cursor));
    if limit <= |all| then all[..limit] else all
  }

  /** The rows after the key of the k-th row of the listing are the rest of the listing. */
  lemma AfterIsRest(o: Order, rows: set<Row>, k: nat)
    requires DistinctIds(rows) && k < |Listing(o, rows)|
    ensures Listing(o, After(o, rows, Some(KeyOf(o, Listing(o, rows)[k])))) == Listing(o, rows)[k + 1..]
  {
    var all := Listing(o, rows);
    var after := After(o, rows, Some(KeyOf(o, all[k])));
    var rest := all[k + 1..];
    forall r ensures r in rest <==> r in after {
      if r in after {
        var i :| 0 <= i < |all| && all[i] == r;
        assert i > k;
        assert rest[i - k - 1] == r;
      }
    }
    SortedUnique(o, Listing(o, after), rest);
  }

  function Min(a: nat, b: nat): nat {
    if a <= b then a else b
  }

  /** The cursor behind the first `k` rows of the listing. */
  ghost function CursorAt(o: Order, all: seq<Row>, k: nat): Option<Key>
    requires k <= |all|
  {
    if k == 0 then None else Some(KeyOf(o, all[k - 1]))
  }

  /** A page taken behind the first `k` rows is the next stretch of the listing. */
  lemma PageIsStretch(o: Order, rows: set<Row>, k: nat, limit: nat)
    requires DistinctIds(rows) && k <= |Listing(o, rows)|
    ensures var all := Listing(o, rows);
            Page(o, rows, CursorAt(o, all, k), limit) == all[k..Min(k + limit, |all|)]
  {
    var all := Listing(o, rows);
    if k == 0 {
      assert After(o, rows, None) == rows;
    } else {
      AfterIsRest(o, rows, k - 1);
    }
  }

  /** The listing starts with whichever row is first, and goes on with the listing of the others. */
  lemma ListingStarts(o: Order, rows: set<Row>, first: Row)
    requires DistinctIds(rows) && IsFirst(o, rows, first)
    ensures Listing(o, rows) == [first] + Listing(o, rows - {first})
  {
    var rest := Listing(o, rows - {first});
    ListingPrepends(o, rows, first, rest);
    SortedUnique(o, Listing(o, rows), [first] + rest);
  }

  // ---------------------------------------------------------------------------------------------
  // The table behind the pages
  // ---------------------------------------------------------------------------------------------

  /** A search text and the names that the full-text engine matches with it. */
  datatype Search = Search(text: string, matches: string -> bool)

  function CountFiles(files: seq<FileRow>, id: int): nat {
    if files == [] then 0 else
    CountFiles(files[..|files| - 1], id) + if files[|files| - 1].torrentId == id then 1 else 0
  }

  function RowOf(db: Db, id: int): Row
    requires id in db.torrents
  {
    var t := db.torrents[id];
    Row(id, t.infoHash, t.name, t.totalSize, t.discoveredOn, CountFiles(db.files, id))
  }

  /** Some posting of the row matches: the inner join with `torrents_idx MATCH ?`. */
  predicate Hit(index: Index, id: int, matches: string -> bool) {
    exists p :: p in index && p.0 == id && index[p] > 0 && matches(p.1)
  }

  predicate Selected(db: Db, q: Search, epoch: int, id: int) {
    && id in db.torrents
    && db.torrents[id].modifiedOn <= epoch
    && (q.text == "" || Hit(db.index, id, q.matches))
  }

  /** The rows that the query selects, before any cursor. */
  function Visible(db: Db, q: Search, epoch: int): (rows: set<Row>)
    ensures DistinctIds(rows)
  {
    set id | id in db.torrents && Selected(db, q, epoch, id) :: RowOf(db, id)
  }

  /** Row by row, what a query may return: the stored columns, the number of file rows, and only torrents
      modified by the epoch that match. */
  ghost predicate RowsRight(db: Db, q: Search, epoch: int, list: seq<Row>) {
    forall r :: r in list ==>
      && r.id in db.torrents
      && r.infoHash == db.torrents[r.id].infoHash && r.name == db.torrents[r.id].name
      && r.size == db.torrents[r.id].totalSize && r.discoveredOn == db.torrents[r.id].discoveredOn
      && r.nFiles == |FileRowsOf(db.files, r.id)|
      && db.torrents[r.id].modifiedOn <= epoch && (q.text == "" || q.matches(r.name))
  }

  function FileRowsOf(files: seq<FileRow>, id: int): set<int> {
    set i | 0 <= i < |files| && files[i].torrentId == id
  }

  lemma {:induction false} CountIsNumber(files: seq<FileRow>, id: int)
    ensures CountFiles(files, id) == |FileRowsOf(files, id)|
  {
    if files == [] {
      assert FileRowsOf(files, id) == {};
    } else {
      var front, n := files[..|files| - 1], |files| - 1;
      CountIsNumber(front, id);
      if files[n].torrentId == id {
        assert FileRowsOf(files, id) == FileRowsOf(front, id) + {n};
      } else {
        assert FileRowsOf(files, id) == FileRowsOf(front, id);
      }
    }
  }

  lemma VisibleRight(db: Db, q: Search, epoch: int, list: seq<Row>)
    requires IndexAgrees(db) && forall r :: r in list ==> r in Visible(db, q, epoch)
    ensures RowsRight(db, q, epoch, list)
  {
    forall r | r in list ensures r.nFiles == |FileRowsOf(db.files, r.id)| && (q.text == "" || q.matches(r.name)) {
      CountIsNumber(db.files, r.id);
      HitMatchesName(db, r.id, q.matches);
    }
  }

  /** Torrent by torrent, what a whole listing must hold. */
  ghost predicate HoldsAll(db: Db, q: Search, epoch: int, list: seq<Row>) {
    forall id :: id in db.torrents && db.torrents[id].modifiedOn <= epoch && (q.text == "" || q.matches(db.torrents[id].name)) ==>
      exists r :: r in list && r.id == id
  }

  lemma VisibleHoldsAll(db: Db, q: Search, epoch: int, list: seq<Row>)
    requires IndexAgrees(db) && forall r :: r in list <==> r in Visible(db, q, epoch)
    ensures HoldsAll(db, q, epoch, list)
  {
    forall id | id in db.torrents && db.torrents[id].modifiedOn <= epoch && (q.text == "" || q.matches(db.torrents[id].name))
      ensures exists r :: r in list && r.id == id
    {
      HitMatchesName(db, id, q.matches);
      assert RowOf(db, id) in list;
    }
  }

  /** In a sound store the join through the index selects by the stored name. */
  lemma HitMatchesName(db: Db, id: int, matches: string -> bool)
    requires IndexAgrees(db) && id in db.torrents
    ensures Hit(db.index, id, matches) <==> matches(db.torrents[id].name)
  {
    var name := db.torrents[id].name;
    assert Postings(db.index, id, name) == 1;
    assert db.index[(id, name)] > 0;
    forall p | p in db.index && p.0 == id && db.index[p] > 0 ensures p.1 == name {
      assert Postings(db.index, id, p.1) == db.index[(id, p.1)];
    }
  }

  lemma {:induction false} CountAppended(files: seq<FileRow>, more: seq<FileRow>, id: int)
    requires forall f :: f in more ==> f.torrentId != id
    ensures CountFiles(files + more, id) == CountFiles(files, id)
  {
    if more == [] {
      assert files + more == files;
    } else {
      assert (files + more)[..|files + more| - 1] == files + more[..|more| - 1];
      CountAppended(files, more[..|more| - 1], id);
    }
  }

  lemma OldRowsUnchanged(db: Db, c: AddCall, q: Search, epoch: int, old_: int)
    requires Sound(db) && Stores(db, c) && old_ in db.torrents
    ensures var after := Added(db, c);
            RowOf(after, old_) == RowOf(db, old_) && (Selected(after, q, epoch, old_) <==> Selected(db, q, epoch, old_))
  {
    var after := Added(db, c);
    CountAppended(db.files, RowsOf(c.id, c.files), old_);
    AddKeepsSound(db, c.id, c.infoHash, c.name, c.files, c.now);
    HitMatchesName(db, old_, q.matches);
    HitMatchesName(after, old_, q.matches);
  }

  /** One `AddNewTorrent` with its time and the row id it gets. */
  datatype AddCall = AddCall(infoHash: Hash, name: string, files: seq<File>, now: int, id: int)

  predicate Stores(db: Db, c: AddCall) {
    c.id > 0 && c.id !in db.torrents && Storable(db, c.infoHash, c.files, c.now)
  }

  function Added(db: Db, c: AddCall): Db {
    if Stores(db, c) then WithTorrent(db, c.id, c.infoHash, c.name, c.files, c.now) else db
  }

  function AddedAll(db: Db, calls: seq<AddCall>): Db
    decreases |calls|
  {
    if calls == [] then db else AddedAll(Added(db, calls[0]), calls[1..])
  }

  /** A stored torrent leaves the selection as it was exactly when it is discovered after the epoch
      or does not match: the same second is already too early. */
  lemma CommitInvisible(db: Db, c: AddCall, q: Search, epoch: int)
    requires Sound(db) && Stores(db, c)
    ensures Visible(Added(db, c), q, epoch) == Visible(db, q, epoch) <==>
            c.now > epoch || (q.text != "" && !q.matches(c.name))
  {
    var after := Added(db, c);
    AddKeepsSound(db, c.id, c.infoHash, c.name, c.files, c.now);
    HitMatchesName(after, c.id, q.matches);
    var old_, new_ := Visible(db, q, epoch), Visible(after, q, epoch);
    forall id | id in db.torrents
      ensures RowOf(after, id) == RowOf(db, id) && (Selected(after, q, epoch, id) <==> Selected(db, q, epoch, id))
    {
      OldRowsUnchanged(db, c, q, epoch, id);
    }
    var added := RowOf(after, c.id);
    forall r | r in old_ ensures r in new_ && r.id != c.id {
      assert Selected(after, q, epoch, r.id) && RowOf(after, r.id) == r;
    }
    forall r | r in new_ ensures r in old_ || r == added {
      if r.id != c.id { assert Selected(db, q, epoch, r.id) && RowOf(db, r.id) == r; }
    }
    assert added in new_ <==> Selected(after, q, epoch, c.id);
  }

  lemma {:induction false} CommitsInvisible(db: Db, calls: seq<AddCall>, q: Search, epoch: int)
    requires Sound(db) && forall c :: c in calls ==> c.now > epoch
    ensures Sound(AddedAll(db, calls)) && Visible(AddedAll(db, calls), q, epoch) == Visible(db, q, epoch)
    decreases |calls|
  {
    if calls != [] {
      if Stores(db, calls[0]) {
        AddKeepsSound(db, calls[0].id, calls[0].infoHash, calls[0].name, calls[0].files, calls[0].now);
        CommitInvisible(db, calls[0], q, epoch);
      }
      CommitsInvisible(Added(db, calls[0]), calls[1..], q, epoch);
    }
  }

  // ---------------------------------------------------------------------------------------------
  // The cursor on the wire
  // ---------------------------------------------------------------------------------------------

  /** The distance between neighbouring doubles around `n`. */
  function Ulp(n: nat): (u: nat)
    ensures u >= 1
  {
    if n < 0x20_0000_0000_0000 then 1 else 2 * Ulp(n / 2)
  }

  /** An integer as a double: to nearest, ties to even. JavaScript numbers and `*float64` are both. */
  function Float64(n: int): int
    decreases n < 0
  {
    if n < 0 then -Float64(-n) else
    var u := Ulp(n);
    var q, r := n / u, n % u;
    if 2 * r < u || (2 * r == u && q % 2 == 0) then q * u else (q + 1) * u
  }

  predicate IsPowerOf2(u: nat) {
    u == 1 || (u > 1 && u % 2 == 0 && IsPowerOf2(u / 2))
  }

  /** A double has 53 bits: the distance is the power of two that leaves `n` so many. */
  lemma {:induction false} Ulp53Bits(n: nat)
    ensures IsPowerOf2(Ulp(n)) && n < 0x20_0000_0000_0000 * Ulp(n)
    ensures Ulp(n) > 1 ==> 0x10_0000_0000_0000 * Ulp(n) <= n
    decreases n
  {
    if n >= 0x20_0000_0000_0000 { Ulp53Bits(n / 2); }
  }

  /** The conversion takes the nearest multiple of that distance, an even one on a tie. */
  lemma Float64Nearest(n: int) returns (q: nat)
    requires n >= 0
    ensures Float64(n) == q * Ulp(n)
    ensures 2 * (q * Ulp(n) - n) <= Ulp(n) && 2 * (n - q * Ulp(n)) <= Ulp(n)
    ensures 2 * (q * Ulp(n) - n) == Ulp(n) || 2 * (n - q * Ulp(n)) == Ulp(n) ==> q % 2 == 0
    ensures n > 0 ==> Float64(-n) == -Float64(n)
  {
    q := NearestMultiple(n, Ulp(n));
  }

  lemma NearestMultiple(n: nat, u: nat) returns (q: nat)
    requires u >= 1
    ensures q * u == if 2 * (n % u) < u || (2 * (n % u) == u && (n / u) % 2 == 0) then (n / u) * u else (n / u + 1) * u
    ensures 2 * (q * u - n) <= u && 2 * (n - q * u) <= u
    ensures 2 * (q * u - n) == u || 2 * (n - q * u) == u ==> q % 2 == 0
  {
    var down := n / u;
    assert n == down * u + n % u && (down + 1) * u == down * u + u;
    q := if 2 * (n % u) < u || (2 * (n % u) == u && down % 2 == 0) then down else down + 1;
  }

  lemma Float64Exact(n: int)
    requires -0x20_0000_0000_0000 <= n <= 0x20_0000_0000_0000
    ensures Float64(n) == n
  {
    var m := if n < 0 then -n else n;
    assert Ulp(m) == if m < 0x20_0000_0000_0000 then 1 else 2;
  }

  /** The key that comes back to the server after the browser has read it from the row. The rank is
      a double from the start. */
  function WireKey(o: Order, r: Row): Key {
    Key(match o.criterion
        case ByTotalSize => Float64(r.size) as real
        case ByDiscoveredOn => Float64(r.discoveredOn) as real
        case ByNFiles => Float64(r.nFiles) as real
        case _ => OrderedValue(o, r),
        Float64(r.id))
  }

  ghost predicate Exact(o: Order, rows: set<Row>) {
    forall r :: r in rows ==> WireKey(o, r) == KeyOf(o, r)
  }

  /** The cursor of the row survives the wire, or is rounded forward past no row. */
  ghost predicate Resumes(o: Order, rows: set<Row>, r: Row) {
    || WireKey(o, r) == KeyOf(o, r)
    || (Before(o, KeyOf(o, r), WireKey(o, r)) &&
        forall x :: x in rows && Before(o, KeyOf(o, r), KeyOf(o, x)) ==> Before(o, WireKey(o, r), KeyOf(o, x)))
  }

  /** Rows whose numbers stay within 2^53 have exact cursors. */
  lemma SmallRowsExact(o: Order, rows: set<Row>)
    requires forall r :: r in rows ==>
      && 0 <= r.id <= 0x20_0000_0000_0000 && 0 <= r.size <= 0x20_0000_0000_0000
      && 0 <= r.discoveredOn <= 0x20_0000_0000_0000 && 0 <= r.nFiles <= 0x20_0000_0000_0000
    ensures Exact(o, rows)
  {
    forall r | r in rows ensures WireKey(o, r) == KeyOf(o, r) {
      Float64Exact(r.id); Float64Exact(r.size); Float64Exact(r.discoveredOn); Float64Exact(r.nFiles);
    }
  }

  /** The rows behind the cursor as sent are those behind row `r` exactly under that condition. */
  lemma ResumesExactly(o: Order, rows: set<Row>, r: Row)
    requires r in rows
    ensures After(o, rows, Some(WireKey(o, r))) == After(o, rows, Some(KeyOf(o, r))) <==> Resumes(o, rows, r)
  {
    var w, k := WireKey(o, r), KeyOf(o, r);
    var sent, meant := After(o, rows, Some(w)), After(o, rows, Some(k));
    assert r !in meant;
    if Before(o, w, k) {
      assert r in sent;
    } else if w != k {
      assert Before(o, k, w);
      assert sent <= meant;
      if sent == meant {
        forall x | x in rows && Before(o, k, KeyOf(o, x)) ensures Before(o, w, KeyOf(o, x)) {
          assert x in meant;
        }
      }
    }
  }

  /** A page behind the cursor of the k-th row, as sent, is the next stretch of the listing if and only
      if the cursor resumes there; otherwise it starts too early or too late. */
  lemma PageResumesIff(o: Order, rows: set<Row>, k: nat, limit: nat)
    requires DistinctIds(rows) && 0 < k <= |Listing(o, rows)| && limit >= 1
    ensures var all := Listing(o, rows);
            Page(o, rows, Some(WireKey(o, all[k - 1])), limit) == all[k..Min(k + limit, |all|)] <==> Resumes(o, rows, all[k - 1])
  {
    var all := Listing(o, rows);
    var r := all[k - 1];
    assert r in all;
    if Resumes(o, rows, r) {
      ResumesExactly(o, rows, r);
      PageIsStretch(o, rows, k, limit);
    } else {
      PageGoesAstray(o, rows, k, limit);
    }
  }

  lemma PageGoesAstray(o: Order, rows: set<Row>, k: nat, limit: nat)
    requires DistinctIds(rows) && 0 < k <= |Listing(o, rows)| && limit >= 1
    requires !Resumes(o, rows, Listing(o, rows)[k - 1])
    ensures var all := Listing(o, rows);
            Page(o, rows, Some(WireKey(o, all[k - 1])), limit) != all[k..Min(k + limit, |all|)]
  {
    var all := Listing(o, rows);
    var w := WireKey(o, all[k - 1]);
    if Before(o, w, KeyOf(o, all[k - 1])) {
      PageStartsEarly(o, rows, k, w);
    } else {
      PageStartsLate(o, rows, k, w);
    }
  }

  /** With a cursor before the row, the rows behind the cursor start with the row at the latest. */
  lemma PageStartsEarly(o: Order, rows: set<Row>, k: nat, w: Key)
    requires DistinctIds(rows) && 0 < k <= |Listing(o, rows)| && Before(o, w, KeyOf(o, Listing(o, rows)[k - 1]))
    ensures var all, sent := Listing(o, rows), Listing(o, After(o, rows, Some(w)));
            sent != [] && (k < |all| ==> sent[0] != all[k])
  {
    var all, sent := Listing(o, rows), Listing(o, After(o, rows, Some(w)));
    var r := all[k - 1];
    assert r in all && r in sent;
    var i :| 0 <= i < |sent| && sent[i] == r;
    assert i == 0 || Before(o, KeyOf(o, sent[0]), KeyOf(o, r));
  }

  /** With a cursor past a later row, the next row is not among the rows behind the cursor. */
  lemma PageStartsLate(o: Order, rows: set<Row>, k: nat, w: Key)
    requires DistinctIds(rows) && 0 < k <= |Listing(o, rows)|
    requires exists x :: x in rows && Before(o, KeyOf(o, Listing(o, rows)[k - 1]), KeyOf(o, x)) && !Before(o, w, KeyOf(o, x))
    ensures var all, sent := Listing(o, rows), Listing(o, After(o, rows, Some(w))); k < |all| && all[k] !in sent
  {
    var all := Listing(o, rows);
    var x :| x in rows && Before(o, KeyOf(o, all[k - 1]), KeyOf(o, x)) && !Before(o, w, KeyOf(o, x));
    assert x in all;
    var i :| 0 <= i < |all| && all[i] == x;
    assert i >= k && (i == k || Before(o, KeyOf(o, all[k]), KeyOf(o, x)));
  }

  /** A total size just above 2^53 is served again and again when ascending: its cursor is rounded
      down, so the page after the row is the row. */
  lemma RoundedCursorRepeats(r: Row, limit: nat, rank: map<int, real>)
    requires r.size == 0x20_0000_0000_0001 && limit >= 1
    ensures var o := Order(ByTotalSize, true, rank); Page(o, {r}, Some(WireKey(o, r)), limit) == [r]
  {
    var o := Order(ByTotalSize, true, rank);
    assert Ulp(0x20_0000_0000_0001) == 2;
    assert Float64(r.size) == 0x20_0000_0000_0000;
    assert After(o, {r}, Some(WireKey(o, r))) == {r};
    ListingStarts(o, {r}, r);
    assert {r} - {r} == {};
    EmptyListing(o);
  }

  /** So is, whatever the criterion, a row whose id is just above 2^53, if its value survives. */
  lemma RoundedIdRepeats(o: Order, r: Row, limit: nat)
    requires r.id == 0x20_0000_0000_0001 && limit >= 1 && o.ascending && WireKey(o, r).value == OrderedValue(o, r)
    ensures Page(o, {r}, Some(WireKey(o, r)), limit) == [r]
  {
    assert Ulp(0x20_0000_0000_0001) == 2;
    assert WireKey(o, r).id == 0x20_0000_0000_0000;
    assert After(o, {r}, Some(WireKey(o, r))) == {r};
    ListingStarts(o, {r}, r);
    assert {r} - {r} == {};
    EmptyListing(o);
  }

  // ---------------------------------------------------------------------------------------------
  // QueryTorrents and load()
  // ---------------------------------------------------------------------------------------------

  /** How the engine fares: it serves all rows, refuses the statement, or stops early. */
  datatype Engine = Serves | Refuses | StopsAfter(rows: nat)

  /** As many rows as the engine hands out at most. */
  function Served(engine: Engine, limit: nat): nat {
    if engine.StopsAfter? then Min(engine.rows, limit) else limit
  }

  datatype Response = Torrents(page: seq<Row>) | BadRequest | Panics

  /** A refused statement panics, because the deferred close is given nil rows. An engine that stops
      early is not noticed, because the error of the iteration is not asked for. */
  method QueryTorrents(db: Db, q: Search, epoch: int, o: Order, limit: nat,
                       lastOrderedValue: Option<real>, lastID: Option<int>, engine: Engine) returns (response: Response)
    ensures response.BadRequest? <==>
            (q.text == "" && o.criterion.ByRelevance?) || (lastOrderedValue.None? != lastID.None?)
    ensures response.Panics? <==>
            && !response.BadRequest?
            && (o.criterion.ByNSeeders? || o.criterion.ByNLeechers? || o.criterion.ByUpdatedOn? || engine.Refuses?)
    ensures response.Torrents? ==>
            response.page == Page(o, Visible(db, q, epoch),
                                  if lastID.None? then None else Some(Key(lastOrderedValue.value, lastID.value)), Served(engine, limit))
    ensures response.Torrents? ==>
            var full := Page(o, Visible(db, q, epoch),
                             if lastID.None? then None else Some(Key(lastOrderedValue.value, lastID.value)), limit);
            response.page == if engine.StopsAfter? && engine.rows < |full| then full[..engine.rows] else full
    ensures response.Torrents? ==> |response.page| <= limit && SortedByColumn(o, response.page)
    ensures response.Torrents? && IndexAgrees(db) ==> RowsRight(db, q, epoch, response.page)
  {
    if q.text == "" && o.criterion.ByRelevance? { return BadRequest; }
    if lastOrderedValue.None? != lastID.None? { return BadRequest; }
    if !Supported(o.criterion) || engine.Refuses? { return Panics; }
    var cursor := if lastID.None? then None else Some(Key(lastOrderedValue.value, lastID.value));
    var torrents := FirstRows(o, After(o, Visible(db, q, epoch), cursor), Served(engine, limit));
    ghost var all := Listing(o, After(o, Visible(db, q, epoch), cursor));
    ListingByColumn(o, torrents);
    assert forall r :: r in torrents ==> r in all;
    if IndexAgrees(db) { VisibleRight(db, q, epoch, torrents); }
    response := Torrents(torrents);
  }

  /** The engine hands out the rows in order until the limit. */
  method FirstRows(o: Order, rows: set<Row>, limit: nat) returns (torrents: seq<Row>)
    requires DistinctIds(rows)
    ensures torrents == Listing(o, rows)[..Min(limit, |Listing(o, rows)|)]
  {
    var rest := rows;
    ghost var all := Listing(o, rest);
    torrents := [];
    while rest != {} && |torrents| < limit
      invariant DistinctIds(rest) && all == torrents + Listing(o, rest)
      invariant |torrents| <= limit
      decreases rest
    {
      FirstExists(o, rest);
      var first :| IsFirst(o, rest, first);
      ListingStarts(o, rest, first);
      torrents, rest := torrents + [first], rest - {first};
    }
    EmptyListing(o);
  }

  /** Where the p-th page of a listing of `n` rows ends. */
  function PageEnd(p: nat, limit: nat, n: nat): nat {
    Min(p * limit, n)
  }

  /** The cursors that are sent are those of the rows that end a page; all of them resume. */
  ghost predicate PagesResume(o: Order, rows: set<Row>, limit: nat)
    requires DistinctIds(rows)
  {
    var all := Listing(o, rows);
    forall p: nat :: PageEnd(p, limit, |all|) > 0 ==> Resumes(o, rows, all[PageEnd(p, limit, |all|) - 1])
  }

  /** That is so if all rows have exact cursors. */
  lemma ExactPagesResume(o: Order, rows: set<Row>, limit: nat)
    requires DistinctIds(rows) && Exact(o, rows)
    ensures PagesResume(o, rows, limit)
  {
    var all := Listing(o, rows);
    forall p: nat | PageEnd(p, limit, |all|) > 0 ensures Resumes(o, rows, all[PageEnd(p, limit, |all|) - 1]) {
      assert all[PageEnd(p, limit, |all|) - 1] in all;
    }
  }

  /** Behind `p` whole pages the last cursor resumes. */
  lemma PageEndResumes(o: Order, rows: set<Row>, limit: nat, p: nat, shown: seq<Row>)
    requires DistinctIds(rows) && PagesResume(o, rows, limit)
    requires shown <= Listing(o, rows) && |shown| == PageEnd(p, limit, |Listing(o, rows)|)
    ensures shown == [] || Resumes(o, rows, shown[|shown| - 1])
  {
  }

  lemma NextPageEnd(p: nat, limit: nat, n: nat)
    requires limit >= 1
    ensures PageEnd(p + 1, limit, n) == Min(PageEnd(p, limit, n) + limit, n)
  {
    assert (p + 1) * limit == p * limit + limit;
  }

  /** The cursor that is sent behind the rows shown. */
  function SentCursor(o: Order, shown: seq<Row>): Option<Key> {
    if shown == [] then None else Some(WireKey(o, shown[|shown| - 1]))
  }

  /** The rows shown and the page behind their last cursor are the first rows of the listing if and only
      if that cursor resumes; the page is then empty exactly when it must be. */
  lemma PageExtends(o: Order, rows: set<Row>, shown: seq<Row>, n: nat)
    requires DistinctIds(rows) && shown <= Listing(o, rows)
    ensures var all, page := Listing(o, rows), Page(o, rows, SentCursor(o, shown), n);
            && (n >= 1 ==> (shown + page == all[..Min(|shown| + n, |all|)] <==>
                            shown == [] || Resumes(o, rows, shown[|shown| - 1])))
            && (shown + page == all[..Min(|shown| + n, |all|)] ==>
                  shown + page <= all && (page == [] <==> n == 0 || |shown| == |all|))
  {
    var all, page := Listing(o, rows), Page(o, rows, SentCursor(o, shown), n);
    NextStretch(all, shown, page, Min(|shown| + n, |all|));
    if shown == [] { PageIsStretch(o, rows, 0, n); } else if n >= 1 { PageResumesIff(o, rows, |shown|, n); }
  }

  /** A whole listing, column by column and row by row. */
  lemma WholeListing(db: Db, q: Search, epoch: int, o: Order)
    requires IndexAgrees(db)
    ensures var list := Listing(o, Visible(db, q, epoch));
            SortedByColumn(o, list) && RowsRight(db, q, epoch, list) && HoldsAll(db, q, epoch, list)
  {
    var list := Listing(o, Visible(db, q, epoch));
    ListingByColumn(o, list);
    VisibleRight(db, q, epoch, list);
    VisibleHoldsAll(db, q, epoch, list);
  }

  /** The state of the page in the browser. */
  class Browser {
    var lastOrderedValue: Option<real>
    var lastID: Option<int>
    var shown: seq<Row>
    var noMoreResults: bool

    constructor ()
      ensures lastOrderedValue == None && lastID == None && shown == [] && !noMoreResults
    {
      lastOrderedValue, lastID, shown, noMoreResults := None, None, [], false;
    }

    /** The first rows of the listing are shown, and the cursor is the key of the last of them. */
    ghost predicate ShowsPrefix(o: Order, all: seq<Row>)
      reads this
    {
      && shown <= all
      && lastOrderedValue.None? == lastID.None?
      && SentCursor(o, shown) == if lastID.None? then None else Some(Key(lastOrderedValue.value, lastID.value))
    }

    /** One request and its answer. Behind the rows shown so far the page is the next stretch of the
        listing exactly when the last cursor resumes there; a page without a row ends the loading. */
    method Load(db: Db, q: Search, epoch: int, o: Order, limit: nat, engine: Engine)
      requires limit >= 1 && Supported(o.criterion) && !(q.text == "" && o.criterion.ByRelevance?)
      requires ShowsPrefix(o, Listing(o, Visible(db, q, epoch)))
      modifies this
      ensures engine.Refuses? ==> shown == old(shown) && noMoreResults == old(noMoreResults)
      ensures engine.Refuses? ==> lastOrderedValue == old(lastOrderedValue) && lastID == old(lastID)
      ensures var all, n := Listing(o, Visible(db, q, epoch)), Served(engine, limit);
              !engine.Refuses? && n >= 1 ==>
              (shown == all[..Min(|old(shown)| + n, |all|)] <==>
               old(shown) == [] || Resumes(o, Visible(db, q, epoch), old(shown)[|old(shown)| - 1]))
      ensures var all, n := Listing(o, Visible(db, q, epoch)), Served(engine, limit);
              !engine.Refuses? && shown == all[..Min(|old(shown)| + n, |all|)] ==>
              ShowsPrefix(o, all) && (noMoreResults <==> old(noMoreResults) || n == 0 || |old(shown)| == |all|)
    {
      var response := QueryTorrents(db, q, epoch, o, limit, lastOrderedValue, lastID, engine);
      if !response.Torrents? { return; }
      PageExtends(o, Visible(db, q, epoch), shown, Served(engine, limit));
      Show(response.page, o);
    }

    method Show(torrents: seq<Row>, o: Order)
      modifies this
      ensures shown == old(shown) + torrents && (noMoreResults <==> old(noMoreResults) || torrents == [])
      ensures if torrents == [] then lastOrderedValue == old(lastOrderedValue) && lastID == old(lastID)
              else var key := WireKey(o, torrents[|torrents| - 1]); lastOrderedValue == Some(key.value) && lastID == Some(key.id)
    {
      if torrents == [] {
        noMoreResults := true;
        return;
      }
      var last := torrents[|torrents| - 1];
      lastID := Some(WireKey(o, last).id);
      lastOrderedValue := Some(WireKey(o, last).value);
      shown := shown + torrents;
    }

    /** The rows of `p` whole pages are shown. */
    ghost predicate ShowsPages(o: Order, rows: set<Row>, limit: nat, p: nat)
      requires DistinctIds(rows)
      reads this
    {
      ShowsPrefix(o, Listing(o, rows)) && |shown| == PageEnd(p, limit, |Listing(o, rows)|)
    }

    /** One more whole page. */
    method LoadPage(db: Db, q: Search, epoch: int, o: Order, limit: nat, ghost p: nat)
      requires limit >= 1 && Supported(o.criterion) && !(q.text == "" && o.criterion.ByRelevance?)
      requires PagesResume(o, Visible(db, q, epoch), limit) && ShowsPages(o, Visible(db, q, epoch), limit, p) && !noMoreResults
      modifies this
      ensures ShowsPages(o, Visible(db, q, epoch), limit, p + 1)
      ensures if noMoreResults then shown == old(shown) == Listing(o, Visible(db, q, epoch)) else |shown| > |old(shown)|
    {
      ghost var rows := Visible(db, q, epoch);
      PageEndResumes(o, rows, limit, p, shown);
      NextPageEnd(p, limit, |Listing(o, rows)|);
      Load(db, q, epoch, o, limit, Serves);
    }

    /** Loading until a page is empty shows the whole sorted selection, each row once, although
        torrents discovered after the epoch may be stored before each request. */
    method LoadAll(db: Db, arrivals: seq<seq<AddCall>>, q: Search, epoch: int, o: Order, limit: nat)
      requires limit >= 1 && Supported(o.criterion) && !(q.text == "" && o.criterion.ByRelevance?)
      requires Sound(db) && PagesResume(o, Visible(db, q, epoch), limit)
      requires forall calls :: calls in arrivals ==> forall c :: c in calls ==> c.now > epoch
      requires o.criterion.ByRelevance? ==> arrivals == []
      requires lastOrderedValue == None && lastID == None && shown == [] && !noMoreResults
      modifies this
      ensures shown == Listing(o, Visible(db, q, epoch)) && noMoreResults
      ensures SortedByColumn(o, shown) && RowsRight(db, q, epoch, shown) && HoldsAll(db, q, epoch, shown)
    {
      ghost var rows := Visible(db, q, epoch);
      var current, request: nat := db, 0;
      while !noMoreResults
        invariant Sound(current) && Visible(current, q, epoch) == rows
        invariant ShowsPages(o, rows, limit, request)
        invariant noMoreResults ==> shown == Listing(o, rows)
        decreases |Listing(o, rows)| - |shown|, !noMoreResults
      {
        if request < |arrivals| {
          assert arrivals[request] in arrivals;
          CommitsInvisible(current, arrivals[request], q, epoch);
          current := AddedAll(current, arrivals[request]);
        }
        LoadPage(current, q, epoch, o, limit, request);
        request := request + 1;
      }
      WholeListing(db, q, epoch, o);
    }
  }

  /** Rows shown and then a page are the first rows exactly when the page is the next stretch. */
  lemma NextStretch(all: seq<Row>, shown: seq<Row>, page: seq<Row>, end: nat)
    requires shown <= all && |shown| <= end <= |all|
    ensures shown + page == all[..end] <==> page == all[|shown|..end]
  {
    assert all[..end] == shown + all[|shown|..end];
    if shown + page == all[..end] { assert page == (shown + page)[|shown|..]; }
  }
}
