# magnetico in Dafny

magnetico crawls the BitTorrent DHT for infohashes, fetches the metadata of each torrent from a peer,
and keeps what it finds in a database that a web front end pages through. This project models the
parts of it where something can go wrong across several functions, and proves what holds of them for
all inputs, all runs and all reachable states. Verify it with `dafny verify dfyconfig.toml`.

| file | what it models |
|---|---|
| `Bytes.dfy` | what several modules share: bytes, hashes, peers, big-endian words |
| `Store.dfy` | the SQLite tables, the full-text index, the triggers, `AddNewTorrent` |
| `Postgres.dfy` | `AddNewTorrent` of the PostgreSQL engine |
| `Migration.dfy` | `setupDatabase`, the chain of schema upgrades |
| `Paging.dfy` | `QueryTorrents` and the browser's `load()` |
| `Pipeline.dfy` | sink, leeches, drain and event loop as a transition system over atomic events |
| `Daemon.dfy` | the sink as an object, and the event loop, both tied to those events |
| `Framing.dfy` | length-prefixed peer messages and the readers that skip |
| `Reassembly.dfy` | what the accepted pieces of a transfer add up to |
| `Leech.dfy` | one leech from handshake to callback |
| `Indexing.dfy` | outstanding get_peers queries, sampled infohashes, the routing table |
| `Codec.dfy`, `ErrorList.dfy` | compact nodes and peers, the error list |
| `Dates.dfy` | `ParseISO8601` |

How the model is set up:

- A run of the pipeline is any sequence of events; an event that is not possible in a state changes
  nothing. `flush` sends outside the lock and deletes inside it, so these are two events.
- Results from the DHT, bytes from a peer, the clock, row ids, and which database calls fail are
  parameters. A connection is the bytes that will still arrive; it may end anywhere, which stands for
  timeouts too.
- SHA-1, bencode, the full-text match and the bm25 rank are functions given from outside.
- A Go pointer to a loop variable is an index into a list of variables, one per loop run: go.mod
  declares Go 1.15, where a range loop has one variable.
- Integer widths are written out where they matter: the 64-bit sum of file sizes, the 16-bit query
  counter, the 64-bit offset of a piece, and the doubles that carry a cursor.

Where the code does something else than it seems meant to do, the code is followed and the exact
condition is proved:

- `DoesTorrentExist` returns a nil error when the iteration over rows fails, and then answers "no".
  That is the only way to a unique violation, and it is one (`Pipeline.UniqueViolationNeedsLostRows`,
  `Pipeline.LostRowsStopTheDaemon`).
- Totals are 64-bit sums that nothing guards (`Pipeline.SizesAgreeIff`, `Pipeline.WrappedTotalIsStored`).
- A wrong first extension message counts as a successful handshake with size zero
  (`LeechTransfer.Leech.DoExHandshake`, `LeechTransfer.Leech.Do`).
- The leech does not check piece indices: a piece outside the buffer panics, indices 2^50 apart name
  one place, and a piece that comes twice leaves a hole (`Reassembly.OffsetAliases`,
  `Reassembly.WrittenOnceIffDistinct`, `Reassembly.RepeatedPieceLeavesHole`).
- A short last piece that does not come last is an error, although the protocol leaves the order open
  (`LeechTransfer.TruthfulDeliversIff`, `LeechTransfer.Leech.ServedReportsIff`).
- The sample loop slices from `i` instead of `20*i` (`Indexing.SamplesAsIntendedIff`,
  `Indexing.SamplesIgnoreTheRest`).
- Entries of the routing table point to one variable per response (`Indexing.EntriesShareLastAddress`,
  `Indexing.EntryRightIff`, `Indexing.ResponseRightIff`, `Indexing.SecondNodeTakesOver`).
- A torrent discovered in the very second of the page's epoch is visible (`Paging.CommitInvisible`);
  a cursor that a double cannot hold resumes at the wrong place (`Paging.ResumesExactly`,
  `Paging.PageResumesIff`). A refused query panics in the deferred close, and rows that end early are
  taken for all rows (`Paging.QueryTorrents`).
- The month form of a date always uses day 31, the week form counts sevens from January 1, hour 24 is
  accepted, and the year 1583 is refused although the message says "before 1583" (`Dates.LastSecond`,
  `Dates.WeekIsIsoIff`, `Dates.HourFormsOrdered`, `Dates.DayFormsAcceptedIff`).
- If the `modified_on` trigger fires before the index trigger, the index deletes a posting that is not
  there yet; the counts still come out right (`Store.ModifiedFirstDeletesTooEarly`,
  `Store.InsertIsOrderFree`).

## Model

| member | source | states |
|---|---|---|
| `Pipeline.PendingOneToOne` | cmd/magneticod/bittorrent/metadata/sink.go:103-179 | in every interleaving no two unfinished leeches share an infohash, there are as many as keys in the map, at most the configured maximum, and the drain holds at most 10 |
| `Pipeline.PendingHasItsLeech` | cmd/magneticod/bittorrent/metadata/sink.go:118-160 | in every run a key is in the map if and only if a leech works for it |
| `Pipeline.LeechesOwnMetadata` | cmd/magneticod/bittorrent/metadata/sink.go:146-160 | flush deletes the hash that the result carries; in every run that is the pending key of the leech that flushes, and no other leech works for it |
| `Pipeline.AcceptedAccounted` | cmd/magneticod/bittorrent/metadata/sink.go:103-179 | over every run, per infohash: accepted Sink calls = completed flushes + exhausted peer lists + 1 if pending |
| `Pipeline.PeersTriedInOrder` | cmd/magneticod/bittorrent/metadata/sink.go:118-178 | the peer list offered is the peers tried, in order, followed by the peers still stored; the pending leech works on the last one tried |
| `Pipeline.CallbacksBounded` | cmd/magneticod/bittorrent/metadata/sink.go:118-178 | every callback spends at least one unit of (remaining peers + 1); callbacks plus pending work never exceed the peers accepted |
| `Pipeline.CallbackSpendsToken` | cmd/magneticod/bittorrent/metadata/sink.go:146-179 | a completed callback strictly lowers the sum of (remaining peers + 1) |
| `Pipeline.DrainIsFifo` | cmd/magneticod/bittorrent/metadata/sink.go:146-160 | what was flushed is what the event loop took, in the same order, followed by what waits in the channel |
| `Pipeline.StoreStaysSound` | cmd/magneticod/main.go:104-128 | in every run the store keeps unique hashes and an agreeing index, and a torrent is still absent when AddNewTorrent inserts after a test that saw the rows |
| `Pipeline.StoredNotFetched` | cmd/magneticod/main.go:106-115 | in every run whose existence tests see the rows, the sink never accepts an infohash that was stored from the start |
| `Pipeline.FaultFreeStops` | cmd/magneticod/main.go:104-128 | without a failing database call the daemon stops only for a total that is no int64 or a clock outside 1970 to 2999, although infohashes may come twice |
| `Pipeline.UniqueViolationNeedsLostRows` | pkg/persistence/sqlite3.go:154-166 | in every run the insert meets its own hash if and only if the existence test lost the rows of a stored torrent and the insert gets as far |
| `Pipeline.LostRowsStopTheDaemon` | cmd/magneticod/main.go:117-121 | from any sound store, for any storable torrent, some run ends with a unique violation |
| `Pipeline.StoreOutcome` | cmd/magneticod/main.go:117-121 | take, check and commit together come to the status and the store that AddNewTorrent promises, for every set of failing database calls |
| `Pipeline.SizesAgreeIff` | pkg/persistence/sqlite3.go:111-198 | after every run all stored totals are the sums of the stored files if and only if no stored sum has wrapped |
| `Pipeline.CountableTotalsAgree` | cmd/magneticod/bittorrent/metadata/leech.go:413-429 | if leeches report no negative size and totals below 2^64, all stored totals are true in every run |
| `Pipeline.WrappedTotalIsStored` | cmd/magneticod/bittorrent/metadata/leech.go:413-429 | otherwise a run stores a wrong total: three files of 2^63 - 1 bytes |
| `Pipeline.StoredWasAccepted` | cmd/magneticod/main.go:104-128 | whatever reaches the drain, the event loop or the store had its infohash accepted by the sink |
| `Pipeline.DrainMayRepeat` | cmd/magneticod/bittorrent/metadata/sink.go:151-159 | for any absent infohash, name and files some run has that metadata in the drain twice |
| `Daemon.Sink.constructor` | cmd/magneticod/bittorrent/metadata/sink.go:76-84 | a new sink is empty and is the start of a run |
| `Daemon.Sink.Sink` | cmd/magneticod/bittorrent/metadata/sink.go:103-131 | a result is taken exactly if there is room, its infohash is not pending and it has a peer; this is the sink event |
| `Daemon.Sink.OnSuccess` | cmd/magneticod/bittorrent/metadata/sink.go:124-127 | a running leech enters flush with metadata of its own infohash; this is the success event |
| `Daemon.Sink.FlushSend` | cmd/magneticod/bittorrent/metadata/sink.go:146-151 | with room in the channel of 10 the result is appended; this is the send event |
| `Daemon.Sink.FlushDelete` | cmd/magneticod/bittorrent/metadata/sink.go:152-160 | carries out the delete event, on the hash that the result carries |
| `Daemon.Sink.OnLeechError` | cmd/magneticod/bittorrent/metadata/sink.go:162-179 | the next stored peer is tried, or the infohash is given up; this is the failure event |
| `Daemon.OnResult` | cmd/magneticod/main.go:106-115 | a stored torrent leaves the sink as it was, an absent one that is not pending, with a peer and room, becomes pending; fatal on a failed query; these are the events test and sink |
| `Daemon.OnMetadata` | cmd/magneticod/main.go:117-122 | metadata stored already is dropped, new metadata is stored in full; these are the events take, check and commit, whichever database calls fail |
| `Daemon.EventLoop` | cmd/magneticod/main.go:104-128 | the loop carries out the run that its handled inputs stand for, stops at the first interrupt, and else ends early only on a fatal error |
| `Store.InsertIsOrderFree` | pkg/persistence/sqlite3.go:636-662 | in either firing order an insert adds one posting and sets a defaulted modified_on to discovered_on |
| `Store.ModifiedFirstDeletesTooEarly` | pkg/persistence/sqlite3.go:636-662 | the postings of an insert are those of its triggers in firing order, and one is deleted before it exists if and only if the date trigger fires first and replaces the default |
| `Store.ScriptKeepsSound` | pkg/persistence/sqlite3.go:636-662 | after any script of inserts, updates and deletes: one posting per row and none besides, unique hashes, no dangling file rows, all checks met |
| `Store.AcceptedStatements` | pkg/persistence/sqlite3.go:524-537 | which inserts, updates and deletes the engine accepts, constraint by constraint |
| `Store.ChangedRows` | pkg/persistence/sqlite3.go:532-537 | what an accepted update and a delete with its cascade do, row by row |
| `Store.InsertKeepsSound` | pkg/persistence/sqlite3.go:636-638 | an accepted insert keeps all that |
| `Store.UpdateKeepsSound` | pkg/persistence/sqlite3.go:642-645 | an accepted update, even of the id, keeps all that |
| `Store.DeleteKeepsSound` | pkg/persistence/sqlite3.go:639-641 | a delete with its cascade keeps all that |
| `Store.TotalSize` | pkg/persistence/sqlite3.go:111-114 | the loop computes the sum of the sizes modulo 2^64 |
| `Store.Sqlite3Database.DoesTorrentExist` | pkg/persistence/sqlite3.go:83-98 | a "yes" is always right; a wrong answer without an error is given exactly when the rows of a stored torrent are lost |
| `Store.Sqlite3Database.AddNewTorrent` | pkg/persistence/sqlite3.go:100-206 | all or nothing wherever it leaves; a stored torrent field by field, with one file row per file in order; the exact status and exactly when a torrent is stored, for every set of failing calls; an empty or stored torrent is no error; a unique violation only after lost rows |
| `Store.AddKeepsSound` | pkg/persistence/sqlite3.go:159-198 | a stored torrent keeps the index, uniqueness and references |
| `Store.AddKeepsSizes` | pkg/persistence/sqlite3.go:111-198 | with one more torrent totals equal file sums if and only if they did before and the true sum is a positive int64 |
| `Postgres.PostgresDatabase.AddNewTorrent` | pkg/persistence/postgres.go:79-155 | all or nothing, also when a path in the middle is not UTF-8; a stored torrent field by field; exactly when a torrent is stored; the exact status when no call fails; hashes stay unique |
| `Postgres.PgAddKeepsSizes` | pkg/persistence/postgres.go:100-147 | totals stay positive and equal to file sums if and only if the true sum is a positive int64 |
| `Migration.Populate` | pkg/persistence/sqlite3.go:632-633 | the new index holds one posting per torrent |
| `Migration.MigratedRow` | pkg/persistence/sqlite3.go:649-666 | a kept row has its old columns, and its new date is at least both dates and one of them |
| `Migration.SetModified` | pkg/persistence/sqlite3.go:664-666 | every row gets the later of discovery and update, and the index still agrees after all update triggers |
| `Migration.AddIndexAndModified` | pkg/persistence/sqlite3.go:629-671 | the upgrade from 2 to 3 migrates, unless ADD COLUMN tests existing rows and one is discovered after the default |
| `Migration.Sqlite3File.SetupDatabase` | pkg/persistence/sqlite3.go:510-681 | from version 0, 1 or 2 every row is kept with its columns and the later of its dates, and version 3 holds; any failure leaves the file as it was; other versions are left alone; exactly when it fails |
| `Migration.Sqlite3File.SetupTwice` | pkg/persistence/sqlite3.go:557-679 | a second start changes nothing |
| `Migration.MigratedIsSound` | pkg/persistence/sqlite3.go:629-671 | a migrated file meets every invariant of the store |
| `Paging.ListingExists` | pkg/persistence/sqlite3.go:283-283 | any selection can be listed strictly in order |
| `Paging.SortedUnique` | pkg/persistence/sqlite3.go:283-283 | an ordered listing is determined by its rows |
| `Paging.ListingByColumn` | pkg/persistence/sqlite3.go:351-368 | an ordered listing is sorted by the size, discovery date, file count or rank that the criterion names, then by id, in the direction asked for |
| `Paging.AfterIsRest` | pkg/persistence/sqlite3.go:280-283 | the rows behind the key of the k-th row are the rest of the listing |
| `Paging.PageIsStretch` | pkg/persistence/sqlite3.go:279-284 | a page behind the first k rows is the next stretch of the listing |
| `Paging.QueryTorrents` | pkg/persistence/sqlite3.go:238-349 | which requests are refused or panic; an answer is the page of the selected rows, sorted by its column, with the stored columns and file counts, cut short without notice if the engine stops early |
| `Paging.HitMatchesName` | pkg/persistence/sqlite3.go:271-278 | joining through the index selects by the stored name |
| `Paging.CountIsNumber` | pkg/persistence/sqlite3.go:259-264 | the file count of a row is the number of its file rows |
| `Paging.WholeListing` | pkg/persistence/sqlite3.go:254-284 | a whole listing is sorted by its column, has the stored columns, and holds every torrent modified by the epoch that matches, and no other |
| `Paging.CommitInvisible` | pkg/persistence/sqlite3.go:279-279 | a new torrent leaves the selection unchanged if and only if it is discovered after the epoch or does not match |
| `Paging.CommitsInvisible` | pkg/persistence/sqlite3.go:159-166 | the same for any number of commits after the epoch |
| `Paging.SmallRowsExact` | cmd/magneticow/data/static/scripts/torrents.js:101-103 | numbers up to 2^53 come back as they were sent |
| `Paging.Ulp53Bits` | cmd/magneticow/data/static/scripts/torrents.js:101-103 | the distance of doubles is the power of two that leaves a number 53 bits |
| `Paging.Float64Nearest` | cmd/magneticow/data/static/scripts/torrents.js:101-103 | a number becomes the nearest multiple of that distance, an even one on a tie |
| `Paging.ResumesExactly` | cmd/magneticow/data/static/scripts/torrents.js:101-103 | the rows behind a cursor as sent are those behind its row if and only if the cursor is exact or rounded forward past no row |
| `Paging.PageResumesIff` | pkg/persistence/sqlite3.go:279-284 | the page behind a cursor as sent is the next stretch of the listing if and only if the cursor resumes in that sense |
| `Paging.ExactPagesResume` | cmd/magneticow/data/static/scripts/torrents.js:101-103 | exact cursors resume at every page end |
| `Paging.RoundedCursorRepeats` | cmd/magneticow/data/static/scripts/torrents.js:54-62 | a lone row of size 2^53 + 1, ascending by size, is the page behind its own cursor again |
| `Paging.RoundedIdRepeats` | cmd/magneticow/data/static/scripts/torrents.js:101-103 | the same for a row whose id is 2^53 + 1, by any criterion |
| `Paging.Browser.Load` | cmd/magneticow/data/static/scripts/torrents.js:65-115 | one request shows the next rows of the listing if and only if the last cursor resumes; a refused request changes nothing; an empty page comes exactly when all are shown or the engine gave no row |
| `Paging.Browser.LoadAll` | cmd/magneticow/data/static/scripts/torrents.js:65-115 | if the cursors at the page ends resume, loading until an empty page ends and shows every matching torrent once, with its stored columns, sorted by its column, whatever is stored after the epoch meanwhile |
| `Framing.ReadsFrame` | cmd/magneticod/bittorrent/metadata/leech.go:178-201 | a read returns m and leaves rest if and only if the stream is the frame of m within the limit, then rest |
| `Framing.ReadUmFindsFirst` | cmd/magneticod/bittorrent/metadata/leech.go:225-240 | on frames with anything behind, readUmMessage returns the first ut_metadata message and stops right behind its frame |
| `Framing.ReadAllUmFilters` | cmd/magneticod/bittorrent/metadata/leech.go:203-240 | repeated reads return exactly the ut_metadata frames, in order |
| `Framing.UmOnTheWire` | cmd/magneticod/bittorrent/metadata/leech.go:203-240 | a message 20, 1, payload is returned; any other message of at most 10 MiB is skipped |
| `Framing.LengthRoundTrip` | cmd/magneticod/bittorrent/metadata/leech.go:460-482 | toBigEndian(n, 4) and the length reader undo each other |
| `Reassembly.OffsetAliases` | cmd/magneticod/bittorrent/metadata/leech.go:355-357 | indices 2^50 apart name one offset |
| `Reassembly.ReceivedOneMore` | cmd/magneticod/bittorrent/metadata/leech.go:350-370 | the checks keep: all pieces fit, all but the last are full, a short one ends the transfer |
| `Reassembly.ReceivedPassed` | cmd/magneticod/bittorrent/metadata/leech.go:350-370 | conversely, in a log with these properties each piece passed the checks when it arrived |
| `Reassembly.CompleteCount` | cmd/magneticod/bittorrent/metadata/leech.go:150-153 | a complete transfer accepted exactly the number of pieces that were requested |
| `Reassembly.DistinctFill` | cmd/magneticod/bittorrent/metadata/leech.go:319-372 | with distinct offsets every index has its piece and only the last index is short |
| `Reassembly.WrittenOnceIffDistinct` | cmd/magneticod/bittorrent/metadata/leech.go:319-372 | every byte is written exactly once if and only if no offset repeats |
| `Reassembly.TruthfulPiecesRebuild` | cmd/magneticod/bittorrent/metadata/leech.go:319-372 | distinct pieces with true bytes rebuild the metadata |
| `Reassembly.RepeatedPieceLeavesHole` | cmd/magneticod/bittorrent/metadata/leech.go:319-372 | a repeated piece leaves some byte unwritten although the loop ends normally |
| `Reassembly.EachOnceCompleteIff` | cmd/magneticod/bittorrent/metadata/leech.go:358-370 | requested pieces that come once each, in any order, make a complete transfer if and only if the last index is full or comes last |
| `LeechTransfer.TruthfulDeliversIff` | cmd/magneticod/bittorrent/metadata/leech.go:319-372 | a peer that sends every requested piece once and truthfully, with other messages in between, delivers if and only if a short last piece comes last, and never causes a panic |
| `LeechTransfer.InOrderDelivers` | cmd/magneticod/bittorrent/metadata/leech.go:319-372 | a peer that answers request i with a message of type 1, index i and its 16 KiB, or what is left, delivers, and the buffer is the metadata, whatever it sends afterwards |
| `LeechTransfer.Leech.ServedIsMetadata` | cmd/magneticod/bittorrent/metadata/leech.go:353-357 | what such a transfer leaves in the buffer is the metadata |
| `LeechTransfer.Leech.ServedReportsIff` | cmd/magneticod/bittorrent/metadata/leech.go:293-431 | a leech on such a peer reports the metadata if and only if a short last piece comes last and the metadata is genuine, and errs otherwise |
| `LeechTransfer.PeerReadsRequests` | cmd/magneticod/bittorrent/metadata/leech.go:150-176 | the requests read back as one extension message per piece, in order: 20, the ID of the peer, the encoded request |
| `LeechTransfer.ExHandshakeIsMessage` | cmd/magneticod/bittorrent/metadata/leech.go:113-114 | the extension handshake as sent is one well-formed message |
| `LeechTransfer.Leech.OwnHandshakeAccepted` | cmd/magneticod/bittorrent/metadata/leech.go:79-111 | the leech's own handshake passes its own test |
| `LeechTransfer.Leech.WriteAll` | cmd/magneticod/bittorrent/metadata/leech.go:68-77 | the loop over partial writes sends everything, or what the peer takes and then an error |
| `LeechTransfer.Leech.ReadNext` | cmd/magneticod/bittorrent/metadata/leech.go:178-201 | one message off the connection |
| `LeechTransfer.Leech.ReadNextEx` | cmd/magneticod/bittorrent/metadata/leech.go:203-223 | the loop returns the first extension message |
| `LeechTransfer.Leech.ReadNextUm` | cmd/magneticod/bittorrent/metadata/leech.go:225-240 | the loop returns the first ut_metadata message |
| `LeechTransfer.Leech.DoBtHandshake` | cmd/magneticod/bittorrent/metadata/leech.go:79-111 | exactly when it succeeds, and what success consumes and sends |
| `LeechTransfer.Leech.DoExHandshake` | cmd/magneticod/bittorrent/metadata/leech.go:113-148 | exactly when it succeeds: the decoded size is positive and below 10 MiB and the decoded ID between 0 and 255, and both are kept; a message that is no handshake succeeds with the size unchanged |
| `LeechTransfer.Leech.RequestAllPieces` | cmd/magneticod/bittorrent/metadata/leech.go:150-176 | sends one frame per piece of the size, in order, or fails exactly when the peer takes too little |
| `LeechTransfer.Leech.TakePiece` | cmd/magneticod/bittorrent/metadata/leech.go:340-371 | a piece panics exactly when it is not too long and does not fit, and is copied and counted exactly when it passes the checks |
| `LeechTransfer.RefusalIsFinal` | cmd/magneticod/bittorrent/metadata/leech.go:319-372 | no stream of messages passes beyond a message that the checks refuse |
| `LeechTransfer.StoppedShort` | cmd/magneticod/bittorrent/metadata/leech.go:319-372 | a stream refused before the size is reached delivers nothing, and holds a piece out of place exactly if the refused message is one |
| `LeechTransfer.DeliveredIsSafe` | cmd/magneticod/bittorrent/metadata/leech.go:319-372 | a stream that delivers has no piece out of place before that |
| `LeechTransfer.Leech.TakeMessage` | cmd/magneticod/bittorrent/metadata/leech.go:326-371 | type 1 copies its bytes to their place and counts them exactly if the checks pass, and panics exactly if they do not fit; type 2 and undecodable messages err; other types change nothing |
| `LeechTransfer.Leech.Reassemble` | cmd/magneticod/bittorrent/metadata/leech.go:319-372 | the loop ends normally if and only if some first ut_metadata messages deliver the size, and panics if and only if a piece out of place comes before; on normal exit the buffer holds exactly their data pieces |
| `LeechTransfer.CheckedTotal` | cmd/magneticod/bittorrent/metadata/leech.go:414-422 | the total modulo 2^64, or an error if any size is negative |
| `LeechTransfer.Leech.Prepare` | cmd/magneticod/bittorrent/metadata/leech.go:300-317 | handshakes and requests succeed if and only if they settle a size and the peer takes every byte sent |
| `LeechTransfer.ValidInfoIff` | cmd/magneticod/bittorrent/metadata/leech.go:433-448 | an info dictionary is valid if and only if it has one 20-byte hash for every piece that its total length needs |
| `LeechTransfer.Leech.Finish` | cmd/magneticod/bittorrent/metadata/leech.go:378-430 | one callback: success exactly for a buffer that hashes to the infohash and decodes to valid info without negative sizes |
| `LeechTransfer.Leech.Do` | cmd/magneticod/bittorrent/metadata/leech.go:293-431 | panics exactly on a piece out of place; otherwise makes exactly one callback, success if and only if connection, handshakes, requests and transfer succeed and the buffer is genuine |
| `LeechTransfer.Leech.ReportedIsGenuine` | cmd/magneticod/bittorrent/metadata/leech.go:378-430 | whatever the peer sends, a report was decoded from bytes that hash to the infohash asked for, and there is one callback unless the leech panics |
| `Indexing.RequestIsLatest` | cmd/magneticod/dht/mainline/indexingService.go:185-191 | after any history the table holds a hash under t if and only if the latest query with ID t asked for it and t was not answered since |
| `Indexing.RequestsAreOutstanding` | cmd/magneticod/dht/mainline/indexingService.go:185-191 | an ID is in the table if and only if some query with it is outstanding, and the table then has that query's hash |
| `Indexing.ReplayConcat` | cmd/magneticod/dht/mainline/indexingService.go:222-234 | the histories of successive handlers compose |
| `Indexing.FirstResponseAttributed` | cmd/magneticod/dht/mainline/indexingService.go:222-234 | a first response before 65536 further queries gets its own query's hash, across wrap-around |
| `Indexing.EchoNamesQuery` | cmd/magneticod/dht/mainline/indexingService.go:270-274 | an echoed transaction ID names the query's counter |
| `Indexing.KeyOfBytes` | cmd/magneticod/dht/mainline/indexingService.go:185-189 | a transaction ID byte by byte: high byte first, missing bytes are zero |
| `Indexing.QueriesOneByOne` | cmd/magneticod/dht/mainline/indexingService.go:222-234 | the i-th query of a sample has the i-th ID after the counter, modulo 2^16, and the 20 bytes from position i |
| `Indexing.SamplesAsIntendedIff` | cmd/magneticod/dht/mainline/indexingService.go:222-224 | all hashes are cut as BEP 51 lays them out if and only if the bytes behind the first repeat with period 19 |
| `Indexing.SamplesIgnoreTheRest` | cmd/magneticod/dht/mainline/indexingService.go:222-224 | of n samples only the first n + 19 bytes matter |
| `Indexing.StoreCapped` | cmd/magneticod/dht/mainline/indexingService.go:163-166 | the loop keeps the cap, and the table is full if it stopped early |
| `Indexing.StoreEntries` | cmd/magneticod/dht/mainline/indexingService.go:246-253 | handled IDs get the loop's pointer, all other entries stay |
| `Indexing.RespondKeepsNodes` | cmd/magneticod/dht/mainline/indexingService.go:163-171 | a response enters only IDs of its nodes with a nonzero port, and all of them unless the table is full |
| `Indexing.TableCapped` | cmd/magneticod/dht/mainline/indexingService.go:86-183 | under every interleaving of handlers and ticker the table stays within the cap |
| `Indexing.EntriesShareLastAddress` | cmd/magneticod/dht/mainline/indexingService.go:159-268 | in every run an entry, also one that the ticker has copied, resolves to the address of the last node its response's loop visited |
| `Indexing.EntryRightIff` | cmd/magneticod/dht/mainline/indexingService.go:159-268 | in every run an entry resolves to its own node's address if and only if the last node visited has that address |
| `Indexing.ResponseRightIff` | cmd/magneticod/dht/mainline/indexingService.go:163-182 | one response leaves all its entries right if and only if all nodes it keeps have the address of the last node it visits |
| `Indexing.SecondNodeTakesOver` | cmd/magneticod/dht/mainline/indexingService.go:163-171 | of two nodes with different IDs and addresses the entry of the first leads to the second |
| `Indexing.NeighborsQueried` | cmd/magneticod/dht/mainline/indexingService.go:131-157 | in every run the ticker queries, per copied entry, the last address of the entry's response: at most one address per response |
| `Indexing.IndexingService.FindNeighbors` | cmd/magneticod/dht/mainline/indexingService.go:131-157 | one query per entry, each entry once, to the address its pointer leads to |
| `Indexing.IndexingService.StoreNodes` | cmd/magneticod/dht/mainline/indexingService.go:163-182 | the loop as written leaves that table, and queries the stored nodes at their own addresses |
| `Indexing.AddressesParts` | cmd/magneticod/dht/mainline/indexingService.go:163-182 | the addresses queried are those of the nodes with a nonzero port, in order |
| `Indexing.IndexingService.OnFindNodeResponse` | cmd/magneticod/dht/mainline/indexingService.go:159-183 | stores and queries the nodes |
| `Indexing.IndexingService.OnSampleInfohashesResponse` | cmd/magneticod/dht/mainline/indexingService.go:220-268 | appends one numbered query per sample to the history that the table of outstanding queries reflects, then stores the nodes |
| `Indexing.IndexingService.OnGetPeersResponse` | cmd/magneticod/dht/mainline/indexingService.go:185-218 | over the whole history, the result carries the hash of the outstanding query with that ID, or zeros if there is none, and the dialable peers; the ID is freed |
| `Indexing.DialableParts` | cmd/magneticod/dht/mainline/indexingService.go:201-211 | the dialable peers are those with a nonzero port, in order |
| `Codec.SplitJoin` | cmd/magneticod/dht/mainline/codec.go:198-253 | lists survive in strings of fixed-size records if items do |
| `Codec.JoinSplit` | cmd/magneticod/dht/mainline/codec.go:174-215 | the whole records of a string survive if records do |
| `Codec.NodesRoundTrip` | cmd/magneticod/dht/mainline/codec.go:198-253 | both directions for compact nodes |
| `Codec.NodesSurviveIff` | cmd/magneticod/dht/mainline/codec.go:217-253 | a list survives if and only if IDs have 20 bytes, addresses 4, ports 16 bits |
| `Codec.NodeLayout` | cmd/magneticod/dht/mainline/codec.go:217-253 | a node byte by byte: ID, address, port with the high byte first |
| `Codec.FittedId` | cmd/magneticod/dht/mainline/codec.go:242-245 | a short ID is filled up with zeros, a long one is cut |
| `Codec.PeersSurviveIff` | cmd/magneticod/dht/mainline/codec.go:130-137 | a list of peers survives its encoding if and only if all have 4-byte addresses and 16-bit ports |
| `Codec.PeerStringsSurviveIff` | cmd/magneticod/dht/mainline/codec.go:174-185 | strings survive if and only if they are whole records; the rest is dropped |
| `Codec.PeerSurvivesIff` | cmd/magneticod/dht/mainline/codec.go:139-163 | one peer survives if and only if it is IPv4 or unmapped IPv6 with a 16-bit port |
| `Codec.PeerLayout` | cmd/magneticod/dht/mainline/codec.go:130-163 | a peer byte by byte, for IPv4 and IPv6 |
| `Codec.MappedAddress` | cmd/magneticod/dht/mainline/codec.go:139-148 | an IPv4 address in its 16-byte form is recognised |
| `Codec.MarshalNode` | cmd/magneticod/dht/mainline/codec.go:242-253 | a record has 26 bytes if and only if the address is IPv4 or maps to it, and then decodes to the node if and only if the node is well formed |
| `Codec.MarshalNodes` | cmd/magneticod/dht/mainline/codec.go:228-240 | the loop concatenates the records |
| `Codec.UnmarshalNodes` | cmd/magneticod/dht/mainline/codec.go:198-215 | fails on a partial record, else splits |
| `Codec.MarshalPeers` | cmd/magneticod/dht/mainline/codec.go:130-137 | the buffer is filled with the records |
| `Codec.UnmarshalPeers` | cmd/magneticod/dht/mainline/codec.go:174-185 | the loop splits the whole records |
| `ErrorList.ErrorSurvivesIff` | cmd/magneticod/dht/mainline/codec.go:255-283 | an error survives print and regular-expression parse if and only if its code is not negative and its message neither empty nor broken over lines |
| `ErrorList.SmallError` | cmd/magneticod/dht/mainline/codec.go:255-257 | one error as it looks on the wire |
| `ErrorList.ParsedStandsThere` | cmd/magneticod/dht/mainline/codec.go:259-283 | whatever is parsed stands in the string in that form, with the length it claims |
| `Dates.DayNumberSteps` | pkg/persistence/iso8601.go:110-155 | the closed day count moves by one with every calendar day |
| `Dates.DayNumberAfter` | pkg/persistence/iso8601.go:110-155 | n calendar days later the day count is n larger |
| `Dates.DayNumberCounts` | pkg/persistence/iso8601.go:110-155 | the day count is the number of calendar days since January 1, 1970 |
| `Dates.DayNumberMonotone` | pkg/persistence/iso8601.go:110-155 | later dates have larger day counts |
| `Dates.MonthLengths` | pkg/persistence/iso8601.go:110-155 | the lengths of the months, and the leap years |
| `Dates.LastSecond` | pkg/persistence/iso8601.go:28-108 | every accepted form gives the last second before the calendar day or hour that follows its period, a month form overshooting by 31 minus the month's days |
| `Dates.WeekIsIsoIff` | pkg/persistence/iso8601.go:51-65 | a week form ends with the ISO 8601 week of that number if and only if January 1 is a Monday, and is off by at most three days otherwise |
| `Dates.DayFormsOrdered` | pkg/persistence/iso8601.go:67-83 | accepted day forms are ordered as text if and only if they are in time |
| `Dates.HourFormsOrdered` | pkg/persistence/iso8601.go:85-105 | hour forms are ordered weakly; equal exactly for hour 24 and hour 00 of the next day |
| `Dates.DayRoundTrip` | pkg/persistence/iso8601.go:67-83 | printing a date of the range and parsing it gives its last second |
| `Dates.DayFormsAcceptedIff` | pkg/persistence/iso8601.go:167-197 | the accepted day forms are exactly the printed dates of the years 1584 to 9999 |
| `Dates.YearRoundTrip` | pkg/persistence/iso8601.go:29-37 | a printed year parses to its last second |
| `Dates.YearFormsAcceptedIff` | pkg/persistence/iso8601.go:167-173 | the accepted year forms are exactly the printed years 1584 to 9999 |
| `Dates.MonthRoundTrip` | pkg/persistence/iso8601.go:39-51 | a printed month parses to the end of its 31st day |
| `Dates.MonthFormsAcceptedIff` | pkg/persistence/iso8601.go:39-51 | the accepted month forms are exactly the printed months of those years |
| `Dates.WeekRoundTrip` | pkg/persistence/iso8601.go:53-65 | a printed week parses to the end of so many sevens of days |
| `Dates.WeekFormsAcceptedIff` | pkg/persistence/iso8601.go:53-65 | the accepted week forms are exactly the weeks 1 to 53 of those years |
| `Dates.HourRoundTrip` | pkg/persistence/iso8601.go:85-105 | a printed hour, also hour 24, parses to its last second |
| `Dates.HourFormsAcceptedIff` | pkg/persistence/iso8601.go:199-205 | the accepted hour forms are exactly the hours 0 to 24 of dates of those years |
| `Dates.FarIsYear3000` | pkg/persistence/sqlite3.go:648-651 | the default of modified_on is the first second of the year 3000 |

## Left out

- Sockets, dialling, deadlines, UDP, bootstrapping: input and output; a connection is a byte sequence.
- `Sink.Terminate`: the daemon never calls it; runs are runs before it.
- Protocol message constructors, validators and dispatch: each is settled by reading one branch.
- `bencode`, SHA-1, `metainfo`, full-text tokenising and bm25: libraries, kept as parameters.
- Paging.Browser.LoadAll: assumes that the engine serves every request and that the cursors at the page ends resume, since the statement is false otherwise (Paging.Browser.Load has the exact condition for each request); with relevance order it is stated for a store that does not change meanwhile, because a rank depends on all documents; the relevance column of a row is not part of the model.
- Paging.QueryTorrents: a column value that cannot be read into its Go field is not among the outcomes; the values that AddNewTorrent writes rule it out.
- The columns n_seeders, n_leechers, is_readme and content, which no statement of the program writes, and NULL in files.torrent_id, which AddNewTorrent never stores.
- LeechTransfer.ValidInfoIff: says nothing of piece lengths that are not positive and of totals beyond int64, where the test is transcribed only.
- The reason that ParseISO8601 gives for refusing a string is modelled, and nothing is stated about it.
- The ticker's bootstrap from well-known routers.
- The stdout and beanstalkd engines, statistics, HTTP handlers, templates, credentials, readme handler, other scripts: plumbing, or easy members.
