/**
 The sink as an object whose methods run under its mutex, and the daemon's event loop over it. Each
 method is tied to the atomic events of `Pipeline`, so what is proved of every run there holds here.
 */
module Daemon {
  import opened Bytes
  import opened Store
  import opened Pipeline

  class Sink {
    const maxNLeeches: int
    var incomingInfoHashes: map<Hash, seq<Peer>>
    var drain: seq<Metadata>
    var leeches: map<nat, Leech>  // goroutines started and not yet returned from their callback
    var nextLeech: nat

    constructor (maxNLeeches: int)
      ensures forall db :: View(Idle, db) == Final(Start(maxNLeeches, db))
      ensures this.maxNLeeches == maxNLeeches && incomingInfoHashes == map[] && drain == [] && leeches == map[]
    {
      this.maxNLeeches := maxNLeeches;
      incomingInfoHashes, drain, leeches, nextLeech := map[], [], map[], 0;
    }

    ghost function View(loop: Loop, db: Db): State
      reads this
    {
      State(maxNLeeches, incomingInfoHashes, leeches, nextLeech, drain, loop, db)
    }

    method Go(infoHash: Hash, peer: Peer)
      modifies this`leeches, this`nextLeech
      ensures leeches == old(leeches)[old(nextLeech) := Leech(infoHash, peer, Running)]
      ensures nextLeech == old(nextLeech) + 1
    {
      leeches := leeches[nextLeech := Leech(infoHash, peer, Running)];
      nextLeech := nextLeech + 1;
    }

    method Sink(result: Result, ghost db: Db)
      modifies this
      ensures View(Idle, db) == Next(old(View(Sinking(result), db)), SinkResult)
      // A result is taken if there is room, its infohash is not pending and it has a peer.
      ensures drain == old(drain)
      ensures if |old(incomingInfoHashes)| < maxNLeeches && result.infoHash !in old(incomingInfoHashes) && |result.peers| > 0
              then && incomingInfoHashes == old(incomingInfoHashes)[result.infoHash := result.peers[1..]]
                   && leeches == old(leeches)[old(nextLeech) := Leech(result.infoHash, result.peers[0], Running)]
                   && nextLeech == old(nextLeech) + 1
              else incomingInfoHashes == old(incomingInfoHashes) && leeches == old(leeches) && nextLeech == old(nextLeech)
    {
      if |incomingInfoHashes| >= maxNLeeches { return; }
      if result.infoHash in incomingInfoHashes {
        return;
      } else if |result.peers| > 0 {
        incomingInfoHashes := incomingInfoHashes[result.infoHash := result.peers[1..]];
        Go(result.infoHash, result.peers[0]);
      }
    }

    method OnSuccess(l: nat, name: string, files: seq<File>, ghost loop: Loop, ghost db: Db)
      requires l in leeches && leeches[l].stage.Running?
      modifies this`leeches
      ensures View(loop, db) == Next(old(View(loop, db)), Succeed(l, name, files))
      ensures var leech := old(leeches)[l];
              leeches == old(leeches)[l := Leech(leech.infoHash, leech.peer, Sending(Metadata(leech.infoHash, name, files)))]
    {
      leeches := leeches[l := leeches[l].(stage := Sending(Metadata(leeches[l].infoHash, name, files)))];
    }

    method FlushSend(l: nat, ghost loop: Loop, ghost db: Db)
      requires l in leeches && leeches[l].stage.Sending? && |drain| < 10
      modifies this`leeches, this`drain
      ensures View(loop, db) == Next(old(View(loop, db)), Send(l))
      ensures var leech := old(leeches)[l];
              && drain == old(drain) + [leech.stage.md]
              && leeches == old(leeches)[l := Leech(leech.infoHash, leech.peer, Sent(leech.stage.md))]
    {
      var result := leeches[l].stage.md;
      drain := drain + [result];
      leeches := leeches[l := leeches[l].(stage := Sent(result))];
    }

    method FlushDelete(l: nat, ghost loop: Loop, ghost db: Db)
      requires l in leeches && leeches[l].stage.Sent?
      modifies this`leeches, this`incomingInfoHashes
      ensures View(loop, db) == Next(old(View(loop, db)), DeleteKey(l))
      ensures leeches == old(leeches) - {l}
      ensures incomingInfoHashes == old(incomingInfoHashes) - {old(leeches)[l].stage.md.infoHash}
    {
      var result := leeches[l].stage.md;
      incomingInfoHashes := incomingInfoHashes - {result.infoHash};
      leeches := leeches - {l};
    }

    method OnLeechError(l: nat, ghost loop: Loop, ghost db: Db)
      requires l in leeches && leeches[l].stage.Running?
      modifies this`leeches, this`nextLeech, this`incomingInfoHashes
      ensures View(loop, db) == Next(old(View(loop, db)), Fail(l))
      // The next stored peer is tried, or the infohash is given up.
      ensures var h := old(leeches)[l].infoHash;
              if h in old(incomingInfoHashes) && old(incomingInfoHashes)[h] != []
              then var peers := old(incomingInfoHashes)[h];
                   && incomingInfoHashes == old(incomingInfoHashes)[h := peers[1..]] && nextLeech == old(nextLeech) + 1
                   && leeches == (old(leeches) - {l})[old(nextLeech) := Leech(h, peers[0], Running)]
              else && incomingInfoHashes == old(incomingInfoHashes) - {h} && nextLeech == old(nextLeech)
                   && leeches == old(leeches) - {l}
    {
      var infoHash := leeches[l].infoHash;
      leeches := leeches - {l};
      if infoHash in incomingInfoHashes && |incomingInfoHashes[infoHash]| > 0 {
        var peer := incomingInfoHashes[infoHash][0];
        incomingInfoHashes := incomingInfoHashes[infoHash := incomingInfoHashes[infoHash][1..]];
        Go(infoHash, peer);
      } else {
        incomingInfoHashes := incomingInfoHashes - {infoHash};
      }
    }
  }

  /** What the `select` picks next: a trawled result, the drain, the interrupt, or, meanwhile, an
      action of a leech. */
  datatype Input =
    | FromDht(result: Result, queryFails: bool, rowsFail: bool)
    | FromDrain(now: int, id: int, order: FiringOrder, faults: set<nat>)
    | Interrupted
    | OfLeech(event: Event)

  predicate LeechEvent(e: Event) {
    e.Fail? || e.Succeed? || e.Send? || e.DeleteKey?
  }

  /** The engine picks a row id that no torrent has. */
  predicate FreshId(db: Db, id: int) {
    id > 0 && id !in db.torrents
  }

  /** The run of atomic events that an input stands for. */
  function Extend(run: Run, input: Input): Run {
    match input
    case FromDht(result, queryFails, rowsFail) => Then(Then(run, Trawl(result, queryFails, rowsFail)), SinkResult)
    case FromDrain(now, id, _, faults) =>
      if FreshId(Final(run).db, id) then StoreNext(run, now, id, faults) else run
    case Interrupted => Then(run, Interrupt)
    case OfLeech(e) => if LeechEvent(e) then Then(run, e) else run
  }

  function ExtendAll(run: Run, inputs: seq<Input>): Run {
    if inputs == [] then run else Extend(ExtendAll(run, inputs[..|inputs| - 1]), inputs[|inputs| - 1])
  }

  method LeechActs(sink: Sink, e: Event, ghost loop: Loop, ghost db: Db)
    requires LeechEvent(e)
    modifies sink
    ensures sink.View(loop, db) == Next(old(sink.View(loop, db)), e)
  {
    if e.leech !in sink.leeches { return; }
    match sink.leeches[e.leech].stage
    case Running =>
      if e.Fail? { sink.OnLeechError(e.leech, loop, db); }
      else if e.Succeed? { sink.OnSuccess(e.leech, e.name, e.files, loop, db); }
    case Sending(_) =>
      if e.Send? && |sink.drain| < DRAIN_CAPACITY { sink.FlushSend(e.leech, loop, db); }
    case Sent(_) =>
      if e.DeleteKey? { sink.FlushDelete(e.leech, loop, db); }
  }

  /** The event loop's case for a trawled result. */
  method OnResult(sink: Sink, database: Sqlite3Database, result: Result, queryFails: bool, rowsFail: bool,
                  ghost run: Run) returns (loop: Loop)
    requires Final(run) == sink.View(Idle, database.committed)
    modifies sink
    ensures Final(Extend(run, FromDht(result, queryFails, rowsFail))) == sink.View(loop, database.committed)
    ensures loop == if queryFails then Fatal(Unavailable) else Idle
    ensures sink.drain == old(sink.drain)
    // A stored torrent is not fetched; an absent one is, if it is not pending, has a peer and there is room.
    ensures queryFails || (Exists(database.committed, result.infoHash) && !rowsFail) ==>
            sink.incomingInfoHashes == old(sink.incomingInfoHashes) && sink.leeches == old(sink.leeches)
    ensures && !queryFails && (!Exists(database.committed, result.infoHash) || rowsFail)
            && result.infoHash !in old(sink.incomingInfoHashes) && |result.peers| > 0
            && |old(sink.incomingInfoHashes)| < sink.maxNLeeches ==>
            && sink.incomingInfoHashes == old(sink.incomingInfoHashes)[result.infoHash := result.peers[1..]]
            && sink.leeches == old(sink.leeches)[old(sink.nextLeech) := Leech(result.infoHash, result.peers[0], Running)]
  {
    var exists_, err := database.DoesTorrentExist(result.infoHash, queryFails, rowsFail);
    ghost var trawled := Then(run, Trawl(result, queryFails, rowsFail));
    if err {
      assert Final(trawled) == sink.View(Fatal(Unavailable), database.committed);
      return Fatal(Unavailable);
    } else if !exists_ {
      assert Final(trawled) == sink.View(Sinking(result), database.committed);
      sink.Sink(result, database.committed);
    } else {
      assert Final(trawled) == sink.View(Idle, database.committed);
    }
    return Idle;
  }

  /** The event loop's case for a metadata from the drain. */
  method OnMetadata(sink: Sink, database: Sqlite3Database, now: int, id: int, order: FiringOrder, faults: set<nat>,
                    ghost run: Run) returns (loop: Loop)
    requires Final(run) == sink.View(Idle, database.committed)
    requires sink.drain != [] && FreshId(database.committed, id)
    modifies sink, database
    ensures Final(Extend(run, FromDrain(now, id, order, faults))) == sink.View(loop, database.committed)
    ensures loop.Idle? || loop.Fatal?
    ensures sink.drain == old(sink.drain)[1..]
    ensures sink.incomingInfoHashes == old(sink.incomingInfoHashes) && sink.leeches == old(sink.leeches)
    // Metadata that comes a second time is dropped; new metadata is stored.
    ensures var md := old(sink.drain)[0];
            faults == {} && Exists(old(database.committed), md.infoHash) ==>
            loop.Idle? && database.committed == old(database.committed)
    ensures var md := old(sink.drain)[0];
            && faults == {} && !Exists(old(database.committed), md.infoHash)
            && 0 < SumSizes(md.files) % TWO_64 < TWO_63 && 0 < now <= FAR ==>
            loop.Idle? && StoredInFull(old(database.committed), database.committed, id, md.infoHash, md.name, md.files, now)
  {
    StoreOutcome(run, now, id, faults);
    var md := sink.drain[0];
    sink.drain := sink.drain[1..];
    var status := database.AddNewTorrent(md.infoHash, md.name, md.files, now, id, order, faults);
    loop := After(status);
  }

  /** One round of the event loop. */
  method Handle(sink: Sink, database: Sqlite3Database, input: Input, ghost run: Run) returns (loop: Loop)
    requires Final(run) == sink.View(Idle, database.committed)
    modifies sink, database
    ensures Final(Extend(run, input)) == sink.View(loop, database.committed)
    ensures loop.Idle? || loop.Stopped? || loop.Fatal?
    ensures loop.Stopped? <==> input.Interrupted?
  {
    loop := Idle;
    match input
    case FromDht(result, queryFails, rowsFail) =>
      loop := OnResult(sink, database, result, queryFails, rowsFail, run);
    case FromDrain(now, id, order, faults) =>
      if FreshId(database.committed, id) {
        if sink.drain != [] {
          loop := OnMetadata(sink, database, now, id, order, faults, run);
        } else {
          BlockedDrain(run, now, id, faults);
        }
      }
    case Interrupted => loop := Stopped;
    case OfLeech(e) => if LeechEvent(e) { LeechActs(sink, e, loop, database.committed); }
  }

  /** The event loop, until an interrupt, a fatal error, or the end of what is to come. It has then
      carried out the run of events that the handled inputs stand for. */
  method EventLoop(sink: Sink, database: Sqlite3Database, inputs: seq<Input>, ghost start: Run)
    returns (handled: nat, loop: Loop)
    requires Final(start) == sink.View(Idle, database.committed)
    modifies sink, database
    ensures handled <= |inputs|
    ensures Final(ExtendAll(start, inputs[..handled])) == sink.View(loop, database.committed)
    ensures handled == |inputs| || loop.Stopped? || loop.Fatal?
    // The loop stops at the first interrupt.
    ensures loop.Stopped? <==> handled > 0 && inputs[handled - 1].Interrupted?
    ensures forall i | 0 <= i < handled - 1 :: !inputs[i].Interrupted?
  {
    handled, loop := 0, Idle;
    ghost var run := start;
    while handled < |inputs| && loop.Idle?
      invariant handled <= |inputs|
      invariant run == ExtendAll(start, inputs[..handled]) && Final(run) == sink.View(loop, database.committed)
      invariant loop.Idle? || loop.Stopped? || loop.Fatal?
      invariant loop.Stopped? <==> handled > 0 && inputs[handled - 1].Interrupted?
      invariant forall i | 0 <= i < handled - 1 :: !inputs[i].Interrupted?
      decreases |inputs| - handled
    {
      ExtendOneMore(start, inputs, handled);
      loop := Handle(sink, database, inputs[handled], run);
      run, handled := Extend(run, inputs[handled]), handled + 1;
    }
  }

  lemma ExtendOneMore(start: Run, inputs: seq<Input>, n: nat)
    requires n < |inputs|
    ensures ExtendAll(start, inputs[..n + 1]) == Extend(ExtendAll(start, inputs[..n]), inputs[n])
  {
    assert inputs[..n + 1][..n] == inputs[..n];
  }

  lemma BlockedDrain(run: Run, now: int, id: int, faults: set<nat>)
    requires Final(run).loop.Idle? && Final(run).drain == []
    ensures Final(StoreNext(run, now, id, faults)) == Final(run)
  {
    StoreUnfolds(run, now, id, faults);
  }
}
