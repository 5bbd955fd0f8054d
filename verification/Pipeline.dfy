/**
 The metadata pipeline: the daemon's event loop, the metadata sink and its leech goroutines, which
 share the map of incoming infohashes and the bounded drain channel.

 Every atomic action is an event; a run is any interleaving of events from a fresh sink. `flush`
 sends on the channel before it takes the lock, so a leech has an explicit stage.
 */
module Pipeline {
  import opened Bytes
  import opened Store

  const DRAIN_CAPACITY := 10

  datatype Result = Result(infoHash: Hash, peers: seq<Peer>)
  datatype Metadata = Metadata(infoHash: Hash, name: string, files: seq<File>)

  /** Running in `Do`; in `flush`, blocked on the send; in `flush`, sent but the key not deleted. */
  datatype Stage = Running | Sending(md: Metadata) | Sent(md: Metadata)
  datatype Leech = Leech(infoHash: Hash, peer: Peer, stage: Stage)

  /** Where the event loop stands. `Inserting` is inside `AddNewTorrent`, past the existence test;
      `tested` tells whether that test really saw the rows. */
  datatype Loop =
    | Idle
    | Sinking(result: Result)
    | Checking(md: Metadata)
    | Inserting(md: Metadata, tested: bool)
    | Stopped
    | Fatal(cause: Cause)

  datatype State = State(maxLeeches: int, incoming: map<Hash, seq<Peer>>,
                         leeches: map<nat, Leech>, nextLeech: nat,
                         drain: seq<Metadata>, loop: Loop, db: Db)

  datatype Event =
    | Trawl(result: Result, queryFails: bool, rowsFail: bool)  // receive a DHT result, test whether it is stored
    | SinkResult                                      // Sink.Sink
    | Take                                            // receive from the drain
    | Check(faults: set<nat>)                         // AddNewTorrent up to its existence test
    | Commit(now: int, id: int, laterFaults: set<nat>)  // AddNewTorrent: inserts and commit
    | Interrupt
    | Fail(leech: nat)                                // Sink.onLeechError
    | Succeed(leech: nat, name: string, files: seq<File>)  // OnSuccess: flush is entered
    | Send(leech: nat)                                // flush: drain <- result
    | DeleteKey(leech: nat)                           // flush: delete under the lock, and return

  predicate Enabled(s: State, e: Event) {
    match e
    case Trawl(_, _, _) => s.loop.Idle?
    case SinkResult => s.loop.Sinking?
    case Take => s.loop.Idle? && s.drain != []
    case Check(_) => s.loop.Checking?
    case Commit(_, id, _) => s.loop.Inserting? && id > 0 && id !in s.db.torrents
    case Interrupt => s.loop.Idle?
    case Fail(l) => l in s.leeches && s.leeches[l].stage.Running?
    case Succeed(l, _, _) => l in s.leeches && s.leeches[l].stage.Running?
    case Send(l) => l in s.leeches && s.leeches[l].stage.Sending? && |s.drain| < DRAIN_CAPACITY
    case DeleteKey(l) => l in s.leeches && s.leeches[l].stage.Sent?
  }

  /** `go NewLeech(infoHash, &peer, ...).Do(...)`. */
  function Spawn(s: State, infoHash: Hash, peer: Peer): State {
    s.(leeches := s.leeches[s.nextLeech := Leech(infoHash, peer, Running)], nextLeech := s.nextLeech + 1)
  }

  /** `Sink.Sink` takes the result: there is room, the hash is not pending, and there is a peer. */
  predicate Accepts(s: State, r: Result) {
    |s.incoming| < s.maxLeeches && r.infoHash !in s.incoming && |r.peers| > 0
  }

  /** An error of `AddNewTorrent` is fatal. */
  function After(status: Status): Loop {
    if status.Failed? then Fatal(status.cause) else Idle
  }

  function Next(s: State, e: Event): State {
    if !Enabled(s, e) then s else
    match e
    case Trawl(r, queryFails, rowsFail) =>
      if queryFails then s.(loop := Fatal(Unavailable))
      else if Exists(s.db, r.infoHash) && !rowsFail then s
      else s.(loop := Sinking(r))
    case SinkResult =>
      var r := s.loop.result;
      if !Accepts(s, r) then s.(loop := Idle)
      else Spawn(s.(loop := Idle, incoming := s.incoming[r.infoHash := r.peers[1..]]), r.infoHash, r.peers[0])
    case Take => s.(loop := Checking(s.drain[0]), drain := s.drain[1..])
    case Check(faults) =>
      var md := s.loop.md;
      (match EarlyReturn(s.db, md.infoHash, md.files, faults)
       case None => s.(loop := Inserting(md, 2 !in faults))
       case Some(status) => s.(loop := After(status)))
    case Commit(now, id, faults) =>
      var md := s.loop.md;
      var status := InsertVerdict(s.db, md.infoHash, md.files, now, faults);
      if status.Failed? then s.(loop := After(status))
      else s.(loop := Idle, db := WithTorrent(s.db, id, md.infoHash, md.name, md.files, now))
    case Interrupt => s.(loop := Stopped)
    case Fail(l) =>
      var h := s.leeches[l].infoHash;
      var gone := s.(leeches := s.leeches - {l});
      if h in s.incoming && |s.incoming[h]| > 0
      then Spawn(gone.(incoming := s.incoming[h := s.incoming[h][1..]]), h, s.incoming[h][0])
      else gone.(incoming := s.incoming - {h})
    case Succeed(l, name, files) =>
      var leech := s.leeches[l];
      s.(leeches := s.leeches[l := leech.(stage := Sending(Metadata(leech.infoHash, name, files)))])
    case Send(l) =>
      var md := s.leeches[l].stage.md;
      s.(leeches := s.leeches[l := s.leeches[l].(stage := Sent(md))], drain := s.drain + [md])
    case DeleteKey(l) =>
      s.(leeches := s.leeches - {l}, incoming := s.incoming - {s.leeches[l].stage.md.infoHash})
  }

  /** Any sequence of events from a new sink over a store; an event that is not enabled is skipped. */
  datatype Run = Start(maxLeeches: int, db: Db) | Then(before: Run, event: Event)

  function Final(run: Run): State {
    match run
    case Start(maxLeeches, db) => State(maxLeeches, map[], map[], 0, [], Idle, db)
    case Then(before, event) => Next(Final(before), event)
  }

  function Origin(run: Run): Db {
    match run
    case Start(_, db) => db
    case Then(before, _) => Origin(before)
  }

  // ---------------------------------------------------------------------------------------------
  // Keys and leeches correspond one to one
  // ---------------------------------------------------------------------------------------------

  /** Every leech below `next` has its key, no two share one, and there are as many as keys. */
  ghost predicate Linked(keys: set<Hash>, leeches: map<nat, Leech>, next: nat) {
    && (forall l :: l in leeches ==> l < next && leeches[l].infoHash in keys)
    && Distinct(leeches)
    && |leeches| == |keys|
  }

  ghost predicate Distinct(leeches: map<nat, Leech>) {
    forall k, l | k in leeches && l in leeches && k != l :: leeches[k].infoHash != leeches[l].infoHash
  }

  ghost predicate HasLeech(leeches: map<nat, Leech>, h: Hash) {
    exists l :: l in leeches && leeches[l].infoHash == h
  }

  ghost predicate OneToOne(s: State) {
    Linked(s.incoming.Keys, s.leeches, s.nextLeech)
  }

  ghost predicate Bounded(s: State) {
    && (|s.incoming| == 0 || |s.incoming| <= s.maxLeeches)
    && |s.drain| <= DRAIN_CAPACITY
  }

  /** What a leech flushes is metadata of its own infohash. */
  ghost predicate OwnMetadata(leeches: map<nat, Leech>) {
    forall l :: l in leeches && !leeches[l].stage.Running? ==> leeches[l].stage.md.infoHash == leeches[l].infoHash
  }

  lemma LinkSpawned(keys: set<Hash>, leeches: map<nat, Leech>, next: nat, leech: Leech)
    requires Linked(keys, leeches, next) && leech.infoHash !in keys
    ensures Linked(keys + {leech.infoHash}, leeches[next := leech], next + 1)
  {
  }

  lemma LinkRemoved(keys: set<Hash>, leeches: map<nat, Leech>, next: nat, l: nat)
    requires Linked(keys, leeches, next) && l in leeches
    ensures Linked(keys - {leeches[l].infoHash}, leeches - {l}, next)
  {
    assert (leeches - {l}).Keys == leeches.Keys - {l};
  }

  lemma LinkRetried(keys: set<Hash>, leeches: map<nat, Leech>, next: nat, l: nat, retry: Leech)
    requires Linked(keys, leeches, next) && l in leeches && retry.infoHash == leeches[l].infoHash
    ensures Linked(keys, (leeches - {l})[next := retry], next + 1)
  {
    LinkRemoved(keys, leeches, next, l);
    LinkSpawned(keys - {retry.infoHash}, leeches - {l}, next, retry);
    assert keys - {retry.infoHash} + {retry.infoHash} == keys;
  }

  lemma LinkRestaged(keys: set<Hash>, leeches: map<nat, Leech>, next: nat, l: nat, stage: Stage)
    requires Linked(keys, leeches, next) && l in leeches
    ensures Linked(keys, leeches[l := leeches[l].(stage := stage)], next)
  {
  }

  /** With as many leeches as keys and no two leeches alike, every key has its leech. */
  lemma {:induction false} LinkedCovers(keys: set<Hash>, leeches: map<nat, Leech>, next: nat, h: Hash)
    requires Linked(keys, leeches, next) && h in keys
    ensures HasLeech(leeches, h)
    decreases |leeches|
  {
    assert leeches.Keys != {} by { assert |keys| > 0; }
    var l :| l in leeches;
    if leeches[l].infoHash != h {
      LinkRemoved(keys, leeches, next, l);
      assert (leeches - {l}).Keys == leeches.Keys - {l};
      LinkedCovers(keys - {leeches[l].infoHash}, leeches - {l}, next, h);
    }
  }

  lemma FailKeepsOneToOne(s: State, l: nat)
    requires OneToOne(s) && Bounded(s) && Enabled(s, Fail(l))
    ensures OneToOne(Next(s, Fail(l))) && Bounded(Next(s, Fail(l)))
  {
    var h := s.leeches[l].infoHash;
    var keys := s.incoming.Keys;
    if |s.incoming[h]| > 0 {
      LinkRetried(keys, s.leeches, s.nextLeech, l, Leech(h, s.incoming[h][0], Running));
      assert s.incoming[h := s.incoming[h][1..]].Keys == keys;
    } else {
      LinkRemoved(keys, s.leeches, s.nextLeech, l);
      assert (s.incoming - {h}).Keys == keys - {h};
    }
  }

  lemma SinkKeepsOneToOne(s: State)
    requires OneToOne(s) && Bounded(s) && Enabled(s, SinkResult)
    ensures OneToOne(Next(s, SinkResult)) && Bounded(Next(s, SinkResult))
  {
    var r := s.loop.result;
    if Accepts(s, r) {
      LinkSpawned(s.incoming.Keys, s.leeches, s.nextLeech, Leech(r.infoHash, r.peers[0], Running));
      assert s.incoming[r.infoHash := r.peers[1..]].Keys == s.incoming.Keys + {r.infoHash};
    }
  }

  lemma FlushKeepsOneToOne(s: State, e: Event)
    requires OneToOne(s) && Bounded(s) && OwnMetadata(s.leeches)
    requires (e.Succeed? || e.Send? || e.DeleteKey?) && Enabled(s, e)
    ensures OneToOne(Next(s, e)) && Bounded(Next(s, e))
  {
    var keys, leech := s.incoming.Keys, s.leeches[e.leech];
    match e
    case Succeed(l, name, files) =>
      LinkRestaged(keys, s.leeches, s.nextLeech, l, Sending(Metadata(leech.infoHash, name, files)));
    case Send(l) => LinkRestaged(keys, s.leeches, s.nextLeech, l, Sent(leech.stage.md));
    case DeleteKey(l) =>
      LinkRemoved(keys, s.leeches, s.nextLeech, l);
      assert (s.incoming - {leech.infoHash}).Keys == keys - {leech.infoHash};
  }

  lemma {:induction false} LeechesFlushOwn(run: Run)
    ensures OwnMetadata(Final(run).leeches)
  {
    if run.Then? { LeechesFlushOwn(run.before); }
  }

  /** In every interleaving the pending keys and the unfinished leeches correspond one to one, at
      most `maxLeeches` are pending, and the drain never exceeds its capacity. */
  lemma {:induction false} PendingOneToOne(run: Run)
    ensures OneToOne(Final(run)) && Bounded(Final(run)) && |Final(run).drain| <= 10
  {
    if run.Then? {
      PendingOneToOne(run.before);
      LeechesFlushOwn(run.before);
      var s, e := Final(run.before), run.event;
      if Enabled(s, e) {
        match e
        case SinkResult => SinkKeepsOneToOne(s);
        case Fail(l) => FailKeepsOneToOne(s, l);
        case Succeed(_, _, _) => FlushKeepsOneToOne(s, e);
        case Send(_) => FlushKeepsOneToOne(s, e);
        case DeleteKey(_) => FlushKeepsOneToOne(s, e);
        case _ =>
      }
    }
  }

  /** Read as a statement about hashes: a key is pending exactly when one leech works for it. */
  lemma PendingHasItsLeech(run: Run, h: Hash)
    ensures h in Final(run).incoming <==> HasLeech(Final(run).leeches, h)
  {
    PendingOneToOne(run);
    var s := Final(run);
    if h in s.incoming { LinkedCovers(s.incoming.Keys, s.leeches, s.nextLeech, h); }
  }

  /** `flush` deletes the key that the metadata carries. In every run that is the key of the leech that
      flushes, it is pending, and no other leech works for it. */
  lemma LeechesOwnMetadata(run: Run, l: nat)
    requires Enabled(Final(run), DeleteKey(l))
    ensures var s, t := Final(run), Next(Final(run), DeleteKey(l));
            && s.leeches[l].infoHash in s.incoming && t.incoming == s.incoming - {s.leeches[l].infoHash}
            && !HasLeech(t.leeches, s.leeches[l].infoHash)
  {
    PendingOneToOne(run);
    LeechesFlushOwn(run);
  }

  // ---------------------------------------------------------------------------------------------
  // Accounting over whole runs
  // ---------------------------------------------------------------------------------------------

  predicate AcceptsNow(s: State, e: Event, h: Hash) {
    e.SinkResult? && Enabled(s, e) && s.loop.result.infoHash == h && Accepts(s, s.loop.result)
  }

  predicate FlushedNow(s: State, e: Event, h: Hash) {
    e.DeleteKey? && Enabled(s, e) && s.leeches[e.leech].stage.md.infoHash == h
  }

  /** A leech reports an error; it is the last of its peer list when nothing is left for its hash. */
  predicate ErredNow(s: State, e: Event, h: Hash) {
    e.Fail? && Enabled(s, e) && s.leeches[e.leech].infoHash == h
  }

  predicate ExhaustedNow(s: State, e: Event, h: Hash) {
    ErredNow(s, e, h) && (h in s.incoming ==> s.incoming[h] == [])
  }

  function Accepted(run: Run, h: Hash): nat {
    if run.Start? then 0
    else Accepted(run.before, h) + if AcceptsNow(Final(run.before), run.event, h) then 1 else 0
  }

  function Flushed(run: Run, h: Hash): nat {
    if run.Start? then 0
    else Flushed(run.before, h) + if FlushedNow(Final(run.before), run.event, h) then 1 else 0
  }

  function Exhausted(run: Run, h: Hash): nat {
    if run.Start? then 0
    else Exhausted(run.before, h) + if ExhaustedNow(Final(run.before), run.event, h) then 1 else 0
  }

  predicate LoopOnly(e: Event) {
    e.Trawl? || e.Take? || e.Check? || e.Commit? || e.Interrupt?
  }

  lemma LoopKeepsSink(s: State, e: Event)
    requires LoopOnly(e)
    ensures var t := Next(s, e); t.incoming == s.incoming && t.leeches == s.leeches && t.nextLeech == s.nextLeech
  {
  }

  lemma RestagedSame(s: State, e: Event)
    requires e.Succeed? || e.Send?
    ensures var t := Next(s, e);
            && t.incoming == s.incoming && t.nextLeech == s.nextLeech && t.leeches.Keys == s.leeches.Keys
            && forall l :: l in t.leeches ==> t.leeches[l].infoHash == s.leeches[l].infoHash && t.leeches[l].peer == s.leeches[l].peer
  {
  }

  lemma StepAccounted(s: State, e: Event, h: Hash)
    requires OneToOne(s) && OwnMetadata(s.leeches)
    ensures (if h in s.incoming then 1 else 0) + (if AcceptsNow(s, e, h) then 1 else 0) ==
            (if FlushedNow(s, e, h) then 1 else 0) + (if ExhaustedNow(s, e, h) then 1 else 0) +
            (if h in Next(s, e).incoming then 1 else 0)
  {
    if LoopOnly(e) { LoopKeepsSink(s, e); } else if e.Succeed? || e.Send? { RestagedSame(s, e); }
  }

  /** Every accepted Sink call is flushed, exhausted or still pending: none is lost or counted twice. */
  lemma {:induction false} AcceptedAccounted(run: Run, h: Hash)
    ensures Accepted(run, h) == Flushed(run, h) + Exhausted(run, h) + if h in Final(run).incoming then 1 else 0
  {
    if run.Then? {
      AcceptedAccounted(run.before, h);
      PendingOneToOne(run.before);
      LeechesFlushOwn(run.before);
      StepAccounted(Final(run.before), run.event, h);
    }
  }

  /** The peer list of the last accepted Sink call for `h`. */
  function Offered(run: Run, h: Hash): seq<Peer> {
    if run.Start? then []
    else if AcceptsNow(Final(run.before), run.event, h) then Final(run.before).loop.result.peers
    else Offered(run.before, h)
  }

  /** The peer of the leech that the event starts for `h`, if it starts one. */
  function SpawnedFor(s: State, t: State, h: Hash): seq<Peer> {
    if s.nextLeech in t.leeches && s.nextLeech < t.nextLeech && t.leeches[s.nextLeech].infoHash == h
    then [t.leeches[s.nextLeech].peer] else []
  }

  /** The peers of the leeches started for `h` since that call, in order. */
  function Tried(run: Run, h: Hash): seq<Peer> {
    if run.Start? then [] else
    (if AcceptsNow(Final(run.before), run.event, h) then [] else Tried(run.before, h)) +
    SpawnedFor(Final(run.before), Final(run), h)
  }

  ghost predicate TriedSoFar(s: State, h: Hash, offered: seq<Peer>, tried: seq<Peer>) {
    && tried <= offered
    && (h in s.incoming ==> offered == tried + s.incoming[h])
    && forall l :: l in s.leeches && s.leeches[l].infoHash == h ==>
         tried != [] && s.leeches[l].peer == tried[|tried| - 1]
  }

  lemma AcceptTriesFirst(s: State, h: Hash)
    requires OneToOne(s) && AcceptsNow(s, SinkResult, h)
    ensures var t := Next(s, SinkResult);
            TriedSoFar(t, h, s.loop.result.peers, SpawnedFor(s, t, h))
  {
    assert s.loop.result.peers == [s.loop.result.peers[0]] + s.loop.result.peers[1..];
  }

  lemma ErrorTriesNext(s: State, e: Event, h: Hash, offered: seq<Peer>, tried: seq<Peer>)
    requires OneToOne(s) && TriedSoFar(s, h, offered, tried) && ErredNow(s, e, h)
    ensures TriedSoFar(Next(s, e), h, offered, tried + SpawnedFor(s, Next(s, e), h))
  {
    if s.incoming[h] == [] {
      assert tried + SpawnedFor(s, Next(s, e), h) == tried;
    } else {
      assert s.incoming[h] == [s.incoming[h][0]] + s.incoming[h][1..];
      assert tried + [s.incoming[h][0]] + s.incoming[h][1..] == offered;
    }
  }

  lemma OtherTriesNothing(s: State, e: Event, h: Hash, offered: seq<Peer>, tried: seq<Peer>)
    requires OneToOne(s) && TriedSoFar(s, h, offered, tried) && !AcceptsNow(s, e, h) && !ErredNow(s, e, h)
    ensures TriedSoFar(Next(s, e), h, offered, tried) && SpawnedFor(s, Next(s, e), h) == []
  {
    var t := Next(s, e);
    OtherLeavesLeeches(s, e, h);
    if LoopOnly(e) { LoopKeepsSink(s, e); } else if e.Succeed? || e.Send? { RestagedSame(s, e); }
    assert h in t.incoming ==> h in s.incoming && t.incoming[h] == s.incoming[h];
  }

  lemma OtherLeavesLeeches(s: State, e: Event, h: Hash)
    requires OneToOne(s) && !AcceptsNow(s, e, h) && !ErredNow(s, e, h)
    ensures var t := Next(s, e);
            && SpawnedFor(s, t, h) == []
            && forall l :: l in t.leeches && t.leeches[l].infoHash == h ==>
                 l in s.leeches && s.leeches[l].infoHash == h && s.leeches[l].peer == t.leeches[l].peer
  {
    if LoopOnly(e) { LoopKeepsSink(s, e); } else if e.Succeed? || e.Send? { RestagedSame(s, e); }
  }

  /** The list offered is the peers tried so far followed by the peers still stored, so each
      position is tried at most once and in order; the pending leech works on the last one tried. */
  lemma {:induction false} PeersTriedInOrder(run: Run, h: Hash)
    ensures TriedSoFar(Final(run), h, Offered(run, h), Tried(run, h))
  {
    if run.Then? {
      PeersTriedInOrder(run.before, h);
      PendingOneToOne(run.before);
      var s, e := Final(run.before), run.event;
      if AcceptsNow(s, e, h) {
        AcceptTriesFirst(s, h);
        assert [] + SpawnedFor(s, Next(s, e), h) == SpawnedFor(s, Next(s, e), h);
      } else if ErredNow(s, e, h) {
        ErrorTriesNext(s, e, h, Offered(run.before, h), Tried(run.before, h));
      } else {
        OtherTriesNothing(s, e, h, Offered(run.before, h), Tried(run.before, h));
        assert Tried(run.before, h) + [] == Tried(run.before, h);
      }
    }
  }

  /** A pending key with `n` peers left can still return from `n + 1` callbacks. */
  function Tokens(incoming: map<Hash, seq<Peer>>): set<(Hash, nat)> {
    set h, i: nat | h in incoming && 0 <= i <= |incoming[h]| :: (h, i)
  }

  predicate CallbackNow(s: State, e: Event) {
    (e.Fail? || e.DeleteKey?) && Enabled(s, e)
  }

  function Callbacks(run: Run): nat {
    if run.Start? then 0
    else Callbacks(run.before) + if CallbackNow(Final(run.before), run.event) then 1 else 0
  }

  function PeersAccepted(run: Run): nat {
    if run.Start? then 0 else
    var s := Final(run.before);
    PeersAccepted(run.before) +
      if run.event.SinkResult? && Enabled(s, run.event) && Accepts(s, s.loop.result)
      then |s.loop.result.peers| else 0
  }

  lemma TokensDrop(before: map<Hash, seq<Peer>>, after: map<Hash, seq<Peer>>, h: Hash)
    requires h in before
    requires after == before - {h} || (before[h] != [] && after == before[h := before[h][1..]])
    ensures |Tokens(after)| < |Tokens(before)|
  {
    var top := (h, |before[h]|);
    assert Tokens(after) <= Tokens(before) - {top};
    SubsetSize(Tokens(after), Tokens(before) - {top});
    assert |Tokens(before) - {top}| == |Tokens(before)| - 1;
  }

  lemma CallbackSpendsToken(s: State, e: Event)
    requires OneToOne(s) && OwnMetadata(s.leeches) && CallbackNow(s, e)
    ensures |Tokens(Next(s, e).incoming)| < |Tokens(s.incoming)|
  {
    TokensDrop(s.incoming, Next(s, e).incoming, s.leeches[e.leech].infoHash);
  }

  lemma {:induction false} TokensOfKey(h: Hash, n: nat)
    ensures |set i: nat | i <= n :: (h, i)| == n + 1
  {
    var all := set i: nat | i <= n :: (h, i);
    if n == 0 {
      assert all == {(h, 0)};
    } else {
      TokensOfKey(h, n - 1);
      assert all == (set i: nat | i <= n - 1 :: (h, i)) + {(h, n)};
    }
  }

  lemma AcceptAddsTokens(incoming: map<Hash, seq<Peer>>, h: Hash, rest: seq<Peer>)
    requires h !in incoming
    ensures |Tokens(incoming[h := rest])| == |Tokens(incoming)| + |rest| + 1
  {
    var own := set i: nat | i <= |rest| :: (h, i);
    TokensOfKey(h, |rest|);
    assert Tokens(incoming[h := rest]) == Tokens(incoming) + own;
    assert Tokens(incoming) !! own;
  }

  lemma OtherKeepsKeys(s: State, e: Event)
    requires !CallbackNow(s, e) && !(e.SinkResult? && Enabled(s, e) && Accepts(s, s.loop.result))
    ensures Next(s, e).incoming == s.incoming
  {
  }

  /** Every callback spends at least one unit of the remaining work, and only accepted peers supply
      any: over a whole run the callbacks, with the work still pending, never exceed the number of
      peers accepted, so the leeches come to rest once nothing new is accepted. */
  lemma {:induction false} CallbacksBounded(run: Run)
    ensures Callbacks(run) + |Tokens(Final(run).incoming)| <= PeersAccepted(run)
  {
    if run.Start? {
      assert Tokens(Final(run).incoming) == {};
    } else {
      CallbacksBounded(run.before);
      PendingOneToOne(run.before);
      LeechesFlushOwn(run.before);
      var s, e := Final(run.before), run.event;
      if CallbackNow(s, e) {
        CallbackSpendsToken(s, e);
      } else if e.SinkResult? && Enabled(s, e) && Accepts(s, s.loop.result) {
        AcceptAddsTokens(s.incoming, s.loop.result.infoHash, s.loop.result.peers[1..]);
      } else {
        OtherKeepsKeys(s, e);
      }
    }
  }

  // ---------------------------------------------------------------------------------------------
  // The drain and the store
  // ---------------------------------------------------------------------------------------------

  function SentToDrain(run: Run): seq<Metadata> {
    if run.Start? then [] else
    var s := Final(run.before);
    SentToDrain(run.before) +
      if run.event.Send? && Enabled(s, run.event) then [s.leeches[run.event.leech].stage.md] else []
  }

  function TakenFromDrain(run: Run): seq<Metadata> {
    if run.Start? then [] else
    var s := Final(run.before);
    TakenFromDrain(run.before) + if run.event.Take? && Enabled(s, run.event) then [s.drain[0]] else []
  }

  lemma OtherKeepsDrain(s: State, e: Event)
    requires !Enabled(s, e) || !(e.Send? || e.Take?)
    ensures Next(s, e).drain == s.drain
  {
  }

  /** What was flushed is what the event loop took, in the same order, followed by what waits. */
  lemma {:induction false} DrainIsFifo(run: Run)
    ensures SentToDrain(run) == TakenFromDrain(run) + Final(run).drain
  {
    if run.Then? {
      DrainIsFifo(run.before);
      var s := Final(run.before);
      if !Enabled(s, run.event) || !(run.event.Send? || run.event.Take?) {
        OtherKeepsDrain(s, run.event);
      } else if run.event.Take? {
        assert s.drain == [s.drain[0]] + s.drain[1..];
      }
    }
  }

  /** The only writer is the event loop. Past an existence test that saw the rows, the torrent is
      still absent, whatever the leeches do meanwhile. */
  lemma {:induction false} StoreStaysSound(run: Run)
    requires Sound(Origin(run))
    ensures var s := Final(run);
            && Sound(s.db)
            && (s.loop.Inserting? ==> SumSizes(s.loop.md.files) % TWO_64 != 0)
            && (s.loop.Inserting? && s.loop.tested ==> !Exists(s.db, s.loop.md.infoHash))
  {
    if run.Then? {
      StoreStaysSound(run.before);
      CommitKeepsSound(Final(run.before), run.event);
    }
  }

  lemma CommitKeepsSound(s: State, e: Event)
    requires Sound(s.db)
    requires s.loop.Inserting? ==> SumSizes(s.loop.md.files) % TWO_64 != 0
    requires s.loop.Inserting? && s.loop.tested ==> !Exists(s.db, s.loop.md.infoHash)
    ensures var t := Next(s, e);
            && Sound(t.db)
            && (t.loop.Inserting? ==> SumSizes(t.loop.md.files) % TWO_64 != 0)
            && (t.loop.Inserting? && t.loop.tested ==> !Exists(t.db, t.loop.md.infoHash))
  {
    if e.Commit? && Enabled(s, e) {
      var md := s.loop.md;
      if Storable(s.db, md.infoHash, md.files, e.now) {
        AddKeepsSound(s.db, e.id, md.infoHash, md.name, md.files, e.now);
      }
    }
  }

  /** No existence test of the event loop loses rows. */
  predicate TrawlsSeeRows(run: Run) {
    run.Then? ==> TrawlsSeeRows(run.before) && (run.event.Trawl? ==> !run.event.rowsFail)
  }

  /** What is stored is not fetched again: as long as the event loop's existence tests see the rows, the
      sink never accepts an infohash that was in the store from the start. */
  lemma {:induction false} StoredNotFetched(run: Run, h: Hash)
    requires Exists(Origin(run), h) && TrawlsSeeRows(run)
    ensures Accepted(run, h) == 0 && Exists(Final(run).db, h)
    ensures Final(run).loop.Sinking? ==> Final(run).loop.result.infoHash != h
  {
    if run.Then? {
      StoredNotFetched(run.before, h);
      StaysStored(Final(run.before), run.event, h);
    }
  }

  lemma StaysStored(s: State, e: Event, h: Hash)
    requires Exists(s.db, h) && (e.Trawl? ==> !e.rowsFail) && (s.loop.Sinking? ==> s.loop.result.infoHash != h)
    ensures var t := Next(s, e); Exists(t.db, h) && (t.loop.Sinking? ==> t.loop.result.infoHash != h)
  {
    if e.Commit? && Enabled(s, e) {
      var id :| id in s.db.torrents && s.db.torrents[id].infoHash == h;
      assert id in Next(s, e).db.torrents && Next(s, e).db.torrents[id].infoHash == h;
    }
  }

  /** No call to the database fails. */
  predicate FaultFree(run: Run) {
    run.Then? ==>
      && FaultFree(run.before)
      && match run.event
         case Trawl(_, queryFails, rowsFail) => !queryFails && !rowsFail
         case Check(faults) => faults == {}
         case Commit(_, _, faults) => faults == {}
         case _ => true
  }

  /** Without such a failure the daemon is stopped only by a total that is no int64 or by a clock outside
      the years 1970 to 2999: an infohash that comes twice is no error. */
  lemma {:induction false} FaultFreeStops(run: Run)
    requires Sound(Origin(run)) && FaultFree(run)
    ensures var loop := Final(run).loop;
            && (loop.Inserting? ==> loop.tested)
            && (loop.Fatal? ==> loop.cause == NotAnInt64 || loop.cause == CheckViolated)
  {
    if run.Then? {
      FaultFreeStops(run.before);
      StoreStaysSound(run.before);
    }
  }

  /** In every run, the insert meets its own hash exactly when the existence test lost the rows of a
      stored torrent; a test that saw them is enough, although the drain may hold one infohash twice. */
  lemma UniqueViolationNeedsLostRows(run: Run, now: int, id: int, faults: set<nat>)
    requires Sound(Origin(run)) && Enabled(Final(run), Commit(now, id, faults))
    ensures var s := Final(run);
            Next(s, Commit(now, id, faults)).loop == Fatal(UniqueViolated) <==>
            && !s.loop.tested && Exists(s.db, s.loop.md.infoHash)
            && SumSizes(s.loop.md.files) % TWO_64 < TWO_63 && 3 !in faults
  {
    StoreStaysSound(run);
  }

  /** Metadata of `h` is in the drain, in the event loop's hands, or stored since the start. */
  ghost predicate Arrived(s: State, origin: Db, h: Hash) {
    || (exists i :: 0 <= i < |s.drain| && s.drain[i].infoHash == h)
    || ((s.loop.Checking? || s.loop.Inserting?) && s.loop.md.infoHash == h)
    || (Exists(s.db, h) && !Exists(origin, h))
  }

  /** What arrives was there before, or is sent by a leech that works for it. */
  lemma ArrivesBySending(s: State, e: Event, origin: Db, h: Hash)
    requires OneToOne(s) && OwnMetadata(s.leeches) && Arrived(Next(s, e), origin, h)
    ensures Arrived(s, origin, h) || h in s.incoming
  {
    if Enabled(s, e) {
      match e
      case Send(l) => ArrivesFromLeech(s, l, origin, h);
      case Take => assert s.drain[0] in s.drain && forall i | 0 <= i < |s.drain[1..]| :: s.drain[1..][i] == s.drain[i + 1];
      case Commit(now, id, faults) => CommitAddsOne(s, e, h);
      case Check(_) =>
      case _ => assert Next(s, e).drain == s.drain && Next(s, e).db == s.db;
    }
  }

  lemma CommitAddsOne(s: State, e: Event, h: Hash)
    requires e.Commit? && Enabled(s, e)
    ensures Next(s, e).drain == s.drain && !Next(s, e).loop.Checking? && !Next(s, e).loop.Inserting?
    ensures Exists(Next(s, e).db, h) ==> Exists(s.db, h) || h == s.loop.md.infoHash
  {
  }

  lemma ArrivesFromLeech(s: State, l: nat, origin: Db, h: Hash)
    requires OneToOne(s) && OwnMetadata(s.leeches) && Enabled(s, Send(l)) && Arrived(Next(s, Send(l)), origin, h)
    ensures Arrived(s, origin, h) || h in s.incoming
  {
    var drain := Next(s, Send(l)).drain;
    if !Arrived(s, origin, h) {
      var i :| 0 <= i < |drain| && drain[i].infoHash == h;
      assert i == |s.drain|;
    }
  }

  /** Nothing reaches the drain or the store whose infohash the sink has not accepted. */
  lemma {:induction false} StoredWasAccepted(run: Run, h: Hash)
    requires Arrived(Final(run), Origin(run), h)
    ensures Accepted(run, h) >= 1
  {
    if run.Then? {
      PendingOneToOne(run.before);
      LeechesFlushOwn(run.before);
      ArrivesBySending(Final(run.before), run.event, Origin(run.before), h);
      AcceptedAccounted(run.before, h);
      if Arrived(Final(run.before), Origin(run.before), h) { StoredWasAccepted(run.before, h); }
    }
  }

  // ---------------------------------------------------------------------------------------------
  // Runs that go wrong
  // ---------------------------------------------------------------------------------------------

  /** The result `r` is trawled, sunk, fetched by leech `l` and flushed. */
  function Fetch(run: Run, r: Result, l: nat, name: string, files: seq<File>): Run {
    var sunk := Then(Then(run, Trawl(r, false, false)), SinkResult);
    Then(Then(Then(sunk, Succeed(l, name, files)), Send(l)), DeleteKey(l))
  }

  function Fetched(s: State, r: Result, name: string, files: seq<File>): State {
    s.(drain := s.drain + [Metadata(r.infoHash, name, files)], nextLeech := s.nextLeech + 1)
  }

  lemma FetchUnfolds(run: Run, r: Result, l: nat, name: string, files: seq<File>)
    ensures Origin(Fetch(run, r, l, name, files)) == Origin(run)
    ensures var sunk := Next(Next(Final(run), Trawl(r, false, false)), SinkResult);
            Final(Fetch(run, r, l, name, files)) == Next(Next(Next(sunk, Succeed(l, name, files)), Send(l)), DeleteKey(l))
  {
    var sunk := Then(Then(run, Trawl(r, false, false)), SinkResult);
    assert Origin(sunk) == Origin(run);
    var sent := Then(Then(sunk, Succeed(l, name, files)), Send(l));
    assert Origin(sent) == Origin(sunk);
    assert Final(sunk) == Next(Next(Final(run), Trawl(r, false, false)), SinkResult);
    assert Final(sent) == Next(Next(Final(sunk), Succeed(l, name, files)), Send(l));
  }

  predicate ReadyToFetch(s: State, r: Result) {
    && s.loop == Idle && !Exists(s.db, r.infoHash) && Accepts(s, r)
    && s.leeches == map[] && |s.drain| < DRAIN_CAPACITY
  }

  lemma FetchSteps(s: State, r: Result, name: string, files: seq<File>)
    requires ReadyToFetch(s, r)
    ensures var l, sunk := s.nextLeech, Next(Next(s, Trawl(r, false, false)), SinkResult);
            Next(Next(Next(sunk, Succeed(l, name, files)), Send(l)), DeleteKey(l)) == Fetched(s, r, name, files)
  {
    var l, md := s.nextLeech, Metadata(r.infoHash, name, files);
    var s1 := Next(s, Trawl(r, false, false));
    var s2 := Next(s1, SinkResult);
    assert s2 == s.(incoming := s.incoming[r.infoHash := r.peers[1..]], nextLeech := l + 1,
                    leeches := map[l := Leech(r.infoHash, r.peers[0], Running)]);
    var s3 := Next(s2, Succeed(l, name, files));
    var s4 := Next(s3, Send(l));
    assert s4 == s2.(leeches := map[l := Leech(r.infoHash, r.peers[0], Sent(md))], drain := s.drain + [md]);
    assert s.incoming[r.infoHash := r.peers[1..]] - {r.infoHash} == s.incoming;
  }

  lemma FetchFlushes(run: Run, r: Result, l: nat, name: string, files: seq<File>)
    requires ReadyToFetch(Final(run), r) && l == Final(run).nextLeech
    ensures var next := Fetch(run, r, l, name, files);
            Origin(next) == Origin(run) && Final(next) == Fetched(Final(run), r, name, files)
  {
    FetchUnfolds(run, r, l, name, files);
    FetchSteps(Final(run), r, name, files);
  }

  /** The event loop takes the first metadata of the drain and calls AddNewTorrent. */
  function StoreNext(run: Run, now: int, id: int, faults: set<nat>): Run {
    Then(Then(Then(run, Take), Check(faults)), Commit(now, id, faults))
  }

  lemma StoreUnfolds(run: Run, now: int, id: int, faults: set<nat>)
    ensures var next := StoreNext(run, now, id, faults);
            && Origin(next) == Origin(run)
            && Final(next) == Next(Next(Next(Final(run), Take), Check(faults)), Commit(now, id, faults))
  {
    var taken := Then(run, Take);
    assert Origin(taken) == Origin(run) && Final(taken) == Next(Final(run), Take);
    var checked := Then(taken, Check(faults));
    assert Origin(checked) == Origin(taken) && Final(checked) == Next(Final(taken), Check(faults));
  }

  /** Take, check and commit come to what AddNewTorrent promises. */
  lemma StoreOutcome(run: Run, now: int, id: int, faults: set<nat>)
    requires var s := Final(run); s.loop == Idle && s.drain != [] && id > 0 && id !in s.db.torrents
    ensures var s, next := Final(run), StoreNext(run, now, id, faults);
            var md := s.drain[0];
            && Origin(next) == Origin(run)
            && Final(next) == s.(drain := s.drain[1..], loop := After(AddStatus(s.db, md.infoHash, md.files, now, faults)),
                 db := if AddStores(s.db, md.infoHash, md.files, now, faults)
                       then WithTorrent(s.db, id, md.infoHash, md.name, md.files, now) else s.db)
  {
    StoreUnfolds(run, now, id, faults);
    StoreSteps(Final(run), now, id, faults);
  }

  lemma StoreSteps(s: State, now: int, id: int, faults: set<nat>)
    requires s.loop == Idle && s.drain != [] && id > 0 && id !in s.db.torrents
    ensures var md := s.drain[0];
            Next(Next(Next(s, Take), Check(faults)), Commit(now, id, faults)) ==
            s.(drain := s.drain[1..], loop := After(AddStatus(s.db, md.infoHash, md.files, now, faults)),
               db := if AddStores(s.db, md.infoHash, md.files, now, faults)
                     then WithTorrent(s.db, id, md.infoHash, md.name, md.files, now) else s.db)
  {
    var md := s.drain[0];
    var early := EarlyReturn(s.db, md.infoHash, md.files, faults);
    var checked := Next(Next(s, Take), Check(faults));
    assert checked == s.(drain := s.drain[1..], loop := if early.Some? then After(early.value) else Inserting(md, 2 !in faults));
  }

  /** One infohash can wait in the drain twice: its key is deleted before its row is stored, so a
      second result for it is accepted meanwhile. */
  lemma DrainMayRepeat(h: Hash, peer: Peer, name: string, files: seq<File>, db: Db) returns (run: Run)
    requires !Exists(db, h)
    ensures Origin(run) == db
    ensures var md := Metadata(h, name, files); Final(run) == State(1, map[], map[], 2, [md, md], Idle, db)
  {
    var r := Result(h, [peer]);
    FetchFlushes(Start(1, db), r, 0, name, files);
    var once := Fetch(Start(1, db), r, 0, name, files);
    FetchFlushes(once, r, 1, name, files);
    run := Fetch(once, r, 1, name, files);
  }

  /** From any sound store, a torrent fetched twice stops the daemon if the existence test of its
      second insert loses the rows. */
  lemma LostRowsStopTheDaemon(h: Hash, peer: Peer, name: string, files: seq<File>, db: Db,
                              now: int, id: int, later: int, laterId: int) returns (run: Run)
    requires Sound(db) && Storable(db, h, files, now) && id > 0 && id !in db.torrents
    requires laterId > 0 && laterId != id && laterId !in db.torrents
    ensures Origin(run) == db && Final(run).loop == Fatal(UniqueViolated)
  {
    var twice := DrainMayRepeat(h, peer, name, files, db);
    StoreOutcome(twice, now, id, {});
    var once := StoreNext(twice, now, id, {});
    assert Final(once).db.torrents[id].infoHash == h;
    run := StoreNext(once, later, laterId, {2});
    StoreOutcome(once, later, laterId, {2});
  }

  // ---------------------------------------------------------------------------------------------
  // Totals
  // ---------------------------------------------------------------------------------------------

  predicate StoresNow(s: State, e: Event) {
    e.Commit? && Enabled(s, e) &&
    InsertVerdict(s.db, s.loop.md.infoHash, s.loop.md.files, e.now, e.laterFaults) == Done
  }

  /** Every torrent stored in the run has a total that is a positive int64 before any wrapping. */
  predicate TrueTotals(run: Run) {
    run.Then? ==>
      var s := Final(run.before);
      TrueTotals(run.before) && (StoresNow(s, run.event) ==> 0 < SumSizes(s.loop.md.files) < TWO_63)
  }

  /** After every run the stored totals are the sums of the stored files exactly when no stored sum
      has wrapped. */
  lemma {:induction false} SizesAgreeIff(run: Run)
    requires Sound(Origin(run)) && SizesAgree(Origin(run))
    ensures SizesAgree(Final(run).db) <==> TrueTotals(run)
  {
    if run.Then? {
      SizesAgreeIff(run.before);
      StoreStaysSound(run.before);
      var s, e := Final(run.before), run.event;
      if StoresNow(s, e) {
        AddKeepsSizes(s.db, e.id, s.loop.md.infoHash, s.loop.md.name, s.loop.md.files, e.now);
      } else {
        assert Next(s, e).db == s.db;
      }
    }
  }

  /** No size is negative, and the sum is an uint64. */
  predicate Countable(files: seq<File>) {
    (forall f | f in files :: f.size >= 0) && SumSizes(files) < TWO_64
  }

  lemma {:induction false} SumNotNegative(files: seq<File>)
    requires forall f | f in files :: f.size >= 0
    ensures SumSizes(files) >= 0
  {
    if files != [] { SumNotNegative(files[..|files| - 1]); }
  }

  /** Every leech that succeeds reports such files. Of the two conditions the leech checks the first. */
  predicate ReportsCountable(run: Run) {
    run.Then? ==> ReportsCountable(run.before) && (run.event.Succeed? ==> Countable(run.event.files))
  }

  ghost predicate CarriesCountable(s: State) {
    && (forall l :: l in s.leeches && !s.leeches[l].stage.Running? ==> Countable(s.leeches[l].stage.md.files))
    && (forall md :: md in s.drain ==> Countable(md.files))
    && (s.loop.Checking? || s.loop.Inserting? ==> Countable(s.loop.md.files))
  }

  lemma {:induction false} CarriedInRuns(run: Run)
    requires ReportsCountable(run)
    ensures CarriesCountable(Final(run))
  {
    if run.Then? {
      CarriedInRuns(run.before);
      CarriesOn(Final(run.before), run.event);
    }
  }

  lemma {:induction false} CountableAreTrue(run: Run)
    requires Sound(Origin(run)) && ReportsCountable(run)
    ensures TrueTotals(run)
  {
    if run.Then? {
      CountableAreTrue(run.before);
      CarriedInRuns(run.before);
      StoreStaysSound(run.before);
      var s := Final(run.before);
      if StoresNow(s, run.event) { CountableStoresTrue(s, run.event); }
    }
  }

  lemma CountableStoresTrue(s: State, e: Event)
    requires CarriesCountable(s) && StoresNow(s, e)
    requires SumSizes(s.loop.md.files) % TWO_64 != 0
    ensures 0 < SumSizes(s.loop.md.files) < TWO_63
  {
    SumNotNegative(s.loop.md.files);
  }

  /** In every run in which the leeches report totals below 2^64, all stored totals are true. */
  lemma CountableTotalsAgree(run: Run)
    requires Sound(Origin(run)) && SizesAgree(Origin(run)) && ReportsCountable(run)
    ensures SizesAgree(Final(run).db)
  {
    CountableAreTrue(run);
    SizesAgreeIff(run);
  }

  lemma CarriesOn(s: State, e: Event)
    requires CarriesCountable(s) && (e.Succeed? ==> Countable(e.files))
    ensures CarriesCountable(Next(s, e))
  {
    if e.Take? && Enabled(s, e) {
      assert s.drain[0] in s.drain;
      assert forall md :: md in s.drain[1..] ==> md in s.drain;
    }
  }

  lemma FetchAndStore(h: Hash, peer: Peer, name: string, files: seq<File>, db: Db, now: int, id: int) returns (run: Run)
    requires Storable(db, h, files, now) && id > 0 && id !in db.torrents
    ensures Origin(run) == db && Final(run).db == WithTorrent(db, id, h, name, files, now)
  {
    FetchFlushes(Start(1, db), Result(h, [peer]), 0, name, files);
    var once := Fetch(Start(1, db), Result(h, [peer]), 0, name, files);
    assert Final(once).drain == [Metadata(h, name, files)];
    StoreOutcome(once, now, id, {});
    run := StoreNext(once, now, id, {});
  }

  lemma ThreeHuge(path: string) returns (files: seq<File>)
    ensures |files| == 3 && (forall f | f in files :: f == File(TWO_63 - 1, path))
    ensures SumSizes(files) > TWO_64 && SumSizes(files) % TWO_64 == TWO_63 - 3
  {
    var f := File(TWO_63 - 1, path);
    files := [f, f, f];
    assert [f][..0] == [] && [f, f][..1] == [f] && files[..2] == [f, f];
    assert SumSizes([f]) == f.size && SumSizes([f, f]) == 2 * f.size;
  }

  /** Without that, a sum that wraps to a small one is stored: here three files of 2^63 - 1 bytes,
      none of which the leech refuses. */
  lemma WrappedTotalIsStored(h: Hash, peer: Peer, name: string, db: Db, now: int, id: int) returns (run: Run)
    requires Sound(db) && SizesAgree(db) && !Exists(db, h) && 0 < now <= FAR && id > 0 && id !in db.torrents
    ensures Origin(run) == db && Exists(Final(run).db, h) && !SizesAgree(Final(run).db)
  {
    var files := ThreeHuge(name);
    run := FetchAndStore(h, peer, name, files, db, now, id);
    assert Final(run).db.torrents[id].infoHash == h;
    AddKeepsSizes(db, id, h, name, files, now);
  }
}
