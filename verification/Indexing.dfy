/**
 The DHT indexing service: the 16-bit counter that names outstanding get_peers queries, the cut of
 sampled infohashes, and the capped routing table whose entries point into loop variables.
 */
module Indexing {
  import opened Bytes

  datatype UdpAddr = UdpAddr(ip: seq<byte>, port: int)
  datatype Node = Node(id: seq<byte>, addr: UdpAddr)

  const NO_ADDR := UdpAddr([], 0)

  // ---------------------------------------------------------------------------------------------
  // Outstanding queries
  // ---------------------------------------------------------------------------------------------

  /** Outstanding queries by transaction ID. A two-byte key is written as the word it spells. */
  datatype Transactions = Transactions(counter: nat, requests: map<int, Hash>)

  datatype TxEvent = Query(infoHash: Hash) | Response(t: int)

  const WORDS := 0x1_0000

  function Apply(tx: Transactions, e: TxEvent): Transactions {
    match e
    case Query(h) => Transactions((tx.counter + 1) % WORDS, tx.requests[tx.counter := h])
    case Response(t) => tx.(requests := tx.requests - {t})
  }

  function Replay(tx: Transactions, history: seq<TxEvent>): Transactions {
    if history == [] then tx else Apply(Replay(tx, history[..|history| - 1]), history[|history| - 1])
  }

  const FRESH := Transactions(0, map[])

  /** Histories of several handlers compose. */
  lemma {:induction false} ReplayConcat(tx: Transactions, a: seq<TxEvent>, b: seq<TxEvent>)
    ensures Replay(tx, a + b) == Replay(Replay(tx, a), b)
  {
    if b == [] {
      assert a + b == a;
    } else {
      ReplayConcat(tx, a, b[..|b| - 1]);
      assert (a + b)[..|a + b| - 1] == a + b[..|b| - 1];
    }
  }

  function Queries(history: seq<TxEvent>): nat {
    if history == [] then 0
    else Queries(history[..|history| - 1]) + if history[|history| - 1].Query? then 1 else 0
  }

  /** The transaction ID of the query at position `i`: its number among the queries, in 16 bits. */
  function IdOf(history: seq<TxEvent>, i: nat): int
    requires i <= |history|
  {
    Queries(history[..i]) % WORDS
  }

  /** The event at position `j` takes `t` away from whoever had it. */
  predicate Overrides(history: seq<TxEvent>, j: nat, t: int)
    requires j < |history|
  {
    history[j] == Response(t) || (history[j].Query? && IdOf(history, j) == t)
  }

  /** The query at position `i` is the latest with ID `t`, and `t` has not been answered since. */
  ghost predicate Outstanding(history: seq<TxEvent>, i: nat, t: int) {
    && i < |history| && history[i].Query? && IdOf(history, i) == t
    && forall j | i < j < |history| :: !Overrides(history, j, t)
  }

  lemma {:induction false} CounterCounts(history: seq<TxEvent>)
    ensures Replay(FRESH, history).counter == Queries(history) % WORDS
  {
    if history != [] { CounterCounts(history[..|history| - 1]); }
  }

  lemma PrefixAgrees(history: seq<TxEvent>, i: nat, j: nat, t: int)
    requires i < j <= |history|
    ensures IdOf(history[..j], i) == IdOf(history, i)
    ensures Overrides(history[..j], i, t) <==> Overrides(history, i, t)
  {
    assert history[..j][..i] == history[..i];
  }

  lemma OutstandingBefore(history: seq<TxEvent>, i: nat, t: int)
    requires i + 1 < |history|
    ensures Outstanding(history, i, t) <==>
            Outstanding(history[..|history| - 1], i, t) && !Overrides(history, |history| - 1, t)
  {
    var n := |history| - 1;
    PrefixAgrees(history, i, n, t);
    forall j | i < j < n ensures Overrides(history[..n], j, t) <==> Overrides(history, j, t) {
      PrefixAgrees(history, j, n, t);
    }
  }

  /** After any history of queries and responses, the table holds `infoHash` under `t` exactly when
      the latest query with ID `t` asked for it and no response with `t` has come since. */
  lemma {:induction false} RequestIsLatest(history: seq<TxEvent>, t: int, infoHash: Hash)
    ensures var requests := Replay(FRESH, history).requests;
            (t in requests && requests[t] == infoHash) <==>
            exists i: nat :: Outstanding(history, i, t) && history[i].infoHash == infoHash
  {
    if history != [] {
      var n := |history| - 1;
      RequestIsLatest(history[..n], t, infoHash);
      CounterCounts(history[..n]);
      if Overrides(history, n, t) {
        if history[n].Query? && history[n].infoHash == infoHash { assert Outstanding(history, n, t); }
        assert forall i: nat :: Outstanding(history, i, t) ==> i == n;
      } else {
        forall i: nat | i < n ensures Outstanding(history, i, t) <==> Outstanding(history[..n], i, t) {
          OutstandingBefore(history, i, t);
        }
        if exists i: nat :: Outstanding(history[..n], i, t) && history[..n][i].infoHash == infoHash {
          var i: nat :| Outstanding(history[..n], i, t) && history[..n][i].infoHash == infoHash;
          assert Outstanding(history, i, t);
        }
      }
    }
  }

  lemma RequestsAreOutstanding(history: seq<TxEvent>, t: int)
    ensures var requests := Replay(FRESH, history).requests;
            && (t in requests <==> exists i: nat :: Outstanding(history, i, t))
            && forall i: nat :: Outstanding(history, i, t) ==> t in requests && requests[t] == history[i].infoHash
  {
    var requests := Replay(FRESH, history).requests;
    if t in requests { RequestIsLatest(history, t, requests[t]); }
    forall i: nat | Outstanding(history, i, t) ensures t in requests && requests[t] == history[i].infoHash {
      RequestIsLatest(history, t, history[i].infoHash);
    }
  }

  lemma {:induction false} QueriesGrow(history: seq<TxEvent>, i: nat, j: nat)
    requires i < j <= |history|
    ensures Queries(history[..i]) + (if history[i].Query? then 1 else 0) <= Queries(history[..j])
    decreases j
  {
    assert history[..j][..j - 1] == history[..j - 1];
    if i < j - 1 { QueriesGrow(history, i, j - 1); }
  }

  lemma NearWordsDiffer(a: nat, b: nat)
    requires a < b < a + WORDS
    ensures a % WORDS != b % WORDS
  {
  }

  lemma LaterQueryDiffers(history: seq<TxEvent>, i: nat, j: nat)
    requires i < j < |history| && history[i].Query? && history[j].Query?
    requires Queries(history) - Queries(history[..i + 1]) < WORDS
    ensures IdOf(history, j) != IdOf(history, i)
  {
    assert history[..i + 1][..i] == history[..i];
    assert history[..|history|] == history;
    QueriesGrow(history, i, j);
    QueriesGrow(history, j, |history|);
    NearWordsDiffer(Queries(history[..i]), Queries(history[..j]));
  }

  /** A first response that comes before 65536 further queries is attributed to its own query,
      whether or not the counter has wrapped around meanwhile. */
  lemma FirstResponseAttributed(history: seq<TxEvent>, i: nat)
    requires i < |history| && history[i].Query?
    requires forall j | i < j < |history| :: history[j] != Response(IdOf(history, i))
    requires Queries(history) - Queries(history[..i + 1]) < WORDS
    ensures var requests := Replay(FRESH, history).requests;
            IdOf(history, i) in requests && requests[IdOf(history, i)] == history[i].infoHash
  {
    var t := IdOf(history, i);
    forall j | i < j < |history| ensures !Overrides(history, j, t) {
      if history[j].Query? { LaterQueryDiffers(history, i, j); }
    }
    assert Outstanding(history, i, t);
    RequestIsLatest(history, t, history[i].infoHash);
  }

  // ---------------------------------------------------------------------------------------------
  // Sampled infohashes
  // ---------------------------------------------------------------------------------------------

  /** The hash that the loop asks for in round `i`: the slice starts at `i`, not at `20*i`. */
  function SampledHash(samples: seq<byte>, i: nat): Hash
    requires i < |samples| / 20
  {
    samples[i..(i + 1) * 20][..20]
  }

  /** The i-th infohash as BEP 51 lays them out. */
  function IntendedHash(samples: seq<byte>, i: nat): Hash
    requires i < |samples| / 20
  {
    samples[20 * i..20 * i + 20]
  }

  function SampleQueries(samples: seq<byte>): seq<TxEvent> {
    seq(|samples| / 20, i requires 0 <= i < |samples| / 20 => Query(SampledHash(samples, i)))
  }

  /** Byte `b` of hash `i` is also the byte that the wrong slice reads for it. */
  predicate RepeatsByte(samples: seq<byte>, i: nat, b: nat)
    requires i < |samples| / 20 && b < 20
  {
    samples[20 * i + b] == samples[i + b]
  }

  lemma SlicesAt(samples: seq<byte>, i: nat)
    requires i < |samples| / 20
    ensures SampledHash(samples, i) == IntendedHash(samples, i) <==> forall b: nat | b < 20 :: RepeatsByte(samples, i, b)
  {
    var sampled, intended := SampledHash(samples, i), IntendedHash(samples, i);
    forall b: nat | b < 20 ensures RepeatsByte(samples, i, b) <==> sampled[b] == intended[b] {
      assert sampled[b] == samples[i + b] && intended[b] == samples[20 * i + b];
    }
  }

  /** The byte at `j` is also the byte 19 places earlier. */
  predicate Recurs(samples: seq<byte>, j: nat)
    requires 19 <= j < |samples|
  {
    samples[j] == samples[j - 19]
  }

  /** From the second byte of the whole hashes on, the bytes repeat every 19 places. */
  ghost predicate Period19(samples: seq<byte>) {
    forall j: nat | 20 <= j < 20 * (|samples| / 20) :: Recurs(samples, j)
  }

  /** With period 19, going back from `20*i + b` to `i + b` is going back `i` whole periods. */
  lemma {:induction false} PeriodRepeats(samples: seq<byte>, j: nat, periods: nat)
    requires Period19(samples) && j < 20 * (|samples| / 20) && 19 * periods < j
    ensures samples[j] == samples[j - 19 * periods]
  {
    if periods > 0 {
      assert Recurs(samples, j);
      PeriodRepeats(samples, j - 19, periods - 1);
    }
  }

  /** Conversely, if each byte repeats the one that the wrong slice reads, so does the byte 19 places
      earlier, and both read the same place. */
  lemma {:induction false} RepeatsRecur(samples: seq<byte>, j: nat)
    requires forall i: nat, b: nat | i < |samples| / 20 && b < 20 :: RepeatsByte(samples, i, b)
    requires 20 <= j < 20 * (|samples| / 20)
    ensures Recurs(samples, j)
    decreases j
  {
    var i, b := j / 20, j % 20;
    assert RepeatsByte(samples, i, b);
    if b < 19 {
      assert RepeatsByte(samples, i - 1, b + 1);
    } else {
      assert RepeatsByte(samples, i, 0);
      RepeatsRecur(samples, i + 19);
    }
  }

  /** Every hash is asked for as laid out exactly when the bytes behind the first have period 19. */
  lemma SamplesAsIntendedIff(samples: seq<byte>)
    ensures (forall i: nat | i < |samples| / 20 :: SampledHash(samples, i) == IntendedHash(samples, i)) <==>
            Period19(samples)
  {
    if Period19(samples) {
      forall i: nat | i < |samples| / 20 ensures SampledHash(samples, i) == IntendedHash(samples, i) {
        forall b: nat | b < 20 ensures RepeatsByte(samples, i, b) {
          if i > 0 { PeriodRepeats(samples, 20 * i + b, i); }
        }
        SlicesAt(samples, i);
      }
    } else if forall i: nat | i < |samples| / 20 :: SampledHash(samples, i) == IntendedHash(samples, i) {
      forall i: nat, b: nat | i < |samples| / 20 && b < 20 ensures RepeatsByte(samples, i, b) { SlicesAt(samples, i); }
      forall j: nat | 20 <= j < 20 * (|samples| / 20) ensures Recurs(samples, j) { RepeatsRecur(samples, j); }
    }
  }

  /** Of `n` samples only the first `n + 19` bytes have any influence on the queries. */
  lemma SamplesIgnoreTheRest(a: seq<byte>, b: seq<byte>)
    requires |a| == |b| && |a| >= 20 && a[..|a| / 20 + 19] == b[..|a| / 20 + 19]
    ensures SampleQueries(a) == SampleQueries(b)
  {
    forall i: nat | i < |a| / 20 ensures SampledHash(a, i) == SampledHash(b, i) {
      forall k | 0 <= k < 20 ensures SampledHash(a, i)[k] == SampledHash(b, i)[k] {
        assert a[..|a| / 20 + 19][i + k] == b[..|a| / 20 + 19][i + k];
      }
    }
  }

  // ---------------------------------------------------------------------------------------------
  // The routing table
  // ---------------------------------------------------------------------------------------------

  /** The table maps node IDs to pointers. Under the language version in use a range loop has one
      variable, so all pointers stored by one loop are the same: `cells` holds one variable per loop
      run so far, and a pointer is an index into it. */
  datatype Table = Table(cells: seq<UdpAddr>, routing: map<seq<byte>, nat>)

  /** A table of pointers and the position at which the loop has stopped. */
  datatype Stored = Stored(routing: map<seq<byte>, nat>, stop: nat)

  function StoreNode(routing: map<seq<byte>, nat>, node: Node, cell: nat): map<seq<byte>, nat> {
    if node.addr.port == 0 then routing else routing[node.id := cell]
  }

  /** The loop from node `i` on: it ends with the nodes, or at the first that finds the table full. */
  function StoreFrom(routing: map<seq<byte>, nat>, nodes: seq<Node>, i: nat, cell: nat, max: nat): (r: Stored)
    requires i <= |nodes|
    ensures i <= r.stop <= |nodes|
    decreases |nodes| - i
  {
    if i == |nodes| || |routing| >= max then Stored(routing, i)
    else StoreFrom(StoreNode(routing, nodes[i], cell), nodes, i + 1, cell, max)
  }

  function LastAddr(nodes: seq<Node>): UdpAddr {
    if nodes == [] then NO_ADDR else nodes[|nodes| - 1].addr
  }

  /** The nodes that the loop variable has held: the one that stops the loop is among them. */
  function Seen(t: Table, nodes: seq<Node>, max: nat): seq<Node> {
    var n := StoreFrom(t.routing, nodes, 0, |t.cells|, max).stop;
    if n < |nodes| then nodes[..n + 1] else nodes
  }

  /** The nodes that a loop has visited, and how many of them it has handled. */
  datatype Visit = Visit(nodes: seq<Node>, handled: nat)

  function VisitOf(t: Table, nodes: seq<Node>, max: nat): (v: Visit)
    ensures v.handled <= |v.nodes|
  {
    Visit(Seen(t, nodes, max), StoreFrom(t.routing, nodes, 0, |t.cells|, max).stop)
  }

  /** The loop has handled a node with this ID and a usable port, and this is its address, or that of
      the last one. */
  function OwnAddr(v: Visit, id: seq<byte>): Option<UdpAddr>
    decreases v.handled
  {
    if v.handled == 0 || v.handled > |v.nodes| then None else
    var last := v.nodes[v.handled - 1];
    if last.id == id && last.addr.port != 0 then Some(last.addr) else OwnAddr(v.(handled := v.handled - 1), id)
  }

  /** A response stores its nodes under the pointer to its loop's one variable, which is left with
      the address of the last node visited. */
  function Respond(t: Table, nodes: seq<Node>, max: nat): Table {
    Table(t.cells + [LastAddr(Seen(t, nodes, max))], StoreFrom(t.routing, nodes, 0, |t.cells|, max).routing)
  }

  /** The table never exceeds the cap, and it is full if the loop stopped early. */
  lemma {:induction false} StoreCapped(routing: map<seq<byte>, nat>, nodes: seq<Node>, i: nat, cell: nat, max: nat)
    requires i <= |nodes| && |routing| <= max
    ensures var r := StoreFrom(routing, nodes, i, cell, max);
            |r.routing| <= max && (r.stop < |nodes| ==> |r.routing| == max)
    decreases |nodes| - i
  {
    if i < |nodes| && |routing| < max {
      StoreCapped(StoreNode(routing, nodes[i], cell), nodes, i + 1, cell, max);
    }
  }

  /** A node from `i` on with this ID and a usable port was handled before the loop stopped. */
  predicate Handles(nodes: seq<Node>, i: nat, stop: nat, id: seq<byte>)
    requires stop <= |nodes|
  {
    exists k: nat :: i <= k < stop && nodes[k].id == id && nodes[k].addr.port != 0
  }

  /** The loop gives its pointer to the IDs it handles and leaves the other entries alone. */
  lemma {:induction false} StoreEntries(routing: map<seq<byte>, nat>, nodes: seq<Node>, i: nat, cell: nat, max: nat, id: seq<byte>)
    requires i <= |nodes|
    ensures var r := StoreFrom(routing, nodes, i, cell, max);
            if Handles(nodes, i, r.stop, id) then id in r.routing && r.routing[id] == cell
            else (id in r.routing <==> id in routing) && (id in routing ==> r.routing[id] == routing[id])
    decreases |nodes| - i
  {
    if i < |nodes| && |routing| < max {
      var stored := StoreNode(routing, nodes[i], cell);
      StoreEntries(stored, nodes, i + 1, cell, max, id);
      var stop := StoreFrom(routing, nodes, i, cell, max).stop;
      if nodes[i].id == id && nodes[i].addr.port != 0 {
        assert Handles(nodes, i, stop, id);
      } else {
        assert Handles(nodes, i, stop, id) <==> Handles(nodes, i + 1, stop, id);
      }
    }
  }

  /** The ticker reads the table's length, then copies its pointers, then empties the table; the lock
      is free in between. The queries go out between the copy and the emptying. */
  datatype Ticker = Waiting | Finding | Emptying(copied: map<seq<byte>, nat>)
  datatype NetEvent = Nodes(nodes: seq<Node>) | Look | Snapshot | Empty

  datatype NetRun = Begin | Then(before: NetRun, event: NetEvent)
  datatype Net = Net(table: Table, ticker: Ticker)

  function NetStep(s: Net, e: NetEvent, max: nat): Net {
    match e
    case Nodes(nodes) => s.(table := Respond(s.table, nodes, max))
    case Look => if s.ticker.Waiting? && s.table.routing != map[] then s.(ticker := Finding) else s
    case Snapshot => if s.ticker.Finding? then s.(ticker := Emptying(s.table.routing)) else s
    case Empty => if s.ticker.Emptying? then Net(s.table.(routing := map[]), Waiting) else s
  }

  function NetFinal(run: NetRun, max: nat): Net {
    match run
    case Begin => Net(Table([], map[]), Waiting)
    case Then(before, e) => NetStep(NetFinal(before, max), e, max)
  }

  /** What each response's loop has visited and stored. */
  function Loops(run: NetRun, max: nat): seq<Visit> {
    match run
    case Begin => []
    case Then(before, Nodes(nodes)) =>
      Loops(before, max) + [VisitOf(NetFinal(before, max).table, nodes, max)]
    case Then(before, _) => Loops(before, max)
  }

  /** Whatever the ticker does between responses, the table stays within the cap. */
  lemma {:induction false} TableCapped(run: NetRun, max: nat)
    ensures |NetFinal(run, max).table.routing| <= max
  {
    if run.Then? {
      TableCapped(run.before, max);
      if run.event.Nodes? {
        var t := NetFinal(run.before, max).table;
        StoreCapped(t.routing, run.event.nodes, 0, |t.cells|, max);
      }
    }
  }

  /** Every pointer names a loop that stored the ID, and the variable of a loop holds the address of
      the last node that the loop has visited. */
  ghost predicate PointsToLast(cells: seq<UdpAddr>, routing: map<seq<byte>, nat>, loops: seq<Visit>) {
    && |cells| == |loops|
    && (forall k: nat | k < |loops| :: cells[k] == LastAddr(loops[k].nodes))
    && forall id :: id in routing ==> routing[id] < |loops| && OwnAddr(loops[routing[id]], id).Some?
  }

  lemma {:induction false} HandledHasAddr(v: Visit, id: seq<byte>)
    requires v.handled <= |v.nodes|
    ensures OwnAddr(v, id).Some? <==> Handles(v.nodes, 0, v.handled, id)
    decreases v.handled
  {
    if v.handled > 0 {
      var shorter, n := v.(handled := v.handled - 1), v.handled - 1;
      HandledHasAddr(shorter, id);
      if v.nodes[n].id == id && v.nodes[n].addr.port != 0 {
        assert Handles(v.nodes, 0, v.handled, id);
      } else {
        assert Handles(v.nodes, 0, v.handled, id) <==> Handles(v.nodes, 0, n, id);
      }
    }
  }

  /** ID by ID: a response enters only IDs of its nodes with a nonzero port, and all of them unless the
      table is full. */
  lemma RespondKeepsNodes(t: Table, nodes: seq<Node>, max: nat, id: seq<byte>)
    requires |t.routing| <= max
    ensures var after := Respond(t, nodes, max);
            && (id in t.routing ==> id in after.routing)
            && (id in after.routing && id !in t.routing ==>
                  exists i :: 0 <= i < |nodes| && nodes[i].id == id && nodes[i].addr.port != 0)
            && ((exists i :: 0 <= i < |nodes| && nodes[i].id == id && nodes[i].addr.port != 0) ==>
                  id in after.routing || |after.routing| == max)
  {
    StoreEntries(t.routing, nodes, 0, |t.cells|, max, id);
    StoreCapped(t.routing, nodes, 0, |t.cells|, max);
    var stop := StoreFrom(t.routing, nodes, 0, |t.cells|, max).stop;
    if stop == |nodes| && exists i :: 0 <= i < |nodes| && nodes[i].id == id && nodes[i].addr.port != 0 {
      var i :| 0 <= i < |nodes| && nodes[i].id == id && nodes[i].addr.port != 0;
      assert Handles(nodes, 0, stop, id);
    }
  }

  /** The response's own entries are those of the IDs that its loop has handled. */
  lemma RespondEntries(t: Table, nodes: seq<Node>, max: nat, id: seq<byte>)
    ensures var after, v := Respond(t, nodes, max), VisitOf(t, nodes, max);
            if OwnAddr(v, id).Some? then id in after.routing && after.routing[id] == |t.cells|
            else (id in after.routing <==> id in t.routing) && (id in t.routing ==> after.routing[id] == t.routing[id])
  {
    var v := VisitOf(t, nodes, max);
    StoreEntries(t.routing, nodes, 0, |t.cells|, max, id);
    HandledHasAddr(v, id);
    assert forall i: nat | i < v.handled :: v.nodes[i] == nodes[i];
    assert Handles(v.nodes, 0, v.handled, id) <==> Handles(nodes, 0, v.handled, id);
  }

  lemma RespondPointsToLast(t: Table, loops: seq<Visit>, nodes: seq<Node>, max: nat)
    requires PointsToLast(t.cells, t.routing, loops)
    ensures var after := Respond(t, nodes, max);
            PointsToLast(after.cells, after.routing, loops + [VisitOf(t, nodes, max)])
  {
    var v, after := VisitOf(t, nodes, max), Respond(t, nodes, max);
    forall id | id in after.routing
      ensures after.routing[id] < |loops| + 1 && OwnAddr((loops + [v])[after.routing[id]], id).Some?
    {
      RespondEntries(t, nodes, max, id);
    }
  }

  /** In every run an entry resolves to the address of the last node that its response's loop has
      visited, be it a port-0 node that was skipped or the node that found the table full, and all
      entries of one response share it. The same holds of the pointers that the ticker has copied. */
  lemma {:induction false} EntriesShareLastAddress(run: NetRun, max: nat)
    ensures var s := NetFinal(run, max);
            && PointsToLast(s.table.cells, s.table.routing, Loops(run, max))
            && (s.ticker.Emptying? ==> PointsToLast(s.table.cells, s.ticker.copied, Loops(run, max)))
  {
    if run.Then? {
      EntriesShareLastAddress(run.before, max);
      if run.event.Nodes? {
        RespondPointsToLast(NetFinal(run.before, max).table, Loops(run.before, max), run.event.nodes, max);
      }
    }
  }

  /** So an entry resolves to the address that its node has given if and only if the last node that
      the loop visited has that address too. */
  lemma EntryRightIff(run: NetRun, max: nat, id: seq<byte>)
    requires id in NetFinal(run, max).table.routing
    ensures var t, loops := NetFinal(run, max).table, Loops(run, max);
            var k := t.routing[id];
            && k < |t.cells| == |loops| && OwnAddr(loops[k], id).Some?
            && (t.cells[k] == OwnAddr(loops[k], id).value <==> OwnAddr(loops[k], id).value == LastAddr(loops[k].nodes))
  {
    EntriesShareLastAddress(run, max);
  }

  /** The addresses that `findNeighbors` queries, one per entry copied: as many different ones as there
      are responses among the entries, at most, whatever the nodes. */
  lemma NeighborsQueried(run: NetRun, max: nat)
    requires NetFinal(run, max).ticker.Emptying?
    ensures var s, loops := NetFinal(run, max), Loops(run, max);
            && (forall id :: id in s.ticker.copied ==>
                  s.ticker.copied[id] < |s.table.cells| == |loops| &&
                  s.table.cells[s.ticker.copied[id]] == LastAddr(loops[s.ticker.copied[id]].nodes))
            && |Queried(s)| <= |s.ticker.copied.Values|
  {
    EntriesShareLastAddress(run, max);
    var s := NetFinal(run, max);
    ImageSmaller(s.table.cells, s.ticker.copied.Values);
    assert Queried(s) == Image(s.table.cells, s.ticker.copied.Values);
  }

  function Image(cells: seq<UdpAddr>, pointers: set<nat>): set<UdpAddr> {
    set k | k in pointers && k < |cells| :: cells[k]
  }

  /** The different addresses behind the pointers that the ticker has copied. */
  function Queried(s: Net): set<UdpAddr>
    requires s.ticker.Emptying?
  {
    set id | id in s.ticker.copied && s.ticker.copied[id] < |s.table.cells| :: s.table.cells[s.ticker.copied[id]]
  }

  lemma {:induction false} ImageSmaller(cells: seq<UdpAddr>, pointers: set<nat>)
    ensures |Image(cells, pointers)| <= |pointers|
    decreases pointers
  {
    if pointers == {} {
      assert Image(cells, pointers) == {};
    } else {
      assert exists k :: k in pointers by { assert (forall k :: k !in pointers) ==> pointers == {}; }
      var k :| k in pointers;
      ImageSmaller(cells, pointers - {k});
      var rest := Image(cells, pointers - {k});
      if k < |cells| {
        assert Image(cells, pointers) == rest + {cells[k]};
      } else {
        assert Image(cells, pointers) == rest;
      }
    }
  }

  /** The entry that a response has made for the ID resolves to the address of the ID's own node. */
  ghost predicate ResolvesRight(t: Table, nodes: seq<Node>, max: nat, id: seq<byte>) {
    var after := Respond(t, nodes, max);
    && id in after.routing && after.routing[id] < |after.cells|
    && Some(after.cells[after.routing[id]]) == OwnAddr(VisitOf(t, nodes, max), id)
  }

  /** Among the nodes handled, the last one with its ID and a usable port. */
  predicate LastOfItsId(v: Visit, i: nat) {
    && i < v.handled <= |v.nodes| && v.nodes[i].addr.port != 0
    && forall j | i < j < v.handled :: v.nodes[j].id == v.nodes[i].id ==> v.nodes[j].addr.port == 0
  }

  lemma {:induction false} OwnAddrIsLast(v: Visit, i: nat)
    requires LastOfItsId(v, i)
    ensures OwnAddr(v, v.nodes[i].id) == Some(v.nodes[i].addr)
    decreases v.handled
  {
    if i < v.handled - 1 {
      var shorter := v.(handled := v.handled - 1);
      assert LastOfItsId(shorter, i);
      OwnAddrIsLast(shorter, i);
    }
  }

  lemma {:induction false} OwnAddrAt(v: Visit, id: seq<byte>) returns (i: nat)
    requires OwnAddr(v, id).Some?
    ensures LastOfItsId(v, i) && v.nodes[i].id == id
    decreases v.handled
  {
    i := v.handled - 1;
    if v.nodes[i].id != id || v.nodes[i].addr.port == 0 {
      i := OwnAddrAt(v.(handled := v.handled - 1), id);
    }
  }

  /** One response leaves all its entries right if and only if all the nodes that it keeps have the
      address of the last node that it visits. */
  lemma ResponseRightIff(t: Table, nodes: seq<Node>, max: nat)
    ensures var v := VisitOf(t, nodes, max);
            (forall id :: OwnAddr(v, id).Some? ==> ResolvesRight(t, nodes, max, id)) <==>
            (forall i: nat :: LastOfItsId(v, i) ==> v.nodes[i].addr == LastAddr(v.nodes))
  {
    var v, after := VisitOf(t, nodes, max), Respond(t, nodes, max);
    forall id | OwnAddr(v, id).Some?
      ensures ResolvesRight(t, nodes, max, id) <==> OwnAddr(v, id) == Some(LastAddr(v.nodes))
    {
      RespondEntries(t, nodes, max, id);
    }
    if forall id :: OwnAddr(v, id).Some? ==> ResolvesRight(t, nodes, max, id) {
      forall i: nat | LastOfItsId(v, i) ensures v.nodes[i].addr == LastAddr(v.nodes) {
        OwnAddrIsLast(v, i);
        assert ResolvesRight(t, nodes, max, v.nodes[i].id);
      }
    }
    if forall i: nat :: LastOfItsId(v, i) ==> v.nodes[i].addr == LastAddr(v.nodes) {
      forall id | OwnAddr(v, id).Some? ensures ResolvesRight(t, nodes, max, id) {
        var i := OwnAddrAt(v, id);
        OwnAddrIsLast(v, i);
      }
    }
  }

  /** Two nodes are enough: the entry of the first leads to the second. */
  lemma SecondNodeTakesOver(t: Table, a: Node, b: Node, max: nat)
    requires |t.routing| + 2 <= max && a.id != b.id && a.addr.port != 0 && b.addr.port != 0 && a.addr != b.addr
    ensures var after := Respond(t, [a, b], max);
            && a.id in after.routing && after.routing[a.id] < |after.cells|
            && after.cells[after.routing[a.id]] == b.addr && !ResolvesRight(t, [a, b], max, a.id)
  {
    var cell := |t.cells|;
    var one := StoreNode(t.routing, a, cell);
    assert one.Keys == t.routing.Keys + {a.id};
    var two := StoreNode(one, b, cell);
    assert StoreFrom(two, [a, b], 2, cell, max) == Stored(two, 2);
    assert StoreFrom(one, [a, b], 1, cell, max) == Stored(two, 2);
    assert StoreFrom(t.routing, [a, b], 0, cell, max) == Stored(two, 2);
    OwnAddrIsLast(VisitOf(t, [a, b], max), 0);
  }

  // ---------------------------------------------------------------------------------------------
  // The service
  // ---------------------------------------------------------------------------------------------

  datatype IndexingResult = IndexingResult(infoHash: Hash, peers: seq<Peer>)

  const ZERO_HASH: Hash := seq(20, i => 0)

  /** `copy(t[:], msg.T)`: a short T is padded with zeros, a long one is cut. */
  function TransactionKey(t: seq<byte>): int {
    FromBe16([if |t| > 0 then t[0] else 0, if |t| > 1 then t[1] else 0])
  }

  /** Byte by byte: the first byte is the high one, missing bytes count as zero, others do not count. */
  lemma KeyOfBytes(t: seq<byte>)
    ensures TransactionKey(t) == (if |t| >= 1 then 256 * t[0] as int else 0) + (if |t| >= 2 then t[1] as int else 0)
  {
  }

  /** A response that echoes the T of a query has the query's key. */
  lemma EchoNamesQuery(counter: nat)
    requires counter < WORDS
    ensures TransactionKey(Be16(counter)) == counter
  {
    Be16Inverse(counter, Be16(counter));
  }

  /** The peers that can be dialled, in order. */
  function Dialable(values: seq<Peer>): seq<Peer> {
    if values == [] then [] else
    Dialable(values[..|values| - 1]) +
      if values[|values| - 1].port == 0 then [] else [values[|values| - 1]]
  }

  /** The dialable peers of a list are those of its parts in order; of one peer, it if its port is not 0. */
  lemma {:induction false} DialableParts(a: seq<Peer>, b: seq<Peer>, p: Peer)
    ensures Dialable(a + b) == Dialable(a) + Dialable(b)
    ensures Dialable([p]) == if p.port != 0 then [p] else []
  {
    if b == [] {
      assert a + b == a;
    } else {
      assert (a + b)[..|a + b| - 1] == a + b[..|b| - 1];
      DialableParts(a, b[..|b| - 1], p);
    }
  }

  /** The loop that leaves out peers with port 0. */
  method PeerAddrs(values: seq<Peer>) returns (peerAddrs: seq<Peer>)
    ensures peerAddrs == Dialable(values)
  {
    peerAddrs := [];
    for i := 0 to |values|
      invariant peerAddrs == Dialable(values[..i])
    {
      assert values[..i + 1][..i] == values[..i];
      if values[i].port == 0 { continue; }
      peerAddrs := peerAddrs + [values[i]];
    }
    assert values[..|values|] == values;
  }

  /** The addresses of the nodes from 0 to `n` that are stored, in order. */
  function Addresses(nodes: seq<Node>, n: nat): seq<UdpAddr>
    requires n <= |nodes|
  {
    if n == 0 then [] else
    Addresses(nodes, n - 1) + if nodes[n - 1].addr.port == 0 then [] else [nodes[n - 1].addr]
  }

  /** The addresses of a list are those of its parts in order; of one node, its own if its port is not 0. */
  lemma {:induction false} AddressesParts(a: seq<Node>, b: seq<Node>, n: nat, node: Node)
    requires n <= |b|
    ensures Addresses(a + b, |a| + n) == Addresses(a, |a|) + Addresses(b, n)
    ensures Addresses([node], 1) == if node.addr.port != 0 then [node.addr] else []
    decreases n
  {
    if n > 0 { AddressesParts(a, b, n - 1, node); } else { AddressesPrefix(a + b, a, |a|); }
  }

  lemma {:induction false} AddressesPrefix(nodes: seq<Node>, others: seq<Node>, n: nat)
    requires n <= |nodes| && n <= |others| && forall i | 0 <= i < n :: nodes[i] == others[i]
    ensures Addresses(nodes, n) == Addresses(others, n)
  {
    if n > 0 { AddressesPrefix(nodes, others, n - 1); }
  }

  /** The T and the infohash of the first `n` get_peers queries for a sample. */
  function QueriesFor(samples: seq<byte>, counter: nat, n: nat): seq<(int, Hash)>
    requires n <= |samples| / 20
  {
    if n == 0 then []
    else QueriesFor(samples, counter, n - 1) + [((counter + n - 1) % WORDS, SampledHash(samples, n - 1))]
  }

  /** Query by query: the counter goes up by one and wraps at 2^16, and the slice that is cut starts at `i`. */
  lemma {:induction false} QueriesOneByOne(samples: seq<byte>, counter: nat, n: nat, i: nat)
    requires i < n <= |samples| / 20
    ensures |QueriesFor(samples, counter, n)| == n
    ensures QueriesFor(samples, counter, n)[i] == ((counter + i) % 65536, samples[i..i + 20])
    decreases n
  {
    assert SampledHash(samples, i) == samples[i..i + 20];
    if n > 1 { QueriesOneByOne(samples, counter, n - 1, if i < n - 1 then i else 0); }
  }

  lemma NextWord(n: nat)
    ensures (n % WORDS + 1) % WORDS == (n + 1) % WORDS
  {
  }

  /** Each member once. */
  ghost predicate Lists(order: seq<seq<byte>>, ids: set<seq<byte>>) {
    (forall i, j | 0 <= i < j < |order| :: order[i] != order[j]) && forall id :: id in order <==> id in ids
  }

  lemma ListsOneMore(order: seq<seq<byte>>, ids: set<seq<byte>>, id: seq<byte>)
    requires Lists(order, ids) && id !in ids
    ensures Lists(order + [id], ids + {id})
  {
    assert forall i | 0 <= i < |order| :: order[i] in order;
  }

  lemma RespondKeepsPointers(t: Table, nodes: seq<Node>, max: nat)
    requires forall id :: id in t.routing ==> t.routing[id] < |t.cells|
    ensures var after := Respond(t, nodes, max); forall id :: id in after.routing ==> after.routing[id] < |after.cells|
  {
    forall id | id in Respond(t, nodes, max).routing
      ensures Respond(t, nodes, max).routing[id] < |t.cells| + 1
    {
      RespondEntries(t, nodes, max, id);
    }
  }

  class IndexingService {
    const maxNeighbors: nat
    var cells: seq<UdpAddr>
    var routingTable: map<seq<byte>, nat>
    var counter: nat
    var getPeersRequests: map<int, Hash>
    var sampleQueries: seq<UdpAddr>            // whom sample_infohashes was sent to
    var getPeersQueries: seq<(int, Hash)>      // the T, as a word, and the infohash of every get_peers sent
    ghost var history: seq<TxEvent>            // the queries sent and the responses got so far

    constructor (maxNeighbors: nat)
      ensures this.maxNeighbors == maxNeighbors && Valid() && history == []
      ensures Routes() == Table([], map[]) && Outgoing() == FRESH && sampleQueries == [] && getPeersQueries == []
    {
      this.maxNeighbors := maxNeighbors;
      cells, routingTable, counter, getPeersRequests, sampleQueries, getPeersQueries := [], map[], 0, map[], [], [];
      history := [];
    }

    ghost function Routes(): Table
      reads this
    {
      Table(cells, routingTable)
    }

    ghost function Outgoing(): Transactions
      reads this
    {
      Transactions(counter, getPeersRequests)
    }

    /** The outstanding queries are those of the history, and every pointer has its variable. */
    ghost predicate Valid()
      reads this
    {
      && counter < WORDS && Outgoing() == Replay(FRESH, history)
      && forall id :: id in routingTable ==> routingTable[id] < |cells|
    }

    /** The loop over a response's nodes in both handlers; `asks` tells whether it queries them. The
        variable `node` holds the address of a node before anything is tested. */
    method StoreNodes(nodes: seq<Node>, asks: bool)
      modifies this`cells, this`routingTable, this`sampleQueries
      ensures Routes() == Respond(old(Routes()), nodes, maxNeighbors)
      ensures sampleQueries == old(sampleQueries) + if asks then Addresses(nodes, StopOf(old(Routes()), nodes)) else []
    {
      var node := |cells|;
      ghost var result := StoreFrom(routingTable, nodes, 0, node, maxNeighbors);
      cells := cells + [NO_ADDR];
      for i := 0 to |nodes|
        invariant StoreFrom(routingTable, nodes, i, node, maxNeighbors) == result
        invariant cells == old(cells) + [LastAddr(nodes[..i])]
        invariant sampleQueries == old(sampleQueries) + if asks then Addresses(nodes, i) else []
      {
        cells := cells[node := nodes[i].addr];
        assert LastAddr(nodes[..i + 1]) == nodes[i].addr && cells == old(cells) + [nodes[i].addr];
        if |routingTable| >= maxNeighbors { return; }
        if nodes[i].addr.port == 0 { continue; }
        routingTable := routingTable[nodes[i].id := node];
        if asks { sampleQueries := sampleQueries + [cells[node]]; }
      }
      assert nodes[..|nodes|] == nodes;
    }

    ghost function StopOf(t: Table, nodes: seq<Node>): (n: nat)
      ensures n <= |nodes|
    {
      StoreFrom(t.routing, nodes, 0, |t.cells|, maxNeighbors).stop
    }

    method OnFindNodeResponse(nodes: seq<Node>)
      requires Valid()
      modifies this`cells, this`routingTable, this`sampleQueries
      ensures Valid()
      ensures Routes() == Respond(old(Routes()), nodes, maxNeighbors)
      ensures sampleQueries == old(sampleQueries) + Addresses(nodes, StopOf(old(Routes()), nodes))
    {
      RespondKeepsPointers(Routes(), nodes, maxNeighbors);
      StoreNodes(nodes, true);
    }

    method AskForPeers(infoHash: Hash)
      requires Valid()
      modifies this`counter, this`getPeersRequests, this`getPeersQueries, this`history
      ensures Valid() && history == old(history) + [Query(infoHash)] && Outgoing() == Apply(old(Outgoing()), Query(infoHash))
      ensures counter == (old(counter) + 1) % WORDS && getPeersQueries == old(getPeersQueries) + [(old(counter), infoHash)]
    {
      getPeersQueries := getPeersQueries + [(counter, infoHash)];
      getPeersRequests := getPeersRequests[counter := infoHash];
      counter := (counter + 1) % WORDS;
      history := history + [Query(infoHash)];
      assert history[..|history| - 1] == old(history);
    }

    /** The loop that asks for the peers of every sampled infohash. */
    method AskForSamples(samples: seq<byte>)
      requires Valid()
      modifies this`counter, this`getPeersRequests, this`getPeersQueries, this`history
      ensures Valid() && history == old(history) + SampleQueries(samples)
      ensures getPeersQueries == old(getPeersQueries) + QueriesFor(samples, old(counter), |samples| / 20)
    {
      var n := |samples| / 20;
      ghost var queries := SampleQueries(samples);
      for i := 0 to n
        invariant Valid() && history == old(history) + queries[..i]
        invariant getPeersQueries == old(getPeersQueries) + QueriesFor(samples, old(counter), i)
        invariant counter == (old(counter) + i) % WORDS
      {
        ghost var infoHash := SampledHash(samples, i);
        assert queries[..i + 1] == queries[..i] + [Query(infoHash)];
        assert QueriesFor(samples, old(counter), i + 1) == QueriesFor(samples, old(counter), i) + [(counter, infoHash)];
        NextWord(old(counter) + i);
        AskForPeers(SampledHash(samples, i));
      }
      assert queries[..n] == queries;
    }

    method OnSampleInfohashesResponse(samples: seq<byte>, nodes: seq<Node>)
      requires Valid()
      modifies this
      ensures Valid() && history == old(history) + SampleQueries(samples)
      ensures Outgoing() == Replay(old(Outgoing()), SampleQueries(samples))
      ensures getPeersQueries == old(getPeersQueries) + QueriesFor(samples, old(counter), |samples| / 20)
      ensures Routes() == Respond(old(Routes()), nodes, maxNeighbors) && sampleQueries == old(sampleQueries)
    {
      AskForSamples(samples);
      RespondKeepsPointers(Routes(), nodes, maxNeighbors);
      StoreNodes(nodes, false);
      ReplayConcat(FRESH, old(history), SampleQueries(samples));
    }

    /** `findNeighbors`: one query per entry, in the order in which the map is iterated. */
    method FindNeighbors() returns (ghost order: seq<seq<byte>>)
      requires Valid()
      modifies this`sampleQueries
      ensures Lists(order, routingTable.Keys)
      ensures |sampleQueries| == |old(sampleQueries)| + |order| && old(sampleQueries) <= sampleQueries
      ensures forall i | 0 <= i < |order| :: order[i] in routingTable &&
                sampleQueries[|old(sampleQueries)| + i] == cells[routingTable[order[i]]]
    {
      order := [];
      var rest, addressesToSend := routingTable.Keys, [];
      while rest != {}
        invariant rest <= routingTable.Keys && Lists(order, routingTable.Keys - rest)
        invariant |addressesToSend| == |order| && sampleQueries == old(sampleQueries)
        invariant forall i | 0 <= i < |order| :: order[i] in routingTable && addressesToSend[i] == cells[routingTable[order[i]]]
        decreases rest
      {
        var id :| id in rest;
        addressesToSend := addressesToSend + [cells[routingTable[id]]];
        ListsOneMore(order, routingTable.Keys - rest, id);
        assert routingTable.Keys - rest + {id} == routingTable.Keys - (rest - {id});
        order, rest := order + [id], rest - {id};
      }
      assert routingTable.Keys - rest == routingTable.Keys;
      sampleQueries := sampleQueries + addressesToSend;
    }

    /** The infohash is whatever the transaction ID names, and zeros if it names nothing. */
    method OnGetPeersResponse(t: seq<byte>, values: seq<Peer>) returns (r: Option<IndexingResult>)
      requires Valid()
      modifies this`getPeersRequests, this`history
      ensures Valid() && history == old(history) + [Response(TransactionKey(t))]
      ensures Outgoing() == Apply(old(Outgoing()), Response(TransactionKey(t)))
      ensures r.None? <==> values == []
      ensures r.Some? ==> r.value.peers == Dialable(values)
      ensures forall i: nat :: r.Some? && Outstanding(old(history), i, TransactionKey(t)) ==>
                r.value.infoHash == old(history)[i].infoHash
      ensures r.Some? && (forall i: nat :: !Outstanding(old(history), i, TransactionKey(t))) ==> r.value.infoHash == seq(20, i => 0)
    {
      var key := TransactionKey(t);
      var infoHash := if key in getPeersRequests then getPeersRequests[key] else ZERO_HASH;
      RequestsAreOutstanding(history, key);
      getPeersRequests := getPeersRequests - {key};
      history := history + [Response(key)];
      assert history[..|history| - 1] == old(history);
      if values == [] { return None; }
      var peerAddrs := PeerAddrs(values);
      r := Some(IndexingResult(infoHash, peerAddrs));
    }
  }
}
