/**
 One leech: the handshakes, the piece requests, the reassembly loop, and the checks that end in
 exactly one callback. The connection is the bytes the peer will still send, and may end early; the
 bencode decoder and SHA-1 are parameters.
 */
module LeechTransfer {
  import opened Bytes
  import opened Framing
  import opened Reassembly
  import opened Store

  datatype RootDict = RootDict(utMetadata: int, metadataSize: int)

  /** A decoded extension dictionary and the bytes behind it. */
  datatype ExtMessage = ExtMessage(msgType: int, piece: int, surplus: seq<byte>)

  datatype FileInfo = FileInfo(length: int, path: string)
  datatype Info = Info(name: string, length: int, files: seq<FileInfo>, pieceLength: int, piecesLength: nat)

  datatype Metadata = Metadata(infoHash: Hash, name: string, totalSize: int, discoveredOn: int, files: seq<File>)

  /** What the leech takes from its libraries. */
  datatype Library = Library(
    sha1: seq<byte> -> seq<byte>,
    decodeRoot: seq<byte> -> Option<RootDict>,
    decodeExt: seq<byte> -> Option<ExtMessage>,
    decodeInfo: seq<byte> -> Option<Info>,
    encodeRequest: nat -> seq<byte>)

  datatype Callback = OnSuccess(md: Metadata) | OnError

  /** How the reassembly loop ends. */
  datatype Ending = Normal | Erred | Panicked

  function Int64(x: int): int {
    (x + TWO_63) % TWO_64 - TWO_63
  }

  /** Go's division truncates towards zero. */
  function GoDiv(a: int, b: int): int
    requires b != 0
  {
    if a >= 0 then a / b else -(-a / b)
  }

  function TotalLength(info: Info): int {
    if info.files == [] then info.length else Int64(SumSizes(FilesOf(info)))
  }

  /** `validateInfo`. */
  predicate ValidInfo(info: Info) {
    && info.piecesLength % 20 == 0
    && if info.pieceLength == 0 then TotalLength(info) == 0
       else GoDiv(Int64(TotalLength(info) + info.pieceLength - 1), info.pieceLength) == info.piecesLength / 20
  }

  lemma MultiplesSpread(length: int, a: int, b: int)
    requires length > 0 && a < b
    ensures length * a + length <= length * b
  {
    assert length * (b - a - 1) >= 0;
  }

  lemma QuotientUnique(x: int, length: int, q: int, n: int)
    requires length > 0 && length * n <= x < length * n + length && length * q <= x < length * q + length
    ensures q == n
  {
    if q < n { MultiplesSpread(length, q, n); }
    if n < q { MultiplesSpread(length, n, q); }
  }

  lemma CeilingIff(total: nat, length: int, n: nat)
    requires length > 0
    ensures (total + length - 1) / length == n <==> length * (n - 1) < total <= length * n
  {
    var x := total + length - 1;
    var q := x / length;
    assert x == length * q + x % length;
    assert length * (n - 1) == length * n - length;
    if length * (n - 1) < total <= length * n { QuotientUnique(x, length, q, n); }
  }

  /** Within the range of int64, a dictionary is valid exactly if it has one 20-byte hash for every
      piece: as many as the pieces needed to hold the total length, and no more. */
  lemma ValidInfoIff(info: Info)
    requires info.pieceLength > 0 && 0 <= SumSizes(FilesOf(info)) && SumSizes(FilesOf(info)) + info.pieceLength <= TWO_63
    ensures ValidInfo(info) <==>
            exists n: nat :: info.piecesLength == 20 * n &&
              info.pieceLength * (n - 1) < SumSizes(FilesOf(info)) <= info.pieceLength * n
  {
    var total := SumSizes(FilesOf(info));
    if info.files == [] { assert FilesOf(info)[..0] == []; }
    assert TotalLength(info) == total;
    CeilingIff(total, info.pieceLength, info.piecesLength / 20);
    if ValidInfo(info) {
      var n := info.piecesLength / 20;
      assert info.piecesLength == 20 * n;
    }
  }

  /** A torrent without a file list is one file under the torrent's own name. */
  function FilesOf(info: Info): seq<File> {
    if info.files == [] then [File(info.length, info.name)]
    else seq(|info.files|, i requires 0 <= i < |info.files| => File(info.files[i].length, info.files[i].path))
  }

  lemma SizesOf(info: Info)
    ensures (forall f | f in FilesOf(info) :: f.size >= 0) <==>
            if info.files == [] then info.length >= 0 else forall f | f in info.files :: f.length >= 0
  {
    var files := FilesOf(info);
    if info.files == [] {
      assert files[0].size == info.length;
    } else {
      assert forall i | 0 <= i < |files| :: files[i].size == info.files[i].length;
      if forall f | f in files :: f.size >= 0 {
        forall f | f in info.files ensures f.length >= 0 {
          var i :| 0 <= i < |info.files| && info.files[i] == f;
          assert files[i] in files;
        }
      }
    }
  }

  /** What the loop makes of one ut_metadata message. */
  datatype Content = Unusable | Ignored | Data(piece: Piece)

  function Decode(lib: Library, m: seq<byte>): Content {
    if |m| < 2 then Unusable else
    match lib.decodeExt(m[2..])
    case None => Unusable
    case Some(ext) =>
      if ext.msgType == 2 then Unusable  // the peer rejects the request
      else if ext.msgType == 1 then Data(Piece(Offset(ext.piece), ext.surplus))
      else Ignored
  }

  /** The data pieces among the messages; other message types contribute nothing. */
  function DataPieces(lib: Library, messages: seq<seq<byte>>): seq<Piece> {
    if messages == [] then [] else
    var earlier := DataPieces(lib, messages[..|messages| - 1]);
    match Decode(lib, messages[|messages| - 1])
    case Data(p) => earlier + [p]
    case _ => earlier
  }

  lemma DataPiecesOneMore(lib: Library, messages: seq<seq<byte>>, m: seq<byte>)
    ensures DataPieces(lib, messages + [m]) ==
      if Decode(lib, m).Data? then DataPieces(lib, messages) + [Decode(lib, m).piece] else DataPieces(lib, messages)
  {
    assert (messages + [m])[..|messages|] == messages;
  }

  /** The next message read is the next of all messages. */
  lemma NextUm(all: seq<seq<byte>>, messages: seq<seq<byte>>, conn: seq<byte>)
    requires all == messages + ReadAllUm(conn) && ReadUmMessage(conn).Message?
    ensures var r := ReadUmMessage(conn);
            |messages| < |all| && all[|messages|] == r.bytes && all == messages + [r.bytes] + ReadAllUm(r.rest)
  {
    var r := ReadUmMessage(conn);
    assert ReadAllUm(conn) == [r.bytes] + ReadAllUm(r.rest);
  }

  // ---------------------------------------------------------------------------------------------
  // Which message streams deliver the metadata
  // ---------------------------------------------------------------------------------------------

  /** The messages pass the loop's checks one after another. */
  ghost predicate Underway(lib: Library, ms: seq<seq<byte>>, size: nat) {
    (forall m :: m in ms ==> !Decode(lib, m).Unusable?) && Received(DataPieces(lib, ms), size)
  }

  function Counted(lib: Library, ms: seq<seq<byte>>): nat {
    Total(DataPieces(lib, ms))
  }

  /** Some first messages pass and bring as many bytes as the size. */
  ghost predicate Delivered(lib: Library, ms: seq<seq<byte>>, size: nat) {
    exists k: nat :: k <= |ms| && Underway(lib, ms[..k], size) && Counted(lib, ms[..k]) == size
  }

  /** A piece of allowed length that belongs outside the buffer. */
  predicate OutOfPlace(lib: Library, m: seq<byte>, size: nat) {
    var c := Decode(lib, m);
    c.Data? && |c.piece.data| <= PIECE && !Fits(c.piece, size)
  }

  /** Some first messages pass, do not bring enough, and are followed by a piece out of place. */
  ghost predicate Overrun(lib: Library, ms: seq<seq<byte>>, size: nat) {
    exists k: nat :: k < |ms| && Underway(lib, ms[..k], size) && Counted(lib, ms[..k]) < size && OutOfPlace(lib, ms[k], size)
  }

  predicate Refuses(lib: Library, m: seq<byte>, total: nat, size: nat) {
    var c := Decode(lib, m);
    c.Unusable? || (c.Data? && !Accepts(c.piece, total, size))
  }

  lemma {:induction false} PiecesGrow(lib: Library, ms: seq<seq<byte>>, j: nat, k: nat)
    requires j <= k <= |ms|
    ensures DataPieces(lib, ms[..j]) <= DataPieces(lib, ms[..k])
    ensures Counted(lib, ms[..j]) <= Counted(lib, ms[..k])
    decreases k
  {
    if j < k {
      PiecesGrow(lib, ms, j, k - 1);
      assert ms[..k] == ms[..k - 1] + [ms[k - 1]];
      DataPiecesOneMore(lib, ms[..k - 1], ms[k - 1]);
    }
    TotalGrows(DataPieces(lib, ms[..k]), |DataPieces(lib, ms[..j])|);
  }

  /** The piece of the n-th message comes right behind the pieces of the messages before it. */
  lemma PieceInLine(lib: Library, ms: seq<seq<byte>>, n: nat, k: nat)
    requires n < k <= |ms| && Decode(lib, ms[n]).Data?
    ensures var pieces, log := DataPieces(lib, ms[..n]), DataPieces(lib, ms[..k]);
            |pieces| < |log| && log[|pieces|] == Decode(lib, ms[n]).piece && log[..|pieces|] == pieces
  {
    assert ms[..n + 1] == ms[..n] + [ms[n]];
    DataPiecesOneMore(lib, ms[..n], ms[n]);
    PiecesGrow(lib, ms, n + 1, k);
  }

  /** Nothing passes beyond a refused message. */
  lemma RefusalIsFinal(lib: Library, ms: seq<seq<byte>>, n: nat, k: nat, size: nat)
    requires n < k <= |ms| && Refuses(lib, ms[n], Counted(lib, ms[..n]), size)
    ensures !Underway(lib, ms[..k], size)
  {
    if Decode(lib, ms[n]).Unusable? {
      assert ms[..k][n] == ms[n];
    } else if Received(DataPieces(lib, ms[..k]), size) {
      PieceInLine(lib, ms, n, k);
      ReceivedPassed(DataPieces(lib, ms[..k]), |DataPieces(lib, ms[..n])|, size);
    }
  }

  /** Where a loop without enough bytes has stopped, nothing is delivered, and only the message that
      stopped it can be out of place. */
  lemma StoppedShort(lib: Library, ms: seq<seq<byte>>, n: nat, size: nat)
    requires n <= |ms| && Underway(lib, ms[..n], size) && Counted(lib, ms[..n]) < size
    requires n < |ms| ==> Refuses(lib, ms[n], Counted(lib, ms[..n]), size)
    ensures !Delivered(lib, ms, size)
    ensures Overrun(lib, ms, size) <==> n < |ms| && OutOfPlace(lib, ms[n], size)
  {
    forall k: nat | k <= |ms| && Underway(lib, ms[..k], size) ensures k <= n && Counted(lib, ms[..k]) < size {
      if k > n { RefusalIsFinal(lib, ms, n, k, size); }
      PiecesGrow(lib, ms, k, n);
    }
    forall k: nat | k < n ensures !OutOfPlace(lib, ms[k], size) {
      if OutOfPlace(lib, ms[k], size) { RefusalIsFinal(lib, ms, k, n, size); }
    }
  }

  /** Once all bytes are delivered, no piece has been out of place. */
  lemma DeliveredIsSafe(lib: Library, ms: seq<seq<byte>>, n: nat, size: nat)
    requires n <= |ms| && Underway(lib, ms[..n], size) && Counted(lib, ms[..n]) == size
    ensures Delivered(lib, ms, size) && !Overrun(lib, ms, size)
  {
    forall k: nat | k < |ms| && Counted(lib, ms[..k]) < size ensures !OutOfPlace(lib, ms[k], size) {
      if k >= n { PiecesGrow(lib, ms, n, k); }
      if OutOfPlace(lib, ms[k], size) { RefusalIsFinal(lib, ms, k, n, size); }
    }
  }

  /** The first `n` messages are usable, and their pieces are those requested, each once. */
  ghost predicate Truthfully(lib: Library, ms: seq<seq<byte>>, n: nat, metadata: seq<byte>) {
    && n <= |ms| && metadata != []
    && (forall m :: m in ms[..n] ==> !Decode(lib, m).Unusable?)
    && EachOnce(DataPieces(lib, ms[..n]), metadata)
  }

  /** The last index fills its piece, or its piece comes last. */
  predicate ShortComesLast(log: seq<Piece>, metadata: seq<byte>) {
    |metadata| % PIECE == 0 || (log != [] && log[|log| - 1].offset == PIECE * (|log| - 1))
  }

  /** What such messages deliver first is what all of them bring. */
  lemma DeliversAll(lib: Library, ms: seq<seq<byte>>, n: nat, metadata: seq<byte>, k: nat)
    requires Truthfully(lib, ms, n, metadata) && k <= |ms| && Complete(DataPieces(lib, ms[..k]), |metadata|)
    ensures DataPieces(lib, ms[..k]) == DataPieces(lib, ms[..n])
  {
    CompleteCount(DataPieces(lib, ms[..k]), |metadata|);
    if k <= n { PiecesGrow(lib, ms, k, n); } else { PiecesGrow(lib, ms, n, k); }
  }

  /** A peer that sends every requested piece once, truthfully and in any order, delivers the metadata
      if and only if a short last piece comes last, and never makes the leech panic. */
  lemma TruthfulDeliversIff(lib: Library, ms: seq<seq<byte>>, n: nat, metadata: seq<byte>)
    requires Truthfully(lib, ms, n, metadata)
    ensures Delivered(lib, ms, |metadata|) <==> ShortComesLast(DataPieces(lib, ms[..n]), metadata)
    ensures !Overrun(lib, ms, |metadata|)
  {
    var log := DataPieces(lib, ms[..n]);
    EachOnceCompleteIff(log, metadata);
    if Delivered(lib, ms, |metadata|) {
      var k: nat :| k <= |ms| && Underway(lib, ms[..k], |metadata|) && Counted(lib, ms[..k]) == |metadata|;
      DeliversAll(lib, ms, n, metadata, k);
    }
    TruthfulInPlace(lib, ms, n, metadata);
  }

  lemma {:induction false} PiecesInOrder(lib: Library, ms: seq<seq<byte>>)
    requires forall i | 0 <= i < |ms| :: Decode(lib, ms[i]).Data?
    ensures |DataPieces(lib, ms)| == |ms|
    ensures forall i | 0 <= i < |ms| :: DataPieces(lib, ms)[i] == Decode(lib, ms[i]).piece
  {
    if ms != [] { PiecesInOrder(lib, ms[..|ms| - 1]); }
  }

  /** A peer that answers the requests in order, each with a data message that carries its 16 KiB of the
      metadata or what is left, and then sends anything, delivers, and the buffer is the metadata. */
  lemma InOrderDelivers(lib: Library, ms: seq<seq<byte>>, more: seq<seq<byte>>, metadata: seq<byte>)
    requires 0 < |metadata| < MAX_METADATA_SIZE && |ms| == (|metadata| + 16383) / 16384
    requires forall i | 0 <= i < |ms| ::
               && |ms[i]| >= 2
               && lib.decodeExt(ms[i][2..]) ==
                    Some(ExtMessage(1, i, metadata[16384 * i..if i == |ms| - 1 then |metadata| else 16384 * (i + 1)]))
    ensures Truthfully(lib, ms + more, |ms|, metadata) && Delivered(lib, ms + more, |metadata|)
    ensures Complete(DataPieces(lib, ms), |metadata|)
    ensures Written(seq(|metadata|, i => 0), DataPieces(lib, ms)) == metadata
  {
    var log := DataPieces(lib, ms);
    assert (ms + more)[..|ms|] == ms;
    forall i | 0 <= i < |ms| ensures Decode(lib, ms[i]).Data? && IsCut(Decode(lib, ms[i]).piece, metadata)
      ensures Decode(lib, ms[i]).piece.offset == 16384 * i
    {
      OffsetAliases(i);
    }
    PiecesInOrder(lib, ms);
    assert EachOnce(log, metadata);
    TruthfulDeliversIff(lib, ms + more, |ms|, metadata);
    EachOnceCompleteIff(log, metadata);
    EachOnceRebuilds(seq(|metadata|, i => 0), log, metadata);
  }

  lemma TruthfulInPlace(lib: Library, ms: seq<seq<byte>>, n: nat, metadata: seq<byte>)
    requires Truthfully(lib, ms, n, metadata)
    ensures !Overrun(lib, ms, |metadata|)
  {
    var log := DataPieces(lib, ms[..n]);
    var j := LastIndexComes(log, metadata);
    TotalOfOthersFull(log, j);
    forall k: nat | k < |ms| && Counted(lib, ms[..k]) < |metadata| ensures !OutOfPlace(lib, ms[k], |metadata|) {
      if k >= n {
        PiecesGrow(lib, ms, n, k);
      } else if Decode(lib, ms[k]).Data? {
        PieceInLine(lib, ms, k, n);
        assert IsCut(log[|DataPieces(lib, ms[..k])|], metadata);
      }
    }
  }

  /** One request for a piece, without its length prefix. */
  function Request(lib: Library, utMetadata: byte, piece: nat): seq<byte> {
    [20, utMetadata] + lib.encodeRequest(piece)
  }

  function Requests(lib: Library, utMetadata: byte, n: nat): seq<seq<byte>> {
    seq(n, i requires 0 <= i < n => Request(lib, utMetadata, i))
  }

  lemma {:induction false} FramesAppend(ms: seq<seq<byte>>, m: seq<byte>)
    ensures Frames(ms + [m]) == Frames(ms) + Frame(m)
  {
    if ms == [] {
      assert ms + [m] == [m];
      assert [m][1..] == [];
    } else {
      assert (ms + [m])[1..] == ms[1..] + [m];
      FramesAppend(ms[1..], m);
    }
  }

  function Flatten(chunks: seq<seq<byte>>): seq<byte> {
    if chunks == [] then [] else Flatten(chunks[..|chunks| - 1]) + chunks[|chunks| - 1]
  }

  lemma {:induction false} FlattenStep(chunks: seq<seq<byte>>, k: nat)
    requires k < |chunks|
    ensures Flatten(chunks[..k + 1]) == Flatten(chunks[..k]) + chunks[k]
    ensures |Flatten(chunks[..k + 1])| <= |Flatten(chunks)|
    decreases |chunks| - k
  {
    assert chunks[..k + 1][..k] == chunks[..k];
    if k + 1 < |chunks| { FlattenStep(chunks, k + 1); } else { assert chunks[..k + 1] == chunks; }
  }

  lemma {:induction false} FlattenIsFrames(ms: seq<seq<byte>>, chunks: seq<seq<byte>>)
    requires |chunks| == |ms| && forall i | 0 <= i < |ms| :: chunks[i] == Frame(ms[i])
    ensures Flatten(chunks) == Frames(ms)
  {
    if ms != [] {
      var n := |ms| - 1;
      FlattenIsFrames(ms[..n], chunks[..n]);
      FramesAppend(ms[..n], ms[n]);
      assert ms == ms[..n] + [ms[n]];
    }
  }

  /** What the peer reads from the requests is one extension message per piece, in order. */
  lemma {:induction false} PeerReadsRequests(lib: Library, utMetadata: byte, n: nat, k: nat, rest: seq<byte>)
    requires k <= n
    requires forall i | 0 <= i < n :: |lib.encodeRequest(i)| + 2 <= MAX_METADATA_SIZE
    ensures var ms := Requests(lib, utMetadata, n);
            k < n ==> ReadExMessage(Frames(ms[k..]) + rest) == Message([20, utMetadata] + lib.encodeRequest(k), Frames(ms[k + 1..]) + rest)
  {
    var ms := Requests(lib, utMetadata, n);
    if k < n {
      assert ms[k..][1..] == ms[k + 1..];
      assert Frames(ms[k..]) + rest == Frame(ms[k]) + (Frames(ms[k + 1..]) + rest);
      ReadExSkips(ms[k], Frames(ms[k + 1..]) + rest);
    }
  }

  function Ascii(s: string): seq<byte> {
    seq(|s|, i requires 0 <= i < |s| => s[i] as int % 256)
  }

  const PROTOCOL: seq<byte> := [19] + Ascii("BitTorrent protocol")
  const RESERVED: seq<byte> := [0, 0, 0, 0, 0, 16, 0, 1]

  /** The bytes that `doExHandshake` sends. */
  const EX_HANDSHAKE: seq<byte> := [0, 0, 0, 26, 20, 0] + Ascii("d1:md11:ut_metadatai1eee")

  /** The peer's handshake carries the protocol name and the extension bit. */
  predicate GoodHandshake(h: seq<byte>) {
    |h| == 68 && PROTOCOL <= h && (h[25] / 16) % 2 == 1
  }

  /** The extension handshake as sent is one well-formed extension message with ID 0. */
  lemma ExHandshakeIsMessage(rest: seq<byte>)
    ensures ReadExMessage(EX_HANDSHAKE + rest) == Message([20, 0] + Ascii("d1:md11:ut_metadatai1eee"), rest)
  {
    var m := [20, 0] + Ascii("d1:md11:ut_metadatai1eee");
    assert Be32(26) == [0, 0, 0, 26];
    assert EX_HANDSHAKE + rest == Frame(m) + rest;
    ReadExSkips(m, rest);
  }

  /** What the extension handshake makes of the first extension message. */
  datatype Greeting = Rejected | NotAHandshake | Agreed(utMetadata: byte, size: nat)

  function Greet(lib: Library, m: seq<byte>): Greeting
    requires |m| >= 2
  {
    // The error that is wrapped here is nil, so the caller sees success.
    if m[1] != 0 then NotAHandshake else
    match lib.decodeRoot(m[2..])
    case None => Rejected
    case Some(root) =>
      if !(0 < root.metadataSize < MAX_METADATA_SIZE) then Rejected
      else if !(0 < root.utMetadata < 255) then Rejected
      else Agreed(root.utMetadata, root.metadataSize)
  }

  /** The loop over the file list: any negative size is an error, else the sizes are added as uint64. */
  method CheckedTotal(files: seq<File>) returns (total: Option<int>)
    ensures total == if forall f | f in files :: f.size >= 0 then Some(SumSizes(files) % TWO_64) else None
  {
    var totalSize := 0;
    for i := 0 to |files|
      invariant forall k | 0 <= k < i :: files[k].size >= 0
      invariant totalSize == SumSizes(files[..i]) % TWO_64
    {
      if files[i].size < 0 {
        assert files[i] in files;
        return None;
      }
      assert files[..i + 1][..i] == files[..i];
      totalSize := (totalSize + files[i].size) % TWO_64;
    }
    assert files[..|files|] == files;
    return Some(totalSize);
  }

  type Positive = n: nat | n > 0 witness 1

  class Leech {
    const infoHash: Hash
    const clientID: Hash
    const lib: Library

    var conn: seq<byte>     // what the peer will still send
    var writable: nat       // how many more bytes the peer will take
    const chunk: Positive   // how many bytes one write can take
    var sent: seq<byte>
    var utMetadata: byte
    var metadataReceived: nat
    var metadataSize: nat
    var metadata: array<byte>
    var callbacks: seq<Callback>

    constructor (infoHash: Hash, clientID: Hash, lib: Library, conn: seq<byte>, writable: nat, chunk: Positive)
      ensures this.infoHash == infoHash && this.clientID == clientID && this.lib == lib
      ensures this.conn == conn && this.writable == writable && sent == [] && callbacks == []
      ensures utMetadata == 0 && metadataReceived == 0 && metadataSize == 0 && metadata.Length == 0 && fresh(metadata)
    {
      this.infoHash, this.clientID, this.lib, this.chunk := infoHash, clientID, lib, chunk;
      this.conn, this.writable, sent, callbacks := conn, writable, [], [];
      utMetadata, metadataReceived, metadataSize := 0, 0, 0;
      metadata := new byte[0];
    }

    /** `conn.Write`: part of the bytes may be taken, and there is an error if the connection fails. */
    method ConnWrite(b: seq<byte>) returns (n: nat, err: bool)
      modifies this`writable, this`sent
      ensures n <= |b| && n <= old(writable) && sent == old(sent) + b[..n] && writable == old(writable) - n
      ensures err ==> n == old(writable) < |b|
      ensures !err && b != [] ==> n > 0
    {
      var wanted := if |b| <= chunk then |b| else chunk;
      err := writable < wanted;
      n := if err then writable else wanted;
      sent, writable := sent + b[..n], writable - n;
    }

    method WriteAll(b: seq<byte>) returns (ok: bool)
      modifies this`writable, this`sent
      ensures ok <==> |b| <= old(writable)
      ensures ok ==> sent == old(sent) + b && writable == old(writable) - |b|
      ensures !ok ==> sent == old(sent) + b[..old(writable)] && writable == 0
    {
      var rest := b;
      while rest != []
        invariant |rest| <= |b| && rest == b[|b| - |rest|..]
        invariant sent == old(sent) + b[..|b| - |rest|] && writable == old(writable) - (|b| - |rest|)
        decreases |rest|
      {
        ghost var done := |b| - |rest|;
        var n, err := ConnWrite(rest);
        assert b[..done] + rest[..n] == b[..done + n];
        if err { return false; }
        rest := rest[n..];
      }
      return true;
    }

    method ReadNext() returns (r: Option<seq<byte>>)
      modifies this`conn
      ensures match ReadMessage(old(conn))
              case Message(m, rest) => r == Some(m) && conn == rest
              case ReadError(rest) => r == None && conn == rest
    {
      if |conn| < 4 {
        conn := [];
        return None;
      }
      var length := FromBe32(conn[..4]);
      conn := conn[4..];
      if length > MAX_METADATA_SIZE { return None; }
      if |conn| < length {
        conn := [];
        return None;
      }
      assert conn[..length] == old(conn)[4..4 + length];
      r := Some(conn[..length]);
      conn := conn[length..];
    }

    method ReadNextEx() returns (r: Option<seq<byte>>)
      modifies this`conn
      ensures match ReadExMessage(old(conn))
              case Message(m, rest) => r == Some(m) && conn == rest
              case ReadError(rest) => r == None && conn == rest
    {
      while true
        invariant ReadExMessage(conn) == ReadExMessage(old(conn))
        decreases |conn|
      {
        r := ReadNext();
        if r == None || IsExtension(r.value) { return; }
      }
    }

    method ReadNextUm() returns (r: Option<seq<byte>>)
      modifies this`conn
      ensures match ReadUmMessage(old(conn))
              case Message(m, rest) => r == Some(m) && conn == rest
              case ReadError(rest) => r == None && conn == rest
    {
      while true
        invariant ReadUmMessage(conn) == ReadUmMessage(old(conn))
        decreases |conn|
      {
        r := ReadNextEx();
        if r == None || r.value[1] == 1 { return; }
      }
    }

    /** The leech's own handshake. */
    function Hello(): (h: seq<byte>)
      ensures |h| == 68 && h[0] == 19 && h[1..20] == Ascii("BitTorrent protocol") && h[20..28] == [0, 0, 0, 0, 0, 16, 0, 1]
      ensures h[28..48] == infoHash && h[48..] == clientID
    {
      PROTOCOL + RESERVED + infoHash + clientID
    }

    /** A peer that tests handshakes as the leech does accepts the leech's own. */
    lemma OwnHandshakeAccepted()
      ensures GoodHandshake(Hello())
    {
      assert Hello()[25] == RESERVED[5];
    }

    method DoBtHandshake() returns (ok: bool)
      modifies this`conn, this`writable, this`sent
      ensures ok <==> |old(conn)| >= 68 && GoodHandshake(old(conn)[..68]) && old(writable) >= 68
      ensures ok <==> && |old(conn)| >= 68 && old(writable) >= 68
                      && old(conn)[0] == 19 && old(conn)[1..20] == Ascii("BitTorrent protocol") && (old(conn)[25] / 16) % 2 == 1
      ensures ok ==> conn == old(conn)[68..] && sent == old(sent) + Hello() && writable == old(writable) - 68
    {
      ok := WriteAll(Hello());
      if !ok { return; }
      if |conn| < 68 {
        conn := [];
        return false;
      }
      var rHandshake := conn[..68];
      conn := conn[68..];
      ok := GoodHandshake(rHandshake);
    }

    /** A first extension message that is no handshake passes for success and leaves the size as it was. */
    method DoExHandshake() returns (ok: bool)
      modifies this`conn, this`writable, this`sent, this`utMetadata, this`metadataSize, this`metadata
      ensures ok <==> && old(writable) >= |EX_HANDSHAKE|
                      && ReadExMessage(old(conn)).Message?
                      && !Greet(lib, ReadExMessage(old(conn)).bytes).Rejected?
      ensures ok ==> sent == old(sent) + EX_HANDSHAKE && conn == ReadExMessage(old(conn)).rest
      ensures ok ==> writable == old(writable) - |EX_HANDSHAKE|
      ensures ok ==> match Greet(lib, ReadExMessage(old(conn)).bytes)
                     case Agreed(ut, size) => utMetadata == ut && metadataSize == size && fresh(metadata) && metadata[..] == seq(size, i => 0)
                     case _ => utMetadata == old(utMetadata) && metadataSize == old(metadataSize) && metadata == old(metadata)
      ensures !ok ==> metadata == old(metadata)
      // In terms of the decoded dictionary: the size is positive and below 10 MiB, the ID is between 0 and 255.
      ensures ReadExMessage(old(conn)).Message? && ReadExMessage(old(conn)).bytes[1] == 0 ==>
              var root := lib.decodeRoot(ReadExMessage(old(conn)).bytes[2..]);
              && (ok <==> && |EX_HANDSHAKE| <= old(writable) && root.Some?
                          && 0 < root.value.metadataSize < 10485760 && 0 < root.value.utMetadata < 255)
              && (ok ==> metadataSize == root.value.metadataSize && utMetadata == root.value.utMetadata && metadata.Length == metadataSize)
      ensures ReadExMessage(old(conn)).Message? && ReadExMessage(old(conn)).bytes[1] != 0 ==>
              (ok <==> |EX_HANDSHAKE| <= old(writable)) && metadataSize == old(metadataSize)
    {
      ok := WriteAll(EX_HANDSHAKE);
      if !ok { return; }
      var m := ReadNextEx();
      if m == None { return false; }
      match Greet(lib, m.value)
      case Rejected => return false;
      case NotAHandshake => return true;
      case Agreed(ut, size) =>
        utMetadata, metadataSize := ut, size;
        metadata := new byte[size](_ => 0);
        return true;
    }

    /** Sends the request for one piece. */
    method RequestPiece(piece: nat, ghost request: seq<byte>) returns (ok: bool)
      requires request == Frame(Request(lib, utMetadata, piece))
      modifies this`writable, this`sent
      ensures ok <==> |request| <= old(writable)
      ensures ok ==> sent == old(sent) + request && writable == old(writable) - |request|
    {
      var extDictDump := lib.encodeRequest(piece);
      var frame := Be32(2 + |extDictDump|) + [20, utMetadata] + extDictDump;
      assert frame == Frame(Request(lib, utMetadata, piece));
      ok := WriteAll(frame);
    }

    /** Asks for every piece of the metadata, one frame per piece, in order. */
    method RequestAllPieces() returns (ok: bool)
      modifies this`writable, this`sent
      ensures ok ==> sent == old(sent) + Frames(Requests(lib, utMetadata, NPieces(metadataSize)))
      ensures ok <==> |Frames(Requests(lib, utMetadata, NPieces(metadataSize)))| <= old(writable)
    {
      var nPieces := NPieces(metadataSize);
      ghost var ms := Requests(lib, utMetadata, nPieces);
      ghost var requests := seq(nPieces, i requires 0 <= i < nPieces => Frame(ms[i]));
      FlattenIsFrames(ms, requests);
      ok := SendRequests(nPieces, requests);
    }

    method SendRequests(nPieces: nat, ghost requests: seq<seq<byte>>) returns (ok: bool)
      requires |requests| == nPieces
      requires forall i | 0 <= i < nPieces :: requests[i] == Frame(Request(lib, utMetadata, i))
      modifies this`writable, this`sent
      ensures ok ==> sent == old(sent) + Flatten(requests)
      ensures ok <==> |Flatten(requests)| <= old(writable)
    {
      for piece := 0 to nPieces
        invariant sent == old(sent) + Flatten(requests[..piece])
        invariant writable + |Flatten(requests[..piece])| == old(writable)
      {
        FlattenStep(requests, piece);
        ok := RequestPiece(piece, requests[piece]);
        if !ok { return; }
      }
      assert requests[..nPieces] == requests;
      return true;
    }

    /** Copies a piece to its place in the buffer. */
    method CopyPiece(p: Piece)
      requires Fits(p, metadata.Length)
      modifies metadata
      ensures metadata[..] == Write(old(metadata[..]), p)
    {
      forall i | 0 <= i < |p.data| { metadata[p.offset + i] := p.data[i]; }
    }

    /** The checks and the copy for one data message. */
    method TakePiece(p: Piece, ghost buffer: seq<byte>, ghost log: seq<Piece>) returns (ending: Ending)
      requires metadata.Length == metadataSize == |buffer| && p.offset % PIECE == 0
      requires Received(log, metadataSize) && metadataReceived == Total(log) < metadataSize
      requires metadata[..] == Written(buffer, log)
      modifies this`metadataReceived, metadata
      ensures ending.Panicked? <==> |p.data| <= PIECE && !Fits(p, metadataSize)
      ensures ending.Normal? <==> Accepts(p, Total(log), metadataSize)
      ensures ending.Normal? ==>
        && Received(log + [p], metadataSize) && metadataReceived == Total(log + [p])
        && metadata[..] == Written(buffer, log + [p])
      ensures ending.Normal? ==> metadata[..] == Write(old(metadata[..]), p)
    {
      if |p.data| > PIECE { return Erred; }
      if !Fits(p, metadataSize) { return Panicked; }
      CopyPiece(p);
      metadataReceived := metadataReceived + |p.data|;
      if |p.data| < PIECE && metadataReceived != metadataSize { return Erred; }
      if metadataReceived > metadataSize { return Erred; }
      ReceivedOneMore(log, p, metadataSize);
      assert (log + [p])[..|log|] == log;
      return Normal;
    }

    /** The messages have passed, and the buffer, first `buffer`, holds their pieces. */
    ghost predicate Holds(messages: seq<seq<byte>>, buffer: seq<byte>)
      reads this, metadata
    {
      && Underway(lib, messages, metadataSize)
      && metadataReceived == Counted(lib, messages)
      && metadata.Length == metadataSize == |buffer|
      && metadata[..] == Written(buffer, DataPieces(lib, messages))
    }

    /** Between two rounds: of the messages `all` that the peer sends, `messages` have been read. */
    ghost predicate InTransfer(all: seq<seq<byte>>, messages: seq<seq<byte>>, buffer: seq<byte>)
      reads this, metadata
    {
      all == messages + ReadAllUm(conn) && Holds(messages, buffer)
    }

    /** The loop has ended behind `messages` for the reason that `ending` names. */
    ghost predicate EndsAt(all: seq<seq<byte>>, messages: seq<seq<byte>>, ending: Ending) reads this {
      && messages <= all
      && (|messages| < |all| ==> Refuses(lib, all[|messages|], Counted(lib, messages), metadataSize))
      && (ending.Panicked? <==> |messages| < |all| && OutOfPlace(lib, all[|messages|], metadataSize))
    }

    /** One round of the loop. */
    method ReadPiece(ghost all: seq<seq<byte>>, ghost messages: seq<seq<byte>>, ghost buffer: seq<byte>)
      returns (ending: Ending, ghost read: seq<seq<byte>>)
      requires InTransfer(all, messages, buffer) && metadataReceived < metadataSize
      modifies this`conn, this`metadataReceived, metadata
      ensures ending.Normal? ==> InTransfer(all, read, buffer) && |conn| < |old(conn)|
      ensures !ending.Normal? ==> read == messages && EndsAt(all, messages, ending)
    {
      var rUmMessage := ReadNextUm();
      if rUmMessage == None { return Erred, messages; }
      NextUm(all, messages, old(conn));
      ending := TakeMessage(rUmMessage.value, messages, buffer);
      read := if ending.Normal? then messages + [rUmMessage.value] else messages;
    }

    /** What the loop does with one ut_metadata message. */
    method TakeMessage(m: seq<byte>, ghost messages: seq<seq<byte>>, ghost buffer: seq<byte>) returns (ending: Ending)
      requires Holds(messages, buffer) && metadataReceived < metadataSize
      modifies this`metadataReceived, metadata
      ensures ending.Normal? <==> !Refuses(lib, m, Counted(lib, messages), metadataSize)
      ensures ending.Panicked? <==> OutOfPlace(lib, m, metadataSize)
      ensures ending.Normal? ==> Holds(messages + [m], buffer)
      // In terms of the decoded dictionary: type 1 is data, type 2 a rejection, and other types do nothing.
      ensures |m| < 2 || lib.decodeExt(m[2..]) == None ==> ending.Erred?
      ensures |m| >= 2 && lib.decodeExt(m[2..]).Some? ==>
              var ext := lib.decodeExt(m[2..]).value;
              && (ext.msgType == 2 ==> ending.Erred?)
              && (ext.msgType != 1 && ext.msgType != 2 ==>
                    ending.Normal? && metadataReceived == old(metadataReceived) && metadata[..] == old(metadata[..]))
              && (ext.msgType == 1 ==> TakesData(old(metadataReceived), old(metadata[..]), Offset(ext.piece), ext.surplus,
                                                 ending, metadataReceived, metadata[..]))
    {
      DataPiecesOneMore(lib, messages, m);
      if |m| < 2 { return Erred; }
      var rExtDict := lib.decodeExt(m[2..]);
      if rExtDict == None { return Erred; }
      if rExtDict.value.msgType == 2 { return Erred; }
      if rExtDict.value.msgType != 1 { return Normal; }
      ghost var before := metadata[..];
      var p := Piece(Offset(rExtDict.value.piece), rExtDict.value.surplus);
      ending := TakePiece(p, buffer, DataPieces(lib, messages));
      if ending.Normal? {
        assert metadata[p.offset..p.offset + |p.data|] == p.data;
        assert metadata[..p.offset] == before[..p.offset];
        assert metadata[p.offset + |p.data|..] == before[p.offset + |p.data|..];
      }
    }

    /** What a data message does: its bytes are counted and copied to their place, and nothing else is
        touched, if they fit and are 16 KiB or complete the metadata. It panics if they do not fit. */
    ghost predicate TakesData(counted: nat, before: seq<byte>, at: int, data: seq<byte>,
                              ending: Ending, countedAfter: nat, after: seq<byte>)
    {
      var end := at + |data|;
      && (ending.Panicked? <==> |data| <= 16384 && !(0 <= at && end <= |before|))
      && (ending.Normal? <==> && |data| <= 16384 && 0 <= at && end <= |before| && counted + |data| <= |before|
                              && (|data| == 16384 || counted + |data| == |before|))
      && (ending.Normal? ==>
            && countedAfter == counted + |data| && |after| == |before|
            && after[at..end] == data && after[..at] == before[..at] && after[end..] == before[end..])
    }

    /** The loop that reads ut_metadata messages until as many bytes as the size have been counted. It
        ends normally, or panics, exactly when the messages that the peer sends make it so. */
    method Reassemble() returns (ending: Ending, ghost messages: seq<seq<byte>>)
      requires metadata.Length == metadataSize && metadataReceived == 0
      modifies this`conn, this`metadataReceived, metadata
      ensures ending.Normal? <==> Delivered(lib, ReadAllUm(old(conn)), metadataSize)
      ensures ending.Panicked? <==> Overrun(lib, ReadAllUm(old(conn)), metadataSize)
      ensures ending.Normal? ==>
        InTransfer(ReadAllUm(old(conn)), messages, old(metadata[..])) && Complete(DataPieces(lib, messages), metadataSize)
    {
      messages := [];
      ghost var all := ReadAllUm(conn);
      while metadataReceived < metadataSize
        invariant InTransfer(all, messages, old(metadata[..]))
        decreases |conn|
      {
        assert all[..|messages|] == messages;
        ending, messages := ReadPiece(all, messages, old(metadata[..]));
        if !ending.Normal? {
          StoppedShort(lib, all, |messages|, metadataSize);
          return;
        }
      }
      assert all[..|messages|] == messages;
      DeliveredIsSafe(lib, all, |messages|, metadataSize);
      return Normal, messages;
    }

    /** The buffer hashes to the infohash and decodes to a valid info without negative sizes. */
    predicate Genuine(buffer: seq<byte>) {
      && lib.sha1(buffer) == infoHash
      && lib.decodeInfo(buffer).Some?
      && ValidInfo(lib.decodeInfo(buffer).value)
      && forall f | f in FilesOf(lib.decodeInfo(buffer).value) :: f.size >= 0
    }

    /** The metadata reported for a genuine buffer; the total is a 64-bit sum. */
    function Report(buffer: seq<byte>, now: int): (md: Metadata)
      requires Genuine(buffer)
      ensures md.infoHash == infoHash && |md.files| >= 1 && forall f | f in md.files :: f.size >= 0
      ensures md.discoveredOn == now && md.totalSize == SumSizes(md.files) % TWO_64
      ensures var info := lib.decodeInfo(buffer).value;
              && md.name == info.name
              && (info.files == [] ==> md.files == [File(info.length, info.name)])
              && (info.files != [] ==>
                    && |md.files| == |info.files|
                    && forall i | 0 <= i < |md.files| :: md.files[i] == File(info.files[i].length, info.files[i].path))
    {
      var info := lib.decodeInfo(buffer).value;
      Metadata(infoHash, info.name, SumSizes(FilesOf(info)) % TWO_64, now, FilesOf(info))
    }

    /** The checks after the transfer. */
    method Finish(now: int)
      modifies this`callbacks
      ensures |callbacks| == |old(callbacks)| + 1
      ensures callbacks[|old(callbacks)|].OnSuccess? <==>
              && lib.sha1(metadata[..]) == infoHash && lib.decodeInfo(metadata[..]).Some?
              && var info := lib.decodeInfo(metadata[..]).value;
              && ValidInfo(info)
              && (if info.files == [] then info.length >= 0 else forall f | f in info.files :: f.length >= 0)
      ensures callbacks == old(callbacks) + [if Genuine(metadata[..]) then OnSuccess(Report(metadata[..], now)) else OnError]
    {
      var buffer := metadata[..];
      var info := lib.decodeInfo(buffer);
      if info.Some? { SizesOf(info.value); }
      if lib.sha1(buffer) != infoHash || info == None || !ValidInfo(info.value) {
        callbacks := callbacks + [OnError];
        return;
      }
      var totalSize := CheckedTotal(FilesOf(info.value));
      callbacks := callbacks +
        [if totalSize == None then OnError
         else OnSuccess(Metadata(infoHash, info.value.name, totalSize.value, now, FilesOf(info.value)))];
    }

    /** What the two handshakes settle: the peer's ID for ut_metadata, the size of the metadata, and
        the bytes that follow. Nothing is settled if one of them fails. */
    ghost function Settled(bytes: seq<byte>): Option<(byte, nat, seq<byte>)> {
      if |bytes| < 68 || !GoodHandshake(bytes[..68]) then None else
      match ReadExMessage(bytes[68..])
      case ReadError(_) => None
      case Message(m, rest) =>
        match Greet(lib, m)
        case Rejected => None
        case NotAHandshake => Some((0, 0, rest))
        case Agreed(ut, size) => Some((ut, size, rest))
    }

    /** Everything that the leech sends before it reads pieces. */
    ghost function Outgoing(utMetadata: byte, size: nat): seq<byte> {
      Hello() + EX_HANDSHAKE + Frames(Requests(lib, utMetadata, NPieces(size)))
    }

    /** The handshakes succeed, and the peer takes all that is sent. */
    ghost predicate Prepares(bytes: seq<byte>, writable: nat) {
      && Settled(bytes).Some?
      && |Outgoing(Settled(bytes).value.0, Settled(bytes).value.1)| <= writable
    }

    /** Both handshakes. */
    method Handshake() returns (ok: bool)
      requires utMetadata == 0 && metadataSize == 0 && metadata.Length == 0
      modifies this`conn, this`writable, this`sent, this`utMetadata, this`metadataSize, this`metadata
      ensures metadata == old(metadata) || fresh(metadata)
      ensures ok <==> Settled(old(conn)).Some? && |Hello() + EX_HANDSHAKE| <= old(writable)
      ensures ok ==> Settled(old(conn)) == Some((utMetadata, metadataSize, conn))
      ensures ok ==> sent == old(sent) + (Hello() + EX_HANDSHAKE) && writable == old(writable) - |Hello() + EX_HANDSHAKE|
      ensures ok ==> metadata[..] == seq(metadataSize, i => 0)
    {
      ok := DoBtHandshake();
      if !ok { return; }
      ok := DoExHandshake();
      if ok { assert metadata[..] == seq(metadataSize, i => 0); }
    }

    /** Handshakes and requests. */
    method Prepare() returns (ok: bool)
      requires utMetadata == 0 && metadataSize == 0 && metadata.Length == 0
      modifies this`conn, this`writable, this`sent, this`utMetadata, this`metadataSize, this`metadata
      ensures metadata == old(metadata) || fresh(metadata)
      ensures ok <==> Prepares(old(conn), old(writable))
      ensures ok ==> Settled(old(conn)) == Some((utMetadata, metadataSize, conn))
      ensures ok ==> metadata[..] == seq(metadataSize, i => 0) && sent == old(sent) + Outgoing(utMetadata, metadataSize)
    {
      ok := Handshake();
      if ok { ok := RequestAllPieces(); }
    }

    /** What a leech comes to whose handshakes and requests have succeeded or not. */
    ghost predicate Outcome(begun: bool, bytes: seq<byte>, now: int, panicked: bool, messages: seq<seq<byte>>,
                            buffer: seq<byte>, callbacks: seq<Callback>)
    {
      && (begun ==> Settled(bytes).Some?)
      && (panicked <==> begun && Overrun(lib, ReadAllUm(Settled(bytes).value.2), Settled(bytes).value.1))
      && var delivered := begun && Delivered(lib, ReadAllUm(Settled(bytes).value.2), Settled(bytes).value.1);
      && (delivered ==> Transferred(bytes, messages, buffer))
      && callbacks == if panicked then []
                      else if delivered && Genuine(buffer) then [OnSuccess(Report(buffer, now))]
                      else [OnError]
    }

    /** A whole leech. It panics exactly when a piece out of place comes before the metadata is
        complete. Otherwise it makes exactly one callback: OnSuccess exactly when the handshakes and
        the transfer succeed and the buffer is genuine. A first extension message that is no handshake
        settles a size of zero, and the buffer is then empty. */
    method Do(connects: bool, now: int) returns (panicked: bool, ghost messages: seq<seq<byte>>)
      requires callbacks == [] && metadataReceived == 0 && utMetadata == 0 && metadataSize == 0 && metadata.Length == 0
      modifies this, metadata
      ensures Outcome(connects && Prepares(old(conn), old(writable)), old(conn), now, panicked, messages, metadata[..], callbacks)
    {
      panicked, messages := false, [];
      var ok := connects;
      if ok { ok := Prepare(); }
      if !ok {
        callbacks := [OnError];
        return;
      }
      var ending;
      ending, messages := Reassemble();
      match ending
      case Panicked => panicked := true;
      case Erred => callbacks := [OnError];
      case Normal => Finish(now);
    }

    /** The buffer is what a complete transfer of the first messages behind the handshakes has made of
        a zeroed buffer of the settled size. */
    ghost predicate Transferred(bytes: seq<byte>, messages: seq<seq<byte>>, buffer: seq<byte>) {
      && Settled(bytes).Some?
      && var (_, size, rest) := Settled(bytes).value;
      && messages <= ReadAllUm(rest)
      && Complete(DataPieces(lib, messages), size)
      && buffer == Written(seq(size, i => 0), DataPieces(lib, messages))
    }

    /** Whatever the peer sends, there is at most one callback, none only after a panic, and what is
        reported was decoded from bytes that hash to the infohash asked for. */
    lemma ReportedIsGenuine(begun: bool, bytes: seq<byte>, now: int, panicked: bool, messages: seq<seq<byte>>,
                            buffer: seq<byte>, callbacks: seq<Callback>)
      requires Outcome(begun, bytes, now, panicked, messages, buffer, callbacks)
      ensures |callbacks| == if panicked then 0 else 1
      ensures forall c | c in callbacks && c.OnSuccess? ::
                && begun && c.md.infoHash == infoHash == lib.sha1(buffer) && c.md.discoveredOn == now
                && lib.decodeInfo(buffer).Some? && c.md.name == lib.decodeInfo(buffer).value.name
    {
    }

    /** The peer settles the size of `metadata`, takes all requests, and then sends every piece once. */
    ghost predicate Serves(bytes: seq<byte>, writable: nat, n: nat, metadata: seq<byte>) {
      && Prepares(bytes, writable) && Settled(bytes).value.1 == |metadata|
      && Truthfully(lib, ReadAllUm(Settled(bytes).value.2), n, metadata)
    }

    lemma ServedIsMetadata(bytes: seq<byte>, n: nat, metadata: seq<byte>, messages: seq<seq<byte>>, buffer: seq<byte>)
      requires Settled(bytes).Some? && Settled(bytes).value.1 == |metadata|
      requires Truthfully(lib, ReadAllUm(Settled(bytes).value.2), n, metadata) && Transferred(bytes, messages, buffer)
      ensures buffer == metadata
    {
      var ms := ReadAllUm(Settled(bytes).value.2);
      assert ms[..|messages|] == messages;
      DeliversAll(lib, ms, n, metadata, |messages|);
      EachOnceRebuilds(seq(|metadata|, i => 0), DataPieces(lib, ms[..n]), metadata);
    }

    /** A whole leech on a truthful peer reports the metadata if and only if a short last piece comes
        last and the metadata is genuine, and errs otherwise. */
    lemma ServedReportsIff(bytes: seq<byte>, writable: nat, n: nat, metadata: seq<byte>, now: int, panicked: bool,
                           messages: seq<seq<byte>>, buffer: seq<byte>, callbacks: seq<Callback>)
      requires Serves(bytes, writable, n, metadata) && Outcome(true, bytes, now, panicked, messages, buffer, callbacks)
      ensures var log := DataPieces(lib, ReadAllUm(Settled(bytes).value.2)[..n]);
              callbacks == [if ShortComesLast(log, metadata) && Genuine(metadata) then OnSuccess(Report(metadata, now)) else OnError]
    {
      var ms := ReadAllUm(Settled(bytes).value.2);
      TruthfulDeliversIff(lib, ms, n, metadata);
      if ShortComesLast(DataPieces(lib, ms[..n]), metadata) { ServedIsMetadata(bytes, n, metadata, messages, buffer); }
    }
  }
}
