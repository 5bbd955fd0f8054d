/** Length-prefixed peer messages, and the readers that skip what the leech does not want. */
module Framing {
  import opened Bytes

  const MAX_METADATA_SIZE := 10 * 1024 * 1024

  /** What one read returns, and the part of the connection it leaves unread. */
  datatype Read = Message(bytes: seq<byte>, rest: seq<byte>) | ReadError(rest: seq<byte>)

  /** `readMessage`: four bytes of length, then that many bytes. A short read uses up the stream. */
  function ReadMessage(conn: seq<byte>): (r: Read)
    ensures r.Message? ==> |r.rest| < |conn|
  {
    if |conn| < 4 then ReadError([]) else
    var length := FromBe32(conn[..4]);
    if length > MAX_METADATA_SIZE then ReadError(conn[4..])
    else if |conn| < 4 + length then ReadError([])
    else Message(conn[4..4 + length], conn[4 + length..])
  }

  predicate IsExtension(m: seq<byte>) {
    |m| >= 2 && m[0] == 20
  }

  predicate IsUtMetadata(m: seq<byte>) {
    IsExtension(m) && m[1] == 1
  }

  /** `readExMessage` ignores everything but extension messages. */
  function ReadExMessage(conn: seq<byte>): (r: Read)
    ensures r.Message? ==> |r.rest| < |conn| && IsExtension(r.bytes)
    decreases |conn|
  {
    match ReadMessage(conn)
    case ReadError(rest) => ReadError(rest)
    case Message(m, rest) => if IsExtension(m) then Message(m, rest) else ReadExMessage(rest)
  }

  /** `readUmMessage` ignores everything but ut_metadata messages. */
  function ReadUmMessage(conn: seq<byte>): (r: Read)
    ensures r.Message? ==> |r.rest| < |conn| && IsUtMetadata(r.bytes)
    decreases |conn|
  {
    match ReadExMessage(conn)
    case ReadError(rest) => ReadError(rest)
    case Message(m, rest) => if m[1] == 1 then Message(m, rest) else ReadUmMessage(rest)
  }

  function Frame(m: seq<byte>): seq<byte> {
    Be32(|m|) + m
  }

  function Frames(ms: seq<seq<byte>>): seq<byte> {
    if ms == [] then [] else Frame(ms[0]) + Frames(ms[1..])
  }

  lemma FrameIsRead(m: seq<byte>, rest: seq<byte>)
    requires |m| <= MAX_METADATA_SIZE
    ensures ReadMessage(Frame(m) + rest) == Message(m, rest)
  {
    var conn := Frame(m) + rest;
    Be32Splits(|m|);
    assert conn[..4] == Be32(|m|);
    assert conn[4..4 + |m|] == m && conn[4 + |m|..] == rest;
  }

  lemma ReadWasFrame(conn: seq<byte>, m: seq<byte>, rest: seq<byte>)
    requires ReadMessage(conn) == Message(m, rest)
    ensures |m| <= MAX_METADATA_SIZE && conn == Frame(m) + rest
  {
    Be32Joins(conn[..4]);
    assert conn == conn[..4] + conn[4..4 + |m|] + conn[4 + |m|..];
  }

  /** Reading returns `m` and leaves `rest` exactly when the stream is the frame of `m`, within the
      size limit, followed by `rest`. */
  lemma ReadsFrame(conn: seq<byte>, m: seq<byte>, rest: seq<byte>)
    ensures ReadMessage(conn) == Message(m, rest) <==> |m| <= MAX_METADATA_SIZE && conn == Frame(m) + rest
  {
    if ReadMessage(conn) == Message(m, rest) { ReadWasFrame(conn, m, rest); }
    if |m| <= MAX_METADATA_SIZE { FrameIsRead(m, rest); }
  }

  /** The position of the first ut_metadata message, or the length. */
  function FirstUm(ms: seq<seq<byte>>): (k: nat)
    ensures k <= |ms| && (k < |ms| ==> IsUtMetadata(ms[k])) && forall i | 0 <= i < k :: !IsUtMetadata(ms[i])
  {
    if ms == [] || IsUtMetadata(ms[0]) then 0 else 1 + FirstUm(ms[1..])
  }

  ghost predicate WithinLimit(ms: seq<seq<byte>>) {
    forall m :: m in ms ==> |m| <= MAX_METADATA_SIZE
  }

  lemma {:induction false} ReadExSkips(m: seq<byte>, rest: seq<byte>)
    requires |m| <= MAX_METADATA_SIZE
    ensures ReadExMessage(Frame(m) + rest) == if IsExtension(m) then Message(m, rest) else ReadExMessage(rest)
  {
    FrameIsRead(m, rest);
  }

  lemma {:induction false} ReadUmSkips(m: seq<byte>, rest: seq<byte>)
    requires |m| <= MAX_METADATA_SIZE
    ensures ReadUmMessage(Frame(m) + rest) == if IsUtMetadata(m) then Message(m, rest) else ReadUmMessage(rest)
  {
    ReadExSkips(m, rest);
  }

  /** On a concatenation of frames, with anything behind it, `readUmMessage` returns the first
      ut_metadata message and stops right behind its frame. */
  lemma {:induction false} ReadUmFindsFirst(ms: seq<seq<byte>>, tail: seq<byte>)
    requires WithinLimit(ms)
    ensures var k := FirstUm(ms);
            ReadUmMessage(Frames(ms) + tail) ==
              if k < |ms| then Message(ms[k], Frames(ms[k + 1..]) + tail) else ReadUmMessage(tail)
    decreases |ms|
  {
    if ms == [] {
      assert Frames(ms) + tail == tail;
    } else {
      var rest := Frames(ms[1..]) + tail;
      assert Frames(ms) + tail == Frame(ms[0]) + rest;
      ReadUmSkips(ms[0], rest);
      if !IsUtMetadata(ms[0]) {
        ReadUmFindsFirst(ms[1..], tail);
        var k := FirstUm(ms[1..]);
        assert FirstUm(ms) == k + 1;
        if k < |ms[1..]| { assert ms[1..][k + 1..] == ms[k + 2..]; }
      }
    }
  }

  /** On the wire: a ut_metadata message is 20, then 1, then the payload, and is returned whatever the
      payload; any other message of at most 10 MiB is skipped, be it empty or a keep-alive. */
  lemma UmOnTheWire(payload: seq<byte>, other: seq<byte>, rest: seq<byte>)
    requires |payload| + 2 <= 10485760 && |other| <= 10485760 && !([20, 1] <= other)
    ensures ReadUmMessage(Be32(|payload| + 2) + [20, 1] + payload + rest) == Message([20, 1] + payload, rest)
    ensures ReadUmMessage(Be32(|other|) + other + rest) == ReadUmMessage(rest)
  {
    var m := [20, 1] + payload;
    assert Be32(|payload| + 2) + [20, 1] + payload + rest == Frame(m) + rest;
    ReadUmSkips(m, rest);
    assert !IsUtMetadata(other) by { if |other| >= 2 { assert other[..2] == [other[0], other[1]]; } }
    ReadUmSkips(other, rest);
  }

  /** All messages that repeated calls of `readUmMessage` return until one fails. */
  function ReadAllUm(conn: seq<byte>): seq<seq<byte>>
    decreases |conn|
  {
    match ReadUmMessage(conn)
    case ReadError(_) => []
    case Message(m, rest) => [m] + ReadAllUm(rest)
  }

  function OnlyUm(ms: seq<seq<byte>>): seq<seq<byte>> {
    if ms == [] then [] else (if IsUtMetadata(ms[0]) then [ms[0]] else []) + OnlyUm(ms[1..])
  }

  /** Repeated reading of a concatenation of frames returns its ut_metadata messages, all of them, in
      order, and nothing else. */
  lemma {:induction false} ReadAllUmFilters(ms: seq<seq<byte>>)
    requires WithinLimit(ms)
    ensures ReadAllUm(Frames(ms)) == OnlyUm(ms)
    decreases |ms|
  {
    if ms == [] {
      assert ReadMessage([]) == ReadError([]);
    } else {
      ReadUmSkips(ms[0], Frames(ms[1..]));
      ReadAllUmFilters(ms[1..]);
    }
  }

  /** `toBigEndian`; it panics for any other width. */
  function ToBigEndian(i: nat, n: int): Option<seq<byte>> {
    if n == 1 then Some([i % 0x100])
    else if n == 2 then Some(Be16(i))
    else if n == 4 then Some(Be32(i))
    else None
  }

  /** The four-byte form and the length reader undo each other on every 32-bit length. */
  lemma LengthRoundTrip(i: nat, b: seq<byte>)
    requires i < 0x1_0000_0000 && |b| == 4
    ensures ToBigEndian(i, 4).Some? && FromBe32(ToBigEndian(i, 4).value) == i
    ensures ToBigEndian(FromBe32(b), 4) == Some(b)
  {
    Be32Splits(i);
    Be32Joins(b);
  }
}
