/**
 What the accepted pieces of a transfer add up to. A piece is written at its index times 16 KiB; the
 leech checks lengths and the running total, but not which indices it has seen.
 */
module Reassembly {
  import opened Bytes

  const PIECE := 16384

  datatype Piece = Piece(offset: int, data: seq<byte>)

  /** The arithmetic of `piece*int(math.Pow(2, 14))`, which wraps around at 64 bits. */
  function Offset(piece: int): (offset: int)
    ensures offset % PIECE == 0
  {
    var wrapped := (piece * PIECE + 0x8000_0000_0000_0000) % 0x1_0000_0000_0000_0000;
    OffsetAligned(piece);
    wrapped - 0x8000_0000_0000_0000
  }

  lemma OffsetAligned(piece: int)
    ensures ((piece * PIECE + 0x8000_0000_0000_0000) % 0x1_0000_0000_0000_0000) % PIECE == 0
  {
    var x := piece * PIECE + 0x8000_0000_0000_0000;
    var q := x / 0x1_0000_0000_0000_0000;
    assert x % 0x1_0000_0000_0000_0000 == PIECE * (piece + 0x2_0000_0000_0000 - q * 0x4_0000_0000_0000);
  }

  /** A peer may name one place of the buffer by many indices: those 2^50 apart. Within the buffer's
      own indices the place is the plain product. */
  lemma OffsetAliases(piece: int)
    ensures Offset(piece + 0x4_0000_0000_0000) == Offset(piece)
    ensures 0 <= piece < 0x2_0000_0000_0000 ==> Offset(piece) == piece * PIECE
  {
    var x := piece * PIECE + 0x8000_0000_0000_0000;
    assert (piece + 0x4_0000_0000_0000) * PIECE + 0x8000_0000_0000_0000 == x + 0x1_0000_0000_0000_0000;
  }

  /** `int(math.Ceil(float64(size) / 16384))`. */
  function NPieces(size: nat): nat {
    (size + PIECE - 1) / PIECE
  }

  function Total(log: seq<Piece>): nat {
    if log == [] then 0 else Total(log[..|log| - 1]) + |log[|log| - 1].data|
  }

  /** The slice that a piece is copied to lies within the buffer. */
  predicate Fits(p: Piece, size: nat) {
    0 <= p.offset && p.offset % PIECE == 0 && p.offset + |p.data| <= size && |p.data| <= PIECE
  }

  /** What the loop guarantees of the pieces it accepted: all fit, all are full except perhaps the
      last, and the total does not exceed the size, and is short of it unless the last piece ended it. */
  ghost predicate Received(log: seq<Piece>, size: nat) {
    && Total(log) <= size
    && (forall i | 0 <= i < |log| :: Fits(log[i], size))
    && (forall i | 0 <= i < |log| - 1 :: |log[i].data| == PIECE)
    && (log != [] && |log[|log| - 1].data| < PIECE ==> Total(log) == size)
    && (log != [] ==> Total(log[..|log| - 1]) < size)
  }

  ghost predicate Complete(log: seq<Piece>, size: nat) {
    Received(log, size) && Total(log) == size
  }

  /** The checks on a piece that arrives when `total` bytes have been counted. */
  predicate Accepts(p: Piece, total: nat, size: nat) {
    && Fits(p, size)
    && (|p.data| == PIECE || total + |p.data| == size)
    && total + |p.data| <= size
  }

  /** The checks on one more piece keep what is known of the pieces before it. */
  lemma ReceivedOneMore(log: seq<Piece>, p: Piece, size: nat)
    requires Received(log, size) && Total(log) < size && Accepts(p, Total(log), size)
    ensures Received(log + [p], size) && Total(log + [p]) == Total(log) + |p.data|
  {
    assert (log + [p])[..|log|] == log;
  }

  lemma {:induction false} TotalGrows(log: seq<Piece>, i: nat)
    requires i <= |log|
    ensures Total(log[..i]) <= Total(log)
    decreases |log|
  {
    if i < |log| {
      TotalGrows(log[..|log| - 1], i);
      assert log[..|log| - 1][..i] == log[..i];
    } else {
      assert log[..i] == log;
    }
  }

  /** Conversely, each of the received pieces has passed the checks when it arrived. */
  lemma ReceivedPassed(log: seq<Piece>, i: nat, size: nat)
    requires Received(log, size) && i < |log|
    ensures Accepts(log[i], Total(log[..i]), size)
  {
    assert log[..i + 1][..i] == log[..i];
    TotalGrows(log, i + 1);
    if i == |log| - 1 { assert log[..i + 1] == log; }
  }

  lemma {:induction false} TotalOfFull(log: seq<Piece>)
    requires forall i | 0 <= i < |log| :: |log[i].data| == PIECE
    ensures Total(log) == PIECE * |log|
  {
    if log != [] { TotalOfFull(log[..|log| - 1]); }
  }

  /** A complete transfer has accepted exactly as many pieces as were requested, and the last one
      has the length that is left for the last index. */
  lemma CompleteCount(log: seq<Piece>, size: nat)
    requires Complete(log, size) && size > 0
    ensures |log| == NPieces(size) && |log[|log| - 1].data| == size - PIECE * (|log| - 1)
  {
    var full := log[..|log| - 1];
    TotalOfFull(full);
    assert PIECE * (|log| - 1) < size <= PIECE * |log|;
  }

  predicate Writes(p: Piece, b: int) {
    p.offset <= b < p.offset + |p.data|
  }

  ghost predicate WrittenOnce(log: seq<Piece>, b: int) {
    exists i | 0 <= i < |log| :: Writes(log[i], b) && forall j | 0 <= j < |log| :: Writes(log[j], b) ==> j == i
  }

  ghost predicate DistinctOffsets(log: seq<Piece>) {
    forall i, j | 0 <= i < j < |log| :: log[i].offset != log[j].offset
  }

  // Pigeonhole: n numbers below n are pairwise distinct exactly when none is missing.

  ghost predicate Distinct(xs: seq<int>) {
    forall i, j | 0 <= i < j < |xs| :: xs[i] != xs[j]
  }

  function Values(xs: seq<int>): set<int> {
    set x | x in xs
  }

  lemma {:induction false} ValuesCount(xs: seq<int>)
    ensures |Values(xs)| <= |xs| && (|Values(xs)| == |xs| <==> Distinct(xs))
  {
    if xs != [] {
      var front, last := xs[..|xs| - 1], xs[|xs| - 1];
      ValuesCount(front);
      assert xs == front + [last];
      assert Values(xs) == Values(front) + {last};
      if last in front {
        var k :| 0 <= k < |front| && front[k] == last;
        assert xs[k] == xs[|xs| - 1];
        assert Values(xs) == Values(front);
      } else {
        assert last !in Values(front);
        assert Distinct(xs) <==> Distinct(front) by {
          if Distinct(xs) { assert forall i | 0 <= i < |front| :: front[i] == xs[i]; }
        }
      }
    }
  }

  function Below(n: nat): (s: set<int>)
    ensures |s| == n && forall k :: k in s <==> 0 <= k < n
  {
    if n == 0 then {} else Below(n - 1) + {n - 1}
  }

  lemma Pigeonhole(xs: seq<int>)
    requires forall i | 0 <= i < |xs| :: 0 <= xs[i] < |xs|
    ensures Distinct(xs) <==> forall k | 0 <= k < |xs| :: k in xs
  {
    var all := Below(|xs|);
    ValuesCount(xs);
    SubsetSize(Values(xs), all);
    if forall k | 0 <= k < |xs| :: k in xs { assert Values(xs) == all; }
    if Distinct(xs) {
      forall k | 0 <= k < |xs| ensures k in xs { assert k in Values(xs); }
    }
  }

  function Indices(log: seq<Piece>): seq<int> {
    seq(|log|, i requires 0 <= i < |log| => log[i].offset / PIECE)
  }

  lemma IndicesBelow(log: seq<Piece>, size: nat)
    requires Complete(log, size) && size > 0
    ensures forall i | 0 <= i < |log| :: 0 <= Indices(log)[i] < |log|
    ensures Distinct(Indices(log)) <==> DistinctOffsets(log)
  {
    CompleteCount(log, size);
    forall i | 0 <= i < |log| ensures 0 <= Indices(log)[i] < |log| {
      assert Fits(log[i], size) && |log[i].data| > 0;
    }
    forall i, j | 0 <= i < j < |log| ensures Indices(log)[i] == Indices(log)[j] <==> log[i].offset == log[j].offset {
      assert Fits(log[i], size) && Fits(log[j], size);
    }
  }

  /** With distinct offsets every index has its piece, and a short piece can only be the last index. */
  lemma DistinctFill(log: seq<Piece>, size: nat, k: nat) returns (i: nat)
    requires Complete(log, size) && size > 0 && DistinctOffsets(log) && k < |log|
    ensures i < |log| && log[i].offset == PIECE * k
    ensures |log[i].data| == if k == |log| - 1 then size - PIECE * k else PIECE
  {
    IndicesBelow(log, size);
    Pigeonhole(Indices(log));
    CompleteCount(log, size);
    assert k in Indices(log) && |log| - 1 in Indices(log);
    i :| 0 <= i < |log| && Indices(log)[i] == k;
    assert Fits(log[i], size);
    if k == |log| - 1 {
      assert PIECE * k + |log[i].data| <= size;
    } else if i == |log| - 1 {
      var top :| 0 <= top < |log| && Indices(log)[top] == |log| - 1;
      assert Fits(log[top], size);
    }
  }

  /** In a complete transfer every byte of the buffer is written exactly once if and only if no piece
      was sent twice. */
  lemma WrittenOnceIffDistinct(log: seq<Piece>, size: nat)
    requires Complete(log, size) && size > 0
    ensures DistinctOffsets(log) <==> forall b | 0 <= b < size :: WrittenOnce(log, b)
  {
    CompleteCount(log, size);
    if DistinctOffsets(log) {
      forall b | 0 <= b < size ensures WrittenOnce(log, b) {
        var i := DistinctFill(log, size, b / PIECE);
        assert Writes(log[i], b);
        forall j | 0 <= j < |log| && Writes(log[j], b) ensures j == i {
          assert Fits(log[j], size);
        }
      }
    } else {
      IndicesBelow(log, size);
      Pigeonhole(Indices(log));
      var k :| 0 <= k < |log| && k !in Indices(log);
      var b := PIECE * k;
      forall i | 0 <= i < |log| ensures !Writes(log[i], b) {
        assert Fits(log[i], size) && Indices(log)[i] in Indices(log);
      }
      assert !WrittenOnce(log, b);
    }
  }

  // ---------------------------------------------------------------------------------------------
  // The buffer
  // ---------------------------------------------------------------------------------------------

  function Write(buffer: seq<byte>, p: Piece): (r: seq<byte>)
    requires Fits(p, |buffer|)
    ensures |r| == |buffer|
  {
    buffer[..p.offset] + p.data + buffer[p.offset + |p.data|..]
  }

  function Written(buffer: seq<byte>, log: seq<Piece>): (r: seq<byte>)
    requires forall i | 0 <= i < |log| :: Fits(log[i], |buffer|)
    ensures |r| == |buffer|
  {
    if log == [] then buffer else Write(Written(buffer, log[..|log| - 1]), log[|log| - 1])
  }

  /** A byte that every piece writing it agrees on ends up with that value, and one that no piece
      writes keeps its old value. */
  lemma {:induction false} WrittenByte(buffer: seq<byte>, log: seq<Piece>, b: int, v: byte)
    requires forall i | 0 <= i < |log| :: Fits(log[i], |buffer|)
    requires 0 <= b < |buffer|
    requires forall i | 0 <= i < |log| :: Writes(log[i], b) ==> log[i].data[b - log[i].offset] == v
    ensures Written(buffer, log)[b] == if exists i | 0 <= i < |log| :: Writes(log[i], b) then v else buffer[b]
  {
    if log != [] {
      var front, last := log[..|log| - 1], log[|log| - 1];
      WrittenByte(buffer, front, b, v);
      assert Fits(last, |buffer|);
      if !Writes(last, b) && exists i | 0 <= i < |log| :: Writes(log[i], b) {
        var i :| 0 <= i < |log| && Writes(log[i], b);
        assert Writes(front[i], b);
      } else if Writes(last, b) {
        assert log[|log| - 1].data[b - last.offset] == v;
      } else {
        assert forall i | 0 <= i < |front| :: front[i] == log[i];
      }
    }
  }

  ghost predicate Truthful(log: seq<Piece>, metadata: seq<byte>) {
    forall i | 0 <= i < |log| :: Fits(log[i], |metadata|) &&
      log[i].data == metadata[log[i].offset..log[i].offset + |log[i].data|]
  }

  /** If the pieces carry the true bytes and none comes twice, the buffer is the metadata. */
  lemma TruthfulPiecesRebuild(buffer: seq<byte>, log: seq<Piece>, metadata: seq<byte>)
    requires |buffer| == |metadata| > 0 && Complete(log, |metadata|)
    requires Truthful(log, metadata) && DistinctOffsets(log)
    ensures Written(buffer, log) == metadata
  {
    WrittenOnceIffDistinct(log, |metadata|);
    forall b | 0 <= b < |metadata| ensures Written(buffer, log)[b] == metadata[b] {
      assert WrittenOnce(log, b);
      WrittenByte(buffer, log, b, metadata[b]);
    }
  }

  /** If a piece comes twice, some byte keeps what the new buffer was made with, although the loop
      ends normally. */
  lemma RepeatedPieceLeavesHole(buffer: seq<byte>, log: seq<Piece>) returns (b: nat)
    requires |buffer| > 0 && Complete(log, |buffer|) && !DistinctOffsets(log)
    ensures b < |buffer| && (forall i | 0 <= i < |log| :: !Writes(log[i], b)) && Written(buffer, log)[b] == buffer[b]
  {
    CompleteCount(log, |buffer|);
    IndicesBelow(log, |buffer|);
    Pigeonhole(Indices(log));
    var k :| 0 <= k < |log| && k !in Indices(log);
    b := PIECE * k;
    forall i | 0 <= i < |log| ensures !Writes(log[i], b) {
      assert Fits(log[i], |buffer|) && Indices(log)[i] in Indices(log);
    }
    WrittenByte(buffer, log, b, buffer[b]);
  }

  // ---------------------------------------------------------------------------------------------
  // A truthful peer
  // ---------------------------------------------------------------------------------------------

  /** The piece that a request for the index of its offset asks for: 16 KiB of the metadata, or what is
      left of it. */
  ghost predicate IsCut(p: Piece, metadata: seq<byte>) {
    && 0 <= p.offset < |metadata| && p.offset % PIECE == 0
    && p.data == metadata[p.offset..if p.offset + PIECE <= |metadata| then p.offset + PIECE else |metadata|]
  }

  /** Every requested piece comes exactly once, in any order. */
  ghost predicate EachOnce(log: seq<Piece>, metadata: seq<byte>) {
    && |log| == NPieces(|metadata|) && DistinctOffsets(log)
    && forall i | 0 <= i < |log| :: IsCut(log[i], metadata)
  }

  /** The place at which the last index comes. */
  lemma LastIndexComes(log: seq<Piece>, metadata: seq<byte>) returns (j: nat)
    requires EachOnce(log, metadata) && metadata != []
    ensures j < |log| && log[j].offset == PIECE * (|log| - 1) && |log[j].data| == |metadata| - PIECE * (|log| - 1)
    ensures forall i | 0 <= i < |log| && i != j :: |log[i].data| == PIECE
  {
    var xs := Indices(log);
    forall i | 0 <= i < |log| ensures 0 <= xs[i] < |log| && log[i].offset == PIECE * xs[i] {
      assert IsCut(log[i], metadata);
    }
    Pigeonhole(xs);
    assert |log| - 1 in xs;
    j :| 0 <= j < |log| && xs[j] == |log| - 1;
    assert IsCut(log[j], metadata);
    forall i | 0 <= i < |log| && i != j ensures |log[i].data| == PIECE {
      assert IsCut(log[i], metadata) && xs[i] < |log| - 1;
    }
  }

  lemma {:induction false} TotalOfOthersFull(log: seq<Piece>, j: nat)
    requires j < |log| && forall i | 0 <= i < |log| && i != j :: |log[i].data| == PIECE
    ensures Total(log) == PIECE * (|log| - 1) + |log[j].data|
  {
    var front := log[..|log| - 1];
    if j == |log| - 1 { TotalOfFull(front); } else { TotalOfOthersFull(front, j); }
  }

  /** Such pieces make a complete transfer if and only if the last index is full or comes last: a short
      piece before the end is an error. */
  lemma EachOnceCompleteIff(log: seq<Piece>, metadata: seq<byte>)
    requires EachOnce(log, metadata) && metadata != []
    ensures Complete(log, |metadata|) <==>
            |metadata| % PIECE == 0 || log[|log| - 1].offset == PIECE * (|log| - 1)
  {
    var j := LastIndexComes(log, metadata);
    var n := |log| - 1;
    TotalOfOthersFull(log, j);
    forall i | 0 <= i < |log| ensures Fits(log[i], |metadata|) { assert IsCut(log[i], metadata); }
    assert |log[j].data| == PIECE <==> |metadata| % PIECE == 0;
    if |log[j].data| == PIECE || j == n {
      TotalOfFull(log[..n]);
      assert Complete(log, |metadata|);
    }
    if log[n].offset == PIECE * n { assert n == j; }
  }

  /** What such a complete transfer leaves in the buffer is the metadata. */
  lemma EachOnceRebuilds(buffer: seq<byte>, log: seq<Piece>, metadata: seq<byte>)
    requires EachOnce(log, metadata) && metadata != [] && |buffer| == |metadata| && Complete(log, |metadata|)
    ensures Written(buffer, log) == metadata
  {
    forall i | 0 <= i < |log|
      ensures Fits(log[i], |metadata|) && log[i].data == metadata[log[i].offset..log[i].offset + |log[i].data|]
    {
      assert IsCut(log[i], metadata);
    }
    TruthfulPiecesRebuild(buffer, log, metadata);
  }
}
