/**
 The compact encodings of DHT contact information (BEP 5, "Contact Encoding"), as printers and
 parsers.
 */
module Codec {
  import opened Bytes

  datatype Node = Node(id: seq<byte>, ip: seq<byte>, port: int)

  /** `IP.To4()`: a 4-byte address, or the last four bytes of an IPv4-mapped 16-byte one, or nil. */
  function To4(ip: seq<byte>): Option<seq<byte>> {
    if |ip| == 4 then Some(ip)
    else if |ip| == 16 && ip[..10] == seq(10, i => 0) && ip[10] == 255 && ip[11] == 255 then Some(ip[12..])
    else None
  }

  function To4Bytes(ip: seq<byte>): (r: seq<byte>)
    ensures |r| == 0 || |r| == 4
  {
    if To4(ip).Some? then To4(ip).value else []
  }

  /** `copy` into a new buffer of `n` bytes: cut or padded with zeros. */
  function Fitted(b: seq<byte>, n: nat): (r: seq<byte>)
    ensures |r| == n
  {
    if |b| >= n then b[..n] else b + seq(n - |b|, i => 0)
  }

  // ---------------------------------------------------------------------------------------------
  // Strings of fixed-size records
  // ---------------------------------------------------------------------------------------------

  function Join<T>(items: seq<T>, encode: T -> seq<byte>): seq<byte> {
    if items == [] then [] else encode(items[0]) + Join(items[1..], encode)
  }

  ghost predicate Decodes<T(!new)>(size: nat, decode: seq<byte> --> T) {
    size > 0 && forall r: seq<byte> | |r| == size :: decode.requires(r)
  }

  /** The whole records of a string; bytes left over at the end are ignored. */
  function Split<T(!new)>(b: seq<byte>, size: nat, decode: seq<byte> --> T): seq<T>
    requires Decodes(size, decode)
    decreases |b|
  {
    if |b| < size then [] else [decode(b[..size])] + Split(b[size..], size, decode)
  }

  function Leftover(b: seq<byte>, size: nat): nat
    requires size > 0
    decreases |b|
  {
    if |b| < size then |b| else Leftover(b[size..], size)
  }

  /** If every item survives in a record of the size, the list survives in a string of records. */
  lemma {:induction false} SplitJoin<T(!new)>(items: seq<T>, size: nat, encode: T -> seq<byte>, decode: seq<byte> --> T)
    requires Decodes(size, decode)
    requires forall x :: x in items ==> |encode(x)| == size && decode(encode(x)) == x
    ensures Split(Join(items, encode), size, decode) == items
  {
    if items != [] {
      SplitJoin(items[1..], size, encode, decode);
      var b := Join(items, encode);
      assert items[0] in items;
      assert b[..size] == encode(items[0]) && b[size..] == Join(items[1..], encode);
    }
  }

  /** If every record survives decoding, so do the whole records of any string. */
  lemma {:induction false} JoinSplit<T(!new)>(b: seq<byte>, size: nat, encode: T -> seq<byte>, decode: seq<byte> --> T)
    requires Decodes(size, decode)
    requires forall r: seq<byte> | |r| == size :: encode(decode(r)) == r
    ensures Leftover(b, size) <= |b| && Join(Split(b, size, decode), encode) == b[..|b| - Leftover(b, size)]
    decreases |b|
  {
    if |b| >= size {
      JoinSplit(b[size..], size, encode, decode);
      var items := Split(b, size, decode);
      assert items[1..] == Split(b[size..], size, decode);
      assert b[..|b| - Leftover(b, size)] == b[..size] + b[size..][..|b[size..]| - Leftover(b, size)];
    }
  }

  lemma {:induction false} Leftover26(b: seq<byte>)
    ensures Leftover(b, 26) == |b| % 26
    decreases |b|
  {
    if |b| >= 26 { Leftover26(b[26..]); }
  }

  lemma {:induction false} Leftover6(b: seq<byte>)
    ensures Leftover(b, 6) == |b| % 6
    decreases |b|
  {
    if |b| >= 6 { Leftover6(b[6..]); }
  }

  // ---------------------------------------------------------------------------------------------
  // Compact nodes
  // ---------------------------------------------------------------------------------------------

  function EncodeNode(n: Node): seq<byte> {
    Fitted(n.id, 20) + To4Bytes(n.ip) + Be16(n.port)
  }

  function DecodeNode(b: seq<byte>): (n: Node)
    requires |b| == 26
    ensures WellFormedNode(n)
  {
    Node(b[..20], b[20..24], FromBe16(b[24..]))
  }

  predicate WellFormedNode(n: Node) {
    |n.id| == 20 && |n.ip| == 4 && 0 <= n.port < 0x1_0000
  }

  lemma NodeSurvives(n: Node)
    requires WellFormedNode(n)
    ensures |EncodeNode(n)| == 26 && DecodeNode(EncodeNode(n)) == n
  {
    var e := EncodeNode(n);
    assert e[..20] == n.id && e[20..24] == n.ip && e[24..] == Be16(n.port);
    Be16Inverse(n.port, e[24..]);
  }

  lemma NodeRecordSurvives(b: seq<byte>)
    requires |b| == 26
    ensures EncodeNode(DecodeNode(b)) == b
  {
    Be16Inverse(0, b[24..]);
    assert b == b[..20] + b[20..24] + b[24..];
  }

  /** Byte by byte: ID, address, port with the high byte first. */
  lemma NodeLayout(n: Node, b: seq<byte>)
    requires WellFormedNode(n) && |b| == 26
    ensures EncodeNode(n) == n.id + n.ip + [n.port / 256, n.port % 256]
    ensures DecodeNode(b) == Node(b[..20], b[20..24], 256 * b[24] as int + b[25])
  {
  }

  /** A short ID is filled up with zeros, a long one is cut. */
  lemma FittedId(id: seq<byte>)
    ensures |id| >= 20 ==> Fitted(id, 20) == id[..20]
    ensures |id| < 20 ==> id <= Fitted(id, 20) && |Fitted(id, 20)| == 20 && forall i | |id| <= i < 20 :: Fitted(id, 20)[i] == 0
  {
  }

  /** Decoding the records of any list of well-formed nodes returns the list, and encoding the nodes
      of any string of whole records returns the string. */
  lemma NodesRoundTrip(nodes: seq<Node>, b: seq<byte>)
    requires forall n :: n in nodes ==> WellFormedNode(n)
    requires |b| % 26 == 0
    ensures Split(Join(nodes, EncodeNode), 26, DecodeNode) == nodes
    ensures Join(Split(b, 26, DecodeNode), EncodeNode) == b
  {
    forall n | n in nodes ensures |EncodeNode(n)| == 26 && DecodeNode(EncodeNode(n)) == n { NodeSurvives(n); }
    SplitJoin(nodes, 26, EncodeNode, DecodeNode);
    forall r: seq<byte> | |r| == 26 ensures EncodeNode(DecodeNode(r)) == r { NodeRecordSurvives(r); }
    JoinSplit(b, 26, EncodeNode, DecodeNode);
    Leftover26(b);
  }

  lemma {:induction false} DecodedWellFormed(b: seq<byte>)
    ensures forall n :: n in Split(b, 26, DecodeNode) ==> WellFormedNode(n)
    decreases |b|
  {
    if |b| >= 26 { DecodedWellFormed(b[26..]); }
  }

  /** A list survives its encoding exactly when all its nodes have 20-byte IDs, 4-byte addresses and
      16-bit ports. */
  lemma NodesSurviveIff(nodes: seq<Node>)
    ensures Split(Join(nodes, EncodeNode), 26, DecodeNode) == nodes <==> forall n :: n in nodes ==> WellFormedNode(n)
  {
    if forall n :: n in nodes ==> WellFormedNode(n) {
      NodesRoundTrip(nodes, []);
    } else {
      DecodedWellFormed(Join(nodes, EncodeNode));
    }
  }

  /** `CompactNodeInfo.MarshalBinary`, with its buffer and appends. */
  method MarshalNode(n: Node) returns (ret: seq<byte>)
    ensures |ret| == 26 <==> To4(n.ip).Some?
    ensures |ret| == 26 ==> (DecodeNode(ret) == n <==> WellFormedNode(n))
    ensures ret == EncodeNode(n)
  {
    ret := Fitted(n.id, 20);
    ret := ret + To4Bytes(n.ip);
    ret := ret + Be16(n.port);
    if WellFormedNode(n) { NodeSurvives(n); }
  }

  /** `CompactNodeInfos.MarshalBencode` without the string header. */
  method MarshalNodes(nodes: seq<Node>) returns (ret: seq<byte>)
    ensures ret == Join(nodes, EncodeNode)
  {
    ret := [];
    for i := 0 to |nodes|
      invariant Join(nodes, EncodeNode) == ret + Join(nodes[i..], EncodeNode)
    {
      var b := MarshalNode(nodes[i]);
      assert nodes[i..][1..] == nodes[i + 1..];
      ret := ret + b;
    }
  }

  /** Fails on a string that is not a multiple of 26, and else fills the list record by record. */
  method UnmarshalNodes(b: seq<byte>) returns (r: Option<seq<Node>>)
    ensures r == if |b| % 26 != 0 then None else Some(Split(b, 26, DecodeNode))
  {
    if |b| % 26 != 0 { return None; }
    var ret := [];
    for i := 0 to |b| / 26
      invariant Split(b, 26, DecodeNode) == ret + Split(b[26 * i..], 26, DecodeNode)
    {
      var off := i * 26;
      assert b[off..][..26] == b[off..off + 26] && b[off..][26..] == b[26 * (i + 1)..];
      ret := ret + [DecodeNode(b[off..off + 26])];
    }
    assert Split(b[26 * (|b| / 26)..], 26, DecodeNode) == [];
    assert ret == Split(b, 26, DecodeNode);
    return Some(ret);
  }

  // ---------------------------------------------------------------------------------------------
  // Compact peers
  // ---------------------------------------------------------------------------------------------

  predicate WellFormedPeer(p: Peer) {
    |p.ip| == 4 && 0 <= p.port < 0x1_0000
  }

  /** A record of six bytes; an address that is not IPv4 leaves zeros. */
  function EncodePeer(p: Peer): (r: seq<byte>)
    ensures |r| == 6
  {
    Fitted(To4Bytes(p.ip), 4) + Be16(p.port)
  }

  /** `CompactPeer.UnmarshalBinary`: 18 bytes are IPv6, 6 are IPv4, anything else is an error. */
  function UnmarshalPeer(b: seq<byte>): Option<Peer> {
    if |b| == 18 then Some(Peer(b[..16], FromBe16(b[16..])))
    else if |b| == 6 then Some(Peer(b[..4], FromBe16(b[4..])))
    else None
  }

  function DecodePeer(b: seq<byte>): (p: Peer)
    requires |b| == 6
    ensures WellFormedPeer(p)
  {
    UnmarshalPeer(b).value
  }

  /** `CompactPeer.MarshalBencode` without the string header: IPv4 when possible, else as it is. */
  function MarshalPeer(p: Peer): seq<byte> {
    (if To4(p.ip).Some? then To4(p.ip).value else p.ip) + Be16(p.port)
  }

  /** One peer survives exactly when its port is 16 bits wide and its address is IPv4, or IPv6 but
      not an IPv4 address in disguise. */
  lemma PeerSurvivesIff(p: Peer)
    ensures UnmarshalPeer(MarshalPeer(p)) == Some(p) <==>
            0 <= p.port < 0x1_0000 && (|p.ip| == 4 || (|p.ip| == 16 && To4(p.ip).None?))
  {
    var b := MarshalPeer(p);
    var ip := if To4(p.ip).Some? then To4(p.ip).value else p.ip;
    assert b[..|ip|] == ip && b[|ip|..] == Be16(p.port);
    Be16Inverse(p.port, Be16(p.port));
  }

  /** Byte by byte: address, port with the high byte first, for IPv4 and for IPv6. */
  lemma PeerLayout(p: Peer, b: seq<byte>, b6: seq<byte>)
    requires 0 <= p.port < 0x1_0000 && |b| == 6 && |b6| == 18
    ensures |p.ip| == 4 ==> EncodePeer(p) == p.ip + [p.port / 256, p.port % 256] == MarshalPeer(p)
    ensures |p.ip| == 16 && To4(p.ip).None? ==> MarshalPeer(p) == p.ip + [p.port / 256, p.port % 256]
    ensures DecodePeer(b) == Peer(b[..4], 256 * b[4] as int + b[5])
    ensures UnmarshalPeer(b6) == Some(Peer(b6[..16], 256 * b6[16] as int + b6[17]))
  {
  }

  /** An IPv4 address in its 16-byte form is ten zeros, two bytes 255 and the address. */
  lemma MappedAddress(ip: seq<byte>)
    requires |ip| == 4
    ensures To4(seq(10, i => 0) + [255, 255] + ip) == Some(ip) && To4(ip) == Some(ip)
  {
    var mapped := seq(10, i => 0) + [255, 255] + ip;
    assert mapped[..10] == seq(10, i => 0) && mapped[12..] == ip;
  }

  lemma PeerRecordSurvives(p: Peer, b: seq<byte>)
    requires |b| == 6
    ensures WellFormedPeer(p) ==> DecodePeer(EncodePeer(p)) == p
    ensures EncodePeer(DecodePeer(b)) == b
  {
    var e := EncodePeer(p);
    Be16Inverse(p.port, b[4..]);
    if WellFormedPeer(p) { assert e[..4] == p.ip && e[4..] == Be16(p.port); }
    assert b == b[..4] + b[4..];
  }

  lemma {:induction false} DecodedPeersWellFormed(b: seq<byte>)
    ensures forall p :: p in Split(b, 6, DecodePeer) ==> WellFormedPeer(p)
    decreases |b|
  {
    if |b| >= 6 { DecodedPeersWellFormed(b[6..]); }
  }

  /** A list of peers survives its encoding exactly when all have 4-byte addresses and 16-bit ports. */
  lemma PeersSurviveIff(peers: seq<Peer>)
    ensures Split(Join(peers, EncodePeer), 6, DecodePeer) == peers <==> forall p :: p in peers ==> WellFormedPeer(p)
  {
    if forall p :: p in peers ==> WellFormedPeer(p) {
      forall p | p in peers ensures |EncodePeer(p)| == 6 && DecodePeer(EncodePeer(p)) == p {
        PeerRecordSurvives(p, [0, 0, 0, 0, 0, 0]);
      }
      SplitJoin(peers, 6, EncodePeer, DecodePeer);
    } else {
      DecodedPeersWellFormed(Join(peers, EncodePeer));
    }
  }

  /** Strings of peers survive decoding exactly when they are whole records: what is left over at the
      end is dropped without an error. */
  lemma PeerStringsSurviveIff(b: seq<byte>)
    ensures Join(Split(b, 6, DecodePeer), EncodePeer) == b[..|b| - |b| % 6]
    ensures Join(Split(b, 6, DecodePeer), EncodePeer) == b <==> |b| % 6 == 0
  {
    forall r: seq<byte> | |r| == 6 ensures EncodePeer(DecodePeer(r)) == r {
      PeerRecordSurvives(Peer([], 0), r);
    }
    JoinSplit(b, 6, EncodePeer, DecodePeer);
    Leftover6(b);
  }

  function Zeros(n: nat): seq<byte> {
    seq(n, i => 0)
  }

  /** What the first `n` peers fill. */
  function Filled(peers: seq<Peer>, n: nat): (r: seq<byte>)
    requires n <= |peers|
    ensures |r| == 6 * n
  {
    if n == 0 then [] else Filled(peers, n - 1) + EncodePeer(peers[n - 1])
  }

  lemma {:induction false} FilledIsJoin(peers: seq<Peer>, n: nat)
    requires n <= |peers|
    ensures Filled(peers, n) + Join(peers[n..], EncodePeer) == Join(peers, EncodePeer)
  {
    if n == 0 {
      assert peers[0..] == peers;
    } else {
      FilledIsJoin(peers, n - 1);
      assert peers[n - 1..][1..] == peers[n..];
    }
  }

  /** Writes one peer behind what is done, into zero bytes. */
  method PutPeer(ret: array<byte>, off: nat, p: Peer, ghost done: seq<byte>)
    requires off == |done| && off + 6 <= ret.Length && ret[..] == done + Zeros(ret.Length - off)
    modifies ret
    ensures ret[..] == done + EncodePeer(p) + Zeros(ret.Length - off - 6)
  {
    assert forall k | off <= k < ret.Length :: ret[k] == ret[..][k] == 0;
    var ip, port := To4Bytes(p.ip), Be16(p.port);
    forall k | 0 <= k < |ip| { ret[off + k] := ip[k]; }
    ret[off + 4] := port[0];
    ret[off + 5] := port[1];
    assert ret[..off] == done;
    assert forall k | 0 <= k < 4 :: ret[off + k] == Fitted(ip, 4)[k];
    assert ret[off..off + 6] == EncodePeer(p);
  }

  /** `CompactPeers.MarshalBinary` fills a buffer of six bytes per peer. */
  method MarshalPeers(peers: seq<Peer>) returns (ret: array<byte>)
    ensures fresh(ret) && ret[..] == Join(peers, EncodePeer)
  {
    ret := new byte[6 * |peers|](_ => 0);
    for i := 0 to |peers|
      invariant ret[..] == Filled(peers, i) + Zeros(6 * (|peers| - i))
    {
      PutPeer(ret, 6 * i, peers[i], Filled(peers, i));
    }
    FilledIsJoin(peers, |peers|);
    assert peers[|peers|..] == [];
  }

  method UnmarshalPeers(b: seq<byte>) returns (ret: seq<Peer>)
    ensures ret == Split(b, 6, DecodePeer)
  {
    ret := [];
    for i := 0 to |b| / 6
      invariant Split(b, 6, DecodePeer) == ret + Split(b[6 * i..], 6, DecodePeer)
    {
      var off := i * 6;
      assert b[off..][..6] == b[off..off + 6] && b[off..][6..] == b[6 * (i + 1)..];
      ret := ret + [DecodePeer(b[off..off + 6])];
    }
  }
}
