/** What several modules share: bytes, 20-byte hashes, peers, big-endian words, decimal digits. */
module Bytes {

  type byte = x: int | 0 <= x < 256

  /** An infohash or a node ID as a Go array `[20]byte`. */
  type Hash = h: seq<byte> | |h| == 20 witness seq(20, i => 0)

  datatype Option<+T> = None | Some(value: T)

  /** An address and port, as in `net.TCPAddr` and in the compact peers of the DHT. */
  datatype Peer = Peer(ip: seq<byte>, port: int)

  predicate IsDigit(c: char) {
    '0' <= c <= '9'
  }

  /** `binary.BigEndian.PutUint16(b, uint16(n))`: the conversion keeps the low 16 bits of `n`. */
  function Be16(n: int): seq<byte> {
    [(n / 0x100) % 0x100, n % 0x100]
  }

  function FromBe16(b: seq<byte>): int
    requires |b| >= 2
  {
    b[0] as int * 0x100 + b[1]
  }

  /** `binary.BigEndian.PutUint32(b, uint32(n))`. */
  function Be32(n: int): seq<byte> {
    [(n / 0x100_0000) % 0x100, (n / 0x1_0000) % 0x100, (n / 0x100) % 0x100, n % 0x100]
  }

  function FromBe32(b: seq<byte>): int
    requires |b| >= 4
  {
    b[0] as int * 0x100_0000 + b[1] as int * 0x1_0000 + b[2] as int * 0x100 + b[3]
  }

  /** The byte order: the first byte is the high one. */
  lemma BigEndian(n: int, b: seq<byte>)
    requires 0 <= n < 0x1_0000 && |b| == 2
    ensures |Be16(n)| == 2 && n == 256 * Be16(n)[0] as int + Be16(n)[1]
    ensures FromBe16(b) == 256 * b[0] as int + b[1]
  {
  }

  /** Two bytes and the 16-bit word they spell determine each other. */
  lemma Be16Inverse(n: int, b: seq<byte>)
    requires |b| == 2
    ensures FromBe16(Be16(n)) == n % 0x1_0000
    ensures Be16(FromBe16(b)) == b
  {
  }

  lemma Be32Splits(n: int)
    ensures FromBe32(Be32(n)) == n % 0x1_0000_0000
  {
    assert (n / 0x100) / 0x100 == n / 0x1_0000;
    assert (n / 0x1_0000) / 0x100 == n / 0x100_0000;
    assert n % 0x1_0000_0000 == (n / 0x100_0000) % 0x100 * 0x100_0000 + n % 0x100_0000;
  }

  lemma Be32Joins(b: seq<byte>)
    requires |b| == 4
    ensures Be32(FromBe32(b)) == b
  {
    var n := FromBe32(b);
    assert n / 0x100 == b[0] as int * 0x1_0000 + b[1] as int * 0x100 + b[2];
    assert n / 0x1_0000 == b[0] as int * 0x100 + b[1];
    assert n / 0x100_0000 == b[0];
  }

  lemma {:induction false} SubsetSize<T(!new)>(a: set<T>, b: set<T>)
    requires a <= b
    ensures |a| <= |b| && (|a| == |b| ==> a == b)
    decreases b
  {
    if a != b {
      assert exists x :: x in b - a by { assert (forall x :: x !in b - a) ==> b - a == {}; }
      var x :| x in b - a;
      SubsetSize(a, b - {x});
    }
  }
}
