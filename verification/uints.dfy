/** Fixed-width unsigned integers and their big-endian bytes, as in pkg/util/uints.go. */
module Uints {
  import opened Bytes

  type uint16 = n: int | 0 <= n < 0x1_0000
  type uint32 = n: int | 0 <= n < 0x1_0000_0000

  /** The number a big-endian byte string denotes: the reference reading of every
      integer on the wire, most significant byte first. */
  function BigEndian(bs: seq<byte>): nat
  {
    if bs == [] then 0 else BigEndian(bs[..|bs| - 1]) * 0x100 + bs[|bs| - 1]
  }

  /** Uint8ToBytes: a single byte holding the value. */
  function Uint8ToBytes(n: byte): (r: seq<byte>)
    ensures |r| == 1 && BigEndian(r) == n
  {
    assert [n][..0] == [];
    [n]
  }

  /** The low `w` bytes of `n`, most significant first: what binary.BigEndian.PutUint16 and
      PutUint32 write for w = 2 and w = 4. */
  function ToBigEndian(n: nat, w: nat): (r: seq<byte>)
    ensures |r| == w
  {
    if w == 0 then [] else ToBigEndian(n / 0x100, w - 1) + [n % 0x100]
  }

  /** Uint16ToBytes: two bytes, high byte first (binary.BigEndian.PutUint16). */
  function Uint16ToBytes(n: uint16): (r: seq<byte>)
    ensures |r| == 2 && BigEndian(r) == n
  {
    ToBigEndianValue(n, 2);
    ToBigEndian(n, 2)
  }

  /** Uint32ToBytes: four bytes, most significant first (binary.BigEndian.PutUint32). */
  function Uint32ToBytes(n: uint32): (r: seq<byte>)
    ensures |r| == 4 && BigEndian(r) == n
  {
    ToBigEndianValue(n, 4);
    ToBigEndian(n, 4)
  }

  /** binary.BigEndian.Uint16, which reads exactly two bytes: the reader of the uint16 decode
      arm that streamable.go:91-93 leaves empty, and the inverse of Uint16ToBytes. */
  function ReadUint16(b: seq<byte>): (n: uint16)
    requires |b| == 2
    ensures n == BigEndian(b)
  {
    BigEndianBound(b);
    BigEndian(b)
  }

  /** binary.BigEndian.Uint32, which reads exactly four bytes. */
  function ReadUint32(b: seq<byte>): (n: uint32)
    requires |b| == 4
    ensures n == BigEndian(b)
  {
    BigEndianBound(b);
    BigEndian(b)
  }

  /** Writing `n` in `w` bytes keeps exactly its value modulo 256^w. */
  lemma {:induction false} ToBigEndianValue(n: nat, w: nat)
    ensures BigEndian(ToBigEndian(n, w)) == n % Pow256(w)
  {
    if w > 0 {
      var r := ToBigEndian(n, w);
      var x, d := n / 0x100, n % 0x100;
      ToBigEndianValue(x, w - 1);
      assert r[..w - 1] == ToBigEndian(x, w - 1);
      assert BigEndian(r) == (x % Pow256(w - 1)) * 0x100 + d;
      ModDigit(n, Pow256(w - 1));
    }
  }

  /** Dropping the last base-256 digit, reducing, and putting the digit back reduces modulo
      256 times as much. */
  lemma ModDigit(n: nat, p: nat)
    requires p > 0
    ensures ((n / 0x100) % p) * 0x100 + n % 0x100 == n % (0x100 * p)
  {
    var x, d := n / 0x100, n % 0x100;
    var q, m := x / p, x % p;
    assert n == 0x100 * p * q + (m * 0x100 + d);
    assert 0 <= m * 0x100 + d < 0x100 * p;
    ModUnique(n, 0x100 * p, q, m * 0x100 + d);
  }

  /** Euclidean division is unique: a quotient and an in-range remainder are the ones % finds. */
  lemma ModUnique(n: int, m: int, q: int, r: int)
    requires m > 0 && n == m * q + r && 0 <= r < m
    ensures n % m == r
  {
    var k := q - n / m;
    assert m * k == n % m - r by {
      assert m * k == m * q - m * (n / m);
    }
    if k > 0 {
      MulAtLeast(m, k);
    } else if k < 0 {
      MulAtLeast(m, -k);
    }
  }

  lemma MulAtLeast(m: int, k: int)
    requires m > 0 && k >= 1
    ensures m * k >= m
  {
    assert m * k == m + m * (k - 1);
  }

  /** A byte string of width w denotes a number below 256^w, so each width is a fixed
      window: nothing spills into the neighbouring field. */
  lemma {:induction false} BigEndianBound(bs: seq<byte>)
    ensures BigEndian(bs) < Pow256(|bs|)
  {
    if bs != [] {
      BigEndianBound(bs[..|bs| - 1]);
    }
  }

  function Pow256(w: nat): (p: nat)
    ensures p > 0
  {
    if w == 0 then 1 else 0x100 * Pow256(w - 1)
  }

  /** Two byte strings of the same width denoting the same number are equal, so the
      fixed-width encodings are injective and their readers are left inverses. */
  lemma {:induction false} BigEndianInjective(a: seq<byte>, b: seq<byte>)
    requires |a| == |b|
    requires BigEndian(a) == BigEndian(b)
    ensures a == b
  {
    if a != [] {
      var n := |a| - 1;
      var x, y := BigEndian(a[..n]), BigEndian(b[..n]);
      DigitSplit(x, a[n]);
      DigitSplit(y, b[n]);
      BigEndianInjective(a[..n], b[..n]);
      assert a == a[..n] + [a[n]] && b == b[..n] + [b[n]];
    }
  }

  /** The last digit and the leading part of a base-256 number are recovered by % and /. */
  lemma DigitSplit(x: nat, d: byte)
    ensures (x * 0x100 + d) % 0x100 == d && (x * 0x100 + d) / 0x100 == x
  {
  }

  /** Reading back a 16-bit encoding gives the value; writing a read-back pair gives the pair. */
  lemma Uint16RoundTrip(n: uint16, b: seq<byte>)
    requires |b| == 2
    ensures ReadUint16(Uint16ToBytes(n)) == n
    ensures Uint16ToBytes(ReadUint16(b)) == b
  {
    BigEndianInjective(Uint16ToBytes(ReadUint16(b)), b);
  }

  /** Reading back a 32-bit encoding (as Unmarshal does for counts) gives the value;
      writing a read-back quadruple gives the quadruple. */
  lemma Uint32RoundTrip(n: uint32, b: seq<byte>)
    requires |b| == 4
    ensures ReadUint32(Uint32ToBytes(n)) == n
    ensures Uint32ToBytes(ReadUint32(b)) == b
  {
    BigEndianInjective(Uint32ToBytes(ReadUint32(b)), b);
  }

  /** The 16-bit encoding spelled out byte by byte: high byte, then low byte. */
  lemma Uint16Bytes(n: uint16, hi: byte, lo: byte)
    requires n == hi * 0x100 + lo
    ensures Uint16ToBytes(n) == [hi, lo]
  {
    var b := [hi, lo];
    assert BigEndian([hi]) == hi by { assert [hi][..0] == []; }
    assert BigEndian(b) == n by { assert b[..1] == [hi]; }
    Uint16RoundTrip(n, b);
  }

  /** The 32-bit encoding spelled out byte by byte, most significant first. */
  lemma Uint32Bytes(n: uint32, b3: byte, b2: byte, b1: byte, b0: byte)
    requires n == ((b3 * 0x100 + b2) * 0x100 + b1) * 0x100 + b0
    ensures Uint32ToBytes(n) == [b3, b2, b1, b0]
  {
    var b := [b3, b2, b1, b0];
    assert BigEndian([b3]) == b3 by { assert [b3][..0] == []; }
    assert BigEndian([b3, b2]) == b3 * 0x100 + b2 by { assert [b3, b2][..1] == [b3]; }
    assert BigEndian([b3, b2, b1]) == (b3 * 0x100 + b2) * 0x100 + b1 by { assert [b3, b2, b1][..2] == [b3, b2]; }
    assert BigEndian(b) == n by { assert b[..3] == [b3, b2, b1]; }
    Uint32RoundTrip(n, b);
  }

  /** Each width has a fixed output length, hence the encodings are injective per width. */
  lemma UintEncodingsInjective(a: uint32, b: uint32)
    ensures |Uint8ToBytes(a % 0x100)| == 1 && |Uint16ToBytes(a % 0x1_0000)| == 2 && |Uint32ToBytes(a)| == 4
    ensures Uint8ToBytes(a % 0x100) == Uint8ToBytes(b % 0x100) ==> a % 0x100 == b % 0x100
    ensures Uint16ToBytes(a % 0x1_0000) == Uint16ToBytes(b % 0x1_0000) ==> a % 0x1_0000 == b % 0x1_0000
    ensures Uint32ToBytes(a) == Uint32ToBytes(b) ==> a == b
  {
  }
}
