/** Numbers and hexadecimal digits as bytes, and the sizes of buffers. */
module RawBytes {

  newtype byte = x: int | 0 <= x < 256

  /** The largest size that rounds up without leaving the signed 64-bit range. */
  const LIMIT: nat := 0x7fff_ffff_ffff_ff80

  /** Rounds up to whole blocks of 128 bytes. */
  function Rounded(n: nat): (r: nat)
    ensures n <= r < n + 128 && r % 128 == 0
  {
    (n + 127) / 128 * 128
  }

  // ---------------------------------------------------------------- numbers as bytes

  /** The lowest `size` bytes of a number, the least significant first. */
  function LittleEndian(n: nat, size: nat): (r: seq<byte>)
    ensures |r| == size
  {
    if size == 0 then [] else [(n % 256) as byte] + LittleEndian(n / 256, size - 1)
  }

  function Decoded(s: seq<byte>): nat {
    if s == [] then 0 else s[0] as nat + 256 * Decoded(s[1..])
  }

  function Pow256(n: nat): (r: nat)
    ensures r > 0
  {
    if n == 0 then 1 else 256 * Pow256(n - 1)
  }

  /** The bytes of a number say what it was, up to what they can hold. */
  lemma {:induction false} DecodedLittleEndian(n: nat, size: nat)
    ensures Decoded(LittleEndian(n, size)) == n % Pow256(size)
    decreases size
  {
    if size > 0 {
      DecodedLittleEndian(n / 256, size - 1);
      assert LittleEndian(n, size)[1..] == LittleEndian(n / 256, size - 1);
      DigitSplit(n, Pow256(size - 1));
    }
  }

  lemma DigitSplit(n: nat, m: nat)
    requires m > 0
    ensures n % (256 * m) == n % 256 + 256 * (n / 256 % m)
  {
    var q, d := n / 256, n % 256;
    var k, r := q / m, q % m;
    assert n == 256 * q + d && q == k * m + r;
    calc {
      n;
      256 * (k * m + r) + d;
      { assert 256 * (k * m) == (256 * m) * k; }
      (256 * m) * k + (256 * r + d);
    }
    assert 256 * r + d < 256 * m;
    Remainder(n, 256 * m, k, 256 * r + d);
  }

  lemma Remainder(n: nat, m: nat, k: nat, r: nat)
    requires m > 0 && r < m && n == m * k + r
    ensures n % m == r
  {
    var q := n / m;
    assert m * (q - k) == r - n % m by { assert n == m * q + n % m; }
    Multiple(m, q - k);
  }

  lemma Multiple(m: nat, x: int)
    ensures x >= 1 ==> m * x >= m
    ensures x <= -1 ==> m * x + m <= 0
  {
    if x >= 1 {
      assert m * x == m + m * (x - 1);
    } else if x <= -1 {
      assert m * x == m * (x + 1) - m;
    }
  }

  lemma Peel(d: nat, rest: nat)
    requires d < 256
    ensures (d + 256 * rest) % 256 == d && (d + 256 * rest) / 256 == rest
  {
  }

  /** Every sequence of bytes is the little-endian form of its number. */
  lemma {:induction false} LittleEndianDecoded(s: seq<byte>)
    ensures LittleEndian(Decoded(s), |s|) == s && Decoded(s) < Pow256(|s|)
  {
    if s != [] {
      LittleEndianDecoded(s[1..]);
      Peel(s[0] as nat, Decoded(s[1..]));
    }
  }

  /** Where each byte of a number is. */
  lemma {:induction false} LittleEndianAt(n: nat, size: nat, i: nat)
    requires i < size
    ensures LittleEndian(n, size)[i] as nat == n / Pow256(i) % 256
    decreases i
  {
    if i > 0 {
      LittleEndianAt(n / 256, size - 1, i - 1);
      QuotientTwice(n, Pow256(i - 1));
    }
  }

  /** Dividing twice is dividing by the product. */
  lemma QuotientTwice(n: nat, m: nat)
    requires m > 0
    ensures n / 256 / m == n / (256 * m)
  {
    var q, d := n / 256, n % 256;
    var k, r := q / m, q % m;
    assert n == 256 * q + d && q == k * m + r;
    calc {
      n;
      256 * (k * m + r) + d;
      { assert 256 * (k * m) == (256 * m) * k; }
      (256 * m) * k + (256 * r + d);
    }
    assert 256 * r + d < 256 * m;
    QuotientIs(n, 256 * m, k, 256 * r + d);
  }

  lemma QuotientIs(n: nat, m: nat, k: nat, r: nat)
    requires m > 0 && r < m && n == m * k + r
    ensures n / m == k
  {
    Remainder(n, m, k, r);
    assert m * (n / m - k) == 0;
    Multiple(m, n / m - k);
  }

  function Reversed<T>(s: seq<T>): seq<T> {
    if s == [] then [] else Reversed(s[1..]) + [s[0]]
  }

  /** Byte `i` of a number, counted from the least significant one. */
  function ByteOf(n: nat, i: nat): (r: nat)
    ensures r < 256
  {
    n / Pow256(i) % 256
  }

  /** The four bytes of a word in the opposite order. */
  function SwapUint32(n: nat): nat {
    ByteOf(n, 3) + 256 * (ByteOf(n, 2) + 256 * (ByteOf(n, 1) + 256 * ByteOf(n, 0)))
  }

  lemma FourBytes(n: nat)
    ensures LittleEndian(n, 4) == [ByteOf(n, 0) as byte, ByteOf(n, 1) as byte, ByteOf(n, 2) as byte,
        ByteOf(n, 3) as byte]
  {
    assert Pow256(1) == 256 && Pow256(2) == 0x1_0000 && Pow256(3) == 0x100_0000;
    assert n / 256 / 256 == n / 0x1_0000 && n / 256 / 256 / 256 == n / 0x100_0000;
    var a, b, c := n / 256, n / 256 / 256, n / 256 / 256 / 256;
    assert LittleEndian(c, 1) == [(c % 256) as byte] + LittleEndian(c / 256, 0);
    assert LittleEndian(b, 2) == [(b % 256) as byte] + LittleEndian(c, 1);
    assert LittleEndian(a, 3) == [(a % 256) as byte] + LittleEndian(b, 2);
  }

  /** The variant named for little-endian order is the one that writes the most significant byte first. */
  lemma SwappedIsBigEndian(n: nat)
    ensures LittleEndian(SwapUint32(n), 4) == Reversed(LittleEndian(n, 4))
  {
    var a, b, c, d := ByteOf(n, 0) as byte, ByteOf(n, 1) as byte, ByteOf(n, 2) as byte, ByteOf(n, 3) as byte;
    FourBytes(n);
    ReversedFour(a, b, c, d);
    DecodedFour(d, c, b, a);
    LittleEndianDecoded([d, c, b, a]);
  }

  lemma DecodedFour(a: byte, b: byte, c: byte, d: byte)
    ensures Decoded([a, b, c, d]) == a as nat + 256 * (b as nat + 256 * (c as nat + 256 * d as nat))
  {
    assert [a, b, c, d][1..] == [b, c, d] && [b, c, d][1..] == [c, d] && [c, d][1..] == [d] && [d][1..] == [];
    assert Decoded([d]) == d as nat;
    assert Decoded([c, d]) == c as nat + 256 * Decoded([d]);
    assert Decoded([b, c, d]) == b as nat + 256 * Decoded([c, d]);
  }

  lemma ReversedFour<T>(a: T, b: T, c: T, d: T)
    ensures Reversed([a, b, c, d]) == [d, c, b, a]
  {
    assert [a, b, c, d][1..] == [b, c, d] && [b, c, d][1..] == [c, d] && [c, d][1..] == [d] && [d][1..] == [];
    assert Reversed([d]) == [d];
    assert Reversed([c, d]) == [d, c];
    assert Reversed([b, c, d]) == [d, c, b];
  }

  /** It writes what its name says exactly for words that read the same in both directions. */
  lemma SwappedIsLittleEndianIff(n: nat)
    ensures LittleEndian(SwapUint32(n), 4) == LittleEndian(n, 4) <==>
        ByteOf(n, 0) == ByteOf(n, 3) && ByteOf(n, 1) == ByteOf(n, 2)
  {
    SwappedIsBigEndian(n);
    FourBytes(n);
    ReversedFour(ByteOf(n, 0) as byte, ByteOf(n, 1) as byte, ByteOf(n, 2) as byte, ByteOf(n, 3) as byte);
    var s := LittleEndian(n, 4);
    assert Reversed(s)[0] == s[3] && Reversed(s)[1] == s[2] && Reversed(s)[2] == s[1] && Reversed(s)[3] == s[0];
  }

  /** The word 1 is one for which it does not. */
  lemma OneIsNotLittleEndian()
    ensures LittleEndian(SwapUint32(1), 4) != LittleEndian(1, 4)
  {
    SwappedIsLittleEndianIff(1);
    assert ByteOf(1, 0) == 1 && Pow256(3) == 0x100_0000 && ByteOf(1, 3) == 0;
  }

  // ---------------------------------------------------------------- hexadecimal digits

  /** Sixteen different digits. */
  ghost predicate Digits(table: seq<byte>) {
    |table| == 16 && forall i, j :: 0 <= i < j < 16 ==> table[i] != table[j]
  }

  /** Two digits for every byte, the high one first. */
  function Hex(table: seq<byte>, s: seq<byte>): (r: seq<byte>)
    requires |table| == 16
    ensures |r| == 2 * |s|
  {
    if s == [] then [] else [table[s[0] / 16], table[s[0] % 16]] + Hex(table, s[1..])
  }

  /** Where the digits of a byte are. */
  lemma {:induction false} HexAt(table: seq<byte>, s: seq<byte>, i: nat)
    requires |table| == 16 && i < |s|
    ensures Hex(table, s)[2 * i] == table[s[i] / 16] && Hex(table, s)[2 * i + 1] == table[s[i] % 16]
  {
    if i > 0 {
      HexAt(table, s[1..], i - 1);
    }
  }

  /** Different bytes have different digits, whatever the digits look like. */
  lemma {:induction false} HexInjective(table: seq<byte>, s: seq<byte>, t: seq<byte>)
    requires Digits(table) && Hex(table, s) == Hex(table, t)
    ensures s == t
  {
    assert 2 * |s| == 2 * |t|;
    if s != [] {
      var h, k := Hex(table, s), Hex(table, t);
      assert h[0] == k[0] && h[1] == k[1];
      assert h[2..] == Hex(table, s[1..]) && k[2..] == Hex(table, t[1..]);
      HexInjective(table, s[1..], t[1..]);
      assert s[0] / 16 == t[0] / 16 && s[0] % 16 == t[0] % 16;
      assert s == [s[0]] + s[1..] && t == [t[0]] + t[1..];
    }
  }
}
