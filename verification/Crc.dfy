/**
  The bit-serial checksums over machine words. A word is the sequence of its bits, most
  significant first, and the operators of the loops are defined on such sequences.
 */
module Crc {
  import opened CrcSpec
  import opened CrcParity
  import opened Powers

  // ----- Machine words -----

  type U8 = b: Bits | |b| == 8 witness Zeros(8)
  type U16 = b: Bits | |b| == 16 witness Zeros(16)
  type U32 = b: Bits | |b| == 32 witness Zeros(32)

  /** The low `w` bits of a number. */
  function Word(n: nat, w: nat): (r: Bits)
    ensures |r| == w
    decreases w
  {
    if w == 0 then [] else Word(n / 2, w - 1) + [n % 2 == 1]
  }

  function And(a: Bits, b: Bits): (r: Bits)
    requires |a| == |b|
    ensures |r| == |a|
    ensures forall i :: 0 <= i < |r| ==> r[i] == (a[i] && b[i])
  {
    seq(|a|, i requires 0 <= i < |a| => a[i] && b[i])
  }

  function ShiftLeft(a: Bits): (r: Bits)
    requires a != []
    ensures |r| == |a|
  {
    a[1..] + [false]
  }

  function ShiftRight(a: Bits): (r: Bits)
    requires a != []
    ensures |r| == |a|
  {
    [false] + a[..|a| - 1]
  }

  /** Addition of one, with the carry running left and falling out at the top. */
  function Increment(a: Bits): (r: Bits)
    ensures |r| == |a|
  {
    if a == [] then [] else
      var k := |a| - 1;
      if a[k] then Increment(a[..k]) + [false] else a[..k] + [true]
  }

  /** Some bit of `v` is set under the mask `m`. */
  predicate Test(v: Bits, m: Bits)
    requires |v| == |m|
  {
    And(v, m) != Zeros(|v|)
  }

  // ----- Masks -----

  /** The word of `n` bits whose only one is at place `i` from the left; zero once `i` has left the word. */
  function OneHot(n: nat, i: nat): (r: Bits)
    ensures |r| == n
  {
    seq(n, j => j == i)
  }

  lemma TestOneHot(v: Bits, i: nat)
    ensures Test(v, OneHot(|v|, i)) == (i < |v| && v[i])
  {
    var a := And(v, OneHot(|v|, i));
    if i < |v| && v[i] {
      assert a[i] && !Zeros(|v|)[i];
    } else {
      assert a == Zeros(|v|);
    }
  }

  lemma ShiftOneHot(n: nat, i: nat)
    requires n > 0
    ensures ShiftRight(OneHot(n, i)) == OneHot(n, i + 1)
  {
  }

  lemma {:induction false} WordOneHot(n: nat, e: nat, w: nat)
    requires n == Pow2(e) && e < w
    ensures Word(n, w) == OneHot(w, w - 1 - e)
    decreases w
  {
    if e == 0 {
      WordZero(w - 1);
      assert Word(n, w) == Word(0, w - 1) + [true];
    } else {
      WordOneHot(n / 2, e - 1, w - 1);
      assert n % 2 == 0;
    }
  }

  lemma {:induction false} WordZero(w: nat)
    ensures Word(0, w) == Zeros(w)
  {
    if w > 0 {
      WordZero(w - 1);
    }
  }

  lemma TopMasks()
    ensures Word(0x80, 8) == OneHot(8, 0) && Word(0x100, 16) == OneHot(16, 7)
    ensures Word(0x8000, 16) == OneHot(16, 0) && Word(0x80000000, 32) == OneHot(32, 0)
  {
    assert Pow2(7) == 0x80 && Pow2(8) == 0x100 && Pow2(15) == 0x8000;
    assert Pow2(23) == 0x800000 && Pow2(31) == 0x80000000;
    WordOneHot(0x80, 7, 8);
    WordOneHot(0x100, 8, 16);
    WordOneHot(0x8000, 15, 16);
    WordOneHot(0x80000000, 31, 32);
  }

  /** The generators of section B.3 of ETSI TS 102 361-1, without their leading terms. */
  const POLY_9: Bits := Word(0x59, 9)
  const POLY_16: Bits := Word(0x1021, 16)
  const POLY_32: Bits := Word(0x04c11db7, 32)

  // ----- The loops -----

  /** The word of `n` bits that keeps the last `w`. */
  function LowMask(n: nat, w: nat): (r: Bits)
    requires w <= n
    ensures |r| == n
  {
    seq(n, j => j >= n - w)
  }

  /**
    What the loops share: test the top bit, shift within the width, bring a bit in, apply the
    generator. The register is the last |g| bits of the word.
   */
  method Clock(c: Bits, one: bool, top: Bits, width: Bits, gen: Bits, ghost g: Bits) returns (r: Bits)
    requires |c| == |top| == |width| == |gen| >= |g| > 0
    requires top == OneHot(|c|, |c| - |g|) && width == LowMask(|c|, |g|) && gen == Zeros(|c| - |g|) + g
    ensures |r| == |c|
    ensures r[..|c| - |g|] == Zeros(|c| - |g|)
    ensures r[|c| - |g|..] == Step(g, c[|c| - |g|..], one)
  {
    ghost var o := |c| - |g|;
    TestOneHot(c, o);
    var xor := Test(c, top);
    r := And(ShiftLeft(c), width);
    assert !r[|r| - 1];
    if one {
      r := Increment(r);
    }
    assert r == Zeros(o) + (c[o + 1..] + [one]);
    if xor {
      XorOffset(o, c[o + 1..] + [one], g);
      r := Xor(r, gen);
    }
  }

  lemma XorOffset(o: nat, a: Bits, g: Bits)
    requires |a| == |g|
    ensures Xor(Zeros(o) + a, Zeros(o) + g) == Zeros(o) + Xor(a, g)
  {
  }

  /** The eight bits of `byte` that a mask meets on its way down from place `start`. */
  function Fed(byte: U8, start: nat): (r: Bits)
    ensures |r| == 8
  {
    var n := if start < 8 then start else 8;
    byte[n..] + Zeros(n)
  }

  lemma FedStep(g: Bits, r: Bits, byte: U8, start: nat, i: nat)
    requires i < 8 && |r| == |g| > 0
    ensures var fed := Fed(byte, start);
            Run(g, r, fed[..i + 1]) == Step(g, Run(g, r, fed[..i]), Test(byte, OneHot(8, start + i)))
  {
    hide Run, Step, OneHot;
    var fed := Fed(byte, start);
    TestOneHot(byte, start + i);
    RunSnoc(g, r, fed[..i], fed[i]);
    assert fed[..i + 1] == fed[..i] + [fed[i]];
  }

  /** The loop that feeds eight bits under a moving mask. */
  method FeedByte(crc: Bits, byte: U8, mask: U8, top: Bits, width: Bits, gen: Bits, ghost start: nat, ghost g: Bits)
    returns (c: Bits)
    requires |crc| == |top| == |width| == |gen| >= |g| > 0 && mask == OneHot(8, start)
    requires top == OneHot(|crc|, |crc| - |g|) && width == LowMask(|crc|, |g|) && gen == Zeros(|crc| - |g|) + g
    ensures |c| == |crc| && c[|c| - |g|..] == Run(g, crc[|crc| - |g|..], Fed(byte, start))
    ensures c[..|c| - |g|] == Zeros(|c| - |g|)
  {
    hide Run, Step, OneHot, LowMask, Zeros, Fed, Test;
    ghost var o := |crc| - |g|;
    ghost var fed := Fed(byte, start);
    var v: U8 := mask;
    c := crc;
    RunNothing(g, crc[o..]);
    for i := 0 to 8
      invariant |c| == |crc| && v == OneHot(8, start + i)
      invariant c[o..] == Run(g, crc[o..], fed[..i])
      invariant i > 0 ==> c[..o] == Zeros(o)
    {
      ShiftOneHot(8, start + i);
      FedStep(g, crc[o..], byte, start, i);
      c := Clock(c, Test(byte, v), top, width, gen, g);
      v := ShiftRight(v);
    }
    assert fed[..8] == fed;
  }

  /** The loop that feeds `count` zero bits. */
  method FeedZeros(crc: Bits, count: nat, top: Bits, width: Bits, gen: Bits, ghost g: Bits) returns (c: Bits)
    requires |crc| == |top| == |width| == |gen| >= |g| > 0
    requires top == OneHot(|crc|, |crc| - |g|) && width == LowMask(|crc|, |g|) && gen == Zeros(|crc| - |g|) + g
    ensures |c| == |crc| && c[|c| - |g|..] == Run(g, crc[|crc| - |g|..], Zeros(count))
    ensures c[..|c| - |g|] == if count == 0 then crc[..|c| - |g|] else Zeros(|c| - |g|)
  {
    hide Run, Step, OneHot, LowMask;
    ghost var o := |crc| - |g|;
    c := crc;
    RunNothing(g, crc[o..]);
    assert Zeros(0) == [];
    for i := 0 to count
      invariant |c| == |crc| && c[o..] == Run(g, crc[o..], Zeros(i))
      invariant c[..o] == if i == 0 then crc[..o] else Zeros(o)
    {
      RunSnoc(g, crc[o..], Zeros(i), false);
      assert Zeros(i + 1) == Zeros(i) + [false];
      c := Clock(c, false, top, width, gen, g);
    }
  }

  /** CRC-16: feeds the bits of a byte, most significant first. */
  method Crc16(crc: U16, byte: U8) returns (r: U16)
    ensures r == Run(POLY_16, crc, byte)
  {
    TopMasks();
    assert LowMask(16, 16) == seq(16, _ => true) && Zeros(0) + POLY_16 == POLY_16;
    assert byte[0..] + Zeros(0) == byte;
    r := FeedByte(crc, byte, Word(0x80, 8), Word(0x8000, 16), LowMask(16, 16), Word(0x1021, 16), 0, POLY_16);
  }

  /** One call shifts in eight zero bits, as feeding a zero byte would. */
  method Crc16Finish(crc: U16) returns (r: U16)
    ensures r == Run(POLY_16, crc, Zeros(8))
  {
    TopMasks();
    assert Zeros(0) + POLY_16 == POLY_16;
    r := FeedZeros(crc, 8, Word(0x8000, 16), LowMask(16, 16), Word(0x1021, 16), POLY_16);
  }

  /** CRC-32: feeds the bits of a byte, most significant first. */
  method Crc32(crc: U32, byte: U8) returns (r: U32)
    ensures r == Run(POLY_32, crc, byte)
  {
    TopMasks();
    assert Zeros(0) + POLY_32 == POLY_32;
    assert byte[0..] + Zeros(0) == byte;
    r := FeedByte(crc, byte, Word(0x80, 8), Word(0x80000000, 32), LowMask(32, 32), Word(0x04c11db7, 32), 0, POLY_32);
  }

  /** One call shifts in eight zero bits, as feeding a zero byte would. */
  method Crc32Finish(crc: U32) returns (r: U32)
    ensures r == Run(POLY_32, crc, Zeros(8))
  {
    TopMasks();
    assert Zeros(0) + POLY_32 == POLY_32;
    r := FeedZeros(crc, 8, Word(0x80000000, 32), LowMask(32, 32), Word(0x04c11db7, 32), POLY_32);
  }

  /** The register of CRC-9: the low nine bits of its 16-bit word. */
  function Low9(c: U16): (r: Bits)
    ensures |r| == 9
  {
    c[7..]
  }

  /** CRC-9: the mask starts `bitlen` places down but the loop always takes eight bits. */
  method Crc9(crc: U16, byte: U8, bitlen: nat) returns (r: U16)
    ensures Low9(r) == Run(POLY_9, Low9(crc), Fed(byte, bitlen)) && r[..7] == Zeros(7)
  {
    hide Run;
    TopMasks();
    var v: U8 := Word(0x80, 8);
    for i := 0 to bitlen
      invariant v == OneHot(8, i)
    {
      ShiftOneHot(8, i);
      v := ShiftRight(v);
    }
    NineInSixteen();
    r := FeedByte(crc, byte, v, Word(0x100, 16), Word(0x1ff, 16), Word(0x59, 16), bitlen, POLY_9);
  }

  /** CRC-9 end: shifts in `bitlen` zero bits. */
  method Crc9Finish(crc: U16, bitlen: nat) returns (r: U16)
    ensures Low9(r) == Run(POLY_9, Low9(crc), Zeros(bitlen))
    ensures r[..7] == if bitlen == 0 then crc[..7] else Zeros(7)
  {
    hide Run;
    TopMasks();
    NineInSixteen();
    r := FeedZeros(crc, bitlen, Word(0x100, 16), Word(0x1ff, 16), Word(0x59, 16), POLY_9);
  }

  lemma NineInSixteen()
    ensures Word(0x1ff, 16) == LowMask(16, 9) && Word(0x59, 16) == Zeros(7) + POLY_9
  {
    assert Pow2(9) == 0x200;
    WordOnes(9, 16);
    WordPadded(0x59, 9, 7);
  }

  lemma {:induction false} WordOnes(e: nat, w: nat)
    requires e <= w
    ensures Word(Pow2(e) - 1, w) == LowMask(w, e)
    decreases w
  {
    if e == 0 {
      WordZero(w);
    } else {
      WordOnes(e - 1, w - 1);
      assert (Pow2(e) - 1) / 2 == Pow2(e - 1) - 1;
    }
  }

  lemma {:induction false} WordPadded(n: nat, w: nat, k: nat)
    requires n < Pow2(w)
    ensures Word(n, w + k) == Zeros(k) + Word(n, w)
    decreases w
  {
    if w == 0 {
      WordZero(k);
    } else {
      WordPadded(n / 2, w - 1, k);
    }
  }

  // ----- What the checksums detect -----

  /** A generator with a constant term is an odd number. */
  lemma GeneratorsHaveConstantTerm()
    ensures POLY_9[8] && POLY_16[15] && POLY_32[31]
  {
  }

  /** Messages of any length that differ only within 16 consecutive bits have different CRC-16 registers. */
  lemma Crc16Bursts(crc: U16, before: Bits, u: Bits, v: Bits, after: Bits)
    requires |u| == |v| <= 16 && u != v
    ensures Run(POLY_16, crc, before + u + after) != Run(POLY_16, crc, before + v + after)
  {
    GeneratorsHaveConstantTerm();
    BurstDetected(POLY_16, crc, before, u, v, after);
  }

  /** Messages of any length that differ only within 32 consecutive bits have different CRC-32 registers. */
  lemma Crc32Bursts(crc: U32, before: Bits, u: Bits, v: Bits, after: Bits)
    requires |u| == |v| <= 32 && u != v
    ensures Run(POLY_32, crc, before + u + after) != Run(POLY_32, crc, before + v + after)
  {
    GeneratorsHaveConstantTerm();
    BurstDetected(POLY_32, crc, before, u, v, after);
  }

  /** The CRC-16 generator has an even number of terms, so it detects every error of odd weight. */
  lemma Crc16OddErrors(crc: U16, m: Bits, n: Bits)
    requires |m| == |n|
    ensures Weight(Xor(m, n)) % 2 == 1 ==> Run(POLY_16, crc, m) != Run(POLY_16, crc, n)
  {
    hide Run;
    G16Parity();
    OddErrorsDetected(POLY_16, crc, m, n);
  }

  lemma G16Parity()
    ensures Parity(POLY_16)
  {
    G16Bits();
    var (a, b, c, d) := (Nibble(false, false, false, true), Nibble(false, false, false, false),
                         Nibble(false, false, true, false), Nibble(false, false, false, true));
    ParityAppend(a, b);
    ParityAppend(a + b, c);
    ParityAppend(a + b + c, d);
    assert POLY_16 == a + b + c + d;
  }

  function Nibble(a: bool, b: bool, c: bool, d: bool): (r: Bits)
    ensures |r| == 4 && Parity(r) == (a != (b != (c != d)))
  {
    assert [a, b, c, d][1..] == [b, c, d] && [b, c, d][1..] == [c, d] && [c, d][1..] == [d] && [d][1..] == [];
    assert Parity([d]) == (d != Parity([]));
    assert Parity([c, d]) == (c != Parity([d]));
    assert Parity([b, c, d]) == (b != Parity([c, d]));
    [a, b, c, d]
  }

  /** One CRC-9 call tells two bytes apart exactly when they differ below the skipped bits. */
  lemma Crc9Distinguishes(crc: U16, a: U8, b: U8, bitlen: nat)
    ensures Run(POLY_9, Low9(crc), Fed(a, bitlen)) != Run(POLY_9, Low9(crc), Fed(b, bitlen)) <==>
            bitlen < 8 && a[bitlen..] != b[bitlen..]
  {
    hide Run;
    if bitlen < 8 && a[bitlen..] != b[bitlen..] {
      var (u, v, z) := (a[bitlen..], b[bitlen..], Zeros(bitlen));
      GeneratorsHaveConstantTerm();
      BurstDetected(POLY_9, Low9(crc), [], u, v, z);
      assert [] + u == u && [] + v == v;
      assert u + z == Fed(a, bitlen) && v + z == Fed(b, bitlen);
    }
  }

  // ----- Runs of calls -----

  /** The bits of a sequence of bytes. */
  function Message(bytes: seq<U8>): Bits {
    if bytes == [] then [] else Message(bytes[..|bytes| - 1]) + bytes[|bytes| - 1]
  }

  /** They come byte after byte, each with its most significant bit first. */
  lemma {:induction false} MessageAt(bytes: seq<U8>, i: nat, j: nat)
    requires i < |bytes| && j < 8
    ensures |Message(bytes)| == 8 * |bytes| && Message(bytes)[8 * i + j] == bytes[i][j]
  {
    var k := |bytes| - 1;
    if k > 0 {
      MessageAt(bytes[..k], if i < k then i else 0, j);
    }
  }

  /** CRC-16 of a sequence of bytes, one call for each. */
  method Crc16All(crc: U16, bytes: seq<U8>) returns (r: U16)
    ensures r == Run(POLY_16, crc, Message(bytes))
  {
    hide Run;
    RunNothing(POLY_16, crc);
    r := crc;
    for i := 0 to |bytes|
      invariant r == Run(POLY_16, crc, Message(bytes[..i]))
    {
      assert bytes[..i + 1][..i] == bytes[..i];
      RunAppend(POLY_16, crc, Message(bytes[..i]), bytes[i]);
      r := Crc16(r, bytes[i]);
    }
    assert bytes[..|bytes|] == bytes;
  }

  /** CRC-32 of a sequence of bytes, one call for each. */
  method Crc32All(crc: U32, bytes: seq<U8>) returns (r: U32)
    ensures r == Run(POLY_32, crc, Message(bytes))
  {
    hide Run;
    RunNothing(POLY_32, crc);
    r := crc;
    for i := 0 to |bytes|
      invariant r == Run(POLY_32, crc, Message(bytes[..i]))
    {
      assert bytes[..i + 1][..i] == bytes[..i];
      RunAppend(POLY_32, crc, Message(bytes[..i]), bytes[i]);
      r := Crc32(r, bytes[i]);
    }
    assert bytes[..|bytes|] == bytes;
  }

  /** CRC-9 of a sequence of bytes, one call with the same `bitlen` for each. */
  method Crc9All(crc: U16, bytes: seq<U8>, bitlen: nat) returns (r: U16)
    ensures Low9(r) == Run(POLY_9, Low9(crc), FedAll(bytes, bitlen))
  {
    hide Run, Low9;
    RunNothing(POLY_9, Low9(crc));
    r := crc;
    for i := 0 to |bytes|
      invariant Low9(r) == Run(POLY_9, Low9(crc), FedAll(bytes[..i], bitlen))
    {
      assert bytes[..i + 1][..i] == bytes[..i];
      RunAppend(POLY_9, Low9(crc), FedAll(bytes[..i], bitlen), Fed(bytes[i], bitlen));
      r := Crc9(r, bytes[i], bitlen);
    }
    assert bytes[..|bytes|] == bytes;
  }

  /** The sum of a data header goes out inverted and under a mask. Doing so twice undoes it. */
  function Masked(c: U16): U16 {
    Xor(seq(16, i requires 0 <= i < 16 => !c[i]), Word(0xcccc, 16))
  }

  lemma MaskedTwice(c: U16)
    ensures Masked(Masked(c)) == c
  {
  }

  /** What a data header of any length is to carry. */
  function HeaderSum(message: Bits): U16 {
    Masked(Run(POLY_16, Run(POLY_16, Zeros(16), message), Zeros(8)))
  }

  method HeaderCrc(bytes: seq<U8>) returns (r: U16)
    ensures r == HeaderSum(Message(bytes))
    ensures var k := Run(POLY_16, Run(POLY_16, Zeros(16), Message(bytes)), Zeros(8));
            forall i :: 0 <= i < 16 ==> r[i] == (k[i] != (i % 4 >= 2))
  {
    HeaderMask();
    var crc := Crc16All(Zeros(16), bytes);
    crc := Crc16Finish(crc);
    r := Xor(seq(16, i requires 0 <= i < 16 => !crc[i]), Word(0xcccc, 16));
  }

  lemma HeaderMask()
    ensures forall i :: 0 <= i < 16 ==> Word(0xcccc, 16)[i] == (i % 4 < 2)
  {
    hide Word;
    WordNibble(0xc, 0);
    WordNibble(0xcc, 4);
    WordNibble(0xccc, 8);
    WordNibble(0xcccc, 12);
  }

  /**
    The single finish call, the inversion and the mask lose nothing: headers are told apart just as by
    their registers.
   */
  lemma HeaderSumsDiffer(m: Bits, n: Bits)
    ensures HeaderSum(m) == HeaderSum(n) <==> Run(POLY_16, Zeros(16), m) == Run(POLY_16, Zeros(16), n)
  {
    hide Run, Masked;
    var r: U16 := Run(POLY_16, Zeros(16), m);
    var q: U16 := Run(POLY_16, Zeros(16), n);
    MaskedTwice(Run(POLY_16, r, Zeros(8)));
    MaskedTwice(Run(POLY_16, q, Zeros(8)));
    GeneratorsHaveConstantTerm();
    if HeaderSum(m) == HeaderSum(n) {
      RunInjective(POLY_16, r, q, Zeros(8));
    }
  }

  /** Everything that a sequence of CRC-9 calls with the same `bitlen` feeds. */
  function FedAll(bytes: seq<U8>, bitlen: nat): Bits {
    if bytes == [] then [] else FedAll(bytes[..|bytes| - 1], bitlen) + Fed(bytes[|bytes| - 1], bitlen)
  }

  /** With `bitlen` 8, as the confirmed data blocks pass it, the payload never reaches the register. */
  lemma {:induction false} PayloadIgnored(bytes: seq<U8>)
    ensures FedAll(bytes, 8) == Zeros(8 * |bytes|)
  {
    if bytes != [] {
      var rest := bytes[..|bytes| - 1];
      PayloadIgnored(rest);
      assert Fed(bytes[|bytes| - 1], 8) == Zeros(8);
      assert Zeros(8 * |rest|) + Zeros(8) == Zeros(8 * |bytes|);
    }
  }

  /** The CRC-16 left by two finish calls, fed high byte first after the message, clears the register. */
  lemma Crc16OwnChecksum(crc: U16, message: Bits)
    ensures var r := Run(POLY_16, crc, message);
            var k := Run(POLY_16, Run(POLY_16, r, Zeros(8)), Zeros(8));
            Run(POLY_16, Run(POLY_16, r, k[..8]), k[8..]) == Zeros(16)
  {
    hide Run;
    var r := Run(POLY_16, crc, message);
    var k := Run(POLY_16, Run(POLY_16, r, Zeros(8)), Zeros(8));
    RunAppend(POLY_16, r, Zeros(8), Zeros(8));
    assert Zeros(8) + Zeros(8) == Zeros(16);
    OwnChecksum(POLY_16, r);
    RunAppend(POLY_16, r, k[..8], k[8..]);
    assert k[..8] + k[8..] == k;
  }

  /** The words that eight zero bits leave alone. */
  const FIXED_16: U16 := [true, true, true, true, false, false, false, false,
                         false, false, false, true, true, true, true, true]

  lemma Fixed16Word()
    ensures FIXED_16 == Word(0xf01f, 16)
  {
    hide Word;
    WordNibble(0xf, 0);
    WordNibble(0xf0, 4);
    WordNibble(0xf01, 8);
    WordNibble(0xf01f, 12);
  }

  /** The last four bits of a word and the rest. */
  lemma WordNibble(n: nat, w: nat)
    ensures Word(n, w + 4) == Word(n / 16, w) + [n / 8 % 2 == 1, n / 4 % 2 == 1, n / 2 % 2 == 1, n % 2 == 1]
  {
    var (a, b, c) := (n / 2, n / 4, n / 8);
    assert a / 2 == b && b / 2 == c && c / 2 == n / 16;
    assert Word(n, w + 4) == Word(a, w + 3) + [n % 2 == 1];
    assert Word(a, w + 3) == Word(b, w + 2) + [a % 2 == 1];
    assert Word(b, w + 2) == Word(c, w + 1) + [b % 2 == 1];
    assert Word(c, w + 1) == Word(n / 16, w) + [c % 2 == 1];
  }

  lemma G16Bits()
    ensures POLY_16 == [false, false, false, true, false, false, false, false,
                    false, false, true, false, false, false, false, true]
  {
    hide Word;
    WordNibble(0x1, 0);
    WordNibble(0x10, 4);
    WordNibble(0x102, 8);
    WordNibble(0x1021, 12);
  }

  /** The exponents of the generators below their degrees. */
  lemma Exponents()
    ensures forall i :: 0 <= i < 9 ==> (POLY_9[i] <==> 8 - i in {6, 4, 3, 0})
    ensures forall i :: 0 <= i < 16 ==> (POLY_16[i] <==> 15 - i in {12, 5, 0})
    ensures forall i :: 0 <= i < 32 ==>
        (POLY_32[i] <==> 31 - i in {26, 23, 22, 16, 12, 11, 10, 8, 7, 5, 4, 2, 1, 0})
  {
    hide Word;
    G16Bits();
    WordZero(1);
    WordNibble(0x5, 1);
    WordNibble(0x59, 5);
    G32Bits();
  }

  lemma G32Bits()
    ensures POLY_32[..16] == [false, false, false, false, false, true, false, false,
                              true, true, false, false, false, false, false, true]
    ensures POLY_32[16..] == [false, false, false, true, true, true, false, true,
                              true, false, true, true, false, true, true, true]
  {
    hide Word;
    HighBits();
    WordNibble(0x04c11, 16);
    WordNibble(0x04c11d, 20);
    WordNibble(0x04c11db, 24);
    WordNibble(0x04c11db7, 28);
  }

  lemma HighBits()
    ensures Word(0x04c1, 16) == [false, false, false, false, false, true, false, false,
                                 true, true, false, false, false, false, false, true]
  {
    hide Word;
    WordNibble(0x0, 0);
    WordNibble(0x04, 4);
    WordNibble(0x04c, 8);
    WordNibble(0x04c1, 12);
  }

  /** One zero bit into the CRC-16 register. */
  function Clocked(r: U16): U16 {
    [r[1], r[2], r[3], r[4] != r[0], r[5], r[6], r[7], r[8],
     r[9], r[10], r[11] != r[0], r[12], r[13], r[14], r[15], r[0]]
  }

  lemma ClockedStep(r: U16)
    ensures Step(POLY_16, r, false) == Clocked(r)
  {
    G16Bits();
  }

  function ClockedTwice(r: U16): U16 {
    Clocked(Clocked(r))
  }

  lemma FinishClocks(r: U16)
    ensures Run(POLY_16, r, Zeros(8)) == ClockedTwice(ClockedTwice(ClockedTwice(ClockedTwice(r))))
  {
    hide Step, Clocked;
    FinishPair(r, 0);
    FinishPair(r, 2);
    FinishPair(r, 4);
    FinishPair(r, 6);
    RunNothing(POLY_16, r);
    assert Zeros(0) == [];
  }

  lemma FinishPair(r: U16, n: nat)
    ensures Run(POLY_16, r, Zeros(n + 2)) == ClockedTwice(Run(POLY_16, r, Zeros(n)))
  {
    hide Run, Step, Clocked;
    var q: U16 := Run(POLY_16, r, Zeros(n));
    assert Zeros(n + 1) == Zeros(n) + [false] && Zeros(n + 2) == Zeros(n + 1) + [false];
    RunSnoc(POLY_16, r, Zeros(n), false);
    RunSnoc(POLY_16, r, Zeros(n + 1), false);
    ClockedStep(q);
    ClockedStep(Clocked(q));
  }

  /** Two words, and only these, come through eight zero bits as they were. */
  lemma FixedWords(r: U16)
    ensures ClockedTwice(ClockedTwice(ClockedTwice(ClockedTwice(r)))) == r <==> r == Zeros(16) || r == FIXED_16
  {
  }

  /**
    Data headers make a single finish call. The message followed by such a sum, as it is before inversion and
    mask, clears the register exactly when the register before that call was zero or 0xf01f.
   */
  lemma Crc16SingleFinish(crc: U16, message: Bits)
    ensures var r := Run(POLY_16, crc, message);
            Run(POLY_16, r, Run(POLY_16, r, Zeros(8))) == Zeros(16) <==> r == Zeros(16) || r == Word(0xf01f, 16)
  {
    hide Run, ClockedTwice;
    var r: U16 := Run(POLY_16, crc, message);
    var k: U16 := Run(POLY_16, r, Zeros(8));
    RunAppend(POLY_16, r, Zeros(8), Zeros(8));
    assert Zeros(8) + Zeros(8) == Zeros(16);
    OnlyChecksum(POLY_16, r, k);
    GeneratorsHaveConstantTerm();
    if Run(POLY_16, k, Zeros(8)) == k {
      RunInjective(POLY_16, k, r, Zeros(8));
    }
    FinishClocks(r);
    FixedWords(r);
    Fixed16Word();
  }

  /** A header of nine zero bytes and a one: its message and sum do not clear the register. */
  lemma HeaderNotCleared()
    ensures var message := Zeros(79) + [true];
            var r := Run(POLY_16, Zeros(16), message);
            |message| == 80 && Run(POLY_16, r, Run(POLY_16, r, Zeros(8))) != Zeros(16)
  {
    hide Run;
    var message := Zeros(79) + [true];
    RunZeros(POLY_16, 79);
    RunSnoc(POLY_16, Zeros(16), Zeros(79), true);
    Fixed16Word();
    assert Run(POLY_16, Zeros(16), message)[15] && !Run(POLY_16, Zeros(16), message)[0];
    Crc16SingleFinish(Zeros(16), message);
  }

  /** A CRC-32 after four finish calls clears the register in the same way. */
  lemma Crc32OwnChecksum(crc: U32, message: Bits)
    ensures var r := Run(POLY_32, crc, message);
            var k := Run(POLY_32, Run(POLY_32, Run(POLY_32, Run(POLY_32, r, Zeros(8)), Zeros(8)), Zeros(8)), Zeros(8));
            Run(POLY_32, Run(POLY_32, Run(POLY_32, Run(POLY_32, r, k[..8]), k[8..16]), k[16..24]), k[24..]) == Zeros(32)
  {
    hide Run;
    var r := Run(POLY_32, crc, message);
    var k := Run(POLY_32, Run(POLY_32, Run(POLY_32, Run(POLY_32, r, Zeros(8)), Zeros(8)), Zeros(8)), Zeros(8));
    RunAppend(POLY_32, r, Zeros(8), Zeros(8));
    RunAppend(POLY_32, r, Zeros(8) + Zeros(8), Zeros(8));
    RunAppend(POLY_32, r, Zeros(8) + Zeros(8) + Zeros(8), Zeros(8));
    assert Zeros(8) + Zeros(8) + Zeros(8) + Zeros(8) == Zeros(32);
    OwnChecksum(POLY_32, r);
    RunAppend(POLY_32, r, k[..8], k[8..16]);
    RunAppend(POLY_32, r, k[..8] + k[8..16], k[16..24]);
    RunAppend(POLY_32, r, k[..8] + k[8..16] + k[16..24], k[24..]);
    assert k[..8] + k[8..16] + k[16..24] + k[24..] == k;
  }
}
