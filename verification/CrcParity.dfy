/** Errors of odd weight, which some generators always detect. */
module CrcParity {
  import opened CrcSpec

  /** How many ones a word has. */
  function Weight(a: Bits): nat {
    if a == [] then 0 else (if a[0] then 1 else 0) + Weight(a[1..])
  }

  /** Whether that number is odd. */
  function Parity(a: Bits): bool {
    if a == [] then false else a[0] != Parity(a[1..])
  }

  lemma {:induction false} ParityWeight(a: Bits)
    ensures Parity(a) <==> Weight(a) % 2 == 1
  {
    if a != [] {
      ParityWeight(a[1..]);
    }
  }

  lemma {:induction false} ParityXor(a: Bits, b: Bits)
    requires |a| == |b|
    ensures Parity(Xor(a, b)) == (Parity(a) != Parity(b))
    decreases |a|
  {
    if a != [] {
      assert Xor(a, b)[1..] == Xor(a[1..], b[1..]);
      ParityXor(a[1..], b[1..]);
    }
  }

  lemma ParitySnoc(a: Bits, x: bool)
    ensures Parity(a + [x]) == (Parity(a) != x)
  {
    ParityAppend(a, [x]);
    assert [x][1..] == [];
  }

  lemma {:induction false} ParityAppend(a: Bits, b: Bits)
    ensures Parity(a + b) == (Parity(a) != Parity(b))
  {
    if a == [] {
      assert a + b == b;
    } else {
      assert (a + b)[1..] == a[1..] + b;
      ParityAppend(a[1..], b);
    }
  }

  /**
    A generator with an even number of terms, its leading one included, keeps the parity: that of the
    register is that of everything read.
   */
  lemma {:induction false} ParityKept(g: Bits, r: Bits, m: Bits)
    requires |g| == |r| > 0
    ensures Parity(g) ==> Parity(Run(g, r, m)) == (Parity(r) != Parity(m))
    decreases |m|
  {
    if m != [] {
      var (k, q) := (|m| - 1, Run(g, r, m[..|m| - 1]));
      ParityKept(g, r, m[..k]);
      assert m == m[..k] + [m[k]];
      ParitySnoc(m[..k], m[k]);
      ParityStep(g, q, m[k]);
    }
  }

  lemma ParityStep(g: Bits, r: Bits, b: bool)
    requires |g| == |r| > 0
    ensures Parity(g) ==> Parity(Step(g, r, b)) == (Parity(r) != b)
  {
    ParitySnoc(r[1..], b);
    ParityXor(r[1..] + [b], g);
  }

  /** With such a generator, messages that differ in an odd number of places, wherever these are, are told apart. */
  lemma OddErrorsDetected(g: Bits, r: Bits, m: Bits, n: Bits)
    requires |g| == |r| > 0 && |m| == |n|
    ensures Parity(g) && Weight(Xor(m, n)) % 2 == 1 ==> Run(g, r, m) != Run(g, r, n)
  {
    ParityWeight(Xor(m, n));
    ParityXor(m, n);
    ParityKept(g, r, m);
    ParityKept(g, r, n);
  }
}
