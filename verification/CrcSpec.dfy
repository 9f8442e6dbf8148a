/**
  Cyclic redundancy checks of any width: the shift register and what it tells apart.

  A word is a sequence of bits, most significant first. A generator of degree w is
  written without its leading term, as a word of w bits.
 */
module CrcSpec {

  type Bits = seq<bool>

  function Xor(a: Bits, b: Bits): (r: Bits)
    requires |a| == |b|
    ensures |r| == |a|
    ensures forall i :: 0 <= i < |r| ==> r[i] == (a[i] != b[i])
  {
    seq(|a|, i requires 0 <= i < |a| => a[i] != b[i])
  }

  function Zeros(n: nat): (r: Bits)
    ensures |r| == n
    ensures forall i :: 0 <= i < n ==> !r[i]
  {
    seq(n, _ => false)
  }

  lemma XorSelf(a: Bits)
    ensures Xor(a, a) == Zeros(|a|)
  {
  }

  lemma XorZeros(a: Bits)
    ensures Xor(a, Zeros(|a|)) == a && Xor(Zeros(|a|), a) == a
  {
  }

  /** One clock of the register: a bit comes in, and the generator is applied if a one falls out. */
  function Step(g: Bits, r: Bits, b: bool): (s: Bits)
    requires |g| == |r| > 0
    ensures |s| == |r|
  {
    var s := r[1..] + [b];
    if r[0] then Xor(s, g) else s
  }

  function Run(g: Bits, r: Bits, m: Bits): (s: Bits)
    requires |g| == |r| > 0
    ensures |s| == |r|
    decreases |m|
  {
    if m == [] then r else Step(g, Run(g, r, m[..|m| - 1]), m[|m| - 1])
  }

  lemma RunNothing(g: Bits, r: Bits)
    requires |g| == |r| > 0
    ensures Run(g, r, []) == r
  {
  }

  lemma RunSnoc(g: Bits, r: Bits, m: Bits, b: bool)
    requires |g| == |r| > 0
    ensures Run(g, r, m + [b]) == Step(g, Run(g, r, m), b)
  {
    assert (m + [b])[..|m + [b]| - 1] == m;
  }

  lemma {:induction false} RunAppend(g: Bits, r: Bits, m: Bits, n: Bits)
    requires |g| == |r| > 0
    ensures Run(g, r, m + n) == Run(g, Run(g, r, m), n)
    decreases |n|
  {
    if n == [] {
      assert m + n == m;
    } else {
      var (n', b) := (n[..|n| - 1], n[|n| - 1]);
      RunAppend(g, r, m, n');
      assert (m + n)[..|m + n| - 1] == m + n';
    }
  }

  // ----- Linearity and injectivity -----

  lemma StepLinear(g: Bits, r: Bits, q: Bits, b: bool, c: bool)
    requires |g| == |r| == |q| > 0
    ensures Step(g, Xor(r, q), b != c) == Xor(Step(g, r, b), Step(g, q, c))
  {
  }

  lemma {:induction false} RunLinear(g: Bits, r: Bits, q: Bits, m: Bits, n: Bits)
    requires |g| == |r| == |q| > 0 && |m| == |n|
    ensures Run(g, Xor(r, q), Xor(m, n)) == Xor(Run(g, r, m), Run(g, q, n))
    decreases |m|
  {
    if m != [] {
      var k := |m| - 1;
      RunLinear(g, r, q, m[..k], n[..k]);
      assert Xor(m, n)[..k] == Xor(m[..k], n[..k]);
      StepLinear(g, Run(g, r, m[..k]), Run(g, q, n[..k]), m[k], n[k]);
    }
  }

  /** With a constant term in the generator no two registers meet while reading the same bits. */
  lemma StepInjective(g: Bits, r: Bits, q: Bits, b: bool)
    requires |g| == |r| == |q| > 0 && g[|g| - 1]
    requires Step(g, r, b) == Step(g, q, b)
    ensures r == q
  {
    var (k, s, u) := (|g| - 1, Step(g, r, b), Step(g, q, b));
    assert s[k] == u[k];
    assert r[0] == q[0];
    forall i | 0 < i < |r| ensures r[i] == q[i] {
      assert s[i - 1] == u[i - 1];
    }
  }

  lemma {:induction false} RunInjective(g: Bits, r: Bits, q: Bits, m: Bits)
    requires |g| == |r| == |q| > 0 && g[|g| - 1]
    requires Run(g, r, m) == Run(g, q, m)
    ensures r == q
    decreases |m|
  {
    if m != [] {
      var k := |m| - 1;
      StepInjective(g, Run(g, r, m[..k]), Run(g, q, m[..k]), m[k]);
      RunInjective(g, r, q, m[..k]);
    }
  }

  /** An empty register stays empty while zeros come in. */
  lemma {:induction false} RunZeros(g: Bits, n: nat)
    requires |g| > 0
    ensures Run(g, Zeros(|g|), Zeros(n)) == Zeros(|g|)
  {
    if n > 0 {
      RunZeros(g, n - 1);
      assert Zeros(n)[..n - 1] == Zeros(n - 1);
    }
  }

  /** A word no wider than an empty register is just loaded into it. */
  lemma {:induction false} RunLoads(g: Bits, m: Bits)
    requires |g| > 0 && |m| <= |g|
    ensures Run(g, Zeros(|g|), m) == Zeros(|g| - |m|) + m
    decreases |m|
  {
    if m != [] {
      var k := |m| - 1;
      RunLoads(g, m[..k]);
      var r := Zeros(|g| - k) + m[..k];
      assert r[1..] + [m[k]] == Zeros(|g| - |m|) + m;
    }
  }

  /**
    Burst errors: two messages that differ only inside a window no wider than the
    register end in different registers, whatever surrounds the window.
   */
  lemma BurstDetected(g: Bits, r: Bits, before: Bits, u: Bits, v: Bits, after: Bits)
    requires |g| == |r| > 0 && g[|g| - 1]
    requires |u| == |v| <= |g| && u != v
    ensures Run(g, r, before + u + after) != Run(g, r, before + v + after)
  {
    hide Run, Step;
    var p := Run(g, r, before);
    WindowsDiffer(g, p, u, v);
    RunAppend(g, r, before, u);
    RunAppend(g, r, before, v);
    RunAppend(g, r, before + u, after);
    RunAppend(g, r, before + v, after);
    if Run(g, Run(g, p, u), after) == Run(g, Run(g, p, v), after) {
      RunInjective(g, Run(g, p, u), Run(g, p, v), after);
    }
  }

  lemma WindowsDiffer(g: Bits, p: Bits, u: Bits, v: Bits)
    requires |g| == |p| > 0 && |u| == |v| <= |g| && u != v
    ensures Run(g, p, u) != Run(g, p, v)
  {
    hide Run, Step, Xor, Zeros;
    if Run(g, p, u) == Run(g, p, v) {
      RunLinear(g, p, p, u, v);
      XorSelf(p);
      XorSelf(Run(g, p, u));
      RunLoads(g, Xor(u, v));
      SameWords(g, u, v);
      assert false;
    }
  }

  lemma SameWords(g: Bits, u: Bits, v: Bits)
    requires |u| == |v| <= |g| && Zeros(|g| - |u|) + Xor(u, v) == Zeros(|g|)
    ensures u == v
  {
    forall i | 0 <= i < |u| ensures u[i] == v[i] {
      assert (Zeros(|g| - |u|) + Xor(u, v))[|g| - |u| + i] == Xor(u, v)[i];
    }
  }

  /** A register clocked empty and then fed what came out of it returns to zero. */
  lemma OwnChecksum(g: Bits, r: Bits)
    requires |g| == |r| > 0
    ensures Run(g, r, Run(g, r, Zeros(|g|))) == Zeros(|g|)
  {
    hide Run, Step, Xor, Zeros;
    var (z, c) := (Zeros(|g|), Run(g, r, Zeros(|g|)));
    XorZeros(r);
    XorZeros(c);
    XorSelf(c);
    RunLinear(g, r, z, z, c);
    RunLoads(g, c);
    assert Zeros(0) + c == c;
  }

  /** And that word is the only one of its width that does so. */
  lemma OnlyChecksum(g: Bits, r: Bits, k: Bits)
    requires |g| == |r| == |k| > 0
    ensures Run(g, r, k) == Zeros(|g|) <==> k == Run(g, r, Zeros(|g|))
  {
    hide Run;
    OwnChecksum(g, r);
    if k != Run(g, r, Zeros(|g|)) {
      WindowsDiffer(g, r, k, Run(g, r, Zeros(|g|)));
    }
  }
}
