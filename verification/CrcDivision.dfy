/** The shift register as division of polynomials over the two-element field. */
module CrcDivision {
  import opened CrcSpec

  // ----- Polynomials over the two-element field -----

  /** A polynomial is the set of the exponents with coefficient one. */
  type Poly = set<nat>

  ghost function Add(p: Poly, q: Poly): Poly {
    (p - q) + (q - p)
  }

  ghost function MulX(p: Poly): Poly {
    set e | e in p :: e + 1
  }

  /** The term x^k, or nothing. */
  ghost function Term(b: bool, k: nat): Poly {
    if b then {k} else {}
  }

  /** The polynomial of a word: its last bit is the constant term. */
  ghost function PolyOf(m: Bits): Poly {
    if m == [] then {} else Add(MulX(PolyOf(m[..|m| - 1])), Term(m[|m| - 1], 0))
  }

  /** The product with a polynomial, by Horner's rule on the bits of `q`. */
  ghost function Times(q: Bits, p: Poly): Poly {
    if q == [] then {} else Add(MulX(Times(q[..|q| - 1], p)), if q[|q| - 1] then p else {})
  }

  /** The generator with its leading term. */
  ghost function Generator(g: Bits): Poly {
    PolyOf([true] + g)
  }

  /** The bits that fall out of the register. */
  ghost function Quotient(g: Bits, r: Bits, m: Bits): (q: Bits)
    requires |g| == |r| > 0
    ensures |q| == |m|
  {
    if m == [] then [] else Quotient(g, r, m[..|m| - 1]) + [Run(g, r, m[..|m| - 1])[0]]
  }

  lemma AddAssociates(p: Poly, q: Poly, r: Poly)
    ensures Add(Add(p, q), r) == Add(p, Add(q, r))
  {
  }

  lemma AddLaws(p: Poly, q: Poly)
    ensures Add(p, q) == Add(q, p) && Add(p, {}) == p && Add({}, p) == p && Add(p, p) == {}
  {
  }

  lemma MulXAdd(p: Poly, q: Poly)
    ensures MulX(Add(p, q)) == Add(MulX(p), MulX(q))
  {
    forall e | e in MulX(Add(p, q)) ensures e in Add(MulX(p), MulX(q)) {
      assert e - 1 in Add(p, q);
    }
    forall e | e in Add(MulX(p), MulX(q)) ensures e in MulX(Add(p, q)) {
      assert e - 1 in p || e - 1 in q;
      assert e - 1 in Add(p, q);
    }
  }

  lemma MulXTerm(b: bool, k: nat)
    ensures MulX(Term(b, k)) == Term(b, k + 1)
  {
  }

  lemma PolySnoc(m: Bits, b: bool)
    ensures PolyOf(m + [b]) == Add(MulX(PolyOf(m)), Term(b, 0))
  {
    assert (m + [b])[..|m + [b]| - 1] == m;
  }

  lemma {:induction false} PolyXor(m: Bits, n: Bits)
    requires |m| == |n|
    ensures PolyOf(Xor(m, n)) == Add(PolyOf(m), PolyOf(n))
  {
    if m != [] {
      var k := |m| - 1;
      PolyXor(m[..k], n[..k]);
      assert Xor(m, n)[..k] == Xor(m[..k], n[..k]);
      MulXAdd(PolyOf(m[..k]), PolyOf(n[..k]));
    }
  }

  /** A leading one contributes the term of its place, a leading zero nothing. */
  lemma {:induction false} PolyCons(b: bool, m: Bits)
    ensures PolyOf([b] + m) == Add(Term(b, |m|), PolyOf(m))
  {
    hide Add, MulX, PolyOf, Term;
    if m == [] {
      PolyBit(b);
      AddLaws(Term(b, 0), {});
      assert [b] + m == [b];
    } else {
      var k := |m| - 1;
      var t := Term(b, k);
      PolyCons(b, m[..k]);
      PolySnoc([b] + m[..k], m[k]);
      PolySnoc(m[..k], m[k]);
      assert [b] + m[..k] + [m[k]] == [b] + m && m[..k] + [m[k]] == m;
      MulXAdd(t, PolyOf(m[..k]));
      MulXTerm(b, k);
      AddAssociates(MulX(t), MulX(PolyOf(m[..k])), Term(m[k], 0));
    }
  }

  lemma PolyBit(b: bool)
    ensures PolyOf([b]) == Term(b, 0) && PolyOf([]) == {}
  {
    assert MulX({}) == {};
  }

  // ----- The register holds the remainder -----

  /** Initial register and message together are a multiple of the generator plus the final register. */
  lemma {:induction false} RunDivides(g: Bits, r: Bits, m: Bits)
    requires |g| == |r| > 0
    ensures PolyOf(r + m) == Add(Times(Quotient(g, r, m), Generator(g)), PolyOf(Run(g, r, m)))
    decreases |m|
  {
    hide PolyOf, Add, MulX, Times, Generator, Step, Term;
    if m == [] {
      assert r + m == r;
      TimesEmpty(Generator(g));
      AddLaws(PolyOf(r), {});
    } else {
      var (k, b) := (|m| - 1, m[|m| - 1]);
      var (s, q) := (Run(g, r, m[..k]), Quotient(g, r, m[..k]));
      RunDivides(g, r, m[..k]);
      assert r + m == (r + m[..k]) + [b];
      PolySnoc(r + m[..k], b);
      TimesSnoc(q, s[0], Generator(g));
      DivideStep(g, s, b, Times(q, Generator(g)));
    }
  }

  lemma TimesSnoc(q: Bits, b: bool, p: Poly)
    ensures Times(q + [b], p) == Add(MulX(Times(q, p)), if b then p else {})
  {
    assert (q + [b])[..|q + [b]| - 1] == q;
  }

  lemma DivideStep(g: Bits, s: Bits, b: bool, t: Poly)
    requires |g| == |s| > 0
    ensures Add(MulX(Add(t, PolyOf(s))), Term(b, 0)) ==
            Add(Add(MulX(t), if s[0] then Generator(g) else {}), PolyOf(Step(g, s, b)))
  {
    hide Add, MulX, PolyOf, Term, Xor;
    var u := s[1..] + [b];
    assert [s[0]] + s[1..] == s && s + [b] == [s[0]] + u;
    MulXAdd(t, PolyOf(s));
    AddAssociates(MulX(t), MulX(PolyOf(s)), Term(b, 0));
    PolySnoc(s, b);
    PolyCons(s[0], u);
    PolyCons(true, g);
    PolyXor(u, g);
    var (w, G, U) := (Term(s[0], |g|), PolyOf(g), PolyOf(u));
    if s[0] {
      AddAssociates(w, G, Add(U, G));
      AddLaws(U, G);
      AddAssociates(G, G, U);
      AddLaws(G, G);
      AddLaws(U, U);
      AddAssociates(MulX(t), Generator(g), PolyOf(Step(g, s, b)));
    } else {
      TermZero(|g|);
      AddLaws(U, U);
      AddLaws(MulX(t), {});
    }
  }

  lemma TermZero(k: nat)
    ensures Term(false, k) == {}
  {
  }

  // ----- There is only one remainder -----

  lemma {:induction false} PolyMember(m: Bits, e: nat)
    ensures e in PolyOf(m) <==> e < |m| && m[|m| - 1 - e]
  {
    if m != [] {
      var p := PolyOf(m[..|m| - 1]);
      assert e in MulX(p) <==> e > 0 && e - 1 in p;
      if e > 0 {
        PolyMember(m[..|m| - 1], e - 1);
      }
    }
  }

  lemma {:induction false} TimesXor(q: Bits, d: Bits, p: Poly)
    requires |q| == |d|
    ensures Times(Xor(q, d), p) == Add(Times(q, p), Times(d, p))
  {
    if q != [] {
      var k := |q| - 1;
      TimesXor(q[..k], d[..k], p);
      assert Xor(q, d)[..k] == Xor(q[..k], d[..k]);
      MulXAdd(Times(q[..k], p), Times(d[..k], p));
    }
  }

  lemma {:induction false} TimesPadded(k: nat, q: Bits, p: Poly)
    ensures Times(Zeros(k) + q, p) == Times(q, p)
    decreases |q|, k
  {
    assert MulX({}) == {};
    if q != [] {
      var n := |q| - 1;
      TimesPadded(k, q[..n], p);
      assert (Zeros(k) + q)[..k + n] == Zeros(k) + q[..n];
    } else if k > 0 {
      TimesPadded(k - 1, [], p);
      assert (Zeros(k) + [])[..k - 1] == Zeros(k - 1) + [];
    } else {
      assert Zeros(0) + [] == [];
    }
  }

  /** A product with a leading one has the degree of the generator plus that of the factor. */
  lemma {:induction false} TimesDegree(q: Bits, g: Bits)
    requires |g| > 0
    ensures |q| + |g| in Times([true] + q, Generator(g))
    ensures forall e :: e in Times([true] + q, Generator(g)) ==> e <= |q| + |g|
  {
    hide PolyOf, Times;
    GeneratorDegree(g);
    if q == [] {
      TimesSnoc([], true, Generator(g));
      assert [] + [true] == [true] + q;
      TimesEmpty(Generator(g));
    } else {
      var k := |q| - 1;
      var t := Times([true] + q[..k], Generator(g));
      TimesDegree(q[..k], g);
      TimesSnoc([true] + q[..k], q[k], Generator(g));
      assert [true] + q[..k] + [q[k]] == [true] + q;
      assert |q| + |g| in MulX(t);
    }
  }

  lemma TimesEmpty(p: Poly)
    ensures Times([], p) == {} && MulX({}) == {}
  {
  }

  lemma GeneratorDegree(g: Bits)
    ensures |g| in Generator(g) && forall e :: e in Generator(g) ==> e <= |g|
  {
    PolyMember([true] + g, |g|);
    forall e | e in Generator(g) ensures e <= |g| {
      PolyMember([true] + g, e);
    }
  }

  /** A multiple of the generator below its degree is zero. */
  lemma LowMultiple(d: Bits, g: Bits)
    requires |g| > 0 && forall e :: e in Times(d, Generator(g)) ==> e < |g|
    ensures d == Zeros(|d|) && Times(d, Generator(g)) == {}
  {
    hide Times, Generator;
    if d == Zeros(|d|) {
      TimesPadded(|d|, [], Generator(g));
      TimesEmpty(Generator(g));
      assert Zeros(|d|) + [] == d;
    } else {
      var k := FirstOne(d);
      TimesPadded(k, d[k..], Generator(g));
      assert Zeros(k) + d[k..] == d && d[k..] == [true] + d[k + 1..];
      TimesDegree(d[k + 1..], g);
      assert false;
    }
  }

  lemma FirstOne(d: Bits) returns (k: nat)
    requires d != Zeros(|d|)
    ensures k < |d| && d[k] && d[..k] == Zeros(k)
  {
    k := 0;
    while k < |d| && !d[k]
      invariant k <= |d| && forall i :: 0 <= i < k ==> !d[i]
    {
      k := k + 1;
    }
  }

  /** Two divisions of the same polynomial by the generator have the same quotient and leave the same register. */
  lemma RemainderUnique(g: Bits, q: Bits, r: Bits, q': Bits, r': Bits)
    requires |g| == |r| == |r'| > 0
    requires Add(Times(q, Generator(g)), PolyOf(r)) == Add(Times(q', Generator(g)), PolyOf(r'))
    ensures r == r' && PolyOf(q) == PolyOf(q')
  {
    hide Times, Generator, PolyOf, Add, Xor, Zeros;
    var G := Generator(g);
    var n := if |q| > |q'| then |q| else |q'|;
    var (a, b) := (Zeros(n - |q|) + q, Zeros(n - |q'|) + q');
    TimesPadded(n - |q|, q, G);
    TimesPadded(n - |q'|, q', G);
    TimesXor(a, b, G);
    PolyXor(r, r');
    SwapSides(Times(q, G), PolyOf(r), Times(q', G), PolyOf(r'));
    forall e | e in Times(Xor(a, b), G) ensures e < |g| {
      PolyMember(Xor(r, r'), e);
    }
    LowMultiple(Xor(a, b), g);
    var x := Xor(r, r');
    forall i | 0 <= i < |r| ensures r[i] == r'[i] {
      PolyMember(x, |x| - 1 - i);
    }
    SameBits(a, b);
    PolyPadded(n - |q|, q);
    PolyPadded(n - |q'|, q');
  }

  lemma SameBits(a: Bits, b: Bits)
    requires |a| == |b| && Xor(a, b) == Zeros(|a|)
    ensures a == b
  {
    forall i | 0 <= i < |a| ensures a[i] == b[i] {
      assert Xor(a, b)[i] == Zeros(|a|)[i];
    }
  }

  lemma SwapSides(a: Poly, b: Poly, c: Poly, d: Poly)
    requires Add(a, b) == Add(c, d)
    ensures Add(a, c) == Add(b, d)
  {
    forall e: nat ensures e in Add(a, c) <==> e in Add(b, d) {
      assert e in Add(a, b) <==> e in Add(c, d);
    }
  }

  /** `r` is what division by the generator leaves of the message. */
  ghost predicate IsRemainder(g: Bits, m: Bits, r: Bits) {
    |r| == |g| && exists q: Bits :: PolyOf(m) == Add(Times(q, Generator(g)), PolyOf(r))
  }

  /** From an empty register, the register after a message is the remainder of the message and nothing else is. */
  lemma RegisterIsRemainder(g: Bits, m: Bits, r: Bits)
    requires |g| > 0
    ensures IsRemainder(g, m, r) <==> r == Run(g, Zeros(|g|), m)
  {
    hide Times, Generator, PolyOf, Add, Run, Zeros;
    var z := Zeros(|g|);
    var (q0, r0) := (Quotient(g, z, m), Run(g, z, m));
    RunDivides(g, z, m);
    PolyPadded(|g|, m);
    if IsRemainder(g, m, r) {
      var q: Bits :| PolyOf(m) == Add(Times(q, Generator(g)), PolyOf(r));
      RemainderUnique(g, q, r, q0, r0);
    }
  }

  lemma {:induction false} PolyPadded(k: nat, m: Bits)
    ensures PolyOf(Zeros(k) + m) == PolyOf(m)
  {
    if k == 0 {
      assert Zeros(0) + m == m;
    } else {
      PolyPadded(k - 1, m);
      PolyCons(false, Zeros(k - 1) + m);
      assert [false] + (Zeros(k - 1) + m) == Zeros(k) + m;
    }
  }
}
