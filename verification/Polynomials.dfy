/**
  Polynomials over GF(2) and their division by a shift register. A bit sequence of length
  d + 1 is a polynomial of degree at most d, highest power first.
 */
module Polynomials {
  import opened BitSequences
  import opened Sequences

  predicate Term(q: Bits, g: Bits, c: int, j: nat)
    requires j < |q|
  {
    0 <= c - j < |g| && q[j] && g[c - j]
  }

  /** The sum over j < t of q[j] * g[c - j], modulo 2. */
  predicate Convolution(q: Bits, g: Bits, c: int, t: nat)
    requires t <= |q|
  {
    if t == 0 then false else Convolution(q, g, c, t - 1) != Term(q, g, c, t - 1)
  }

  /** The product of two polynomials: every coefficient is a convolution. */
  function Mul(q: Bits, g: Bits): (p: Bits)
    requires |g| > 0
    ensures |p| == |q| + |g| - 1
    ensures forall c :: 0 <= c < |p| ==> p[c] == Convolution(q, g, c, |q|)
  {
    seq(|q| + |g| - 1, c requires 0 <= c => Convolution(q, g, c, |q|))
  }

  lemma {:induction false} ConvolutionOfXor(p: Bits, q: Bits, g: Bits, c: int, t: nat)
    requires |p| == |q| && t <= |p|
    ensures Convolution(Xor(p, q), g, c, t) == (Convolution(p, g, c, t) != Convolution(q, g, c, t))
  {
    if t > 0 {
      ConvolutionOfXor(p, q, g, c, t - 1);
    }
  }

  /** When at most one term of the sum can be a one, the sum is that term. */
  lemma {:induction false} ConvolutionSingle(q: Bits, g: Bits, c: int, t: nat, k: nat)
    requires t <= |q| && k < |q|
    requires forall j :: 0 <= j < t && j != k ==> !Term(q, g, c, j)
    ensures Convolution(q, g, c, t) == (k < t && Term(q, g, c, k))
  {
    if t > 0 {
      ConvolutionSingle(q, g, c, t - 1, k);
    }
  }

  lemma {:induction false} ConvolutionOfPrefix(q: Bits, d: bool, g: Bits, c: int, t: nat)
    requires t <= |q|
    ensures Convolution(q + [d], g, c, t) == Convolution(q, g, c, t)
  {
    if t > 0 {
      ConvolutionOfPrefix(q, d, g, c, t - 1);
    }
  }

  lemma {:induction false} ConvolutionOfSuffix(q: Bits, g: Bits, c: int, t: nat)
    requires t <= |q|
    ensures Convolution([false] + q, g, c + 1, t + 1) == Convolution(q, g, c, t)
  {
    if t > 0 {
      ConvolutionOfSuffix(q, g, c, t - 1);
    }
  }

  lemma MulDistributes(p: Bits, q: Bits, g: Bits)
    requires |p| == |q| && |g| > 0
    ensures Mul(Xor(p, q), g) == Xor(Mul(p, g), Mul(q, g))
  {
    forall c | 0 <= c < |p| + |g| - 1
      ensures Mul(Xor(p, q), g)[c] == Xor(Mul(p, g), Mul(q, g))[c]
    {
      ConvolutionOfXor(p, q, g, c, |p|);
    }
  }

  lemma MulOfZeros(k: nat, g: Bits)
    requires |g| > 0
    ensures Mul(Zeros(k), g) == Zeros(k + |g| - 1)
  {
    forall c | 0 <= c < k + |g| - 1 ensures !Mul(Zeros(k), g)[c] {
      if k > 0 { ConvolutionSingle(Zeros(k), g, c, k, 0); }
    }
  }

  lemma MulCoefficientTop(q: Bits, g: Bits, i: nat)
    requires |g| > 0 && i < |q| && (forall j :: 0 <= j < i ==> !q[j])
    ensures Mul(q, g)[i] == (q[i] && g[0])
  {
    ConvolutionSingle(q, g, i, |q|, i);
  }

  lemma MulCoefficientBottom(q: Bits, g: Bits, i: nat)
    requires |g| > 0 && i < |q| && (forall j :: i < j < |q| ==> !q[j])
    ensures Mul(q, g)[i + |g| - 1] == (q[i] && g[|g| - 1])
  {
    ConvolutionSingle(q, g, i + |g| - 1, |q|, i);
  }

  /** The product with x^k is a shift. */
  lemma MulOfSingle(q: Bits, g: Bits, k: nat)
    requires |g| > 0 && k < |q| && q[k]
    requires forall j :: 0 <= j < |q| && j != k ==> !q[j]
    ensures Mul(q, g) == Zeros(k) + g + Zeros(|q| - 1 - k)
  {
    forall c | 0 <= c < |q| + |g| - 1
      ensures Mul(q, g)[c] == (Zeros(k) + g + Zeros(|q| - 1 - k))[c]
    {
      ConvolutionSingle(q, g, c, |q|, k);
    }
  }

  lemma MulAppend(q: Bits, d: bool, g: Bits)
    requires |g| > 0
    ensures Mul(q + [d], g) == Xor(Mul(q, g) + [false], Zeros(|q|) + Scale(d, g))
  {
    forall c | 0 <= c < |q| + |g|
      ensures Mul(q + [d], g)[c] == Xor(Mul(q, g) + [false], Zeros(|q|) + Scale(d, g))[c]
    {
      ConvolutionOfPrefix(q, d, g, c, |q|);
      if c == |q| + |g| - 1 && q != [] {
        ConvolutionSingle(q, g, c, |q|, 0);
      }
    }
  }

  lemma MulAppendZero(q: Bits, g: Bits)
    requires |g| > 0
    ensures Mul(q + [false], g) == Mul(q, g) + [false]
  {
    MulAppend(q, false, g);
    ZerosJoin(|q|, |g|);
    XorWithZeros(Mul(q, g) + [false]);
  }

  lemma MulPrependZero(q: Bits, g: Bits)
    requires |g| > 0
    ensures Mul([false] + q, g) == [false] + Mul(q, g)
  {
    forall c | 0 <= c < |q| + |g|
      ensures Mul([false] + q, g)[c] == ([false] + Mul(q, g))[c]
    {
      if c > 0 {
        ConvolutionOfSuffix(q, g, c - 1, |q|);
      } else {
        ConvolutionSingle([false] + q, g, 0, |q| + 1, 0);
      }
    }
  }

  // ---------- division ----------

  /** What one pass of the loop leaves in r[1..n]: the register, less g if its top bit is set. */
  function Reduce(r: Bits, g: Bits): (s: Bits)
    requires |r| == |g| > 0
    ensures |s| == |g| - 1
  {
    (if r[0] then Xor(r, g) else r)[1..]
  }

  /** r[1..n] when the first k bits of f have been shifted in. */
  function Register(f: Bits, g: Bits, k: nat): (r: Bits)
    requires 0 < |g| <= k + 1 && k <= |f|
    ensures |r| == |g| - 1
    decreases k
  {
    if k == |g| - 1 then f[..k] else Reduce(Register(f, g, k - 1) + [f[k - 1]], g)
  }

  /** The quotient bits written when the first k bits of f have been shifted in. */
  function QuotientBits(f: Bits, g: Bits, k: nat): (q: Bits)
    requires 0 < |g| <= k + 1 && k <= |f|
    ensures |q| == k - (|g| - 1)
    decreases k
  {
    if k == |g| - 1 then []
    else QuotientBits(f, g, k - 1) + [(Register(f, g, k - 1) + [f[k - 1]])[0]]
  }

  function Remainder(f: Bits, g: Bits): (r: Bits)
    requires 0 < |g| <= |f| + 1
    ensures |r| == |g| - 1
  {
    Register(f, g, |f|)
  }

  function Quotient(f: Bits, g: Bits): (q: Bits)
    requires 0 < |g| <= |f| + 1
    ensures |q| == |f| - (|g| - 1)
  {
    QuotientBits(f, g, |f|)
  }

  /** f = q * g + r with r of lower degree than g. */
  predicate IsDivision(f: Bits, g: Bits, q: Bits, r: Bits)
    requires |g| > 0
  {
    && |r| == |g| - 1
    && |f| == |q| + |r|
    && f == Xor(Mul(q, g), Zeros(|q|) + r)
  }

  lemma ReduceTop(r: Bits, g: Bits)
    requires |r| == |g| > 0 && g[0]
    ensures [false] + Reduce(r, g) == Xor(Scale(r[0], g), r)
  {
  }

  lemma XorChain(m: Bits, k: nat, s: Bits, r: Bits, t: Bits)
    requires |s| == |r| && |m| == k + |r| && Xor(s, r) == t
    ensures Xor(m, Zeros(k) + r) == Xor(Xor(m, Zeros(k) + s), Zeros(k) + t)
  {
  }

  lemma XorExtended(m: Bits, k: nat, r: Bits, b: bool)
    requires |m| == k + |r|
    ensures Xor(m, Zeros(k) + r) + [b] == Xor(m + [false], Zeros(k) + (r + [b]))
  {
  }

  /** One pass of the division loop keeps the identity, because g[0] cancels the top bit. */
  lemma DivisionStep(f: Bits, b: bool, g: Bits, q: Bits, r: Bits)
    requires |g| > 0 && g[0] && IsDivision(f, g, q, r)
    ensures IsDivision(f + [b], g, q + [(r + [b])[0]], Reduce(r + [b], g))
  {
    var s, k := r + [b], |q|;
    var p, t := Mul(q, g) + [false], [false] + Reduce(s, g);
    XorExtended(Mul(q, g), k, r, b);
    assert f + [b] == Xor(p, Zeros(k) + s);
    ReduceTop(s, g);
    XorChain(p, k, Scale(s[0], g), s, t);
    MulAppend(q, s[0], g);
    assert f + [b] == Xor(Mul(q + [s[0]], g), Zeros(k) + t);
    ZerosBefore(k, Reduce(s, g));
  }

  lemma DivisionPass(f: Bits, k: nat, g: Bits, q: Bits, r: Bits)
    requires |g| > 0 && g[0] && k < |f| && IsDivision(f[..k], g, q, r)
    ensures IsDivision(f[..k + 1], g, q + [(r + [f[k]])[0]], Reduce(r + [f[k]], g))
  {
    DivisionStep(f[..k], f[k], g, q, r);
    TakeOneMore(f, k);
  }

  lemma {:induction false} IdentitySoFar(f: Bits, g: Bits, k: nat)
    requires 0 < |g| <= k + 1 && k <= |f| && g[0]
    ensures IsDivision(f[..k], g, QuotientBits(f, g, k), Register(f, g, k))
    decreases k
  {
    if k == |g| - 1 {
      MulOfZeros(0, g);
      XorWithZeros(f[..k]);
      assert Zeros(0) + f[..k] == f[..k];
    } else {
      IdentitySoFar(f, g, k - 1);
      DivisionPass(f, k - 1, g, QuotientBits(f, g, k - 1), Register(f, g, k - 1));
    }
  }

  /** The quotient and register computed by the loop do divide f by g. */
  lemma DivisionIdentity(f: Bits, g: Bits)
    requires 0 < |g| <= |f| + 1 && g[0]
    ensures IsDivision(f, g, Quotient(f, g), Remainder(f, g))
  {
    IdentitySoFar(f, g, |f|);
    assert f[..|f|] == f;
  }

  lemma QuotientUnique(f: Bits, g: Bits, q1: Bits, r1: Bits, q2: Bits, r2: Bits)
    requires |g| > 0 && g[0]
    requires IsDivision(f, g, q1, r1) && IsDivision(f, g, q2, r2)
    ensures q1 == q2
  {
    var q := Xor(q1, q2);
    MulDistributes(q1, q2, g);
    forall i | 0 <= i < |q| ensures !Mul(q, g)[i] {
      assert f[i] == Mul(q1, g)[i] && f[i] == Mul(q2, g)[i];
    }
    if !AllZero(q) {
      var i := FirstOneOf(q);
      MulCoefficientTop(q, g, i);
      assert false;
    }
    forall i | 0 <= i < |q1| ensures q1[i] == q2[i] {
      assert !q[i];
    }
  }

  /** There is only one quotient and one remainder of degree below n. */
  lemma DivisionUnique(f: Bits, g: Bits, q1: Bits, r1: Bits, q2: Bits, r2: Bits)
    requires |g| > 0 && g[0]
    requires IsDivision(f, g, q1, r1) && IsDivision(f, g, q2, r2)
    ensures q1 == q2 && r1 == r2
  {
    QuotientUnique(f, g, q1, r1, q2, r2);
    forall i | 0 <= i < |r1| ensures r1[i] == r2[i] {
      var c := |q1| + i;
      assert f[c] == (Mul(q1, g)[c] != r1[i]);
      assert f[c] == (Mul(q2, g)[c] != r2[i]);
    }
  }

  // ---------- keys that do not start with a one ----------

  /** While no one has been shifted out, the register just holds the last bits of f. */
  lemma {:induction false} DivisionOfZeros(f: Bits, t: nat, g: Bits)
    requires |g| > 0 && |f| >= t + |g| - 1
    requires forall j :: 0 <= j < t ==> !f[j]
    ensures QuotientBits(f, g, t + |g| - 1) == Zeros(t)
    ensures Register(f, g, t + |g| - 1) == f[t..t + |g| - 1]
  {
    if t > 0 {
      var k := t + |g| - 2;
      DivisionOfZeros(f, t - 1, g);
      SlideWindow(f, t - 1, k);
      ZerosAppend(t - 1);
    }
  }

  /** The quotient copies f up to and including its first one. */
  lemma {:induction false} QuotientStart(f: Bits, g: Bits, i: nat, k: nat)
    requires |g| > 0 && i + |g| <= k <= |f|
    requires forall j :: 0 <= j < i ==> !f[j]
    ensures QuotientBits(f, g, k)[i] == f[i]
    ensures forall j :: 0 <= j < i ==> !QuotientBits(f, g, k)[j]
    decreases k
  {
    if i + |g| < k {
      QuotientStart(f, g, i, k - 1);
    } else {
      DivisionOfZeros(f, i, g);
    }
  }

  lemma IdentityForZeros(f: Bits, g: Bits)
    requires 0 < |g| <= |f| + 1
    requires forall j :: 0 <= j < |f| - (|g| - 1) ==> !f[j]
    ensures IsDivision(f, g, Quotient(f, g), Remainder(f, g))
  {
    var t := |f| - (|g| - 1);
    DivisionOfZeros(f, t, g);
    MulOfZeros(t, g);
    XorWithZeros(f);
    ZerosInFront(f, t);
    assert f[t..|f|] == f[t..];
  }

  lemma IdentityFails(f: Bits, g: Bits, i: nat)
    requires 0 < |g| <= |f| + 1 && !g[0]
    requires i < |f| - (|g| - 1) && f[i] && (forall j :: 0 <= j < i ==> !f[j])
    ensures !IsDivision(f, g, Quotient(f, g), Remainder(f, g))
  {
    var q, r := Quotient(f, g), Remainder(f, g);
    QuotientStart(f, g, i, |f|);
    MulCoefficientTop(q, g, i);
    assert !Xor(Mul(q, g), Zeros(|q|) + r)[i];
  }

  /**
    crc.c never checks its key. The division identity holds exactly when the key starts with a
    one, or when nothing but zeros stands in front of the last n bits.
   */
  lemma DivisionIdentityIff(f: Bits, g: Bits)
    requires 0 < |g| <= |f| + 1
    ensures IsDivision(f, g, Quotient(f, g), Remainder(f, g))
       <==> g[0] || AllZero(f[..|f| - (|g| - 1)])
  {
    var s := f[..|f| - (|g| - 1)];
    if g[0] {
      DivisionIdentity(f, g);
    } else if AllZero(s) {
      assert forall j :: 0 <= j < |s| ==> f[j] == s[j];
      IdentityForZeros(f, g);
    } else {
      var i := FirstOneOf(s);
      assert forall j :: 0 <= j < |s| ==> f[j] == s[j];
      IdentityFails(f, g, i);
    }
  }

  lemma ReduceIgnoresFirst(r: Bits, g: Bits)
    requires |r| == |g| > 0
    ensures Reduce(r, g) == Reduce(r, g[0 := true])
  {
  }

  lemma {:induction false} FirstBitDropsOut(f: Bits, g: Bits, k: nat)
    requires 0 < |g| <= k + 1 && k <= |f|
    ensures Register(f, g, k) == Register(f, g[0 := true], k)
    ensures QuotientBits(f, g, k) == QuotientBits(f, g[0 := true], k)
    decreases k
  {
    if k > |g| - 1 {
      FirstBitDropsOut(f, g, k - 1);
      ReduceIgnoresFirst(Register(f, g, k - 1) + [f[k - 1]], g);
    }
  }

  /** Whatever the key, what is computed is the division by the key with its first bit read as a one. */
  lemma DivisionByAnyKey(f: Bits, g: Bits)
    requires 0 < |g| <= |f| + 1
    ensures IsDivision(f, g[0 := true], Quotient(f, g), Remainder(f, g))
  {
    FirstBitDropsOut(f, g, |f|);
    DivisionIdentity(f, g[0 := true]);
  }

  /** For instance the message 1 under the key 01: a quotient and remainder that do not multiply back. */
  lemma KeyWithoutLeadingOne()
    ensures var f, g: Bits := [true, false], [false, true];
            !IsDivision(f, g, Quotient(f, g), Remainder(f, g))
  {
    var f, g: Bits := [true, false], [false, true];
    DivisionIdentityIff(f, g);
    assert f[..1][0];
  }
}
