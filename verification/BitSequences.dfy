/**
  Finite sequences of bits. Index 0 is the coefficient entered first, which in the CRC
  programs is the one of the highest power.
 */
module BitSequences {

  type Bits = seq<bool>

  function Zeros(k: nat): (z: Bits)
    ensures |z| == k
    ensures forall i :: 0 <= i < k ==> !z[i]
  {
    seq(k, _ => false)
  }

  /** Bitwise exclusive or: addition, and also subtraction, of polynomials over GF(2). */
  function Xor(a: Bits, b: Bits): (c: Bits)
    requires |a| == |b|
    ensures |c| == |a|
    ensures forall i :: 0 <= i < |a| ==> c[i] == (a[i] != b[i])
  {
    seq(|a|, i requires 0 <= i < |a| => a[i] != b[i])
  }

  function Scale(d: bool, g: Bits): (p: Bits)
    ensures |p| == |g|
    ensures forall i :: 0 <= i < |g| ==> p[i] == (d && g[i])
  {
    if d then g else Zeros(|g|)
  }

  predicate AllZero(a: Bits) {
    forall i :: 0 <= i < |a| ==> !a[i]
  }

  // Small facts about sequences, kept apart because they are costly among many other terms.

  lemma SplitLast(a: Bits)
    requires a != []
    ensures a == a[..|a| - 1] + [a[|a| - 1]]
  {
  }

  lemma SlideWindow(a: Bits, i: nat, k: nat)
    requires i <= k < |a|
    ensures (a[i..k] + [a[k]])[1..] == a[i + 1..k + 1]
  {
  }

  lemma SplitFirst(a: Bits)
    requires a != []
    ensures a == [a[0]] + a[1..]
  {
  }

  lemma AppendInjective(a: Bits, b: Bits, c: bool)
    requires a + [c] == b + [c]
    ensures a == b
  {
    assert (a + [c])[..|a|] == a && (b + [c])[..|b|] == b;
  }

  lemma PrependInjective(a: Bits, b: Bits, c: bool)
    requires [c] + a == [c] + b
    ensures a == b
  {
    assert ([c] + a)[1..] == a && ([c] + b)[1..] == b;
  }

  lemma AllZeroIsZeros(a: Bits)
    requires AllZero(a)
    ensures a == Zeros(|a|)
  {
  }

  lemma ZerosAppend(k: nat)
    ensures Zeros(k) + [false] == Zeros(k + 1) == [false] + Zeros(k)
  {
  }

  lemma ZerosBefore(k: nat, r: Bits)
    ensures Zeros(k) + ([false] + r) == Zeros(k + 1) + r
  {
  }

  lemma ZerosInFront(f: Bits, t: nat)
    requires t <= |f| && (forall j :: 0 <= j < t ==> !f[j])
    ensures f == Zeros(t) + f[t..]
  {
  }

  lemma ZerosJoin(k: nat, l: nat)
    ensures Zeros(k) + Zeros(l) == Zeros(k + l)
  {
  }

  lemma XorWithZeros(a: Bits)
    ensures Xor(Zeros(|a|), a) == a == Xor(a, Zeros(|a|))
  {
  }

  lemma XorTwice(a: Bits, b: Bits)
    requires |a| == |b|
    ensures Xor(a, Xor(a, b)) == b
  {
  }

  lemma {:induction false} FirstOneOf(a: Bits) returns (i: nat)
    requires !AllZero(a)
    ensures i < |a| && a[i]
    ensures forall j :: 0 <= j < i ==> !a[j]
  {
    if a[0] {
      i := 0;
    } else {
      i := FirstOneOf(a[1..]);
      forall j | 0 <= j < i + 1 ensures !a[j] {
        assert j > 0 ==> !a[1..][j - 1];
      }
      i := i + 1;
    }
  }

  lemma {:induction false} LastOneOf(a: Bits) returns (i: nat)
    requires !AllZero(a)
    ensures i < |a| && a[i]
    ensures forall j :: i < j < |a| ==> !a[j]
  {
    var k := |a| - 1;
    if a[k] {
      i := k;
    } else {
      i := LastOneOf(a[..k]);
      assert forall j :: 0 <= j < k ==> a[j] == a[..k][j];
    }
  }

  // ---------- parity ----------

  /** True when the number of ones is odd. */
  predicate Odd(a: Bits) {
    if a == [] then false else Odd(a[..|a| - 1]) != a[|a| - 1]
  }

  lemma {:induction false} OddOfXor(a: Bits, b: Bits)
    requires |a| == |b|
    ensures Odd(Xor(a, b)) == (Odd(a) != Odd(b))
  {
    if a != [] {
      var k := |a| - 1;
      assert Xor(a, b)[..k] == Xor(a[..k], b[..k]);
      OddOfXor(a[..k], b[..k]);
    }
  }

  lemma {:induction false} OddOfConcat(a: Bits, b: Bits)
    ensures Odd(a + b) == (Odd(a) != Odd(b))
  {
    if b == [] {
      assert a + b == a;
    } else {
      var k := |b| - 1;
      assert (a + b)[..|a| + k] == a + b[..k];
      OddOfConcat(a, b[..k]);
    }
  }

  lemma {:induction false} OddOfZeros(k: nat)
    ensures !Odd(Zeros(k))
  {
    if k > 0 {
      ZerosAppend(k - 1);
      OddOfZeros(k - 1);
      assert Zeros(k)[..k - 1] == Zeros(k - 1);
    }
  }
}
