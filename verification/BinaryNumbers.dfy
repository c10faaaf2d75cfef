/** Binary digits of natural numbers, powers of two, and exclusive or of numbers. */
module BinaryNumbers {

  function Pow2(n: nat): (p: nat)
    ensures p > n
  {
    if n == 0 then 1 else 2 * Pow2(n - 1)
  }

  /** i without its last s binary digits: i halved s times. */
  function Halved(i: nat, s: nat): (h: nat)
    ensures h <= i
  {
    if s == 0 then i else Halved(i, s - 1) / 2
  }

  /** Whether digit s of i is a one, where digit 0 is the last digit. */
  predicate Bit(i: nat, s: nat) {
    Halved(i, s) % 2 == 1
  }

  lemma {:induction false} HalvedAgain(i: nat, s: nat)
    ensures Halved(i, s + 1) == Halved(i / 2, s)
  {
    if s > 0 {
      HalvedAgain(i, s - 1);
    }
  }

  lemma BitUnfold(i: nat, s: nat)
    ensures Bit(i, s + 1) == Bit(i / 2, s)
  {
    HalvedAgain(i, s);
  }

  lemma AtLeast(d: nat, n: nat)
    requires n >= 1
    ensures d * n >= d
  {
  }

  lemma QuotientIs(i: nat, d: nat, q: nat, r: nat)
    requires d > 0 && i == d * q + r && r < d
    ensures q == i / d
  {
    var k, t := i / d, i % d;
    assert i == d * k + t;
    assert d * (k - q) == d * k - d * q == r - t;
    assert d * (q - k) == d * q - d * k == t - r;
    if k - q >= 1 {
      AtLeast(d, k - q);
    } else if q - k >= 1 {
      AtLeast(d, q - k);
    }
  }

  lemma DivideTwice(i: nat, p: nat)
    requires p > 0
    ensures (i / p) / 2 == i / (2 * p)
  {
    var h, b, r := (i / p) / 2, (i / p) % 2, i % p;
    assert i == p * (2 * h + b) + r;
    assert p * (2 * h + b) == (2 * p) * h + p * b;
    assert p * b <= p;
    QuotientIs(i, 2 * p, h, p * b + r);
  }

  /** Digits may also be read off by division by a power of two. */
  lemma {:induction false} BitByDivision(i: nat, s: nat)
    ensures Halved(i, s) == i / Pow2(s)
    ensures Bit(i, s) <==> (i / Pow2(s)) % 2 == 1
  {
    if s > 0 {
      BitByDivision(i, s - 1);
      DivideTwice(i, Pow2(s - 1));
    }
  }

  /** The last w digits of i added up with their weights. */
  function WeightedDigits(i: nat, w: nat): (n: nat) {
    if w == 0 then 0
    else WeightedDigits(i, w - 1) + (if Bit(i, w - 1) then Pow2(w - 1) else 0)
  }

  lemma {:induction false} WeightedDigitsUnfold(i: nat, w: nat)
    ensures WeightedDigits(i, w + 1) == i % 2 + 2 * WeightedDigits(i / 2, w)
  {
    if w > 0 {
      WeightedDigitsUnfold(i, w - 1);
      HalvedAgain(i, w - 1);
    }
  }

  /** A number is the sum of its digits with their weights. */
  lemma {:induction false} SumOfDigits(i: nat, w: nat)
    requires i < Pow2(w)
    ensures WeightedDigits(i, w) == i
  {
    if w > 0 {
      SumOfDigits(i / 2, w - 1);
      WeightedDigitsUnfold(i, w - 1);
    }
  }

  lemma {:induction false} HalvedSmall(i: nat, w: nat)
    requires i < Pow2(w)
    ensures Halved(i, w) == 0
  {
    if w > 0 {
      HalvedSmall(i / 2, w - 1);
      HalvedAgain(i, w - 1);
    }
  }

  lemma {:induction false} HalvedStaysZero(i: nat, w: nat, s: nat)
    requires i < Pow2(w) && w <= s
    ensures Halved(i, s) == 0
    decreases s
  {
    if s == w {
      HalvedSmall(i, w);
    } else {
      HalvedStaysZero(i, w, s - 1);
    }
  }

  lemma {:induction false} BitSmall(i: nat, s: nat, w: nat)
    requires i < Pow2(w) && w <= s
    ensures !Bit(i, s)
    decreases s
  {
    HalvedStaysZero(i, w, s);
  }

  lemma {:induction false} Pow2Monotone(a: nat, b: nat)
    requires a <= b
    ensures Pow2(a) <= Pow2(b)
    decreases b
  {
    if a < b {
      Pow2Monotone(a, b - 1);
    }
  }

  lemma {:induction false} BitsOfPow2(t: nat, s: nat)
    ensures Bit(Pow2(t), s) <==> s == t
  {
    if s > 0 {
      BitUnfold(Pow2(t), s - 1);
      if t == 0 {
        BitSmall(0, s - 1, 0);
      } else {
        BitsOfPow2(t - 1, s - 1);
      }
    }
  }

  predicate IsPow2(i: nat) {
    i == 1 || (i > 1 && i % 2 == 0 && IsPow2(i / 2))
  }

  /** The position of the highest one. */
  function TopBit(i: nat): (s: nat)
    requires i > 0
  {
    if i == 1 then 0 else 1 + TopBit(i / 2)
  }

  lemma {:induction false} TopBitBounds(i: nat)
    requires i > 0
    ensures Pow2(TopBit(i)) <= i < 2 * Pow2(TopBit(i))
    ensures IsPow2(i) <==> i == Pow2(TopBit(i))
  {
    if i > 1 {
      TopBitBounds(i / 2);
    }
  }

  lemma {:induction false} Pow2IsPow2(s: nat)
    ensures IsPow2(Pow2(s)) && TopBit(Pow2(s)) == s
  {
    if s > 0 {
      Pow2IsPow2(s - 1);
      assert Pow2(s) / 2 == Pow2(s - 1) && Pow2(s) % 2 == 0;
    }
  }

  /** Past one power of two, the next one met is the next power. */
  lemma NextPower(i: nat, n: nat)
    requires 0 < i <= Pow2(n) && (n > 0 ==> Pow2(n - 1) < i)
    ensures IsPow2(i) <==> i == Pow2(n)
    ensures IsPow2(i) ==> TopBit(i) == n
  {
    Pow2IsPow2(n);
    TopBitBounds(i);
    if TopBit(i) > n {
      Pow2Monotone(n + 1, TopBit(i));
    } else if TopBit(i) < n {
      Pow2Monotone(TopBit(i), n - 1);
    }
  }

  lemma {:induction false} TwiceBelowPower(n: nat)
    requires n > 0
    ensures 2 * n <= Pow2(n - 1) + 2
  {
    if n > 2 {
      TwiceBelowPower(n - 1);
    }
  }

  // ---------- exclusive or ----------

  function NatXor(a: nat, b: nat): (c: nat) {
    if a == 0 then b
    else if b == 0 then a
    else 2 * NatXor(a / 2, b / 2) + (if a % 2 == b % 2 then 0 else 1)
  }

  lemma {:induction false} NatXorUnfold(a: nat, b: nat)
    ensures NatXor(a, b) / 2 == NatXor(a / 2, b / 2)
    ensures NatXor(a, b) % 2 == 1 <==> a % 2 != b % 2
  {
  }

  lemma {:induction false} BitOfNatXor(a: nat, b: nat, s: nat)
    ensures Bit(NatXor(a, b), s) == (Bit(a, s) != Bit(b, s))
  {
    if s == 0 {
      NatXorUnfold(a, b);
    } else {
      NatXorUnfold(a, b);
      BitOfNatXor(a / 2, b / 2, s - 1);
      BitUnfold(NatXor(a, b), s - 1);
      BitUnfold(a, s - 1);
      BitUnfold(b, s - 1);
    }
  }

  /** Numbers with the same digits are equal. */
  lemma {:induction false} SameDigits(a: nat, b: nat)
    requires forall s: nat :: Bit(a, s) == Bit(b, s)
    ensures a == b
    decreases a + b
  {
    if a + b > 0 {
      assert Bit(a, 0) == Bit(b, 0);
      forall s: nat ensures Bit(a / 2, s) == Bit(b / 2, s) {
        BitUnfold(a, s);
        BitUnfold(b, s);
        assert Bit(a, s + 1) == Bit(b, s + 1);
      }
      SameDigits(a / 2, b / 2);
    }
  }

  lemma {:induction false} NatXorBound(a: nat, b: nat, w: nat)
    requires a < Pow2(w) && b < Pow2(w)
    ensures NatXor(a, b) < Pow2(w)
  {
    if a != 0 && b != 0 {
      NatXorBound(a / 2, b / 2, w - 1);
    }
  }

  lemma BitOfTwoXors(a: nat, b: nat, c: nat, s: nat)
    ensures Bit(NatXor(NatXor(a, b), c), s) == ((Bit(a, s) != Bit(b, s)) != Bit(c, s))
    ensures Bit(NatXor(a, NatXor(b, c)), s) == ((Bit(a, s) != Bit(b, s)) != Bit(c, s))
  {
    BitOfNatXor(NatXor(a, b), c, s);
    BitOfNatXor(a, b, s);
    BitOfNatXor(a, NatXor(b, c), s);
    BitOfNatXor(b, c, s);
  }

  lemma NatXorAssociative(a: nat, b: nat, c: nat)
    ensures NatXor(NatXor(a, b), c) == NatXor(a, NatXor(b, c))
  {
    var l, r := NatXor(NatXor(a, b), c), NatXor(a, NatXor(b, c));
    forall s: nat ensures Bit(l, s) == Bit(r, s) {
      BitOfTwoXors(a, b, c, s);
    }
    SameDigits(l, r);
  }

  lemma {:induction false} NatXorCommutes(a: nat, b: nat)
    ensures NatXor(a, b) == NatXor(b, a)
    decreases a + b
  {
    if a != 0 && b != 0 {
      NatXorCommutes(a / 2, b / 2);
    }
  }

  lemma {:induction false} NatXorZeroIff(a: nat, b: nat)
    ensures NatXor(a, b) == 0 <==> a == b
    decreases a + b
  {
    if a != 0 && b != 0 {
      NatXorZeroIff(a / 2, b / 2);
    }
  }
}
