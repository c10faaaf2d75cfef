/**
  The code that crc1.c sends and checks: which frames the receiver accepts, and which error
  patterns it cannot miss.
 */
module CrcCode {
  import opened BitSequences
  import opened Polynomials

  /** The test of line 22 of crc1.c, without its comparison of the two degrees. */
  predicate ProperGenerator(g: Bits) {
    |g| > 0 && g[0] && g[|g| - 1]
  }

  function Padded(frame: Bits, g: Bits): (p: Bits)
    requires |g| > 0
    ensures |p| == |frame| + |g| - 1
  {
    frame + Zeros(|g| - 1)
  }

  /** The transmitted frame: the frame as entered, then the remainder of the padded frame. */
  function SentFrame(frame: Bits, g: Bits): (s: Bits)
    requires |g| > 0
    ensures |s| == |frame| + |g| - 1
  {
    frame + Remainder(Padded(frame, g), g)
  }

  /** The receiver's verdict "No Error". */
  predicate Accepts(f: Bits, g: Bits)
    requires |g| > 0 && |f| >= |g| - 1
  {
    AllZero(Remainder(f, g))
  }

  /** f is a polynomial multiple of g. */
  ghost predicate Divides(g: Bits, f: Bits)
    requires |g| > 0 && |f| >= |g| - 1
  {
    exists q: Bits :: |q| == |f| - (|g| - 1) && Mul(q, g) == f
  }

  lemma AcceptedIsMultiple(f: Bits, g: Bits)
    requires |g| > 0 && g[0] && |f| >= |g| - 1 && Accepts(f, g)
    ensures Divides(g, f)
  {
    var q, r := Quotient(f, g), Remainder(f, g);
    DivisionIdentity(f, g);
    AllZeroIsZeros(r);
    ZerosJoin(|q|, |r|);
    XorWithZeros(Mul(q, g));
  }

  lemma MultipleIsAccepted(f: Bits, g: Bits, q: Bits)
    requires |g| > 0 && g[0] && f == Mul(q, g)
    ensures Accepts(f, g)
  {
    DivisionIdentity(f, g);
    ZerosJoin(|q|, |g| - 1);
    XorWithZeros(f);
    DivisionUnique(f, g, q, Zeros(|g| - 1), Quotient(f, g), Remainder(f, g));
  }

  /** "No Error" is printed exactly for the multiples of the generator. */
  lemma AcceptsIffDivides(f: Bits, g: Bits)
    requires |g| > 0 && g[0] && |f| >= |g| - 1
    ensures Accepts(f, g) <==> Divides(g, f)
  {
    if Accepts(f, g) {
      AcceptedIsMultiple(f, g);
    }
    if Divides(g, f) {
      var q: Bits :| |q| == |f| - (|g| - 1) && Mul(q, g) == f;
      MultipleIsAccepted(f, g, q);
    }
  }

  /** f, of any length, is a polynomial multiple of g: a short f has a degree below that of g. */
  ghost predicate MultipleOf(g: Bits, f: Bits)
    requires |g| > 0
  {
    if |f| >= |g| - 1 then Divides(g, f) else AllZero(f)
  }

  lemma XorOfPadded(m: Bits, frame: Bits, rest: Bits)
    requires |m| == |frame| + |rest|
    ensures m == frame + rest <==> frame + Zeros(|rest|) == Xor(m, Zeros(|frame|) + rest)
  {
    var p := frame + Zeros(|rest|);
    if p == Xor(m, Zeros(|frame|) + rest) {
      forall i | 0 <= i < |m| ensures m[i] == (frame + rest)[i] {
        assert p[i] == (m[i] != (Zeros(|frame|) + rest)[i]);
      }
    }
  }

  lemma MultipleEndsInRemainder(frame: Bits, rest: Bits, g: Bits, q: Bits)
    requires |g| > 0 && g[0] && |rest| == |g| - 1 && |q| == |frame|
    ensures Mul(q, g) == frame + rest <==> IsDivision(Padded(frame, g), g, q, rest)
  {
    XorOfPadded(Mul(q, g), frame, rest);
  }

  lemma SentFrameIsMultiple(frame: Bits, g: Bits)
    requires |g| > 0 && g[0]
    ensures Divides(g, SentFrame(frame, g))
  {
    var p := Padded(frame, g);
    DivisionIdentity(p, g);
    MultipleEndsInRemainder(frame, Remainder(p, g), g, Quotient(p, g));
  }

  /** The receiver accepts exactly the frames that the sender can transmit. */
  lemma AcceptedFramesAreSent(f: Bits, g: Bits)
    requires |g| > 0 && g[0] && |f| >= |g| - 1
    ensures Accepts(f, g) <==> f == SentFrame(f[..|f| - (|g| - 1)], g)
  {
    var t := |f| - (|g| - 1);
    AcceptsIffDivides(f, g);
    SentFrameIsMultiple(f[..t], g);
    if Accepts(f, g) {
      var q: Bits :| |q| == t && Mul(q, g) == f;
      assert f == f[..t] + f[t..];
      MultipleEndsInRemainder(f[..t], f[t..], g, q);
      var p := Padded(f[..t], g);
      DivisionIdentity(p, g);
      DivisionUnique(p, g, q, f[t..], Quotient(p, g), Remainder(p, g));
    }
  }

  /** Whatever the sender transmits, the receiver accepts. */
  lemma RoundTrip(frame: Bits, g: Bits)
    requires |g| > 0 && g[0]
    ensures Accepts(SentFrame(frame, g), g)
  {
    SentFrameIsMultiple(frame, g);
    AcceptsIffDivides(SentFrame(frame, g), g);
  }

  lemma DividesXor(g: Bits, a: Bits, b: Bits)
    requires |g| > 0 && |a| == |b| >= |g| - 1
    requires Divides(g, a) && Divides(g, b)
    ensures Divides(g, Xor(a, b))
  {
    var n := |g| - 1;
    var p: Bits :| |p| == |a| - n && Mul(p, g) == a;
    var q: Bits :| |q| == |b| - n && Mul(q, g) == b;
    MulDistributes(p, q, g);
    assert Mul(Xor(p, q), g) == Xor(a, b);
  }

  lemma DividesXorIff(g: Bits, a: Bits, b: Bits)
    requires |g| > 0 && |a| == |b| >= |g| - 1 && Divides(g, a)
    ensures Divides(g, Xor(a, b)) <==> Divides(g, b)
  {
    if Divides(g, b) {
      DividesXor(g, a, b);
    }
    if Divides(g, Xor(a, b)) {
      DividesXor(g, a, Xor(a, b));
      XorTwice(a, b);
    }
  }

  /** Linearity: whether an error pattern is noticed does not depend on the frame it hits. */
  lemma VerdictOnErrors(frame: Bits, e: Bits, g: Bits)
    requires |g| > 0 && g[0] && |e| == |frame| + |g| - 1
    ensures Accepts(Xor(SentFrame(frame, g), e), g) <==> Divides(g, e)
  {
    var s := SentFrame(frame, g);
    SentFrameIsMultiple(frame, g);
    AcceptsIffDivides(Xor(s, e), g);
    DividesXorIff(g, s, e);
  }

  // ---------- error patterns ----------

  /** All ones of e lie in the w positions from p on. */
  predicate ConfinedTo(e: Bits, p: nat, w: nat) {
    forall i :: 0 <= i < |e| && e[i] ==> p <= i < p + w
  }

  lemma MultipleIsWide(q: Bits, g: Bits, p: nat, w: nat)
    requires ProperGenerator(g) && !AllZero(q) && ConfinedTo(Mul(q, g), p, w)
    ensures w >= |g|
    ensures w == |g| ==> p < |q| && q[p] && (forall j :: 0 <= j < |q| && j != p ==> !q[j])
  {
    var i := FirstOneOf(q);
    MulCoefficientTop(q, g, i);
    var j := LastOneOf(q);
    MulCoefficientBottom(q, g, j);
  }

  /** Every burst within n consecutive positions is reported, wherever it falls. */
  lemma BurstDetected(frame: Bits, e: Bits, g: Bits, p: nat)
    requires ProperGenerator(g) && |e| == |frame| + |g| - 1
    requires ConfinedTo(e, p, |g| - 1) && !AllZero(e)
    ensures !Accepts(Xor(SentFrame(frame, g), e), g)
  {
    VerdictOnErrors(frame, e, g);
    if Divides(g, e) {
      var q: Bits :| |q| == |frame| && Mul(q, g) == e;
      if AllZero(q) {
        AllZeroIsZeros(q);
        MulOfZeros(|q|, g);
      } else {
        MultipleIsWide(q, g, p, |g| - 1);
      }
    }
  }

  lemma ConfinedSplit(e: Bits, p: nat, w: nat)
    requires p + w <= |e| && ConfinedTo(e, p, w)
    ensures e == Zeros(p) + e[p..p + w] + Zeros(|e| - p - w)
  {
  }

  lemma SingleOne(k: nat, l: nat) returns (q: Bits)
    requires k < l
    ensures |q| == l && q[k] && (forall j :: 0 <= j < l && j != k ==> !q[j])
  {
    q := Zeros(k) + [true] + Zeros(l - k - 1);
  }

  lemma ShiftedGenerator(e: Bits, g: Bits, p: nat)
    requires |g| > 0 && p + |g| <= |e| && ConfinedTo(e, p, |g|) && e[p..p + |g|] == g
    ensures Divides(g, e)
  {
    var q := SingleOne(p, |e| - (|g| - 1));
    MulOfSingle(q, g, p);
    ConfinedSplit(e, p, |g|);
  }

  lemma WideMultiple(q: Bits, g: Bits, p: nat)
    requires ProperGenerator(g) && !AllZero(q) && ConfinedTo(Mul(q, g), p, |g|)
    requires p + |g| <= |Mul(q, g)|
    ensures Mul(q, g)[p..p + |g|] == g
  {
    MultipleIsWide(q, g, p, |g|);
    MulOfSingle(q, g, p);
    assert (Zeros(p) + g + Zeros(|q| - 1 - p))[p..p + |g|] == g;
  }

  /** A non-zero error within n positions, from p on, that the receiver does not report. */
  ghost predicate MissedBurst(frame: Bits, g: Bits, e: Bits, p: nat)
    requires |g| > 0
  {
    && |e| == |frame| + |g| - 1
    && ConfinedTo(e, p, |g| - 1) && !AllZero(e)
    && Accepts(Xor(SentFrame(frame, g), e), g)
  }

  lemma MissedWithoutLastOne(frame: Bits, g: Bits) returns (e: Bits)
    requires |g| > 0 && g[0] && !g[|g| - 1] && frame != []
    ensures MissedBurst(frame, g, e, 0)
  {
    e := g + Zeros(|frame| - 1);
    assert e[0] && e[0..|g|] == g;
    ShiftedGenerator(e, g, 0);
    VerdictOnErrors(frame, e, g);
  }

  /**
    What the test of the outer bits is for: among the generators that start with a one, those that
    pass it are exactly those under which every burst within n positions is reported.
   */
  lemma ProperIffBurstsDetected(frame: Bits, g: Bits)
    requires |g| > 0 && g[0] && frame != []
    ensures ProperGenerator(g) <==> forall e: Bits, p: nat :: !MissedBurst(frame, g, e, p)
  {
    if ProperGenerator(g) {
      forall e: Bits, p: nat ensures !MissedBurst(frame, g, e, p) {
        if MissedBurst(frame, g, e, p) {
          BurstDetected(frame, e, g, p);
        }
      }
    } else {
      var e := MissedWithoutLastOne(frame, g);
    }
  }

  /** One position further the bound ends: of the bursts of width n + 1, g itself is the only one missed. */
  lemma WiderBurst(frame: Bits, e: Bits, g: Bits, p: nat)
    requires ProperGenerator(g) && |e| == |frame| + |g| - 1
    requires p + |g| <= |e| && ConfinedTo(e, p, |g|) && !AllZero(e)
    ensures Accepts(Xor(SentFrame(frame, g), e), g) <==> e[p..p + |g|] == g
  {
    VerdictOnErrors(frame, e, g);
    if Divides(g, e) {
      var q: Bits :| |q| == |frame| && Mul(q, g) == e;
      if AllZero(q) {
        AllZeroIsZeros(q);
        MulOfZeros(|q|, g);
      } else {
        WideMultiple(q, g, p);
      }
    }
    if e[p..p + |g|] == g {
      ShiftedGenerator(e, g, p);
    }
  }

  lemma {:induction false} OddOfMul(q: Bits, g: Bits)
    requires |g| > 0
    ensures Odd(Mul(q, g)) == (Odd(q) && Odd(g))
  {
    if q == [] {
      MulOfZeros(0, g);
      OddOfZeros(|g| - 1);
    } else {
      SplitLast(q);
      var p, d := q[..|q| - 1], q[|q| - 1];
      OddOfMul(p, g);
      MulAppend(p, d, g);
      OddOfConcat(Mul(p, g), [false]);
      OddOfConcat(Zeros(|p|), Scale(d, g));
      OddOfZeros(|p|);
      OddOfZeros(|g|);
      OddOfXor(Mul(p, g) + [false], Zeros(|p|) + Scale(d, g));
    }
  }

  lemma OddErrorDetected(frame: Bits, e: Bits, g: Bits)
    requires |g| > 0 && g[0] && |e| == |frame| + |g| - 1
    requires Odd(e) && !Odd(g)
    ensures !Accepts(Xor(SentFrame(frame, g), e), g)
  {
    VerdictOnErrors(frame, e, g);
    if Divides(g, e) {
      var q: Bits :| |q| == |frame| && Mul(q, g) == e;
      OddOfMul(q, g);
    }
  }

  lemma OddErrorMissed(frame: Bits, g: Bits) returns (e: Bits)
    requires |g| > 0 && g[0] && |frame| > 0 && Odd(g)
    ensures |e| == |frame| + |g| - 1 && Odd(e)
    ensures Accepts(Xor(SentFrame(frame, g), e), g)
  {
    var q := [true] + Zeros(|frame| - 1);
    OddOfConcat([true], Zeros(|frame| - 1));
    OddOfZeros(|frame| - 1);
    OddOfMul(q, g);
    e := Mul(q, g);
    VerdictOnErrors(frame, e, g);
  }

  /** All errors of odd weight are reported exactly when the generator has an even number of ones. */
  lemma OddErrorsDetectedIff(frame: Bits, g: Bits)
    requires |g| > 0 && g[0] && |frame| > 0
    ensures !Odd(g) <==> forall e: Bits :: |e| == |frame| + |g| - 1 && Odd(e)
                           ==> !Accepts(Xor(SentFrame(frame, g), e), g)
  {
    if !Odd(g) {
      forall e: Bits | |e| == |frame| + |g| - 1 && Odd(e)
        ensures !Accepts(Xor(SentFrame(frame, g), e), g)
      {
        OddErrorDetected(frame, e, g);
      }
    } else {
      var e := OddErrorMissed(frame, g);
    }
  }

  // ---------- shifting an error pattern ----------

  lemma DropLastZero(q: Bits, g: Bits, e: Bits)
    requires ProperGenerator(g) && |q| > 0 && Mul(q, g) == e + [false]
    ensures Mul(q[..|q| - 1], g) == e
  {
    MulCoefficientBottom(q, g, |q| - 1);
    SplitLast(q);
    MulAppendZero(q[..|q| - 1], g);
    AppendInjective(Mul(q[..|q| - 1], g), e, false);
  }

  lemma DividesAppendZero(g: Bits, e: Bits)
    requires ProperGenerator(g) && |e| >= |g| - 1
    ensures Divides(g, e + [false]) <==> Divides(g, e)
  {
    if Divides(g, e) {
      var q: Bits :| |q| == |e| - (|g| - 1) && Mul(q, g) == e;
      MulAppendZero(q, g);
      var p := q + [false];
      assert Mul(p, g) == e + [false];
    }
    if Divides(g, e + [false]) {
      var q: Bits :| |q| == |e| + 1 - (|g| - 1) && Mul(q, g) == e + [false];
      DropLastZero(q, g, e);
      var p := q[..|q| - 1];
      assert Mul(p, g) == e;
    }
  }

  lemma DropFirstZero(q: Bits, g: Bits, e: Bits)
    requires |g| > 0 && g[0] && |q| > 0 && Mul(q, g) == [false] + e
    ensures Mul(q[1..], g) == e
  {
    MulCoefficientTop(q, g, 0);
    SplitFirst(q);
    MulPrependZero(q[1..], g);
    PrependInjective(Mul(q[1..], g), e, false);
  }

  lemma DividesPrependZero(g: Bits, e: Bits)
    requires |g| > 0 && g[0] && |e| >= |g| - 1
    ensures Divides(g, [false] + e) <==> Divides(g, e)
  {
    if Divides(g, e) {
      var q: Bits :| |q| == |e| - (|g| - 1) && Mul(q, g) == e;
      MulPrependZero(q, g);
      var p := [false] + q;
      assert Mul(p, g) == [false] + e;
    }
    if Divides(g, [false] + e) {
      var q: Bits :| |q| == |e| + 1 - (|g| - 1) && Mul(q, g) == [false] + e;
      assert q != [];
      DropFirstZero(q, g, e);
      var p := q[1..];
      assert Mul(p, g) == e;
    }
  }

  lemma {:induction false} ZerosAfter(g: Bits, b: Bits, k: nat)
    requires ProperGenerator(g) && |b| >= |g| - 1
    ensures Divides(g, b + Zeros(k)) <==> Divides(g, b)
  {
    if k == 0 {
      assert b + Zeros(0) == b;
    } else {
      ZerosAppend(k - 1);
      assert b + Zeros(k) == b + Zeros(k - 1) + [false];
      DividesAppendZero(g, b + Zeros(k - 1));
      ZerosAfter(g, b, k - 1);
    }
  }

  lemma {:induction false} ZerosAhead(g: Bits, b: Bits, k: nat)
    requires |g| > 0 && g[0] && |b| >= |g| - 1
    ensures Divides(g, Zeros(k) + b) <==> Divides(g, b)
  {
    if k == 0 {
      assert Zeros(0) + b == b;
    } else {
      ZerosAppend(k - 1);
      assert Zeros(k) + b == [false] + (Zeros(k - 1) + b);
      DividesPrependZero(g, Zeros(k - 1) + b);
      ZerosAhead(g, b, k - 1);
    }
  }

  /** Whether a burst is noticed depends on its shape only, not on where in a frame it falls. */
  lemma PositionIndependence(g: Bits, b: Bits, before: nat, after: nat)
    requires ProperGenerator(g) && |b| >= |g| - 1
    ensures Divides(g, Zeros(before) + b + Zeros(after)) <==> Divides(g, b)
  {
    ZerosAfter(g, Zeros(before) + b, after);
    ZerosAhead(g, b, before);
  }

  /** Below the degree of g the only multiple is zero. */
  lemma ShortMultiple(g: Bits, f: Bits)
    requires |g| > 0 && |f| < |g|
    ensures MultipleOf(g, f) <==> AllZero(f)
  {
    MulOfZeros(0, g);
    if |f| == |g| - 1 {
      if Divides(g, f) {
        var q: Bits :| |q| == 0 && Mul(q, g) == f;
        assert q == Zeros(0);
      }
      if AllZero(f) {
        AllZeroIsZeros(f);
        assert Mul(Zeros(0), g) == f;
      }
    }
  }

  /** Leading zeros do not change the polynomial, and MultipleOf does not depend on them. */
  lemma MultipleOfWithLeadingZeros(g: Bits, f: Bits, k: nat)
    requires |g| > 0 && g[0]
    ensures MultipleOf(g, Zeros(k) + f) <==> MultipleOf(g, f)
  {
    var h := Zeros(k) + f;
    if |f| >= |g| - 1 {
      ZerosAhead(g, f, k);
    } else {
      var n := |g| - 1;
      ShortMultiple(g, f);
      var j := if |h| < n then k else n - |f|;
      var e := Zeros(j) + f;
      ShortMultiple(g, e);
      assert AllZero(e) <==> AllZero(f) by {
        assert forall i :: 0 <= i < |f| ==> f[i] == e[j + i];
      }
      ZerosJoin(k - j, j);
      assert h == Zeros(k - j) + e;
      if |h| >= n {
        ZerosAhead(g, e, k - j);
      }
    }
  }

  /** x^d + 1 */
  function TwoOnes(d: nat): (b: Bits)
    requires d > 0
    ensures |b| == d + 1
  {
    [true] + Zeros(d - 1) + [true]
  }

  /** An error in two bits at distance d goes unnoticed exactly when d >= n and g divides x^d + 1. */
  lemma DoubleErrorDetectedIff(frame: Bits, g: Bits, i: nat, j: nat)
    requires ProperGenerator(g) && i < j < |frame| + |g| - 1
    ensures var e := Zeros(i) + TwoOnes(j - i) + Zeros(|frame| + |g| - 2 - j);
            Accepts(Xor(SentFrame(frame, g), e), g) <==> (j - i >= |g| - 1 && Divides(g, TwoOnes(j - i)))
  {
    var d := j - i;
    var after := |frame| + |g| - 2 - j;
    var e := Zeros(i) + TwoOnes(d) + Zeros(after);
    VerdictOnErrors(frame, e, g);
    if d >= |g| - 1 {
      PositionIndependence(g, TwoOnes(d), i, after);
    } else {
      assert e[i];
      BurstDetected(frame, e, g, i);
    }
  }
}
