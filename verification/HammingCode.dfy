/**
  The code behind hamming.cpp. A frame is a sequence whose positions 1 to l are used; position
  i belongs to the parity group of every s for which digit s of i is a one.
 */
module HammingCode {
  import opened BinaryNumbers

  /** What the program counts for group s: the ones at positions of that group. */
  function Count(f: seq<int>, l: nat, s: nat): (n: nat)
    requires l < |f|
  {
    if l == 0 then 0
    else Count(f, l - 1, s) + (if Bit(l, s) && f[l] == 1 then 1 else 0)
  }

  /** The exclusive or of all positions that hold a one. */
  function Syndrome(f: seq<int>, l: nat): (p: nat)
    requires l < |f|
  {
    if l == 0 then 0
    else if f[l] == 1 then NatXor(Syndrome(f, l - 1), l)
    else Syndrome(f, l - 1)
  }

  ghost predicate Binary(f: seq<int>, l: nat) {
    l < |f| && forall i :: 1 <= i <= l ==> f[i] == 0 || f[i] == 1
  }

  lemma {:induction false} CountAgrees(f: seq<int>, g: seq<int>, l: nat, s: nat)
    requires l < |f| && l < |g|
    requires forall i :: 1 <= i <= l && Bit(i, s) ==> (f[i] == 1 <==> g[i] == 1)
    ensures Count(f, l, s) == Count(g, l, s)
  {
    if l > 0 {
      CountAgrees(f, g, l - 1, s);
    }
  }

  lemma {:induction false} CountWithOneChange(f: seq<int>, g: seq<int>, l: nat, s: nat, p: nat)
    requires l < |f| && l < |g| && 1 <= p <= l && Bit(p, s) && f[p] != 1
    requires forall i :: 1 <= i <= l && i != p && Bit(i, s) ==> (f[i] == 1 <==> g[i] == 1)
    ensures Count(g, l, s) == Count(f, l, s) + (if g[p] == 1 then 1 else 0)
  {
    if l == p {
      CountAgrees(f, g, l - 1, s);
    } else {
      CountWithOneChange(f, g, l - 1, s, p);
    }
  }

  lemma {:induction false} CountOfEmptyGroup(f: seq<int>, l: nat, s: nat)
    requires l < |f| && l < Pow2(s)
    ensures Count(f, l, s) == 0
  {
    if l > 0 {
      BitSmall(l, s, s);
      CountOfEmptyGroup(f, l - 1, s);
    }
  }

  lemma {:induction false} SyndromeAgrees(f: seq<int>, g: seq<int>, l: nat)
    requires l < |f| && l < |g|
    requires forall i :: 1 <= i <= l ==> (f[i] == 1 <==> g[i] == 1)
    ensures Syndrome(f, l) == Syndrome(g, l)
  {
    if l > 0 {
      SyndromeAgrees(f, g, l - 1);
    }
  }

  lemma {:induction false} SyndromeBound(f: seq<int>, l: nat, w: nat)
    requires l < |f| && l < Pow2(w)
    ensures Syndrome(f, l) < Pow2(w)
  {
    if l > 0 {
      SyndromeBound(f, l - 1, w);
      NatXorBound(Syndrome(f, l - 1), l, w);
    }
  }

  lemma ParityOfNext(n: nat)
    ensures (n + 1) % 2 == 1 <==> n % 2 != 1
  {
  }

  /** The parity of group s is digit s of the syndrome. */
  lemma {:induction false} SyndromeDigit(f: seq<int>, l: nat, s: nat)
    requires l < |f|
    ensures Bit(Syndrome(f, l), s) <==> Count(f, l, s) % 2 == 1
  {
    if l == 0 {
      BitSmall(0, s, 0);
    } else {
      SyndromeDigit(f, l - 1, s);
      if f[l] == 1 {
        BitOfNatXor(Syndrome(f, l - 1), l, s);
        ParityOfNext(Count(f, l - 1, s));
      }
    }
  }

  ghost predicate AllGroupsEven(f: seq<int>, l: nat)
    requires l < |f|
  {
    forall s: nat :: Pow2(s) <= l ==> Count(f, l, s) % 2 == 0
  }

  lemma EvenGroupsZeroSyndrome(f: seq<int>, l: nat)
    requires l < |f| && AllGroupsEven(f, l)
    ensures Syndrome(f, l) == 0
  {
    forall s: nat ensures Bit(Syndrome(f, l), s) == Bit(0, s) {
      SyndromeDigit(f, l, s);
      BitSmall(0, s, 0);
      if l < Pow2(s) {
        CountOfEmptyGroup(f, l, s);
      }
    }
    SameDigits(Syndrome(f, l), 0);
  }

  /** All groups are even exactly when the syndrome is zero. */
  lemma ZeroSyndromeIff(f: seq<int>, l: nat)
    requires l < |f|
    ensures Syndrome(f, l) == 0 <==> AllGroupsEven(f, l)
  {
    if AllGroupsEven(f, l) {
      EvenGroupsZeroSyndrome(f, l);
    }
    if Syndrome(f, l) == 0 {
      forall s: nat | Pow2(s) <= l ensures Count(f, l, s) % 2 == 0 {
        SyndromeDigit(f, l, s);
        BitSmall(0, s, 0);
      }
    }
  }

  /** Adding up the weights of the odd groups, as the program does for ep. */
  function WeightedParities(f: seq<int>, l: nat, w: nat): (n: nat)
    requires l < |f|
  {
    if w == 0 then 0
    else WeightedParities(f, l, w - 1) + (if Count(f, l, w - 1) % 2 == 1 then Pow2(w - 1) else 0)
  }

  lemma {:induction false} ParitiesAreDigits(f: seq<int>, l: nat, w: nat)
    requires l < |f|
    ensures WeightedParities(f, l, w) == WeightedDigits(Syndrome(f, l), w)
  {
    if w > 0 {
      ParitiesAreDigits(f, l, w - 1);
      SyndromeDigit(f, l, w - 1);
    }
  }

  /** The computed error position is the syndrome, for every frame whatsoever. */
  lemma PositionIsSyndrome(f: seq<int>, l: nat, w: nat)
    requires l < |f| && l < Pow2(w)
    ensures WeightedParities(f, l, w) == Syndrome(f, l)
  {
    ParitiesAreDigits(f, l, w);
    SyndromeBound(f, l, w);
    SumOfDigits(Syndrome(f, l), w);
  }

  // ---------- errors ----------

  /** The change that the program announces: a one becomes a zero, anything else a one. */
  function Flip(f: seq<int>, e: nat): (g: seq<int>)
    requires e < |f|
    ensures |g| == |f|
  {
    f[e := if f[e] == 1 then 0 else 1]
  }

  lemma XorBack(a: nat, b: nat)
    ensures NatXor(NatXor(a, b), b) == a
  {
    NatXorAssociative(a, b, b);
    NatXorZeroIff(b, b);
  }

  lemma XorSwap(a: nat, b: nat, c: nat)
    ensures NatXor(NatXor(a, b), c) == NatXor(NatXor(a, c), b)
  {
    NatXorAssociative(a, b, c);
    NatXorAssociative(a, c, b);
    NatXorCommutes(b, c);
  }

  lemma {:induction false} SyndromeOfFlip(f: seq<int>, l: nat, e: nat)
    requires 1 <= e <= l < |f|
    ensures Syndrome(Flip(f, e), l) == NatXor(Syndrome(f, l), e)
  {
    var g := Flip(f, e);
    if l == e {
      SyndromeAgrees(f, g, l - 1);
      XorBack(Syndrome(f, l - 1), e);
    } else {
      SyndromeOfFlip(f, l - 1, e);
      XorSwap(Syndrome(f, l - 1), l, e);
    }
  }

  /** A codeword: bits with even parity in every group. */
  ghost predicate IsCodeword(f: seq<int>, l: nat) {
    Binary(f, l) && AllGroupsEven(f, l)
  }

  /** One flipped bit is located exactly, and flipping it again restores the frame. */
  lemma SingleErrorLocated(f: seq<int>, l: nat, e: nat)
    requires IsCodeword(f, l) && 1 <= e <= l
    ensures Syndrome(Flip(f, e), l) == e
    ensures Flip(Flip(f, e), Syndrome(Flip(f, e), l)) == f
  {
    ZeroSyndromeIff(f, l);
    SyndromeOfFlip(f, l, e);
  }

  /** f with the bits at all positions of e flipped. */
  function FlipAll(f: seq<int>, e: set<nat>): (g: seq<int>)
    ensures |g| == |f|
    ensures forall i :: 0 <= i < |f| ==> g[i] == if i in e then (if f[i] == 1 then 0 else 1) else f[i]
  {
    seq(|f|, i requires 0 <= i < |f| => if i in e then (if f[i] == 1 then 0 else 1) else f[i])
  }

  /** The exclusive or of the positions up to l that are in e. */
  function XorOf(e: set<nat>, l: nat): (p: nat) {
    if l == 0 then 0
    else if l in e then NatXor(XorOf(e, l - 1), l)
    else XorOf(e, l - 1)
  }

  lemma XorCancels(a: nat, b: nat, c: nat)
    ensures NatXor(NatXor(a, c), NatXor(b, c)) == NatXor(a, b)
  {
    NatXorCommutes(b, c);
    NatXorAssociative(NatXor(a, c), c, b);
    XorBack(a, c);
  }

  lemma {:induction false} SyndromeOfFlips(f: seq<int>, l: nat, e: set<nat>)
    requires l < |f|
    ensures Syndrome(FlipAll(f, e), l) == NatXor(Syndrome(f, l), XorOf(e, l))
  {
    if l > 0 {
      SyndromeOfFlips(f, l - 1, e);
      var a, b := Syndrome(f, l - 1), XorOf(e, l - 1);
      if l in e && f[l] == 1 {
        XorCancels(a, b, l);
      } else if l in e {
        NatXorAssociative(a, b, l);
      } else {
        XorSwap(a, b, l);
      }
    }
  }

  /**
    Any number of errors: ep is the exclusive or of the flipped positions. They go unnoticed
    exactly when that is 0, and then they lead to another codeword.
   */
  lemma ErrorsLocated(f: seq<int>, l: nat, e: set<nat>)
    requires IsCodeword(f, l)
    ensures Syndrome(FlipAll(f, e), l) == XorOf(e, l)
    ensures IsCodeword(FlipAll(f, e), l) <==> XorOf(e, l) == 0
  {
    ZeroSyndromeIff(f, l);
    SyndromeOfFlips(f, l, e);
    ZeroSyndromeIff(FlipAll(f, e), l);
  }

  /** Two flipped bits are always noticed, and never located: ep names neither of them. */
  lemma DoubleErrorNoticed(f: seq<int>, l: nat, e1: nat, e2: nat)
    requires IsCodeword(f, l) && 1 <= e1 <= l && 1 <= e2 <= l && e1 != e2
    ensures Syndrome(Flip(Flip(f, e1), e2), l) !in {0, e1, e2}
  {
    ZeroSyndromeIff(f, l);
    SyndromeOfFlip(f, l, e1);
    SyndromeOfFlip(Flip(f, e1), l, e2);
    NatXorZeroIff(e1, e2);
    var ep := NatXor(e1, e2);
    NatXorCommutes(e1, e2);
    XorBack(e1, e2);
    XorBack(e2, e1);
    NatXorZeroIff(ep, e1);
    NatXorZeroIff(ep, e2);
  }

  /**
    Line 186 assigns where it should compare, so the bit is always set to zero. The error is
    then located exactly when the bit had been a one; otherwise nothing changes and ep is 0.
   */
  lemma ClearedBitLocatedIff(f: seq<int>, l: nat, e: nat)
    requires IsCodeword(f, l) && 1 <= e <= l
    ensures Syndrome(f[e := 0], l) == e <==> f[e] == 1
    ensures Syndrome(f[e := 0], l) == 0 <==> f[e] == 0
  {
    ZeroSyndromeIff(f, l);
    if f[e] == 1 {
      SingleErrorLocated(f, l, e);
    } else {
      SyndromeAgrees(f, f[e := 0], l);
    }
  }

  /** Position 3 of the frame for the data bit 0 is announced as changed, but ep is 0. */
  lemma ClearedZeroIsMissed()
    ensures var f := [-1, 0, 0, 0];
            IsCodeword(f, 3) && Syndrome(Flip(f, 3), 3) == 3 && Syndrome(f[3 := 0], 3) == 0
  {
    var f := [-1, 0, 0, 0];
    assert Syndrome(f, 1) == 0 && Syndrome(f, 2) == 0 && Syndrome(f, 3) == 0;
    ZeroSyndromeIff(f, 3);
    SingleErrorLocated(f, 3, 3);
    ClearedBitLocatedIff(f, 3, 3);
  }

  ghost function Differences(f: seq<int>, g: seq<int>, l: nat): (d: set<int>)
    requires l < |f| && l < |g|
  {
    set i | 1 <= i <= l && f[i] != g[i]
  }

  lemma NotOneDifference(f: seq<int>, g: seq<int>, l: nat, e: nat)
    requires IsCodeword(f, l) && IsCodeword(g, l) && 1 <= e <= l
    requires forall i :: 1 <= i <= l && i != e ==> f[i] == g[i]
    ensures f[e] == g[e]
  {
    ZeroSyndromeIff(g, l);
    if f[e] != g[e] {
      SingleErrorLocated(f, l, e);
      SyndromeAgrees(Flip(f, e), g, l);
    }
  }

  lemma NotTwoDifferences(f: seq<int>, g: seq<int>, l: nat, e1: nat, e2: nat)
    requires IsCodeword(f, l) && IsCodeword(g, l) && 1 <= e1 <= l && 1 <= e2 <= l && e1 != e2
    requires forall i :: 1 <= i <= l && i != e1 && i != e2 ==> f[i] == g[i]
    ensures f[e1] == g[e1] || f[e2] == g[e2]
  {
    ZeroSyndromeIff(g, l);
    if f[e1] != g[e1] && f[e2] != g[e2] {
      DoubleErrorNoticed(f, l, e1, e2);
      SyndromeAgrees(Flip(Flip(f, e1), e2), g, l);
    }
  }

  /** Codewords that are not the same differ in at least three positions. */
  lemma MinimumDistance(f: seq<int>, g: seq<int>, l: nat)
    requires IsCodeword(f, l) && IsCodeword(g, l)
    requires exists i :: 1 <= i <= l && f[i] != g[i]
    ensures |Differences(f, g, l)| >= 3
  {
    var d := Differences(f, g, l);
    assert forall i :: 1 <= i <= l && i !in d ==> f[i] == g[i];
    var e1 :| 1 <= e1 <= l && f[e1] != g[e1];
    if d == {e1} {
      NotOneDifference(f, g, l, e1);
    } else {
      var e2 :| e2 in d && e2 != e1;
      if d == {e1, e2} {
        NotTwoDifferences(f, g, l, e1, e2);
      } else {
        var e3 :| e3 in d && e3 != e1 && e3 != e2;
        assert {e1, e2, e3} <= d;
        assert |d| == |{e1, e2, e3}| + |d - {e1, e2, e3}|;
      }
    }
  }

  lemma {:induction false} FirstThreeCancel(l: nat)
    requires l >= 3
    ensures XorOf({1, 2, 3}, l) == 0
  {
    if l == 3 {
      assert XorOf({1, 2, 3}, 1) == 1;
      assert XorOf({1, 2, 3}, 2) == NatXor(1, 2) == 3;
      NatXorZeroIff(3, 3);
    } else {
      FirstThreeCancel(l - 1);
    }
  }

  /** Distance three is attained: flipping the first three positions of a codeword gives another. */
  lemma DistanceAttained(f: seq<int>, l: nat)
    requires IsCodeword(f, l) && l >= 3
    ensures IsCodeword(FlipAll(f, {1, 2, 3}), l)
    ensures Differences(f, FlipAll(f, {1, 2, 3}), l) == {1, 2, 3}
  {
    FirstThreeCancel(l);
    ErrorsLocated(f, l, {1, 2, 3});
  }

  /** For every received frame, the one single flip that makes it a codeword is that at ep. */
  lemma CorrectionUnique(f: seq<int>, l: nat, e: nat)
    requires Binary(f, l) && 1 <= e <= l
    ensures IsCodeword(Flip(f, e), l) <==> e == Syndrome(f, l)
  {
    SyndromeOfFlip(f, l, e);
    NatXorZeroIff(Syndrome(f, l), e);
    ZeroSyndromeIff(Flip(f, e), l);
  }

  // ---------- data and check positions ----------

  /** The bits at the positions that are no power of two, in order. */
  function DataBits(f: seq<int>, l: nat): (data: seq<int>)
    requires l < |f|
  {
    if l == 0 then []
    else DataBits(f, l - 1) + (if IsPow2(l) then [] else [f[l]])
  }

  lemma {:induction false} DataBitsCount(f: seq<int>, l: nat, s: nat)
    requires Pow2(s) <= l < Pow2(s + 1) && l < |f|
    ensures |DataBits(f, l)| == l - s - 1
    decreases l
  {
    if l == Pow2(s) {
      Pow2IsPow2(s);
      if s > 0 {
        DataBitsCount(f, l - 1, s - 1);
      }
    } else {
      NextPower(l, s + 1);
      DataBitsCount(f, l - 1, s);
    }
  }

  lemma {:induction false} DataBitsAt(f: seq<int>, l: nat, i: nat, s: nat)
    requires Pow2(s) < i < Pow2(s + 1) && i <= l < |f|
    ensures 0 <= i - s - 2 < |DataBits(f, l)| && DataBits(f, l)[i - s - 2] == f[i]
    decreases l
  {
    if i == l {
      NextPower(l, s + 1);
      DataBitsCount(f, l - 1, s);
    } else {
      DataBitsAt(f, l - 1, i, s);
    }
  }

  /** If i lies between the check positions 2^s and 2^(s+1), f[i] is data bit i - s - 2. */
  ghost predicate HoldsBit(f: seq<int>, data: seq<int>, s: nat, i: nat)
    requires i < |f|
  {
    Pow2(s) < i < Pow2(s + 1) ==> 0 <= i - s - 2 < |data| && f[i] == data[i - s - 2]
  }

  /** The data stands in order between the check positions. */
  ghost predicate InOrder(f: seq<int>, l: nat, data: seq<int>)
    requires l < |f|
  {
    forall i: nat, s: nat :: i <= l ==> HoldsBit(f, data, s, i)
  }

  lemma DataInOrder(f: seq<int>, l: nat)
    requires l < |f|
    ensures InOrder(f, l, DataBits(f, l))
  {
    forall i: nat, s: nat | i <= l ensures HoldsBit(f, DataBits(f, l), s, i) {
      if Pow2(s) < i < Pow2(s + 1) {
        DataBitsAt(f, l, i, s);
      }
    }
  }

  lemma {:induction false} DataBitsAgree(f: seq<int>, g: seq<int>, l: nat)
    requires l < |f| && l < |g|
    requires forall i :: 1 <= i <= l && !IsPow2(i) ==> f[i] == g[i]
    ensures DataBits(f, l) == DataBits(g, l)
  {
    if l > 0 {
      DataBitsAgree(f, g, l - 1);
    }
  }

  /** What the placement loop produces: data between check positions that are marked by -1. */
  ghost predicate Placed(f: seq<int>, l: nat, data: seq<int>, checks: nat) {
    && l < |f|
    && l == |data| + checks
    && (data == [] ==> checks == 0)
    && (data != [] ==> checks > 0 && Pow2(checks - 1) < l)
    && l < Pow2(checks)
    && (forall i :: 1 <= i <= l ==> (f[i] == -1 <==> IsPow2(i)))
    && DataBits(f, l) == data
  }

  lemma {:induction false} BoundGrows(m: nat, r: nat, t: nat)
    requires r <= t && Pow2(r) >= m + r + 1
    ensures Pow2(t) >= m + t + 1
    decreases t
  {
    if r < t {
      BoundGrows(m, r, t - 1);
    }
  }

  /** No smaller number of check bits satisfies the Hamming bound, and every larger one does. */
  lemma FewestCheckBits(f: seq<int>, l: nat, data: seq<int>, checks: nat, r: nat)
    requires Placed(f, l, data, checks)
    ensures Pow2(r) >= |data| + r + 1 <==> r >= checks
  {
    if r >= checks {
      BoundGrows(|data|, checks, r);
    } else {
      if Pow2(r) >= |data| + r + 1 {
        BoundGrows(|data|, r, checks - 1);
      }
    }
  }

  /** The frame after a pass over its check positions: each holds the parity that was counted. */
  function Encoded(f: seq<int>, l: nat): (g: seq<int>)
    requires l < |f|
    ensures |g| == |f|
  {
    seq(|f|, i requires 0 <= i < |f| =>
      if 1 <= i <= l && IsPow2(i) then Count(f, l, TopBit(i)) % 2 else f[i])
  }

  ghost predicate IsEncodingOf(f: seq<int>, l: nat, data: seq<int>) {
    IsCodeword(f, l) && DataBits(f, l) == data
  }

  lemma {:induction false} DataBitsAreBits(f: seq<int>, l: nat, i: nat)
    requires 1 <= i <= l < |f| && !IsPow2(i)
    ensures f[i] in DataBits(f, l)
  {
    if i < l {
      DataBitsAreBits(f, l - 1, i);
    }
  }

  lemma OneCheckPerGroup(i: nat, s: nat)
    requires i > 0 && IsPow2(i) && Bit(i, s)
    ensures i == Pow2(s)
  {
    TopBitBounds(i);
    BitsOfPow2(TopBit(i), s);
  }

  /** Counting a group is not disturbed by what other check positions hold. */
  lemma CountIgnoresOtherChecks(f: seq<int>, g: seq<int>, l: nat, s: nat)
    requires l < |f| && l < |g|
    requires forall i :: 1 <= i <= l && (!IsPow2(i) || i == Pow2(s)) ==> f[i] == g[i]
    ensures Count(f, l, s) == Count(g, l, s)
  {
    forall i | 1 <= i <= l && Bit(i, s) ensures f[i] == g[i] {
      if IsPow2(i) {
        OneCheckPerGroup(i, s);
      }
    }
    CountAgrees(f, g, l, s);
  }

  lemma ParityFilled(n: nat)
    ensures (n + (if n % 2 == 1 then 1 else 0)) % 2 == 0
  {
  }

  lemma FillingOne(f: seq<int>, g: seq<int>, l: nat, s: nat, p: nat)
    requires l < |f| && l < |g| && 1 <= p <= l && Bit(p, s) && f[p] != 1
    requires g[p] == Count(f, l, s) % 2
    requires forall i :: 1 <= i <= l && i != p && Bit(i, s) ==> (f[i] == 1 <==> g[i] == 1)
    ensures Count(g, l, s) % 2 == 0
  {
    CountWithOneChange(f, g, l, s, p);
    ParityFilled(Count(f, l, s));
  }

  lemma EncodedParity(f: seq<int>, l: nat, data: seq<int>, checks: nat, s: nat)
    requires Placed(f, l, data, checks) && Pow2(s) <= l
    ensures Count(Encoded(f, l), l, s) % 2 == 0
  {
    var g, p := Encoded(f, l), Pow2(s);
    Pow2IsPow2(s);
    BitsOfPow2(s, s);
    forall i | 1 <= i <= l && i != p && Bit(i, s)
      ensures f[i] == 1 <==> g[i] == 1
    {
      if IsPow2(i) {
        OneCheckPerGroup(i, s);
      }
    }
    FillingOne(f, g, l, s, p);
  }

  /** The parity fill turns a placed frame into a codeword that still spells the data. */
  lemma EncodingCorrect(f: seq<int>, l: nat, data: seq<int>, checks: nat)
    requires Placed(f, l, data, checks)
    requires forall i :: 0 <= i < |data| ==> data[i] == 0 || data[i] == 1
    ensures IsEncodingOf(Encoded(f, l), l, data)
  {
    var g := Encoded(f, l);
    forall i | 1 <= i <= l ensures g[i] == 0 || g[i] == 1 {
      if !IsPow2(i) {
        DataBitsAreBits(f, l, i);
      }
    }
    forall s: nat | Pow2(s) <= l ensures Count(g, l, s) % 2 == 0 {
      EncodedParity(f, l, data, checks, s);
    }
    DataBitsAgree(f, g, l);
  }

  /** Frames for different data of one length are at least three bits apart. */
  lemma EncodingsFarApart(f: seq<int>, g: seq<int>, l: nat, x: seq<int>, y: seq<int>)
    requires IsEncodingOf(f, l, x) && IsEncodingOf(g, l, y) && x != y
    ensures |Differences(f, g, l)| >= 3
  {
    if forall i :: 1 <= i <= l ==> f[i] == g[i] {
      DataBitsAgree(f, g, l);
    }
    MinimumDistance(f, g, l);
  }

  lemma {:induction false} DataLength(f: seq<int>, g: seq<int>, l: nat)
    requires l < |f| && l < |g|
    ensures |DataBits(f, l)| == |DataBits(g, l)|
  {
    if l > 0 {
      DataLength(f, g, l - 1);
    }
  }

  lemma {:induction false} DataPositionsAgree(f: seq<int>, g: seq<int>, l: nat)
    requires l < |f| && l < |g| && DataBits(f, l) == DataBits(g, l)
    ensures forall i :: 1 <= i <= l && !IsPow2(i) ==> f[i] == g[i]
  {
    if l > 0 {
      DataLength(f, g, l - 1);
      var k := |DataBits(f, l - 1)|;
      assert DataBits(f, l)[..k] == DataBits(f, l - 1) && DataBits(g, l)[..k] == DataBits(g, l - 1);
      DataPositionsAgree(f, g, l - 1);
      if !IsPow2(l) {
        assert DataBits(f, l)[k] == f[l] && DataBits(g, l)[k] == g[l];
      }
    }
  }

  lemma CheckPositionAgrees(f: seq<int>, g: seq<int>, l: nat, p: nat)
    requires IsCodeword(f, l) && IsCodeword(g, l) && 1 <= p <= l && IsPow2(p)
    requires forall i :: 1 <= i <= l && !IsPow2(i) ==> f[i] == g[i]
    ensures f[p] == g[p]
  {
    var s := TopBit(p);
    TopBitBounds(p);
    BitsOfPow2(s, s);
    forall i | 1 <= i <= l && i != p && Bit(i, s)
      ensures f[i] == g[i]
    {
      if IsPow2(i) {
        OneCheckPerGroup(i, s);
      }
    }
    if f[p] != 1 {
      CountWithOneChange(f, g, l, s, p);
    } else if g[p] != 1 {
      CountWithOneChange(g, f, l, s, p);
    }
    assert Count(f, l, s) % 2 == 0 && Count(g, l, s) % 2 == 0;
  }

  /** The data determines the frame: there is no other codeword that spells it. */
  lemma EncodingUnique(f: seq<int>, g: seq<int>, l: nat, data: seq<int>)
    requires IsEncodingOf(f, l, data) && IsEncodingOf(g, l, data)
    ensures forall i :: 1 <= i <= l ==> f[i] == g[i]
  {
    DataPositionsAgree(f, g, l);
    forall i | 1 <= i <= l && IsPow2(i) ensures f[i] == g[i] {
      CheckPositionAgrees(f, g, l, i);
    }
  }
}
