/** The loops of hamming.cpp, on arrays as long as the frame needs. */
module HammingProgram {
  import opened BinaryNumbers
  import opened HammingCode
  import opened Sequences

  ghost predicate MarksChecks(f: seq<int>, l: nat) {
    l < |f| && forall p :: 1 <= p <= l ==> (f[p] == -1 <==> IsPow2(p))
  }

  lemma MarkOne(f: seq<int>, l: nat, x: int)
    requires MarksChecks(f, l) && l + 1 < |f| && (x == -1 <==> IsPow2(l + 1))
    ensures MarksChecks(f[l + 1 := x], l + 1)
  {
  }

  lemma DataOne(f: seq<int>, l: nat, x: int)
    requires l + 1 < |f|
    ensures DataBits(f[l + 1 := x], l + 1) == DataBits(f, l) + (if IsPow2(l + 1) then [] else [x])
  {
    DataBitsAgree(f, f[l + 1 := x], l);
  }

  /** The state of the placement loop when positions 1 to l have been filled. */
  ghost predicate PlacedSoFar(f: seq<int>, l: nat, data: seq<int>, nrb: nat) {
    && l < |f|
    && l == |data| + nrb
    && l < Pow2(nrb)
    && (if nrb == 0 then l == 0 else Pow2(nrb - 1) <= l)
    && MarksChecks(f, l)
    && DataBits(f, l) == data
  }

  lemma PlaceMark(f: seq<int>, l: nat, data: seq<int>, nrb: nat)
    requires PlacedSoFar(f, l, data, nrb) && l + 1 < |f| && l + 1 == Pow2(nrb)
    ensures PlacedSoFar(f[l + 1 := -1], l + 1, data, nrb + 1)
  {
    NextPower(l + 1, nrb);
    MarkOne(f, l, -1);
    DataOne(f, l, -1);
    assert data + [] == data;
  }

  lemma PlaceData(f: seq<int>, l: nat, data: seq<int>, nrb: nat, d: int)
    requires PlacedSoFar(f, l, data, nrb) && l + 1 < |f| && l + 1 != Pow2(nrb)
    requires d == 0 || d == 1
    ensures PlacedSoFar(f[l + 1 := d], l + 1, data + [d], nrb)
    ensures nrb > 0 && Pow2(nrb - 1) < l + 1
  {
    NextPower(l + 1, nrb);
    MarkOne(f, l, d);
    DataOne(f, l, d);
  }

  lemma RoomFor(j: nat, nrb: nat, l: nat)
    requires l == j + nrb && (nrb > 0 ==> Pow2(nrb - 1) <= l)
    ensures l <= 2 * j + 2
  {
    if nrb > 0 {
      TwiceBelowPower(nrb);
    }
  }

  lemma PlaceDone(f: seq<int>, l: nat, data: seq<int>, nrb: nat)
    requires PlacedSoFar(f, l, data, nrb)
    requires if data == [] then nrb == 0 else nrb > 0 && Pow2(nrb - 1) < l
    ensures Placed(f, l, data, nrb)
  {
  }

  /** Lines 42-66: spreads the data over the positions that are no power of two. */
  method Place(db: array<int>) returns (df: array<int>, l: nat, nrb: nat, k: nat)
    requires forall j :: 0 <= j < db.Length ==> db[j] == 0 || db[j] == 1
    ensures fresh(df)
    ensures Placed(df[..], l, db[..], nrb)
    ensures k == Pow2(nrb)
  {
    var m := db.Length;
    ghost var data := db[..];
    df := new int[2 * m + 2];
    nrb, l, k := 0, 0, 1;
    var i, j := 1, 0;
    ghost var f, placed := df[..], [];
    while j < m
      invariant 0 <= j <= m && i == l + 1 && k == Pow2(nrb) && fresh(df)
      invariant f == df[..] && placed == data[..j] && PlacedSoFar(f, l, placed, nrb)
      invariant if m == 0 then nrb == 0 else j == m ==> nrb > 0 && Pow2(nrb - 1) < l
      decreases 2 * m + 2 - i
    {
      RoomFor(j, nrb, l);
      if i == k {
        PlaceMark(f, l, placed, nrb);
        df[i] := -1;
        f := f[i := -1];
        k := k * 2;
        nrb := nrb + 1;
      } else {
        PlaceData(f, l, placed, nrb, db[j]);
        TakeOneMore(data, j);
        df[i] := db[j];
        f := f[i := db[j]];
        placed := placed + [db[j]];
        j := j + 1;
      }
      l := l + 1;
      i := i + 1;
    }
    assert data[..j] == data == db[..];
    PlaceDone(f, l, placed, nrb);
  }

  /** Lines 88-103: the digit that is a one in a power of two. */
  method PositionOfOne(i1: nat) returns (i4: int)
    requires i1 > 0
    ensures i4 == TopBit(i1)
  {
    i4 := -1;
    var i7 := i1;
    while i7 > 0
      invariant i7 > 0 && TopBit(i1) == i4 + 1 + TopBit(i7)
    {
      i4 := i4 + 1;
      if i7 == 1 {
        break;
      } else {
        i7 := i7 / 2;
      }
    }
  }

  lemma {:induction false} NoDigitAbove(i: nat, s: nat, t: nat)
    requires Halved(i, s) == 1 && s < t
    ensures Halved(i, t) == 0
    decreases t
  {
    if s + 1 < t {
      NoDigitAbove(i, s, t - 1);
    }
  }

  /** Lines 110-136: the binary digits of a position, lowest first, with -1 above the highest one. */
  method Digits(i2: nat, a1: array<int>)
    requires 0 < i2 < Pow2(a1.Length)
    modifies a1
    ensures forall t :: 0 <= t < a1.Length ==> (a1[t] == 1 <==> Bit(i2, t)) && (a1[t] == -1 <==> t > TopBit(i2))
    ensures forall t :: 0 <= t < a1.Length ==> a1[t] in {-1, 0, 1}
  {
    for i6 := 0 to a1.Length
      invariant forall t :: 0 <= t < i6 ==> a1[t] == -1
    {
      a1[i6] := -1;
    }
    var i7, i6 := i2, 0;
    while i7 > 0
      invariant i6 <= a1.Length && 0 < i7 == Halved(i2, i6) && i7 < Pow2(a1.Length - i6)
      invariant TopBit(i2) == i6 + TopBit(i7)
      invariant forall t :: 0 <= t < i6 ==> (a1[t] == 1 <==> Bit(i2, t)) && a1[t] in {0, 1}
      invariant forall t :: i6 <= t < a1.Length ==> a1[t] == -1
    {
      if i7 == 1 {
        a1[i6] := 1;
        break;
      } else {
        a1[i6] := i7 % 2;
        i7 := i7 / 2;
      }
      i6 := i6 + 1;
    }
    forall t | i6 < t < a1.Length ensures !Bit(i2, t) {
      NoDigitAbove(i2, i6, t);
    }
  }

  /** Lines 105-149: counts the ones of one parity group. */
  method CountGroup(df: array<int>, l: nat, i4: nat, a1: array<int>) returns (i3: nat)
    requires df != a1 && l < df.Length && l < Pow2(a1.Length) && i4 < a1.Length
    modifies a1
    ensures i3 == Count(df[..], l, i4)
  {
    i3 := 0;
    for i2 := 1 to l + 1
      invariant i3 == Count(df[..], i2 - 1, i4)
      invariant df[..] == old(df[..])
    {
      Digits(i2, a1);
      if a1[i4] == 1 {
        if df[i2] == 1 {
          i3 := i3 + 1;
        }
      }
    }
  }

  /** What the frame looks like while its check positions below i1 have been overwritten. */
  ghost predicate FilledBelow(f: seq<int>, g: seq<int>, l: nat, i1: nat) {
    && |f| == |g| > l
    && (forall i :: 0 <= i < |f| ==>
          g[i] == if 1 <= i < i1 && IsPow2(i) then Count(f, l, TopBit(i)) % 2 else f[i])
  }

  lemma FillOne(f: seq<int>, g: seq<int>, l: nat, i1: nat)
    requires FilledBelow(f, g, l, i1) && 1 <= i1 <= l && IsPow2(i1)
    ensures Count(g, l, TopBit(i1)) == Count(f, l, TopBit(i1))
    ensures FilledBelow(f, g[i1 := Count(f, l, TopBit(i1)) % 2], l, i1 + 1)
  {
    TopBitBounds(i1);
    CountIgnoresOtherChecks(f, g, l, TopBit(i1));
  }

  /** The width of the bookkeeping arrays: one digit for every check bit of a frame of length l. */
  predicate WideEnough(l: nat, nrb: nat) {
    l < Pow2(nrb) && (nrb > 0 ==> Pow2(nrb - 1) <= l)
  }

  lemma CheckIndex(i1: nat, i5: nat, l: nat, nrb: nat)
    requires WideEnough(l, nrb) && Pow2(i5) == i1 <= l
    ensures i5 < nrb
  {
    if i5 >= nrb {
      Pow2Monotone(nrb, i5);
    }
  }

  lemma AllChecksDone(i5: nat, l: nat, nrb: nat)
    requires WideEnough(l, nrb) && l < Pow2(i5) && (i5 > 0 ==> Pow2(i5 - 1) <= l)
    ensures i5 == nrb
  {
    if i5 < nrb {
      Pow2Monotone(i5, nrb - 1);
    } else if i5 > nrb {
      Pow2Monotone(nrb, i5 - 1);
    }
  }

  /** Lines 105-165 and 232-291: counts the group of check position i1 and stores its parity. */
  method StoreParity(df: array<int>, l: nat, i1: nat, i5: nat, rb: array<int>, a1: array<int>, ghost f: seq<int>)
    requires df != rb && df != a1 && rb != a1 && i5 < rb.Length
    requires 1 <= i1 <= l && IsPow2(i1) && TopBit(i1) < a1.Length && l < Pow2(a1.Length)
    requires FilledBelow(f, df[..], l, i1)
    modifies df, rb, a1
    ensures FilledBelow(f, df[..], l, i1 + 1)
    ensures rb[..] == old(rb[..])[i5 := Count(f, l, TopBit(i1)) % 2]
  {
    FillOne(f, df[..], l, i1);
    ghost var g := df[..];
    var i4 := PositionOfOne(i1);
    var i3 := CountGroup(df, l, i4, a1);
    if i3 % 2 == 0 {
      df[i1] := 0;
      rb[i5] := 0;
    } else {
      df[i1] := 1;
      rb[i5] := 1;
    }
    assert df[..] == g[i1 := i3 % 2];
  }

  lemma FilledAll(f: seq<int>, g: seq<int>, l: nat)
    requires FilledBelow(f, g, l, l + 1)
    ensures g == Encoded(f, l)
  {
  }

  /** Both scans of the frame before they come to position i1, with i5 parities stored. */
  ghost predicate Filling(f: seq<int>, g: seq<int>, rb: seq<int>, l: nat, nrb: nat, i1: nat, i5: nat) {
    && FilledBelow(f, g, l, i1)
    && i5 <= nrb <= |rb|
    && 0 < i1 <= Pow2(i5) && (i5 > 0 ==> Pow2(i5 - 1) < i1)
    && (forall s :: 0 <= s < i5 ==> rb[s] == Count(f, l, s) % 2)
  }

  lemma FillingSkips(f: seq<int>, g: seq<int>, rb: seq<int>, l: nat, nrb: nat, i1: nat, i5: nat)
    requires Filling(f, g, rb, l, nrb, i1, i5) && i1 <= l && !IsPow2(i1)
    ensures Filling(f, g, rb, l, nrb, i1 + 1, i5)
  {
    NextPower(i1, i5);
  }

  lemma FillingStores(f: seq<int>, g: seq<int>, rb: seq<int>, l: nat, nrb: nat, i1: nat, i5: nat,
                      h: seq<int>)
    requires Filling(f, g, rb, l, nrb, i1, i5) && i5 < nrb && i1 == Pow2(i5)
    requires FilledBelow(f, h, l, i1 + 1)
    ensures Filling(f, h, rb[i5 := Count(f, l, i5) % 2], l, nrb, i1 + 1, i5 + 1)
  {
  }

  lemma FillingDone(f: seq<int>, g: seq<int>, rb: seq<int>, l: nat, nrb: nat, i5: nat)
    requires Filling(f, g, rb, l, nrb, l + 1, i5) && WideEnough(l, nrb)
    ensures g == Encoded(f, l) && (forall s :: 0 <= s < nrb ==> rb[s] == Count(f, l, s) % 2)
  {
    AllChecksDone(i5, l, nrb);
    FilledAll(f, g, l);
  }

  /** Lines 87-165 and 214-295: handles check position i1. */
  method FillCheck(df: array<int>, l: nat, nrb: nat, i1: nat, i5: nat, rb: array<int>, a1: array<int>,
                   ghost f: seq<int>)
    requires df != rb && df != a1 && rb != a1 && a1.Length == nrb && WideEnough(l, nrb)
    requires i1 <= l && IsPow2(i1) && Filling(f, df[..], rb[..], l, nrb, i1, i5)
    modifies df, rb, a1
    ensures Filling(f, df[..], rb[..], l, nrb, i1 + 1, i5 + 1)
  {
    ghost var g, parities := df[..], rb[..];
    NextPower(i1, i5);
    CheckIndex(i1, i5, l, nrb);
    StoreParity(df, l, i1, i5, rb, a1, f);
    FillingStores(f, g, parities, l, nrb, i1, i5, df[..]);
  }

  lemma MarkIsCheck(f: seq<int>, g: seq<int>, l: nat, data: seq<int>, nrb: nat, i1: nat)
    requires Placed(f, l, data, nrb) && FilledBelow(f, g, l, i1) && 1 <= i1 <= l
    ensures g[i1] == -1 <==> IsPow2(i1)
  {
  }

  /** Lines 79-175: overwrites every -1 by the parity of its group. */
  method FillParity(df: array<int>, l: nat, nrb: nat, rb: array<int>, a1: array<int>, ghost data: seq<int>)
    requires df != rb && df != a1 && rb != a1 && rb.Length >= nrb && a1.Length == nrb
    requires Placed(df[..], l, data, nrb)
    modifies df, rb, a1
    ensures df[..] == Encoded(old(df[..]), l)
    ensures forall s :: 0 <= s < nrb ==> rb[s] == Count(old(df[..]), l, s) % 2
  {
    ghost var f := df[..];
    var i5: nat := 0;
    for i1 := 1 to l + 1
      invariant Filling(f, df[..], rb[..], l, nrb, i1, i5)
    {
      MarkIsCheck(f, df[..], l, data, nrb, i1);
      assert df[i1] == df[..][i1];
      if df[i1] == -1 {
        FillCheck(df, l, nrb, i1, i5, rb, a1, f);
        i5 := i5 + 1;
      } else {
        FillingSkips(f, df[..], rb[..], l, nrb, i1, i5);
      }
    }
    FillingDone(f, df[..], rb[..], l, nrb, i5);
  }

  /**
    Lines 186-193. Line 186 assigns 1 where it should compare, so the condition is always true
    and its branch clears the bit.
   */
  method ChangeBit(df: array<int>, eb: nat)
    requires eb < df.Length
    modifies df
    ensures df[..] == old(df[..])[eb := 0]
  {
    df[eb] := 1;
    df[eb] := 0;
  }

  /** Lines 206-298: counts all groups again; this overwrites the check positions once more. */
  method Recheck(df: array<int>, l: nat, nrb: nat, rb: array<int>, a1: array<int>)
    requires df != rb && df != a1 && rb != a1 && rb.Length >= nrb && a1.Length == nrb
    requires l < df.Length && WideEnough(l, nrb)
    modifies df, rb, a1
    ensures df[..] == Encoded(old(df[..]), l)
    ensures forall s :: 0 <= s < nrb ==> rb[s] == Count(old(df[..]), l, s) % 2
  {
    ghost var f := df[..];
    var i5: nat, k := 0, 1;
    for i1 := 1 to l + 1
      invariant Filling(f, df[..], rb[..], l, nrb, i1, i5) && k == Pow2(i5)
    {
      NextPower(i1, i5);
      if i1 == k {
        FillCheck(df, l, nrb, i1, i5, rb, a1, f);
        i5 := i5 + 1;
        k := k * 2;
      } else {
        FillingSkips(f, df[..], rb[..], l, nrb, i1, i5);
      }
    }
    FillingDone(f, df[..], rb[..], l, nrb, i5);
  }

  /** Lines 306-315: adds the weights of the odd groups. */
  method ErrorPosition(rb: array<int>, nrb: nat, ghost f: seq<int>, ghost l: nat) returns (ep: nat)
    requires nrb <= rb.Length && l < |f| && l < Pow2(nrb)
    requires forall s :: 0 <= s < nrb ==> rb[s] == Count(f, l, s) % 2
    ensures ep == Syndrome(f, l)
  {
    ep := 0;
    var j := 1;
    for i := 0 to nrb
      invariant j == Pow2(i) && ep == WeightedParities(f, l, i)
    {
      if rb[i] == 1 {
        ep := ep + j;
      }
      j := j * 2;
    }
    PositionIsSyndrome(f, l, nrb);
  }

  /** `main` up to line 175. */
  method Encode(db: array<int>) returns (df: array<int>, l: nat, nrb: nat)
    requires forall j :: 0 <= j < db.Length ==> db[j] == 0 || db[j] == 1
    ensures fresh(df) && IsEncodingOf(df[..], l, db[..])
    ensures l == db.Length + nrb && WideEnough(l, nrb)
    ensures InOrder(df[..], l, db[..])
    ensures forall r: nat :: Pow2(r) >= db.Length + r + 1 <==> r >= nrb
  {
    var k;
    df, l, nrb, k := Place(db);
    ghost var f, data := df[..], db[..];
    forall r: nat ensures Pow2(r) >= |data| + r + 1 <==> r >= nrb {
      FewestCheckBits(f, l, data, nrb, r);
    }
    EncodingCorrect(f, l, data, nrb);
    var rb, a1 := new int[nrb], new int[nrb];
    FillParity(df, l, nrb, rb, a1, data);
    DataInOrder(df[..], l);
  }

  /** Lines 204-315, for a frame that may have been changed in any way. */
  method Locate(df: array<int>, l: nat, nrb: nat) returns (ep: nat)
    requires l < df.Length && WideEnough(l, nrb)
    modifies df
    ensures ep == Syndrome(old(df[..]), l)
    ensures df[..] == Encoded(old(df[..]), l)
  {
    ghost var f := df[..];
    var rb, a1 := new int[nrb], new int[nrb];
    Recheck(df, l, nrb, rb, a1);
    ep := ErrorPosition(rb, nrb, f, l);
  }

  /**
    `main` from line 177 on. The position printed is eb exactly when the bit there was a one. The
    entered eb is not checked: one that names no position of the frame changes nothing in it.
   */
  method CorruptAndLocate(df: array<int>, l: nat, nrb: nat, eb: nat) returns (ep: nat)
    requires IsCodeword(df[..], l) && WideEnough(l, nrb) && eb < df.Length
    modifies df
    ensures ep == if 1 <= eb <= l && old(df[eb]) == 1 then eb else 0
    ensures df[..] == Encoded(old(df[..])[eb := 0], l)
  {
    ghost var f := df[..];
    ChangeBit(df, eb);
    if 1 <= eb <= l {
      ClearedBitLocatedIff(f, l, eb);
    } else {
      ZeroSyndromeIff(f, l);
      SyndromeAgrees(f, df[..], l);
    }
    ep := Locate(df, l, nrb);
  }

  /**
    The program with the comparison that line 186 announces: it encodes, flips the bit at eb, and
    locates it. Flipping position ep of the received frame gives back the one that was sent. An
    eb that names no position of the frame leaves it as it was.
   */
  method FlipAndLocate(db: array<int>, eb: nat)
      returns (l: nat, nrb: nat, ep: nat, ghost sent: seq<int>, ghost received: seq<int>)
    requires forall j :: 0 <= j < db.Length ==> db[j] == 0 || db[j] == 1
    ensures IsEncodingOf(sent, l, db[..])
    ensures l == db.Length + nrb
    ensures forall r: nat :: Pow2(r) >= db.Length + r + 1 <==> r >= nrb
    ensures received == if 1 <= eb <= l then Flip(sent, eb) else sent
    ensures ep == if 1 <= eb <= l then eb else 0
    ensures 1 <= eb <= l ==> Flip(received, ep) == sent
  {
    var df;
    df, l, nrb := Encode(db);
    sent := df[..];
    if 1 <= eb <= l {
      if df[eb] == 1 {
        df[eb] := 0;
      } else {
        df[eb] := 1;
      }
      SingleErrorLocated(sent, l, eb);
    }
    received := df[..];
    ZeroSyndromeIff(sent, l);
    ep := Locate(df, l, nrb);
  }
}
