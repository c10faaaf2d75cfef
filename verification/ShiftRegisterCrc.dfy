/**
  The sender and the receiver of crc1.c. Arrays of 0 and 1 are arrays of bool; `n` is the
  degree of the generator g, and g[0] its leading coefficient.
 */
module ShiftRegisterCrc {
  import opened BitSequences
  import opened Polynomials
  import opened CrcCode
  import opened Sequences

  method ShiftIn(r: array<bool>, b: bool)
    requires r.Length > 0
    modifies r
    ensures r[..] == old(r[1..]) + [b]
  {
    var n := r.Length - 1;
    for j := 0 to n
      invariant forall i :: 0 <= i < j ==> r[i] == old(r[i + 1])
      invariant forall i :: j <= i <= n ==> r[i] == old(r[i])
    {
      r[j] := r[j + 1];
    }
    r[n] := b;
  }

  method XorInto(r: array<bool>, g: array<bool>)
    requires r != g && r.Length == g.Length
    modifies r
    ensures r[..] == Xor(old(r[..]), g[..])
  {
    for j := 0 to g.Length
      invariant forall i :: 0 <= i < j ==> r[i] == (old(r[i]) != g[i])
      invariant forall i :: j <= i < r.Length ==> r[i] == old(r[i])
    {
      r[j] := r[j] != g[j];
    }
  }

  /** The quotient bit, and the subtraction of g when it is set. */
  method Subtract(r: array<bool>, g: array<bool>) returns (bit: bool)
    requires r != g && r.Length == g.Length > 0
    modifies r
    ensures bit == old(r[0])
    ensures r[1..] == Reduce(old(r[..]), g[..])
    ensures g[0] ==> !r[0]
  {
    bit := r[0];
    if bit {
      XorInto(r, g);
    }
  }

  method CopyStart(r: array<bool>, a: array<bool>)
    requires r != a && r.Length <= a.Length
    modifies r
    ensures r[..] == a[..r.Length]
  {
    for j := 0 to r.Length
      invariant r[..j] == a[..j]
    {
      r[j] := a[j];
    }
  }

  /** The register r and the quotient bits when the loop comes to bit i of f. */
  ghost predicate Progress(r: Bits, quotient: Bits, f: Bits, g: Bits, i: nat) {
    && 0 < |g| == |r| <= i + 1 && |r| <= |f| && i <= |f|
    && quotient == QuotientBits(f, g, i)
    && if i == |g| - 1 then r == f[..|g|] else r[1..] == Register(f, g, i) && (g[0] ==> !r[0])
  }

  lemma ProgressStep(r: Bits, quotient: Bits, f: Bits, g: Bits, i: nat, shifted: Bits, after: Bits)
    requires Progress(r, quotient, f, g, i) && i < |f|
    requires shifted == if i > |g| - 1 then r[1..] + [f[i]] else r
    requires |after| == |g| && after[1..] == Reduce(shifted, g) && (g[0] ==> !after[0])
    ensures Progress(after, quotient + [shifted[0]], f, g, i + 1)
  {
    if i == |g| - 1 {
      TakeOneMore(f, i);
    }
    assert shifted == Register(f, g, i) + [f[i]];
  }

  /**
    The loop that sender and receiver share: bits a[n] to a[last] are shifted through r, one
    quotient bit each. When last < n the loop is not entered.
   */
  method Divide(a: array<bool>, last: nat, g: array<bool>, r: array<bool>, div: array<bool>) returns (k: nat)
    requires 0 < g.Length == r.Length <= a.Length && last < a.Length
    requires r != a && r != g && div != a && div != g && div != r
    requires r[..] == a[..r.Length]
    requires last < g.Length - 1 || last - (g.Length - 1) < div.Length
    modifies r, div
    ensures last < g.Length - 1 ==> k == 0 && r[..] == old(r[..])
    ensures last >= g.Length - 1 ==>
      && k == last - (g.Length - 1) + 1
      && div[..k] == Quotient(a[..last + 1], g[..])
      && r[1..] == Remainder(a[..last + 1], g[..])
      && (g[0] ==> !r[0])
  {
    var n := g.Length - 1;
    ghost var f := a[..last + 1];
    k := 0;
    var i := n;
    assert n <= last ==> r[..] == f[..n + 1] && div[..0] == [];
    while i <= last
      invariant n <= i && k == i - n && (last < n ==> i == n && r[..] == old(r[..]))
      invariant n <= last ==> i <= last + 1 && Progress(r[..], div[..k], f, g[..], i)
      decreases last + 1 - i
    {
      ghost var before, quotient := r[..], div[..k];
      if i > n {
        ShiftIn(r, a[i]);
      }
      ghost var shifted := r[..];
      div[k] := Subtract(r, g);
      ProgressStep(before, quotient, f, g[..], i, shifted, r[..]);
      k := k + 1;
      assert div[..k] == quotient + [shifted[0]];
      i := i + 1;
    }
    assert r[..][1..] == r[1..];
  }

  method PadWithZeros(a: array<bool>, m: nat, n: nat)
    requires m + n < a.Length
    modifies a
    ensures a[..m + n + 1] == old(a[..m + 1]) + Zeros(n)
    ensures a[m + n + 1..] == old(a[m + n + 1..])
  {
    for i := m + 1 to m + n + 1
      invariant forall j :: 0 <= j < a.Length ==> a[j] == if m + 1 <= j < i then false else old(a[j])
    {
      a[i] := false;
    }
  }

  method AppendRemainder(a: array<bool>, m: nat, r: array<bool>)
    requires a != r && 0 < r.Length && m + r.Length <= a.Length
    modifies a
    ensures a[..m + r.Length] == old(a[..m + 1]) + r[1..]
    ensures a[m + r.Length..] == old(a[m + r.Length..])
  {
    var j := 1;
    for i := m + 1 to m + r.Length
      invariant j == i - m
      invariant forall h :: 0 <= h < a.Length ==> a[h] == if m + 1 <= h < i then r[h - m] else old(a[h])
    {
      a[i] := r[j];
      j := j + 1;
    }
  }

  method DivideAndAppend(g: array<bool>, m: nat, a: array<bool>)
      returns (quotient: seq<bool>, remainder: seq<bool>)
    requires 0 < g.Length <= m + 1 && a != g && m + g.Length <= a.Length
    modifies a
    ensures quotient == Quotient(old(a[..m + g.Length]), g[..])
    ensures remainder == Remainder(old(a[..m + g.Length]), g[..])
    ensures a[..m + g.Length] == old(a[..m + 1]) + remainder
    ensures a[m + g.Length..] == old(a[m + g.Length..])
  {
    var r := new bool[g.Length];
    CopyStart(r, a);
    var div := new bool[m + 1];
    var k := Divide(a, m + g.Length - 1, g, r, div);
    quotient, remainder := div[..k], r[1..];
    AppendRemainder(a, m, r);
  }

  /** The first half of `main`. When the generator is refused nothing is sent and a is untouched. */
  method Send(g: array<bool>, m: nat, a: array<bool>)
      returns (proper: bool, quotient: seq<bool>, remainder: seq<bool>)
    requires g.Length > 0 && a != g && m + g.Length <= a.Length
    modifies a
    ensures proper <==> m >= g.Length - 1 && g[0] && g[g.Length - 1]
    ensures !proper ==> a[..] == old(a[..]) && quotient == [] && remainder == []
    ensures proper ==>
      && IsDivision(old(a[..m + 1]) + Zeros(g.Length - 1), g[..], quotient, remainder)
      && quotient == Quotient(Padded(old(a[..m + 1]), g[..]), g[..])
      && remainder == Remainder(Padded(old(a[..m + 1]), g[..]), g[..])
      && a[..m + g.Length] == old(a[..m + 1]) + remainder == SentFrame(old(a[..m + 1]), g[..])
      && a[m + g.Length..] == old(a[m + g.Length..])
  {
    quotient, remainder := [], [];
    var n := g.Length - 1;
    if m < n || !(g[0] && g[n]) {
      return false, [], [];
    }
    proper := true;
    PadWithZeros(a, m, n);
    assert a[..m + n + 1] == Padded(old(a[..m + 1]), g[..]);
    assert a[..m + n + 1][..m + 1] == a[..m + 1];
    DivisionIdentity(Padded(old(a[..m + 1]), g[..]), g[..]);
    quotient, remainder := DivideAndAppend(g, m, a);
  }

  /** What the receiver prints for the frame a[..m + 1]; below degree n it looks at old contents of a. */
  predicate Verdict(g: Bits, m: nat, a: Bits)
    requires 0 < |g| <= |a| && m < |a|
  {
    if m >= |g| - 1 then Accepts(a[..m + 1], g) else AllZero(a[1..|g|])
  }

  /**
    The second half of `main`, for the frame of degree m that is entered next. The entered
    degree is not compared with n.
   */
  method Receive(g: array<bool>, m: nat, a: array<bool>)
      returns (noError: bool, quotient: seq<bool>, remainder: seq<bool>)
    requires g.Length > 0 && m < a.Length && g.Length <= a.Length
    ensures noError <==> AllZero(remainder)
    ensures noError <==> Verdict(g[..], m, a[..])
    ensures m >= g.Length - 1 ==>
      && IsDivision(a[..m + 1], g[..][0 := true], quotient, remainder)
      && quotient == Quotient(a[..m + 1], g[..])
      && remainder == Remainder(a[..m + 1], g[..])
    ensures m < g.Length - 1 ==>
      && quotient == []
      && remainder == a[1..g.Length]
  {
    var n := g.Length - 1;
    var r := new bool[n + 1];
    CopyStart(r, a);
    var div := new bool[if m < n then 0 else m - n + 1];
    var k := Divide(a, m, g, r, div);
    quotient, remainder := div[..k], r[1..];
    noError := true;
    for i := 1 to n + 1
      invariant noError <==> forall j :: 1 <= j < i ==> !r[j]
    {
      if r[i] {
        noError := false;
      }
    }
    assert AllZero(remainder) <==> forall j :: 1 <= j < n + 1 ==> !r[j] by {
      assert forall j :: 0 <= j < n ==> remainder[j] == r[j + 1];
      assert forall j :: 1 <= j < n + 1 ==> r[j] == remainder[j - 1];
    }
    assert a[..][..m + 1] == a[..m + 1] && a[..][1..n + 1] == a[1..n + 1];
    if m >= n {
      DivisionByAnyKey(a[..m + 1], g[..]);
    }
  }

  lemma VerdictOnSent(frame: Bits, e: Bits, g: Bits)
    requires |g| > 0 && frame != [] && |e| == |frame| + |g| - 1
    ensures g[0] ==> (Verdict(g, |e| - 1, Xor(SentFrame(frame, g), e)) <==> Divides(g, e))
  {
    if g[0] {
      var received := Xor(SentFrame(frame, g), e);
      assert received[..|e|] == received;
      VerdictOnErrors(frame, e, g);
    }
  }

  /** An error pattern e on the line, and the receiver's verdict on what arrives. */
  method ReceiveCorrupted(g: array<bool>, a: array<bool>, e: array<bool>, ghost frame: Bits) returns (noError: bool)
    requires 0 < g.Length < a.Length + 1 && a.Length == e.Length && a != g && a != e
    requires frame != [] && g[0] && a[..] == SentFrame(frame, g[..])
    modifies a
    ensures a[..] == Xor(SentFrame(frame, g[..]), e[..])
    ensures noError <==> Divides(g[..], e[..])
  {
    XorInto(a, e);
    var quotient, remainder;
    noError, quotient, remainder := Receive(g, a.Length - 1, a);
    VerdictOnSent(frame, e[..], g[..]);
  }

  /**
    The whole program: what is sent is changed by e and entered again with its degree. The
    verdict depends on e alone.
   */
  method SendAndReceive(g: array<bool>, m: nat, a: array<bool>, e: array<bool>) returns (proper: bool, noError: bool)
    requires 0 < g.Length && a.Length == e.Length == m + g.Length && a != g && a != e
    modifies a
    ensures proper <==> m >= g.Length - 1 && g[0] && g[g.Length - 1]
    ensures proper ==>
      && a[..] == Xor(SentFrame(old(a[..m + 1]), g[..]), e[..])
      && (noError <==> Divides(g[..], e[..]))
  {
    ghost var frame := a[..m + 1];
    var quotient, remainder;
    noError := false;
    proper, quotient, remainder := Send(g, m, a);
    if proper {
      assert a[..] == a[..m + g.Length];
      noError := ReceiveCorrupted(g, a, e, frame);
    }
  }

  /** When the verdict is right: always from degree n on, and below it only by coincidence. */
  lemma VerdictRightIff(g: Bits, m: nat, a: Bits)
    requires ProperGenerator(g) && |g| <= |a| && m < |a|
    ensures (Verdict(g, m, a) <==> MultipleOf(g, a[..m + 1]))
       <==> (m >= |g| - 1 || (AllZero(a[1..|g|]) <==> AllZero(a[..m + 1])))
  {
    if m >= |g| - 1 {
      AcceptsIffDivides(a[..m + 1], g);
    } else {
      ShortMultiple(g, a[..m + 1]);
    }
  }

  lemma ShortFrameMisjudged(g: Bits, m: nat, len: nat) returns (a: Bits)
    requires ProperGenerator(g) && |g| <= len && m < |g| - 1
    ensures |a| == len && Verdict(g, m, a) && !MultipleOf(g, a[..m + 1])
  {
    a := [true] + Zeros(len - 1);
    ShortMultiple(g, a[..m + 1]);
    assert a[..m + 1][0];
  }

  /**
    The missing comparison of degrees: for every proper generator, the verdict on frames of
    degree m is right whatever the array holds exactly when m >= n.
   */
  lemma VerdictRightFromDegree(g: Bits, m: nat, len: nat)
    requires ProperGenerator(g) && |g| <= len && m < len
    ensures (forall a: Bits :: |a| == len ==> (Verdict(g, m, a) <==> MultipleOf(g, a[..m + 1])))
       <==> m >= |g| - 1
  {
    if m >= |g| - 1 {
      forall a: Bits | |a| == len ensures Verdict(g, m, a) <==> MultipleOf(g, a[..m + 1]) {
        VerdictRightIff(g, m, a);
      }
    } else {
      var a := ShortFrameMisjudged(g, m, len);
    }
  }

  /** For instance g = x + 1, and the frame 1 of degree 0 entered over an old a[1] == 0. */
  lemma ShortFramePasses()
    ensures var g, a: Bits := [true, true], [true, false];
            ProperGenerator(g) && Verdict(g, 0, a) && !MultipleOf(g, a[..1])
  {
    var g, f: Bits := [true, true], [true, false][..1];
    assert f == [true];
    ShortMultiple(g, f);
  }
}
