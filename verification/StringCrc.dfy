/** The same division in crc.c, on strings of the characters '0' and '1'. */
module StringCrc {
  import opened BitSequences
  import opened Polynomials
  import opened CrcCode
  import ShiftRegisterCrc

  predicate Binary(s: seq<char>) {
    forall i :: 0 <= i < |s| ==> s[i] == '0' || s[i] == '1'
  }

  function BitsOf(s: seq<char>): (b: Bits)
    ensures |b| == |s|
    ensures forall i :: 0 <= i < |s| ==> b[i] == (s[i] != '0')
  {
    seq(|s|, i requires 0 <= i < |s| => s[i] != '0')
  }

  /** strcpy, of as many characters as the destination holds. */
  method CopyInto(dst: array<char>, src: array<char>)
    requires dst != src && dst.Length <= src.Length
    modifies dst
    ensures dst[..] == src[..dst.Length]
  {
    for j := 0 to dst.Length
      invariant dst[..j] == src[..j]
    {
      dst[j] := src[j];
    }
  }

  method SetKey(key: array<char>, key1: array<char>, bit: char)
    requires key != key1 && key.Length == key1.Length && Binary(key1[..])
    modifies key
    ensures Binary(key[..]) && BitsOf(key[..]) == Scale(bit != '0', BitsOf(key1[..]))
  {
    if bit == '0' {
      for j := 0 to key.Length
        invariant forall i :: 0 <= i < j ==> key[i] == '0'
      {
        key[j] := '0';
      }
    } else {
      for j := 0 to key.Length
        invariant key[..j] == key1[..j]
      {
        key[j] := key1[j];
      }
      assert key[..] == key1[..];
    }
  }

  /** Compares from the right and stores one place to the left, so the top bit drops out. */
  method Subtract(temp: array<char>, key: array<char>, rem: array<char>)
    requires rem != temp && rem != key && temp.Length == key.Length == rem.Length > 0
    requires Binary(temp[..]) && Binary(key[..])
    modifies rem
    ensures Binary(rem[..rem.Length - 1])
    ensures BitsOf(rem[..rem.Length - 1]) == Xor(BitsOf(temp[..]), BitsOf(key[..]))[1..]
  {
    var j := rem.Length - 1;
    while j > 0
      invariant 0 <= j < rem.Length
      invariant forall i :: j < i < rem.Length ==> rem[i - 1] == if temp[i] == key[i] then '0' else '1'
    {
      if temp[j] == key[j] {
        rem[j - 1] := '0';
      } else {
        rem[j - 1] := '1';
      }
      j := j - 1;
    }
    assert forall i :: 0 <= i < rem.Length - 1 ==> rem[i] == if temp[i + 1] == key[i + 1] then '0' else '1' by {
      forall i | 0 <= i < rem.Length - 1
        ensures rem[i] == if temp[i + 1] == key[i + 1] then '0' else '1'
      {
        assert rem[(i + 1) - 1] == rem[i];
      }
    }
  }

  lemma ReduceByScaled(r: Bits, g: Bits)
    requires |r| == |g| > 0
    ensures Xor(r, Scale(r[0], g))[1..] == Reduce(r, g)
  {
    if !r[0] {
      XorWithZeros(r);
    }
  }

  ghost predicate Shifted(before: seq<char>, key: seq<char>, after: seq<char>, next: char) {
    && |before| == |after| == |key| > 0
    && after[|after| - 1] == next
    && Binary(after[..|after| - 1])
    && BitsOf(after[..|after| - 1]) == Reduce(BitsOf(before), BitsOf(key))
  }

  /** Subtracts the key or zeros, drops the top bit and takes in the next character. */
  method Shift(temp: array<char>, key: array<char>, key1: array<char>, rem: array<char>, next: char)
    requires temp.Length == key.Length == key1.Length == rem.Length > 0
    requires key != temp && key != key1 && key != rem && rem != temp && rem != key1 && temp != key1
    requires Binary(temp[..]) && Binary(key1[..])
    modifies temp, key, rem
    ensures Shifted(old(temp[..]), key1[..], temp[..], next)
  {
    var n := temp.Length - 1;
    ghost var before := temp[..];
    SetKey(key, key1, temp[0]);
    Subtract(temp, key, rem);
    ReduceByScaled(BitsOf(before), BitsOf(key1[..]));
    ghost var reduced := rem[..n];
    rem[n] := next;
    assert rem[..n] == reduced;
    CopyInto(temp, rem);
    assert temp[..][..n] == reduced;
  }

  method PadWithZeros(input: array<char>, msglen: nat, n: nat)
    requires msglen + n <= input.Length
    modifies input
    ensures input[..msglen + n] == old(input[..msglen]) + seq(n, _ => '0')
  {
    for i := 0 to n
      invariant forall h :: 0 <= h < msglen + i ==> input[h] == if h < msglen then old(input[h]) else '0'
    {
      input[msglen + i] := '0';
    }
  }

  /** After k bits of f, temp holds the register and the next bit, and quot the quotient so far. */
  ghost predicate Progress(temp: seq<char>, quot: seq<char>, f: Bits, g: Bits, k: nat) {
    && |temp| == |g| > 0
    && |g| - 1 <= k <= |f|
    && Binary(temp[..|g| - 1]) && Binary(quot)
    && BitsOf(temp[..|g| - 1]) == Register(f, g, k)
    && BitsOf(quot) == QuotientBits(f, g, k)
    && (k < |f| ==> Binary([temp[|g| - 1]]) && (temp[|g| - 1] != '0') == f[k])
  }

  lemma RegisterOf(temp: seq<char>, quot: seq<char>, f: Bits, g: Bits, k: nat)
    requires Progress(temp, quot, f, g, k) && k < |f|
    ensures Binary(temp) && BitsOf(temp) == Register(f, g, k) + [f[k]]
  {
    var n := |temp| - 1;
    assert temp == temp[..n] + [temp[n]];
    assert [temp[n]][0] == temp[n];
  }

  lemma ProgressStep(temp: seq<char>, quot: seq<char>, f: Bits, key: seq<char>, k: nat, after: seq<char>, next: char)
    requires Progress(temp, quot, f, BitsOf(key), k) && k < |f|
    requires Shifted(temp, key, after, next)
    requires k + 1 < |f| ==> Binary([next]) && (next != '0') == f[k + 1]
    ensures Progress(after, quot + [temp[0]], f, BitsOf(key), k + 1)
  {
    RegisterOf(temp, quot, f, BitsOf(key), k);
    assert BitsOf(temp)[0] == (temp[0] != '0');
    assert BitsOf(quot + [temp[0]]) == BitsOf(quot) + [temp[0] != '0'];
  }

  ghost predicate Spells(input: seq<char>, f: Bits) {
    && |f| <= |input|
    && Binary(input[..|f|])
    && BitsOf(input[..|f|]) == f
  }

  /**
    The body of the loop. The last pass reads one character past the padding,
    input[msglen + keylen - 1], which may be anything.
   */
  method Pass(i: nat, input: array<char>, key: array<char>, key1: array<char>, temp: array<char>,
              rem: array<char>, quot: array<char>, ghost f: Bits, ghost g: Bits)
    requires temp.Length == key.Length == key1.Length == rem.Length > 0
    requires key != temp && key != key1 && key != rem && rem != temp && rem != key1 && temp != key1
    requires quot != temp && quot != key && quot != rem && quot != key1
    requires input != temp && input != key && input != rem && input != quot
    requires i < quot.Length && i + key.Length < input.Length && Spells(input[..], f)
    requires Binary(key1[..]) && BitsOf(key1[..]) == g
    requires Progress(temp[..], quot[..i], f, g, i + key.Length - 1)
    requires i + key.Length - 1 < |f|
    modifies key, temp, rem, quot
    ensures Progress(temp[..], quot[..i + 1], f, g, i + key.Length)
  {
    ghost var before, k := temp[..], i + key.Length - 1;
    RegisterOf(before, quot[..i], f, g, k);
    ghost var quotSoFar := quot[..i];
    quot[i] := temp[0];
    assert quot[..i + 1] == quotSoFar + [before[0]];
    Shift(temp, key, key1, rem, input[i + key.Length]);
    ProgressStep(before, quotSoFar, f, key1[..], k, temp[..], input[i + key.Length]);
  }

  lemma StartsWell(input: seq<char>, temp: seq<char>, f: Bits, g: Bits)
    requires 0 < |g| == |temp| <= |input| && Spells(input, f) && |g| <= |f| + 1
    requires temp == input[..|g|]
    ensures Progress(temp, [], f, g, |g| - 1)
  {
    var n := |g| - 1;
    assert temp[..n] == input[..|f|][..n];
    assert BitsOf(temp[..n]) == f[..n];
    assert n < |f| ==> temp[n] == input[..|f|][n];
  }

  /** The loop of `main`. */
  method Passes(input: array<char>, key: array<char>, key1: array<char>, temp: array<char>,
                rem: array<char>, quot: array<char>, ghost f: Bits, ghost g: Bits)
    requires temp.Length == key.Length == key1.Length == rem.Length > 0
    requires key != temp && key != key1 && key != rem && rem != temp && rem != key1 && temp != key1
    requires quot != temp && quot != key && quot != rem && quot != key1
    requires input != temp && input != key && input != rem && input != quot
    requires |f| == quot.Length + key.Length - 1 < input.Length && Spells(input[..], f)
    requires Binary(key1[..]) && BitsOf(key1[..]) == g
    requires Progress(temp[..], [], f, g, key.Length - 1)
    modifies key, temp, rem, quot
    ensures Progress(temp[..], quot[..], f, g, |f|)
  {
    var i: nat := 0;
    ghost var register, quotient := temp[..], [];
    assert quot[..0] == [];
    while i < quot.Length
      invariant i <= quot.Length && key1[..] == old(key1[..]) && input[..] == old(input[..])
      invariant register == temp[..] && quotient == quot[..i]
      invariant Progress(register, quotient, f, g, i + key.Length - 1)
    {
      Pass(i, input, key, key1, temp, rem, quot, f, g);
      i := i + 1;
      register, quotient := temp[..], quot[..i];
    }
    assert quotient == quot[..];
  }

  /** `main` between the padding and the output. */
  method Divide(input: array<char>, msglen: nat, key: array<char>, ghost f: Bits)
      returns (quot: array<char>, rem: array<char>)
    requires input != key && key.Length > 0 && msglen + key.Length <= input.Length
    requires |f| == msglen + key.Length - 1 && Spells(input[..], f) && Binary(key[..])
    modifies key
    ensures quot.Length == msglen && rem.Length == key.Length
    ensures Progress(rem[..], quot[..], f, old(BitsOf(key[..])), |f|)
  {
    ghost var g := BitsOf(key[..]);
    var keylen := key.Length;
    var key1, temp := new char[keylen], new char[keylen];
    rem, quot := new char[keylen], new char[msglen];
    CopyInto(key1, key);
    CopyInto(temp, input);
    assert key1[..] == key[..];
    StartsWell(input[..], temp[..], f, g);
    Passes(input, key, key1, temp, rem, quot, f, g);
    CopyInto(rem, temp);
    assert rem[..] == temp[..];
  }

  lemma PaddedText(message: seq<char>, text: seq<char>, g: Bits)
    requires |g| > 0 && Binary(message) && |text| >= |message| + |g| - 1
    requires text[..|message| + |g| - 1] == message + seq(|g| - 1, _ => '0')
    ensures Spells(text, Padded(BitsOf(message), g))
    ensures text[..|message|] == message
  {
    assert BitsOf(message + seq(|g| - 1, _ => '0')) == Padded(BitsOf(message), g);
    assert text[..|message|] == text[..|message| + |g| - 1][..|message|];
  }

  lemma PrintedStrings(message: seq<char>, frame: Bits, quot: seq<char>, rem: seq<char>, g: Bits, r: seq<char>)
    requires |g| > 0 && Binary(message) && frame == BitsOf(message)
    requires Progress(rem, quot, Padded(frame, g), g, |frame| + |g| - 1) && r == rem[..|g| - 1]
    ensures Binary(quot) && Binary(r) && Binary(message + r)
    ensures IsDivision(frame + Zeros(|g| - 1), g[0 := true], BitsOf(quot), BitsOf(r))
    ensures BitsOf(quot) == Quotient(Padded(frame, g), g)
    ensures BitsOf(r) == Remainder(Padded(frame, g), g)
    ensures BitsOf(message + r) == SentFrame(frame, g)
  {
    DivisionByAnyKey(Padded(frame, g), g);
    assert BitsOf(message + r) == frame + BitsOf(r);
  }

  /** `main` up to the output. */
  method PadAndDivide(input: array<char>, msglen: nat, key: array<char>) returns (quot: array<char>, rem: array<char>)
    requires input != key && key.Length > 0 && msglen + key.Length <= input.Length
    requires Binary(input[..msglen]) && Binary(key[..])
    modifies input, key
    ensures quot.Length == msglen && rem.Length == key.Length && input[..msglen] == old(input[..msglen])
    ensures var g := BitsOf(old(key[..]));
            var f := Padded(BitsOf(old(input[..msglen])), g);
            Progress(rem[..], quot[..], f, g, |f|)
  {
    ghost var message, g := input[..msglen], BitsOf(key[..]);
    PadWithZeros(input, msglen, key.Length - 1);
    PaddedText(message, input[..], g);
    quot, rem := Divide(input, msglen, key, Padded(BitsOf(message), g));
  }

  /** `main`: pads the message in place, divides, and returns the three printed strings. */
  method Encode(input: array<char>, msglen: nat, key: array<char>)
      returns (quotient: seq<char>, remainder: seq<char>, finalData: seq<char>)
    requires input != key && key.Length > 0 && msglen + key.Length <= input.Length
    requires Binary(input[..msglen]) && Binary(key[..])
    modifies input, key
    ensures Binary(quotient) && Binary(remainder) && Binary(finalData)
    ensures finalData == old(input[..msglen]) + remainder
    ensures var g := BitsOf(old(key[..]));
            var frame := BitsOf(old(input[..msglen]));
            && IsDivision(frame + Zeros(key.Length - 1), g[0 := true], BitsOf(quotient), BitsOf(remainder))
            && BitsOf(quotient) == Quotient(Padded(frame, g), g)
            && BitsOf(remainder) == Remainder(Padded(frame, g), g)
            && BitsOf(finalData) == SentFrame(frame, g)
  {
    var keylen := key.Length;
    ghost var message, g := input[..msglen], BitsOf(key[..]);
    var quot, rem := PadAndDivide(input, msglen, key);
    quotient, remainder := quot[..], rem[..keylen - 1];
    assert remainder == rem[..][..keylen - 1];
    PrintedStrings(message, BitsOf(message), quotient, rem[..], g, remainder);
    finalData := input[..msglen] + remainder;
  }

  /**
    Runs both programs on one message: wherever crc1.c takes the generator, they print the same
    quotient, remainder and final frame, although one shifts before and the other after the XOR.
   */
  method CompareWithShiftRegister(input: array<char>, key: array<char>, g: array<bool>, m: nat, a: array<bool>)
      returns (proper: bool, q1: seq<bool>, q2: seq<char>, r1: seq<bool>, r2: seq<char>, data: seq<char>)
    requires input != key && key.Length > 0 && m + 1 + key.Length <= input.Length
    requires Binary(input[..m + 1]) && Binary(key[..])
    requires a != g && g.Length == key.Length && m + g.Length <= a.Length
    requires a[..m + 1] == BitsOf(input[..m + 1]) && g[..] == BitsOf(key[..])
    modifies input, key, a
    ensures proper <==> m >= g.Length - 1 && old(key[0]) == '1' && old(key[key.Length - 1]) == '1'
    ensures Binary(q2) && Binary(r2) && Binary(data)
    ensures proper ==> BitsOf(q2) == q1 && BitsOf(r2) == r1 && BitsOf(data) == a[..m + g.Length]
  {
    assert g[0] == g[..][0] && g[g.Length - 1] == g[..][g.Length - 1];
    proper, q1, r1 := ShiftRegisterCrc.Send(g, m, a);
    q2, r2, data := Encode(input, m + 1, key);
  }
}
