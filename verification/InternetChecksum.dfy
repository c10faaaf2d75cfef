/**
  The checksum routines: ComputeChecksum of TCP-Packet-Injection.c, and csum, which is the same
  in client.c and server.c of rawsockets/basic.
 */
module InternetChecksum {
  import opened OnesComplement
  import opened Sequences

  // ---------- words of a byte buffer ----------

  function Join(high: Byte, low: Byte): (w: Word) {
    0x100 * high + low
  }

  /** Load i of a little-endian host; a left over byte counts as a word by itself. */
  function WordAt(bytes: seq<Byte>, i: nat): (w: Word)
    requires 2 * i < |bytes|
  {
    Join(if 2 * i + 1 < |bytes| then bytes[2 * i + 1] else 0, bytes[2 * i])
  }

  /** Word i as RFC 1071 counts it: in network order, odd lengths padded with a zero byte. */
  function NetworkWordAt(bytes: seq<Byte>, i: nat): (w: Word)
    requires 2 * i < |bytes|
  {
    Join(bytes[2 * i], if 2 * i + 1 < |bytes| then bytes[2 * i + 1] else 0)
  }

  function Words(bytes: seq<Byte>): (ws: seq<Word>)
    ensures |ws| == (|bytes| + 1) / 2
    ensures forall i :: 0 <= i < |ws| ==> ws[i] == WordAt(bytes, i)
  {
    seq((|bytes| + 1) / 2, i requires 0 <= i < (|bytes| + 1) / 2 => WordAt(bytes, i))
  }

  function NetworkWords(bytes: seq<Byte>): (ws: seq<Word>)
    ensures |ws| == (|bytes| + 1) / 2
    ensures forall i :: 0 <= i < |ws| ==> ws[i] == NetworkWordAt(bytes, i)
  {
    seq((|bytes| + 1) / 2, i requires 0 <= i < (|bytes| + 1) / 2 => NetworkWordAt(bytes, i))
  }

  function Checksum(bytes: seq<Byte>): (c: Word) {
    Complement(OnesSum(Words(bytes)))
  }

  lemma AppendWord(ws: seq<Word>, w: Word)
    ensures OnesSum(ws + [w]) == OnesAdd(OnesSum(ws), w)
    ensures Sum(ws + [w]) == Sum(ws) + w
  {
    assert (ws + [w])[..|ws|] == ws;
  }

  lemma AddOneMore(ws: seq<Word>, k: nat, sum: nat)
    requires k < |ws| && Folded(sum) == OnesSum(ws[..k])
    ensures Folded(sum + ws[k]) == OnesSum(ws[..k + 1])
  {
    TakeOneMore(ws, k);
    AppendWord(ws[..k], ws[k]);
    OnesAddFolds(sum, ws[k]);
  }

  /** While sum grows by one word at a time, the tested bit is set exactly from 2^31 on. */
  lemma HighBit(sum: nat)
    requires sum < 0x8000_0000 + BASE
    ensures (sum / 0x8000_0000) % 2 == 1 <==> sum >= 0x8000_0000
    ensures Fold(sum) < 0x8000_0000
    ensures Folded(Fold(sum)) == Folded(sum)
  {
    FoldKeeps(sum);
  }

  // ---------- the routines ----------

  /** The closing loop of ComputeChecksum. */
  method FoldCarries(start: nat) returns (r: Word, ghost folds: nat)
    requires start < 0x8000_0100
    ensures r == Complement(Folded(start))
    ensures folds <= 2
  {
    var sum: nat := start;
    folds := 0;
    while sum / BASE != 0
      invariant Folded(sum) == Folded(start)
      invariant folds == 0 ==> sum < 0x8000_0100
      invariant folds == 1 ==> sum < 2 * BASE - 1
      invariant folds >= 2 ==> sum < BASE
      invariant folds <= 2
      decreases sum
    {
      FoldKeeps(sum);
      sum := sum % BASE + sum / BASE;
      folds := folds + 1;
    }
    FoldedSmall(sum);
    r := BASE - 1 - sum;
  }

  /**
    `sum` is a 64-bit long. The fold inside the loop keeps it below 2^31, so the tested bit is
    the only one that can be set above it, and the closing loop folds at most twice.
   */
  method ComputeChecksum(data: array<Byte>, len: nat) returns (r: Word, ghost folds: nat)
    requires len <= data.Length
    ensures r == Checksum(data[..len])
    ensures folds <= 2
  {
    ghost var ws := Words(data[..len]);
    var sum: nat, temp: nat, left := 0, 0, len;
    while left > 1
      invariant 2 * temp + left == len && sum < 0x8000_0000
      invariant Folded(sum) == OnesSum(ws[..temp])
    {
      assert ws[temp] == Join(data[2 * temp + 1], data[2 * temp]);
      AddOneMore(ws, temp, sum);
      sum := sum + Join(data[2 * temp + 1], data[2 * temp]);
      temp := temp + 1;
      HighBit(sum);
      if (sum / 0x8000_0000) % 2 == 1 {
        sum := sum % BASE + sum / BASE;
      }
      left := left - 2;
    }
    if left != 0 {
      assert ws[temp] == data[2 * temp];
      AddOneMore(ws, temp, sum);
      sum := sum + data[2 * temp];
    }
    assert ws[..|ws|] == ws;
    r, folds := FoldCarries(sum);
  }

  /** What two folds and the final truncation make of the sum of the words. */
  function TwoFolds(ws: seq<Word>): (c: Word) {
    var s := Fold(Sum(ws));
    Complement((s + s / BASE) % BASE)
  }

  /** The loop of csum. */
  method SumWords(buf: array<Word>, len: int) returns (sum: nat)
    requires len <= buf.Length
    ensures sum == Sum(if len > 0 then buf[..len] else [])
  {
    var i, left := 0, len;
    sum := 0;
    while left > 0
      invariant 0 <= i <= buf.Length && (if len > 0 then i + left == len && left >= 0 else i == 0 && left == len)
      invariant sum == Sum(buf[..i])
    {
      AppendWord(buf[..i], buf[i]);
      TakeOneMore(buf[..], i);
      assert buf[..][..i] == buf[..i] && buf[..][..i + 1] == buf[..i + 1];
      sum := sum + buf[i];
      i := i + 1;
      left := left - 1;
    }
  }

  lemma {:induction false} SumBound(ws: seq<Word>)
    ensures Sum(ws) <= (BASE - 1) * |ws|
  {
    if ws != [] {
      SumBound(ws[..|ws| - 1]);
    }
  }

  lemma CarryDropped(u: nat, v: nat)
    requires v < BASE && u <= 0x8000
    ensures (BASE * u + v + u) % BASE == if u + v < BASE then u + v else u + v - BASE
  {
    assert (BASE * u + v + u) % BASE == (u + v) % BASE;
  }

  lemma TwoFoldsOf(s: nat)
    requires s < 0x8000_0000 * BASE
    ensures var t := Fold(s);
            && ((t + t / BASE) % BASE == Folded(s) <==> Fold(t) < BASE)
            && (t + t / BASE) % BASE == Folded(s) - (if Fold(t) < BASE then 0 else 1)
  {
    var t := Fold(s);
    FoldKeeps(s);
    FoldKeeps(t);
    var u, v := t / BASE, t % BASE;
    CarryDropped(u, v);
    assert Folded(u + v) == Folded(s);
    if u + v > 0 {
      FoldedBelowTwice(u + v);
    }
  }

  /**
    csum gives the RFC 1071 checksum exactly when the second fold leaves no carry. The bound on
    the length is that of the int parameter.
   */
  lemma CsumCorrectIff(ws: seq<Word>)
    requires |ws| < 0x8000_0000
    ensures TwoFolds(ws) == Complement(OnesSum(ws)) <==> Fold(Fold(Sum(ws))) < BASE
  {
    SumBound(ws);
    OnesSumFolds(ws);
    TwoFoldsOf(Sum(ws));
  }

  lemma SmallSum(s: nat)
    requires s <= 65538 * (BASE - 1)
    ensures Fold(Fold(s)) < BASE
  {
    var h, l := s / BASE, s % BASE;
    assert s == BASE * h + l;
    assert h <= BASE;
    assert Fold(s) <= 2 * BASE - 2;
  }

  lemma CsumVerdicts(ws: seq<Word>)
    requires |ws| < 0x8000_0000
    ensures TwoFolds(ws) == Complement(OnesSum(ws)) + (if Fold(Fold(Sum(ws))) < BASE then 0 else 1)
    ensures |ws| <= 65538 ==> TwoFolds(ws) == Complement(OnesSum(ws))
  {
    CsumCorrectIff(ws);
    SumBound(ws);
    OnesSumFolds(ws);
    TwoFoldsOf(Sum(ws));
    if |ws| <= 65538 {
      SmallSum(Sum(ws));
    }
  }

  /**
    csum, for a buffer of len words, where len is an int; one that is not positive means no words.
    The result is the RFC 1071 checksum exactly when the second fold leaves no carry.
   */
  method Csum(buf: array<Word>, len: int) returns (r: Word)
    requires len <= buf.Length && len < 0x8000_0000
    ensures var ws := if len > 0 then buf[..len] else [];
            && r == TwoFolds(ws)
            && r == Complement(OnesSum(ws)) + (if Fold(Fold(Sum(ws))) < BASE then 0 else 1)
            && (len <= 65538 ==> r == Complement(OnesSum(ws)))
  {
    ghost var ws := if len > 0 then buf[..len] else [];
    var sum := SumWords(buf, len);
    sum := sum / BASE + sum % BASE;
    sum := sum + sum / BASE;
    r := BASE - 1 - sum % BASE;
    assert r == TwoFolds(ws);
    CsumVerdicts(ws);
  }

  // ---------- for which lengths two folds are enough ----------

  lemma {:induction false} SumOfRepeated(w: Word, k: nat)
    ensures Sum(seq(k, _ => w)) == w * k
  {
    if k > 0 {
      SumOfRepeated(w, k - 1);
      assert seq(k, _ => w)[..k - 1] == seq(k - 1, _ => w);
    }
  }

  lemma {:induction false} SumOfConcat(a: seq<Word>, b: seq<Word>)
    ensures Sum(a + b) == Sum(a) + Sum(b)
  {
    if b == [] {
      assert a + b == a;
    } else {
      SumOfConcat(a, b[..|b| - 1]);
      assert (a + b)[..|a| + |b| - 1] == a + b[..|b| - 1];
    }
  }

  lemma CsumFailsBeyond(n: nat) returns (ws: seq<Word>)
    requires 65538 < n < 0x8000_0000
    ensures |ws| == n && TwoFolds(ws) != Complement(OnesSum(ws))
  {
    var ones, zeros: seq<Word> := seq(65538, _ => 0xFFFF), seq(n - 65539, _ => 0);
    ws := ones + ([1] + zeros);
    SumOfRepeated(0xFFFF, 65538);
    SumOfRepeated(0, n - 65539);
    SumOfConcat([1], zeros);
    SumOfConcat(ones, [1] + zeros);
    assert Sum([1]) == 1 by { AppendWord([], 1); assert [] + [1] == [1]; }
    assert Sum(ws) == 0x1_0000_FFFF;
    assert Fold(Sum(ws)) == 0x1_FFFF && Fold(0x1_FFFF) == BASE;
    CsumCorrectIff(ws);
  }

  /** csum is right on all buffers of n words exactly for n up to 65538. */
  lemma CsumCorrectUpTo(n: nat)
    requires n < 0x8000_0000
    ensures (forall ws: seq<Word> :: |ws| == n ==> TwoFolds(ws) == Complement(OnesSum(ws))) <==> n <= 65538
  {
    if n <= 65538 {
      forall ws: seq<Word> | |ws| == n ensures TwoFolds(ws) == Complement(OnesSum(ws)) {
        CsumVerdicts(ws);
      }
    } else {
      var ws := CsumFailsBeyond(n);
    }
  }

  // ---------- what the checksum says about the bytes ----------

  function ByteSum(bytes: seq<Byte>): (n: nat) {
    Sum(Words(bytes))
  }

  /** The bytes added up, those at odd offsets 256 times. */
  function WeightedSum(bytes: seq<Byte>): (n: nat) {
    if bytes == [] then 0
    else
      var k := |bytes| - 1;
      var b: int := bytes[k];
      WeightedSum(bytes[..k]) + (if k % 2 == 0 then b else 0x100 * b)
  }

  lemma WordsOfLastByte(bytes: seq<Byte>, k: nat)
    requires k + 1 == |bytes|
    ensures k % 2 == 0 ==> Words(bytes) == Words(bytes[..k]) + [Join(0, bytes[k])]
    ensures k % 2 == 1 ==>
      && Words(bytes[..k]) == Words(bytes[..k - 1]) + [bytes[k - 1]]
      && Words(bytes) == Words(bytes[..k - 1]) + [Join(bytes[k], bytes[k - 1])]
  {
  }

  lemma {:induction false} ByteSumIsWeighted(bytes: seq<Byte>)
    ensures ByteSum(bytes) == WeightedSum(bytes)
  {
    if bytes != [] {
      var k := |bytes| - 1;
      ByteSumIsWeighted(bytes[..k]);
      WordsOfLastByte(bytes, k);
      if k % 2 == 0 {
        AppendWord(Words(bytes[..k]), Join(0, bytes[k]));
      } else {
        AppendWord(Words(bytes[..k - 1]), bytes[k - 1]);
        AppendWord(Words(bytes[..k - 1]), Join(bytes[k], bytes[k - 1]));
      }
    }
  }

  lemma ChecksumFolds(bytes: seq<Byte>)
    ensures Checksum(bytes) == Complement(Folded(ByteSum(bytes)))
  {
    OnesSumFolds(Words(bytes));
  }

  lemma ComplementCancels(w: Word, s: nat)
    requires w % 0xFFFF == s % 0xFFFF
    ensures (Complement(w) + s) % 0xFFFF == 0
  {
    var k := s / 0xFFFF - w / 0xFFFF;
    assert s == w + 0xFFFF * k;
    assert Complement(w) + s == 0xFFFF * (k + 1);
  }

  /**
    The checksum cancels the weighted sum of the bytes modulo 2^16 - 1; of the two words that are
    0 by that modulus, it is 0xFFFF for bytes that are all zero and 0 for others.
   */
  lemma ChecksumMeaning(bytes: seq<Byte>)
    ensures (Checksum(bytes) + WeightedSum(bytes)) % 0xFFFF == 0
    ensures Checksum(bytes) == 0xFFFF <==> WeightedSum(bytes) == 0
  {
    ChecksumFolds(bytes);
    ByteSumIsWeighted(bytes);
    FoldedMeaning(ByteSum(bytes));
    ComplementCancels(Folded(ByteSum(bytes)), ByteSum(bytes));
  }

  // ---------- storing and verifying ----------

  /** bytes with w stored as word f, at byte offset 2 * f, by a little-endian host. */
  function Store(bytes: seq<Byte>, f: nat, w: Word): (b: seq<Byte>)
    requires 2 * f + 1 < |bytes|
    ensures |b| == |bytes|
  {
    bytes[2 * f := w % 0x100][2 * f + 1 := w / 0x100]
  }

  lemma WordsOfStore(bytes: seq<Byte>, f: nat, w: Word)
    requires 2 * f + 1 < |bytes|
    ensures Words(Store(bytes, f, w)) == Words(bytes)[f := w]
  {
    var vs, ws := Words(Store(bytes, f, w)), Words(bytes)[f := w];
    forall i | 0 <= i < |ws| ensures vs[i] == ws[i] {
      assert vs[i] == WordAt(Store(bytes, f, w), i);
    }
  }

  lemma {:induction false} SumOfUpdate(ws: seq<Word>, f: nat, w: Word)
    requires f < |ws|
    ensures Sum(ws[f := w]) + ws[f] == Sum(ws) + w
  {
    var k := |ws| - 1;
    if f < k {
      SumOfUpdate(ws[..k], f, w);
      assert ws[f := w][..k] == ws[..k][f := w];
    } else {
      assert ws[f := w][..k] == ws[..k];
    }
  }

  lemma StoredSum(bytes: seq<Byte>, f: nat, w: Word)
    requires 2 * f + 1 < |bytes|
    ensures ByteSum(Store(bytes, f, w)) == ByteSum(Store(bytes, f, 0)) + w
  {
    WordsOfStore(bytes, f, w);
    WordsOfStore(bytes, f, 0);
    SumOfUpdate(Words(bytes), f, w);
    SumOfUpdate(Words(bytes), f, 0);
  }

  /** Exactly which buffers collide: those whose word sums are congruent modulo 2^16 - 1. */
  lemma SameChecksumIff(a: seq<Byte>, b: seq<Byte>)
    ensures Checksum(a) == Checksum(b) <==>
      ((ByteSum(a) == 0 <==> ByteSum(b) == 0) && (ByteSum(a) - ByteSum(b)) % (BASE - 1) == 0)
  {
    ChecksumFolds(a);
    ChecksumFolds(b);
    FoldedEqualIff(ByteSum(a), ByteSum(b));
  }

  lemma FoldedIsFull(s: nat, w: Word)
    ensures Folded(s + w) == BASE - 1
       <==> w == Complement(Folded(s)) || (w == BASE - 1 && Folded(s) == BASE - 1)
  {
    if s == 0 {
      FoldedSmall(w);
    } else {
      var k, r := (s - 1) / (BASE - 1), (s - 1) % (BASE - 1);
      assert s + w == r + 1 + w + (BASE - 1) * k;
      FoldedShift(r + 1 + w, k);
      FoldedBelowTwice(r + 1 + w);
    }
  }

  /**
    Recomputing over the buffer gives 0 exactly when the field holds the checksum taken with
    the field zeroed, or holds 0xFFFF where that checksum is the other form of zero.
   */
  lemma FieldVerifiesIff(bytes: seq<Byte>, f: nat, w: Word)
    requires 2 * f + 1 < |bytes|
    ensures var c := Checksum(Store(bytes, f, 0));
            Checksum(Store(bytes, f, w)) == 0 <==> w == c || (c == 0 && w == 0xFFFF)
  {
    ChecksumFolds(Store(bytes, f, 0));
    ChecksumFolds(Store(bytes, f, w));
    StoredSum(bytes, f, w);
    FoldedIsFull(ByteSum(Store(bytes, f, 0)), w);
  }

  lemma StoreBack(bytes: seq<Byte>, f: nat)
    requires 2 * f + 1 < |bytes|
    ensures Store(bytes, f, WordAt(bytes, f)) == bytes
  {
  }

  /** Of all errors in one aligned word, only an exchange of 0x0000 and 0xFFFF can go unnoticed. */
  lemma WordErrorMissedIff(bytes: seq<Byte>, f: nat, w: Word)
    requires 2 * f + 1 < |bytes| && Checksum(bytes) == 0
    ensures var v := WordAt(bytes, f);
            Checksum(Store(bytes, f, w)) == 0 <==>
              (w == v || (v == 0 && w == 0xFFFF)
               || (v == 0xFFFF && w == 0 && ByteSum(Store(bytes, f, 0)) > 0))
  {
    StoreBack(bytes, f);
    FieldVerifiesIff(bytes, f, WordAt(bytes, f));
    FieldVerifiesIff(bytes, f, w);
    ChecksumFolds(Store(bytes, f, 0));
  }

  /** As for the IP and TCP headers: the field is zeroed, the sum taken, and its complement stored. */
  method FillChecksumField(data: array<Byte>, len: nat, f: nat)
    requires 2 * f + 1 < len <= data.Length
    modifies data
    ensures data[..len] == Store(old(data[..len]), f, Checksum(Store(old(data[..len]), f, 0)))
    ensures Checksum(data[..len]) == 0
    ensures forall i :: 0 <= i < data.Length && i / 2 != f ==> data[i] == old(data[i])
  {
    ghost var bytes := data[..len];
    data[2 * f], data[2 * f + 1] := 0, 0;
    assert data[..len] == Store(bytes, f, 0);
    ghost var folds;
    var c;
    c, folds := ComputeChecksum(data, len);
    data[2 * f], data[2 * f + 1] := c % 0x100, c / 0x100;
    assert data[..len] == Store(bytes, f, c);
    FieldVerifiesIff(bytes, f, c);
  }

  // ---------- byte order ----------

  function SwapBytes(w: Word): (v: Word) {
    0x100 * (w % 0x100) + w / 0x100
  }

  function SwapEach(ws: seq<Word>): (vs: seq<Word>)
    ensures |vs| == |ws|
  {
    seq(|ws|, i requires 0 <= i < |ws| => SwapBytes(ws[i]))
  }

  lemma SwapJoined(h: Byte, l: Byte)
    ensures SwapBytes(Join(h, l)) == Join(l, h)
  {
    var w := Join(h, l);
    assert w / 0x100 == h;
    assert w % 0x100 == w - 0x100 * (w / 0x100);
  }

  lemma SwapAddsJoined(ah: Byte, al: Byte, bh: Byte, bl: Byte)
    ensures OnesAdd(Join(al, ah), Join(bl, bh)) == SwapBytes(OnesAdd(Join(ah, al), Join(bh, bl)))
  {
    var c := if al + bl >= 0x100 then 1 else 0;
    var low, high := al + bl - 0x100 * c, ah + bh + c;
    if high < 0x100 {
      assert OnesAdd(Join(ah, al), Join(bh, bl)) == Join(high, low);
      SwapJoined(high, low);
    } else if low < 0xFF {
      assert OnesAdd(Join(ah, al), Join(bh, bl)) == Join(high - 0x100, low + 1);
      SwapJoined(high - 0x100, low + 1);
    } else {
      assert OnesAdd(Join(ah, al), Join(bh, bl)) == Join(high - 0xFF, 0);
      SwapJoined(high - 0xFF, 0);
    }
  }

  lemma SwapAdds(a: Word, b: Word)
    ensures OnesAdd(SwapBytes(a), SwapBytes(b)) == SwapBytes(OnesAdd(a, b))
  {
    SwapAddsJoined(a / 0x100, a % 0x100, b / 0x100, b % 0x100);
  }

  lemma SwapComplement(w: Word)
    ensures SwapBytes(Complement(w)) == Complement(SwapBytes(w))
  {
    SwapJoined(w / 0x100, w % 0x100);
    SwapJoined(0xFF - w / 0x100, 0xFF - w % 0x100);
  }

  /** Section 2(B) of RFC 1071: swapping the bytes of every word swaps the bytes of the sum. */
  lemma {:induction false} SumOfSwapped(ws: seq<Word>)
    ensures OnesSum(SwapEach(ws)) == SwapBytes(OnesSum(ws))
  {
    if ws != [] {
      var k := |ws| - 1;
      SumOfSwapped(ws[..k]);
      assert SwapEach(ws)[..k] == SwapEach(ws[..k]);
      SwapAdds(OnesSum(ws[..k]), ws[k]);
    }
  }

  lemma NetworkWordsAreSwapped(bytes: seq<Byte>)
    ensures NetworkWords(bytes) == SwapEach(Words(bytes))
  {
    forall i | 0 <= i < (|bytes| + 1) / 2
      ensures NetworkWordAt(bytes, i) == SwapBytes(WordAt(bytes, i))
    {
      SwapJoined(if 2 * i + 1 < |bytes| then bytes[2 * i + 1] else 0, bytes[2 * i]);
    }
  }

  /**
    The little-endian routine puts the same two bytes into the header as the big-endian one of
    RFC 1071, for buffers of every length.
   */
  lemma ByteOrderIrrelevant(bytes: seq<Byte>)
    ensures Complement(OnesSum(NetworkWords(bytes))) == SwapBytes(Checksum(bytes))
  {
    NetworkWordsAreSwapped(bytes);
    SumOfSwapped(Words(bytes));
    SwapComplement(OnesSum(Words(bytes)));
  }
}
