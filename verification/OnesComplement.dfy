/**
  One's-complement arithmetic on 16-bit words, as in section 1 of RFC 1071, and what folding
  carries has to do with it.
 */
module OnesComplement {

  const BASE := 0x1_0000

  type Word = x: int | 0 <= x < 0x1_0000

  type Byte = x: int | 0 <= x < 0x100

  /** One's-complement addition: the carry out of the top bit is added back at the bottom. */
  function OnesAdd(a: Word, b: Word): (c: Word) {
    if a + b >= BASE then a + b - BASE + 1 else a + b
  }

  function OnesSum(ws: seq<Word>): (w: Word) {
    if ws == [] then 0 else OnesAdd(OnesSum(ws[..|ws| - 1]), ws[|ws| - 1])
  }

  function Complement(w: Word): (c: Word) {
    BASE - 1 - w
  }

  function Sum(ws: seq<Word>): (n: nat) {
    if ws == [] then 0 else Sum(ws[..|ws| - 1]) + ws[|ws| - 1]
  }

  /** One folding step, as written in the programs. */
  function Fold(s: nat): (t: nat) {
    s % BASE + s / BASE
  }

  /** The word that a sum folds to: its residue modulo 2^16 - 1, where only 0 itself gives 0. */
  function Folded(s: nat): (w: Word) {
    if s == 0 then 0 else (s - 1) % (BASE - 1) + 1
  }

  lemma FoldedSmall(s: nat)
    requires s < BASE
    ensures Folded(s) == s
  {
  }

  lemma FoldedShift(s: nat, k: nat)
    requires s > 0
    ensures Folded(s + (BASE - 1) * k) == Folded(s)
  {
    assert (s - 1 + (BASE - 1) * k) % (BASE - 1) == (s - 1) % (BASE - 1);
  }

  lemma FoldKeeps(s: nat)
    ensures Folded(Fold(s)) == Folded(s)
    ensures s >= BASE ==> Fold(s) < s
    ensures s < BASE ==> Fold(s) == s
  {
    var h := s / BASE;
    assert Fold(s) == s - (BASE - 1) * h;
    if s > 0 {
      assert Fold(s) > 0;
      FoldedShift(Fold(s), h);
    }
  }

  lemma FoldedBelowTwice(s: nat)
    requires 0 < s <= 2 * (BASE - 1)
    ensures Folded(s) == if s < BASE then s else s - (BASE - 1)
  {
  }

  lemma CongruentIff(a: nat, b: nat)
    ensures a % (BASE - 1) == b % (BASE - 1) <==> (a - b) % (BASE - 1) == 0
  {
  }

  /** Two sums fold to the same word exactly when both are zero or both not, and they are congruent. */
  lemma FoldedEqualIff(s: nat, t: nat)
    ensures Folded(s) == Folded(t) <==> ((s == 0 <==> t == 0) && (s - t) % (BASE - 1) == 0)
  {
    if s > 0 && t > 0 {
      CongruentIff(s - 1, t - 1);
    }
  }

  lemma OnesAddFolds(s: nat, b: Word)
    ensures OnesAdd(Folded(s), b) == Folded(s + b)
  {
  }

  /** RFC 1071's word-by-word sum is what the plain sum folds to. */
  lemma {:induction false} OnesSumFolds(ws: seq<Word>)
    ensures OnesSum(ws) == Folded(Sum(ws))
  {
    if ws != [] {
      OnesSumFolds(ws[..|ws| - 1]);
      OnesAddFolds(Sum(ws[..|ws| - 1]), ws[|ws| - 1]);
    }
  }

  lemma FoldedMeaning(s: nat)
    ensures Folded(s) % (BASE - 1) == s % (BASE - 1)
    ensures Folded(s) == 0 <==> s == 0
  {
    if s > 0 {
      var k, r := (s - 1) / (BASE - 1), (s - 1) % (BASE - 1);
      assert s == r + 1 + (BASE - 1) * k;
    }
  }
}
