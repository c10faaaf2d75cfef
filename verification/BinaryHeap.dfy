/** The array heap of mid/heap.c and the heapsort of its main. */
module BinaryHeap {
  import opened HeapOrder
  import opened Sequences

  /** -INT_MAX. The one int below it, INT_MIN, cannot be inserted: see InsertDivergesIff. */
  const SENTINEL := -0x7FFF_FFFF

  ghost predicate IsMinimum(m: int, xs: multiset<int>) {
    m in xs && forall x :: x in xs ==> m <= x
  }

  class Heap {
    const heap: array<int>
    var heapSize: nat

    ghost predicate Valid()
      reads this, heap
    {
      heapSize < heap.Length && heap[0] == SENTINEL && Ordered(heap[..], heapSize)
    }

    ghost function Contents(): (xs: multiset<int>)
      reads this, heap
      requires heapSize < heap.Length
    {
      Elements(heap[..], heapSize)
    }

    /** Init; the capacity stands for the fixed length of the global array. */
    constructor (capacity: nat)
      ensures Valid() && fresh(heap) && heap.Length == capacity + 1
      ensures heapSize == 0 && Contents() == multiset{}
    {
      heap := new int[capacity + 1];
      heapSize := 0;
      new;
      heap[0] := SENTINEL;
    }

    method Set(i: nat, x: int)
      requires i < heap.Length
      modifies heap
      ensures heap[..] == old(heap[..])[i := x]
    {
      heap[i] := x;
    }

    /** The loop of Insert: moves parents down until element fits into the hole, and puts it there. */
    method PlaceUp(element: int, ghost total: multiset<int>)
      requires heapSize < heap.Length && PercolatingUp(heap[..], heapSize, heapSize, element, total)
      modifies heap
      ensures Ordered(heap[..], heapSize) && Elements(heap[..], heapSize) == total
      ensures heap[0] == old(heap[0])
    {
      ghost var h := heap[..];
      var now: nat := heapSize;
      while heap[now / 2] > element
        invariant PercolatingUp(h, heapSize, now, element, total)
        invariant heap[..] == h && heap[0] == old(heap[0])
        decreases now
      {
        assert heap[now / 2] == h[now / 2];
        PercolateUp(h, heapSize, now, element, total);
        Set(now, heap[now / 2]);
        h := h[now := h[now / 2]];
        now := now / 2;
      }
      FinishUp(h, heapSize, now, element, total);
      Set(now, element);
    }

    method Insert(element: int)
      requires Valid() && heapSize + 1 < heap.Length && element >= -0x7FFF_FFFF
      modifies this`heapSize, heap
      ensures Valid() && heapSize == old(heapSize) + 1
      ensures Contents() == old(Contents()) + multiset{element}
    {
      ghost var total := Contents() + multiset{element};
      StartUp(heap[..], heapSize, element);
      heapSize := heapSize + 1;
      Set(heapSize, element);
      PlaceUp(element, total);
    }

    /** Picks the smaller child; the last one may have no sibling. */
    method SmallerChild(now: nat) returns (child: nat)
      requires 1 <= now && now * 2 <= heapSize < heap.Length
      ensures child / 2 == now && child <= heapSize
      ensures forall j :: 1 <= j <= heapSize && j / 2 == now ==> heap[child] <= heap[j]
    {
      child := now * 2;
      if child != heapSize && heap[child + 1] < heap[child] {
        child := child + 1;
      }
    }

    /** The loop of DeleteMin: moves children up until lastElement fits into the hole. */
    method PlaceDown(lastElement: int, ghost rest: multiset<int>)
      requires PercolatingDown(heap[..], heapSize, 1, lastElement, rest)
      modifies heap
      ensures Ordered(heap[..], heapSize) && Elements(heap[..], heapSize) == rest
      ensures heap[0] == old(heap[0])
    {
      ghost var h := heap[..];
      var now: nat := 1;
      while now * 2 <= heapSize
        invariant PercolatingDown(h, heapSize, now, lastElement, rest)
        invariant heap[..] == h && heap[0] == old(heap[0])
        decreases heapSize - now
      {
        var child := SmallerChild(now);
        assert forall j :: 1 <= j <= heapSize ==> heap[j] == h[j];
        if lastElement > heap[child] {
          PercolateDown(h, heapSize, now, child, lastElement, rest);
          Set(now, heap[child]);
          h := h[now := h[child]];
        } else {
          break;
        }
        now := child;
      }
      FinishDown(h, heapSize, now, lastElement, rest);
      Set(now, lastElement);
    }

    method DeleteMin() returns (minElement: int)
      requires Valid() && heapSize > 0
      modifies this`heapSize, heap
      ensures Valid() && heapSize == old(heapSize) - 1
      ensures IsMinimum(minElement, old(Contents()))
      ensures Contents() == old(Contents()) - multiset{minElement}
    {
      ghost var rest := Contents() - multiset{heap[1]};
      RootIsMinimum(heap[..], heapSize);
      StartDown(heap[..], heapSize);
      minElement := heap[1];
      var lastElement := heap[heapSize];
      heapSize := heapSize - 1;
      PlaceDown(lastElement, rest);
    }
  }

  /** INT_MIN, the one int below the sentinel: inserted into an empty heap it rises forever. */
  lemma IntMinRisesForever(k: nat)
    ensures StillRising([SENTINEL, -0x8000_0000], 1, -0x8000_0000, k)
  {
    RisesForever([SENTINEL, -0x8000_0000], 1, -0x8000_0000, k);
  }

  // ---------- whole runs ----------

  datatype Operation = Put(x: int) | TakeMin

  lemma {:induction false} MinimumExists(xs: multiset<int>)
    requires xs != multiset{}
    ensures exists m :: IsMinimum(m, xs)
    decreases |xs|
  {
    if forall x :: x !in xs {
      assert false;
    }
    var x :| x in xs;
    var rest := xs - multiset{x};
    assert forall y :: y in xs ==> y == x || y in rest;
    if rest == multiset{} {
      assert IsMinimum(x, xs);
    } else {
      MinimumExists(rest);
      var m :| IsMinimum(m, rest);
      assert IsMinimum(if m < x then m else x, xs);
    }
  }

  ghost function Minimum(xs: multiset<int>): (m: int)
    requires xs != multiset{}
    ensures IsMinimum(m, xs)
  {
    MinimumExists(xs);
    var m :| IsMinimum(m, xs);
    m
  }

  /** What a priority queue holds after the given operations. */
  ghost function Held(ops: seq<Operation>): (xs: multiset<int>) {
    if ops == [] then multiset{}
    else
      var before := Held(ops[..|ops| - 1]);
      match ops[|ops| - 1]
      case Put(x) => before + multiset{x}
      case TakeMin => if before == multiset{} then before else before - multiset{Minimum(before)}
  }

  /** What its TakeMin operations return, in order. */
  ghost function Taken(ops: seq<Operation>): (s: seq<int>) {
    if ops == [] then []
    else
      var before := ops[..|ops| - 1];
      match ops[|ops| - 1]
      case Put(_) => Taken(before)
      case TakeMin => if Held(before) == multiset{} then Taken(before) else Taken(before) + [Minimum(Held(before))]
  }

  ghost predicate LegalAfter(before: seq<Operation>, op: Operation) {
    match op
    case Put(x) => x >= SENTINEL
    case TakeMin => Held(before) != multiset{}
  }

  /** Nothing is taken from an empty heap, and nothing below the sentinel is inserted. */
  ghost predicate Legal(ops: seq<Operation>) {
    forall i :: 0 <= i < |ops| ==> LegalAfter(ops[..i], ops[i])
  }

  lemma MinimumUnique(m: int, xs: multiset<int>)
    requires IsMinimum(m, xs)
    ensures xs != multiset{} && m == Minimum(xs)
  {
  }

  lemma SizeOfContents(s: seq<int>, size: nat)
    requires size < |s|
    ensures |Elements(s, size)| == size
  {
  }

  // ---------- what a run must answer ----------

  /** How many minima have been taken. */
  function TakesIn(ops: seq<Operation>): (n: nat) {
    if ops == [] then 0
    else
      var k := |ops| - 1;
      TakesIn(ops[..k]) + (if ops[k].TakeMin? then 1 else 0)
  }

  /** Everything that has been put in. */
  function PutsIn(ops: seq<Operation>): (xs: multiset<int>) {
    if ops == [] then multiset{}
    else
      var k := |ops| - 1;
      PutsIn(ops[..k]) + (if ops[k].Put? then multiset{ops[k].x} else multiset{})
  }

  /** Answer j is the least of everything put in so far and not among the earlier answers. */
  ghost predicate LeastLeft(puts: multiset<int>, answers: seq<int>, j: nat) {
    j < |answers| && IsMinimum(answers[j], puts - multiset(answers[..j]))
  }

  ghost predicate RightAt(ops: seq<Operation>, answers: seq<int>, k: nat)
    requires k < |ops|
  {
    ops[k].TakeMin? ==> LeastLeft(PutsIn(ops[..k]), answers, TakesIn(ops[..k]))
  }

  ghost predicate AnswersRight(ops: seq<Operation>, answers: seq<int>) {
    && |answers| == TakesIn(ops)
    && forall k :: 0 <= k < |ops| ==> RightAt(ops, answers, k)
  }

  lemma {:induction false} TakesGrow(ops: seq<Operation>, k: nat)
    requires k <= |ops|
    ensures TakesIn(ops[..k]) <= TakesIn(ops)
  {
    if k < |ops| {
      var l := |ops| - 1;
      assert ops[..l][..k] == ops[..k];
      TakesGrow(ops[..l], k);
    } else {
      assert ops[..k] == ops;
    }
  }

  lemma LegalUnfold(ops: seq<Operation>, before: seq<Operation>)
    requires ops != [] && before == ops[..|ops| - 1]
    ensures Legal(ops) <==> Legal(before) && LegalAfter(before, ops[|ops| - 1])
  {
    assert forall i :: 0 <= i < |before| ==> before[i] == ops[i] && before[..i] == ops[..i];
    if Legal(ops) {
      forall i | 0 <= i < |before| ensures LegalAfter(before[..i], before[i]) {
        assert LegalAfter(ops[..i], ops[i]);
      }
    }
    if Legal(before) && LegalAfter(before, ops[|ops| - 1]) {
      forall i | 0 <= i < |ops| ensures LegalAfter(ops[..i], ops[i]) {
        if i < |before| {
          assert LegalAfter(before[..i], before[i]);
        }
      }
    }
  }

  lemma TakenUnfold(ops: seq<Operation>, before: seq<Operation>)
    requires ops != [] && before == ops[..|ops| - 1]
    ensures Taken(ops) == if ops[|ops| - 1].TakeMin? && Held(before) != multiset{}
                          then Taken(before) + [Minimum(Held(before))] else Taken(before)
    ensures Held(ops) == match ops[|ops| - 1]
                         case Put(x) => Held(before) + multiset{x}
                         case TakeMin => if Held(before) == multiset{} then Held(before)
                                         else Held(before) - multiset{Minimum(Held(before))}
  {
  }

  lemma OneMoveKeeps(taken: seq<int>, held: multiset<int>, x: int)
    requires x in held
    ensures multiset(taken + [x]) + (held - multiset{x}) == multiset(taken) + held
  {
  }

  /** What is put in is taken out or held, and as much is taken as there are TakeMin operations. */
  lemma {:induction false} TakenAndHeld(ops: seq<Operation>)
    requires Legal(ops)
    ensures |Taken(ops)| == TakesIn(ops)
    ensures multiset(Taken(ops)) + Held(ops) == PutsIn(ops)
  {
    if ops != [] {
      var before := ops[..|ops| - 1];
      LegalUnfold(ops, before);
      TakenAndHeld(before);
      TakenUnfold(ops, before);
      if ops[|ops| - 1].TakeMin? {
        OneMoveKeeps(Taken(before), Held(before), Minimum(Held(before)));
      }
    }
  }

  lemma LeastLeftBefore(puts: multiset<int>, answers: seq<int>, j: nat, more: seq<int>)
    requires j < |answers| && answers <= more
    ensures LeastLeft(puts, answers, j) <==> LeastLeft(puts, more, j)
  {
    assert more[..j] == answers[..j];
  }

  lemma RightAtBefore(ops: seq<Operation>, before: seq<Operation>, answers: seq<int>, more: seq<int>, k: nat)
    requires ops != [] && before == ops[..|ops| - 1] && k < |before|
    requires TakesIn(before) == |answers| && answers <= more
    ensures RightAt(ops, more, k) <==> RightAt(before, answers, k)
  {
    assert before[..k] == ops[..k];
    if ops[k].TakeMin? {
      TakesGrow(before, k + 1);
      assert before[..k + 1][..k] == ops[..k];
      LeastLeftBefore(PutsIn(ops[..k]), answers, TakesIn(ops[..k]), more);
    }
  }

  lemma AnswersRightUnfold(ops: seq<Operation>, before: seq<Operation>, answers: seq<int>, more: seq<int>)
    requires ops != [] && before == ops[..|ops| - 1]
    requires |answers| == TakesIn(before) && |more| == TakesIn(ops) && answers <= more
    ensures AnswersRight(ops, more) <==> AnswersRight(before, answers) && RightAt(ops, more, |ops| - 1)
  {
    forall k | 0 <= k < |ops| - 1
      ensures RightAt(ops, more, k) <==> RightAt(before, answers, k)
    {
      RightAtBefore(ops, before, answers, more, k);
    }
  }

  lemma LeastLeftOver(puts: multiset<int>, held: multiset<int>, answers: seq<int>, x: int)
    requires held != multiset{} && multiset(answers) + held == puts
    ensures LeastLeft(puts, answers + [x], |answers|) <==> x == Minimum(held)
  {
    assert (answers + [x])[..|answers|] == answers;
    assert puts - multiset(answers) == held;
  }

  lemma OneMoreTaken(taken: seq<int>, more: seq<int>, held: multiset<int>, puts: multiset<int>)
    requires taken <= more && |more| == |taken| + 1
    requires held != multiset{} && multiset(taken) + held == puts
    ensures LeastLeft(puts, more, |taken|) <==> more == taken + [Minimum(held)]
  {
    var x := more[|taken|];
    assert more == taken + [x];
    LeastLeftOver(puts, held, taken, x);
  }

  lemma RightAtLast(ops: seq<Operation>, before: seq<Operation>, taken: seq<int>, more: seq<int>)
    requires Legal(ops) && ops != [] && before == ops[..|ops| - 1] && taken == Taken(before)
    requires |more| == TakesIn(ops) && taken <= more && |taken| == TakesIn(before)
    ensures RightAt(ops, more, |ops| - 1) <==> more == Taken(ops)
  {
    LegalUnfold(ops, before);
    TakenAndHeld(before);
    TakenUnfold(ops, before);
    if ops[|ops| - 1].TakeMin? {
      OneMoreTaken(taken, more, Held(before), PutsIn(before));
    }
  }

  /** The answers of a priority queue are the right ones, and no others are. */
  lemma {:induction false} TakenIsRight(ops: seq<Operation>, answers: seq<int>)
    requires Legal(ops)
    ensures AnswersRight(ops, answers) <==> answers == Taken(ops)
  {
    TakenAndHeld(ops);
    if ops != [] && |answers| == TakesIn(ops) {
      var before := ops[..|ops| - 1];
      var t := answers[..TakesIn(before)];
      LegalUnfold(ops, before);
      AnswersRightUnfold(ops, before, t, answers);
      TakenIsRight(before, t);
      if t == Taken(before) {
        RightAtLast(ops, before, t, answers);
      }
    }
  }

  /** Operation i inserts an int that is not below -INT_MAX, or finds something left to take. */
  predicate Possible(ops: seq<Operation>, i: nat)
    requires i < |ops|
  {
    match ops[i]
    case Put(x) => x >= -0x7FFF_FFFF
    case TakeMin => TakesIn(ops[..i]) < |PutsIn(ops[..i])|
  }

  predicate AllPossible(ops: seq<Operation>) {
    forall i :: 0 <= i < |ops| ==> Possible(ops, i)
  }

  lemma PossibleUnfold(ops: seq<Operation>, before: seq<Operation>)
    requires ops != [] && before == ops[..|ops| - 1]
    ensures AllPossible(ops) <==> AllPossible(before) && Possible(ops, |ops| - 1)
  {
    forall i | 0 <= i < |before| ensures Possible(ops, i) <==> Possible(before, i) {
      assert before[..i] == ops[..i];
    }
  }

  lemma PossibleLast(ops: seq<Operation>, before: seq<Operation>)
    requires ops != [] && before == ops[..|ops| - 1] && Legal(before)
    ensures LegalAfter(before, ops[|ops| - 1]) <==> Possible(ops, |ops| - 1)
  {
    TakenAndHeld(before);
    assert |Taken(before)| + |Held(before)| == |PutsIn(before)|;
  }

  /** Which runs are legal, in plain counts. */
  lemma {:induction false} LegalIff(ops: seq<Operation>)
    ensures Legal(ops) <==> AllPossible(ops)
  {
    if ops != [] {
      var before := ops[..|ops| - 1];
      LegalUnfold(ops, before);
      LegalIff(before);
      PossibleUnfold(ops, before);
      if Legal(before) {
        PossibleLast(ops, before);
      }
    }
  }

  /** One operation on the heap; TakeMin appends what it returns. */
  method Apply(h: Heap, op: Operation, taken: seq<int>, ghost before: seq<Operation>) returns (taken': seq<int>)
    requires h.Valid() && h.heapSize + 1 < h.heap.Length && LegalAfter(before, op)
    requires h.Contents() == Held(before) && taken == Taken(before)
    modifies h`heapSize, h.heap
    ensures h.Valid() && h.heapSize <= old(h.heapSize) + 1
    ensures h.Contents() == Held(before + [op]) && taken' == Taken(before + [op])
  {
    assert (before + [op])[..|before|] == before;
    match op {
      case Put(x) =>
        h.Insert(x);
        taken' := taken;
      case TakeMin =>
        SizeOfContents(h.heap[..], h.heapSize);
        var m := h.DeleteMin();
        MinimumUnique(m, Held(before));
        taken' := taken + [m];
    }
  }

  /**
    The array heap refines the priority queue: same answers, same contents, for every legal run.
    Each answer is the least of what was put in and not yet taken out.
   */
  method Perform(ops: seq<Operation>) returns (h: Heap, taken: seq<int>)
    requires Legal(ops)
    ensures h.Valid() && h.Contents() == Held(ops) && taken == Taken(ops)
    ensures AnswersRight(ops, taken) && multiset(taken) + h.Contents() == PutsIn(ops)
  {
    h := new Heap(|ops|);
    taken := [];
    for i := 0 to |ops|
      invariant fresh(h) && fresh(h.heap) && h.Valid() && h.heap.Length == |ops| + 1 && h.heapSize <= i
      invariant h.Contents() == Held(ops[..i]) && taken == Taken(ops[..i])
    {
      assert LegalAfter(ops[..i], ops[i]);
      TakeOneMore(ops, i);
      taken := Apply(h, ops[i], taken, ops[..i]);
    }
    assert ops[..|ops|] == ops;
    TakenAndHeld(ops);
    TakenIsRight(ops, taken);
  }

  ghost predicate Sorted(s: seq<int>) {
    forall i, j :: 0 <= i < j < |s| ==> s[i] <= s[j]
  }

  ghost predicate AllBelow(s: seq<int>, xs: multiset<int>) {
    forall i, y :: 0 <= i < |s| && y in xs ==> s[i] <= y
  }

  lemma TakenInOrder(output: seq<int>, before: multiset<int>, m: int)
    requires Sorted(output) && AllBelow(output, before) && IsMinimum(m, before)
    ensures Sorted(output + [m]) && AllBelow(output + [m], before - multiset{m})
    ensures multiset(output + [m]) + (before - multiset{m}) == multiset(output) + before
  {
  }

  /** The second loop of `main`. */
  method Drain(h: Heap) returns (output: seq<int>)
    requires h.Valid()
    modifies h`heapSize, h.heap
    ensures Sorted(output) && multiset(output) == old(h.Contents())
  {
    output := [];
    ghost var all := h.Contents();
    var n := h.heapSize;
    for i := 0 to n
      invariant h.Valid() && h.heapSize == n - i
      invariant Sorted(output) && multiset(output) + h.Contents() == all
      invariant AllBelow(output, h.Contents())
    {
      ghost var before := h.Contents();
      var m := h.DeleteMin();
      TakenInOrder(output, before, m);
      output := output + [m];
    }
    assert h.heap[..][1..h.heapSize + 1] == [];
  }

  /** `main`: what is printed is the input, sorted. */
  method HeapSort(input: seq<int>) returns (output: seq<int>)
    requires forall i :: 0 <= i < |input| ==> input[i] >= -0x7FFF_FFFF
    ensures Sorted(output) && multiset(output) == multiset(input)
  {
    var h := new Heap(|input|);
    for i := 0 to |input|
      invariant fresh(h) && fresh(h.heap) && h.Valid() && h.heap.Length == |input| + 1 && h.heapSize == i
      invariant h.Contents() == multiset(input[..i])
    {
      TakeOneMore(input, i);
      h.Insert(input[i]);
    }
    assert input[..|input|] == input;
    output := Drain(h);
  }
}
