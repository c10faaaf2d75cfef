/**
  Heap order on sequences, and the hole that percolates through it. Index 0 holds a sentinel,
  the heap is s[1..size + 1], and the parent of j is j / 2.
 */
module HeapOrder {

  ghost predicate Ordered(s: seq<int>, size: nat) {
    size < |s| && forall j :: 1 <= j <= size ==> s[j / 2] <= s[j]
  }

  function Elements(s: seq<int>, size: nat): (xs: multiset<int>)
    requires size < |s|
  {
    multiset(s[1..size + 1])
  }

  /** All is ordered except that s[now] may be smaller than its parent. */
  ghost predicate RisingAt(s: seq<int>, size: nat, now: nat) {
    && 1 <= now <= size < |s|
    && (forall j :: 1 <= j <= size && j != now ==> s[j / 2] <= s[j])
    && (forall j :: 1 <= j <= size && j / 2 == now ==> s[now / 2] <= s[j])
  }

  /** All is ordered except that s[now] may be larger than its children. */
  ghost predicate SinkingAt(s: seq<int>, size: nat, now: nat) {
    && 1 <= now < |s| && size < |s|
    && (forall j :: 1 <= j <= size && j / 2 != now ==> s[j / 2] <= s[j])
    && (forall j :: 1 <= j <= size && j / 2 == now ==> s[now / 2] <= s[j])
  }

  function Swap(s: seq<int>, i: nat, j: nat): (t: seq<int>)
    requires i < |s| && j < |s|
    ensures |t| == |s|
  {
    s[i := s[j]][j := s[i]]
  }

  lemma SwapInside(s: seq<int>, i: nat, j: nat)
    requires i < |s| && j < |s|
    ensures multiset(Swap(s, i, j)) == multiset(s)
  {
  }

  lemma SwapKeepsElements(s: seq<int>, size: nat, i: nat, j: nat)
    requires size < |s| && 1 <= i <= size && 1 <= j <= size
    ensures Elements(Swap(s, i, j), size) == Elements(s, size)
  {
    assert Swap(s, i, j)[1..size + 1] == Swap(s[1..size + 1], i - 1, j - 1);
    SwapInside(s[1..size + 1], i - 1, j - 1);
  }

  lemma Rise(s: seq<int>, size: nat, now: nat)
    requires RisingAt(s, size, now) && now > 1 && s[now / 2] > s[now]
    ensures RisingAt(Swap(s, now, now / 2), size, now / 2)
    ensures Elements(Swap(s, now, now / 2), size) == Elements(s, size)
  {
    SwapKeepsElements(s, size, now, now / 2);
  }

  lemma Sink(s: seq<int>, size: nat, now: nat, child: nat)
    requires SinkingAt(s, size, now) && child <= size && child / 2 == now && s[child] < s[now]
    requires forall j :: 1 <= j <= size && j / 2 == now ==> s[child] <= s[j]
    ensures SinkingAt(Swap(s, now, child), size, child)
    ensures Elements(Swap(s, now, child), size) == Elements(s, size)
  {
    SwapKeepsElements(s, size, now, child);
  }

  lemma {:induction false} RootIsLeast(s: seq<int>, size: nat, j: nat)
    requires Ordered(s, size) && 1 <= j <= size
    ensures s[1] <= s[j]
  {
    if j > 1 {
      RootIsLeast(s, size, j / 2);
    }
  }

  lemma ElementsAt(s: seq<int>, size: nat, x: int)
    requires size < |s|
    ensures x in Elements(s, size) <==> exists j :: 1 <= j <= size && s[j] == x
  {
    var t := s[1..size + 1];
    if x in Elements(s, size) {
      assert x in t;
      var i :| 0 <= i < |t| && t[i] == x;
      assert s[i + 1] == x;
    }
    if j :| 1 <= j <= size && s[j] == x {
      assert t[j - 1] == x;
    }
  }

  /** The root of a heap is the least of its elements. */
  lemma RootIsMinimum(s: seq<int>, size: nat)
    requires Ordered(s, size) && size > 0
    ensures s[1] in Elements(s, size)
    ensures forall x :: x in Elements(s, size) ==> s[1] <= x
  {
    ElementsAt(s, size, s[1]);
    forall x | x in Elements(s, size) ensures s[1] <= x {
      ElementsAt(s, size, x);
      var j :| 1 <= j <= size && s[j] == x;
      RootIsLeast(s, size, j);
    }
  }

  lemma AppendElement(s: seq<int>, size: nat, x: int)
    requires size + 1 < |s|
    ensures Elements(s[size + 1 := x], size + 1) == Elements(s, size) + multiset{x}
  {
    assert s[size + 1 := x][1..size + 2] == s[1..size + 1] + [x];
  }

  /** Moving the last element to the root and shrinking the heap removes the old root. */
  lemma ReplaceRoot(s: seq<int>, size: nat)
    requires 0 < size < |s|
    ensures Elements(s[1 := s[size]], size - 1) == Elements(s, size) - multiset{s[1]}
  {
    var t := s[1..size + 1];
    assert t == s[1..size] + [s[size]];
    if size == 1 {
      assert t == [s[1]];
    } else {
      assert s[1..size] == [s[1]] + s[2..size];
      assert s[1 := s[size]][1..size] == [s[size]] + s[2..size];
    }
  }

  // ---------- the two percolation loops ----------

  /** Before the guard of Insert is evaluated; the hole is at now. */
  ghost predicate PercolatingUp(h: seq<int>, size: nat, now: nat, element: int, total: multiset<int>) {
    && 1 <= now <= size < |h| && h[0] <= element
    && RisingAt(h[now := element], size, now)
    && Elements(h[now := element], size) == total
  }

  lemma PercolateUp(h: seq<int>, size: nat, now: nat, element: int, total: multiset<int>)
    requires PercolatingUp(h, size, now, element, total) && h[now / 2] > element
    ensures PercolatingUp(h[now := h[now / 2]], size, now / 2, element, total)
  {
    var s := h[now := element];
    Rise(s, size, now);
    assert h[now := h[now / 2]][now / 2 := element] == Swap(s, now, now / 2);
  }

  lemma FinishUp(h: seq<int>, size: nat, now: nat, element: int, total: multiset<int>)
    requires PercolatingUp(h, size, now, element, total) && h[now / 2] <= element
    ensures Ordered(h[now := element], size) && Elements(h[now := element], size) == total
  {
  }

  lemma StartUp(h: seq<int>, size: nat, element: int)
    requires Ordered(h, size) && size + 1 < |h| && h[0] <= element
    ensures PercolatingUp(h[size + 1 := element], size + 1, size + 1, element, Elements(h, size) + multiset{element})
  {
    var s := h[size + 1 := element];
    AppendElement(h, size, element);
    assert s[size + 1 := element] == s;
  }

  /** Before the guard of the loop of DeleteMin is evaluated; the hole is at now. */
  ghost predicate PercolatingDown(h: seq<int>, size: nat, now: nat, last: int, total: multiset<int>) {
    && 1 <= now < |h| && size < |h|
    && SinkingAt(h[now := last], size, now)
    && Elements(h[now := last], size) == total
  }

  lemma PercolateDown(h: seq<int>, size: nat, now: nat, child: nat, last: int, total: multiset<int>)
    requires PercolatingDown(h, size, now, last, total)
    requires child <= size && child / 2 == now && h[child] < last
    requires forall j :: 1 <= j <= size && j / 2 == now ==> h[child] <= h[j]
    ensures PercolatingDown(h[now := h[child]], size, child, last, total)
  {
    var s := h[now := last];
    Sink(s, size, now, child);
    assert h[now := h[child]][child := last] == Swap(s, now, child);
  }

  lemma FinishDown(h: seq<int>, size: nat, now: nat, last: int, total: multiset<int>)
    requires PercolatingDown(h, size, now, last, total)
    requires forall j :: 1 <= j <= size && j / 2 == now ==> last <= h[j]
    ensures Ordered(h[now := last], size) && Elements(h[now := last], size) == total
  {
  }

  lemma {:induction false} LeastOfAll(s: seq<int>, size: nat, j: nat)
    requires Ordered(s, size) && j <= size
    ensures s[0] <= s[j]
  {
    if j > 0 {
      LeastOfAll(s, size, j / 2);
    }
  }

  lemma StartDown(h: seq<int>, size: nat)
    requires Ordered(h, size) && 0 < size
    ensures PercolatingDown(h, size - 1, 1, h[size], Elements(h, size) - multiset{h[1]})
  {
    ReplaceRoot(h, size);
    assert h[0] <= h[size] by { LeastOfAll(h, size, size); }
  }

  // ---------- when the loop of Insert ends ----------

  /** The guard of the loop of Insert has held k times in a row. */
  predicate StillRising(s: seq<int>, now: nat, element: int, k: nat)
    requires now < |s|
    decreases k
  {
    k == 0 ||
    (s[now / 2] > element && StillRising(s[now := s[now / 2]], now / 2, element, k - 1))
  }

  lemma {:induction false} RisesForever(s: seq<int>, now: nat, element: int, k: nat)
    requires now < |s| && (forall j :: 0 <= j <= now / 2 ==> s[j] > element)
    ensures StillRising(s, now, element, k)
    decreases k
  {
    if k > 0 {
      RisesForever(s[now := s[now / 2]], now / 2, element, k - 1);
    }
  }

  lemma {:induction false} FewerRises(s: seq<int>, now: nat, element: int, j: nat, k: nat)
    requires now < |s| && j <= k && StillRising(s, now, element, k)
    ensures StillRising(s, now, element, j)
    decreases k
  {
    if j > 0 {
      FewerRises(s[now := s[now / 2]], now / 2, element, j - 1, k - 1);
    }
  }

  lemma {:induction false} StopsAtSentinel(s: seq<int>, now: nat, element: int)
    requires 0 < now < |s| && s[0] <= element
    ensures !StillRising(s, now, element, now)
    decreases now
  {
    if now > 1 && StillRising(s, now, element, now) {
      StopsAtSentinel(s[now := s[now / 2]], now / 2, element);
      FewerRises(s[now := s[now / 2]], now / 2, element, now / 2, now - 1);
    }
  }

  /** Insert loops forever exactly for elements below the sentinel, that is for INT_MIN. */
  lemma InsertDivergesIff(s: seq<int>, now: nat, element: int)
    requires 0 < now < |s|
    requires forall j :: 0 <= j < now ==> s[0] <= s[j]
    ensures (forall k: nat :: StillRising(s, now, element, k)) <==> element < s[0]
  {
    if element < s[0] {
      forall k: nat ensures StillRising(s, now, element, k) {
        RisesForever(s, now, element, k);
      }
    } else {
      StopsAtSentinel(s, now, element);
    }
  }
}
