/** The three array routines of ProblemSolutions.java over sequences of
    integers. Java arrays are not modified by these routines, so values
    (sequences) stand for them; the `HashSet`, `PriorityQueue` and
    `Arrays.sort` they use are modelled by their contracts: a set, a sorted
    sequence whose head is `peek`, and an insertion sort. */
module ProblemSolutions {

  import opened Wrappers

  // ---------------------------------------------------------------------
  // isSubset

  /** `isSubset(list1, list2)`: every element of `list2` occurs in `list1`,
      multiplicity ignored. Builds the set of `list1`, then returns `false`
      at the first element of `list2` not in it. */
  method IsSubset(list1: seq<int>, list2: seq<int>) returns (r: bool)
    ensures r <==> forall j :: 0 <= j < |list2| ==> list2[j] in list1
    ensures !r ==> exists j :: 0 <= j < |list2| && list2[j] !in list1
  {
    var elements: set<int> := {};
    for i := 0 to |list1|
      invariant elements == set x | x in list1[..i]
    {
      assert list1[..i + 1] == list1[..i] + [list1[i]];
      elements := elements + {list1[i]};
    }
    assert list1[..|list1|] == list1;
    for j := 0 to |list2|
      invariant forall j' :: 0 <= j' < j ==> list2[j'] in list1
    {
      if list2[j] !in elements {
        return false;
      }
    }
    return true;
  }

  /** The repository's two cases: {10, 35, 13} is a subset of the first
      list, and adding 8 makes it not one. */
  method IsSubsetExamples() returns (first: bool, second: bool)
    ensures first && !second
  {
    var list1 := [10, 50, 35, 82, 13, 25];
    first := IsSubset(list1, [10, 35, 13]);
    assert list1[0] == 10 && list1[2] == 35 && list1[4] == 13;
    second := IsSubset(list1, [10, 35, 13, 8]);
    assert [10, 35, 13, 8][3] !in list1;
  }

  // ---------------------------------------------------------------------
  // Sorted sequences

  predicate Sorted(s: seq<int>) {
    forall i, j :: 0 <= i < j < |s| ==> s[i] <= s[j]
  }

  /** `s` with `x` inserted before the first element not below it. */
  function Insert(s: seq<int>, x: int): (r: seq<int>)
    ensures |r| == |s| + 1
    ensures r[0] == if s == [] || x <= s[0] then x else s[0]
    ensures multiset(r) == multiset(s) + multiset{x}
    ensures Sorted(s) ==> Sorted(r)
  {
    if s == [] || x <= s[0] then [x] + s
    else
      var rest := Insert(s[1..], x);
      InsertStep(s, x, rest);
      [s[0]] + rest
  }

  /** The inductive step of `Insert`: the head of `s`, kept in front of
      the insertion into the tail, gives the elements and the order. */
  lemma InsertStep(s: seq<int>, x: int, rest: seq<int>)
    requires s != [] && s[0] < x
    requires rest != [] && rest[0] == if s[1..] == [] || x <= s[1] then x else s[1]
    requires multiset(rest) == multiset(s[1..]) + multiset{x}
    requires Sorted(s[1..]) ==> Sorted(rest)
    ensures multiset([s[0]] + rest) == multiset(s) + multiset{x}
    ensures Sorted(s) ==> Sorted([s[0]] + rest)
  {
    assert s == [s[0]] + s[1..];
    if Sorted(s) {
      SortedTail(s);
      SortedCons(s[0], rest);
    }
  }

  /** A sorted sequence stays sorted under a head no greater than its own. */
  lemma SortedCons(x: int, s: seq<int>)
    requires Sorted(s) && (s != [] ==> x <= s[0])
    ensures Sorted([x] + s)
  {
  }

  /** Two sorted sequences with the same elements are equal: a sorted
      permutation is unique. */
  lemma {:induction false} SortedUnique(s: seq<int>, t: seq<int>)
    requires Sorted(s) && Sorted(t) && multiset(s) == multiset(t)
    ensures s == t
    decreases |s|
  {
    if s != [] {
      assert |t| == |multiset(t)| == |s|;
      assert s[0] in multiset(t) && t[0] in multiset(s);
      var k :| 0 <= k < |t| && t[k] == s[0];
      var l :| 0 <= l < |s| && s[l] == t[0];
      assert t[0] <= t[k] && s[0] <= s[l];
      SortedTail(s);
      SortedTail(t);
      assert s == [s[0]] + s[1..] && t == [t[0]] + t[1..];
      assert multiset(s) == multiset{s[0]} + multiset(s[1..]);
      assert multiset(t) == multiset{t[0]} + multiset(t[1..]);
      Cancel(s[0], multiset(s[1..]), multiset(t[1..]));
      SortedUnique(s[1..], t[1..]);
    } else {
      assert |t| == |multiset(t)| == 0;
    }
  }

  /** Adding the same element to two multisets keeps them apart. */
  lemma Cancel<T>(x: T, a: multiset<T>, b: multiset<T>)
    requires multiset{x} + a == multiset{x} + b
    ensures a == b
  {
    assert a == multiset{x} + a - multiset{x};
    assert b == multiset{x} + b - multiset{x};
  }

  lemma SortedTail(s: seq<int>)
    requires Sorted(s) && s != []
    ensures Sorted(s[1..])
  {
    assert forall i :: 0 <= i < |s| - 1 ==> s[1..][i] == s[i + 1];
  }

  // ---------------------------------------------------------------------
  // sort2Arrays

  /** The sort of `Arrays.sort`, as an insertion sort. */
  function Sort(s: seq<int>): (r: seq<int>)
    ensures Sorted(r)
    ensures multiset(r) == multiset(s)
    ensures |r| == |s|
  {
    if s == [] then []
    else
      assert s == s[..|s| - 1] + [s[|s| - 1]];
      Insert(Sort(s[..|s| - 1]), s[|s| - 1])
  }

  /** `sort2Arrays(array1, array2)`: both arrays copied into one, sorted. */
  function Sort2Arrays(first: seq<int>, second: seq<int>): (r: seq<int>)
    ensures |r| == |first| + |second|
    ensures Sorted(r)
    ensures multiset(r) == multiset(first) + multiset(second)
  {
    Sort(first + second)
  }

  /** Any sorted arrangement of the two arrays' elements is the answer. */
  lemma Sort2ArraysUnique(first: seq<int>, second: seq<int>, answer: seq<int>)
    requires Sorted(answer) && multiset(answer) == multiset(first) + multiset(second)
    ensures Sort2Arrays(first, second) == answer
  {
    SortedUnique(Sort2Arrays(first, second), answer);
  }

  /** Sortedness checked on neighbours. */
  lemma {:induction false} SortedByNeighbours(s: seq<int>)
    requires forall i :: 0 < i < |s| ==> s[i - 1] <= s[i]
    ensures Sorted(s)
    decreases |s|
  {
    if s != [] {
      SortedByNeighbours(s[1..]);
      assert forall j :: 0 < j < |s| ==> s[0] <= s[1] <= s[j];
    }
  }

  /** The arrays and the answer of the repository's first case. */
  const List6: seq<int> := [4, 1, 5]
  const List7: seq<int> := [3, 2]
  const Answer1: seq<int> := [1, 2, 3, 4, 5]

  lemma Answer1Elements()
    ensures multiset(Answer1) == multiset(List6) + multiset(List7)
  {
    assert multiset(List6) == multiset{4, 1, 5};
    assert multiset(List7) == multiset{3, 2};
    assert multiset(Answer1) == multiset{1, 2, 3, 4, 5};
  }

  /** The repository's first case: [4, 1, 5] and [3, 2]. */
  lemma Sort2ArraysSmallExample()
    ensures Sort2Arrays(List6, List7) == Answer1
  {
    SortedByNeighbours(Answer1);
    Answer1Elements();
    Sort2ArraysUnique(List6, List7, Answer1);
  }

  /** The arrays and the answer of the repository's second case. */
  const List5: seq<int> := [4, 5, 20, 100, 54, 30, 44, 90, 31, 3, 1001, 88]
  const List2: seq<int> := [10, 35, 13]
  const Answer2: seq<int> := [3, 4, 5, 10, 13, 20, 30, 31, 35, 44, 54, 88, 90, 100, 1001]

  /** The answer holds exactly the elements of the two arrays. */
  lemma Answer2Elements()
    ensures multiset(Answer2) == multiset(List5) + multiset(List2)
  {
    List5Elements();
    List2Elements();
    Answer2Listed();
    Answer2Rearranged();
  }

  lemma Answer2Rearranged()
    ensures multiset{4, 5, 20, 100, 54, 30, 44, 90, 31, 3, 1001, 88} + multiset{10, 35, 13}
         == multiset{3, 4, 5, 10, 13, 20, 30, 31, 35, 44, 54, 88, 90, 100, 1001}
  {
  }

  lemma List5Elements()
    ensures multiset(List5) == multiset{4, 5, 20, 100, 54, 30, 44, 90, 31, 3, 1001, 88}
  {
  }

  lemma List2Elements()
    ensures multiset(List2) == multiset{10, 35, 13}
  {
  }

  lemma Answer2Listed()
    ensures multiset(Answer2) == multiset{3, 4, 5, 10, 13, 20, 30, 31, 35, 44, 54, 88, 90, 100, 1001}
  {
  }

  lemma Answer2Sorted()
    ensures Sorted(Answer2)
  {
    SortedByNeighbours(Answer2);
  }

  /** The repository's second case, of fifteen elements. */
  lemma Sort2ArraysLargeExample()
    ensures Sort2Arrays(List5, List2) == Answer2
  {
    Answer2Sorted();
    Answer2Elements();
    Sort2ArraysUnique(List5, List2, Answer2);
  }

  // ---------------------------------------------------------------------
  // findKthLargest

  /** Elements of `s` greater than `m`. */
  function CountGt(s: seq<int>, m: int): (n: nat)
    ensures n <= |s|
  {
    if s == [] then 0 else (if s[0] > m then 1 else 0) + CountGt(s[1..], m)
  }

  /** Elements of `s` at least `m`. */
  function CountGe(s: seq<int>, m: int): (n: nat)
    ensures n <= |s|
  {
    if s == [] then 0 else (if s[0] >= m then 1 else 0) + CountGe(s[1..], m)
  }

  /** `r` is a k-th largest element of `a`: fewer than `k` elements exceed
      it and at least `k` are at least it. */
  predicate IsKth(a: seq<int>, k: int, r: int) {
    r in a && CountGt(a, r) < k <= CountGe(a, r)
  }

  lemma {:induction false} CountAppend(s: seq<int>, t: seq<int>, m: int)
    ensures CountGt(s + t, m) == CountGt(s, m) + CountGt(t, m)
    ensures CountGe(s + t, m) == CountGe(s, m) + CountGe(t, m)
    decreases |s|
  {
    if s != [] {
      assert (s + t)[1..] == s[1..] + t;
      CountAppend(s[1..], t, m);
    } else {
      assert s + t == t;
    }
  }

  /** The counts depend only on the elements, not their order. */
  lemma {:induction false} CountPerm(s: seq<int>, t: seq<int>, m: int)
    requires multiset(s) == multiset(t)
    ensures CountGt(s, m) == CountGt(t, m) && CountGe(s, m) == CountGe(t, m)
    decreases |s|
  {
    if s == [] {
      assert |t| == |multiset(t)| == 0;
      assert t == [];
    } else {
      assert s[0] in multiset(t);
      var j :| 0 <= j < |t| && t[j] == s[0];
      var rest := t[..j] + t[j + 1..];
      assert t == t[..j] + ([t[j]] + t[j + 1..]);
      assert multiset(t) == multiset(t[..j]) + multiset{t[j]} + multiset(t[j + 1..]);
      assert s == [s[0]] + s[1..];
      assert multiset(s) == multiset{s[0]} + multiset(s[1..]);
      assert multiset(rest) == multiset(t[..j]) + multiset(t[j + 1..]);
      Cancel(s[0], multiset(s[1..]), multiset(rest));
      assert [t[j]][1..] == [];
      CountPerm(s[1..], rest, m);
      CountAppend(t[..j], [t[j]] + t[j + 1..], m);
      CountAppend([t[j]], t[j + 1..], m);
      CountAppend(t[..j], t[j + 1..], m);
    }
  }

  /** Nothing exceeds a bound every element keeps to. */
  lemma {:induction false} CountGtNone(s: seq<int>, m: int)
    requires forall i :: 0 <= i < |s| ==> s[i] <= m
    ensures CountGt(s, m) == 0
    decreases |s|
  {
    if s != [] {
      CountGtNone(s[1..], m);
    }
  }

  /** Everything in a sorted sequence is at least its head, and only the
      elements after the head can exceed it. */
  lemma {:induction false} CountSortedHead(s: seq<int>)
    requires s != [] && Sorted(s)
    ensures CountGe(s, s[0]) == |s|
    ensures CountGt(s, s[0]) < |s|
  {
    CountGeAll(s[1..], s[0]);
  }

  lemma {:induction false} CountGeAll(s: seq<int>, m: int)
    requires forall i :: 0 <= i < |s| ==> s[i] >= m
    ensures CountGe(s, m) == |s|
    decreases |s|
  {
    if s != [] {
      CountGeAll(s[1..], m);
    }
  }

  /** A larger threshold is met by no more elements. */
  lemma {:induction false} CountMonotone(s: seq<int>, lo: int, hi: int)
    requires lo < hi
    ensures CountGe(s, hi) <= CountGt(s, lo)
    decreases |s|
  {
    if s != [] {
      CountMonotone(s[1..], lo, hi);
    }
  }

  /** The k-th largest element is unique. */
  lemma KthUnique(a: seq<int>, k: int, r1: int, r2: int)
    requires IsKth(a, k, r1) && IsKth(a, k, r2)
    ensures r1 == r2
  {
    if r1 < r2 {
      CountMonotone(a, r1, r2);
    } else if r2 < r1 {
      CountMonotone(a, r2, r1);
    }
  }

  /** Why `findKthLargest` fails in Java: the queue's capacity `k` must be
      at least 1, and `peek` on an empty queue is `null`, which cannot be
      unboxed to the `int` result. */
  datatype KthError = IllegalCapacity | NullPeek

  /** One step of the loop: `pq.add(number)`, then `pq.poll()` (remove the
      least element) if the queue holds more than `k`. */
  function Offer(pq: seq<int>, x: int, k: int): (r: seq<int>)
    ensures |r| == (if |pq| + 1 > k then |pq| else |pq| + 1)
  {
    var q := Insert(pq, x);
    if |q| > k then q[1..] else q
  }

  /** `findKthLargest(array, k)`: keeps the `k` largest elements seen in a
      min-queue and returns its least element. For `k > |array|` this is
      the minimum. */
  method FindKthLargest(nums: seq<int>, k: int) returns (r: Result<int, KthError>)
    ensures k < 1 <==> r == Err(IllegalCapacity)
    ensures k >= 1 && nums == [] <==> r == Err(NullPeek)
    ensures k >= 1 && nums != [] <==> r.Ok?
    ensures r.Ok? ==> IsKth(nums, if k < |nums| then k else |nums|, r.value)
  {
    if k < 1 {
      return Err(IllegalCapacity);
    }
    var pq, polled := KeepLargest(nums, k);
    if pq == [] {
      return Err(NullPeek);
    }
    KthOfQueue(nums, pq, polled);
    return Ok(pq[0]);
  }

  /** The state of the loop of `findKthLargest` after the elements `seen`:
      the queue is sorted and holds min(k, |seen|) elements; with the
      elements polled so far it makes up `seen`; every polled element is at
      most the queue's head. */
  ghost predicate Holds(pq: seq<int>, polled: seq<int>, k: int, seen: seq<int>) {
    && Sorted(pq)
    && |pq| == (if |seen| < k then |seen| else k)
    && |pq| + |polled| == |seen|
    && multiset(seen) == multiset(pq + polled)
    && (pq != [] ==> forall d :: 0 <= d < |polled| ==> polled[d] <= pq[0])
  }

  /** The element a full queue polls after `add(x)`, if any. */
  function Polled(pq: seq<int>, x: int, k: int): seq<int> {
    var q := Insert(pq, x);
    if |q| > k then [q[0]] else []
  }

  /** One iteration keeps the loop state. */
  lemma OfferHolds(pq: seq<int>, polled: seq<int>, k: int, seen: seq<int>, x: int)
    requires k >= 1 && Holds(pq, polled, k, seen)
    ensures Holds(Offer(pq, x, k), polled + Polled(pq, x, k), k, seen + [x])
  {
    var q := Insert(pq, x);
    assert multiset(seen + [x]) == multiset(seen) + multiset{x};
    if |q| > k {
      PollKeepsBound(pq, polled, x);
      PollStep(pq, polled, x);
    } else {
      AddStep(pq, polled, x);
    }
  }

  /** The loop of `findKthLargest`. */
  method KeepLargest(nums: seq<int>, k: int) returns (pq: seq<int>, polled: seq<int>)
    requires k >= 1
    ensures Holds(pq, polled, k, nums)
  {
    pq := [];
    polled := [];
    for i := 0 to |nums|
      invariant Holds(pq, polled, k, nums[..i])
    {
      assert nums[..i + 1] == nums[..i] + [nums[i]];
      OfferHolds(pq, polled, k, nums[..i], nums[i]);
      polled := polled + Polled(pq, nums[i], k);
      pq := Offer(pq, nums[i], k);
    }
    assert nums[..|nums|] == nums;
  }

  /** An `add` without a `poll` adds the element to the queue. */
  lemma AddStep(pq: seq<int>, polled: seq<int>, x: int)
    ensures multiset(Insert(pq, x) + polled) == multiset(pq + polled) + multiset{x}
  {
    assert multiset(Insert(pq, x) + polled) == multiset(Insert(pq, x)) + multiset(polled);
  }

  /** When the queue is full, the element `poll` removes after an `add`
      is below every element left, and so is every element polled before. */
  lemma PollKeepsBound(pq: seq<int>, polled: seq<int>, x: int)
    requires Sorted(pq) && pq != []
    requires forall d :: 0 <= d < |polled| ==> polled[d] <= pq[0]
    ensures var q := Insert(pq, x);
      forall d :: 0 <= d < |polled + [q[0]]| ==> (polled + [q[0]])[d] <= q[1]
  {
    var q := Insert(pq, x);
    assert q[0] <= q[1];
    if x <= pq[0] {
      assert q[1] == pq[0];
    } else {
      assert q[1] == Insert(pq[1..], x)[0];
      assert pq[1..] != [] ==> pq[0] <= pq[1..][0];
    }
  }

  /** Polling after an `add` moves the least element from the queue to the
      polled ones: together they still hold every element seen. */
  lemma PollStep(pq: seq<int>, polled: seq<int>, x: int)
    requires Sorted(pq)
    ensures var q := Insert(pq, x);
      && Sorted(q[1..])
      && multiset(q[1..] + (polled + [q[0]])) == multiset(pq + polled) + multiset{x}
  {
    var q := Insert(pq, x);
    SortedTail(q);
    assert q == [q[0]] + q[1..];
    assert multiset(q) == multiset{q[0]} + multiset(q[1..]);
    var rest, head := multiset(q[1..]), multiset{q[0]};
    assert multiset(q[1..] + (polled + [q[0]])) == rest + multiset(polled) + head;
    assert rest + head == multiset(pq) + multiset{x};
    assert rest + multiset(polled) + head == (rest + head) + multiset(polled);
    assert multiset(pq + polled) == multiset(pq) + multiset(polled);
    assert (multiset(pq) + multiset{x}) + multiset(polled) == multiset(pq) + multiset(polled) + multiset{x};
  }

  /** At the end of the loop the head of the queue is a k'-th largest
      element of the array, for k' the queue's length. */
  lemma KthOfQueue(nums: seq<int>, pq: seq<int>, polled: seq<int>)
    requires pq != [] && Sorted(pq)
    requires multiset(nums) == multiset(pq + polled)
    requires forall d :: 0 <= d < |polled| ==> polled[d] <= pq[0]
    ensures IsKth(nums, |pq|, pq[0])
  {
    var m := pq[0];
    CountPerm(nums, pq + polled, m);
    CountAppend(pq, polled, m);
    CountGtNone(polled, m);
    CountSortedHead(pq);
    assert m in multiset(pq + polled);
  }

  /** The repository's first case: the 4th largest of [1,7,3,10,34,5,8]
      is 7. */
  lemma KthFirstExample()
    ensures IsKth([1, 7, 3, 10, 34, 5, 8], 4, 7)
  {
  }

  /** The 6th largest of the same array is 3. */
  lemma KthSecondExample()
    ensures IsKth([1, 7, 3, 10, 34, 5, 8], 6, 3)
  {
  }

  /** The 6th largest of the twelve-element array is 44. */
  lemma KthThirdExample()
    ensures IsKth([4, 5, 20, 100, 54, 30, 44, 90, 31, 3, 1001, 88], 6, 44)
  {
  }

  /** The repository's three cases through `findKthLargest`: each answer is
      the only k-th largest element, so the method must return it. */
  method FindKthLargestExamples() returns (first: Result<int, KthError>, second: Result<int, KthError>,
                                          third: Result<int, KthError>)
    ensures first == Ok(7) && second == Ok(3) && third == Ok(44)
  {
    var list4 := [1, 7, 3, 10, 34, 5, 8];
    var list5 := [4, 5, 20, 100, 54, 30, 44, 90, 31, 3, 1001, 88];
    assert |list4| == 7 && |list5| == 12;
    first := FindKthLargest(list4, 4);
    KthFirstExample();
    KnownKth(list4, 4, first, 7);
    second := FindKthLargest(list4, 6);
    KthSecondExample();
    KnownKth(list4, 6, second, 3);
    third := FindKthLargest(list5, 6);
    KthThirdExample();
    KnownKth(list5, 6, third, 44);
  }

  /** A result of `findKthLargest` for k at most the length is the known
      k-th largest element. */
  lemma KnownKth(nums: seq<int>, k: int, r: Result<int, KthError>, v: int)
    requires 1 <= k <= |nums|
    requires r.Ok? <==> k >= 1 && nums != []
    requires r.Ok? ==> IsKth(nums, k, r.value)
    requires IsKth(nums, k, v)
    ensures r == Ok(v)
  {
    KthUnique(nums, k, r.value, v);
  }
}
