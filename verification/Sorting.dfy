/** `vector::sort` (Dobby-master/external/TINYSTL/vector.h): quicksort in place, under any comparison that is a total
    preorder. */
module Sorting {

  /** `compare(x, y) < 0`. */
  type Order<!T> = (T, T) -> bool

  ghost predicate AtMost<T>(lt: Order<T>, x: T, y: T) {
    !lt(y, x)
  }

  /** "At most" is total and transitive. */
  ghost predicate Preorder<T(!new)>(lt: Order<T>) {
    && (forall x, y :: AtMost(lt, x, y) || AtMost(lt, y, x))
    && (forall x, y, z :: AtMost(lt, x, y) && AtMost(lt, y, z) ==> AtMost(lt, x, z))
  }

  ghost predicate Sorted<T>(s: seq<T>, lt: Order<T>) {
    forall i, j :: 0 <= i < j < |s| ==> !lt(s[j], s[i])
  }

  ghost predicate AllBelow<T>(s: seq<T>, pivot: T, lt: Order<T>) {
    forall i :: 0 <= i < |s| ==> lt(s[i], pivot)
  }

  ghost predicate NoneBelow<T>(s: seq<T>, pivot: T, lt: Order<T>) {
    forall i :: 0 <= i < |s| ==> !lt(s[i], pivot)
  }

  // ---------------------------------------------------------------- permutations

  ghost predicate Permutes<T>(s: seq<T>, t: seq<T>) {
    multiset(s) == multiset(t)
  }

  lemma SwapPermutes<T>(s: seq<T>, i: nat, j: nat)
    requires i < |s| && j < |s|
    ensures Permutes(s, s[i := s[j]][j := s[i]])
  {
  }

  lemma PermutesAll<T>(s: seq<T>, t: seq<T>, pivot: T, lt: Order<T>)
    requires Permutes(s, t)
    ensures AllBelow(s, pivot, lt) ==> AllBelow(t, pivot, lt)
    ensures NoneBelow(s, pivot, lt) ==> NoneBelow(t, pivot, lt)
  {
    forall i | 0 <= i < |t|
      ensures t[i] in s
    {
      assert t[i] in multiset(t);
    }
  }

  lemma PermutesConcat<T>(a: seq<T>, b: seq<T>, c: seq<T>, d: seq<T>)
    requires Permutes(a, c) && Permutes(b, d)
    ensures Permutes(a + b, c + d)
  {
    assert multiset(a + b) == multiset(a) + multiset(b);
    assert multiset(c + d) == multiset(c) + multiset(d);
  }

  /** Two sorted parts around a pivot. */
  lemma SortedAround<T(!new)>(low: seq<T>, pivot: T, high: seq<T>, lt: Order<T>)
    requires Preorder(lt) && Sorted(low, lt) && Sorted(high, lt) && AllBelow(low, pivot, lt) && NoneBelow(high, pivot, lt)
    ensures Sorted(low + [pivot] + high, lt)
  {
    var s := low + [pivot] + high;
    forall i, j | 0 <= i < j < |s|
      ensures !lt(s[j], s[i])
    {
      if i < |low| {
        assert s[i] == low[i] && lt(low[i], pivot);
        assert AtMost(lt, low[i], pivot) || AtMost(lt, pivot, low[i]);
        if j > |low| {
          assert s[j] == high[j - |low| - 1];
          assert AtMost(lt, pivot, s[j]);
          assert AtMost(lt, s[i], s[j]);
        }
      } else if i == |low| {
        assert s[j] == high[j - |low| - 1];
      } else {
        assert s[i] == high[i - |low| - 1] && s[j] == high[j - |low| - 1];
      }
    }
  }

  // ---------------------------------------------------------------- the code

  method Swap<T>(a: array<T>, i: nat, j: nat)
    requires i < a.Length && j < a.Length
    modifies a
    ensures a[i] == old(a[j]) && a[j] == old(a[i])
    ensures forall k :: 0 <= k < a.Length && k != i && k != j ==> a[k] == old(a[k])
    ensures Permutes(old(a[..]), a[..])
  {
    ghost var s := a[..];
    SwapPermutes(s, i, j);
    a[i], a[j] := a[j], a[i];
    assert a[..] == s[i := s[j]][j := s[i]];
  }

  /** `partition`: the first element goes between those below it and the rest. */
  method Partition<T>(a: array<T>, lt: Order<T>, p: nat, r: nat) returns (q: nat)
    requires p <= r < a.Length
    modifies a
    ensures p <= q <= r && Permutes(old(a[..]), a[..])
    ensures forall i :: 0 <= i < a.Length && !(p <= i <= r) ==> a[i] == old(a[i])
    ensures forall i :: p <= i < q ==> lt(a[i], a[q])
    ensures forall i :: q < i <= r ==> !lt(a[i], a[q])
  {
    var pivot := a[p];
    var left := p;
    for i := p + 1 to r + 1
      invariant p <= left < i && a[p] == pivot && Permutes(old(a[..]), a[..])
      invariant forall k :: 0 <= k < a.Length && !(p <= k <= r) ==> a[k] == old(a[k])
      invariant forall k :: p < k <= left ==> lt(a[k], pivot)
      invariant forall k :: left < k < i ==> !lt(a[k], pivot)
    {
      if lt(a[i], pivot) {
        left := left + 1;
        Swap(a, i, left);
      }
    }
    Swap(a, p, left);
    return left;
  }

  /** The part of the array from `p` to `r`, both included; empty when `r < p`. */
  ghost function Part<T>(s: seq<T>, p: int, r: int): seq<T>
    requires 0 <= p && r < |s|
  {
    if r < p then [] else s[p..r + 1]
  }

  /** Outside the part nothing changes, and the part is permuted. */
  ghost predicate Local<T>(was: seq<T>, now: seq<T>, p: int, r: int)
    requires 0 <= p && r < |was|
  {
    && |now| == |was| && Permutes(Part(was, p, r), Part(now, p, r))
    && forall i :: 0 <= i < |was| && !(p <= i <= r) ==> now[i] == was[i]
  }

  /** A permutation of the whole that fixes everything outside a part permutes the part. */
  lemma PartPermutes<T>(was: seq<T>, now: seq<T>, p: int, r: int)
    requires 0 <= p <= r < |was| && |now| == |was| && Permutes(was, now)
    requires forall i :: 0 <= i < |was| && !(p <= i <= r) ==> now[i] == was[i]
    ensures Local(was, now, p, r)
  {
    assert was[..p] == now[..p] && was[r + 1..] == now[r + 1..];
    ThreeParts(was, p, r);
    ThreeParts(now, p, r);
    Cancel(multiset(was[..p]), multiset(Part(was, p, r)), multiset(Part(now, p, r)), multiset(was[r + 1..]));
  }

  lemma ThreeParts<T>(s: seq<T>, p: int, r: int)
    requires 0 <= p <= r < |s|
    ensures multiset(s) == multiset(s[..p]) + multiset(Part(s, p, r)) + multiset(s[r + 1..])
  {
    assert s == s[..p] + Part(s, p, r) + s[r + 1..];
  }

  lemma Cancel<T>(a: multiset<T>, b: multiset<T>, b': multiset<T>, c: multiset<T>)
    requires a + b + c == a + b' + c
    ensures b == b'
  {
    forall x
      ensures b[x] == b'[x]
    {
      assert (a + b + c)[x] == (a + b' + c)[x];
    }
  }

  lemma PartSplits<T>(s: seq<T>, p: int, q: int, r: int)
    requires 0 <= p <= q <= r < |s|
    ensures Part(s, p, r) == Part(s, p, q - 1) + [s[q]] + Part(s, q + 1, r)
  {
  }

  lemma SamePart<T>(s: seq<T>, t: seq<T>, p: int, r: int)
    requires 0 <= p && r < |s| && |t| == |s| && forall i :: p <= i <= r ==> t[i] == s[i]
    ensures Part(t, p, r) == Part(s, p, r)
  {
  }

  /** Partitioned, then both sides sorted. */
  lemma SidesSorted<T(!new)>(s1: seq<T>, s2: seq<T>, s3: seq<T>, p: int, q: int, r: int, lt: Order<T>)
    requires 0 <= p <= q <= r < |s1| && Preorder(lt)
    requires Local(s1, s2, p, q - 1) && Local(s2, s3, q + 1, r)
    requires AllBelow(Part(s1, p, q - 1), s1[q], lt) && NoneBelow(Part(s1, q + 1, r), s1[q], lt)
    requires Sorted(Part(s2, p, q - 1), lt) && Sorted(Part(s3, q + 1, r), lt)
    ensures Local(s1, s3, p, r) && Sorted(Part(s3, p, r), lt)
  {
    SidesKept(s1, s2, s3, p, q, r);
    PartSplits(s1, p, q, r);
    PartSplits(s3, p, q, r);
    Sides(Part(s1, p, q - 1), Part(s1, q + 1, r), Part(s3, p, q - 1), Part(s3, q + 1, r), s1[q], lt);
  }

  /** Sorting one side leaves the pivot and the other side. */
  lemma SidesKept<T>(s1: seq<T>, s2: seq<T>, s3: seq<T>, p: int, q: int, r: int)
    requires 0 <= p <= q <= r < |s1| && Local(s1, s2, p, q - 1) && Local(s2, s3, q + 1, r)
    ensures |s3| == |s1| && s3[q] == s1[q] && forall i :: 0 <= i < |s1| && !(p <= i <= r) ==> s3[i] == s1[i]
    ensures Part(s3, p, q - 1) == Part(s2, p, q - 1) && Part(s2, q + 1, r) == Part(s1, q + 1, r)
  {
    SamePart(s2, s3, p, q - 1);
    SamePart(s1, s2, q + 1, r);
  }

  lemma Sides<T(!new)>(low: seq<T>, high: seq<T>, low': seq<T>, high': seq<T>, pivot: T, lt: Order<T>)
    requires Preorder(lt) && Permutes(low, low') && Permutes(high, high')
    requires AllBelow(low, pivot, lt) && NoneBelow(high, pivot, lt) && Sorted(low', lt) && Sorted(high', lt)
    ensures Sorted(low' + [pivot] + high', lt) && Permutes(low + [pivot] + high, low' + [pivot] + high')
  {
    PermutesAll(low, low', pivot, lt);
    PermutesAll(high, high', pivot, lt);
    SortedAround(low', pivot, high', lt);
    PermutesConcat(low, [pivot], low', [pivot]);
    PermutesConcat(low + [pivot], high, low' + [pivot], high');
  }

  lemma LocalThen<T>(s0: seq<T>, s1: seq<T>, s2: seq<T>, p: int, r: int)
    requires 0 <= p && r < |s0| && Local(s0, s1, p, r) && Local(s1, s2, p, r)
    ensures Local(s0, s2, p, r)
  {
  }

  /** What `partition` means for the part. */
  method PartitionPart<T>(a: array<T>, lt: Order<T>, p: int, r: int) returns (q: int)
    requires 0 <= p <= r < a.Length
    modifies a
    ensures p <= q <= r && Local(old(a[..]), a[..], p, r)
    ensures AllBelow(Part(a[..], p, q - 1), a[q], lt) && NoneBelow(Part(a[..], q + 1, r), a[q], lt)
  {
    q := Partition(a, lt, p, r);
    PartPermutes(old(a[..]), a[..], p, r);
  }

  /** `quick_sort`. */
  method QuickSort<T(!new)>(a: array<T>, lt: Order<T>, p: int, r: int)
    requires Preorder(lt) && 0 <= p && r < a.Length
    modifies a
    ensures Local(old(a[..]), a[..], p, r) && Sorted(Part(a[..], p, r), lt)
    decreases if p <= r then r - p + 1 else 0, 1
  {
    if p < r {
      var q := PartitionPart(a, lt, p, r);
      ghost var s1 := a[..];
      SortSides(a, lt, p, q, r, s1);
      LocalThen(old(a[..]), s1, a[..], p, r);
    } else {
      FewSorted(a[..], p, r, lt);
    }
  }

  lemma FewSorted<T>(s: seq<T>, p: int, r: int, lt: Order<T>)
    requires 0 <= p && r <= p && r < |s|
    ensures Local(s, s, p, r) && Sorted(Part(s, p, r), lt)
  {
  }

  method SortSides<T(!new)>(a: array<T>, lt: Order<T>, p: int, q: int, r: int, ghost s1: seq<T>)
    requires Preorder(lt) && 0 <= p <= q <= r < a.Length && a[..] == s1
    requires AllBelow(Part(s1, p, q - 1), s1[q], lt) && NoneBelow(Part(s1, q + 1, r), s1[q], lt)
    modifies a
    ensures Local(s1, a[..], p, r) && Sorted(Part(a[..], p, r), lt)
    decreases r - p + 1, 0
  {
    QuickSort(a, lt, p, q - 1);
    ghost var s2 := a[..];
    assert Local(s1, s2, p, q - 1);
    QuickSort(a, lt, q + 1, r);
    SidesSorted(s1, s2, a[..], p, q, r, lt);
  }

  /** `sort`: the elements that were there, in order. */
  method Sort<T(!new)>(a: array<T>, lt: Order<T>)
    requires Preorder(lt)
    modifies a
    ensures Permutes(old(a[..]), a[..]) && Sorted(a[..], lt)
  {
    QuickSort(a, lt, 0, a.Length - 1);
    assert Part(old(a[..]), 0, a.Length - 1) == old(a[..]) && Part(a[..], 0, a.Length - 1) == a[..];
  }
}
