/** The search for unused code space (Dobby-master/source/MemoryAllocator/NearMemoryAllocator.h): a substring search
    that never backs up, and the aligned block placed in the zero bytes it finds. */
module NearMemory {
  import opened Wrappers

  // ---------------------------------------------------------------- what a search means

  ghost predicate OccursAt<T>(h: seq<T>, needle: seq<T>, at: nat) {
    at + |needle| <= |h| && h[at..at + |needle|] == needle
  }

  /** The leftmost occurrence, or none. */
  ghost predicate Leftmost<T>(h: seq<T>, needle: seq<T>, r: Option<nat>) {
    match r
    case Some(at) => OccursAt(h, needle, at) && forall k :: 0 <= k < at ==> !OccursAt(h, needle, k)
    case None => forall k :: k >= 0 ==> !OccursAt(h, needle, k)
  }

  ghost predicate Constant<T>(s: seq<T>) {
    forall i :: 0 <= i < |s| ==> s[i] == s[0]
  }

  // ---------------------------------------------------------------- the scan

  /** The loop of `memmem_impl` from position `i`, with `m` bytes matched since the candidate `r`; a mismatch moves the
      candidate past the byte just read. */
  function Scan<T(==)>(h: seq<T>, needle: seq<T>, i: nat, m: nat, r: nat): Option<nat>
    requires i <= |h| && m <= |needle|
    decreases |h| - i
  {
    if m == |needle| then Some(r)
    else if |needle| - m > |h| - i then None
    else if needle[m] != h[i] then Scan(h, needle, i + 1, 0, i + 1)
    else Scan(h, needle, i + 1, m + 1, r)
  }

  method MemMem<T(==)>(h: seq<T>, needle: seq<T>) returns (r: Option<nat>)
    ensures r == Scan(h, needle, 0, 0, 0)
  {
    var i, m, candidate := 0, 0, 0;
    while m != |needle| && |needle| - m <= |h| - i
      invariant i <= |h| && m <= |needle| && Scan(h, needle, i, m, candidate) == Scan(h, needle, 0, 0, 0)
      decreases |h| - i
    {
      if needle[m] != h[i] {
        m, candidate := 0, i + 1;
      } else {
        m := m + 1;
      }
      i := i + 1;
    }
    return if m == |needle| then Some(candidate) else None;
  }

  /** For a needle of one repeated byte nothing is missed: no occurrence holds a byte that mismatched. */
  lemma {:induction false} ScanConstant<T>(h: seq<T>, needle: seq<T>, i: nat, m: nat, r: nat)
    requires Constant(needle) && i <= |h| && m <= |needle| && i == r + m
    requires h[r..i] == needle[..m] && forall k :: 0 <= k < r ==> !OccursAt(h, needle, k)
    ensures Leftmost(h, needle, Scan(h, needle, i, m, r))
    decreases |h| - i
  {
    if m == |needle| {
      assert needle[..m] == needle;
    } else if |needle| - m > |h| - i {
      assert forall k :: k >= 0 && OccursAt(h, needle, k) ==> k < r;
    } else if needle[m] != h[i] {
      forall k | 0 <= k < i + 1
        ensures !OccursAt(h, needle, k)
      {
        MismatchSkips(h, needle, i, m, r, k);
      }
      ScanConstant(h, needle, i + 1, 0, i + 1);
    } else {
      assert h[r..i + 1] == h[r..i] + [h[i]];
      assert needle[..m + 1] == needle[..m] + [needle[m]];
      ScanConstant(h, needle, i + 1, m + 1, r);
    }
  }

  lemma MismatchSkips<T>(h: seq<T>, needle: seq<T>, i: nat, m: nat, r: nat, k: nat)
    requires Constant(needle) && i < |h| && m < |needle| && i == r + m && needle[m] != h[i] && k <= i
    requires forall j :: 0 <= j < r ==> !OccursAt(h, needle, j)
    ensures !OccursAt(h, needle, k)
  {
    if r <= k && k + |needle| <= |h| {
      assert h[k..k + |needle|][i - k] == h[i];
    }
  }

  /** A needle that is not constant is missed when its first byte is doubled. */
  lemma ScanNotConstant<T>(needle: seq<T>)
    requires !Constant(needle)
    ensures needle != [] && !Leftmost([needle[0]] + needle, needle, Scan([needle[0]] + needle, needle, 0, 0, 0))
  {
    var h := [needle[0]] + needle;
    assert h[1..1 + |needle|] == needle;
    assert OccursAt(h, needle, 1);
    CandidateNotOne(h, needle, 1, 1, 0);
    var i :| 0 <= i < |needle| && needle[i] != needle[0];
    NotAtStart(needle, i);
  }

  lemma {:induction false} NotAtStart<T>(needle: seq<T>, i: nat)
    requires i < |needle| && needle[i] != needle[0]
    ensures !OccursAt([needle[0]] + needle, needle, 0)
    decreases i
  {
    var h := [needle[0]] + needle;
    if OccursAt(h, needle, 0) {
      assert h[0..|needle|][i] == needle[i] && h[i] == needle[i - 1];
      NotAtStart(needle, i - 1);
    }
  }

  lemma {:induction false} CandidateNotOne<T>(h: seq<T>, needle: seq<T>, i: nat, m: nat, r: nat)
    requires i <= |h| && m <= |needle| && i > 0 && r != 1
    ensures Scan(h, needle, i, m, r) != Some(1)
    decreases |h| - i
  {
    if m != |needle| && |needle| - m <= |h| - i {
      if needle[m] != h[i] {
        CandidateNotOne(h, needle, i + 1, 0, i + 1);
      } else {
        CandidateNotOne(h, needle, i + 1, m + 1, r);
      }
    }
  }

  /** The search that never backs up finds the leftmost occurrence in every text exactly for constant needles. */
  lemma ScanExactly<T(!new)>(needle: seq<T>)
    ensures (forall h :: Leftmost(h, needle, Scan(h, needle, 0, 0, 0))) <==> Constant(needle)
  {
    if Constant(needle) {
      forall h: seq<T>
        ensures Leftmost(h, needle, Scan(h, needle, 0, 0, 0))
      {
        ScanConstant(h, needle, 0, 0, 0);
      }
    } else {
      ScanNotConstant(needle);
    }
  }

  // ---------------------------------------------------------------- the block in the gap

  /** Memory from `start` to `end`, as `MemRange`. */
  datatype Range = Range(start: nat, size: nat)

  datatype Region = Region(range: Range, executable: bool)

  function RangeEnd(r: Range): nat {
    r.start + r.size
  }

  /** `MemRange::intersect`. */
  function Intersect(a: Range, b: Range): Range {
    var start := if a.start < b.start then b.start else a.start;
    var end := if RangeEnd(a) < RangeEnd(b) then RangeEnd(a) else RangeEnd(b);
    if start < end then Range(start, end - start) else Range(0, 0)
  }

  function Zeroes(n: nat): seq<nat> {
    seq(n, _ => 0)
  }

  function AlignUp4(a: nat): nat {
    (a + 3) / 4 * 4
  }

  ghost function Bytes(mem: nat -> nat, r: Range): (s: seq<nat>)
    ensures |s| == r.size
  {
    seq(r.size, i requires 0 <= i < r.size => mem(r.start + i))
  }

  method ReadBytes(mem: nat -> nat, r: Range) returns (s: seq<nat>)
    ensures s == Bytes(mem, r)
  {
    s := seq(r.size, i requires 0 <= i < r.size => mem(r.start + i));
  }

  /** The block `[at, at + size)` is aligned, inside the range and all zero. */
  ghost predicate GoodGap(mem: nat -> nat, range: Range, at: nat, size: nat) {
    && at % 4 == 0 && range.start <= at && at + size <= RangeEnd(range)
    && forall a :: at <= a < at + size ==> mem(a) == 0
  }

  /** Three bytes of slack make room for the alignment. */
  lemma AlignedInside(mem: nat -> nat, part: Range, size: nat, at: nat)
    requires OccursAt(Bytes(mem, part), Zeroes(size + 3), at)
    ensures GoodGap(mem, part, AlignUp4(part.start + at), size)
  {
    var bytes, block := Bytes(mem, part), AlignUp4(part.start + at);
    assert part.start + at <= block <= part.start + at + 3;
    forall a | block <= a < block + size
      ensures mem(a) == 0
    {
      var k := a - part.start;
      assert bytes[at..at + size + 3][k - at] == bytes[k] == mem(part.start + k);
    }
  }

  ghost predicate GapIn(mem: nat -> nat, near: Range, region: Region, at: nat, size: nat) {
    region.executable && GoodGap(mem, near, at, size) && GoodGap(mem, region.range, at, size)
  }

  /** No run of zero bytes, with the slack, where the region meets the range. */
  ghost predicate NoRun(mem: nat -> nat, near: Range, region: Region, size: nat) {
    var part := Intersect(near, region.range);
    region.executable && size <= part.size ==> Leftmost(Bytes(mem, part), Zeroes(size + 3), None)
  }

  /** Step 3 of `allocNearBlock`: a gap of unused code in the executable regions near the given range; a miss means
      that no run of zero bytes with the slack exists there. */
  method FindCodeGap(mem: nat -> nat, regions: seq<Region>, near: Range, size: nat) returns (r: Option<nat>)
    requires size + 3 <= 0x1000
    ensures r.Some? ==> exists i :: 0 <= i < |regions| && GapIn(mem, near, regions[i], r.value, size)
    ensures r.None? ==> forall i :: 0 <= i < |regions| ==> NoRun(mem, near, regions[i], size)
  {
    for i := 0 to |regions|
      invariant forall j :: 0 <= j < i ==> NoRun(mem, near, regions[j], size)
    {
      var part := Intersect(near, regions[i].range);
      if regions[i].executable && part.size >= size {
        var bytes := ReadBytes(mem, part);
        var gap := MemMem(bytes, Zeroes(size + 3));
        ScanConstant(bytes, Zeroes(size + 3), 0, 0, 0);
        if gap.Some? {
          AlignedInside(mem, part, size, gap.value);
          assert GapIn(mem, near, regions[i], AlignUp4(part.start + gap.value), size);
          return Some(AlignUp4(part.start + gap.value));
        }
      }
    }
    return None;
  }
}
