/** The split-and-merge block allocator (Dobby-master/common/linear_allocator.h).

    The buffer is a row of 8-byte units.  A block is one header unit, which holds a magic number and the size of the
    data, followed by its data.  `blocks` is the ghost list of the blocks from the start of the buffer to its end. */
module Allocator {
  import opened Wrappers

  const USED_MAGIC: nat := 0xdeadbef0
  const FREE_MAGIC: nat := 0xdeadbef1

  /** 32-bit sizes: the number of 8-byte units they can count. */
  const UNITS: nat := 0x2000_0000

  datatype Unit = Unit(magic: nat, size: nat)

  /** A block whose header is at `start`, followed by `data` units. */
  datatype Block = Block(start: nat, data: nat, used: bool)

  function End(b: Block): nat {
    b.start + 1 + b.data
  }

  // ---------------------------------------------------------------- tilings

  /** The blocks follow each other without a gap, from the start of the buffer to its end. */
  ghost predicate Tiles(bs: seq<Block>, n: nat) {
    && bs != [] && bs[0].start == 0 && End(bs[|bs| - 1]) == n
    && forall i :: 0 <= i < |bs| - 1 ==> bs[i + 1].start == End(bs[i])
  }

  lemma {:induction false} Ordered(bs: seq<Block>, n: nat, i: nat, j: nat)
    requires Tiles(bs, n) && i < j < |bs|
    ensures End(bs[i]) <= bs[j].start
    decreases j
  {
    if i < j - 1 {
      Ordered(bs, n, i, j - 1);
    }
    assert bs[j - 1 + 1].start == End(bs[j - 1]);
  }

  lemma Inside(bs: seq<Block>, n: nat, i: nat)
    requires Tiles(bs, n) && i < |bs|
    ensures End(bs[i]) <= n
  {
    if i < |bs| - 1 {
      Ordered(bs, n, i, |bs| - 1);
    }
  }

  /** Header positions are distinct, and data never overlaps a header or other data. */
  lemma Apart(bs: seq<Block>, n: nat)
    requires Tiles(bs, n)
    ensures forall i, j :: 0 <= i < j < |bs| ==> End(bs[i]) <= bs[j].start
    ensures forall i :: 0 <= i < |bs| ==> End(bs[i]) <= n
  {
    forall i, j | 0 <= i < j < |bs|
      ensures End(bs[i]) <= bs[j].start
    {
      Ordered(bs, n, i, j);
    }
    forall i | 0 <= i < |bs|
      ensures End(bs[i]) <= n
    {
      Inside(bs, n, i);
    }
  }

  // ---------------------------------------------------------------- live ranges

  /** The blocks handed out. */
  ghost function Live(bs: seq<Block>): set<Block> {
    set i | 0 <= i < |bs| && bs[i].used :: bs[i]
  }

  // ---------------------------------------------------------------- split, merge and mark

  ghost function Marked(bs: seq<Block>, i: nat, used: bool): seq<Block>
    requires i < |bs|
  {
    bs[i := bs[i].(used := used)]
  }

  /** Block `i` cut to `d` units, and a free block with what is left. */
  ghost function Split(bs: seq<Block>, i: nat, d: nat): seq<Block>
    requires i < |bs| && d < bs[i].data
  {
    bs[..i] + [bs[i].(data := d), Block(bs[i].start + 1 + d, bs[i].data - d - 1, false)] + bs[i + 1..]
  }

  /** Blocks `i` and `i + 1` as one. */
  ghost function Merged(bs: seq<Block>, i: nat): seq<Block>
    requires i + 1 < |bs|
  {
    bs[..i] + [bs[i].(data := bs[i].data + 1 + bs[i + 1].data)] + bs[i + 2..]
  }

  lemma SplitAt(bs: seq<Block>, i: nat, d: nat, k: nat)
    requires i < |bs| && d < bs[i].data && k <= |bs|
    ensures |Split(bs, i, d)| == |bs| + 1
    ensures Split(bs, i, d)[k] ==
      if k < i then bs[k] else if k == i then bs[i].(data := d)
      else if k == i + 1 then Block(bs[i].start + 1 + d, bs[i].data - d - 1, false) else bs[k - 1]
  {
  }

  lemma MergedAt(bs: seq<Block>, i: nat, k: nat)
    requires i + 1 < |bs| && k < |bs| - 1
    ensures |Merged(bs, i)| == |bs| - 1
    ensures Merged(bs, i)[k] ==
      if k < i then bs[k] else if k == i then bs[i].(data := bs[i].data + 1 + bs[i + 1].data) else bs[k + 1]
  {
  }

  lemma MarkedTiles(bs: seq<Block>, n: nat, i: nat, used: bool)
    requires Tiles(bs, n) && i < |bs|
    ensures Tiles(Marked(bs, i, used), n)
  {
  }

  lemma SplitTiles(bs: seq<Block>, n: nat, i: nat, d: nat)
    requires Tiles(bs, n) && i < |bs| && d < bs[i].data
    ensures Tiles(Split(bs, i, d), n)
  {
    var r := Split(bs, i, d);
    SplitAt(bs, i, d, 0);
    SplitAt(bs, i, d, |bs|);
    forall k | 0 <= k < |r| - 1
      ensures r[k + 1].start == End(r[k])
    {
      SplitAt(bs, i, d, k);
      SplitAt(bs, i, d, k + 1);
      if k > i + 1 {
        assert bs[k - 1 + 1].start == End(bs[k - 1]);
      }
    }
  }

  lemma MergedTiles(bs: seq<Block>, n: nat, i: nat)
    requires Tiles(bs, n) && i + 1 < |bs|
    ensures Tiles(Merged(bs, i), n)
  {
    var r := Merged(bs, i);
    assert bs[i + 1].start == End(bs[i]);
    MergedAt(bs, i, 0);
    MergedAt(bs, i, |bs| - 2);
    forall k | 0 <= k < |r| - 1
      ensures r[k + 1].start == End(r[k])
    {
      MergedAt(bs, i, k);
      MergedAt(bs, i, k + 1);
      if k >= i {
        assert bs[k + 1 + 1].start == End(bs[k + 1]);
      }
    }
  }

  /** Merging undoes splitting: nothing is lost. */
  lemma MergeUndoesSplit(bs: seq<Block>, i: nat, d: nat)
    requires i < |bs| && d < bs[i].data
    ensures i + 1 < |Split(bs, i, d)| && Merged(Split(bs, i, d), i) == bs
  {
    var s := Split(bs, i, d);
    SplitAt(bs, i, d, i);
    SplitAt(bs, i, d, i + 1);
    var r := Merged(s, i);
    forall k | 0 <= k < |bs|
      ensures r[k] == bs[k]
    {
      MergedAt(s, i, k);
      SplitAt(bs, i, d, if k <= i then k else k + 1);
    }
  }

  // ---------------------------------------------------------------- live ranges

  lemma LiveMember(bs: seq<Block>, i: nat)
    requires i < |bs|
    ensures bs[i].used ==> bs[i] in Live(bs)
  {
  }

  lemma SplitLive(bs: seq<Block>, i: nat, d: nat)
    requires i < |bs| && d < bs[i].data && !bs[i].used
    ensures Live(Split(bs, i, d)) == Live(bs)
  {
    var r := Split(bs, i, d);
    forall b | b in Live(bs)
      ensures b in Live(r)
    {
      var k :| 0 <= k < |bs| && bs[k].used && bs[k] == b;
      SplitAt(bs, i, d, if k < i then k else k + 1);
      LiveMember(r, if k < i then k else k + 1);
    }
    forall b | b in Live(r)
      ensures b in Live(bs)
    {
      var k :| 0 <= k < |r| && r[k].used && r[k] == b;
      SplitAt(bs, i, d, k);
      LiveMember(bs, if k < i then k else k - 1);
    }
  }

  lemma MergedLive(bs: seq<Block>, i: nat)
    requires i + 1 < |bs| && !bs[i].used && !bs[i + 1].used
    ensures Live(Merged(bs, i)) == Live(bs)
  {
    var r := Merged(bs, i);
    forall b | b in Live(bs)
      ensures b in Live(r)
    {
      var k :| 0 <= k < |bs| && bs[k].used && bs[k] == b;
      MergedAt(bs, i, if k < i then k else k - 1);
      LiveMember(r, if k < i then k else k - 1);
    }
    forall b | b in Live(r)
      ensures b in Live(bs)
    {
      var k :| 0 <= k < |r| && r[k].used && r[k] == b;
      MergedAt(bs, i, k);
      LiveMember(bs, if k < i then k else k + 1);
    }
  }

  lemma TakenLive(bs: seq<Block>, n: nat, i: nat)
    requires Tiles(bs, n) && i < |bs| && !bs[i].used
    ensures Live(Marked(bs, i, true)) == Live(bs) + {bs[i].(used := true)}
    ensures forall b :: b in Live(bs) ==> End(b) <= bs[i].start || End(bs[i]) <= b.start
  {
    Apart(bs, n);
    var r := Marked(bs, i, true);
    LiveMember(r, i);
    forall b | b in Live(bs)
      ensures b in Live(r) && (End(b) <= bs[i].start || End(bs[i]) <= b.start)
    {
      var k :| 0 <= k < |bs| && bs[k].used && bs[k] == b;
      LiveMember(r, k);
    }
  }

  lemma GivenBackLive(bs: seq<Block>, n: nat, i: nat)
    requires Tiles(bs, n) && i < |bs| && bs[i].used
    ensures Live(Marked(bs, i, false)) == Live(bs) - {bs[i]}
  {
    Apart(bs, n);
    var r := Marked(bs, i, false);
    forall b | b in Live(bs) - {bs[i]}
      ensures b in Live(r)
    {
      var k :| 0 <= k < |bs| && bs[k].used && bs[k] == b;
      LiveMember(r, k);
    }
    forall b | b in Live(r)
      ensures b in Live(bs) && b != bs[i]
    {
      var k :| 0 <= k < |r| && r[k].used && r[k] == b;
      LiveMember(bs, k);
    }
  }

  // ---------------------------------------------------------------- the merge pass

  ghost predicate Pair(bs: seq<Block>, i: nat) {
    i + 1 < |bs| && !bs[i].used && !bs[i + 1].used
  }

  /** The pass from block `i` on: each block takes in at most its next one. */
  ghost function PassFrom(bs: seq<Block>, i: nat): seq<Block>
    decreases |bs| - i
  {
    if i >= |bs| then bs
    else if Pair(bs, i) then PassFrom(Merged(bs, i), i + 1)
    else PassFrom(bs, i + 1)
  }

  /** The pass moves no live block, and either shortens the list or finds no two adjacent free blocks. */
  lemma {:induction false} PassKeeps(bs: seq<Block>, n: nat, i: nat)
    requires Tiles(bs, n)
    ensures Tiles(PassFrom(bs, i), n) && Live(PassFrom(bs, i)) == Live(bs) && |PassFrom(bs, i)| <= |bs|
    ensures |PassFrom(bs, i)| == |bs| ==> PassFrom(bs, i) == bs && forall k :: i <= k ==> !Pair(bs, k)
    decreases |bs| - i
  {
    if i < |bs| {
      if Pair(bs, i) {
        MergedTiles(bs, n, i);
        MergedLive(bs, i);
        MergedAt(bs, i, 0);
        PassKeeps(Merged(bs, i), n, i + 1);
      } else {
        PassKeeps(bs, n, i + 1);
      }
    }
  }

  // ---------------------------------------------------------------- what fits

  ghost predicate Fits(b: Block, d: nat) {
    !b.used && b.data >= d
  }

  ghost predicate SomeFits(bs: seq<Block>, d: nat) {
    exists i :: 0 <= i < |bs| && Fits(bs[i], d)
  }

  /** Room for a header and `d` units between the live blocks, however it is cut into free blocks. */
  ghost predicate GapAt(live: set<Block>, n: nat, d: nat, at: nat) {
    at + 1 + d <= n && forall b :: b in live ==> End(b) <= at || at + 1 + d <= b.start
  }

  ghost predicate Gap(live: set<Block>, n: nat, d: nat) {
    exists at :: GapAt(live, n, d, at)
  }

  lemma FittingGap(bs: seq<Block>, n: nat, d: nat, i: nat)
    requires Tiles(bs, n) && i < |bs| && Fits(bs[i], d)
    ensures Gap(Live(bs), n, d)
  {
    Apart(bs, n);
    assert GapAt(Live(bs), n, d, bs[i].start);
  }

  /** The block a unit belongs to. */
  lemma {:induction false} BlockOf(bs: seq<Block>, n: nat, at: nat, k: nat) returns (i: nat)
    requires Tiles(bs, n) && k < |bs| && at < End(bs[k])
    ensures i < |bs| && bs[i].start <= at < End(bs[i])
    decreases k
  {
    if bs[k].start <= at {
      i := k;
    } else {
      assert bs[k - 1 + 1].start == End(bs[k - 1]);
      i := BlockOf(bs, n, at, k - 1);
    }
  }

  /** Once no two free blocks are adjacent, a gap is inside one of them. */
  lemma GapFits(bs: seq<Block>, n: nat, d: nat, at: nat)
    requires Tiles(bs, n) && (forall k :: !Pair(bs, k)) && GapAt(Live(bs), n, d, at)
    ensures SomeFits(bs, d)
  {
    Apart(bs, n);
    var i := BlockOf(bs, n, at, |bs| - 1);
    LiveMember(bs, i);
    if i + 1 < |bs| {
      assert !Pair(bs, i) && bs[i + 1].start == End(bs[i]);
      LiveMember(bs, i + 1);
    }
    assert Fits(bs[i], d);
  }

  // ---------------------------------------------------------------- the allocator

  ghost function HeaderOf(b: Block): Unit {
    Unit(if b.used then USED_MAGIC else FREE_MAGIC, 8 * b.data)
  }

  ghost predicate Headers(us: seq<Unit>, bs: seq<Block>) {
    forall i :: 0 <= i < |bs| ==> bs[i].start < |us| && us[bs[i].start] == HeaderOf(bs[i])
  }

  /** The data of a block. */
  ghost function Payload(us: seq<Unit>, b: Block): seq<Unit> {
    if End(b) <= |us| then us[b.start + 1..End(b)] else []
  }

  /** The data of these blocks is untouched. */
  ghost predicate Kept(us: seq<Unit>, us': seq<Unit>, live: set<Block>) {
    forall b :: b in live ==> Payload(us', b) == Payload(us, b)
  }

  /** Headers and free blocks can be written without touching the data of the blocks in use. */
  lemma HeaderWrite(us: seq<Unit>, bs: seq<Block>, n: nat, i: nat, at: nat, value: Unit)
    requires Tiles(bs, n) && n < |us| && i < |bs| && bs[i].start <= at < End(bs[i]) && (bs[i].used ==> at == bs[i].start)
    ensures at < |us| && Kept(us, us[at := value], Live(bs))
  {
    Apart(bs, n);
  }

  lemma TwoWrites(us: seq<Unit>, bs: seq<Block>, n: nat, i: nat, a: nat, x: Unit, j: nat, b: nat, y: Unit)
    requires Tiles(bs, n) && n < |us| && i < |bs| && bs[i].start <= a < End(bs[i]) && !bs[i].used
    requires j < |bs| && bs[j].start <= b < End(bs[j]) && !bs[j].used
    ensures a < |us| && b < |us| && Kept(us, us[a := x][b := y], Live(bs))
  {
    HeaderWrite(us, bs, n, i, a, x);
    HeaderWrite(us[a := x], bs, n, j, b, y);
    KeptThen(us, us[a := x], us[a := x][b := y], Live(bs));
  }

  lemma KeptThen(us: seq<Unit>, us': seq<Unit>, us'': seq<Unit>, live: set<Block>)
    requires Kept(us, us', live) && Kept(us', us'', live)
    ensures Kept(us, us'', live)
  {
  }

  datatype Outcome = Null | Endless | Data(at: nat)

  /** `ALIGN_CEIL` to the size of a header, in units and 32 bits: requests that round up to 2^32 wrap to nothing. */
  function UnitsFor(bytes: nat): nat {
    (bytes + 7) / 8 % UNITS
  }

  class LinearAllocator {
    const n: nat
    const units: array<Unit>
    var merged: bool
    ghost var bs: seq<Block>

    /** The unit after the buffer is read by the last block's merge; it must not look like a free header. */
    ghost predicate Valid()
      reads this, units
    {
      && units.Length == n + 1 && 0 < n <= UNITS && units[n].magic != FREE_MAGIC
      && Tiles(bs, n) && Headers(units[..], bs)
    }

    constructor (units: array<Unit>)
      requires 1 < units.Length <= UNITS + 1 && units[units.Length - 1].magic != FREE_MAGIC
      modifies units
      ensures Valid() && this.units == units && n == units.Length - 1 && merged && Live(bs) == {}
    {
      this.units, n, merged := units, units.Length - 1, true;
      bs := [Block(0, units.Length - 2, false)];
      new;
      units[0] := Unit(FREE_MAGIC, 8 * (n - 1));
    }

    /** `try_split` on a free block that fits. */
    method TrySplit(cursor: nat, d: nat, ghost i: nat)
      requires Valid() && i < |bs| && cursor == bs[i].start && Fits(bs[i], d)
      modifies this`bs, units
      ensures Valid() && bs == if d < old(bs[i].data) then Split(old(bs), i, d) else old(bs)
      ensures Kept(old(units[..]), units[..], Live(old(bs)))
    {
      HeaderAt(units[..], bs, n, i);
      var size := units[cursor].size / 8;
      assert size == bs[i].data;
      if d < size {
        SplitTiles(bs, n, i, d);
        SplitHeaders(units[..], bs, n, i, d);
        SetTwo(units, cursor + 1 + d, Unit(FREE_MAGIC, 8 * (size - d - 1)), cursor, units[cursor].(size := 8 * d), bs, n, i, i);
        bs := Split(bs, i, d);
      }
    }

    /** `try_merge_next`. */
    method TryMergeNext(cursor: nat, ghost i: nat) returns (did: bool)
      requires Valid() && i < |bs| && cursor == bs[i].start
      modifies this`bs, units
      ensures Valid() && did == old(Pair(bs, i)) && bs == if did then Merged(old(bs), i) else old(bs)
      ensures Kept(old(units[..]), units[..], Live(old(bs)))
    {
      HeaderAt(units[..], bs, n, i);
      if units[cursor].magic != FREE_MAGIC {
        return false;
      }
      var next := cursor + 1 + units[cursor].size / 8;
      if i + 1 < |bs| {
        HeaderAt(units[..], bs, n, i + 1);
      }
      if units[next].magic != FREE_MAGIC {
        return false;
      }
      MergedTiles(bs, n, i);
      MergedHeaders(units[..], bs, n, i);
      SetTwo(units, cursor, units[cursor].(size := units[cursor].size + 8 + units[next].size), next, Unit(0, 0), bs, n, i, i + 1);
      bs := Merged(bs, i);
      return true;
    }

    /** The walk over the blocks, by their sizes, to the first free one that is large enough. */
    method Search(d: nat) returns (found: Option<nat>, ghost i: nat)
      requires Valid()
      ensures found.Some? ==> i < |bs| && found.value == bs[i].start && Fits(bs[i], d)
      ensures found.None? ==> !SomeFits(bs, d)
    {
      var cursor := 0;
      i := 0;
      while cursor < n
        invariant i <= |bs| && cursor == if i < |bs| then bs[i].start else n
        invariant forall j :: 0 <= j < i ==> !Fits(bs[j], d)
        decreases |bs| - i
      {
        HeaderAt(units[..], bs, n, i);
        if units[cursor].magic == FREE_MAGIC && units[cursor].size / 8 >= d {
          return Some(cursor), i;
        }
        cursor := cursor + 1 + units[cursor].size / 8;
        i := i + 1;
      }
      AllWalked(bs, n, i);
      return None, i;
    }

    /** `try_merge_free_blocks`. */
    method MergePass() returns (changed: bool)
      requires Valid()
      modifies this`bs, units
      ensures Valid() && bs == PassFrom(old(bs), 0) && changed == (|bs| < |old(bs)|)
      ensures Live(bs) == Live(old(bs)) && Kept(old(units[..]), units[..], Live(old(bs)))
    {
      var cursor := 0;
      ghost var i := 0;
      changed := false;
      while cursor < n
        invariant Valid() && i <= |bs| <= |old(bs)| && cursor == if i < |bs| then bs[i].start else n
        invariant PassFrom(bs, i) == PassFrom(old(bs), 0) && changed == (|bs| < |old(bs)|)
        invariant Live(bs) == Live(old(bs)) && Kept(old(units[..]), units[..], Live(old(bs)))
        decreases |bs| - i
      {
        ghost var held := units[..];
        var did;
        did, cursor := MergeStep(cursor, i);
        KeptThen(old(units[..]), held, units[..], Live(old(bs)));
        changed := changed || did;
        i := i + 1;
      }
      AllWalked(bs, n, i);
    }

    /** One turn of the pass, and the next block. */
    method MergeStep(cursor: nat, ghost i: nat) returns (did: bool, next: nat)
      requires Valid() && i < |bs| && cursor == bs[i].start
      modifies this`bs, units
      ensures Valid() && i < |bs| && next == if i + 1 < |bs| then bs[i + 1].start else n
      ensures PassFrom(bs, i + 1) == PassFrom(old(bs), i) && |bs| == |old(bs)| - if did then 1 else 0
      ensures Live(bs) == Live(old(bs)) && Kept(old(units[..]), units[..], Live(old(bs)))
    {
      ghost var was := bs;
      did := TryMergeNext(cursor, i);
      if did {
        MergedAt(was, i, i);
        MergedLive(was, i);
      }
      HeaderAt(units[..], bs, n, i);
      next := cursor + 1 + units[cursor].size / 8;
    }

    method MarkUsed(cursor: nat, ghost i: nat)
      requires Valid() && i < |bs| && cursor == bs[i].start && !bs[i].used
      modifies this`bs, units
      ensures Valid() && bs == Marked(old(bs), i, true)
      ensures Kept(old(units[..]), units[..], Live(old(bs)))
    {
      HeaderAt(units[..], bs, n, i);
      HeaderWrite(units[..], bs, n, i, cursor, units[cursor].(magic := USED_MAGIC));
      MarkedTiles(bs, n, i, true);
      MarkedHeaders(units[..], bs, n, i, true);
      units[cursor] := units[cursor].(magic := USED_MAGIC);
      bs := Marked(bs, i, true);
    }

    /** A block that fits is cut to size and handed out. */
    method Take(cursor: nat, d: nat, ghost i: nat)
      requires Valid() && i < |bs| && cursor == bs[i].start && Fits(bs[i], d)
      modifies this`bs, units
      ensures Valid() && Live(bs) == Live(old(bs)) + {Block(cursor, d, true)}
      ensures forall b :: b in Live(old(bs)) ==> End(b) <= cursor || cursor + 1 + d <= b.start
      ensures Kept(old(units[..]), units[..], Live(old(bs)))
    {
      ghost var was := bs;
      TrySplit(cursor, d, i);
      ghost var held := units[..];
      if d < was[i].data {
        SplitLive(was, i, d);
        SplitAt(was, i, d, i);
      }
      TakenLive(bs, n, i);
      MarkUsed(cursor, i);
      KeptThen(old(units[..]), held, units[..], Live(was));
    }

    /** `alloc`: live blocks stay where they are, and the new one overlaps none of them.  With the flag set, the block
        is found exactly when there is room between the live blocks; otherwise the search and the merge pass repeat
        without end.  With the flag clear, only free blocks as they are cut now are considered. */
    method Alloc(bytes: nat) returns (r: Outcome)
      requires Valid()
      modifies this, units
      ensures Valid()
      ensures r.Data? ==> r.at > 0 && Live(bs) == Live(old(bs)) + {Block(r.at - 1, UnitsFor(bytes), true)}
      ensures r.Data? ==> forall b :: b in Live(old(bs)) ==> End(b) <= r.at - 1 || r.at + UnitsFor(bytes) <= b.start
      ensures !r.Data? ==> Live(bs) == Live(old(bs))
      ensures merged == old(merged) && Kept(old(units[..]), units[..], Live(old(bs)))
      ensures r.Endless? ==> merged && !SomeFits(bs, UnitsFor(bytes)) && PassFrom(bs, 0) == bs
      ensures old(merged) ==> (r.Data? <==> Gap(Live(old(bs)), n, UnitsFor(bytes))) && !r.Null?
      ensures !old(merged) ==> (r.Data? <==> SomeFits(old(bs), UnitsFor(bytes))) && !r.Endless?
    {
      var d := UnitsFor(bytes);
      while true
        invariant Valid() && Live(bs) == Live(old(bs)) && merged == old(merged) && (!merged ==> bs == old(bs))
        invariant Kept(old(units[..]), units[..], Live(old(bs)))
        decreases |bs|
      {
        ghost var i;
        var found;
        found, i := Search(d);
        ghost var held := units[..];
        if found.Some? {
          FittingGap(bs, n, d, i);
          Take(found.value, d, i);
          KeptThen(old(units[..]), held, units[..], Live(old(bs)));
          return Data(found.value + 1);
        }
        if !merged {
          return Null;
        }
        PassKeeps(bs, n, 0);
        ghost var was := bs;
        var changed := MergePass();
        KeptThen(old(units[..]), held, units[..], Live(old(bs)));
        merged := true;
        if !changed {
          NoGap(bs, n, d);
          return Endless;
        }
      }
    }

    /** `free` of null, of a block handed out, or of something that does not look like one. */
    method Free(data: Option<nat>, ghost i: nat)
      requires Valid()
      requires data.Some? ==> 0 < data.value <= n
      requires data.Some? && units[data.value - 1].magic == USED_MAGIC ==> i < |bs| && data.value == bs[i].start + 1
      modifies this, units
      ensures Valid()
      ensures var given := data.Some? && old(units[data.value - 1]).magic == USED_MAGIC;
        && Live(bs) == (if given then Live(old(bs)) - {old(bs)[i]} else Live(old(bs)))
        && merged == (!given && old(merged))
      ensures Kept(old(units[..]), units[..], Live(bs))
    {
      if data.None? {
        return;
      }
      var cursor := data.value - 1;
      if units[cursor].magic != USED_MAGIC {
        return;
      }
      HeaderAt(units[..], bs, n, i);
      MarkedTiles(bs, n, i, false);
      MarkedHeaders(units[..], bs, n, i, false);
      GivenBackLive(bs, n, i);
      HeaderWrite(units[..], bs, n, i, cursor, units[cursor].(magic := FREE_MAGIC));
      units[cursor] := units[cursor].(magic := FREE_MAGIC);
      bs := Marked(bs, i, false);
      ghost var was, held := bs, units[..];
      var did := TryMergeNext(cursor, i);
      if did {
        MergedLive(was, i);
      }
      KeptThen(old(units[..]), held, units[..], Live(was));
      merged := false;
    }

    /** What a client writes into its own block touches no header. */
    method Write(at: nat, value: Unit, ghost i: nat)
      requires Valid() && i < |bs| && bs[i].used && bs[i].start < at < End(bs[i])
      modifies units
      ensures Valid() && at < units.Length && units[..] == old(units[..])[at := value]
    {
      Apart(bs, n);
      DataIsNoHeader(units[..], bs, n, i, at, value);
      units[at] := value;
    }
  }

  /** Both units belong to free blocks. */
  method SetTwo(units: array<Unit>, a: nat, x: Unit, b: nat, y: Unit, ghost bs: seq<Block>, ghost n: nat, ghost i: nat, ghost j: nat)
    requires Tiles(bs, n) && n < units.Length
    requires i < |bs| && !bs[i].used && bs[i].start <= a < End(bs[i])
    requires j < |bs| && !bs[j].used && bs[j].start <= b < End(bs[j])
    modifies units
    ensures a < units.Length && b < units.Length && units[..] == old(units[..])[a := x][b := y]
    ensures Kept(old(units[..]), units[..], Live(bs))
  {
    TwoWrites(units[..], bs, n, i, a, x, j, b, y);
    ghost var us := units[..];
    units[a] := x;
    units[b] := y;
    assert units[..] == us[a := x][b := y];
  }

  lemma HeaderAt(us: seq<Unit>, bs: seq<Block>, n: nat, i: nat)
    requires Tiles(bs, n) && Headers(us, bs) && i < |bs|
    ensures bs[i].start < |us| && us[bs[i].start] == HeaderOf(bs[i]) && End(bs[i]) <= n
    ensures i + 1 < |bs| ==> bs[i + 1].start == End(bs[i])
    ensures i + 1 == |bs| ==> End(bs[i]) == n
  {
    Inside(bs, n, i);
  }

  lemma AllWalked(bs: seq<Block>, n: nat, i: nat)
    requires Tiles(bs, n) && i <= |bs| && (i < |bs| ==> bs[i].start >= n)
    ensures i == |bs|
  {
    if i < |bs| {
      Inside(bs, n, i);
    }
  }

  lemma NoGap(bs: seq<Block>, n: nat, d: nat)
    requires Tiles(bs, n) && (forall k :: !Pair(bs, k)) && !SomeFits(bs, d)
    ensures !Gap(Live(bs), n, d)
  {
    forall at
      ensures !GapAt(Live(bs), n, d, at)
    {
      if GapAt(Live(bs), n, d, at) {
        GapFits(bs, n, d, at);
      }
    }
  }

  lemma MarkedHeaders(us: seq<Unit>, bs: seq<Block>, n: nat, i: nat, used: bool)
    requires Tiles(bs, n) && Headers(us, bs) && i < |bs|
    ensures bs[i].start < |us|
    ensures Headers(us[bs[i].start := us[bs[i].start].(magic := if used then USED_MAGIC else FREE_MAGIC)], Marked(bs, i, used))
  {
    Apart(bs, n);
  }

  lemma DataIsNoHeader(us: seq<Unit>, bs: seq<Block>, n: nat, i: nat, at: nat, value: Unit)
    requires Tiles(bs, n) && Headers(us, bs) && i < |bs| && bs[i].start < at < End(bs[i]) && n < |us|
    ensures at < n && Headers(us[at := value], bs)
  {
    Apart(bs, n);
  }

  /** Where the headers of a split list are. */
  lemma SplitHeaders(us: seq<Unit>, bs: seq<Block>, n: nat, i: nat, d: nat)
    requires Tiles(bs, n) && Headers(us, bs) && i < |bs| && !bs[i].used && d < bs[i].data && n < |us|
    ensures var at := bs[i].start;
      at + 1 + d < |us| &&
      Headers(us[at + 1 + d := Unit(FREE_MAGIC, 8 * (bs[i].data - d - 1))][at := us[at].(size := 8 * d)], Split(bs, i, d))
  {
    Apart(bs, n);
    var at, r := bs[i].start, Split(bs, i, d);
    var us' := us[at + 1 + d := Unit(FREE_MAGIC, 8 * (bs[i].data - d - 1))][at := us[at].(size := 8 * d)];
    forall k | 0 <= k < |r|
      ensures r[k].start < |us'| && us'[r[k].start] == HeaderOf(r[k])
    {
      SplitAt(bs, i, d, k);
    }
  }

  lemma MergedHeaders(us: seq<Unit>, bs: seq<Block>, n: nat, i: nat)
    requires Tiles(bs, n) && Headers(us, bs) && Pair(bs, i) && n < |us|
    ensures var at, next := bs[i].start, bs[i + 1].start;
      at < |us| && next < |us| &&
      Headers(us[at := us[at].(size := us[at].size + 8 + us[next].size)][next := Unit(0, 0)], Merged(bs, i))
  {
    Apart(bs, n);
    var at, next, r := bs[i].start, bs[i + 1].start, Merged(bs, i);
    var us' := us[at := us[at].(size := us[at].size + 8 + us[next].size)][next := Unit(0, 0)];
    forall k | 0 <= k < |r|
      ensures r[k].start < |us'| && us'[r[k].start] == HeaderOf(r[k])
    {
      MergedAt(bs, i, k);
    }
  }

  /** The block handed out is as large as asked for exactly when rounding up does not wrap around. */
  lemma RequestServed(bytes: nat)
    requires bytes < 8 * UNITS
    ensures 8 * UnitsFor(bytes) >= bytes <==> bytes <= 8 * UNITS - 8
  {
    if bytes > 8 * UNITS - 8 {
      assert (bytes + 7) / 8 == UNITS;
    } else {
      assert (bytes + 7) / 8 < UNITS;
    }
  }

  // ---------------------------------------------------------------- whole runs

  lemma LiveApart(bs: seq<Block>, n: nat, a: Block, b: Block)
    requires Tiles(bs, n) && a in Live(bs) && b in Live(bs) && a != b
    ensures End(a) <= b.start || End(b) <= a.start
  {
    Apart(bs, n);
  }

  lemma LiveInside(bs: seq<Block>, n: nat, b: Block)
    requires Tiles(bs, n) && b in Live(bs)
    ensures End(b) <= n
  {
    Apart(bs, n);
  }

  datatype Op = Request(bytes: nat) | Release(which: nat) | Scribble(which: nat, offset: nat, value: Unit)

  /** A block a client holds, and what it last wrote where. */
  datatype Held = Held(block: Block, written: map<nat, Unit>)

  ghost predicate Reads(us: seq<Unit>, h: Held) {
    forall o :: o in h.written ==> o < h.block.data && End(h.block) <= |us| && us[h.block.start + 1 + o] == h.written[o]
  }

  ghost function Blocks(held: seq<Held>): set<Block> {
    set i | 0 <= i < |held| :: held[i].block
  }

  ghost predicate Distinct(held: seq<Held>) {
    forall i, j :: 0 <= i < j < |held| ==> held[i].block != held[j].block
  }

  ghost predicate Holding(a: LinearAllocator, held: seq<Held>)
    reads a, a.units
  {
    a.Valid() && Live(a.bs) == Blocks(held) && Distinct(held) && forall i :: 0 <= i < |held| ==> Reads(a.units[..], held[i])
  }

  /** What a client then holds, given the block a request was answered with. */
  function Performed(held: seq<Held>, op: Op, got: Option<Block>): seq<Held> {
    match op
    case Request(_) => if got.Some? then held + [Held(got.value, map[])] else held
    case Release(which) => if which < |held| then Without(held, which) else held
    case Scribble(which, offset, value) =>
      if which < |held| && offset < held[which].block.data
      then held[which := held[which].(written := held[which].written[offset := value])] else held
  }

  method Perform(a: LinearAllocator, held: seq<Held>, op: Op) returns (held': seq<Held>, got: Option<Block>, endless: bool)
    requires Holding(a, held)
    modifies a, a.units
    ensures Holding(a, held') && held' == Performed(held, op, got)
    ensures op.Request? && got.Some? ==> got.value.data == UnitsFor(op.bytes)
    ensures endless ==> op.Request? && got.None?
    ensures op.Request? && old(a.merged) ==> (got.Some? <==> Gap(Blocks(held), a.n, UnitsFor(op.bytes))) && endless == got.None?
  {
    held', got, endless := held, None, false;
    match op
    case Request(bytes) => held', got, endless := Obtain(a, held, bytes);
    case Release(which) => if which < |held| { held' := GiveBack(a, held, which); }
    case Scribble(which, offset, value) => if which < |held| && offset < held[which].block.data { held' := Scribbled(a, held, which, offset, value); }
  }

  method Obtain(a: LinearAllocator, held: seq<Held>, bytes: nat) returns (held': seq<Held>, got: Option<Block>, endless: bool)
    requires Holding(a, held)
    modifies a, a.units
    ensures Holding(a, held') && held' == Performed(held, Request(bytes), got)
    ensures got.Some? ==> got.value.data == UnitsFor(bytes)
    ensures endless ==> got.None?
    ensures old(a.merged) ==> (got.Some? <==> Gap(Blocks(held), a.n, UnitsFor(bytes))) && endless == got.None?
  {
    ghost var us := a.units[..];
    held', got := held, None;
    var r := a.Alloc(bytes);
    endless := r.Endless?;
    StillReads(us, a.units[..], Blocks(held), held);
    if r.Data? {
      var b := Block(r.at - 1, UnitsFor(bytes), true);
      got := Some(b);
      held' := held + [Held(b, map[])];
      assert b !in Blocks(held);
      Added(held, Held(b, map[]));
    }
  }

  method GiveBack(a: LinearAllocator, held: seq<Held>, which: nat) returns (held': seq<Held>)
    requires Holding(a, held) && which < |held|
    modifies a, a.units
    ensures Holding(a, held') && held' == Performed(held, Release(which), None)
  {
    ghost var us, b := a.units[..], held[which].block;
    assert b in Blocks(held);
    ghost var i :| 0 <= i < |a.bs| && a.bs[i].used && a.bs[i] == b;
    HeaderAt(a.units[..], a.bs, a.n, i);
    a.Free(Some(held[which].block.start + 1), i);
    held' := Without(held, which);
    Dropped(held, which);
    forall k | 0 <= k < |held'|
      ensures Reads(us, held'[k])
    {
      WithoutAt(held, which, k);
    }
    StillReads(us, a.units[..], Blocks(held'), held');
  }

  method Scribbled(a: LinearAllocator, held: seq<Held>, which: nat, offset: nat, value: Unit) returns (held': seq<Held>)
    requires Holding(a, held) && which < |held| && offset < held[which].block.data
    modifies a, a.units
    ensures Holding(a, held') && held' == Performed(held, Scribble(which, offset, value), None)
  {
    ghost var us, b := a.units[..], held[which].block;
    assert b in Blocks(held);
    ghost var i :| 0 <= i < |a.bs| && a.bs[i].used && a.bs[i] == b;
    a.Write(held[which].block.start + 1 + offset, value, i);
    held' := held[which := held[which].(written := held[which].written[offset := value])];
    LiveInside(a.bs, a.n, b);
    Rewritten(us, a.bs, a.n, held, which, offset, value);
  }

  /** A write to one block shows in that block only. */
  lemma Rewritten(us: seq<Unit>, bs: seq<Block>, n: nat, held: seq<Held>, which: nat, offset: nat, value: Unit)
    requires Tiles(bs, n) && n < |us| && Live(bs) == Blocks(held) && Distinct(held)
    requires forall k :: 0 <= k < |held| ==> Reads(us, held[k])
    requires which < |held| && offset < held[which].block.data && End(held[which].block) <= n
    ensures var held' := Performed(held, Scribble(which, offset, value), None);
      && Blocks(held') == Blocks(held) && Distinct(held')
      && forall k :: 0 <= k < |held'| ==> Reads(us[held[which].block.start + 1 + offset := value], held'[k])
  {
    var held' := Performed(held, Scribble(which, offset, value), None);
    assert forall k :: 0 <= k < |held| ==> held'[k].block == held[k].block;
    forall k | 0 <= k < |held'|
      ensures Reads(us[held[which].block.start + 1 + offset := value], held'[k])
    {
      assert Reads(us, held[k]);
      if k != which {
        assert held[k].block in Blocks(held) && held[which].block in Blocks(held);
        assert held[k].block != held[which].block;
        LiveApart(bs, n, held[k].block, held[which].block);
      }
    }
  }

  lemma StillReads(us: seq<Unit>, us': seq<Unit>, live: set<Block>, held: seq<Held>)
    requires Kept(us, us', live) && Blocks(held) <= live && forall i :: 0 <= i < |held| ==> Reads(us, held[i])
    ensures forall i :: 0 <= i < |held| ==> Reads(us', held[i])
  {
    forall i | 0 <= i < |held|
      ensures Reads(us', held[i])
    {
      assert held[i].block in Blocks(held);
      PayloadReads(us, us', held[i]);
    }
  }

  lemma PayloadReads(us: seq<Unit>, us': seq<Unit>, h: Held)
    requires Reads(us, h) && Payload(us', h.block) == Payload(us, h.block)
    ensures Reads(us', h)
  {
    forall o | o in h.written
      ensures o < h.block.data && End(h.block) <= |us'| && us'[h.block.start + 1 + o] == h.written[o]
    {
      assert Payload(us, h.block)[o] == us[h.block.start + 1 + o];
      assert Payload(us', h.block)[o] == us'[h.block.start + 1 + o];
    }
  }

  lemma Added(held: seq<Held>, h: Held)
    requires Distinct(held) && h.block !in Blocks(held)
    ensures Distinct(held + [h]) && Blocks(held + [h]) == Blocks(held) + {h.block}
  {
    forall i | 0 <= i < |held|
      ensures held[i].block in Blocks(held)
    {
    }
    assert forall i :: 0 <= i < |held| ==> (held + [h])[i] == held[i];
    assert (held + [h])[|held|] == h;
    assert forall b :: b in Blocks(held) ==> b in Blocks(held + [h]);
  }

  lemma Dropped(held: seq<Held>, which: nat)
    requires which < |held| && Distinct(held)
    ensures Blocks(Without(held, which)) == Blocks(held) - {held[which].block} && Distinct(Without(held, which))
  {
    var rest := Without(held, which);
    forall b | b in Blocks(held) && b != held[which].block
      ensures b in Blocks(rest)
    {
      var i :| 0 <= i < |held| && held[i].block == b;
      var k := if i < which then i else i - 1;
      WithoutAt(held, which, k);
      assert rest[k].block == b;
    }
    forall k | 0 <= k < |rest|
      ensures rest[k].block in Blocks(held) && rest[k].block != held[which].block
    {
      WithoutAt(held, which, k);
    }
    forall k, l | 0 <= k < l < |rest|
      ensures rest[k].block != rest[l].block
    {
      WithoutAt(held, which, k);
      WithoutAt(held, which, l);
    }
  }

  function Without(held: seq<Held>, which: nat): seq<Held>
    requires which < |held|
  {
    held[..which] + held[which + 1..]
  }

  lemma WithoutAt(held: seq<Held>, which: nat, k: nat)
    requires which < |held| && k < |held| - 1
    ensures |Without(held, which)| == |held| - 1 && Without(held, which)[k] == held[if k < which then k else k + 1]
  {
  }

  /** What a client holds after these operations, given what its requests were answered. */
  function Replay(ops: seq<Op>, got: seq<Option<Block>>): seq<Held>
    requires |got| == |ops|
  {
    if ops == [] then [] else Performed(Replay(ops[..|ops| - 1], got[..|ops| - 1]), ops[|ops| - 1], got[|ops| - 1])
  }

  lemma ReplayNext(ops: seq<Op>, got: seq<Option<Block>>, answer: Option<Block>)
    requires |got| < |ops|
    ensures Replay(ops[..|got| + 1], got + [answer]) == Performed(Replay(ops[..|got|], got), ops[|got|], answer)
  {
    assert ops[..|got| + 1][..|got|] == ops[..|got|] && (got + [answer])[..|got|] == got;
  }

  /** The blocks requests were answered with have the size asked for. */
  ghost predicate SizedAs(ops: seq<Op>, got: seq<Option<Block>>) {
    |got| <= |ops| && forall k :: 0 <= k < |got| ==> Suits(ops[k], got[k])
  }

  ghost predicate Suits(op: Op, got: Option<Block>) {
    op.Request? && got.Some? ==> got.value.data == UnitsFor(op.bytes)
  }

  ghost predicate Answered(ops: seq<Op>, got: seq<Option<Block>>, held: seq<Held>) {
    SizedAs(ops, got) && held == Replay(ops[..|got|], got)
  }

  lemma AnsweredNext(ops: seq<Op>, got: seq<Option<Block>>, held: seq<Held>, answer: Option<Block>)
    requires Answered(ops, got, held) && |got| < |ops|
    requires Suits(ops[|got|], answer)
    ensures Answered(ops, got + [answer], Performed(held, ops[|got|], answer))
  {
    ReplayNext(ops, got, answer);
    SizedNext(ops, got, answer);
  }

  lemma SizedNext(ops: seq<Op>, got: seq<Option<Block>>, answer: Option<Block>)
    requires SizedAs(ops, got) && |got| < |ops| && Suits(ops[|got|], answer)
    ensures SizedAs(ops, got + [answer])
  {
  }

  /** Over any run of requests, releases and writes, the blocks handed out and not given back never overlap, stay
      inside the buffer, and hold what was last written to them. */
  method Run(units: array<Unit>, ops: seq<Op>) returns (held: seq<Held>, got: seq<Option<Block>>)
    requires 1 < units.Length <= UNITS + 1 && units[units.Length - 1].magic != FREE_MAGIC
    modifies units
    ensures Answered(ops, got, held)
    ensures |got| < |ops| ==> got != [] && ops[|got| - 1].Request? && got[|got| - 1].None?
    ensures forall i, j :: 0 <= i < j < |held| ==> End(held[i].block) <= held[j].block.start || End(held[j].block) <= held[i].block.start
    ensures forall i :: 0 <= i < |held| ==> End(held[i].block) < units.Length
    ensures forall i :: 0 <= i < |held| ==> Reads(units[..], held[i])
  {
    var a := new LinearAllocator(units);
    held, got := [], [];
    var endless := false;
    while |got| < |ops| && !endless
      invariant fresh(a) && a.units == units && a.n == units.Length - 1 && Holding(a, held)
      invariant Answered(ops, got, held)
      invariant endless ==> got != [] && ops[|got| - 1].Request? && got[|got| - 1].None?
    {
      var answer;
      ghost var was := held;
      held, answer, endless := Perform(a, held, ops[|got|]);
      AnsweredNext(ops, got, was, answer);
      got := got + [answer];
    }
    HeldApart(a.bs, a.n, held);
  }

  lemma HeldApart(bs: seq<Block>, n: nat, held: seq<Held>)
    requires Tiles(bs, n) && Live(bs) == Blocks(held) && Distinct(held)
    ensures forall i, j :: 0 <= i < j < |held| ==> End(held[i].block) <= held[j].block.start || End(held[j].block) <= held[i].block.start
    ensures forall i :: 0 <= i < |held| ==> End(held[i].block) <= n
  {
    forall i | 0 <= i < |held|
      ensures held[i].block in Live(bs) && End(held[i].block) <= n
    {
      assert held[i].block in Blocks(held);
      LiveInside(bs, n, held[i].block);
    }
    forall i, j | 0 <= i < j < |held|
      ensures End(held[i].block) <= held[j].block.start || End(held[j].block) <= held[i].block.start
    {
      LiveApart(bs, n, held[i].block, held[j].block);
    }
  }
}
