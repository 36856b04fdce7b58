/** From program headers to mappings to memory (proot-master/src/execve/enter.c): what the mappings of an ELF
    object put at every address, against chapter 5 (Program Loading) of the System V gABI. */
module LoadImage {
  import opened Limits
  import opened Bits

  const PF_X: nat := 1
  const PF_W: nat := 2
  const PF_R: nat := 4
  const PROT_READ: nat := 1
  const PROT_WRITE: nat := 2
  const PROT_EXEC: nat := 4

  /** The fields of a PT_LOAD program header. */
  datatype Segment = Segment(offset: nat, vaddr: nat, filesz: nat, memsz: nat, flags: nat)

  datatype Mapping = Mapping(addr: nat, length: nat, clear: nat, prot: nat, anonymous: bool, offset: nat)

  // ---------------------------------------------------------------- pages

  ghost predicate PageSize(page: nat) {
    PowerOfTwo(page) && page < WORD
  }

  lemma WordIsPowerOfTwo()
    ensures PowerOfTwo(WORD)
  {
    assert PowerOfTwo(1);
    Times16(0x1);
    Times16(0x10);
    Times16(0x100);
    Times16(0x1000);
    Times16(0x10000);
    Times16(0x100000);
    Times16(0x1000000);
    Times16(0x10000000);
    Times16(0x100000000);
    Times16(0x1000000000);
    Times16(0x10000000000);
    Times16(0x100000000000);
    Times16(0x1000000000000);
    Times16(0x10000000000000);
    Times16(0x100000000000000);
    Times16(0x1000000000000000);
  }

  /** `a & page_mask`: the start of the page of `a`. */
  function PageBase(a: nat, page: nat): (r: nat)
    requires PageSize(page) && a < WORD
    ensures r <= a < r + page
  {
    WordIsPowerOfTwo();
    MaskRoundsDown(a, page, WORD);
    ModAtMost(a, page);
    BitAnd(a, WORD - page)
  }

  lemma PageBaseRounds(a: nat, page: nat)
    requires PageSize(page) && a < WORD
    ensures PageBase(a, page) == a - a % page
  {
    WordIsPowerOfTwo();
    MaskRoundsDown(a, page, WORD);
  }

  lemma PageBaseMonotone(a: nat, b: nat, page: nat)
    requires PageSize(page) && a <= b < WORD
    ensures PageBase(a, page) <= PageBase(b, page)
  {
    PageBaseRounds(a, page);
    PageBaseRounds(b, page);
    RoundDownMonotone(a, b, page);
  }

  /** The offset of an address in its page. */
  function PageOffset(a: nat, page: nat): nat
    requires PageSize(page) && a < WORD
  {
    a - PageBase(a, page)
  }

  /** Moving by whole pages. */
  lemma PageBaseMoved(a: nat, page: nat, base: nat)
    requires PageSize(page) && a + base < WORD && PageOffset(base, page) == 0
    ensures PageBase(a + base, page) == PageBase(a, page) + base
  {
    PageBaseRounds(a, page);
    PageBaseRounds(base, page);
    PageBaseRounds(a + base, page);
    ModShift(a, page, base);
  }

  function Add(a: nat, b: nat): (r: nat)
    ensures r < WORD && (a + b < WORD ==> r == a + b)
  {
    (a + b) % WORD
  }

  function Sub(a: nat, b: nat): (r: nat)
    ensures r < WORD && (b <= a < WORD ==> r == a - b)
  {
    (a - b) % WORD
  }

  // ---------------------------------------------------------------- add_mapping

  function ProtOf(flags: nat): nat {
    (if BitAnd(flags, PF_R) != 0 then PROT_READ else 0)
    + (if BitAnd(flags, PF_W) != 0 then PROT_WRITE else 0)
    + (if BitAnd(flags, PF_X) != 0 then PROT_EXEC else 0)
  }

  /** Reading, writing and executing are each granted exactly when the flag of the segment asks for it. */
  lemma ProtExactly(flags: nat)
    ensures var prot := ProtOf(flags);
      && prot < 8 && (prot % 2 == 1 <==> flags / 4 % 2 == 1) && (prot / 2 % 2 == 1 <==> flags / 2 % 2 == 1)
      && (prot / 4 % 2 == 1 <==> flags % 2 == 1)
  {
    assert BitAnd(flags / 2, 0) == 0 && BitAnd(flags / 4, 0) == 0 && BitAnd(flags / 8, 0) == 0;
    assert BitAnd(flags, PF_X) != 0 <==> flags % 2 == 1;
    assert BitAnd(flags / 2, 1) != 0 <==> flags / 2 % 2 == 1;
    assert BitAnd(flags / 2 / 2, 1) != 0 <==> flags / 2 / 2 % 2 == 1;
    assert BitAnd(flags / 2, 2) != 0 <==> flags / 2 / 2 % 2 == 1;
    assert flags / 2 / 2 == flags / 4;
  }

  ghost predicate IsHeader(seg: Segment) {
    seg.offset < WORD && seg.vaddr < WORD && seg.filesz < WORD && seg.memsz < WORD && seg.flags < WORD
  }

  /** The mappings of one segment, in wrapping arithmetic. */
  function SegmentMappings(seg: Segment, page: nat): seq<Mapping>
    requires PageSize(page) && IsHeader(seg)
  {
    var start := PageBase(seg.vaddr, page);
    var end := PageBase(Add(Add(seg.vaddr, seg.filesz), page), page);
    var end2 := PageBase(Add(Add(seg.vaddr, seg.memsz), page), page);
    var content := Mapping(start, Sub(end, start), if seg.memsz > seg.filesz then Sub(Sub(end, seg.vaddr), seg.filesz) else 0,
                           ProtOf(seg.flags), false, PageBase(seg.offset, page));
    if seg.memsz > seg.filesz && end2 > end then
      [content, Mapping(end, Sub(end2, end), 0, ProtOf(seg.flags), true, 0)]
    else [content]
  }

  ghost function Minus(a: nat, b: nat): nat {
    if a >= b then a - b else 0
  }

  /** The same without wrapping, where it cannot happen. */
  ghost function PlainMappings(start: nat, end: nat, end2: nat, fileEnd: nat, more: bool, prot: nat, offset: nat): seq<Mapping>
  {
    var content := Mapping(start, Minus(end, start), if more then Minus(end, fileEnd) else 0, prot, false, offset);
    if more && end2 > end then [content, Mapping(end, end2 - end, 0, prot, true, 0)] else [content]
  }

  ghost predicate FitsAddressSpace(seg: Segment, page: nat) {
    && PageSize(page) && IsHeader(seg)
    && seg.vaddr + seg.filesz + page < WORD && seg.vaddr + seg.memsz + page < WORD
  }

  ghost function FittingMappings(seg: Segment, page: nat): seq<Mapping>
    requires FitsAddressSpace(seg, page)
  {
    PlainMappings(PageBase(seg.vaddr, page), PageBase(seg.vaddr + seg.filesz + page, page),
                  PageBase(seg.vaddr + seg.memsz + page, page), seg.vaddr + seg.filesz,
                  seg.memsz > seg.filesz, ProtOf(seg.flags), PageBase(seg.offset, page))
  }

  lemma NoWrap(seg: Segment, page: nat)
    requires FitsAddressSpace(seg, page)
    ensures SegmentMappings(seg, page) == FittingMappings(seg, page)
  {
  }

  class LoadInfo {
    var mappings: seq<Mapping>
    var entry: nat

    constructor (entry: nat)
      ensures mappings == [] && this.entry == entry
    {
      mappings := [];
      this.entry := entry;
    }

    /** `add_mapping`. */
    method AddMapping(seg: Segment, page: nat)
      requires PageSize(page) && IsHeader(seg)
      modifies this`mappings
      ensures mappings == old(mappings) + SegmentMappings(seg, page)
    {
      var index := |mappings|;
      var startAddress := PageBase(seg.vaddr, page);
      var endAddress := PageBase(Add(Add(seg.vaddr, seg.filesz), page), page);
      var prot := ProtOf(seg.flags);
      mappings := mappings + [Mapping(startAddress, Sub(endAddress, startAddress), 0, prot, false, PageBase(seg.offset, page))];
      if seg.memsz > seg.filesz {
        mappings := mappings[index := mappings[index].(clear := Sub(Sub(endAddress, seg.vaddr), seg.filesz))];
        startAddress := endAddress;
        endAddress := PageBase(Add(Add(seg.vaddr, seg.memsz), page), page);
        if endAddress > startAddress {
          mappings := mappings + [Mapping(startAddress, Sub(endAddress, startAddress), 0, mappings[index].prot, true, 0)];
        }
      }
    }

    /** `add_load_base`. */
    method AddLoadBase(base: nat)
      modifies this
      ensures mappings == Moved(old(mappings), base) && entry == Add(old(entry), base)
    {
      for i := 0 to |mappings|
        invariant |mappings| == |old(mappings)| && entry == old(entry)
        invariant forall j :: 0 <= j < |mappings| ==>
          mappings[j] == if j < i then MovedBy(old(mappings)[j], base) else old(mappings)[j]
      {
        mappings := mappings[i := mappings[i].(addr := Add(mappings[i].addr, base))];
      }
      entry := Add(entry, base);
    }
  }

  function MovedBy(m: Mapping, base: nat): Mapping {
    m.(addr := Add(m.addr, base))
  }

  function Moved(ms: seq<Mapping>, base: nat): (r: seq<Mapping>)
    ensures |r| == |ms| && forall i :: 0 <= i < |ms| ==> r[i] == MovedBy(ms[i], base)
  {
    seq(|ms|, i requires 0 <= i < |ms| => MovedBy(ms[i], base))
  }

  ghost predicate AreHeaders(segs: seq<Segment>) {
    forall i :: 0 <= i < |segs| ==> IsHeader(segs[i])
  }

  ghost function AllMappings(segs: seq<Segment>, page: nat): seq<Mapping>
    requires PageSize(page) && AreHeaders(segs)
  {
    if segs == [] then [] else AllMappings(segs[..|segs| - 1], page) + SegmentMappings(segs[|segs| - 1], page)
  }

  /** The walk over the program headers, restricted to PT_LOAD. */
  method AddSegments(info: LoadInfo, segs: seq<Segment>, page: nat)
    requires PageSize(page) && AreHeaders(segs)
    modifies info`mappings
    ensures info.mappings == old(info.mappings) + AllMappings(segs, page)
  {
    for i := 0 to |segs|
      invariant info.mappings == old(info.mappings) + AllMappings(segs[..i], page)
    {
      assert segs[..i + 1][..i] == segs[..i];
      info.AddMapping(segs[i], page);
    }
    assert segs[..|segs|] == segs;
  }

  // ---------------------------------------------------------------- memory

  /** What is at an address: nothing, or a byte with its protection. */
  datatype Cell = Unmapped | Cell(value: nat, prot: nat)

  type Memory = nat -> Cell
  type File = nat -> nat

  function MapFile(mem: Memory, file: File, m: Mapping): Memory {
    (a: nat) => if m.addr <= a < m.addr + m.length then Cell(file(m.offset + a - m.addr), m.prot) else mem(a)
  }

  function MapAnonymous(mem: Memory, m: Mapping): Memory {
    (a: nat) => if m.addr <= a < m.addr + m.length then Cell(0, m.prot) else mem(a)
  }

  /** Zeroes written from `start` to `end`. */
  function Zeroed(mem: Memory, start: int, end: int): Memory {
    (a: nat) => if start <= a < end && mem(a).Cell? then Cell(0, mem(a).prot) else mem(a)
  }

  /** What running one mapping does to memory. */
  function Effect(mem: Memory, file: File, m: Mapping): Memory {
    if m.anonymous then MapAnonymous(mem, m)
    else if m.clear == 0 then MapFile(mem, file, m)
    else Zeroed(MapFile(mem, file, m), m.addr + m.length - m.clear, m.addr + m.length)
  }

  ghost function Effects(mem: Memory, file: File, ms: seq<Mapping>): Memory {
    if ms == [] then mem else Effect(Effects(mem, file, ms[..|ms| - 1]), file, ms[|ms| - 1])
  }

  lemma {:induction false} EffectsThen(mem: Memory, file: File, ms: seq<Mapping>, more: seq<Mapping>)
    ensures Effects(mem, file, ms + more) == Effects(Effects(mem, file, ms), file, more)
    decreases |more|
  {
    if more == [] {
      assert ms + more == ms;
    } else {
      var n := |more| - 1;
      assert (ms + more)[..|ms + more| - 1] == ms + more[..n];
      EffectsThen(mem, file, ms, more[..n]);
    }
  }

  // ---------------------------------------------------------------- one segment

  /** The segment and one page more lie inside the address space, and the file page offsets match. */
  ghost predicate Loadable(seg: Segment, page: nat) {
    && FitsAddressSpace(seg, page)
    && PageOffset(seg.offset, page) == PageOffset(seg.vaddr, page)
  }

  ghost function ContentEnd(seg: Segment): nat {
    seg.vaddr + if seg.memsz > seg.filesz then seg.memsz else seg.filesz
  }

  /** Whether the pages of the segment include `a`. */
  ghost predicate Covers(seg: Segment, page: nat, a: nat)
    requires Loadable(seg, page)
  {
    PageBase(seg.vaddr, page) <= a < PageBase(ContentEnd(seg) + page, page)
  }

  /** The byte a segment shows at an address of its pages: the file's, or 0 past the file size. */
  ghost function SegmentByte(file: File, seg: Segment, page: nat, a: nat): nat
    requires Loadable(seg, page) && Covers(seg, page, a)
  {
    InFile(seg, page, a);
    if seg.memsz > seg.filesz && a >= seg.vaddr + seg.filesz then 0 else file(seg.offset + a - seg.vaddr)
  }

  lemma InFile(seg: Segment, page: nat, a: nat)
    requires Loadable(seg, page) && PageBase(seg.vaddr, page) <= a
    ensures seg.vaddr <= seg.offset + a
    ensures PageBase(seg.offset, page) + a - PageBase(seg.vaddr, page) == seg.offset + a - seg.vaddr
  {
  }

  lemma ContentCovered(seg: Segment, page: nat, a: nat)
    requires Loadable(seg, page) && seg.vaddr <= a < ContentEnd(seg)
    ensures Covers(seg, page, a)
  {
  }

  lemma PlainEffect(mem: Memory, file: File, start: nat, end: nat, end2: nat, fileEnd: nat, more: bool, prot: nat, offset: nat, a: nat)
    requires start <= fileEnd < end <= end2 && (!more ==> end2 == end)
    ensures Effects(mem, file, PlainMappings(start, end, end2, fileEnd, more, prot, offset))(a) ==
      if start <= a < end2 then Cell(if more && a >= fileEnd then 0 else file(offset + a - start), prot) else mem(a)
  {
    var ms := PlainMappings(start, end, end2, fileEnd, more, prot, offset);
    var first := Effect(mem, file, ms[0]);
    assert Effects(mem, file, ms[..1]) == first by {
      assert ms[..1][..0] == [];
    }
    if |ms| == 2 {
      assert Effects(mem, file, ms) == MapAnonymous(first, ms[1]);
    } else {
      assert ms[..1] == ms;
    }
  }

  /** The mappings of one segment decide every address: its pages show it, the rest is untouched. */
  lemma SegmentEffect(mem: Memory, file: File, seg: Segment, page: nat, a: nat)
    requires Loadable(seg, page)
    ensures Effects(mem, file, SegmentMappings(seg, page))(a) ==
      if Covers(seg, page, a) then Cell(SegmentByte(file, seg, page, a), ProtOf(seg.flags)) else mem(a)
  {
    FittingEffect(mem, file, seg, page, a);
    if Covers(seg, page, a) {
      InFile(seg, page, a);
    }
  }

  lemma FittingEffect(mem: Memory, file: File, seg: Segment, page: nat, a: nat)
    requires FitsAddressSpace(seg, page)
    ensures Effects(mem, file, SegmentMappings(seg, page))(a) ==
      if PageBase(seg.vaddr, page) <= a < PageBase(ContentEnd(seg) + page, page) then
        Cell(if seg.memsz > seg.filesz && a >= seg.vaddr + seg.filesz then 0
             else file(PageBase(seg.offset, page) + a - PageBase(seg.vaddr, page)), ProtOf(seg.flags))
      else mem(a)
  {
    NoWrap(seg, page);
    PlainFittingEffect(mem, file, seg, page, a);
  }

  lemma PlainFittingEffect(mem: Memory, file: File, seg: Segment, page: nat, a: nat)
    requires FitsAddressSpace(seg, page)
    ensures Effects(mem, file, FittingMappings(seg, page))(a) ==
      if PageBase(seg.vaddr, page) <= a < PageBase(ContentEnd(seg) + page, page) then
        Cell(if seg.memsz > seg.filesz && a >= seg.vaddr + seg.filesz then 0
             else file(PageBase(seg.offset, page) + a - PageBase(seg.vaddr, page)), ProtOf(seg.flags))
      else mem(a)
  {
    var start, end, end2 := PageBase(seg.vaddr, page), PageBase(seg.vaddr + seg.filesz + page, page), PageBase(ContentEnd(seg) + page, page);
    PageBaseMonotone(seg.vaddr + seg.filesz + page, ContentEnd(seg) + page, page);
    FittingParts(mem, file, seg, page, a, start, end, end2, ProtOf(seg.flags), PageBase(seg.offset, page));
  }

  lemma FittingParts(mem: Memory, file: File, seg: Segment, page: nat, a: nat, start: nat, end: nat, end2: nat, prot: nat, offset: nat)
    requires FitsAddressSpace(seg, page) && start == PageBase(seg.vaddr, page) && end == PageBase(seg.vaddr + seg.filesz + page, page)
    requires end <= end2 == PageBase(ContentEnd(seg) + page, page) && prot == ProtOf(seg.flags) && offset == PageBase(seg.offset, page)
    ensures Effects(mem, file, FittingMappings(seg, page))(a) ==
      if start <= a < end2 then Cell(if seg.memsz > seg.filesz && a >= seg.vaddr + seg.filesz then 0 else file(offset + a - start), prot)
      else mem(a)
  {
    var more, fileEnd := seg.memsz > seg.filesz, seg.vaddr + seg.filesz;
    FittingPlain(seg, page, start, end, end2, fileEnd, more, prot, offset);
    PlainEffect(mem, file, start, end, end2, fileEnd, more, prot, offset, a);
  }

  /** Without memory beyond the file, where that memory ends does not matter. */
  lemma FittingPlain(seg: Segment, page: nat, start: nat, end: nat, end2: nat, fileEnd: nat, more: bool, prot: nat, offset: nat)
    requires FitsAddressSpace(seg, page) && start == PageBase(seg.vaddr, page) && end == PageBase(seg.vaddr + seg.filesz + page, page)
    requires end2 == PageBase(ContentEnd(seg) + page, page) && prot == ProtOf(seg.flags) && offset == PageBase(seg.offset, page)
    requires more == (seg.memsz > seg.filesz) && fileEnd == seg.vaddr + seg.filesz
    ensures FittingMappings(seg, page) == PlainMappings(start, end, end2, fileEnd, more, prot, offset)
  {
    if more {
      assert ContentEnd(seg) == seg.vaddr + seg.memsz;
    }
  }

  // ---------------------------------------------------------------- all segments

  ghost predicate AllLoadable(segs: seq<Segment>, page: nat) {
    PageSize(page) && forall i :: 0 <= i < |segs| ==> Loadable(segs[i], page)
  }

  /** An address outside every segment's pages keeps what it held. */
  lemma {:induction false} Untouched(mem: Memory, file: File, segs: seq<Segment>, page: nat, a: nat)
    requires AllLoadable(segs, page) && forall i :: 0 <= i < |segs| ==> !Covers(segs[i], page, a)
    ensures Effects(mem, file, AllMappings(segs, page))(a) == mem(a)
    decreases |segs|
  {
    if segs != [] {
      var n := |segs| - 1;
      Untouched(mem, file, segs[..n], page, a);
      LastSegment(mem, file, segs, page, a);
    }
  }

  lemma LastSegment(mem: Memory, file: File, segs: seq<Segment>, page: nat, a: nat)
    requires AllLoadable(segs, page) && segs != []
    ensures var last := segs[|segs| - 1];
      Effects(mem, file, AllMappings(segs, page))(a) ==
      if Covers(last, page, a) then Cell(SegmentByte(file, last, page, a), ProtOf(last.flags))
      else Effects(mem, file, AllMappings(segs[..|segs| - 1], page))(a)
  {
    var n := |segs| - 1;
    var before := AllMappings(segs[..n], page);
    EffectsThen(mem, file, before, SegmentMappings(segs[n], page));
    SegmentEffect(Effects(mem, file, before), file, segs[n], page, a);
  }

  /** Any other address shows the last segment whose pages include it. */
  lemma LastCoverShows(mem: Memory, file: File, segs: seq<Segment>, page: nat, k: nat, a: nat)
    requires AllLoadable(segs, page) && k < |segs| && Covers(segs[k], page, a)
    requires forall j :: k < j < |segs| ==> !Covers(segs[j], page, a)
    ensures Effects(mem, file, AllMappings(segs, page))(a) ==
      Cell(SegmentByte(file, segs[k], page, a), ProtOf(segs[k].flags))
  {
    var upTo := segs[..k + 1];
    LaterSkipped(mem, file, segs, page, k + 1, a);
    assert |upTo| == k + 1 && upTo[k] == segs[k];
    LastSegment(mem, file, upTo, page, a);
  }

  lemma {:induction false} LaterSkipped(mem: Memory, file: File, segs: seq<Segment>, page: nat, k: nat, a: nat)
    requires AllLoadable(segs, page) && k <= |segs| && forall j :: k <= j < |segs| ==> !Covers(segs[j], page, a)
    ensures Effects(mem, file, AllMappings(segs, page))(a) == Effects(mem, file, AllMappings(segs[..k], page))(a)
    decreases |segs|
  {
    if k == |segs| {
      assert segs[..k] == segs;
    } else {
      LastUntouched(mem, file, segs, page, a);
      LaterSkipped(mem, file, segs[..|segs| - 1], page, k, a);
      TakeTwice(segs, |segs| - 1, k);
    }
  }

  lemma LastUntouched(mem: Memory, file: File, segs: seq<Segment>, page: nat, a: nat)
    requires AllLoadable(segs, page) && segs != [] && !Covers(segs[|segs| - 1], page, a)
    ensures AllLoadable(segs[..|segs| - 1], page)
    ensures Effects(mem, file, AllMappings(segs, page))(a) == Effects(mem, file, AllMappings(segs[..|segs| - 1], page))(a)
  {
    LastSegment(mem, file, segs, page, a);
  }

  lemma TakeTwice<T>(s: seq<T>, n: nat, k: nat)
    requires k <= n <= |s|
    ensures s[..n][..k] == s[..k]
  {
  }

  /** No page of `later` holds a byte of `seg`. */
  ghost predicate Clear(seg: Segment, later: Segment, page: nat)
    requires Loadable(later, page)
  {
    ContentEnd(seg) <= PageBase(later.vaddr, page) || PageBase(ContentEnd(later) + page, page) <= seg.vaddr
  }

  /** No page of a later segment holds a byte of an earlier one, as in ascending segments that do not share a page. */
  ghost predicate Separated(segs: seq<Segment>, page: nat)
    requires AllLoadable(segs, page)
  {
    forall i, j :: 0 <= i < j < |segs| ==> Clear(segs[i], segs[j], page)
  }

  /** What the gABI puts at an address of a segment: file bytes, then zeroes up to the memory size. */
  ghost function ContentByte(file: File, seg: Segment, a: nat): nat
    requires seg.vaddr <= a
  {
    if a < seg.vaddr + seg.filesz then file(seg.offset + (a - seg.vaddr)) else 0
  }

  /** Every byte of every segment can be read, written and executed exactly as the flags of the segment say. */
  lemma ProtectionTheorem(mem: Memory, file: File, segs: seq<Segment>, page: nat, k: nat, a: nat)
    requires AllLoadable(segs, page) && Separated(segs, page) && k < |segs|
    requires segs[k].vaddr <= a < ContentEnd(segs[k])
    ensures var cell, flags := Effects(mem, file, AllMappings(segs, page))(a), segs[k].flags;
      && cell.Cell? && cell.prot < 8 && (cell.prot % 2 == 1 <==> flags / 4 % 2 == 1)
      && (cell.prot / 2 % 2 == 1 <==> flags / 2 % 2 == 1) && (cell.prot / 4 % 2 == 1 <==> flags % 2 == 1)
  {
    ImageTheorem(mem, file, segs, page, k, a);
    ProtExactly(segs[k].flags);
  }

  /** Program loading: file bytes, then zeroes up to the memory size, with the segment's protection. */
  lemma ImageTheorem(mem: Memory, file: File, segs: seq<Segment>, page: nat, k: nat, a: nat)
    requires AllLoadable(segs, page) && Separated(segs, page) && k < |segs|
    requires segs[k].vaddr <= a < ContentEnd(segs[k])
    ensures Effects(mem, file, AllMappings(segs, page))(a) ==
      Cell(ContentByte(file, segs[k], a), ProtOf(segs[k].flags))
  {
    ContentCovered(segs[k], page, a);
    forall j | k < j < |segs|
      ensures !Covers(segs[j], page, a)
    {
      assert Clear(segs[k], segs[j], page);
    }
    LastCoverShows(mem, file, segs, page, k, a);
  }

  // ---------------------------------------------------------------- where mappings lie

  /** Every mapping lies in the pages of its segment and ends on a page, and what is to be cleared is its tail. */
  ghost predicate WellPlaced(m: Mapping, seg: Segment, page: nat)
    requires FitsAddressSpace(seg, page)
  {
    && m.clear <= m.length && (m.addr + m.length) % page == 0
    && PageBase(seg.vaddr, page) <= m.addr && m.addr + m.length <= PageBase(ContentEnd(seg) + page, page)
  }

  lemma TailEndsOnPage(seg: Segment, page: nat, j: nat)
    requires FitsAddressSpace(seg, page) && j < |SegmentMappings(seg, page)|
    ensures WellPlaced(SegmentMappings(seg, page)[j], seg, page)
  {
    var fileEnd, end := seg.vaddr + seg.filesz + page, ContentEnd(seg) + page;
    EndsOnPage(fileEnd, page);
    EndsOnPage(end, page);
    PageBaseMonotone(fileEnd, end, page);
    NoWrap(seg, page);
    FittingPlaced(seg, page, PageBase(seg.vaddr, page), PageBase(fileEnd, page), PageBase(end, page), ProtOf(seg.flags),
                  PageBase(seg.offset, page), j);
  }

  lemma EndsOnPage(a: nat, page: nat)
    requires PageSize(page) && a < WORD
    ensures PageBase(a, page) % page == 0
  {
    PageBaseRounds(a, page);
    assert a - a % page == page * (a / page);
    ModUnique(a - a % page, page, a / page, 0);
  }

  lemma FittingPlaced(seg: Segment, page: nat, start: nat, end: nat, end2: nat, prot: nat, offset: nat, j: nat)
    requires FitsAddressSpace(seg, page) && start == PageBase(seg.vaddr, page) && end == PageBase(seg.vaddr + seg.filesz + page, page)
    requires end2 == PageBase(ContentEnd(seg) + page, page) && prot == ProtOf(seg.flags) && offset == PageBase(seg.offset, page)
    requires end <= end2 && end % page == 0 && end2 % page == 0 && j < |FittingMappings(seg, page)|
    ensures WellPlaced(FittingMappings(seg, page)[j], seg, page)
  {
    FittingPlain(seg, page, start, end, end2, seg.vaddr + seg.filesz, seg.memsz > seg.filesz, prot, offset);
    PlainPlaced(start, end, end2, seg.vaddr + seg.filesz, seg.memsz > seg.filesz, prot, offset, page, j);
  }

  lemma PlainPlaced(start: nat, end: nat, end2: nat, fileEnd: nat, more: bool, prot: nat, offset: nat, page: nat, j: nat)
    requires start <= fileEnd < end <= end2 && page > 0 && end % page == 0 && end2 % page == 0
    requires j < |PlainMappings(start, end, end2, fileEnd, more, prot, offset)|
    ensures var m := PlainMappings(start, end, end2, fileEnd, more, prot, offset)[j];
      m.clear <= m.length && (m.addr + m.length) % page == 0 && start <= m.addr && m.addr + m.length <= end2
  {
  }

  /** Each mapping of an object belongs to one of its segments. */
  lemma {:induction false} MappingOfSegment(segs: seq<Segment>, page: nat, i: nat) returns (k: nat)
    requires AllLoadable(segs, page) && i < |AllMappings(segs, page)|
    ensures k < |segs| && WellPlaced(AllMappings(segs, page)[i], segs[k], page)
    decreases |segs|
  {
    var n := |segs| - 1;
    var before := AllMappings(segs[..n], page);
    if i < |before| {
      k := MappingOfSegment(segs[..n], page, i);
    } else {
      k := n;
      TailEndsOnPage(segs[n], page, i - |before|);
    }
  }

  // ---------------------------------------------------------------- relocation

  function MovedSegment(seg: Segment, base: nat): Segment {
    seg.(vaddr := seg.vaddr + base)
  }

  function MovedSegments(segs: seq<Segment>, base: nat): (r: seq<Segment>)
    ensures |r| == |segs| && forall i :: 0 <= i < |segs| ==> r[i] == MovedSegment(segs[i], base)
  {
    seq(|segs|, i requires 0 <= i < |segs| => MovedSegment(segs[i], base))
  }

  /** Moving the mappings of a segment by whole pages gives the mappings of the segment linked that much higher. */
  lemma MovedMappings(seg: Segment, page: nat, base: nat)
    requires Loadable(seg, page) && Loadable(MovedSegment(seg, base), page) && base < WORD && PageOffset(base, page) == 0
    ensures Moved(SegmentMappings(seg, page), base) == SegmentMappings(MovedSegment(seg, base), page)
  {
    NoWrap(seg, page);
    NoWrap(MovedSegment(seg, base), page);
    MovedFitting(seg, page, base);
  }

  lemma MovedFitting(seg: Segment, page: nat, base: nat)
    requires Loadable(seg, page) && Loadable(MovedSegment(seg, base), page) && base < WORD && PageOffset(base, page) == 0
    ensures Moved(FittingMappings(seg, page), base) == FittingMappings(MovedSegment(seg, base), page)
  {
    var start, end, end2 := PageBase(seg.vaddr, page), PageBase(seg.vaddr + seg.filesz + page, page), PageBase(seg.vaddr + seg.memsz + page, page);
    PageBaseMoved(seg.vaddr, page, base);
    PageBaseMoved(seg.vaddr + seg.filesz + page, page, base);
    PageBaseMoved(seg.vaddr + seg.memsz + page, page, base);
    MovedParts(seg, MovedSegment(seg, base), page, base, start, end, end2, ProtOf(seg.flags), PageBase(seg.offset, page));
  }

  lemma MovedParts(seg: Segment, moved: Segment, page: nat, base: nat, start: nat, end: nat, end2: nat, prot: nat, offset: nat)
    requires FitsAddressSpace(seg, page) && FitsAddressSpace(moved, page) && moved == MovedSegment(seg, base)
    requires start == PageBase(seg.vaddr, page) && PageBase(moved.vaddr, page) == start + base
    requires end == PageBase(seg.vaddr + seg.filesz + page, page) && PageBase(moved.vaddr + seg.filesz + page, page) == end + base
    requires end2 == PageBase(seg.vaddr + seg.memsz + page, page) && PageBase(moved.vaddr + seg.memsz + page, page) == end2 + base
    requires prot == ProtOf(seg.flags) && offset == PageBase(seg.offset, page)
    ensures Moved(FittingMappings(seg, page), base) == FittingMappings(moved, page)
  {
    PlainMoved(start, end, end2, seg.vaddr + seg.filesz, seg.memsz > seg.filesz, prot, offset, base);
  }

  lemma PlainMoved(start: nat, end: nat, end2: nat, fileEnd: nat, more: bool, prot: nat, offset: nat, base: nat)
    requires start <= fileEnd < end && end + base < WORD
    ensures Moved(PlainMappings(start, end, end2, fileEnd, more, prot, offset), base) ==
      PlainMappings(start + base, end + base, end2 + base, fileEnd + base, more, prot, offset)
  {
  }

  lemma MovedConcat(ms: seq<Mapping>, more: seq<Mapping>, base: nat)
    ensures Moved(ms + more, base) == Moved(ms, base) + Moved(more, base)
  {
  }

  lemma {:induction false} MovedAllMappings(segs: seq<Segment>, page: nat, base: nat)
    requires AllLoadable(segs, page) && AllLoadable(MovedSegments(segs, base), page) && base < WORD && PageOffset(base, page) == 0
    ensures Moved(AllMappings(segs, page), base) == AllMappings(MovedSegments(segs, base), page)
    decreases |segs|
  {
    if segs != [] {
      var n := |segs| - 1;
      MovedPrefix(segs, base);
      MovedAllMappings(segs[..n], page, base);
      MovedMappings(segs[n], page, base);
      MovedConcat(AllMappings(segs[..n], page), SegmentMappings(segs[n], page), base);
    }
  }

  lemma MovedPrefix(segs: seq<Segment>, base: nat)
    requires segs != []
    ensures MovedSegments(segs, base)[..|segs| - 1] == MovedSegments(segs[..|segs| - 1], base)
  {
  }

  /** The image of a position-independent object is the one it would have if linked at its load base. */
  lemma MovedImage(mem: Memory, file: File, segs: seq<Segment>, page: nat, base: nat, k: nat, a: nat)
    requires AllLoadable(segs, page) && AllLoadable(MovedSegments(segs, base), page) && base < WORD && PageOffset(base, page) == 0
    requires Separated(segs, page) && k < |segs| && segs[k].vaddr <= a < ContentEnd(segs[k])
    ensures Effects(mem, file, Moved(AllMappings(segs, page), base))(a + base) ==
      Cell(ContentByte(file, segs[k], a), ProtOf(segs[k].flags))
  {
    MovedSeparated(segs, page, base);
    ImageOfMoved(mem, file, segs[k], MovedSegments(segs, base), page, base, k, a, a + base);
    SameEffects(mem, file, segs, page, base, a + base);
  }

  lemma ImageOfMoved(mem: Memory, file: File, seg: Segment, moved: seq<Segment>, page: nat, base: nat, k: nat, a: nat, x: nat)
    requires AllLoadable(moved, page) && Separated(moved, page) && k < |moved| && moved[k] == MovedSegment(seg, base)
    requires seg.vaddr <= a < ContentEnd(seg) && x == a + base
    ensures Effects(mem, file, AllMappings(moved, page))(x) == Cell(ContentByte(file, seg, a), ProtOf(seg.flags))
  {
    ContentMoved(file, seg, base, a);
    SameCell(mem, file, moved, page, k, x, ContentByte(file, seg, a), ProtOf(seg.flags));
  }

  lemma SameCell(mem: Memory, file: File, segs: seq<Segment>, page: nat, k: nat, a: nat, value: nat, prot: nat)
    requires AllLoadable(segs, page) && Separated(segs, page) && k < |segs| && segs[k].vaddr <= a < ContentEnd(segs[k])
    requires value == ContentByte(file, segs[k], a) && prot == ProtOf(segs[k].flags)
    ensures Effects(mem, file, AllMappings(segs, page))(a) == Cell(value, prot)
  {
    ImageTheorem(mem, file, segs, page, k, a);
  }

  lemma SameEffects(mem: Memory, file: File, segs: seq<Segment>, page: nat, base: nat, x: nat)
    requires AllLoadable(segs, page) && AllLoadable(MovedSegments(segs, base), page) && base < WORD && PageOffset(base, page) == 0
    ensures Effects(mem, file, Moved(AllMappings(segs, page), base))(x) == Effects(mem, file, AllMappings(MovedSegments(segs, base), page))(x)
  {
    MovedAllMappings(segs, page, base);
  }

  lemma ContentMoved(file: File, seg: Segment, base: nat, a: nat)
    requires seg.vaddr <= a
    ensures ContentByte(file, MovedSegment(seg, base), a + base) == ContentByte(file, seg, a)
  {
    assert a + base - (seg.vaddr + base) == a - seg.vaddr;
  }

  lemma MovedSeparated(segs: seq<Segment>, page: nat, base: nat)
    requires AllLoadable(segs, page) && AllLoadable(MovedSegments(segs, base), page) && base < WORD && PageOffset(base, page) == 0
    requires Separated(segs, page)
    ensures Separated(MovedSegments(segs, base), page)
  {
    var moved := MovedSegments(segs, base);
    forall i, j | 0 <= i < j < |moved|
      ensures Clear(moved[i], moved[j], page)
    {
      assert Clear(segs[i], segs[j], page);
      ClearMoved(segs[i], segs[j], page, base);
    }
  }

  lemma ClearMoved(seg: Segment, later: Segment, page: nat, base: nat)
    requires Loadable(later, page) && Loadable(MovedSegment(later, base), page) && base < WORD && PageOffset(base, page) == 0
    requires Clear(seg, later, page)
    ensures Clear(MovedSegment(seg, base), MovedSegment(later, base), page)
  {
    PageBaseMoved(later.vaddr, page, base);
    PageBaseMoved(ContentEnd(later) + page, page, base);
    assert ContentEnd(MovedSegment(later, base)) + page == ContentEnd(later) + page + base;
  }

  // ---------------------------------------------------------------- page offsets must match

  /** The first byte of a segment that has file content is right for every file exactly when the page offsets match. */
  lemma OffsetsMustMatch(mem: Memory, seg: Segment, page: nat)
    requires FitsAddressSpace(seg, page) && seg.filesz > 0
    ensures (forall file: File :: Effects(mem, file, SegmentMappings(seg, page))(seg.vaddr) == Cell(file(seg.offset), ProtOf(seg.flags)))
      <==> PageOffset(seg.offset, page) == PageOffset(seg.vaddr, page)
  {
    forall file: File
      ensures Effects(mem, file, SegmentMappings(seg, page))(seg.vaddr) ==
        Cell(file(PageBase(seg.offset, page) + PageOffset(seg.vaddr, page)), ProtOf(seg.flags))
    {
      FittingEffect(mem, file, seg, page, seg.vaddr);
    }
    if PageOffset(seg.offset, page) != PageOffset(seg.vaddr, page) {
      var file: File := x => if x == seg.offset then 1 else 0;
      assert Effects(mem, file, SegmentMappings(seg, page))(seg.vaddr).value == 0;
    }
  }
}
