/** The emulated heap (proot-master/src/syscall/heap.c): brk(2) served by one mapping that is resized in place.

    The kernel's answers are inputs.  `mapping` is what the kernel then has mapped for the heap, in bytes as asked for;
    a mapping asked to be resized without leave to move stays where it is, and an answer that says otherwise is taken
    as a refusal. */
module Heap {
  import opened Wrappers
  import opened Limits

  const PAGE: nat := 0x1000

  /** A system call fails with an error number, or returns an address. */
  datatype Reply = Failed(errno: nat) | Done(address: nat)

  function ReplyWord(r: Reply): nat {
    match r
    case Failed(e) => if e < WORD then WORD - e else 0
    case Done(a) => a
  }

  /** `(int) result`: the low 32 bits, signed. */
  function AsInt(word: nat): int {
    var low := word % 0x1_0000_0000;
    if low < 0x8000_0000 then low else low - 0x1_0000_0000
  }

  predicate LooksLikeError(word: nat) {
    -4096 < AsInt(word) < 0
  }

  predicate Aligned(a: nat) {
    a % PAGE == 0
  }

  /** What the kernel can answer: an error number of the reserved range, or the start of a page. */
  predicate Possible(r: Reply) {
    match r
    case Failed(e) => 0 < e < 4096
    case Done(a) => Aligned(a) && a < WORD
  }

  /** Cutting the result to an `int` tells errors from page addresses. */
  lemma ErrorsAreSeen(r: Reply)
    requires Possible(r)
    ensures LooksLikeError(ReplyWord(r)) <==> r.Failed?
  {
    match r
    case Failed(e) =>
      assert (WORD - e) % 0x1_0000_0000 == 0x1_0000_0000 - e;
    case Done(a) =>
      var low := a % 0x1_0000_0000;
      assert low % PAGE == 0 by {
        assert a == 0x1_0000_0000 * (a / 0x1_0000_0000) + low;
      }
  }

  /** The system call made in place of brk(2). */
  datatype Asked = Nothing | FirstMapping | Void | Resize(newSize: nat) | RealBrk

  class Emulated {
    var base: nat
    var size: nat
    var disabled: bool
    const offset: nat
    ghost var mapping: Option<(nat, nat)>

    ghost predicate Valid()
      reads this
    {
      && 0 < offset && Aligned(offset)
      && (base != 0 ==> mapping == Some((base - offset, offset + size)) && Aligned(base) && base >= offset && base + size < WORD)
      && (base == 0 ==> mapping == None) && (disabled ==> base == 0)
    }

    function Break(): nat
      reads this
    {
      base + size
    }

    constructor (offset: nat)
      requires 0 < offset && Aligned(offset)
      ensures Valid() && base == 0 && !disabled && this.offset == offset
    {
      base, size, disabled := 0, 0, false;
      this.offset := offset;
      mapping := None;
    }

    /** `translate_brk_enter`: which system call is made instead.  A mapping resized as asked would end at the address. */
    method Enter(address: nat) returns (asked: Asked)
      requires Valid() && address < WORD
      ensures asked.Nothing? <==> disabled
      ensures asked.FirstMapping? || asked.RealBrk? ==> mapping.None? && (asked.RealBrk? <==> address != 0)
      ensures asked.Void? || asked.Resize? ==> mapping.Some? && (asked.Void? <==> address < mapping.value.0 + offset)
      ensures asked.Resize? ==> mapping.value.0 + asked.newSize == address
    {
      if disabled {
        return Nothing;
      }
      if base == 0 {
        if address != 0 {
          return RealBrk;
        }
        return FirstMapping;
      }
      if address < base {
        return Void;
      }
      var newHeapSize := address - base;
      return Resize(newHeapSize + offset);
    }

    /** `translate_brk_exit`, once the kernel answered what was asked. */
    method Exit(address: nat, asked: Asked, reply: Reply) returns (result: nat)
      requires Valid() && address < WORD && Answers(asked, reply, offset)
      requires asked.Nothing? <==> disabled
      requires asked.Resize? ==> base != 0 && base <= address && asked.newSize == address - base + offset
      requires asked.Void? ==> base != 0
      requires asked.FirstMapping? || asked.RealBrk? ==> base == 0
      modifies this
      ensures Valid()
      ensures asked.Void? ==> result == old(Break()) && base == old(base) && size == old(size)
      ensures asked.FirstMapping? && reply.Done? ==> base == reply.address + offset && size == 0 && result == base
      ensures asked.FirstMapping? && reply.Failed? ==> result == 0 && base == 0
      ensures asked.Resize? && Grants(reply, old(base), offset) ==> base == old(base) && result == address == Break()
      ensures asked.Resize? && !Grants(reply, old(base), offset) ==> result == old(Break()) && base == old(base) && size == old(size)
      ensures !asked.RealBrk? ==> disabled == old(disabled)
      ensures asked.RealBrk? ==> result == ReplyWord(reply) && base == 0 && (disabled <==> result == address)
      ensures asked.Nothing? ==> result == ReplyWord(reply) && base == 0
    {
      var word := ReplyWord(reply);
      match asked
      case Nothing =>
        result := word;
      case Void =>
        result := base + size;
      case FirstMapping =>
        ErrorsAreSeen(reply);
        if LooksLikeError(word) {
          return 0;
        }
        base, size := word + offset, 0;
        mapping := Some((word, offset));
        result := base + size;
        BothAligned(word, offset);
      case Resize(newSize) =>
        ErrorsAreSeen(reply);
        if LooksLikeError(word) || base != (word + offset) % WORD {
          return base + size;
        }
        size := newSize - offset;
        mapping := Some((base - offset, newSize));
        result := base + size;
      case RealBrk =>
        result := word;
        if word == address {
          disabled := true;
        }
    }
  }

  lemma BothAligned(a: nat, b: nat)
    requires Aligned(a) && Aligned(b)
    ensures Aligned(a + b)
  {
  }

  /** The answers of the kernel: mappings start on a page, the first one has room behind its first page, and brk(2)
      itself returns any word. */
  predicate Answers(asked: Asked, reply: Reply, offset: nat) {
    match asked
    case Void => true
    case FirstMapping => Possible(reply) && (reply.Done? ==> 0 < reply.address + offset < WORD)
    case Resize(_) => Possible(reply)
    case RealBrk => ReplyWord(reply) < WORD
    case Nothing => ReplyWord(reply) < WORD
  }

  /** The mapping was resized where it is. */
  predicate Grants(reply: Reply, base: nat, offset: nat) {
    reply.Done? && reply.address + offset == base
  }

  // ---------------------------------------------------------------- whole runs

  /** The heap a program should see: none yet, where it starts and where it ends, or the kernel's own. */
  datatype Ideal = NoHeap | Ideal(start: nat, end: nat) | Native

  /** brk(2) as documented: the break moves to the address asked for if it is in the heap and the kernel agrees, and the
      break is reported either way.  A program that moves the kernel's own break before it asked for a heap keeps that
      one for good. */
  ghost function IdealBrk(h: Ideal, address: nat, reply: Reply, offset: nat): (Ideal, nat) {
    match h
    case NoHeap =>
      if address != 0 then (if ReplyWord(reply) == address then Native else NoHeap, ReplyWord(reply))
      else if reply.Done? then (Ideal(reply.address + offset, reply.address + offset), reply.address + offset)
      else (NoHeap, 0)
    case Ideal(start, end) =>
      if start <= address && Grants(reply, start, offset) then (Ideal(start, address), address) else (h, end)
    case Native => (h, ReplyWord(reply))
  }

  ghost function IdealRun(calls: seq<(nat, Reply)>, offset: nat): (Ideal, seq<nat>) {
    if calls == [] then (NoHeap, [])
    else
      var n := |calls| - 1;
      var (h, results) := IdealRun(calls[..n], offset);
      var (h', result) := IdealBrk(h, calls[n].0, calls[n].1, offset);
      (h', results + [result])
  }

  /** The call that stands for this one. */
  ghost function AskedFor(h: Ideal, address: nat, offset: nat): Asked {
    match h
    case NoHeap => if address == 0 then FirstMapping else RealBrk
    case Ideal(start, _) => if address < start then Void else Resize(address - start + offset)
    case Native => Nothing
  }

  /** The kernel answers what it is asked. */
  ghost predicate LegalRun(calls: seq<(nat, Reply)>, offset: nat) {
    forall k :: 0 <= k < |calls| ==>
      calls[k].0 < WORD && Answers(AskedFor(IdealRun(calls[..k], offset).0, calls[k].0, offset), calls[k].1, offset)
  }

  ghost predicate Shows(e: Emulated, h: Ideal)
    reads e
  {
    match h
    case NoHeap => e.base == 0 && !e.disabled
    case Ideal(start, end) => e.base == start && start > 0 && e.Break() == end && !e.disabled
    case Native => e.disabled
  }

  /** One brk(2), from the tracee's call to what it sees. */
  method Brk(e: Emulated, address: nat, reply: Reply, ghost h: Ideal) returns (result: nat)
    requires e.Valid() && Shows(e, h) && address < WORD && Answers(AskedFor(h, address, e.offset), reply, e.offset)
    modifies e
    ensures e.Valid() && Shows(e, IdealBrk(h, address, reply, e.offset).0) && result == IdealBrk(h, address, reply, e.offset).1
  {
    var asked := e.Enter(address);
    assert asked == AskedFor(h, address, e.offset);
    result := e.Exit(address, asked, reply);
  }

  /** Every run of calls, whatever they ask for and the kernel answers, gives what is documented, and the heap mapping is
      exactly the heap and the page before it. */
  method Run(offset: nat, calls: seq<(nat, Reply)>) returns (e: Emulated, results: seq<nat>)
    requires 0 < offset && Aligned(offset) && LegalRun(calls, offset)
    ensures results == IdealRun(calls, offset).1
    ensures fresh(e) && e.Valid() && Shows(e, IdealRun(calls, offset).0)
  {
    e := new Emulated(offset);
    results := [];
    for k := 0 to |calls|
      invariant fresh(e) && e.Valid() && e.offset == offset
      invariant results == IdealRun(calls[..k], offset).1 && Shows(e, IdealRun(calls[..k], offset).0)
    {
      assert calls[..k + 1][..k] == calls[..k];
      var result := Brk(e, calls[k].0, calls[k].1, IdealRun(calls[..k], offset).0);
      results := results + [result];
    }
    assert calls[..|calls|] == calls;
  }
}
