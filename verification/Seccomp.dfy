/** The seccomp filter compiler (proot-master/src/syscall/seccomp.c) against a classic BPF machine. */
module Seccomp {
  import opened Bits
  import opened Sysnum
  import opened Wrappers

  // ---------------------------------------------------------------- the machine

  datatype Insn =
    | LoadAbs(k: nat)
    | JumpEq(k: nat, jt: nat, jf: nat)
    | Jump(k: nat)
    | Ret(k: nat)

  datatype Data = Data(nr: nat, arch: nat)

  datatype Outcome = Returned(value: nat) | OutOfBounds

  const NR_OFFSET: nat := 0
  const ARCH_OFFSET: nat := 4
  const RET_KILL: nat := 0
  const RET_TRACE: nat := 0x7ff0_0000
  const RET_ALLOW: nat := 0x7fff_0000
  const UINT32_MAX: nat := 0xFFFF_FFFF

  /** Run a program from `pc`: every jump is forward, so running stops; it stops badly only by
      leaving the program or loading outside the two words the filters use. */
  ghost function Exec(p: seq<Insn>, pc: nat, acc: nat, d: Data): Outcome
    decreases if pc <= |p| then |p| - pc else 0
  {
    if pc >= |p| then OutOfBounds
    else match p[pc]
      case LoadAbs(k) =>
        if k == NR_OFFSET then Exec(p, pc + 1, d.nr, d)
        else if k == ARCH_OFFSET then Exec(p, pc + 1, d.arch, d)
        else OutOfBounds
      case JumpEq(k, jt, jf) => Exec(p, pc + 1 + (if acc == k then jt else jf), acc, d)
      case Jump(k) => Exec(p, pc + 1 + k, acc, d)
      case Ret(k) => Returned(k)
  }

  /** Only what lies ahead matters. */
  lemma {:induction false} ExecSuffix(p: seq<Insn>, q: seq<Insn>, pc: nat, acc: nat, d: Data)
    ensures Exec(p + q, |p| + pc, acc, d) == Exec(q, pc, acc, d)
    decreases if pc <= |q| then |q| - pc else 0
  {
    if pc < |q| {
      assert (p + q)[|p| + pc] == q[pc];
      match q[pc]
      case LoadAbs(k) =>
        ExecSuffix(p, q, pc + 1, d.nr, d);
        ExecSuffix(p, q, pc + 1, d.arch, d);
      case JumpEq(k, jt, jf) => ExecSuffix(p, q, pc + 1 + (if acc == k then jt else jf), acc, d);
      case Jump(k) => ExecSuffix(p, q, pc + 1 + k, acc, d);
      case Ret(k) =>
    }
  }

  // ---------------------------------------------------------------- the compiled form

  datatype Filtered = Filtered(value: nat, flags: nat)

  datatype Arch = Arch(value: nat, abis: seq<Table>)

  /** A syscall to trace: its architecture number and its flags. */
  datatype Trace = Trace(nr: nat, flags: nat)

  /** The value a traced call returns to the kernel, in the 32 bits of the instruction. */
  function TraceAction(flags: nat): nat {
    (RET_TRACE + flags) % 0x1_0000_0000
  }

  /** How the kernel reads what a filter returns: an action in the high half and data for the tracer in the low one. */
  datatype Decision = Killed | Traced(flags: nat) | Allowed | Other

  function Decided(o: Outcome): Decision {
    match o
    case OutOfBounds => Other
    case Returned(value) =>
      match value / 0x1_0000 {
        case 0 => Killed
        case 0x7ff0 => Traced(value % 0x1_0000)
        case 0x7fff => Allowed
        case _ => Other
      }
  }

  /** The tracer is told exactly the flags if and only if they fit the low half. */
  lemma TracedExactly(flags: nat)
    ensures Decided(Returned(TraceAction(flags))) == Traced(flags) <==> flags < 0x1_0000
  {
    if flags < 0x1_0000 {
      assert RET_TRACE + flags < 0x1_0000_0000;
      assert (RET_TRACE + flags) / 0x1_0000 == 0x7ff0 && (RET_TRACE + flags) % 0x1_0000 == flags;
    }
  }

  ghost function AbiTraces(t: Table, s: seq<Filtered>): seq<Trace> {
    if s == [] then []
    else
      var last := s[|s| - 1];
      var nr := AbiNumber(t, last.value);
      AbiTraces(t, s[..|s| - 1]) + (if nr == SYSCALL_AVOIDER then [] else [Trace(nr, last.flags)])
  }

  ghost function Traces(abis: seq<Table>, s: seq<Filtered>): seq<Trace> {
    if abis == [] then []
    else Traces(abis[..|abis| - 1], s) + AbiTraces(abis[|abis| - 1], s)
  }

  ghost function TraceCode(ts: seq<Trace>): (p: seq<Insn>)
    ensures |p| == 2 * |ts|
  {
    if ts == [] then []
    else
      var t := ts[|ts| - 1];
      TraceCode(ts[..|ts| - 1]) + [JumpEq(t.nr, 0, 1), Ret(TraceAction(t.flags))]
  }

  ghost function StartCode(arch: nat, count: nat): seq<Insn> {
    [LoadAbs(ARCH_OFFSET), JumpEq(arch, 1, 0), Jump(1 + count * 2 + 1), LoadAbs(NR_OFFSET)]
  }

  ghost function SectionCode(arch: nat, ts: seq<Trace>): seq<Insn> {
    StartCode(arch, |ts|) + TraceCode(ts) + [Ret(RET_ALLOW)]
  }

  ghost function Sections(archs: seq<Arch>, s: seq<Filtered>): seq<Insn> {
    if archs == [] then []
    else
      var a := archs[|archs| - 1];
      Sections(archs[..|archs| - 1], s) + SectionCode(a.value, Traces(a.abis, s))
  }

  ghost function Compiled(archs: seq<Arch>, s: seq<Filtered>): seq<Insn> {
    Sections(archs, s) + [Ret(RET_KILL)]
  }

  // ---------------------------------------------------------------- what it means

  /** The flags of the first trace of `nr`, if any. */
  ghost function FirstFlags(ts: seq<Trace>, nr: nat): Option<nat> {
    if ts == [] then None
    else
      var before := FirstFlags(ts[..|ts| - 1], nr);
      var t := ts[|ts| - 1];
      if before.Some? then before else if t.nr == nr then Some(t.flags) else None
  }

  ghost function FirstArch(archs: seq<Arch>, arch: nat): Option<Arch> {
    if archs == [] then None
    else
      var before := FirstArch(archs[..|archs| - 1], arch);
      var a := archs[|archs| - 1];
      if before.Some? then before else if a.value == arch then Some(a) else None
  }

  ghost function SectionVerdict(ts: seq<Trace>, nr: nat): nat {
    match FirstFlags(ts, nr)
    case Some(flags) => TraceAction(flags)
    case None => RET_ALLOW
  }

  ghost function Verdict(archs: seq<Arch>, s: seq<Filtered>, d: Data): nat {
    match FirstArch(archs, d.arch)
    case Some(a) => SectionVerdict(Traces(a.abis, s), d.nr)
    case None => RET_KILL
  }

  lemma {:induction false} TraceCodeRuns(ts: seq<Trace>, rest: seq<Insn>, d: Data)
    ensures Exec(TraceCode(ts) + rest, 0, d.nr, d) ==
      match FirstFlags(ts, d.nr)
      case Some(flags) => Returned(TraceAction(flags))
      case None => Exec(rest, 0, d.nr, d)
    decreases |ts|
  {
    if ts == [] {
      assert TraceCode(ts) + rest == rest;
    } else {
      var init, t := ts[..|ts| - 1], ts[|ts| - 1];
      var pair := [JumpEq(t.nr, 0, 1), Ret(TraceAction(t.flags))];
      assert TraceCode(ts) + rest == TraceCode(init) + (pair + rest);
      TraceCodeRuns(init, pair + rest, d);
      PairRuns(t, rest, d);
    }
  }

  lemma PairRuns(t: Trace, rest: seq<Insn>, d: Data)
    ensures Exec([JumpEq(t.nr, 0, 1), Ret(TraceAction(t.flags))] + rest, 0, d.nr, d)
         == if t.nr == d.nr then Returned(TraceAction(t.flags)) else Exec(rest, 0, d.nr, d)
  {
    var pair := [JumpEq(t.nr, 0, 1), Ret(TraceAction(t.flags))];
    var p := pair + rest;
    assert p[0] == pair[0] && p[1] == pair[1];
    if t.nr == d.nr {
      assert Exec(p, 1, d.nr, d) == Returned(TraceAction(t.flags));
    } else {
      ExecSuffix(pair, rest, 0, d.nr, d);
    }
  }

  /** A section decides its own architecture and skips to its end for any other. */
  lemma SectionRuns(arch: nat, ts: seq<Trace>, rest: seq<Insn>, acc: nat, d: Data)
    ensures Exec(SectionCode(arch, ts) + rest, 0, acc, d) ==
      if d.arch == arch then Returned(SectionVerdict(ts, d.nr)) else Exec(rest, 0, d.arch, d)
  {
    var start, body, allow := StartCode(arch, |ts|), TraceCode(ts), [Ret(RET_ALLOW)];
    var p := SectionCode(arch, ts) + rest;
    assert p == start + (body + (allow + rest));
    assert p[0] == start[0] && p[1] == start[1] && p[2] == start[2] && p[3] == start[3];
    assert Exec(p, 0, acc, d) == Exec(p, 1, d.arch, d);
    if d.arch == arch {
      assert Exec(p, 1, d.arch, d) == Exec(p, 3, d.arch, d) == Exec(p, 4, d.nr, d);
      ExecSuffix(start, body + (allow + rest), 0, d.nr, d);
      TraceCodeRuns(ts, allow + rest, d);
      assert (allow + rest)[0] == Ret(RET_ALLOW);
    } else {
      assert Exec(p, 1, d.arch, d) == Exec(p, 2, d.arch, d) == Exec(p, 3 + (1 + |ts| * 2 + 1), d.arch, d);
      assert p == (start + body + allow) + rest;
      assert |start + body + allow| == 3 + (1 + |ts| * 2 + 1);
      ExecSuffix(start + body + allow, rest, 0, d.arch, d);
    }
  }

  lemma {:induction false} SectionsRun(archs: seq<Arch>, s: seq<Filtered>, rest: seq<Insn>, acc: nat, d: Data)
    ensures Exec(Sections(archs, s) + rest, 0, acc, d) ==
      match FirstArch(archs, d.arch)
      case Some(a) => Returned(SectionVerdict(Traces(a.abis, s), d.nr))
      case None => Exec(rest, 0, if archs == [] then acc else d.arch, d)
    decreases |archs|
  {
    if archs == [] {
      assert Sections(archs, s) + rest == rest;
    } else {
      var init, a := archs[..|archs| - 1], archs[|archs| - 1];
      var code := SectionCode(a.value, Traces(a.abis, s));
      assert Sections(archs, s) + rest == Sections(init, s) + (code + rest);
      SectionsRun(init, s, code + rest, acc, d);
      SectionRuns(a.value, Traces(a.abis, s), rest, if init == [] then acc else d.arch, d);
    }
  }

  /** For every table, filter list and system call, the compiled filter stays in bounds and returns the
      verdict of the first section of the caller's architecture, and kills any other architecture. */
  lemma FilterRuns(archs: seq<Arch>, s: seq<Filtered>, acc: nat, d: Data)
    ensures Exec(Compiled(archs, s), 0, acc, d) == Returned(Verdict(archs, s, d))
  {
    SectionsRun(archs, s, [Ret(RET_KILL)], acc, d);
  }

  // ---------------------------------------------------------------- which calls are traced

  ghost predicate NoDuplicates(s: seq<Filtered>) {
    forall i, j :: 0 <= i < j < |s| ==> s[i].value != s[j].value
  }

  /** No two ABIs of an architecture share a number (x32 sits at 0x40000000). */
  ghost predicate DisjointAbis(abis: seq<Table>) {
    forall i, j :: 0 <= i < j < |abis| ==>
      || abis[i].offset + |abis[i].entries| <= abis[j].offset
      || abis[j].offset + |abis[j].entries| <= abis[i].offset
  }

  ghost predicate DistinctArchs(archs: seq<Arch>) {
    && (forall i, j :: 0 <= i < j < |archs| ==> archs[i].value != archs[j].value)
    && (forall i :: 0 <= i < |archs| ==> DisjointAbis(archs[i].abis))
  }

  /** `nr` is the number, in ABI `j`, of the `k`-th listed call. */
  ghost predicate Numbers(abis: seq<Table>, s: seq<Filtered>, j: int, k: int, nr: nat) {
    && 0 <= j < |abis| && 0 <= k < |s|
    && nr == AbiNumber(abis[j], s[k].value) && nr != SYSCALL_AVOIDER
  }

  /** `nr` is the number, in some ABI, of a call listed with `flags`. */
  ghost predicate Listed(abis: seq<Table>, s: seq<Filtered>, nr: nat, flags: nat) {
    exists j, k :: Numbers(abis, s, j, k, nr) && s[k].flags == flags
  }

  lemma {:induction false} AbiTracesMember(abis: seq<Table>, j: nat, s: seq<Filtered>, t: Trace)
    requires j < |abis|
    ensures t in AbiTraces(abis[j], s) <==> exists k :: Numbers(abis, s, j, k, t.nr) && s[k].flags == t.flags
    decreases |s|
  {
    if s != [] {
      var init, n := s[..|s| - 1], |s| - 1;
      AbiTracesMember(abis, j, init, t);
      assert forall k :: k != n ==> (Numbers(abis, s, j, k, t.nr) <==> Numbers(abis, init, j, k, t.nr));
      assert forall k :: 0 <= k < n ==> s[k] == init[k];
    }
  }

  lemma {:induction false} TracesMember(abis: seq<Table>, s: seq<Filtered>, t: Trace)
    ensures t in Traces(abis, s) <==> Listed(abis, s, t.nr, t.flags)
    decreases |abis|
  {
    if abis != [] {
      var init, n := abis[..|abis| - 1], |abis| - 1;
      TracesMember(init, s, t);
      AbiTracesMember(abis, n, s, t);
      assert forall j, k :: j != n ==> (Numbers(abis, s, j, k, t.nr) <==> Numbers(init, s, j, k, t.nr));
    }
  }

  lemma {:induction false} FirstFlagsFound(ts: seq<Trace>, nr: nat)
    ensures FirstFlags(ts, nr).Some? ==> Trace(nr, FirstFlags(ts, nr).value) in ts
    ensures FirstFlags(ts, nr).None? ==> forall t :: t in ts ==> t.nr != nr
    decreases |ts|
  {
    if ts != [] {
      var init := ts[..|ts| - 1];
      FirstFlagsFound(init, nr);
      assert ts == init + [ts[|ts| - 1]];
    }
  }

  lemma ListedOnce(abis: seq<Table>, s: seq<Filtered>, nr: nat, f: nat, g: nat)
    requires DisjointAbis(abis) && NoDuplicates(s)
    requires Listed(abis, s, nr, f) && Listed(abis, s, nr, g)
    ensures f == g
  {
    var j, k :| Numbers(abis, s, j, k, nr) && s[k].flags == f;
    var j', k' :| Numbers(abis, s, j', k', nr) && s[k'].flags == g;
    assert j == j';
  }

  /** The traced set of one architecture, without any order: a number is traced with exactly the flags of
      the listed call it stands for. */
  lemma SectionMeaning(abis: seq<Table>, s: seq<Filtered>, nr: nat)
    requires DisjointAbis(abis) && NoDuplicates(s)
    ensures forall f: nat :: Listed(abis, s, nr, f) <==> FirstFlags(Traces(abis, s), nr) == Some(f)
  {
    var ts := Traces(abis, s);
    FirstFlagsFound(ts, nr);
    forall f: nat
      ensures Listed(abis, s, nr, f) <==> FirstFlags(ts, nr) == Some(f)
    {
      TracesMember(abis, s, Trace(nr, f));
      match FirstFlags(ts, nr)
      case None =>
      case Some(g) =>
        TracesMember(abis, s, Trace(nr, g));
        if Listed(abis, s, nr, f) {
          ListedOnce(abis, s, nr, f, g);
        }
    }
  }

  lemma {:induction false} FirstArchFound(archs: seq<Arch>, arch: nat)
    requires forall i, j :: 0 <= i < j < |archs| ==> archs[i].value != archs[j].value
    ensures forall i :: 0 <= i < |archs| && archs[i].value == arch ==> FirstArch(archs, arch) == Some(archs[i])
    ensures FirstArch(archs, arch).None? <==> forall i :: 0 <= i < |archs| ==> archs[i].value != arch
    decreases |archs|
  {
    if archs != [] {
      var init := archs[..|archs| - 1];
      FirstArchFound(init, arch);
      assert forall i :: 0 <= i < |init| ==> archs[i] == init[i];
    }
  }

  /** What the kernel is told: kill on an unknown architecture, trace exactly the listed calls with exactly
      their flags, allow the rest. */
  lemma FilterMeaning(archs: seq<Arch>, s: seq<Filtered>, acc: nat, d: Data)
    requires DistinctArchs(archs) && NoDuplicates(s)
    ensures (forall i :: 0 <= i < |archs| ==> archs[i].value != d.arch) ==>
      Exec(Compiled(archs, s), 0, acc, d) == Returned(RET_KILL)
    ensures forall i, f: nat :: 0 <= i < |archs| && archs[i].value == d.arch && Listed(archs[i].abis, s, d.nr, f) ==>
      Exec(Compiled(archs, s), 0, acc, d) == Returned(TraceAction(f))
    ensures forall i :: 0 <= i < |archs| && archs[i].value == d.arch && (forall f: nat :: !Listed(archs[i].abis, s, d.nr, f)) ==>
      Exec(Compiled(archs, s), 0, acc, d) == Returned(RET_ALLOW)
    ensures (forall i :: 0 <= i < |archs| ==> archs[i].value != d.arch) ==> Decided(Exec(Compiled(archs, s), 0, acc, d)) == Killed
    ensures forall i, f: nat :: 0 <= i < |archs| && archs[i].value == d.arch && Listed(archs[i].abis, s, d.nr, f) ==>
      (Decided(Exec(Compiled(archs, s), 0, acc, d)) == Traced(f) <==> f < 0x1_0000)
    ensures forall i :: 0 <= i < |archs| && archs[i].value == d.arch && (forall f: nat :: !Listed(archs[i].abis, s, d.nr, f)) ==>
      Decided(Exec(Compiled(archs, s), 0, acc, d)) == Allowed
  {
    forall f: nat
      ensures Decided(Returned(TraceAction(f))) == Traced(f) <==> f < 0x1_0000
    {
      TracedExactly(f);
    }
    FilterRuns(archs, s, acc, d);
    FirstArchFound(archs, d.arch);
    forall i | 0 <= i < |archs| && archs[i].value == d.arch
      ensures FirstArch(archs, d.arch) == Some(archs[i])
      ensures forall f: nat :: Listed(archs[i].abis, s, d.nr, f) <==> FirstFlags(Traces(archs[i].abis, s), d.nr) == Some(f)
    {
      SectionMeaning(archs[i].abis, s, d.nr);
    }
  }

  // ---------------------------------------------------------------- building the program

  datatype Status = Ok | Range

  /** `struct sock_fprog`: the statements so far, and a length kept in 16 bits. */
  class Program {
    var filter: seq<Insn>
    var len: nat

    constructor ()
      ensures filter == [] && len == 0
    {
      filter, len := [], 0;
    }

    method AddStatements(statements: seq<Insn>)
      modifies this`filter
      ensures filter == old(filter) + statements
    {
      ghost var before := filter;
      for i := 0 to |statements|
        invariant filter == before + statements[..i]
      {
        filter := filter + [statements[i]];
      }
    }

    method AddTraceSyscall(syscall: nat, flags: nat) returns (status: Status)
      modifies this`filter
      ensures status.Ok? <==> syscall <= UINT32_MAX
      ensures status.Ok? ==> filter == old(filter) + [JumpEq(syscall, 0, 1), Ret(TraceAction(flags))]
      ensures status.Range? ==> filter == old(filter)
    {
      if syscall > UINT32_MAX {
        return Range;
      }
      AddStatements([JumpEq(syscall, 0, 1), Ret(TraceAction(flags))]);
      return Ok;
    }

    method StartArchSection(arch: nat, count: nat) returns (status: Status)
      modifies this
      ensures status.Ok? <==> 1 + count * 2 <= UINT32_MAX - 1
      ensures status.Ok? ==> filter == old(filter) + StartCode(arch, count) && len == |filter| % 0x1_0000
      ensures status.Range? ==> filter == old(filter)
    {
      if 1 + count * 2 > UINT32_MAX - 1 {
        return Range;
      }
      AddStatements([LoadAbs(ARCH_OFFSET), JumpEq(arch, 1, 0), Jump(1 + count * 2 + 1), LoadAbs(NR_OFFSET)]);
      len := |filter| % 0x1_0000;
      return Ok;
    }

    /** The sanity check passes exactly when the section has the announced length and its start still
        fits the 16-bit length. */
    method EndArchSection(count: nat, ghost begin: nat) returns (status: Status)
      requires begin <= |filter| && len == begin % 0x1_0000 && |filter| - begin == count * 2
      modifies this`filter
      ensures filter == old(filter) + [Ret(RET_ALLOW)]
      ensures status.Ok? <==> begin < 0x1_0000
    {
      AddStatements([Ret(RET_ALLOW)]);
      if |filter| - len != 1 + count * 2 {
        return Range;
      }
      return Ok;
    }

    method Finalize()
      modifies this
      ensures filter == old(filter) + [Ret(RET_KILL)] && len == |filter| % 0x1_0000
    {
      AddStatements([Ret(RET_KILL)]);
      len := |filter| % 0x1_0000;
    }
  }

  // ---------------------------------------------------------------- lists of filtered calls

  /** Lists end with a `PR_void` item. */
  ghost predicate Terminated(list: seq<Filtered>) {
    && |list| > 0 && list[|list| - 1].value == PR_VOID
    && forall i :: 0 <= i < |list| - 1 ==> list[i].value != PR_VOID
  }

  ghost function Body(list: seq<Filtered>): seq<Filtered>
    requires Terminated(list)
  {
    list[..|list| - 1]
  }

  ghost predicate Lists(s: seq<Filtered>, v: nat) {
    exists i :: 0 <= i < |s| && s[i].value == v
  }

  /** All the flags requested for `v`, or-ed together. */
  ghost function OrFlags(s: seq<Filtered>, v: nat): nat {
    if s == [] then 0
    else BitOr(OrFlags(s[..|s| - 1], v), FlagsFor(s[|s| - 1], v))
  }

  ghost function FlagsFor(x: Filtered, v: nat): nat {
    if x.value == v then x.flags else 0
  }

  lemma OrFlagsAppend(s: seq<Filtered>, x: Filtered, v: nat)
    ensures OrFlags(s + [x], v) == BitOr(OrFlags(s, v), FlagsFor(x, v))
    ensures Lists(s + [x], v) <==> Lists(s, v) || x.value == v
  {
    assert (s + [x])[..|s|] == s;
    assert (s + [x])[|s|] == x;
    assert forall i :: 0 <= i < |s| ==> (s + [x])[i] == s[i];
  }

  lemma OrSwapped(x: nat, y: nat, z: nat)
    ensures BitOr(BitOr(x, y), z) == BitOr(BitOr(x, z), y)
  {
    OrAssociates(x, y, z);
    OrCommutes(y, z);
    OrAssociates(x, z, y);
  }

  lemma {:induction false} OrFlagsUpdate(s: seq<Filtered>, j: nat, x: Filtered, v: nat)
    requires j < |s| && s[j].value == x.value
    ensures OrFlags(s[j := Filtered(x.value, BitOr(s[j].flags, x.flags))], v) == BitOr(OrFlags(s, v), FlagsFor(x, v))
    decreases |s|
  {
    var n := |s| - 1;
    var s' := s[j := Filtered(x.value, BitOr(s[j].flags, x.flags))];
    var init, last, more := OrFlags(s[..n], v), FlagsFor(s[n], v), FlagsFor(x, v);
    if j < n {
      OrFlagsUpdate(s[..n], j, x, v);
      assert s'[..n] == s[..n][j := s'[j]];
      OrSwapped(init, more, last);
    } else {
      assert s'[..n] == s[..n];
      OrAssociates(init, last, more);
    }
  }

  lemma {:induction false} OrFlagsAbsent(s: seq<Filtered>, v: nat)
    requires !Lists(s, v)
    ensures OrFlags(s, v) == 0
    decreases |s|
  {
    if s != [] {
      var n := |s| - 1;
      assert s[n].value != v;
      assert forall i :: 0 <= i < n ==> s[..n][i] == s[i];
      OrFlagsAbsent(s[..n], v);
    }
  }

  /** In a list without duplicates an item's flags are all the flags of its call. */
  lemma {:induction false} OrFlagsUnique(s: seq<Filtered>, k: nat)
    requires NoDuplicates(s) && k < |s|
    ensures OrFlags(s, s[k].value) == s[k].flags
    decreases |s|
  {
    var n := |s| - 1;
    if k < n {
      OrFlagsUnique(s[..n], k);
    } else {
      OrFlagsAbsent(s[..n], s[k].value);
    }
  }

  /** `s'` is `s` with the requests of `added` merged in: pointwise or, still without duplicates. */
  ghost predicate Merged(s: seq<Filtered>, added: seq<Filtered>, s': seq<Filtered>) {
    && NoDuplicates(s')
    && (forall v :: Lists(s', v) <==> Lists(s, v) || Lists(added, v))
    && (forall v :: OrFlags(s', v) == BitOr(OrFlags(s, v), OrFlags(added, v)))
  }

  lemma MergedAppend(s: seq<Filtered>, added: seq<Filtered>, s': seq<Filtered>, x: Filtered)
    requires Merged(s, added, s') && forall i :: 0 <= i < |s'| ==> s'[i].value != x.value
    ensures Merged(s, added + [x], s' + [x])
  {
    forall v
      ensures Lists(s' + [x], v) <==> Lists(s, v) || Lists(added + [x], v)
      ensures OrFlags(s' + [x], v) == BitOr(OrFlags(s, v), OrFlags(added + [x], v))
    {
      OrFlagsAppend(s', x, v);
      OrFlagsAppend(added, x, v);
      OrAssociates(OrFlags(s, v), OrFlags(added, v), FlagsFor(x, v));
    }
  }

  lemma MergedUpdate(s: seq<Filtered>, added: seq<Filtered>, s': seq<Filtered>, x: Filtered, j: nat)
    requires Merged(s, added, s') && j < |s'| && s'[j].value == x.value
    ensures Merged(s, added + [x], s'[j := Filtered(x.value, BitOr(s'[j].flags, x.flags))])
  {
    var s'' := s'[j := Filtered(x.value, BitOr(s'[j].flags, x.flags))];
    forall v
      ensures Lists(s'', v) <==> Lists(s, v) || Lists(added + [x], v)
    {
      OrFlagsAppend(added, x, v);
      SameValues(s', s'', v);
      assert Lists(s', x.value);
    }
    forall v
      ensures OrFlags(s'', v) == BitOr(OrFlags(s, v), OrFlags(added + [x], v))
    {
      OrFlagsUpdate(s', j, x, v);
      OrFlagsAppend(added, x, v);
      OrAssociates(OrFlags(s, v), OrFlags(added, v), FlagsFor(x, v));
    }
  }

  lemma SameValues(s: seq<Filtered>, s': seq<Filtered>, v: nat)
    requires |s| == |s'| && forall i :: 0 <= i < |s| ==> s[i].value == s'[i].value
    ensures Lists(s, v) <==> Lists(s', v)
  {
    if Lists(s, v) {
      var i :| 0 <= i < |s| && s[i].value == v;
      assert s'[i].value == v;
    }
    if Lists(s', v) {
      var i :| 0 <= i < |s'| && s'[i].value == v;
      assert s[i].value == v;
    }
  }

  class FilterList {
    var items: seq<Filtered>

    /** A null list becomes one that holds only the terminator. */
    constructor ()
      ensures items == [Filtered(PR_VOID, 0)]
    {
      items := [Filtered(PR_VOID, 0)];
    }

    method MergeFilteredSysnums(added: seq<Filtered>)
      requires Terminated(items) && NoDuplicates(Body(items)) && Terminated(added)
      modifies this
      ensures Terminated(items) && Merged(old(Body(items)), Body(added), Body(items))
    {
      ghost var s := Body(items);
      var i := 0;
      while added[i].value != PR_VOID
        invariant 0 <= i < |added|
        invariant Terminated(items) && Merged(s, added[..i], Body(items))
        decreases |added| - i
      {
        var j := Search(added[i].value);
        ghost var now := Body(items);
        assert added[..i + 1] == added[..i] + [added[i]];
        if items[j].value == PR_VOID {
          MergedAppend(s, added[..i], now, added[i]);
          items := items[..j] + [added[i], Filtered(PR_VOID, 0)];
          assert Body(items) == now + [added[i]];
        } else {
          MergedUpdate(s, added[..i], now, added[i], j);
          items := items[j := Filtered(items[j].value, BitOr(items[j].flags, added[i].flags))];
          assert Body(items) == now[j := items[j]];
        }
        i := i + 1;
      }
      assert added[..i] == Body(added);
    }

    /** The first item of `v`, or the terminator. */
    method Search(v: nat) returns (j: nat)
      requires Terminated(items) && v != PR_VOID
      ensures j < |items| && (items[j].value == v || j == |items| - 1)
      ensures forall i :: 0 <= i < j ==> items[i].value != v
    {
      j := 0;
      while items[j].value != PR_VOID && items[j].value != v
        invariant j < |items|
        invariant forall i :: 0 <= i < j ==> items[i].value != v
        decreases |items| - j
      {
        j := j + 1;
      }
    }
  }

  // ---------------------------------------------------------------- the whole compiler

  /** The limits the builder checks: 32-bit numbers and lengths, and sections that start below the
      range of the 16-bit program length. */
  ghost predicate Fits(a: Arch, s: seq<Filtered>, position: nat) {
    && Narrow(Traces(a.abis, s))
    && 1 + |Traces(a.abis, s)| * 2 <= UINT32_MAX - 1
    && position + 4 < 0x1_0000
  }

  ghost predicate AllFit(archs: seq<Arch>, s: seq<Filtered>) {
    archs != [] ==>
      var init := archs[..|archs| - 1];
      AllFit(init, s) && Fits(archs[|archs| - 1], s, |Sections(init, s)|)
  }

  method CountTraces(abis: seq<Table>, sysnums: seq<Filtered>) returns (count: nat)
    requires Terminated(sysnums)
    ensures count == |Traces(abis, Body(sysnums))|
  {
    count := 0;
    for j := 0 to |abis|
      invariant count == |Traces(abis[..j], Body(sysnums))|
    {
      var k := 0;
      while sysnums[k].value != PR_VOID
        invariant 0 <= k < |sysnums|
        invariant count == |Traces(abis[..j], Body(sysnums))| + |AbiTraces(abis[j], sysnums[..k])|
        decreases |sysnums| - k
      {
        var syscall := DetranslateSysnum(abis[j], sysnums[k].value);
        if syscall != SYSCALL_AVOIDER {
          count := count + 1;
        }
        assert sysnums[..k + 1][..k] == sysnums[..k];
        k := k + 1;
      }
      assert sysnums[..k] == Body(sysnums);
      assert abis[..j + 1][..j] == abis[..j];
    }
    assert abis[..|abis|] == abis;
  }

  /** Append the code of every traced call of one ABI; stop at the first number over 32 bits. */
  method AddAbiTraces(program: Program, t: Table, sysnums: seq<Filtered>) returns (status: Status)
    requires Terminated(sysnums)
    modifies program`filter
    ensures status.Ok? <==> Narrow(AbiTraces(t, Body(sysnums)))
    ensures status.Ok? ==> program.filter == old(program.filter) + TraceCode(AbiTraces(t, Body(sysnums)))
  {
    ghost var before, s := program.filter, Body(sysnums);
    var k := 0;
    ghost var ts: seq<Trace> := [];
    while sysnums[k].value != PR_VOID
      invariant 0 <= k < |sysnums| && ts == AbiTraces(t, s[..k])
      invariant Narrow(ts) && program.filter == before + TraceCode(ts)
      decreases |sysnums| - k
    {
      AbiTracesNext(t, s, k);
      status := AddTrace(program, t, sysnums[k], before, ts);
      if status != Ok {
        TooWide(t, s, k, ts, OneTrace(t, s[k]));
        return;
      }
      ts := ts + OneTrace(t, s[k]);
      k := k + 1;
    }
    assert s[..k] == s;
    return Ok;
  }

  ghost function OneTrace(t: Table, x: Filtered): seq<Trace> {
    var nr := AbiNumber(t, x.value);
    if nr == SYSCALL_AVOIDER then [] else [Trace(nr, x.flags)]
  }

  /** The code of one call, if the ABI has it. */
  method AddTrace(program: Program, t: Table, x: Filtered, ghost before: seq<Insn>, ghost ts: seq<Trace>) returns (status: Status)
    requires Narrow(ts) && program.filter == before + TraceCode(ts)
    modifies program`filter
    ensures status.Ok? <==> Narrow(OneTrace(t, x))
    ensures status.Ok? ==> Narrow(ts + OneTrace(t, x)) && program.filter == before + TraceCode(ts + OneTrace(t, x))
  {
    var syscall := DetranslateSysnum(t, x.value);
    if syscall == SYSCALL_AVOIDER {
      assert ts + [] == ts;
      return Ok;
    }
    ghost var trace := Trace(syscall, x.flags);
    status := program.AddTraceSyscall(syscall, x.flags);
    NarrowOne(trace);
    if status == Ok {
      TraceAppended(before, ts, trace);
    }
  }

  lemma TooWide(t: Table, s: seq<Filtered>, k: nat, ts: seq<Trace>, one: seq<Trace>)
    requires k < |s| && ts + one == AbiTraces(t, s[..k + 1]) && !Narrow(one)
    ensures !Narrow(AbiTraces(t, s))
  {
    AbiTracesPrefix(t, s, k + 1);
    WideTail(ts, one, AbiTraces(t, s));
  }

  lemma TraceAppended(before: seq<Insn>, ts: seq<Trace>, x: Trace)
    requires Narrow(ts) && Narrow([x])
    ensures Narrow(ts + [x])
    ensures before + TraceCode(ts) + [JumpEq(x.nr, 0, 1), Ret(TraceAction(x.flags))] == before + TraceCode(ts + [x])
  {
    TraceCodeSnoc(ts, x);
    NarrowConcat(ts, [x]);
    ConcatAssociates(before, TraceCode(ts), [JumpEq(x.nr, 0, 1), Ret(TraceAction(x.flags))]);
  }

  lemma AbiTracesNext(t: Table, s: seq<Filtered>, k: nat)
    requires k < |s|
    ensures AbiTraces(t, s[..k + 1]) == AbiTraces(t, s[..k]) + OneTrace(t, s[k])
  {
    assert s[..k + 1][..k] == s[..k];
  }

  lemma TraceCodeSnoc(ts: seq<Trace>, x: Trace)
    ensures TraceCode(ts + [x]) == TraceCode(ts) + [JumpEq(x.nr, 0, 1), Ret(TraceAction(x.flags))]
  {
    assert (ts + [x])[..|ts|] == ts;
  }

  lemma TracesNext(abis: seq<Table>, s: seq<Filtered>, j: nat)
    requires j < |abis|
    ensures Traces(abis[..j + 1], s) == Traces(abis[..j], s) + AbiTraces(abis[j], s)
  {
    assert abis[..j + 1][..j] == abis[..j];
  }

  ghost predicate Narrow(ts: seq<Trace>) {
    forall i :: 0 <= i < |ts| ==> ts[i].nr <= UINT32_MAX
  }

  method AddTraces(program: Program, abis: seq<Table>, sysnums: seq<Filtered>) returns (status: Status)
    requires Terminated(sysnums)
    modifies program`filter
    ensures status.Ok? <==> Narrow(Traces(abis, Body(sysnums)))
    ensures status.Ok? ==> program.filter == old(program.filter) + TraceCode(Traces(abis, Body(sysnums)))
  {
    ghost var before, s := program.filter, Body(sysnums);
    ghost var ts: seq<Trace> := [];
    for j := 0 to |abis|
      invariant ts == Traces(abis[..j], s)
      invariant Narrow(ts) && program.filter == before + TraceCode(ts)
    {
      TracesNext(abis, s, j);
      ghost var more := AbiTraces(abis[j], s);
      status := AddAbiTraces(program, abis[j], sysnums);
      if status != Ok {
        TracesPrefix(abis, s, j + 1);
        WideTail(ts, more, Traces(abis, s));
        return;
      }
      TraceCodeConcat(ts, more);
      NarrowConcat(ts, more);
      ConcatAssociates(before, TraceCode(ts), TraceCode(more));
      ts := ts + more;
    }
    assert abis[..|abis|] == abis;
    return Ok;
  }

  lemma ConcatAssociates(a: seq<Insn>, b: seq<Insn>, c: seq<Insn>)
    ensures (a + b) + c == a + (b + c)
  {
  }

  lemma NarrowOne(x: Trace)
    ensures Narrow([x]) <==> x.nr <= UINT32_MAX
  {
    assert [x][0] == x;
  }

  lemma NarrowConcat(a: seq<Trace>, b: seq<Trace>)
    requires Narrow(a) && Narrow(b)
    ensures Narrow(a + b)
  {
  }

  lemma WideTail(ts: seq<Trace>, more: seq<Trace>, all: seq<Trace>)
    requires ts + more <= all && !Narrow(more)
    ensures !Narrow(all)
  {
    var i :| 0 <= i < |more| && more[i].nr > UINT32_MAX;
    assert all[|ts| + i] == more[i];
  }

  lemma {:induction false} TraceCodeConcat(a: seq<Trace>, b: seq<Trace>)
    ensures TraceCode(a + b) == TraceCode(a) + TraceCode(b)
    decreases |b|
  {
    if b == [] {
      assert a + b == a;
    } else {
      TraceCodeConcat(a, b[..|b| - 1]);
      assert (a + b)[..|a + b| - 1] == a + b[..|b| - 1];
    }
  }

  lemma {:induction false} AbiTracesPrefix(t: Table, s: seq<Filtered>, k: nat)
    requires k <= |s|
    ensures AbiTraces(t, s[..k]) <= AbiTraces(t, s)
    decreases |s|
  {
    if k < |s| {
      AbiTracesPrefix(t, s[..|s| - 1], k);
      assert s[..|s| - 1][..k] == s[..k];
    } else {
      assert s[..k] == s;
    }
  }

  lemma {:induction false} TracesPrefix(abis: seq<Table>, s: seq<Filtered>, j: nat)
    requires j <= |abis|
    ensures Traces(abis[..j], s) <= Traces(abis, s)
    decreases |abis|
  {
    if j < |abis| {
      TracesPrefix(abis[..|abis| - 1], s, j);
      assert abis[..|abis| - 1][..j] == abis[..j];
    } else {
      assert abis[..j] == abis;
    }
  }

  /** One turn of the loop over the architectures. */
  method AddSection(program: Program, a: Arch, sysnums: seq<Filtered>) returns (status: Status)
    requires Terminated(sysnums)
    modifies program
    ensures status.Ok? <==> Fits(a, Body(sysnums), old(|program.filter|))
    ensures status.Ok? ==> program.filter == old(program.filter) + SectionCode(a.value, Traces(a.abis, Body(sysnums)))
  {
    var count := CountTraces(a.abis, sysnums);
    status := program.StartArchSection(a.value, count);
    if status != Ok {
      return;
    }
    ghost var begin := |program.filter|;
    status := AddTraces(program, a.abis, sysnums);
    if status != Ok {
      return;
    }
    status := program.EndArchSection(count, begin);
  }

  /** `set_seccomp_filters`, up to the call that installs the program: it succeeds exactly within the
      checked limits, and then the program is the compiled one, its length truncated to 16 bits. */
  method SetSeccompFilters(archs: seq<Arch>, sysnums: seq<Filtered>)
    returns (status: Status, filter: seq<Insn>, len: nat)
    requires Terminated(sysnums)
    ensures status.Ok? <==> AllFit(archs, Body(sysnums))
    ensures status.Ok? ==> filter == Compiled(archs, Body(sysnums)) && len == |filter| % 0x1_0000
  {
    var program := new Program();
    filter, len := [], 0;
    ghost var s := Body(sysnums);
    for i := 0 to |archs|
      invariant program.filter == Sections(archs[..i], s)
      invariant AllFit(archs[..i], s)
    {
      assert archs[..i + 1][..i] == archs[..i];
      status := AddSection(program, archs[i], sysnums);
      if status != Ok {
        AllFitPrefix(archs, s, i + 1);
        return;
      }
    }
    assert archs[..|archs|] == archs;
    program.Finalize();
    return Ok, program.filter, program.len;
  }

  lemma {:induction false} AllFitPrefix(archs: seq<Arch>, s: seq<Filtered>, i: nat)
    requires i <= |archs|
    ensures AllFit(archs, s) ==> AllFit(archs[..i], s)
    decreases |archs|
  {
    if i < |archs| {
      AllFitPrefix(archs[..|archs| - 1], s, i);
      assert archs[..|archs| - 1][..i] == archs[..i];
    } else {
      assert archs[..i] == archs;
    }
  }

  // ---------------------------------------------------------------- what is installed

  /** The program handed to the kernel: its length is cut to 16 bits. */
  ghost function Installed(archs: seq<Arch>, s: seq<Filtered>): seq<Insn> {
    Compiled(archs, s)[..|Compiled(archs, s)| % 0x1_0000]
  }

  /** Five statements for each architecture and two for each of its traced calls. */
  ghost function SectionsSize(archs: seq<Arch>, s: seq<Filtered>): nat {
    if archs == [] then 0
    else SectionsSize(archs[..|archs| - 1], s) + 5 + 2 * |Traces(archs[|archs| - 1].abis, s)|
  }

  lemma {:induction false} CompiledSize(archs: seq<Arch>, s: seq<Filtered>)
    ensures |Sections(archs, s)| == SectionsSize(archs, s) && |Compiled(archs, s)| == SectionsSize(archs, s) + 1
    decreases |archs|
  {
    if archs != [] {
      CompiledSize(archs[..|archs| - 1], s);
    }
  }

  /** A run that returns inside a prefix returns the same in the whole. */
  lemma {:induction false} ExecPrefix(p: seq<Insn>, n: nat, pc: nat, acc: nat, d: Data)
    requires n <= |p| && Exec(p[..n], pc, acc, d).Returned?
    ensures Exec(p, pc, acc, d) == Exec(p[..n], pc, acc, d)
    decreases n - pc
  {
    match p[pc]
    case LoadAbs(k) => ExecPrefix(p, n, pc + 1, if k == NR_OFFSET then d.nr else d.arch, d);
    case JumpEq(k, jt, jf) => ExecPrefix(p, n, pc + 1 + (if acc == k then jt else jf), acc, d);
    case Jump(k) => ExecPrefix(p, n, pc + 1 + k, acc, d);
    case Ret(k) =>
  }

  lemma {:induction false} UnknownArch(archs: seq<Arch>) returns (arch: nat)
    ensures FirstArch(archs, arch).None? && forall i :: 0 <= i < |archs| ==> archs[i].value < arch
    decreases |archs|
  {
    if archs == [] {
      arch := 0;
    } else {
      var n := |archs| - 1;
      arch := UnknownArch(archs[..n]);
      arch := if arch > archs[n].value then arch else archs[n].value + 1;
      NoArch(archs, arch);
    }
  }

  lemma {:induction false} NoArch(archs: seq<Arch>, arch: nat)
    requires forall i :: 0 <= i < |archs| ==> archs[i].value < arch
    ensures FirstArch(archs, arch).None?
    decreases |archs|
  {
    if archs != [] {
      NoArch(archs[..|archs| - 1], arch);
    }
  }

  /** A program cut short leaves its bounds when a call comes from an architecture it does not know. */
  lemma CutShort(archs: seq<Arch>, s: seq<Filtered>, n: nat, acc: nat, d: Data)
    requires n <= |Sections(archs, s)| && FirstArch(archs, d.arch).None?
    ensures Exec(Compiled(archs, s)[..n], 0, acc, d) == OutOfBounds
  {
    var p, q := Compiled(archs, s), Sections(archs, s) + [Ret(RET_ALLOW)];
    assert p[..n] == Sections(archs, s)[..n] == q[..n];
    if Exec(p[..n], 0, acc, d).Returned? {
      ExecPrefix(p, n, 0, acc, d);
      ExecPrefix(q, n, 0, acc, d);
      SectionsRun(archs, s, [Ret(RET_KILL)], acc, d);
      SectionsRun(archs, s, [Ret(RET_ALLOW)], acc, d);
    }
  }

  /** What is installed decides every call as what was compiled exactly when the architectures and their traced calls
      leave it below 65536 statements. */
  lemma InstalledExactly(archs: seq<Arch>, s: seq<Filtered>)
    ensures (forall acc, d :: Exec(Installed(archs, s), 0, acc, d) == Exec(Compiled(archs, s), 0, acc, d))
      <==> SectionsSize(archs, s) < 0xFFFF
  {
    CompiledSize(archs, s);
    var p := Compiled(archs, s);
    if SectionsSize(archs, s) < 0xFFFF {
      assert p[..|p|] == p;
    } else {
      var arch := UnknownArch(archs);
      CutShort(archs, s, |p| % 0x1_0000, 0, Data(0, arch));
      FilterRuns(archs, s, 0, Data(0, arch));
    }
  }

  /** So many calls of one ABI, all traced, are accepted, and the filter is cut. */
  lemma TooManyCalls(n: nat) returns (archs: seq<Arch>, s: seq<Filtered>)
    requires 0x8000 <= n < 0x1000_0000
    ensures |archs| == 1 && |s| == n && NoDuplicates(s) && DistinctArchs(archs) && AllFit(archs, s) && SectionsSize(archs, s) >= 0xFFFF
  {
    var t := Table(seq(n, i requires 0 <= i < n => i + 1), 0);
    archs := [Arch(0, [t])];
    s := seq(n, i requires 0 <= i < n => Filtered(i + 1, 0));
    forall i | 0 <= i < n
      ensures s[i].value != PR_VOID && s[i].value in t.entries
    {
      assert t.entries[i] == i + 1;
    }
    AllTraced(t, s);
    assert archs[..0] == [] && [t][..0] == [];
    assert Traces([], s) == [] && Traces([t], s) == [] + AbiTraces(t, s);
    assert SectionsSize([], s) == 0;
  }

  lemma {:induction false} AllTraced(t: Table, s: seq<Filtered>)
    requires forall i :: 0 <= i < |s| ==> s[i].value != PR_VOID && s[i].value in t.entries
    ensures |AbiTraces(t, s)| == |s|
    ensures forall k :: 0 <= k < |s| ==> AbiTraces(t, s)[k].nr < t.offset + |t.entries|
    decreases |s|
  {
    if s != [] {
      AllTraced(t, s[..|s| - 1]);
    }
  }

  // ---------------------------------------------------------------- several lists

  /** The flags all the lists request for `v`. */
  ghost function OrAll(lists: seq<seq<Filtered>>, v: nat): nat {
    if lists == [] then 0 else BitOr(OrAll(lists[..|lists| - 1], v), OrFlags(lists[|lists| - 1], v))
  }

  ghost predicate AnyLists(lists: seq<seq<Filtered>>, v: nat) {
    exists i :: 0 <= i < |lists| && Lists(lists[i], v)
  }

  /** `s` lists what any of the lists does, with all the flags they request together. */
  ghost predicate MergeOf(s: seq<Filtered>, lists: seq<seq<Filtered>>) {
    && NoDuplicates(s)
    && (forall v :: Lists(s, v) <==> AnyLists(lists, v))
    && (forall v :: OrFlags(s, v) == OrAll(lists, v))
  }

  ghost function Bodies(lists: seq<seq<Filtered>>): (r: seq<seq<Filtered>>)
    requires forall i :: 0 <= i < |lists| ==> Terminated(lists[i])
    ensures |r| == |lists| && forall i :: 0 <= i < |lists| ==> r[i] == Body(lists[i])
  {
    seq(|lists|, i requires 0 <= i < |lists| => Body(lists[i]))
  }

  /** `enable_syscall_filtering`: PRoot's own list, then those of the extensions. */
  method EnableSyscallFiltering(archs: seq<Arch>, lists: seq<seq<Filtered>>)
    returns (status: Status, filter: seq<Insn>, len: nat, merged: seq<Filtered>)
    requires forall i :: 0 <= i < |lists| ==> Terminated(lists[i])
    ensures MergeOf(merged, Bodies(lists))
    ensures status.Ok? <==> AllFit(archs, merged)
    ensures status.Ok? ==> filter == Compiled(archs, merged) && len == |filter| % 0x1_0000 && filter[..len] == Installed(archs, merged)
  {
    var list := new FilterList();
    ghost var all := Bodies(lists);
    for i := 0 to |lists|
      invariant Terminated(list.items) && MergeOf(Body(list.items), all[..i])
    {
      ghost var before := Body(list.items);
      list.MergeFilteredSysnums(lists[i]);
      MergeOfAppend(before, all[..i], all[i], Body(list.items));
      assert all[..i + 1] == all[..i] + [all[i]];
    }
    assert all[..|lists|] == all;
    merged := list.items[..|list.items| - 1];
    status, filter, len := SetSeccompFilters(archs, list.items);
  }

  lemma MergeOfAppend(s: seq<Filtered>, lists: seq<seq<Filtered>>, added: seq<Filtered>, s': seq<Filtered>)
    requires MergeOf(s, lists) && Merged(s, added, s')
    ensures MergeOf(s', lists + [added])
  {
    var more := lists + [added];
    assert more[..|lists|] == lists && more[|lists|] == added;
    forall v
      ensures Lists(s', v) <==> AnyLists(more, v)
    {
      if AnyLists(lists, v) {
        var i :| 0 <= i < |lists| && Lists(lists[i], v);
        assert Lists(more[i], v);
      }
      if AnyLists(more, v) {
        var i :| 0 <= i < |more| && Lists(more[i], v);
        assert i < |lists| ==> Lists(lists[i], v);
      }
    }
  }

  lemma {:induction false} OrAllAbsorbs(lists: seq<seq<Filtered>>, v: nat, i: nat)
    requires i < |lists|
    ensures BitOr(OrAll(lists, v), OrFlags(lists[i], v)) == OrAll(lists, v)
    decreases |lists|
  {
    var n := |lists| - 1;
    var init, last, x := OrAll(lists[..n], v), OrFlags(lists[n], v), OrFlags(lists[i], v);
    OrAssociates(init, last, x);
    if i < n {
      OrAllAbsorbs(lists[..n], v, i);
      OrCommutes(last, x);
      OrAssociates(init, x, last);
    } else {
      OrIdempotent(x);
    }
  }

  lemma {:induction false} OrAllLeast(lists: seq<seq<Filtered>>, v: nat, u: nat)
    requires forall i :: 0 <= i < |lists| ==> BitOr(u, OrFlags(lists[i], v)) == u
    ensures BitOr(u, OrAll(lists, v)) == u
    decreases |lists|
  {
    if lists != [] {
      var n := |lists| - 1;
      OrAllLeast(lists[..n], v, u);
      OrAssociates(u, OrAll(lists[..n], v), OrFlags(lists[n], v));
    }
  }

  /** Only which lists are merged matters, not their order or repetition. */
  lemma MergeOrder(a: seq<seq<Filtered>>, b: seq<seq<Filtered>>, v: nat)
    requires forall l :: l in a <==> l in b
    ensures AnyLists(a, v) <==> AnyLists(b, v)
    ensures OrAll(a, v) == OrAll(b, v)
  {
    MergeOrderOneWay(a, b, v);
    MergeOrderOneWay(b, a, v);
    OrCommutes(OrAll(a, v), OrAll(b, v));
  }

  lemma MergeOrderOneWay(a: seq<seq<Filtered>>, b: seq<seq<Filtered>>, v: nat)
    requires forall l :: l in a ==> l in b
    ensures AnyLists(a, v) ==> AnyLists(b, v)
    ensures BitOr(OrAll(b, v), OrAll(a, v)) == OrAll(b, v)
  {
    forall i | 0 <= i < |a|
      ensures BitOr(OrAll(b, v), OrFlags(a[i], v)) == OrAll(b, v)
      ensures Lists(a[i], v) ==> AnyLists(b, v)
    {
      assert a[i] in b;
      var j :| 0 <= j < |b| && b[j] == a[i];
      OrAllAbsorbs(b, v, j);
    }
    OrAllLeast(a, v, OrAll(b, v));
  }

  /** The verdict on every system call is the same whatever the order the lists were merged in. */
  lemma VerdictIgnoresMergeOrder(archs: seq<Arch>, a: seq<seq<Filtered>>, b: seq<seq<Filtered>>,
                                 s: seq<Filtered>, s': seq<Filtered>, acc: nat, d: Data)
    requires DistinctArchs(archs) && forall l :: l in a <==> l in b
    requires MergeOf(s, a) && MergeOf(s', b)
    ensures Exec(Compiled(archs, s), 0, acc, d) == Exec(Compiled(archs, s'), 0, acc, d)
  {
    FilterRuns(archs, s, acc, d);
    FilterRuns(archs, s', acc, d);
    FirstArchFound(archs, d.arch);
    if i :| 0 <= i < |archs| && archs[i].value == d.arch {
      SameFlags(archs[i].abis, a, b, s, s', d.nr);
    }
  }

  lemma SameFlags(abis: seq<Table>, a: seq<seq<Filtered>>, b: seq<seq<Filtered>>, s: seq<Filtered>, s': seq<Filtered>, nr: nat)
    requires DisjointAbis(abis) && forall l :: l in a <==> l in b
    requires MergeOf(s, a) && MergeOf(s', b)
    ensures FirstFlags(Traces(abis, s), nr) == FirstFlags(Traces(abis, s'), nr)
  {
    SectionMeaning(abis, s, nr);
    SectionMeaning(abis, s', nr);
    var mine, other := FirstFlags(Traces(abis, s), nr), FirstFlags(Traces(abis, s'), nr);
    if mine.Some? {
      ListedByMerge(abis, a, b, s, s', nr, mine.value);
    }
    if other.Some? {
      ListedByMerge(abis, b, a, s', s, nr, other.value);
    }
  }

  lemma ListedByMerge(abis: seq<Table>, a: seq<seq<Filtered>>, b: seq<seq<Filtered>>,
                      s: seq<Filtered>, s': seq<Filtered>, nr: nat, f: nat)
    requires forall l :: l in a <==> l in b
    requires MergeOf(s, a) && MergeOf(s', b)
    ensures Listed(abis, s, nr, f) ==> Listed(abis, s', nr, f)
  {
    if Listed(abis, s, nr, f) {
      var j, k :| Numbers(abis, s, j, k, nr) && s[k].flags == f;
      var v := s[k].value;
      assert Lists(s, v);
      MergeOrder(a, b, v);
      assert Lists(s', v);
      var k' :| 0 <= k' < |s'| && s'[k'].value == v;
      OrFlagsUnique(s, k);
      OrFlagsUnique(s', k');
      assert Numbers(abis, s', j, k', nr);
    }
  }

  /** The flags every list asks for with the call `v` fit the low half of what a filter returns. */
  ghost predicate SmallFlags(lists: seq<seq<Filtered>>, v: nat) {
    forall i :: 0 <= i < |lists| ==> AllSmall(lists[i], v)
  }

  ghost predicate AllSmall(s: seq<Filtered>, v: nat) {
    forall k :: 0 <= k < |s| && s[k].value == v ==> s[k].flags < 0x1_0000
  }

  lemma {:induction false} OrFlagsSmall(s: seq<Filtered>, v: nat)
    ensures OrFlags(s, v) < 0x1_0000 <==> AllSmall(s, v)
    decreases |s|
  {
    if s != [] {
      var n := |s| - 1;
      OrFlagsSmall(s[..n], v);
      OrBound16(OrFlags(s[..n], v), s[n].flags);
      assert forall k :: 0 <= k < n ==> s[..n][k] == s[k];
    }
  }

  lemma {:induction false} OrAllSmall(lists: seq<seq<Filtered>>, v: nat)
    ensures OrAll(lists, v) < 0x1_0000 <==> SmallFlags(lists, v)
    decreases |lists|
  {
    if lists != [] {
      var n := |lists| - 1;
      OrAllSmall(lists[..n], v);
      OrFlagsSmall(lists[n], v);
      OrBound16(OrAll(lists[..n], v), OrFlags(lists[n], v));
      assert forall k :: 0 <= k < n ==> lists[..n][k] == lists[k];
    }
  }

  /** Some list asks for the call `v`, whose number in ABI `j` is `nr`. */
  ghost predicate Requested(abis: seq<Table>, lists: seq<seq<Filtered>>, j: int, v: nat, nr: nat) {
    && 0 <= j < |abis| && AnyLists(lists, v)
    && AbiNumber(abis[j], v) == nr && nr != SYSCALL_AVOIDER
  }

  /** With the caller's architecture in section `i`, a call is traced with all the flags any list requests for it, and
      allowed when no list requests it in any ABI of that architecture. */
  lemma RequestedMeaning(archs: seq<Arch>, i: nat, lists: seq<seq<Filtered>>, s: seq<Filtered>, acc: nat, d: Data)
    requires DistinctArchs(archs) && MergeOf(s, lists) && i < |archs| && archs[i].value == d.arch
    ensures forall j, v: nat :: Requested(archs[i].abis, lists, j, v, d.nr) ==>
      Exec(Compiled(archs, s), 0, acc, d) == Returned(TraceAction(OrAll(lists, v)))
    ensures forall j, v: nat :: Requested(archs[i].abis, lists, j, v, d.nr) ==>
      (Decided(Exec(Compiled(archs, s), 0, acc, d)) == Traced(OrAll(lists, v)) <==> SmallFlags(lists, v))
    ensures (forall j, v: nat :: !Requested(archs[i].abis, lists, j, v, d.nr)) ==>
      Exec(Compiled(archs, s), 0, acc, d) == Returned(RET_ALLOW) && Decided(Exec(Compiled(archs, s), 0, acc, d)) == Allowed
  {
    var abis := archs[i].abis;
    FilterMeaning(archs, s, acc, d);
    forall j, v: nat | Requested(abis, lists, j, v, d.nr)
      ensures Listed(abis, s, d.nr, OrAll(lists, v)) && (OrAll(lists, v) < 0x1_0000 <==> SmallFlags(lists, v))
    {
      OrAllSmall(lists, v);
      assert Lists(s, v);
      var k :| 0 <= k < |s| && s[k].value == v;
      OrFlagsUnique(s, k);
      assert Numbers(abis, s, j, k, d.nr);
    }
    forall f: nat | Listed(abis, s, d.nr, f)
      ensures exists j, v: nat :: Requested(abis, lists, j, v, d.nr)
    {
      var j, k :| Numbers(abis, s, j, k, d.nr) && s[k].flags == f;
      assert Lists(s, s[k].value);
      assert Requested(abis, lists, j, s[k].value, d.nr);
    }
  }

  /** End to end, of what is installed. */
  lemma EnabledMeaning(archs: seq<Arch>, i: nat, lists: seq<seq<Filtered>>, s: seq<Filtered>, acc: nat, d: Data)
    requires DistinctArchs(archs) && MergeOf(s, lists) && i < |archs| && archs[i].value == d.arch && SectionsSize(archs, s) < 0xFFFF
    ensures forall j, v: nat :: Requested(archs[i].abis, lists, j, v, d.nr) ==>
      Exec(Installed(archs, s), 0, acc, d) == Returned(TraceAction(OrAll(lists, v)))
    ensures forall j, v: nat :: Requested(archs[i].abis, lists, j, v, d.nr) ==>
      (Decided(Exec(Installed(archs, s), 0, acc, d)) == Traced(OrAll(lists, v)) <==> SmallFlags(lists, v))
    ensures (forall j, v: nat :: !Requested(archs[i].abis, lists, j, v, d.nr)) ==>
      Exec(Installed(archs, s), 0, acc, d) == Returned(RET_ALLOW) && Decided(Exec(Installed(archs, s), 0, acc, d)) == Allowed
  {
    InstalledExactly(archs, s);
    RequestedMeaning(archs, i, lists, s, acc, d);
  }
}
