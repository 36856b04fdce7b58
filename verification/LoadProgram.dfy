/** The whole way from a load request to a loaded program: the script is written below the stack pointer, the loader
    interprets it from there, and memory ends up as the program headers ask. */
module LoadProgram {
  import opened Wrappers
  import opened Limits
  import opened Words
  import opened LoadImage
  import opened LoadScript
  import opened LoadTransfer
  import opened Loader

  /** `write_data`: bytes put into the stack of the tracee. */
  function Pushed(mem: Memory, at: nat, bytes: seq<nat>): Memory {
    (a: nat) => if at <= a < at + |bytes| then Cell(bytes[a - at], if mem(a).Cell? then mem(a).prot else PROT_READ + PROT_WRITE)
                else mem(a)
  }

  function AreaSize(r: Request): nat
    requires HasRoom(r)
  {
    ScriptSize(r) + |Strings(r)| + Padding(r)
  }

  ghost predicate IsPath(s: seq<nat>) {
    0 !in s
  }

  /** No page of a segment is in the area. */
  ghost predicate Avoids(segs: seq<Segment>, page: nat, lo: nat, size: nat)
    requires AllLoadable(segs, page)
  {
    forall k :: 0 <= k < |segs| ==> PageBase(ContentEnd(segs[k]) + page, page) <= lo || lo + size <= PageBase(segs[k].vaddr, page)
  }

  /** The mappings are those of segments that can be loaded and stay clear of the area. */
  ghost predicate FromSegments(o: Object, segs: seq<Segment>, page: nat, lo: nat, size: nat) {
    AllLoadable(segs, page) && o.mappings == AllMappings(segs, page) && Avoids(segs, page, lo, size)
  }

  /** The request comes from program headers: paths are strings, addresses fit the words of the tracee, pages are made
      of words, and no segment touches the stack area used. */
  ghost predicate Ready(r: Request, segs: seq<Segment>, interpSegs: seq<Segment>) {
    && HasRoom(r) && r.page % 8 == 0 && IsPath(r.exec.path) && (r.interp.Some? ==> IsPath(r.interp.value.path))
    && (forall i :: 0 <= i < |Program(r)| ==> Narrowed(Program(r)[i], WordSize(r)) == Program(r)[i])
    && FromSegments(r.exec, segs, r.page, r.stackPointer - AreaSize(r), AreaSize(r))
    && (r.interp.Some? ==> FromSegments(r.interp.value, interpSegs, r.page, r.stackPointer - AreaSize(r), AreaSize(r)))
  }

  ghost function PathsOf(r: Request): nat -> seq<nat>
    requires HasRoom(r)
  {
    (p: nat) => if p == PathAddress(r) then r.exec.path else if r.interp.Some? then r.interp.value.path else []
  }

  // ---------------------------------------------------------------- shape of the program

  lemma {:induction false} MappingsOnly(ms: seq<Mapping>, i: nat)
    requires i < |MappingStatements(ms)|
    ensures |MappingStatements(ms)| == |ms| && MappingStatements(ms)[i] == MappingStatement(ms[i])
    decreases |ms|
  {
    var n := |ms| - 1;
    MappingCount(ms);
    MappingCount(ms[..n]);
    if i < n {
      MappingsOnly(ms[..n], i);
    }
  }

  lemma {:induction false} MappingCount(ms: seq<Mapping>)
    ensures |MappingStatements(ms)| == |ms|
  {
    if ms != [] {
      MappingCount(ms[..|ms| - 1]);
    }
  }

  /** Mappings only, but for the opening statement. */
  ghost predicate ObjectPart(stmts: seq<Statement>, open: Statement) {
    stmts != [] && stmts[0] == open && forall i :: 1 <= i < |stmts| ==> stmts[i].MmapFile? || stmts[i].MmapAnon?
  }

  lemma IsObjectPart(open: Statement, ms: seq<Mapping>)
    ensures ObjectPart([open] + MappingStatements(ms), open)
  {
    var stmts := [open] + MappingStatements(ms);
    forall i | 1 <= i < |stmts|
      ensures stmts[i].MmapFile? || stmts[i].MmapAnon?
    {
      MappingsOnly(ms, i - 1);
    }
  }

  /** What each statement of the program can be. */
  lemma ProgramShape(r: Request, i: nat)
    requires HasRoom(r) && i < |Program(r)|
    ensures var s := Program(r)[i];
      && (s.Start? <==> i == |Program(r)| - 1)
      && (s.Open? ==> i == 0 && s.path == PathAddress(r))
      && (s.OpenNext? ==> r.interp.Some? && s.path == InterpAddress(r))
      && (i == 0 ==> s.Open?)
  {
    IsObjectPart(Open(PathAddress(r)), r.exec.mappings);
    if r.interp.Some? {
      IsObjectPart(OpenNext(InterpAddress(r)), r.interp.value.mappings);
    }
    var a, b, c := |ExecPart(r)|, |InterpPart(r)|, |StackPart(r)|;
    var s := Program(r)[i];
    if i < a {
      assert s == ExecPart(r)[i];
    } else if i < a + b {
      assert s == InterpPart(r)[i - a];
    } else if i < a + b + c {
      assert s == StackPart(r)[i - a - b];
    }
  }

  /** A mapping statement carries a mapping of one of the objects. */
  lemma ProgramMapping(r: Request, i: nat) returns (own: bool, j: nat)
    requires HasRoom(r) && i < |Program(r)| && (Program(r)[i].MmapFile? || Program(r)[i].MmapAnon?)
    ensures own ==> j < |r.exec.mappings| && Program(r)[i] == MappingStatement(r.exec.mappings[j])
    ensures !own ==> r.interp.Some? && j < |r.interp.value.mappings| && Program(r)[i] == MappingStatement(r.interp.value.mappings[j])
  {
    var a, b := |ExecPart(r)|, |InterpPart(r)|;
    assert i < a + b;
    own := i < a;
    if own {
      assert Program(r)[i] == ExecPart(r)[i];
      j := i - 1;
      MappingsOnly(r.exec.mappings, j);
    } else {
      assert Program(r)[i] == InterpPart(r)[i - a];
      j := i - a - 1;
      MappingsOnly(r.interp.value.mappings, j);
    }
  }

  /** So every mapping statement leaves the area alone, and clears a tail that ends on a word boundary. */
  lemma MappingProper(o: Object, segs: seq<Segment>, page: nat, lo: nat, size: nat, w: nat, j: nat)
    requires FromSegments(o, segs, page, lo, size) && page % 8 == 0 && (w == 4 || w == 8) && j < |o.mappings|
    ensures Proper(MappingStatement(o.mappings[j]), lo, size, w)
  {
    var k := MappingOfSegment(segs, page, j);
    var m := o.mappings[j];
    Multiple(m.addr + m.length, page, w);
  }

  lemma Multiple(x: nat, page: nat, w: nat)
    requires page > 0 && page % 8 == 0 && (w == 4 || w == 8) && x % page == 0
    ensures x % w == 0
  {
    var q, p := x / page, page / 8;
    assert x == q * page && page == 8 * p;
    assert x == 8 * (q * p) by {
      assert q * (8 * p) == 8 * (q * p);
    }
    assert x == 4 * (2 * (q * p));
  }

  lemma ProgramProper(r: Request, segs: seq<Segment>, interpSegs: seq<Segment>, lo: nat, size: nat, w: nat, i: nat)
    requires HasRoom(r) && r.page % 8 == 0 && (w == 4 || w == 8) && i < |Program(r)| && FromSegments(r.exec, segs, r.page, lo, size)
    requires r.interp.Some? ==> FromSegments(r.interp.value, interpSegs, r.page, lo, size)
    ensures Proper(Program(r)[i], lo, size, w)
  {
    if Program(r)[i].MmapFile? || Program(r)[i].MmapAnon? {
      var own, j := ProgramMapping(r, i);
      if own {
        MappingProper(r.exec, segs, r.page, lo, size, w, j);
      } else {
        MappingProper(r.interp.value, interpSegs, r.page, lo, size, w, j);
      }
    }
  }

  // ---------------------------------------------------------------- strings in the area

  lemma StringsPlaced(r: Request, area: seq<nat>, lo: nat)
    requires HasRoom(r) && |area| == AreaSize(r) && lo == r.stackPointer - AreaSize(r)
    requires area[ScriptSize(r)..ScriptSize(r) + |Strings(r)|] == Strings(r)
    requires IsPath(r.exec.path) && (r.interp.Some? ==> IsPath(r.interp.value.path))
    ensures TextIn(area, lo, PathAddress(r), r.exec.path)
    ensures r.interp.Some? ==> TextIn(area, lo, InterpAddress(r), r.interp.value.path)
    ensures r.rawPath.Some? && IsPath(r.rawPath.value) ==> TextIn(area, lo, RawAddress(r), r.rawPath.value)
  {
    var t1, t2, t3 := Text(r.exec.path), InterpText(r), RawText(r);
    ThreeTexts(t1, t2, t3);
    StringPlaced(area, ScriptSize(r), Strings(r), lo, 0, r.exec.path, PathAddress(r));
    if r.interp.Some? {
      StringPlaced(area, ScriptSize(r), Strings(r), lo, |t1|, r.interp.value.path, InterpAddress(r));
    }
    if r.rawPath.Some? && IsPath(r.rawPath.value) {
      StringPlaced(area, ScriptSize(r), Strings(r), lo, |t1| + |t2|, r.rawPath.value, RawAddress(r));
    }
  }

  lemma StringPlaced(area: seq<nat>, at: nat, strings: seq<nat>, lo: nat, from: nat, path: seq<nat>, address: nat)
    requires at + |strings| <= |area| && area[at..at + |strings|] == strings && IsPath(path)
    requires from + |path| + 1 <= |strings| && strings[from..from + |path| + 1] == path + [0] && address == lo + at + from
    ensures TextIn(area, lo, address, path)
  {
    SubText(area, at, strings, from, path + [0]);
  }

  lemma ThreeTexts(a: seq<nat>, b: seq<nat>, c: seq<nat>)
    ensures var s := a + b + c;
      s[0..|a|] == a && s[|a|..|a| + |b|] == b && s[|a| + |b|..|a| + |b| + |c|] == c
  {
  }

  lemma SubText(area: seq<nat>, at: nat, strings: seq<nat>, from: nat, text: seq<nat>)
    requires at + |strings| <= |area| && area[at..at + |strings|] == strings
    requires from + |text| <= |strings| && strings[from..from + |text|] == text
    ensures area[at + from..at + from + |text|] == text
  {
    var part := area[at + from..at + from + |text|];
    forall k | 0 <= k < |text|
      ensures part[k] == text[k]
    {
      assert area[at..at + |strings|][from + k] == area[at + from + k];
      assert strings[from..from + |text|][k] == strings[from + k];
    }
  }

  // ---------------------------------------------------------------- what the program does

  lemma {:induction false} PerformThen(st: State, a: seq<Statement>, b: seq<Statement>, files: Files, paths: nat -> seq<nat>)
    ensures PerformAll(st, a + b, files, paths) == PerformAll(PerformAll(st, a, files, paths), b, files, paths)
    decreases |b|
  {
    if b == [] {
      assert a + b == a;
    } else {
      var n := |b| - 1;
      assert (a + b)[..|a + b| - 1] == a + b[..n];
      PerformThen(st, a, b[..n], files, paths);
    }
  }

  lemma PerformOne(st: State, s: Statement, files: Files, paths: nat -> seq<nat>)
    ensures PerformAll(st, [s], files, paths) == Perform(st, s, files, paths)
  {
    assert [s][..0] == [];
    assert PerformAll(st, [], files, paths) == st;
  }

  /** Mapping statements have the effect of the mappings. */
  lemma {:induction false} PerformMappings(st: State, ms: seq<Mapping>, files: Files, paths: nat -> seq<nat>)
    ensures var end := PerformAll(st, MappingStatements(ms), files, paths);
      && end.mem == Effects(st.mem, st.file, ms) && end.file == st.file && end.stack == st.stack
      && (ms != [] && !ms[0].anonymous ==> !end.reset && end.base == if st.reset then ms[0].addr else st.base)
    decreases |ms|
  {
    if ms != [] {
      var n := |ms| - 1;
      PerformMappings(st, ms[..n], files, paths);
      var before := MappingStatements(ms[..n]);
      PerformThen(st, before, [MappingStatement(ms[n])], files, paths);
      PerformMapping(PerformAll(st, before, files, paths), ms[n], files, paths);
      if n == 0 {
        assert before == [] && PerformAll(st, before, files, paths) == st;
      } else {
        assert ms[..n][0] == ms[0];
      }
    }
  }

  lemma PerformMapping(st: State, m: Mapping, files: Files, paths: nat -> seq<nat>)
    ensures var end := PerformAll(st, [MappingStatement(m)], files, paths);
      && end.mem == Effect(st.mem, st.file, m) && end.file == st.file && end.stack == st.stack
      && (m.anonymous ==> end.reset == st.reset && end.base == st.base)
      && (!m.anonymous ==> !end.reset && end.base == if st.reset then m.addr else st.base)
  {
    PerformOne(st, MappingStatement(m), files, paths);
    assert MappingOf(MappingStatement(m)) == m;
  }

  ghost function WithFile(st: State, file: File): State {
    st.(file := file, reset := true)
  }

  lemma PerformObject(st: State, open: Statement, ms: seq<Mapping>, files: Files, paths: nat -> seq<nat>)
    requires open.Open? || open.OpenNext?
    ensures var end := PerformAll(st, [open] + MappingStatements(ms), files, paths);
      && end.mem == Effects(st.mem, files(paths(open.path)), ms) && end.stack == st.stack
      && (ms != [] && !ms[0].anonymous ==> end.base == ms[0].addr)
  {
    PerformThen(st, [open], MappingStatements(ms), files, paths);
    PerformOne(st, open, files, paths);
    PerformMappings(WithFile(st, files(paths(open.path))), ms, files, paths);
  }

  /** Memory once the program, then its interpreter, are mapped. */
  ghost function LoadedMemory(r: Request, mem: Memory, files: Files): Memory {
    var exec := Effects(mem, files(r.exec.path), r.exec.mappings);
    match r.interp
    case Some(i) => Effects(exec, files(i.path), i.mappings)
    case None => exec
  }

  /** The object whose base the dynamic linker is told: the interpreter, or else the program. */
  ghost function LastMappings(r: Request): seq<Mapping> {
    match r.interp
    case Some(i) => i.mappings
    case None => r.exec.mappings
  }

  lemma ProgramEffect(r: Request, mem: Memory, files: Files)
    requires HasRoom(r)
    ensures var end := PerformAll(Initial(mem), Program(r), files, PathsOf(r));
      && end.mem == LoadedMemory(r, mem, files)
      && (LastMappings(r) != [] && !LastMappings(r)[0].anonymous ==> end.base == LastMappings(r)[0].addr)
      && end.stack == if NeedsExecStack(r) then Some(PageBase(r.stackPointer, r.page)) else None
  {
    ObjectsEffect(r, mem, files);
    TailEffect(Initial(mem), ExecPart(r) + InterpPart(r), r, files, PathsOf(r));
  }

  lemma TailEffect(st: State, head: seq<Statement>, r: Request, files: Files, paths: nat -> seq<nat>)
    requires HasRoom(r)
    ensures var end := PerformAll(st, head, files, paths);
      PerformAll(st, head + StackPart(r) + [StartStatement(r)], files, paths) ==
      if NeedsExecStack(r) then end.(stack := Some(PageBase(r.stackPointer, r.page))) else end
  {
    var stack, start := StackPart(r), StartStatement(r);
    var end := PerformAll(st, head, files, paths);
    var exec := PerformAll(st, head + stack, files, paths);
    PerformThen(st, head, stack, files, paths);
    StackEffect(end, r, files, paths);
    PerformThen(st, head + stack, [start], files, paths);
    PerformOne(exec, start, files, paths);
    assert Perform(exec, start, files, paths) == exec;
  }

  lemma StackEffect(st: State, r: Request, files: Files, paths: nat -> seq<nat>)
    requires HasRoom(r)
    ensures PerformAll(st, StackPart(r), files, paths) ==
      if NeedsExecStack(r) then st.(stack := Some(PageBase(r.stackPointer, r.page))) else st
  {
    PerformOne(st, MakeStackExec(PageBase(r.stackPointer, r.page)), files, paths);
  }

  lemma ObjectsEffect(r: Request, mem: Memory, files: Files)
    requires HasRoom(r)
    ensures var end := PerformAll(Initial(mem), ExecPart(r) + InterpPart(r), files, PathsOf(r));
      && end.mem == LoadedMemory(r, mem, files) && end.stack == None
      && (LastMappings(r) != [] && !LastMappings(r)[0].anonymous ==> end.base == LastMappings(r)[0].addr)
  {
    var paths := PathsOf(r);
    var st := Initial(mem);
    PerformThen(st, ExecPart(r), InterpPart(r), files, paths);
    PerformObject(st, Open(PathAddress(r)), r.exec.mappings, files, paths);
    if r.interp.Some? {
      var mid := PerformAll(st, ExecPart(r), files, paths);
      PerformObject(mid, OpenNext(InterpAddress(r)), r.interp.value.mappings, files, paths);
    }
  }

  // ---------------------------------------------------------------- the whole way

  lemma ProgramRunnable(r: Request, segs: seq<Segment>, interpSegs: seq<Segment>, area: seq<nat>, lo: nat)
    requires Ready(r, segs, interpSegs) && |area| == AreaSize(r) && lo == r.stackPointer - AreaSize(r)
    requires area[ScriptSize(r)..ScriptSize(r) + |Strings(r)|] == Strings(r)
    requires ScriptIn(area, Program(r), WordSize(r))
    ensures Runnable(Program(r), WordSize(r), lo, area, PathsOf(r))
  {
    StringsPlaced(r, area, lo);
    forall i | 0 <= i < |Program(r)|
      ensures Program(r)[i].Start? <==> i == |Program(r)| - 1
      ensures OpensText(Program(r)[i], area, lo, PathsOf(r)) && Proper(Program(r)[i], lo, |area|, WordSize(r))
    {
      ProgramShape(r, i);
      ProgramProper(r, segs, interpSegs, lo, |area|, WordSize(r), i);
    }
  }

  ghost predicate PathsFit(r: Request) {
    |r.exec.path| < PATH_MAX && (r.interp.Some? ==> |r.interp.value.path| < PATH_MAX)
  }

  lemma ProgramPathsShort(r: Request)
    requires HasRoom(r) && PathsFit(r)
    ensures ShortPaths(Program(r), PathsOf(r))
  {
    forall i | 0 <= i < |Program(r)| && (Program(r)[i].Open? || Program(r)[i].OpenNext?)
      ensures |PathsOf(r)(Program(r)[i].path)| < PATH_MAX
    {
      ProgramShape(r, i);
    }
    ProgramShape(r, 0);
  }

  /** What the program is started with: at the entry point of its interpreter, if it has one, with its own stack pointer
      and, for the auxiliary vector, its own headers and entry and an address where memory holds its name. */
  ghost predicate StartsWith(r: Request, start: Statement, mem: Memory) {
    && start.Start? && start.traced == r.traced && start.stackPointer == r.stackPointer
    && (r.interp.Some? ==> start.entryPoint == r.interp.value.entry) && (r.interp.None? ==> start.entryPoint == r.exec.entry)
    && start.entry == r.exec.entry && start.phent == r.exec.phentsize && start.phnum == r.exec.phnum
    && r.exec.mappings != [] && start.phdr == (r.exec.phoff + r.exec.mappings[0].addr) % WORD
    && (r.rawPath.Some? ==> ReadsAt(mem, start.execfn, r.rawPath.value + [0]))
    && (r.rawPath.None? ==> ReadsAt(mem, start.execfn, r.exec.path + [0]))
  }

  /** The stack is made executable exactly if one of the objects asks for it, from the page of the stack pointer on. */
  ghost predicate StackAsAsked(r: Request, stack: Option<nat>)
    requires PageSize(r.page)
  {
    && (stack.Some? <==> r.exec.execStack || (r.interp.Some? && r.interp.value.execStack))
    && (stack.Some? ==> stack.value % r.page == 0 && stack.value <= r.stackPointer < stack.value + r.page)
  }

  /** Both objects are mapped over `before`, and the loader jumps with the intended values. */
  ghost predicate Delivers(r: Request, out: Outcome, before: Memory, after: Memory, stack: Option<nat>, files: Files)
    requires HasRoom(r)
  {
    out.Started? ==>
      && StartsWith(r, out.start, after) && StackAsAsked(r, stack) && Same(after, LoadedMemory(r, before, files))
      && (LastMappings(r) != [] && !LastMappings(r)[0].anonymous ==> out.base == LastMappings(r)[0].addr)
  }

  /** From the request to the running program: the tracee's memory ends up with both objects mapped, and the loader
      jumps with the intended values, whatever the words' width. */
  method Load(r: Request, m: Machine, files: Files, reliable: bool, ghost segs: seq<Segment>, ghost interpSegs: seq<Segment>)
    returns (out: Outcome, sp: nat, ghost pushed: seq<nat>)
    requires Ready(r, segs, interpSegs)
    modifies m
    ensures |pushed| == AreaSize(r) && sp == r.stackPointer - |pushed|
    ensures Delivers(r, out, Pushed(old(m.mem), sp, pushed), m.mem, m.stack, files)
    ensures out.Started? ==> WritableTails(Program(r))
    ensures out.Killed? ==> !WritableTails(Program(r))
    ensures reliable && PathsFit(r) ==> !out.Fatal?
  {
    sp, pushed := Push(r, m);
    ProgramRunnable(r, segs, interpSegs, pushed, sp);
    out := RunProgram(r, m, sp, files, reliable, pushed);
  }

  method RunProgram(r: Request, m: Machine, sp: nat, files: Files, reliable: bool, ghost area: seq<nat>) returns (out: Outcome)
    requires HasRoom(r) && |area| == AreaSize(r) && sp == r.stackPointer - |area|
    requires area[ScriptSize(r)..ScriptSize(r) + |Strings(r)|] == Strings(r)
    requires ReadsAt(m.mem, sp, area) && Runnable(Program(r), WordSize(r), sp, area, PathsOf(r))
    modifies m
    ensures Delivers(r, out, old(m.mem), m.mem, m.stack, files)
    ensures out.Started? ==> WritableTails(Program(r))
    ensures out.Killed? ==> !WritableTails(Program(r))
    ensures reliable && PathsFit(r) ==> !out.Fatal?
  {
    assert Program(r)[|Program(r)| - 1] == StartStatement(r);
    if PathsFit(r) {
      ProgramPathsShort(r);
    }
    ProgramEffect(r, m.mem, files);
    out := Run(m, sp, WordSize(r), files, reliable, Program(r), area, PathsOf(r));
    if out.Started? {
      StartValues(r, m.mem, area, sp);
      StackPage(r);
    }
  }

  lemma StartValues(r: Request, mem: Memory, area: seq<nat>, sp: nat)
    requires HasRoom(r) && |area| == AreaSize(r) && sp == r.stackPointer - |area| && ReadsAt(mem, sp, area)
    requires area[ScriptSize(r)..ScriptSize(r) + |Strings(r)|] == Strings(r)
    ensures StartsWith(r, StartStatement(r), mem)
  {
    var t1, t2, t3 := Text(r.exec.path), InterpText(r), RawText(r);
    ThreeTexts(t1, t2, t3);
    var (from, text) := if r.rawPath.Some? then (|t1| + |t2|, t3) else (0, t1);
    SubText(area, ScriptSize(r), Strings(r), from, text);
    ReadsInside(mem, sp, area, ScriptSize(r) + from, text);
  }

  lemma StackPage(r: Request)
    requires HasRoom(r)
    ensures StackAsAsked(r, if NeedsExecStack(r) then Some(PageBase(r.stackPointer, r.page)) else None)
  {
    EndsOnPage(r.stackPointer, r.page);
  }

  /** The script and its strings, in the memory of the tracee. */
  method Push(r: Request, m: Machine) returns (sp: nat, ghost area: seq<nat>)
    requires HasRoom(r)
    modifies m
    ensures |area| == AreaSize(r) && sp == r.stackPointer - |area| && m.mem == Pushed(old(m.mem), sp, area)
    ensures ReadsAt(m.mem, sp, area) && ScriptIn(area, Program(r), WordSize(r))
    ensures area[ScriptSize(r)..ScriptSize(r) + |Strings(r)|] == Strings(r)
    ensures sp % Alignment(r) == 0
  {
    var buffer;
    buffer, sp := TransferLoadScript(r);
    area := buffer[..];
    m.mem := Pushed(m.mem, sp, buffer[..]);
  }

  // ---------------------------------------------------------------- bytes of the loaded segments

  ghost predicate CoveredBy(segs: seq<Segment>, page: nat, a: nat)
    requires AllLoadable(segs, page)
  {
    exists i :: 0 <= i < |segs| && Covers(segs[i], page, a)
  }

  /** Each byte of a segment of the program is the file's or 0, as chapter 5 of the gABI asks, wherever the
      interpreter's pages are not. */
  lemma ProgramBytes(r: Request, mem: Memory, files: Files, segs: seq<Segment>, interpSegs: seq<Segment>, page: nat, k: nat, a: nat)
    requires AllLoadable(segs, page) && Separated(segs, page) && AllLoadable(interpSegs, page)
    requires r.exec.mappings == AllMappings(segs, page)
    requires r.interp.Some? ==> r.interp.value.mappings == AllMappings(interpSegs, page) && !CoveredBy(interpSegs, page, a)
    requires k < |segs| && segs[k].vaddr <= a < ContentEnd(segs[k])
    ensures LoadedMemory(r, mem, files)(a) == Cell(ContentByte(files(r.exec.path), segs[k], a), ProtOf(segs[k].flags))
  {
    var exec := Effects(mem, files(r.exec.path), r.exec.mappings);
    ImageTheorem(mem, files(r.exec.path), segs, page, k, a);
    if r.interp.Some? {
      Untouched(exec, files(r.interp.value.path), interpSegs, page, a);
    }
  }

  /** The program finds its headers where it is told: when its first segment starts in the first page of the file, memory
      from that address on is what the file has from the offset of the headers on. */
  lemma HeadersFound(r: Request, mem: Memory, files: Files, segs: seq<Segment>, interpSegs: seq<Segment>, page: nat, i: nat, a: nat)
    requires AllLoadable(segs, page) && Separated(segs, page) && AllLoadable(interpSegs, page) && segs != []
    requires r.exec.mappings == AllMappings(segs, page) && segs[0].offset < page
    requires segs[0].offset <= r.exec.phoff + i < segs[0].offset + segs[0].filesz
    requires r.exec.mappings != [] && a == r.exec.phoff + r.exec.mappings[0].addr + i
    requires r.interp.Some? ==> r.interp.value.mappings == AllMappings(interpSegs, page) && !CoveredBy(interpSegs, page, a)
    ensures LoadedMemory(r, mem, files)(a) == Cell(files(r.exec.path)(r.exec.phoff + i), ProtOf(segs[0].flags))
  {
    var file, seg, x := files(r.exec.path), segs[0], r.exec.phoff + i;
    HeaderAddress(segs, page, x, a);
    FilePart(file, seg, x, a);
    ProgramBytes(r, mem, files, segs, interpSegs, page, 0, a);
  }

  lemma HeaderAddress(segs: seq<Segment>, page: nat, x: nat, a: nat)
    requires AllLoadable(segs, page) && segs != [] && segs[0].offset < page && segs[0].offset <= x
    requires AllMappings(segs, page) != [] && a == x + AllMappings(segs, page)[0].addr
    ensures a == segs[0].vaddr + (x - segs[0].offset)
  {
    FirstMappingStarts(segs, page);
    InFirstPage(segs[0], page);
  }

  lemma FilePart(file: File, seg: Segment, x: nat, a: nat)
    requires seg.offset <= x < seg.offset + seg.filesz && a == seg.vaddr + (x - seg.offset)
    ensures seg.vaddr <= a < ContentEnd(seg) && ContentByte(file, seg, a) == file(x)
  {
  }

  lemma InFirstPage(seg: Segment, page: nat)
    requires Loadable(seg, page) && seg.offset < page
    ensures PageBase(seg.vaddr, page) == seg.vaddr - seg.offset
  {
    PageBaseRounds(seg.offset, page);
    SmallMod(seg.offset, page);
  }

  lemma {:induction false} FirstMappingStarts(segs: seq<Segment>, page: nat)
    requires AllLoadable(segs, page) && segs != []
    ensures AllMappings(segs, page) != [] && AllMappings(segs, page)[0].addr == PageBase(segs[0].vaddr, page)
    decreases |segs|
  {
    if |segs| > 1 {
      FirstMappingStarts(segs[..|segs| - 1], page);
    }
  }

  lemma InterpreterBytes(r: Request, mem: Memory, files: Files, interpSegs: seq<Segment>, page: nat, k: nat, a: nat)
    requires AllLoadable(interpSegs, page) && Separated(interpSegs, page)
    requires r.interp.Some? && r.interp.value.mappings == AllMappings(interpSegs, page)
    requires k < |interpSegs| && interpSegs[k].vaddr <= a < ContentEnd(interpSegs[k])
    ensures LoadedMemory(r, mem, files)(a) ==
      Cell(ContentByte(files(r.interp.value.path), interpSegs[k], a), ProtOf(interpSegs[k].flags))
  {
    ImageTheorem(Effects(mem, files(r.exec.path), r.exec.mappings), files(r.interp.value.path), interpSegs, page, k, a);
  }
}
