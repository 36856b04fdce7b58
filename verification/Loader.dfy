/** The loader that runs inside a new process (proot-master/src/loader/loader.c): it interprets the load script from
    memory, maps the files and clears what the files do not fill. */
module Loader {
  import opened Wrappers
  import opened Limits
  import opened Bits
  import opened Words
  import opened LoadImage
  import opened LoadScript

  /** The address space of the process. */
  /** The memory of the process, and where its stack was made executable from, if it was. */
  class Machine {
    var mem: Memory
    var stack: Option<nat>

    constructor (mem: Memory)
      ensures this.mem == mem && stack == None
    {
      this.mem, stack := mem, None;
    }
  }

  ghost predicate Same(m: Memory, m': Memory) {
    forall a :: m(a) == m'(a)
  }

  // ---------------------------------------------------------------- clear

  function RoundUp(start: nat, w: nat): nat
    requires w > 0
  {
    if start % w != 0 then start + w - start % w else start
  }

  function RoundDown(end: nat, w: nat): nat
    requires w > 0
  {
    end - end % w
  }

  lemma Rounded(a: nat, w: nat)
    requires w > 0
    ensures RoundUp(a, w) % w == 0 && a <= RoundUp(a, w) < a + w
    ensures RoundDown(a, w) % w == 0 && RoundDown(a, w) <= a < RoundDown(a, w) + w
  {
    var q := a / w;
    assert a == w * q + a % w;
    ModUnique(w * q, w, q, 0);
    assert w * (q + 1) == w * q + w;
    ModUnique(w * (q + 1), w, q + 1, 0);
  }

  /** Multiples of `w` are at least `w` apart. */
  lemma NextMultiple(a: nat, b: nat, w: nat)
    requires w > 0 && a % w == 0 && b % w == 0 && a < b
    ensures a + w <= b && (a + w) % w == 0
  {
    NextProduct(w, a / w, b / w, a, b);
  }

  lemma NextProduct(w: nat, i: nat, j: nat, a: nat, b: nat)
    requires w > 0 && a == w * i && b == w * j && a < b
    ensures a + w <= b && (a + w) % w == 0
  {
    if j <= i {
      Times(w, j, i);
    }
    Times(w, i + 1, j);
    assert w * (i + 1) == a + w;
    ModUnique(a + w, w, i + 1, 0);
  }

  lemma Times(w: nat, i: int, j: int)
    ensures i <= j ==> w * i <= w * j
  {
    if i <= j {
      assert w * j - w * i == w * (j - i);
    }
  }

  /** The bytes `clear` writes. */
  ghost predicate Hit(a: nat, start: nat, end: nat, w: nat)
    requires w > 0
  {
    || start <= a < RoundUp(start, w)
    || RoundUp(start, w) <= a < RoundDown(end, w)
    || RoundDown(end, w) <= a < end
  }

  /** `clear`: a run of bytes up to a word boundary, whole words, and the bytes left over. */
  method Clear(m: Machine, start: nat, end: nat, w: nat)
    requires w > 0
    modifies m`mem
    ensures forall a :: m.mem(a) == if Hit(a, start, end, w) && old(m.mem)(a).Cell? then Cell(0, old(m.mem)(a).prot) else old(m.mem)(a)
  {
    Rounded(start, w);
    Rounded(end, w);
    var startAligned, endAligned := RoundUp(start, w), RoundDown(end, w);
    ClearSteps(m, start, startAligned, 1);
    ClearSteps(m, startAligned, endAligned, w);
    ClearSteps(m, endAligned, end, 1);
  }

  /** One of the three loops: zeroes from `from` to `until` in units of `unit` bytes. */
  method ClearSteps(m: Machine, from: nat, until: nat, unit: nat)
    requires unit > 0 && from % unit == 0 && until % unit == 0
    modifies m`mem
    ensures forall a :: m.mem(a) == Zeroed(old(m.mem), from, until)(a)
  {
    var cursor := from;
    while cursor < until
      invariant from <= cursor && (cursor <= until || cursor == from) && cursor % unit == 0
      invariant forall a :: m.mem(a) == Zeroed(old(m.mem), from, cursor)(a)
      decreases until - cursor
    {
      NextMultiple(cursor, until, unit);
      m.mem := Zeroed(m.mem, cursor, cursor + unit);
      cursor := cursor + unit;
    }
  }

  /** `clear` is exact precisely when the first word boundary at or after `start` is not past `end`. */
  lemma ClearExact(start: nat, end: nat, w: nat)
    requires w > 0 && start <= end
    ensures (forall a: nat :: Hit(a, start, end, w) <==> start <= a < end) <==> RoundUp(start, w) <= end
  {
    Rounded(start, w);
    Rounded(end, w);
    if RoundUp(start, w) <= end {
      if RoundDown(end, w) < RoundUp(start, w) {
        NextMultiple(RoundDown(end, w), RoundUp(start, w), w);
      }
    } else {
      assert Hit(RoundUp(start, w) - 1, start, end, w);
    }
  }

  /** As the source relies on it: the end of a mapping is a word boundary. */
  lemma ClearExactAtBoundary(start: nat, end: nat, w: nat)
    requires w > 0 && start <= end && end % w == 0
    ensures RoundUp(start, w) <= end
  {
    Rounded(start, w);
    if end < RoundUp(start, w) {
      NextMultiple(end, RoundUp(start, w), w);
    }
  }

  // ---------------------------------------------------------------- reading memory

  function Peek(mem: Memory, a: nat): nat {
    if mem(a).Cell? then mem(a).value else 0
  }

  /** The little-endian word of `w` bytes at `a`. */
  function WordAt(mem: Memory, a: nat, w: nat): nat
    decreases w
  {
    if w == 0 then 0 else Peek(mem, a) + 256 * WordAt(mem, a + 1, w - 1)
  }

  /** The bytes from `a` on. */
  ghost predicate ReadsAt(mem: Memory, a: nat, bytes: seq<nat>) {
    forall x: nat :: a <= x < a + |bytes| ==> mem(x).Cell? && mem(x).value == bytes[x - a]
  }

  lemma {:induction false} ValueRead(mem: Memory, a: nat, bytes: seq<nat>)
    requires ReadsAt(mem, a, bytes)
    ensures WordAt(mem, a, |bytes|) == Value(bytes)
    decreases |bytes|
  {
    if bytes != [] {
      ValueRead(mem, a + 1, bytes[1..]);
    }
  }

  lemma ReadsInside(mem: Memory, a: nat, area: seq<nat>, c: nat, bytes: seq<nat>)
    requires ReadsAt(mem, a, area) && c + |bytes| <= |area| && area[c..c + |bytes|] == bytes
    ensures ReadsAt(mem, a + c, bytes)
  {
    forall x: nat | a + c <= x < a + c + |bytes|
      ensures mem(x).Cell? && mem(x).value == bytes[x - (a + c)]
    {
      assert area[c..c + |bytes|][x - (a + c)] == area[x - a];
    }
  }

  /** Stored words are read back, up to their width. */
  lemma WordRead(mem: Memory, a: nat, area: seq<nat>, words: seq<nat>, w: nat, i: nat, c: nat)
    requires ReadsAt(mem, a, area) && i < |words| && c == At(w, i)
    requires |Stored(words, w)| <= |area| && area[..|Stored(words, w)|] == Stored(words, w)
    ensures WordAt(mem, a + c, w) == words[i] % Bound(w)
  {
    StoredAt(words, w, i);
    SliceOfPrefix(area, Stored(words, w), c, w);
    WordInside(mem, a, area, c, words[i], w);
  }

  lemma WordInside(mem: Memory, a: nat, area: seq<nat>, c: nat, v: nat, w: nat)
    requires ReadsAt(mem, a, area) && c + w <= |area| && area[c..c + w] == Bytes(v, w)
    ensures WordAt(mem, a + c, w) == v % Bound(w)
  {
    ReadsInside(mem, a, area, c, Bytes(v, w));
    ValueRead(mem, a + c, Bytes(v, w));
    ValueBytes(v, w);
  }

  lemma SliceOfPrefix(area: seq<nat>, stored: seq<nat>, c: nat, n: nat)
    requires |stored| <= |area| && area[..|stored|] == stored && c + n <= |stored|
    ensures area[c..c + n] == stored[c..c + n]
  {
    var part := area[c..c + n];
    forall k | 0 <= k < n
      ensures part[k] == stored[c..c + n][k]
    {
      assert area[c + k] == area[..|stored|][c + k];
    }
  }

  /** The words of statement `i` inside the script. */
  lemma StatementInside(stmts: seq<Statement>, i: nat, j: nat)
    requires i < |stmts| && j < Size(stmts[i])
    ensures |ScriptWords(stmts[..i])| + j < |ScriptWords(stmts)|
    ensures ScriptWords(stmts)[|ScriptWords(stmts[..i])| + j] == StatementWords(stmts[i])[j]
  {
    ScriptAround(stmts, i);
    MiddleOfThree(ScriptWords(stmts[..i]), StatementWords(stmts[i]), ScriptWords(stmts[i + 1..]), j);
  }

  lemma ScriptAround(stmts: seq<Statement>, i: nat)
    requires i < |stmts|
    ensures ScriptWords(stmts) == ScriptWords(stmts[..i]) + StatementWords(stmts[i]) + ScriptWords(stmts[i + 1..])
  {
    Around(stmts, i);
    ScriptOfThree(stmts[..i], stmts[i], stmts[i + 1..], stmts);
  }

  lemma Around<T>(s: seq<T>, i: nat)
    requires i < |s|
    ensures s == s[..i] + [s[i]] + s[i + 1..]
  {
  }

  lemma ScriptOfThree(a: seq<Statement>, s: Statement, c: seq<Statement>, all: seq<Statement>)
    requires all == a + [s] + c
    ensures ScriptWords(all) == ScriptWords(a) + StatementWords(s) + ScriptWords(c)
  {
    ScriptConcat(a + [s], c);
    ScriptConcat(a, [s]);
    ScriptOne(s);
  }

  lemma MiddleOfThree(a: seq<nat>, b: seq<nat>, c: seq<nat>, j: nat)
    requires j < |b|
    ensures |a| + j < |a + b + c| && (a + b + c)[|a| + j] == b[j]
  {
  }

  function CursorWords(mem: Memory, cursor: nat, w: nat): nat -> nat {
    (j: nat) => WordAt(mem, cursor + At(w, j), w)
  }

  /** The script, in words of `w` bytes, is at the bottom of `area`. */
  ghost predicate ScriptIn(area: seq<nat>, stmts: seq<Statement>, w: nat) {
    var bytes := Stored(ScriptWords(stmts), w);
    |bytes| <= |area| && area[..|bytes|] == bytes
  }

  lemma StatementRead(mem: Memory, a: nat, area: seq<nat>, stmts: seq<Statement>, w: nat, i: nat, cursor: nat)
    requires ReadsAt(mem, a, area) && ScriptIn(area, stmts, w) && i < |stmts| && w > 0
    requires cursor == a + At(w, |ScriptWords(stmts[..i])|)
    ensures Fetch(CursorWords(mem, cursor, w)) == Some(Narrowed(stmts[i], w))
  {
    forall j: nat | j < Size(stmts[i])
      ensures CursorWords(mem, cursor, w)(j) == StatementWords(stmts[i])[j] % Bound(w)
    {
      WordOfStatement(mem, a, area, stmts, w, i, j, cursor);
      CursorWord(mem, cursor, w, j, StatementWords(stmts[i])[j] % Bound(w));
    }
    FetchWritten(stmts[i], w, CursorWords(mem, cursor, w));
  }

  lemma CursorWord(mem: Memory, cursor: nat, w: nat, j: nat, value: nat)
    requires WordAt(mem, cursor + At(w, j), w) == value
    ensures CursorWords(mem, cursor, w)(j) == value
  {
  }

  lemma WordOfStatement(mem: Memory, a: nat, area: seq<nat>, stmts: seq<Statement>, w: nat, i: nat, j: nat, start: nat)
    requires ReadsAt(mem, a, area) && ScriptIn(area, stmts, w) && i < |stmts| && j < Size(stmts[i])
    requires start == a + At(w, |ScriptWords(stmts[..i])|)
    ensures WordAt(mem, start + At(w, j), w) == StatementWords(stmts[i])[j] % Bound(w)
  {
    var words, k := ScriptWords(stmts), |ScriptWords(stmts[..i])|;
    StatementInside(stmts, i, j);
    var v := StatementWords(stmts[i])[j];
    WordFrom(mem, a, area, words, w, k, j, start, v);
  }

  lemma WordFrom(mem: Memory, a: nat, area: seq<nat>, words: seq<nat>, w: nat, k: nat, j: nat, start: nat, v: nat)
    requires ReadsAt(mem, a, area) && k + j < |words| && start == a + At(w, k) && words[k + j] == v
    requires |Stored(words, w)| <= |area| && area[..|Stored(words, w)|] == Stored(words, w)
    ensures WordAt(mem, start + At(w, j), w) == v % Bound(w)
  {
    AtSum(w, k, j);
    var c := At(w, k + j);
    WordRead(mem, a, area, words, w, k + j, c);
    assert start + At(w, j) == a + c;
  }

  // ---------------------------------------------------------------- what a script does

  /** Paths, as bytes, to file contents. */
  type Files = seq<nat> -> File

  /** The string stored at `p` inside `area`, which is at `lo`. */
  ghost predicate TextIn(area: seq<nat>, lo: nat, p: nat, s: seq<nat>) {
    && lo <= p && p - lo + |s| + 1 <= |area|
    && area[p - lo..p - lo + |s| + 1] == s + [0] && 0 !in s
  }

  /** The file being mapped, the address space, and the base address recorded for the last object opened. */
  datatype State = State(mem: Memory, file: File, base: nat, reset: bool, stack: Option<nat>)

  function MappingOf(s: Statement): Mapping
    requires s.MmapFile? || s.MmapAnon?
  {
    Mapping(s.addr, s.length, s.clear, s.prot, s.MmapAnon?, s.offset)
  }

  ghost function Perform(st: State, s: Statement, files: Files, paths: nat -> seq<nat>): State {
    match s
    case Open(p) => st.(file := files(paths(p)), reset := true)
    case OpenNext(p) => st.(file := files(paths(p)), reset := true)
    case MmapFile(addr, _, _, _, _) =>
      st.(mem := Effect(st.mem, st.file, MappingOf(s)), base := if st.reset then addr else st.base, reset := false)
    case MmapAnon(_, _, _, _, _) => st.(mem := Effect(st.mem, st.file, MappingOf(s)))
    case MakeStackExec(start) => st.(stack := Some(start))
    case Start(_, _, _, _, _, _, _, _) => st
  }

  ghost function PerformAll(st: State, stmts: seq<Statement>, files: Files, paths: nat -> seq<nat>): State {
    if stmts == [] then st
    else Perform(PerformAll(st, stmts[..|stmts| - 1], files, paths), stmts[|stmts| - 1], files, paths)
  }

  // ---------------------------------------------------------------- the interpreter

  datatype Outcome = Fatal | Killed | Started(start: Statement, base: nat)

  function Writable(prot: nat): bool {
    BitAnd(prot, PROT_WRITE) != 0
  }

  /** A mapping statement that leaves the area alone and clears a tail that ends on a word boundary. */
  ghost predicate Proper(s: Statement, lo: nat, size: nat, w: nat)
    requires w > 0
  {
    s.MmapFile? || s.MmapAnon? ==>
      && (s.addr + s.length <= lo || lo + size <= s.addr)
      && s.clear <= s.length && (s.clear != 0 ==> (s.addr + s.length) % w == 0)
  }

  /** The path at an address, as open(2) reads it; none when it has no end within PATH_MAX bytes. */
  method ReadPath(mem: Memory, a: nat, max: nat) returns (r: Option<seq<nat>>)
    ensures forall s :: ReadsAt(mem, a, s + [0]) && 0 !in s ==> r == if |s| < max then Some(s) else None
  {
    var path := [];
    while |path| < max
      invariant |path| <= max && 0 !in path && ReadsAt(mem, a, path)
      decreases max - |path|
    {
      if mem(a + |path|).Unmapped? {
        forall s
          ensures !(ReadsAt(mem, a, s + [0]) && 0 !in s)
        {
          NoText(mem, a, s, path);
        }
        return None;
      }
      if mem(a + |path|).value == 0 {
        forall s | ReadsAt(mem, a, s + [0]) && 0 !in s
          ensures s == path
        {
          SameText(mem, a, s, path);
        }
        return Some(path);
      }
      path := path + [mem(a + |path|).value];
    }
    forall s | ReadsAt(mem, a, s + [0]) && 0 !in s
      ensures |s| >= max
    {
      LongText(mem, a, s, path);
    }
    return None;
  }

  lemma NoText(mem: Memory, a: nat, s: seq<nat>, path: seq<nat>)
    requires ReadsAt(mem, a, path) && 0 !in path && mem(a + |path|).Unmapped?
    ensures !(ReadsAt(mem, a, s + [0]) && 0 !in s)
  {
    if ReadsAt(mem, a, s + [0]) {
      LongText(mem, a, s, path);
    }
  }

  /** A string that ends where a byte is 0 is the one read so far. */
  lemma SameText(mem: Memory, a: nat, s: seq<nat>, path: seq<nat>)
    requires ReadsAt(mem, a, s + [0]) && 0 !in s && ReadsAt(mem, a, path) && 0 !in path && mem(a + |path|) .Cell? && mem(a + |path|).value == 0
    ensures s == path
  {
    assert forall i :: 0 <= i < |s| ==> mem(a + i).value == (s + [0])[i] == s[i];
    assert forall i :: 0 <= i < |path| ==> mem(a + i).value == path[i];
    LongText(mem, a, s, path);
  }

  lemma LongText(mem: Memory, a: nat, s: seq<nat>, path: seq<nat>)
    requires ReadsAt(mem, a, s + [0]) && ReadsAt(mem, a, path) && 0 !in path
    ensures |s| >= |path|
  {
    assert mem(a + |s|).value == (s + [0])[|s|] == 0;
  }

  /** Mapping a file range, then clearing its tail; false when the tail is not writable and the process dies. */
  method MapFileStep(m: Machine, s: Statement, file: File, w: nat, ghost was: Memory) returns (alive: bool)
    requires s.MmapFile? && w > 0 && s.clear <= s.length && (s.clear != 0 ==> (s.addr + s.length) % w == 0)
    requires Same(m.mem, was)
    modifies m`mem
    ensures alive ==> Same(m.mem, Effect(was, file, MappingOf(s)))
    ensures !alive <==> s.clear != 0 && !Writable(s.prot)
  {
    m.mem := MapFile(m.mem, file, MappingOf(s));
    if s.clear != 0 {
      if !Writable(s.prot) {
        return false;
      }
      var start, end := s.addr + s.length - s.clear, s.addr + s.length;
      ClearExactAtBoundary(start, end, w);
      ClearExact(start, end, w);
      Clear(m, start, end, w);
    }
    return true;
  }

  lemma AvoidsArea(mem: Memory, file: File, s: Statement, lo: nat, area: seq<nat>, w: nat)
    requires (s.MmapFile? || s.MmapAnon?) && w > 0 && Proper(s, lo, |area|, w) && ReadsAt(mem, lo, area)
    ensures ReadsAt(Effect(mem, file, MappingOf(s)), lo, area)
  {
  }

  datatype Status = Go | Exit | Dead

  ghost predicate Tracks(m: Machine, st: State, fd: Option<File>, base: nat, reset: bool, lo: nat, area: seq<nat>)
    reads m
  {
    && Same(m.mem, st.mem) && ReadsAt(m.mem, lo, area)
    && (fd.Some? ==> fd.value == st.file) && base == st.base && reset == st.reset && m.stack == st.stack
  }

  ghost predicate OpensText(s: Statement, area: seq<nat>, lo: nat, paths: nat -> seq<nat>) {
    s.Open? || s.OpenNext? ==> TextIn(area, lo, s.path, paths(s.path))
  }

  /** `open`: the path is read from memory. */
  method OpenStep(m: Machine, address: nat, files: Files, reliable: bool, ghost path: seq<nat>, ghost lo: nat, ghost area: seq<nat>)
    returns (fd: Option<File>)
    requires ReadsAt(m.mem, lo, area) && TextIn(area, lo, address, path)
    ensures fd.Some? ==> fd.value == files(path)
    ensures reliable && |path| < PATH_MAX ==> fd.Some?
  {
    ReadsInside(m.mem, lo, area, address - lo, path + [0]);
    var read := ReadPath(m.mem, address, PATH_MAX);
    if read.None? {
      return None;
    }
    if * {
      if !reliable {
        return None;
      }
    }
    return Some(files(read.value));
  }

  /** One statement other than the last. */
  method Execute(m: Machine, s: Statement, fd: Option<File>, base: nat, reset: bool, w: nat, files: Files, reliable: bool,
                 ghost st: State, ghost paths: nat -> seq<nat>, ghost lo: nat, ghost area: seq<nat>)
    returns (status: Status, fd': Option<File>, base': nat, reset': bool)
    requires !s.Start? && w > 0 && Proper(s, lo, |area|, w) && OpensText(s, area, lo, paths)
    requires Tracks(m, st, fd, base, reset, lo, area)
    modifies m
    ensures status == Go ==> Tracks(m, Perform(st, s, files, paths), fd', base', reset', lo, area)
    ensures status == Go && (s.Open? || fd.Some?) ==> fd'.Some?
    ensures status == Dead ==> !WritableTail(s)
    ensures status == Go ==> WritableTail(s)
    ensures reliable && (s.Open? || fd.Some?) && (s.Open? || s.OpenNext? ==> |paths(s.path)| < PATH_MAX) ==> status != Exit
  {
    status, fd', base', reset' := Go, fd, base, reset;
    if s.Open? || s.OpenNext? {
      if s.OpenNext? && fd.None? {
        status := Exit;
        return;
      }
      fd' := OpenStep(m, s.path, files, reliable, paths(s.path), lo, area);
      reset' := true;
      status := if fd'.None? then Exit else Go;
    } else if s.MakeStackExec? {
      m.stack := Some(s.start);
    } else {
      if * {
        if !reliable {
          status := Exit;
          return;
        }
      }
      AvoidsArea(m.mem, st.file, s, lo, area, w);
      ghost var was := m.mem;
      if s.MmapFile? {
        if fd.None? {
          status := Exit;
          return;
        }
        var alive := MapFileStep(m, s, fd.value, w, st.mem);
        if !alive {
          status := Dead;
          return;
        }
        base', reset' := if reset then s.addr else base, false;
      } else {
        m.mem := MapAnonymous(m.mem, MappingOf(s));
      }
      SameReads(Effect(was, st.file, MappingOf(s)), m.mem, lo, area);
    }
  }

  lemma SameReads(a: Memory, b: Memory, lo: nat, area: seq<nat>)
    requires Same(a, b) && ReadsAt(a, lo, area)
    ensures ReadsAt(b, lo, area)
  {
  }

  /** A script the loader can run from `area`: it ends with its only start statement, its fields fit the words, its
      strings are in the area, and no mapping touches the area. */
  ghost predicate Runnable(stmts: seq<Statement>, w: nat, lo: nat, area: seq<nat>, paths: nat -> seq<nat>) {
    && w > 0 && ScriptIn(area, stmts, w)
    && stmts != [] && (forall i :: 0 <= i < |stmts| ==> (stmts[i].Start? <==> i == |stmts| - 1))
    && (forall i :: 0 <= i < |stmts| ==> Narrowed(stmts[i], w) == stmts[i])
    && (forall i :: 0 <= i < |stmts| ==> Proper(stmts[i], lo, |area|, w) && OpensText(stmts[i], area, lo, paths))
  }

  ghost predicate ShortPaths(stmts: seq<Statement>, paths: nat -> seq<nat>) {
    && stmts != [] && stmts[0].Open?
    && forall i :: 0 <= i < |stmts| && (stmts[i].Open? || stmts[i].OpenNext?) ==> |paths(stmts[i].path)| < PATH_MAX
  }

  /** What is to be cleared after the end of the file can be written. */
  ghost predicate WritableTail(s: Statement) {
    s.MmapFile? && s.clear != 0 ==> Writable(s.prot)
  }

  ghost predicate WritableTails(stmts: seq<Statement>) {
    forall i :: 0 <= i < |stmts| ==> WritableTail(stmts[i])
  }

  ghost function Initial(mem: Memory): State {
    State(mem, _ => 0, 0, true, None)
  }

  /** `_start`: read a statement at the cursor, obey it, move on, until the start statement.  What was meant is what
      happens; and nothing but a failing system call, a missing write permission or an over-long path stops it. */
  method Run(m: Machine, lo: nat, w: nat, files: Files, reliable: bool,
             ghost stmts: seq<Statement>, ghost area: seq<nat>, ghost paths: nat -> seq<nat>)
    returns (out: Outcome)
    requires Runnable(stmts, w, lo, area, paths) && ReadsAt(m.mem, lo, area)
    modifies m
    ensures out.Started? ==>
      var end := PerformAll(Initial(old(m.mem)), stmts, files, paths);
      out.start == stmts[|stmts| - 1] && out.base == end.base && Same(m.mem, end.mem) && m.stack == end.stack
    ensures out.Started? ==> ReadsAt(m.mem, lo, area)
    ensures out.Started? ==> WritableTails(stmts)
    ensures out.Killed? ==> !WritableTails(stmts)
    ensures reliable && ShortPaths(stmts, paths) ==> !out.Fatal?
  {
    var cursor, fd, base, reset := lo, None, 0, true;
    ghost var i := 0;
    ghost var first := Initial(m.mem);
    m.stack := None;
    assert stmts[..0] == [];
    while true
      invariant 0 <= i < |stmts| && cursor == lo + Offset(stmts, i, w)
      invariant Tracks(m, PerformAll(first, stmts[..i], files, paths), fd, base, reset, lo, area)
      invariant i > 0 && stmts[0].Open? ==> fd.Some?
      invariant WritableTails(stmts[..i])
      decreases |stmts| - i
    {
      var over;
      over, cursor, fd, base, reset := Turn(m, cursor, fd, base, reset, lo, w, files, reliable, stmts, area, paths, i, first);
      if over.Some? {
        TailsEnd(stmts, i);
        return over.value;
      }
      TailsNext(stmts, i);
      i := i + 1;
    }
  }

  lemma TailsNext(stmts: seq<Statement>, i: nat)
    requires i < |stmts| && WritableTails(stmts[..i]) && WritableTail(stmts[i])
    ensures WritableTails(stmts[..i + 1])
  {
  }

  lemma TailsEnd(stmts: seq<Statement>, i: nat)
    requires i < |stmts| && WritableTails(stmts[..i])
    ensures i == |stmts| - 1 && stmts[i].Start? ==> WritableTails(stmts)
    ensures !WritableTail(stmts[i]) ==> !WritableTails(stmts)
  {
    forall j | 0 <= j < i
      ensures WritableTail(stmts[j])
    {
      assert stmts[..i][j] == stmts[j];
    }
  }

  /** One turn: the statement at the cursor is read and obeyed. */
  method Turn(m: Machine, cursor: nat, fd: Option<File>, base: nat, reset: bool, lo: nat, w: nat, files: Files, reliable: bool,
              ghost stmts: seq<Statement>, ghost area: seq<nat>, ghost paths: nat -> seq<nat>, ghost i: nat, ghost first: State)
    returns (over: Option<Outcome>, cursor': nat, fd': Option<File>, base': nat, reset': bool)
    requires Runnable(stmts, w, lo, area, paths) && i < |stmts| && cursor == lo + Offset(stmts, i, w)
    requires Tracks(m, PerformAll(first, stmts[..i], files, paths), fd, base, reset, lo, area)
    requires i > 0 && stmts[0].Open? ==> fd.Some?
    modifies m
    ensures over.None? ==> i + 1 < |stmts| && cursor' == lo + Offset(stmts, i + 1, w) && WritableTail(stmts[i])
    ensures over.None? ==> Tracks(m, PerformAll(first, stmts[..i + 1], files, paths), fd', base', reset', lo, area)
    ensures over.None? && stmts[0].Open? ==> fd'.Some?
    ensures over.Some? && over.value.Started? ==> i == |stmts| - 1 && stmts[i].Start? && over.value.start == stmts[i]
    ensures over.Some? && over.value.Started? ==>
      var end := PerformAll(first, stmts, files, paths);
      over.value.base == end.base && Same(m.mem, end.mem) && m.stack == end.stack && ReadsAt(m.mem, lo, area)
    ensures over.Some? && over.value.Killed? ==> !WritableTail(stmts[i])
    ensures over.Some? && reliable && ShortPaths(stmts, paths) ==> !over.value.Fatal?
  {
    over, fd', base', reset' := None, fd, base, reset;
    var s;
    Advance(stmts, i, w, first, files, paths);
    s, cursor' := ReadStatement(m.mem, cursor, w, lo, stmts, area, paths, i);
    if s.Start? {
      if * {
        if !reliable {
          over := Some(Fatal);
          return;
        }
      }
      over := Some(Started(s, base));
      return;
    }
    var status;
    status, fd', base', reset' := Execute(m, s, fd, base, reset, w, files, reliable, PerformAll(first, stmts[..i], files, paths), paths, lo, area);
    if status == Exit {
      over := Some(Fatal);
    } else if status == Dead {
      over := Some(Killed);
    }
  }

  /** The statement at the cursor, and the cursor past it. */
  method ReadStatement(mem: Memory, cursor: nat, w: nat, ghost lo: nat, ghost stmts: seq<Statement>, ghost area: seq<nat>,
                       ghost paths: nat -> seq<nat>, ghost i: nat)
    returns (s: Statement, cursor': nat)
    requires Runnable(stmts, w, lo, area, paths) && ReadsAt(mem, lo, area) && i < |stmts| && cursor == lo + Offset(stmts, i, w)
    ensures s == stmts[i] && cursor' == cursor + At(w, Size(s))
    ensures Proper(s, lo, |area|, w) && OpensText(s, area, lo, paths) && (s.Start? <==> i == |stmts| - 1)
  {
    AtCursor(mem, lo, area, stmts, w, i, cursor, paths);
    s := Fetch(CursorWords(mem, cursor, w)).value;
    cursor' := cursor + At(w, Size(s));
  }

  /** What the loader finds at the cursor of statement `i`. */
  lemma AtCursor(mem: Memory, lo: nat, area: seq<nat>, stmts: seq<Statement>, w: nat, i: nat, cursor: nat, paths: nat -> seq<nat>)
    requires Runnable(stmts, w, lo, area, paths) && ReadsAt(mem, lo, area) && i < |stmts| && cursor == lo + Offset(stmts, i, w)
    ensures Fetch(CursorWords(mem, cursor, w)) == Some(stmts[i])
    ensures Proper(stmts[i], lo, |area|, w) && OpensText(stmts[i], area, lo, paths)
    ensures stmts[i].Start? <==> i == |stmts| - 1
  {
    StatementRead(mem, lo, area, stmts, w, i, cursor);
  }

  /** How far statement `i` is from the start of the script. */
  ghost function Offset(stmts: seq<Statement>, i: nat, w: nat): nat
    requires i <= |stmts|
  {
    At(w, |ScriptWords(stmts[..i])|)
  }

  lemma Advance(stmts: seq<Statement>, i: nat, w: nat, st: State, files: Files, paths: nat -> seq<nat>)
    requires i < |stmts|
    ensures Offset(stmts, i + 1, w) == Offset(stmts, i, w) + At(w, Size(stmts[i]))
    ensures PerformAll(st, stmts[..i + 1], files, paths) == Perform(PerformAll(st, stmts[..i], files, paths), stmts[i], files, paths)
    ensures i == |stmts| - 1 ==> stmts[..i + 1] == stmts
  {
    assert stmts[..i + 1][..i] == stmts[..i];
    AtSum(w, |ScriptWords(stmts[..i])|, Size(stmts[i]));
  }
}
