/** The load script: the statements written below the stack pointer of a tracee (proot-master/src/execve/exit.c,
    proot-master/src/loader/script.h) and how the loader reads them back (proot-master/src/loader/loader.c). */
module LoadScript {
  import opened Wrappers
  import opened Words
  import opened LoadImage

  datatype Statement =
    | OpenNext(path: nat)
    | Open(path: nat)
    | MmapFile(addr: nat, length: nat, prot: nat, offset: nat, clear: nat)
    | MmapAnon(addr: nat, length: nat, prot: nat, offset: nat, clear: nat)
    | MakeStackExec(start: nat)
    | Start(traced: bool, stackPointer: nat, entryPoint: nat, phdr: nat, phent: nat, phnum: nat, entry: nat, execfn: nat)

  const LOAD_ACTION_OPEN_NEXT: nat := 0
  const LOAD_ACTION_OPEN: nat := 1
  const LOAD_ACTION_MMAP_FILE: nat := 2
  const LOAD_ACTION_MMAP_ANON: nat := 3
  const LOAD_ACTION_MAKE_STACK_EXEC: nat := 4
  const LOAD_ACTION_START_TRACED: nat := 5
  const LOAD_ACTION_START: nat := 6

  /** The packed layout: the action, then the fields in declaration order. */
  function StatementWords(s: Statement): seq<nat> {
    match s
    case OpenNext(path) => [LOAD_ACTION_OPEN_NEXT, path]
    case Open(path) => [LOAD_ACTION_OPEN, path]
    case MmapFile(addr, length, prot, offset, clear) => [LOAD_ACTION_MMAP_FILE, addr, length, prot, offset, clear]
    case MmapAnon(addr, length, prot, offset, clear) => [LOAD_ACTION_MMAP_ANON, addr, length, prot, offset, clear]
    case MakeStackExec(start) => [LOAD_ACTION_MAKE_STACK_EXEC, start]
    case Start(traced, sp, entryPoint, phdr, phent, phnum, entry, execfn) =>
      [if traced then LOAD_ACTION_START_TRACED else LOAD_ACTION_START, sp, entryPoint, phdr, phent, phnum, entry, execfn]
  }

  /** `LOAD_STATEMENT_SIZE`, in words. */
  function Size(s: Statement): (n: nat)
    ensures n == |StatementWords(s)|
  {
    match s
    case OpenNext(_) => 2
    case Open(_) => 2
    case MmapFile(_, _, _, _, _) => 6
    case MmapAnon(_, _, _, _, _) => 6
    case MakeStackExec(_) => 2
    case Start(_, _, _, _, _, _, _, _) => 8
  }

  function ScriptWords(stmts: seq<Statement>): seq<nat> {
    if stmts == [] then [] else ScriptWords(stmts[..|stmts| - 1]) + StatementWords(stmts[|stmts| - 1])
  }

  lemma {:induction false} ScriptConcat(a: seq<Statement>, b: seq<Statement>)
    ensures ScriptWords(a + b) == ScriptWords(a) + ScriptWords(b)
    decreases |b|
  {
    if b == [] {
      assert a + b == a;
    } else {
      var n := |b| - 1;
      assert (a + b)[..|a + b| - 1] == a + b[..n];
      ScriptConcat(a, b[..n]);
      Associates(ScriptWords(a), ScriptWords(b[..n]), StatementWords(b[n]));
    }
  }

  lemma ScriptOne(s: Statement)
    ensures ScriptWords([s]) == StatementWords(s)
  {
    assert [s][..0] == [];
    assert ScriptWords([]) == [];
  }

  /** A script takes an even number of words. */
  lemma {:induction false} ScriptEven(stmts: seq<Statement>)
    ensures |ScriptWords(stmts)| % 2 == 0
  {
    if stmts != [] {
      ScriptEven(stmts[..|stmts| - 1]);
    }
  }

  // ---------------------------------------------------------------- reading one statement

  /** The statement the loader sees at a cursor, given the words from there on; none for an unknown action. */
  function Fetch(word: nat -> nat): Option<Statement> {
    var action := word(0);
    if action == LOAD_ACTION_OPEN_NEXT then Some(OpenNext(word(1)))
    else if action == LOAD_ACTION_OPEN then Some(Open(word(1)))
    else if action == LOAD_ACTION_MMAP_FILE then Some(MmapFile(word(1), word(2), word(3), word(4), word(5)))
    else if action == LOAD_ACTION_MMAP_ANON then Some(MmapAnon(word(1), word(2), word(3), word(4), word(5)))
    else if action == LOAD_ACTION_MAKE_STACK_EXEC then Some(MakeStackExec(word(1)))
    else if action == LOAD_ACTION_START_TRACED || action == LOAD_ACTION_START then
      Some(Start(action == LOAD_ACTION_START_TRACED, word(1), word(2), word(3), word(4), word(5), word(6), word(7)))
    else None
  }

  /** What is left of a statement in words of `w` bytes. */
  function Narrowed(s: Statement, w: nat): Statement {
    Reduced(s, Bound(w))
  }

  function Reduced(s: Statement, b: nat): Statement
    requires b > 0
  {
    match s
    case OpenNext(path) => OpenNext(path % b)
    case Open(path) => Open(path % b)
    case MmapFile(addr, length, prot, offset, clear) => MmapFile(addr % b, length % b, prot % b, offset % b, clear % b)
    case MmapAnon(addr, length, prot, offset, clear) => MmapAnon(addr % b, length % b, prot % b, offset % b, clear % b)
    case MakeStackExec(start) => MakeStackExec(start % b)
    case Start(traced, sp, entryPoint, phdr, phent, phnum, entry, execfn) =>
      Start(traced, sp % b, entryPoint % b, phdr % b, phent % b, phnum % b, entry % b, execfn % b)
  }

  /** Reading is the inverse of writing, up to the width of the words. */
  lemma FetchWritten(s: Statement, w: nat, word: nat -> nat)
    requires w > 0 && forall i :: 0 <= i < Size(s) ==> word(i) == StatementWords(s)[i] % Bound(w)
    ensures Fetch(word) == Some(Narrowed(s, w))
  {
    assert Bound(w) >= 256;
    FetchAny(s, Bound(w), word);
  }

  lemma FetchAny(s: Statement, b: nat, word: nat -> nat)
    requires b >= 256 && forall i :: 0 <= i < Size(s) ==> word(i) == StatementWords(s)[i] % b
    ensures Fetch(word) == Some(Reduced(s, b))
  {
    var words := StatementWords(s);
    SmallMod(words[0], b);
    assert word(0) == words[0] && word(1) == words[1] % b;
    if Size(s) > 2 {
      assert word(2) == words[2] % b && word(3) == words[3] % b;
      assert word(4) == words[4] % b && word(5) == words[5] % b;
    }
    if Size(s) > 6 {
      assert word(6) == words[6] % b && word(7) == words[7] % b;
    }
  }

  // ---------------------------------------------------------------- writing

  /** Everything from `from` on is as it was. */
  twostate predicate KeptFrom(buffer: array<nat>, from: nat)
    reads buffer
  {
    forall j :: from <= j < buffer.Length ==> buffer[j] == old(buffer[j])
  }

  method PutWord(buffer: array<nat>, cursor: nat, v: nat)
    requires cursor + 8 <= buffer.Length
    modifies buffer
    ensures buffer[..cursor + 8] == old(buffer[..cursor]) + Bytes(v, 8)
    ensures KeptFrom(buffer, cursor + 8)
  {
    var bytes := Bytes(v, 8);
    forall i | 0 <= i < 8 {
      buffer[cursor + i] := bytes[i];
    }
  }

  method PutWords(buffer: array<nat>, cursor: nat, words: seq<nat>) returns (cursor': nat)
    requires cursor + 8 * |words| <= buffer.Length
    modifies buffer
    ensures cursor' == cursor + 8 * |words|
    ensures buffer[..cursor'] == old(buffer[..cursor]) + Stored(words, 8)
    ensures KeptFrom(buffer, cursor')
  {
    cursor' := cursor;
    for i := 0 to |words|
      invariant cursor' == cursor + 8 * i
      invariant buffer[..cursor'] == old(buffer[..cursor]) + Stored(words[..i], 8)
      invariant KeptFrom(buffer, cursor')
    {
      PutWord(buffer, cursor', words[i]);
      cursor' := cursor' + 8;
      StoredNext(old(buffer[..cursor]), words, i);
    }
    assert words[..|words|] == words;
  }

  lemma StoredNext(before: seq<nat>, words: seq<nat>, i: nat)
    requires i < |words|
    ensures before + Stored(words[..i + 1], 8) == before + Stored(words[..i], 8) + Bytes(words[i], 8)
  {
    assert words[..i + 1][..i] == words[..i];
    Associates(before, Stored(words[..i], 8), Bytes(words[i], 8));
  }

  /** The fields of a statement, one after the other. */
  method PutStatement(buffer: array<nat>, cursor: nat, s: Statement) returns (cursor': nat)
    requires cursor + 8 * Size(s) <= buffer.Length
    modifies buffer
    ensures cursor' == cursor + 8 * Size(s)
    ensures buffer[..cursor'] == old(buffer[..cursor]) + Stored(StatementWords(s), 8)
    ensures KeptFrom(buffer, cursor')
  {
    cursor' := PutWords(buffer, cursor, StatementWords(s));
  }

  /** The buffer up to the cursor is the script written so far. */
  ghost predicate Holds(buffer: array<nat>, cursor: nat, done: seq<Statement>)
    reads buffer
  {
    && cursor == 8 * |ScriptWords(done)| && cursor <= buffer.Length
    && buffer[..cursor] == Stored(ScriptWords(done), 8)
  }

  method Emit(buffer: array<nat>, cursor: nat, s: Statement, ghost done: seq<Statement>) returns (cursor': nat)
    requires Holds(buffer, cursor, done) && cursor + 8 * Size(s) <= buffer.Length
    modifies buffer
    ensures cursor' == cursor + 8 * Size(s) && Holds(buffer, cursor', done + [s]) && KeptFrom(buffer, cursor')
  {
    cursor' := PutStatement(buffer, cursor, s);
    assert (done + [s])[..|done|] == done;
    StoredConcat(ScriptWords(done), StatementWords(s), 8);
  }

  function MappingStatement(m: Mapping): Statement {
    if m.anonymous then MmapAnon(m.addr, m.length, m.prot, m.offset, m.clear)
    else MmapFile(m.addr, m.length, m.prot, m.offset, m.clear)
  }

  function MappingStatements(ms: seq<Mapping>): seq<Statement> {
    if ms == [] then [] else MappingStatements(ms[..|ms| - 1]) + [MappingStatement(ms[|ms| - 1])]
  }

  /** `transcript_mappings`. */
  method TranscriptMappings(buffer: array<nat>, cursor: nat, ms: seq<Mapping>, ghost done: seq<Statement>) returns (cursor': nat)
    requires Holds(buffer, cursor, done) && cursor + 48 * |ms| <= buffer.Length
    modifies buffer
    ensures cursor' == cursor + 48 * |ms| && Holds(buffer, cursor', done + MappingStatements(ms)) && KeptFrom(buffer, cursor')
  {
    cursor' := cursor;
    assert done + [] == done;
    for i := 0 to |ms|
      invariant cursor' == cursor + 48 * i
      invariant Holds(buffer, cursor', done + MappingStatements(ms[..i])) && KeptFrom(buffer, cursor')
    {
      ghost var before := done + MappingStatements(ms[..i]);
      cursor' := Emit(buffer, cursor', MappingStatement(ms[i]), before);
      assert ms[..i + 1][..i] == ms[..i];
      assert before + [MappingStatement(ms[i])] == done + MappingStatements(ms[..i + 1]);
    }
    assert ms[..|ms|] == ms;
  }

  // ---------------------------------------------------------------- narrowing in place

  /** For a 32-bit tracee each word of `w` bytes is replaced by its low `half` bytes, in place: a word is
      overwritten only after it has been read. */
  method Narrow(buffer: array<nat>, size: nat, half: nat, w: nat, ghost words: seq<nat>)
    requires 0 < half <= w && size == |Stored(words, w)| <= buffer.Length && buffer[..size] == Stored(words, w)
    modifies buffer
    ensures |Stored(words, half)| <= size && buffer[..|Stored(words, half)|] == Stored(words, half) && KeptFrom(buffer, size)
  {
    ghost var i := 0;
    var from, to := 0, 0;
    while from < size
      invariant 0 <= i <= |words| && from == At(w, i) && to == At(half, i) && to <= from <= size
      invariant buffer[..to] == Stored(words[..i], half)
      invariant KeptFrom(buffer, from)
      decreases size - from
    {
      LowHalf(old(buffer[..]), words, half, w, i, from);
      SameSlice(buffer[..], old(buffer[..]), from, half);
      CopyHalf(buffer, to, from, half, words, i);
      i := i + 1;
      from, to := from + w, to + half;
    }
    NoMore(words, w, i);
    assert words[..|words|] == words;
  }

  lemma SameSlice(now: seq<nat>, was: seq<nat>, from: nat, n: nat)
    requires |now| == |was| && from + n <= |now| && forall i :: from <= i < |now| ==> now[i] == was[i]
    ensures now[from..from + n] == was[from..from + n]
  {
  }

  lemma NoMore(words: seq<nat>, w: nat, i: nat)
    requires i <= |words| && w > 0 && At(w, i) >= At(w, |words|)
    ensures i == |words|
  {
    if i < |words| {
      AtMonotone(w, i + 1, |words|);
    }
  }

  /** One 32-bit store of what a 64-bit load returned. */
  method CopyHalf(buffer: array<nat>, to: nat, from: nat, half: nat, ghost words: seq<nat>, ghost i: nat)
    requires to <= from && from + half <= buffer.Length && i < |words| && buffer[from..from + half] == Bytes(words[i], half)
    requires buffer[..to] == Stored(words[..i], half)
    modifies buffer
    ensures buffer[..to + half] == Stored(words[..i + 1], half)
    ensures KeptFrom(buffer, to + half)
  {
    ghost var head, low := buffer[..to], buffer[from..from + half];
    forall j | 0 <= j < half {
      buffer[to + j] := buffer[from + j];
    }
    assert buffer[..to + half] == head + low;
    assert words[..i + 1][..i] == words[..i];
  }

  lemma LowHalf(bytes: seq<nat>, words: seq<nat>, half: nat, w: nat, i: nat, c: nat)
    requires half <= w && i < |words| && c == At(w, i)
    requires |Stored(words, w)| <= |bytes| && bytes[..|Stored(words, w)|] == Stored(words, w)
    ensures c + w <= |Stored(words, w)|
    ensures bytes[c..c + half] == Bytes(words[i], half)
  {
    StoredAt(words, w, i);
    var whole := Bytes(words[i], w);
    assert whole[..half] == Bytes(words[i], half) by {
      BytesPrefix(words[i], w, half);
    }
    Subslice(bytes, Stored(words, w), c, w, half, whole);
  }

  lemma Subslice(bytes: seq<nat>, stored: seq<nat>, c: nat, n: nat, k: nat, whole: seq<nat>)
    requires c + n <= |stored| <= |bytes| && k <= n && bytes[..|stored|] == stored && stored[c..c + n] == whole
    ensures bytes[c..c + k] == whole[..k]
  {
    forall j | 0 <= j < k
      ensures bytes[c..c + k][j] == whole[..k][j]
    {
      assert bytes[c + j] == stored[c + j] == whole[j];
    }
  }
}
