/** `transfer_load_script` (proot-master/src/execve/exit.c): the load script and its strings, laid out right below
    the stack pointer of the tracee. */
module LoadTransfer {
  import opened Wrappers
  import opened Limits
  import opened Words
  import opened LoadImage
  import opened LoadScript

  /** An ELF object to load: its path as bytes without the terminator, its mappings and what its header says. */
  datatype Object = Object(path: seq<nat>, mappings: seq<Mapping>, entry: nat, phoff: nat, phentsize: nat, phnum: nat, execStack: bool)

  /** `rawPath` is absent when it is the user path itself; `narrow` is 32-bit-on-64-bit mode. */
  datatype Request = Request(exec: Object, interp: Option<Object>, rawPath: Option<seq<nat>>, stackPointer: nat,
                             traced: bool, narrow: bool, arm64: bool, page: nat)

  ghost predicate Sane(r: Request) {
    r.exec.mappings != [] && PageSize(r.page) && r.stackPointer < WORD
  }

  // ---------------------------------------------------------------- the strings area

  function Text(s: seq<nat>): seq<nat> {
    s + [0]
  }

  function InterpText(r: Request): seq<nat> {
    match r.interp
    case Some(i) => Text(i.path)
    case None => []
  }

  function RawText(r: Request): seq<nat> {
    match r.rawPath
    case Some(p) => Text(p)
    case None => []
  }

  function Strings(r: Request): seq<nat> {
    Text(r.exec.path) + InterpText(r) + RawText(r)
  }

  function WordSize(r: Request): nat {
    if r.narrow then 4 else 8
  }

  function Alignment(r: Request): (n: nat)
    ensures n > 0
  {
    if r.arm64 then 16 else WordSize(r)
  }

  function ScriptSize(r: Request): nat {
    16 + 48 * |r.exec.mappings|
    + (match r.interp case Some(i) => 16 + 48 * |i.mappings| case None => 0)
    + (if NeedsExecStack(r) then 16 else 0)
    + 64
  }

  function NeedsExecStack(r: Request): bool {
    r.exec.execStack || (r.interp.Some? && r.interp.value.execStack)
  }

  /** The stack pointer leaves room for everything below it. */
  ghost predicate HasRoom(r: Request) {
    Sane(r) && ScriptSize(r) + |Strings(r)| + 16 <= r.stackPointer
  }

  function Padding(r: Request): nat
    requires HasRoom(r)
  {
    (r.stackPointer - |Strings(r)|) % Alignment(r)
  }

  function PathAddress(r: Request): nat
    requires HasRoom(r)
  {
    r.stackPointer - |Strings(r)| - Padding(r)
  }

  function InterpAddress(r: Request): nat
    requires HasRoom(r)
  {
    PathAddress(r) + |Text(r.exec.path)|
  }

  function RawAddress(r: Request): nat
    requires HasRoom(r)
  {
    if r.rawPath.None? then PathAddress(r) else InterpAddress(r) + |InterpText(r)|
  }

  // ---------------------------------------------------------------- the script

  function StartStatement(r: Request): Statement
    requires HasRoom(r)
  {
    Start(r.traced, r.stackPointer, (match r.interp case Some(i) => i.entry case None => r.exec.entry),
          Add(r.exec.phoff, r.exec.mappings[0].addr), r.exec.phentsize, r.exec.phnum, r.exec.entry, RawAddress(r))
  }

  function ExecPart(r: Request): seq<Statement>
    requires HasRoom(r)
  {
    [Open(PathAddress(r))] + MappingStatements(r.exec.mappings)
  }

  function InterpPart(r: Request): seq<Statement>
    requires HasRoom(r)
  {
    match r.interp
    case Some(i) => [OpenNext(InterpAddress(r))] + MappingStatements(i.mappings)
    case None => []
  }

  function StackPart(r: Request): seq<Statement>
    requires HasRoom(r)
  {
    if NeedsExecStack(r) then [MakeStackExec(PageBase(r.stackPointer, r.page))] else []
  }

  /** What the script is meant to say: load the program, then its interpreter, then start. */
  function Program(r: Request): seq<Statement>
    requires HasRoom(r)
  {
    ExecPart(r) + InterpPart(r) + StackPart(r) + [StartStatement(r)]
  }

  lemma {:induction false} MappingWords(ms: seq<Mapping>)
    ensures |ScriptWords(MappingStatements(ms))| == 6 * |ms|
  {
    if ms != [] {
      var n := |ms| - 1;
      MappingWords(ms[..n]);
      var before := MappingStatements(ms[..n]);
      assert MappingStatements(ms)[..|before|] == before;
    }
  }

  /** The announced size is exact. */
  lemma ScriptSizeExact(r: Request)
    requires HasRoom(r)
    ensures 8 * |ScriptWords(Program(r))| == ScriptSize(r)
  {
    ObjectWords(Open(PathAddress(r)), r.exec.mappings);
    InterpWords(r);
    StackWords(r);
    ScriptOne(StartStatement(r));
    FourScripts(ExecPart(r), InterpPart(r), StackPart(r), [StartStatement(r)]);
  }

  lemma ObjectWords(open: Statement, ms: seq<Mapping>)
    requires Size(open) == 2
    ensures |ScriptWords([open] + MappingStatements(ms))| == 2 + 6 * |ms|
  {
    MappingWords(ms);
    ScriptOne(open);
    ScriptConcat([open], MappingStatements(ms));
  }

  lemma InterpWords(r: Request)
    requires HasRoom(r)
    ensures |ScriptWords(InterpPart(r))| == match r.interp case Some(i) => 2 + 6 * |i.mappings| case None => 0
  {
    if r.interp.Some? {
      ObjectWords(OpenNext(InterpAddress(r)), r.interp.value.mappings);
    }
  }

  lemma StackWords(r: Request)
    requires HasRoom(r)
    ensures |ScriptWords(StackPart(r))| == if NeedsExecStack(r) then 2 else 0
  {
    ScriptOne(MakeStackExec(PageBase(r.stackPointer, r.page)));
  }

  lemma FourScripts(a: seq<Statement>, b: seq<Statement>, c: seq<Statement>, d: seq<Statement>)
    ensures |ScriptWords(a + b + c + d)| == |ScriptWords(a)| + |ScriptWords(b)| + |ScriptWords(c)| + |ScriptWords(d)|
  {
    ScriptConcat(a, b);
    ScriptConcat(a + b, c);
    ScriptConcat(a + b + c, d);
  }

  /** One object: open its file, then map it. */
  method WriteObject(buffer: array<nat>, cursor: nat, open: Statement, ms: seq<Mapping>, ghost done: seq<Statement>)
    returns (cursor': nat)
    requires Holds(buffer, cursor, done) && Size(open) == 2 && cursor + 16 + 48 * |ms| <= buffer.Length
    modifies buffer
    ensures cursor' == cursor + 16 + 48 * |ms|
    ensures Holds(buffer, cursor', done + ([open] + MappingStatements(ms))) && KeptFrom(buffer, cursor')
  {
    cursor' := Emit(buffer, cursor, open, done);
    cursor' := TranscriptMappings(buffer, cursor', ms, done + [open]);
    StatementsAssociate(done, [open], MappingStatements(ms));
  }

  lemma StatementsAssociate(a: seq<Statement>, b: seq<Statement>, c: seq<Statement>)
    ensures (a + b) + c == a + (b + c)
  {
  }

  method WriteInterp(buffer: array<nat>, cursor: nat, r: Request, ghost done: seq<Statement>) returns (cursor': nat)
    requires HasRoom(r) && Holds(buffer, cursor, done)
    requires cursor + (match r.interp case Some(i) => 16 + 48 * |i.mappings| case None => 0) <= buffer.Length
    modifies buffer
    ensures cursor' == cursor + (match r.interp case Some(i) => 16 + 48 * |i.mappings| case None => 0)
    ensures Holds(buffer, cursor', done + InterpPart(r)) && KeptFrom(buffer, cursor')
  {
    cursor' := cursor;
    assert done + [] == done;
    if r.interp.Some? {
      cursor' := WriteObject(buffer, cursor', OpenNext(InterpAddress(r)), r.interp.value.mappings, done);
    }
  }

  method WriteStack(buffer: array<nat>, cursor: nat, r: Request, ghost done: seq<Statement>) returns (cursor': nat)
    requires HasRoom(r) && Holds(buffer, cursor, done)
    requires cursor + (if NeedsExecStack(r) then 16 else 0) <= buffer.Length
    modifies buffer
    ensures cursor' == cursor + if NeedsExecStack(r) then 16 else 0
    ensures Holds(buffer, cursor', done + StackPart(r)) && KeptFrom(buffer, cursor')
  {
    cursor' := cursor;
    assert done + [] == done;
    if NeedsExecStack(r) {
      cursor' := Emit(buffer, cursor', MakeStackExec(PageBase(r.stackPointer, r.page)), done);
    }
  }

  /** The statements, in one pass from the start of the buffer. */
  method WriteScript(buffer: array<nat>, r: Request) returns (cursor: nat)
    requires HasRoom(r) && ScriptSize(r) <= buffer.Length
    modifies buffer
    ensures cursor == ScriptSize(r) && Holds(buffer, cursor, Program(r)) && KeptFrom(buffer, cursor)
  {
    cursor := 0;
    assert Holds(buffer, 0, []);
    cursor := WriteObject(buffer, cursor, Open(PathAddress(r)), r.exec.mappings, []);
    assert [] + ExecPart(r) == ExecPart(r);
    cursor := WriteInterp(buffer, cursor, r, ExecPart(r));
    cursor := WriteStack(buffer, cursor, r, ExecPart(r) + InterpPart(r));
    cursor := Emit(buffer, cursor, StartStatement(r), ExecPart(r) + InterpPart(r) + StackPart(r));
  }

  // ---------------------------------------------------------------- the strings

  /** `memcpy`. */
  method Copy(buffer: array<nat>, cursor: nat, bytes: seq<nat>) returns (cursor': nat)
    requires cursor + |bytes| <= buffer.Length
    modifies buffer
    ensures cursor' == cursor + |bytes|
    ensures buffer[..cursor'] == old(buffer[..cursor]) + bytes
    ensures KeptFrom(buffer, cursor')
  {
    forall i | 0 <= i < |bytes| {
      buffer[cursor + i] := bytes[i];
    }
    cursor' := cursor + |bytes|;
  }

  method WriteStrings(buffer: array<nat>, cursor: nat, r: Request) returns (cursor': nat)
    requires cursor + |Strings(r)| <= buffer.Length
    modifies buffer
    ensures cursor' == cursor + |Strings(r)|
    ensures buffer[..cursor'] == old(buffer[..cursor]) + Strings(r)
    ensures KeptFrom(buffer, cursor')
  {
    ghost var before := buffer[..cursor];
    cursor' := Copy(buffer, cursor, Text(r.exec.path));
    if r.interp.Some? {
      cursor' := Copy(buffer, cursor', Text(r.interp.value.path));
    }
    if r.rawPath.Some? {
      cursor' := Copy(buffer, cursor', Text(r.rawPath.value));
    }
    assert before + Text(r.exec.path) + InterpText(r) + RawText(r) == before + Strings(r);
  }

  // ---------------------------------------------------------------- the whole

  /** What the script area of the buffer starts with: words of the tracee's size. */
  function ScriptBytes(r: Request): seq<nat>
    requires HasRoom(r)
  {
    Stored(ScriptWords(Program(r)), WordSize(r))
  }

  /** The bytes pushed and the new stack pointer: script at the bottom, strings above it, padding up to the old
      stack pointer, and the alignment the architecture asks for. */
  method TransferLoadScript(r: Request) returns (buffer: array<nat>, stackPointer: nat)
    requires HasRoom(r)
    ensures fresh(buffer) && stackPointer == r.stackPointer - buffer.Length
    ensures buffer.Length == ScriptSize(r) + |Strings(r)| + Padding(r)
    ensures |ScriptBytes(r)| <= ScriptSize(r) && buffer[..|ScriptBytes(r)|] == ScriptBytes(r)
    ensures buffer[ScriptSize(r)..ScriptSize(r) + |Strings(r)|] == Strings(r)
    ensures forall i :: ScriptSize(r) + |Strings(r)| <= i < buffer.Length ==> buffer[i] == 0
    ensures stackPointer % Alignment(r) == 0
  {
    buffer := new nat[ScriptSize(r) + |Strings(r)| + Padding(r)](_ => 0);
    var cursor := WriteNarrowed(buffer, r);
    ghost var written := buffer[..cursor];
    cursor := WriteStrings(buffer, cursor, r);
    Parts(buffer[..cursor], written, Strings(r), ScriptBytes(r));
    stackPointer := r.stackPointer - buffer.Length;
    AlignedBelow(r);
  }

  lemma Parts(bytes: seq<nat>, written: seq<nat>, strings: seq<nat>, script: seq<nat>)
    requires bytes == written + strings && |script| <= |written| && written[..|script|] == script
    ensures bytes[..|script|] == script && bytes[|written|..|written| + |strings|] == strings
  {
  }

  /** The script, in the tracee's word size. */
  method WriteNarrowed(buffer: array<nat>, r: Request) returns (cursor: nat)
    requires HasRoom(r) && ScriptSize(r) <= buffer.Length
    modifies buffer
    ensures cursor == ScriptSize(r) && KeptFrom(buffer, cursor)
    ensures |ScriptBytes(r)| <= cursor && buffer[..|ScriptBytes(r)|] == ScriptBytes(r)
  {
    cursor := WriteScript(buffer, r);
    ghost var words := ScriptWords(Program(r));
    AtIsProduct(8, |words|);
    if r.narrow {
      Narrow(buffer, cursor, 4, 8, words);
    }
  }

  lemma AlignedBelow(r: Request)
    requires HasRoom(r)
    ensures (r.stackPointer - ScriptSize(r) - |Strings(r)| - Padding(r)) % Alignment(r) == 0
  {
    ScriptSizeExact(r);
    ScriptEven(Program(r));
    RoundedDown(r.stackPointer - |Strings(r)|, Alignment(r), |ScriptWords(Program(r))| / 2);
  }

  lemma RoundedDown(x: nat, n: nat, d: nat)
    requires (n == 4 || n == 8 || n == 16) && 16 * d + 16 <= x
    ensures (x - 16 * d - x % n) % n == 0
  {
  }
}
