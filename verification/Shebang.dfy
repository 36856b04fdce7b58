/** Scripts (proot-master/src/execve/shebang.c): the argument vector of an interpreter is built level by level on top of
    the caller's, and written back into the tracee. */
module Shebang {
  import opened Wrappers
  import opened Words
  import opened LoadImage
  import opened Loader
  import opened LoadProgram
  import opened Argv

  const MAXSYMLINKS: nat := 20

  type Text = seq<nat>

  // ---------------------------------------------------------------- fetch, resize, push

  /** A table of pointers in memory, the last of them null. */
  ghost predicate PointersAt(mem: Memory, address: nat, ps: seq<nat>, w: nat) {
    && ps != [] && ps[|ps| - 1] == 0 && (forall i :: 0 <= i < |ps| - 1 ==> ps[i] != 0)
    && forall i :: 0 <= i < |ps| ==> PointerIs(mem, address, w, i, ps[i])
  }

  ghost predicate PointerIs(mem: Memory, address: nat, w: nat, i: nat, p: nat) {
    WordAt(mem, address + At(w, i), w) == p
  }

  class XArray {
    var xs: seq<XPointer>

    /** `fetch_array_of_xpointers`, up to the null pointer. */
    constructor Fetch(mem: Memory, address: nat, w: nat, ghost ps: seq<nat>)
      requires PointersAt(mem, address, ps, w)
      ensures |xs| == |ps| && forall i :: 0 <= i < |ps| ==> xs[i] == XPointer(ps[i], None)
    {
      var read: seq<XPointer> := [];
      var pointer := 1;
      while pointer != 0
        invariant |read| <= |ps| && (forall i :: 0 <= i < |read| ==> read[i] == XPointer(ps[i], None))
        invariant pointer == 0 <==> |read| == |ps|
        decreases |ps| - |read|
      {
        pointer := WordAt(mem, address + At(w, |read|), w);
        assert PointerIs(mem, address, w, |read|, ps[|read|]);
        assert pointer == ps[|read|];
        read := read + [XPointer(pointer, None)];
      }
      xs := read;
    }

    /** `resize_array_of_xpointers`, growing. */
    method Grow(index: nat, delta: nat)
      requires index < |xs|
      modifies this
      ensures xs == old(xs)[..index] + seq(delta, _ => XPointer(0, None)) + old(xs)[index..]
    {
      xs := xs[..index] + seq(delta, _ => XPointer(0, None)) + xs[index..];
    }

    method Write(index: nat, s: Text)
      requires index < |xs|
      modifies this
      ensures xs == old(xs)[index := old(xs[index]).(local := Some(s))]
    {
      xs := xs[index := xs[index].(local := Some(s))];
    }

    /** The first loop of `push_array_of_xpointers`: offsets in the block to come, and the strings. */
    method Measure(w: nat) returns (offsets: seq<nat>, texts: seq<nat>)
      ensures texts == Texts(xs) && |offsets| == |xs|
      ensures forall i :: 0 <= i < |xs| ==> offsets[i] == NewRemote(xs, i, At(w, |xs|))
    {
      offsets, texts := [], [];
      var total := At(w, |xs|);
      for i := 0 to |xs|
        invariant |offsets| == i && texts == Texts(xs[..i]) && total == At(w, |xs|) + |texts|
        invariant forall j :: 0 <= j < i ==> offsets[j] == NewRemote(xs, j, At(w, |xs|))
      {
        assert xs[..i + 1][..i] == xs[..i];
        match xs[i].local {
          case None =>
            offsets := offsets + [xs[i].remote];
          case Some(s) =>
            offsets := offsets + [total];
            texts := texts + (s + [0]);
            total := total + |s| + 1;
        }
      }
      assert xs[..|xs|] == xs;
    }

    /** The second loop: addresses, once the block is allocated. */
    method Table(offsets: seq<nat>, ptr: nat, w: nat) returns (table: seq<nat>)
      requires |offsets| == |xs| && forall i :: 0 <= i < |xs| ==> offsets[i] == NewRemote(xs, i, At(w, |xs|))
      ensures table == Remotes(xs, ptr + At(w, |xs|))
    {
      table := [];
      for i := 0 to |xs|
        invariant |table| == i && forall j :: 0 <= j < i ==> table[j] == NewRemote(xs, j, ptr + At(w, |xs|))
      {
        table := table + [if xs[i].local.Some? then offsets[i] + ptr else offsets[i]];
      }
    }

    /** `push_array_of_xpointers`, for an array with a modified entry. */
    method Push(mem: Memory, ptr: nat, w: nat) returns (mem': Memory)
      ensures mem' == Pushed(mem, ptr, BlockBytes(xs, ptr, w))
    {
      var offsets, texts := Measure(w);
      var table := Table(offsets, ptr, w);
      mem' := Pushed(mem, ptr, Stored(table, w) + texts);
    }
  }

  // ---------------------------------------------------------------- one level

  /** `interpreter [optional-arg] filename arg...`: the head of the previous vector goes. */
  function Rewritten(argv: seq<Text>, user: Text, argument: Text, script: Text): seq<Text> {
    [user] + (if argument == [] then [] else [argument]) + [script] + if argv == [] then [] else argv[1..]
  }

  /** An entry that was not modified is one of the tracee's own. */
  ghost predicate Original(x: XPointer, s: Text, xs0: seq<XPointer>, argv0: seq<Text>) {
    exists j :: 0 <= j < |argv0| && j < |xs0| && xs0[j] == x && argv0[j] == s
  }

  ghost predicate Tracks(mem: Memory, xs: seq<XPointer>, argv: seq<Text>, xs0: seq<XPointer>, argv0: seq<Text>) {
    && Spells(mem, xs, argv)
    && forall i :: 0 <= i < |argv| && xs[i].local.None? ==> Original(xs[i], argv[i], xs0, argv0)
  }

  /** New strings in front, in place of the head. */
  function Headed(xs: seq<XPointer>, texts: seq<Text>): seq<XPointer>
    requires xs != []
  {
    seq(|texts|, i requires 0 <= i < |texts| => XPointer(0, Some(texts[i]))) + if |xs| == 1 then xs else xs[1..]
  }

  /** The same up to stale remote addresses behind local strings. */
  ghost predicate SameEntries(xs: seq<XPointer>, ys: seq<XPointer>) {
    && |xs| == |ys|
    && forall i :: 0 <= i < |xs| ==> xs[i].local == ys[i].local && (xs[i].local.None? ==> xs[i] == ys[i])
  }

  /** The body of the loop of `expand_shebang`. */
  method ExpandOne(a: XArray, user: Text, argument: Text, script: Text)
    requires a.xs != []
    modifies a
    ensures SameEntries(a.xs, Headed(old(a.xs), [user] + (if argument == [] then [] else [argument]) + [script]))
  {
    if argument != [] {
      a.Grow(0, 2 + if |a.xs| == 1 then 1 else 0);
      a.Write(0, user);
      a.Write(1, argument);
      a.Write(2, script);
    } else {
      a.Grow(0, 1 + if |a.xs| == 1 then 1 else 0);
      a.Write(0, user);
      a.Write(1, script);
    }
  }

  lemma HeadedSpells(mem: Memory, xs: seq<XPointer>, ys: seq<XPointer>, argv: seq<Text>, xs0: seq<XPointer>, argv0: seq<Text>,
                     user: Text, argument: Text, script: Text)
    requires Tracks(mem, xs, argv, xs0, argv0) && 0 !in user && 0 !in argument && 0 !in script
    requires SameEntries(ys, Headed(xs, [user] + (if argument == [] then [] else [argument]) + [script]))
    ensures Tracks(mem, ys, Rewritten(argv, user, argument, script), xs0, argv0)
  {
    var texts := [user] + (if argument == [] then [] else [argument]) + [script];
    var argv', zs := Rewritten(argv, user, argument, script), Headed(xs, texts);
    assert argv' == texts + if argv == [] then [] else argv[1..];
    forall i | 0 <= i < |argv'|
      ensures Denotes(mem, ys[i], argv'[i]) && (ys[i].local.None? ==> Original(ys[i], argv'[i], xs0, argv0))
    {
      if i < |texts| {
        assert zs[i] == XPointer(0, Some(texts[i]));
      } else {
        assert zs[i] == xs[1 + i - |texts|] && argv'[i] == argv[1 + i - |texts|];
        assert Denotes(mem, xs[1 + i - |texts|], argv[1 + i - |texts|]);
      }
    }
    assert zs[|zs| - 1] == xs[|xs| - 1];
  }

  /** The first `k` entries are new strings, the others pointers of the tracee. */
  ghost predicate New(xs: seq<XPointer>, k: nat) {
    k <= |xs| && forall i :: 0 <= i < |xs| ==> (xs[i].local.Some? <==> i < k)
  }

  lemma HeadedNew(xs: seq<XPointer>, ys: seq<XPointer>, texts: seq<Text>, k: nat)
    requires xs != [] && k < |xs| && New(xs, k) && SameEntries(ys, Headed(xs, texts))
    ensures New(ys, |texts| + if k == 0 then 0 else k - 1)
  {
    var zs := Headed(xs, texts);
    forall i | 0 <= i < |ys|
      ensures ys[i].local.Some? <==> i < |texts| + if k == 0 then 0 else k - 1
    {
      if i < |texts| {
        assert zs[i] == XPointer(0, Some(texts[i]));
      } else if |xs| == 1 {
        assert zs[i] == xs[i - |texts|];
      } else {
        assert zs[i] == xs[1 + i - |texts|];
      }
    }
  }

  /** Arguments of the caller's vector that stay where they are. */
  function Rest(argv: seq<Text>): nat {
    if argv == [] then 0 else |argv| - 1
  }

  function Joined(v: seq<Text>): seq<nat> {
    if v == [] then [] else Joined(v[..|v| - 1]) + (v[|v| - 1] + [0])
  }

  /** The pointers and the new strings of the vector. */
  function BlockSize(argv: seq<Text>, v: seq<Text>, w: nat): nat
    requires Rest(argv) <= |v|
  {
    At(w, |v| + 1) + |Joined(v[..|v| - Rest(argv)])|
  }

  lemma {:induction false} TextsJoined(mem: Memory, xs: seq<XPointer>, v: seq<Text>, k: nat, n: nat)
    requires Spells(mem, xs, v) && New(xs, k) && k <= |v| && n <= |xs|
    ensures Texts(xs[..n]) == Joined(v[..if n < k then n else k])
    decreases n
  {
    if n > 0 {
      TextsJoined(mem, xs, v, k, n - 1);
      assert xs[..n][..n - 1] == xs[..n - 1];
      if n <= k {
        assert Denotes(mem, xs[n - 1], v[n - 1]);
        assert v[..n][..n - 1] == v[..n - 1];
      }
    }
  }

  /** The vector after some levels: the caller's own, or new strings before what is left of it. */
  ghost predicate Built(mem: Memory, xs: seq<XPointer>, v: seq<Text>, xs0: seq<XPointer>, argv: seq<Text>, levels: nat) {
    && Tracks(mem, xs, v, xs0, argv) && Rest(argv) <= |v|
    && if levels == 0 then v == argv && New(xs, 0) else |v| > Rest(argv) && New(xs, |v| - Rest(argv))
  }

  lemma BuiltNext(mem: Memory, xs: seq<XPointer>, ys: seq<XPointer>, v: seq<Text>, xs0: seq<XPointer>, argv: seq<Text>, levels: nat,
                  user: Text, argument: Text, script: Text)
    requires Built(mem, xs, v, xs0, argv, levels) && 0 !in user && 0 !in argument && 0 !in script
    requires SameEntries(ys, Headed(xs, [user] + (if argument == [] then [] else [argument]) + [script]))
    ensures Built(mem, ys, Rewritten(v, user, argument, script), xs0, argv, levels + 1)
  {
    HeadedSpells(mem, xs, ys, v, xs0, argv, user, argument, script);
    HeadedNew(xs, ys, [user] + (if argument == [] then [] else [argument]) + [script], if levels == 0 then 0 else |v| - Rest(argv));
  }

  lemma BuiltSize(mem: Memory, xs: seq<XPointer>, v: seq<Text>, xs0: seq<XPointer>, argv: seq<Text>, levels: nat, w: nat)
    requires Built(mem, xs, v, xs0, argv, levels) && levels > 0
    ensures At(w, |xs|) + |Texts(xs)| == BlockSize(argv, v, w)
  {
    TextsJoined(mem, xs, v, |v| - Rest(argv), |xs|);
    assert xs[..|xs|] == xs;
  }

  // ---------------------------------------------------------------- all levels

  const ELOOP: int := -40
  const E2BIG: int := -7

  /** What a path is, once translated and checked: not executable, not a script, or a script with its interpreter and
      its argument, if any. */
  datatype Look = Bad(errno: int) | Binary | Script(interpreter: Text, argument: Text)

  datatype Plan = Stop(errno: int) | Execute(path: Text, argv: seq<Text>, levels: nat)

  /** What execve(2) documents, followed from interpreter to interpreter. */
  ghost function Planned(probe: Text -> Look, check: Text -> Option<int>, path: Text, argv: seq<Text>, limit: nat): Plan
    decreases limit
  {
    if limit == 0 then Stop(ELOOP)
    else
      match probe(path)
      case Bad(e) => Stop(e)
      case Binary => Plan.Execute(path, argv, 0)
      case Script(user, argument) =>
        match check(user)
        case Some(e) => Stop(e)
        case None => Deeper(Planned(probe, check, user, Rewritten(argv, user, argument, path), limit - 1), 1)
  }

  ghost function Deeper(p: Plan, n: nat): Plan {
    if p.Stop? then p else p.(levels := p.levels + n)
  }

  /** The interpreter `n` levels down, as long as each is itself a script. */
  ghost function Reached(probe: Text -> Look, path: Text, n: nat): Text
    decreases n
  {
    if n == 0 || !probe(path).Script? then path else Reached(probe, probe(path).interpreter, n - 1)
  }

  /** `n` levels of scripts, none with an interpreter that cannot be used. */
  ghost predicate Scripts(probe: Text -> Look, check: Text -> Option<int>, path: Text, n: nat)
    decreases n
  {
    n == 0 || (probe(path).Script? && check(probe(path).interpreter) == None && Scripts(probe, check, probe(path).interpreter, n - 1))
  }

  /** The arguments `n` levels put in front: the last interpreter, its argument, the script it reads, which is the
      interpreter before, and so on up to the path itself. */
  ghost function Hops(probe: Text -> Look, path: Text, n: nat): seq<Text>
    decreases n
  {
    if n == 0 || !probe(path).Script? then [path]
    else Hops(probe, probe(path).interpreter, n - 1) + (if probe(path).argument == [] then [] else [probe(path).argument]) + [path]
  }

  /** A chain of scripts ends well in a program below the limit, and then the vector has all the levels in front of the
      caller's arguments; it ends badly where something cannot be executed, or at the limit. */
  lemma {:induction false} PlannedExactly(probe: Text -> Look, check: Text -> Option<int>, path: Text, argv: seq<Text>, limit: nat, n: nat)
    requires n <= limit && Scripts(probe, check, path, n)
    ensures n < limit && probe(Reached(probe, path, n)).Binary? ==>
      Planned(probe, check, path, argv, limit) ==
      Plan.Execute(Reached(probe, path, n), if n == 0 then argv else Hops(probe, path, n) + (if argv == [] then [] else argv[1..]), n)
    ensures n < limit && probe(Reached(probe, path, n)).Bad? ==>
      Planned(probe, check, path, argv, limit) == Stop(probe(Reached(probe, path, n)).errno)
    ensures n < limit && probe(Reached(probe, path, n)).Script? && check(probe(Reached(probe, path, n)).interpreter).Some? ==>
      Planned(probe, check, path, argv, limit) == Stop(check(probe(Reached(probe, path, n)).interpreter).value)
    ensures n == limit ==> Planned(probe, check, path, argv, limit) == Stop(ELOOP)
    decreases n
  {
    if n > 0 {
      var user, argument := probe(path).interpreter, probe(path).argument;
      var next := Rewritten(argv, user, argument, path);
      PlannedExactly(probe, check, user, next, limit - 1, n - 1);
      OneLevel(probe, path, argv, n, next);
    }
  }

  lemma OneLevel(probe: Text -> Look, path: Text, argv: seq<Text>, n: nat, next: seq<Text>)
    requires n > 0 && probe(path).Script? && next == Rewritten(argv, probe(path).interpreter, probe(path).argument, path)
    ensures var rest := if argv == [] then [] else argv[1..];
      && (n == 1 ==> next == Hops(probe, path, 1) + rest)
      && Hops(probe, probe(path).interpreter, n - 1) + next[1..] == Hops(probe, path, n) + rest
  {
    var user, rest := probe(path).interpreter, if argv == [] then [] else argv[1..];
    var argument := if probe(path).argument == [] then [] else [probe(path).argument];
    assert next[1..] == argument + [path] + rest;
    assert Hops(probe, user, 0) == [user];
    assert [user] + next[1..] == next;
  }

  /** And a chain always ends in one of these ways. */
  lemma {:induction false} ChainEnds(probe: Text -> Look, check: Text -> Option<int>, path: Text, limit: nat) returns (n: nat)
    ensures n <= limit && Scripts(probe, check, path, n)
    ensures n == limit || !probe(Reached(probe, path, n)).Script? || check(probe(Reached(probe, path, n)).interpreter).Some?
    decreases limit
  {
    n := 0;
    if limit > 0 && probe(path).Script? && check(probe(path).interpreter) == None {
      n := ChainEnds(probe, check, probe(path).interpreter, limit - 1);
      n := n + 1;
    }
  }

  /** Paths and arguments of scripts are strings. */
  ghost predicate Strings(probe: Text -> Look) {
    forall p :: probe(p).Script? ==> 0 !in probe(p).interpreter && 0 !in probe(p).argument
  }

  /** Memory for the block is not where the tracee's own arguments are. */
  ghost predicate AllocatesElsewhere(alloc: nat -> Option<nat>, ps: seq<nat>, argv: seq<Text>, w: nat)
    requires |ps| == |argv| + 1
  {
    forall n :: alloc(n).Some? ==> Apart(alloc(n).value, n, ps, argv, w)
  }

  ghost predicate Apart(ptr: nat, n: nat, ps: seq<nat>, argv: seq<Text>, w: nat)
    requires |ps| == |argv| + 1
  {
    && ptr > 0 && ptr + n < Bound(w)
    && forall i :: 0 <= i < |argv| ==> ps[i] + |argv[i]| + 1 <= ptr || ptr + n <= ps[i]
  }

  /** The vector the tracee's memory holds at an address. */
  ghost predicate ArgvAt(mem: Memory, address: nat, ps: seq<nat>, argv: seq<Text>, w: nat) {
    && PointersAt(mem, address, ps, w) && |ps| == |argv| + 1
    && (forall i :: 0 <= i < |ps| ==> ps[i] < Bound(w))
    && forall i :: 0 <= i < |argv| ==> 0 !in argv[i] && ReadsAt(mem, ps[i], argv[i] + [0])
  }

  /** A pointer of the new vector: into the block, or one of the tracee's own to the same string. */
  ghost predicate KeptOrNew(p: nat, s: Text, ps: seq<nat>, argv: seq<Text>, ptr: nat, n: nat) {
    (ptr <= p && p + |s| + 1 <= ptr + n) || exists j :: 0 <= j < |argv| && j < |ps| && ps[j] == p && argv[j] == s
  }

  lemma FetchedSpells(mem: Memory, address: nat, ps: seq<nat>, argv: seq<Text>, w: nat, xs: seq<XPointer>)
    requires ArgvAt(mem, address, ps, argv, w) && |xs| == |ps| && forall i :: 0 <= i < |ps| ==> xs[i] == XPointer(ps[i], None)
    ensures Tracks(mem, xs, argv, xs, argv)
  {
    forall i | 0 <= i < |argv|
      ensures Denotes(mem, xs[i], argv[i]) && Original(xs[i], argv[i], xs, argv)
    {
      assert ps[i] != 0;
    }
  }

  /** The pushed vector spells what the entries stand for. */
  lemma PushedArgv(mem: Memory, xs: seq<XPointer>, v: seq<Text>, xs0: seq<XPointer>, argv0: seq<Text>, ps0: seq<nat>, ptr: nat, w: nat,
                   size: nat, table: seq<nat>)
    requires Tracks(mem, xs, v, xs0, argv0) && |ps0| == |argv0| + 1 == |xs0| && (forall i :: 0 <= i < |ps0| ==> xs0[i] == XPointer(ps0[i], None))
    requires size == |BlockBytes(xs, ptr, w)| && table == Remotes(xs, ptr + At(w, |xs|))
    requires Apart(ptr, size, ps0, argv0, w) && forall i :: 0 <= i < |ps0| ==> ps0[i] < Bound(w)
    ensures ArgvAt(Pushed(mem, ptr, BlockBytes(xs, ptr, w)), ptr, table, v, w) && Replaced(table, v, ps0, argv0, ptr, size)
  {
    var mem', base := Pushed(mem, ptr, BlockBytes(xs, ptr, w)), ptr + At(w, |xs|);
    AllElsewhere(mem, xs, v, xs0, argv0, ps0, ptr, w);
    forall i | 0 <= i < |v|
      ensures GoodEntry(mem', table[i], v[i], w) && KeptOrNew(table[i], v[i], ps0, argv0, ptr, size)
    {
      EntryPushed(mem, xs, v, xs0, argv0, ps0, ptr, w, i, base);
    }
    forall i | 0 <= i < |table|
      ensures PointerIs(mem', ptr, w, i, table[i])
    {
      WordPushed(mem, xs, v, ptr, w, i, base, table, mem');
    }
    TableSpells(mem', ptr, table, v, w);
  }

  lemma WordPushed(mem: Memory, xs: seq<XPointer>, v: seq<Text>, ptr: nat, w: nat, i: nat, base: nat, table: seq<nat>, mem': Memory)
    requires i < |xs| == |v| + 1 && base == ptr + At(w, |xs|) && table == Remotes(xs, base) && IsNull(xs[|v|])
    requires mem' == Pushed(mem, ptr, BlockBytes(xs, ptr, w)) && forall k :: 0 <= k < |v| ==> GoodEntry(mem', table[k], v[k], w)
    ensures PointerIs(mem', ptr, w, i, table[i])
  {
    assert i < |v| ==> GoodEntry(mem', table[i], v[i], w);
    PushedTable(mem, xs, ptr, w, i, base, At(w, i));
  }

  lemma EntryPushed(mem: Memory, xs: seq<XPointer>, v: seq<Text>, xs0: seq<XPointer>, argv0: seq<Text>, ps0: seq<nat>, ptr: nat, w: nat, i: nat, base: nat)
    requires Tracks(mem, xs, v, xs0, argv0) && |ps0| == |argv0| + 1 == |xs0| && (forall i :: 0 <= i < |ps0| ==> xs0[i] == XPointer(ps0[i], None))
    requires Apart(ptr, |BlockBytes(xs, ptr, w)|, ps0, argv0, w) && (forall i :: 0 <= i < |ps0| ==> ps0[i] < Bound(w))
    requires i < |v| && base == ptr + At(w, |xs|) && Elsewhere(xs, v, ptr, |BlockBytes(xs, ptr, w)|)
    ensures GoodEntry(Pushed(mem, ptr, BlockBytes(xs, ptr, w)), NewRemote(xs, i, base), v[i], w)
    ensures KeptOrNew(NewRemote(xs, i, base), v[i], ps0, argv0, ptr, |BlockBytes(xs, ptr, w)|)
  {
    PushedSpells(mem, xs, v, ptr, w, i, base);
    EntryBound(mem, xs, v, xs0, argv0, ps0, ptr, w, i, base);
    assert Denotes(mem, xs[i], v[i]);
  }

  ghost predicate GoodEntry(mem: Memory, p: nat, s: Text, w: nat) {
    p != 0 && p < Bound(w) && 0 !in s && ReadsAt(mem, p, s + [0])
  }

  lemma TableSpells(mem: Memory, ptr: nat, table: seq<nat>, v: seq<Text>, w: nat)
    requires |table| == |v| + 1 && table[|v|] == 0 && (forall i :: 0 <= i < |v| ==> GoodEntry(mem, table[i], v[i], w))
    requires forall i :: 0 <= i < |table| ==> PointerIs(mem, ptr, w, i, table[i])
    ensures ArgvAt(mem, ptr, table, v, w)
  {
  }

  lemma AllElsewhere(mem: Memory, xs: seq<XPointer>, v: seq<Text>, xs0: seq<XPointer>, argv0: seq<Text>, ps0: seq<nat>, ptr: nat, w: nat)
    requires Tracks(mem, xs, v, xs0, argv0) && |ps0| == |argv0| + 1 == |xs0| && (forall i :: 0 <= i < |ps0| ==> xs0[i] == XPointer(ps0[i], None))
    requires Apart(ptr, |BlockBytes(xs, ptr, w)|, ps0, argv0, w)
    ensures Elsewhere(xs, v, ptr, |BlockBytes(xs, ptr, w)|)
  {
    forall i | 0 <= i < |v| && xs[i].local.None?
      ensures xs[i].remote + |v[i]| + 1 <= ptr || ptr + |BlockBytes(xs, ptr, w)| <= xs[i].remote
    {
      OriginalApart(xs[i], v[i], xs0, argv0, ps0, ptr, |BlockBytes(xs, ptr, w)|, w);
    }
  }

  lemma OriginalApart(x: XPointer, s: Text, xs0: seq<XPointer>, argv0: seq<Text>, ps0: seq<nat>, ptr: nat, n: nat, w: nat)
    requires Original(x, s, xs0, argv0) && |ps0| == |argv0| + 1 == |xs0| && (forall i :: 0 <= i < |ps0| ==> xs0[i] == XPointer(ps0[i], None))
    requires Apart(ptr, n, ps0, argv0, w)
    ensures x.remote + |s| + 1 <= ptr || ptr + n <= x.remote
  {
  }

  lemma EntryBound(mem: Memory, xs: seq<XPointer>, v: seq<Text>, xs0: seq<XPointer>, argv0: seq<Text>, ps0: seq<nat>, ptr: nat, w: nat, i: nat, base: nat)
    requires Tracks(mem, xs, v, xs0, argv0) && |ps0| == |argv0| + 1 == |xs0| && (forall i :: 0 <= i < |ps0| ==> xs0[i] == XPointer(ps0[i], None))
    requires ptr + |BlockBytes(xs, ptr, w)| < Bound(w) && (forall i :: 0 <= i < |ps0| ==> ps0[i] < Bound(w))
    requires i < |v| && base == ptr + At(w, |xs|)
    ensures NewRemote(xs, i, base) < Bound(w)
    ensures KeptOrNew(NewRemote(xs, i, base), v[i], ps0, argv0, ptr, |BlockBytes(xs, ptr, w)|)
  {
    assert Denotes(mem, xs[i], v[i]);
    if xs[i].local.Some? {
      TextInside(xs, i, v[i]);
    } else {
      var j :| 0 <= j < |argv0| && j < |xs0| && xs0[j] == xs[i] && argv0[j] == v[i];
      assert ps0[j] == xs[i].remote;
    }
  }

  datatype Outcome = Failed(errno: int) | AsIs(path: Text) | Expanded(path: Text, address: nat)

  /** `expand_shebang`: what is planned is what the tracee's memory says when the vector is fetched again; pointers not
      replaced are the tracee's own, and new ones lead into the new block. */
  method ExpandShebang(mem: Memory, address: nat, path: Text, w: nat, probe: Text -> Look, check: Text -> Option<int>,
                       alloc: nat -> Option<nat>, ghost ps: seq<nat>, ghost argv: seq<Text>)
    returns (r: Outcome, mem': Memory, ghost table: seq<nat>, ghost size: nat)
    requires ArgvAt(mem, address, ps, argv, w) && 0 !in path && Strings(probe) && AllocatesElsewhere(alloc, ps, argv, w)
    ensures var plan := Planned(probe, check, path, argv, MAXSYMLINKS);
      match plan
      case Stop(e) => r == Failed(e) && mem' == mem
      case Execute(p, v, n) =>
        if n == 0 then r == AsIs(p) && mem' == mem
        else
          && Rest(argv) <= |v| && size == BlockSize(argv, v, w)
          && if alloc(size).None? then r == Failed(E2BIG) && mem' == mem
             else r == Expanded(p, alloc(size).value) && ArgvAt(mem', r.address, table, v, w) && Replaced(table, v, ps, argv, r.address, size)
  {
    mem', table, size := mem, ps, 0;
    var a := new XArray.Fetch(mem, address, w, ps);
    ghost var xs0 := a.xs;
    FetchedSpells(mem, address, ps, argv, w, xs0);
    var user, error, levels;
    ghost var v;
    user, error, levels, v := Levels(mem, a, path, probe, check, xs0, argv);
    if error.Some? {
      return Failed(error.value), mem, table, size;
    }
    if levels == 0 {
      return AsIs(user), mem, table, size;
    }
    BuiltSize(mem, a.xs, v, xs0, argv, levels, w);
    r, mem', table, size := PushArgv(mem, a, user, w, alloc, v, xs0, argv, ps);
  }

  /** The loop of `expand_shebang`, from interpreter to interpreter. */
  method Levels(mem: Memory, a: XArray, path: Text, probe: Text -> Look, check: Text -> Option<int>, ghost xs0: seq<XPointer>, ghost argv: seq<Text>)
    returns (user: Text, error: Option<int>, i: nat, ghost v: seq<Text>)
    requires Built(mem, a.xs, argv, xs0, argv, 0) && 0 !in path && Strings(probe)
    modifies a
    ensures Planned(probe, check, path, argv, MAXSYMLINKS) == if error.Some? then Stop(error.value) else Plan.Execute(user, v, i)
    ensures error.None? ==> Built(mem, a.xs, v, xs0, argv, i)
  {
    user, i, v := path, 0, argv;
    while i < MAXSYMLINKS
      invariant 0 <= i <= MAXSYMLINKS && Built(mem, a.xs, v, xs0, argv, i) && 0 !in user
      invariant Planned(probe, check, path, argv, MAXSYMLINKS) == Deeper(Planned(probe, check, user, v, MAXSYMLINKS - i), i)
    {
      PlannedNext(probe, check, user, v, MAXSYMLINKS - i);
      var done;
      done, error, user, v := Level(mem, a, user, probe, check, i, v, xs0, argv);
      if done {
        return user, error, i, v;
      }
      i := i + 1;
    }
    error := Some(ELOOP);
  }

  /** One level: the path is what it is, or its interpreter comes next. */
  method Level(mem: Memory, a: XArray, path: Text, probe: Text -> Look, check: Text -> Option<int>, ghost i: nat, ghost v: seq<Text>,
               ghost xs0: seq<XPointer>, ghost argv: seq<Text>)
    returns (done: bool, error: Option<int>, user: Text, ghost v': seq<Text>)
    requires Built(mem, a.xs, v, xs0, argv, i) && 0 !in path && Strings(probe)
    modifies a
    ensures done <==> !(probe(path).Script? && check(probe(path).interpreter).None?)
    ensures done ==> user == path && v' == v && Built(mem, a.xs, v, xs0, argv, i)
    ensures done ==> error == match probe(path) case Bad(e) => Some(e) case Binary => None case Script(next, _) => check(next)
    ensures !done ==> user == probe(path).interpreter && 0 !in user && v' == Rewritten(v, user, probe(path).argument, path)
    ensures !done ==> Built(mem, a.xs, v', xs0, argv, i + 1)
  {
    var look := probe(path);
    done, error, user, v' := true, None, path, v;
    if look.Bad? {
      error := Some(look.errno);
    } else if look.Script? {
      error := check(look.interpreter);
      if error.None? {
        ghost var before := a.xs;
        ExpandOne(a, look.interpreter, look.argument, path);
        BuiltNext(mem, before, a.xs, v, xs0, argv, i, look.interpreter, look.argument, path);
        v' := Rewritten(v, look.interpreter, look.argument, path);
        done, user := false, look.interpreter;
      }
    }
  }

  lemma PlannedNext(probe: Text -> Look, check: Text -> Option<int>, path: Text, argv: seq<Text>, limit: nat)
    requires limit > 0
    ensures probe(path).Bad? ==> Planned(probe, check, path, argv, limit) == Stop(probe(path).errno)
    ensures probe(path).Binary? ==> Planned(probe, check, path, argv, limit) == Plan.Execute(path, argv, 0)
    ensures probe(path).Script? && check(probe(path).interpreter).Some? ==>
      Planned(probe, check, path, argv, limit) == Stop(check(probe(path).interpreter).value)
    ensures probe(path).Script? && check(probe(path).interpreter).None? ==>
      Planned(probe, check, path, argv, limit) ==
      Deeper(Planned(probe, check, probe(path).interpreter, Rewritten(argv, probe(path).interpreter, probe(path).argument, path), limit - 1), 1)
  {
  }

  /** Every pointer of the new vector is kept or new; the block starts with the table. */
  ghost predicate Replaced(table: seq<nat>, v: seq<Text>, ps: seq<nat>, argv: seq<Text>, ptr: nat, size: nat) {
    |table| == |v| + 1 && forall i :: 0 <= i < |v| ==> KeptOrNew(table[i], v[i], ps, argv, ptr, size)
  }

  method PushArgv(mem: Memory, a: XArray, path: Text, w: nat, alloc: nat -> Option<nat>,
                  ghost v: seq<Text>, ghost xs0: seq<XPointer>, ghost argv: seq<Text>, ghost ps: seq<nat>)
    returns (r: Outcome, mem': Memory, ghost table: seq<nat>, ghost size: nat)
    requires Tracks(mem, a.xs, v, xs0, argv) && |ps| == |argv| + 1 == |xs0| && (forall i :: 0 <= i < |ps| ==> xs0[i] == XPointer(ps[i], None))
    requires AllocatesElsewhere(alloc, ps, argv, w) && forall i :: 0 <= i < |ps| ==> ps[i] < Bound(w)
    ensures size == At(w, |a.xs|) + |Texts(a.xs)|
    ensures alloc(size).None? ==> r == Failed(E2BIG) && mem' == mem
    ensures alloc(size).Some? ==>
      r == Expanded(path, alloc(size).value) && ArgvAt(mem', r.address, table, v, w) && Replaced(table, v, ps, argv, r.address, size)
  {
    table := ps;
    var offsets, texts := a.Measure(w);
    var total := At(w, |a.xs|) + |texts|;
    size := total;
    var ptr := alloc(total);
    if ptr.None? {
      return Failed(E2BIG), mem, table, size;
    }
    assert Apart(ptr.value, total, ps, argv, w);
    table := Remotes(a.xs, ptr.value + At(w, |a.xs|));
    PushedArgv(mem, a.xs, v, xs0, argv, ps, ptr.value, w, total, table);
    mem' := a.Push(mem, ptr.value, w);
    r := Expanded(path, ptr.value);
  }
}
