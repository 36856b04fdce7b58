/** Arrays of pointers shared with a tracee (proot-master/src/execve/aoxp.c): entries are remote addresses or local
    strings, and local strings are written back, with the pointer table, in one block of the tracee's memory. */
module Argv {
  import opened Wrappers
  import opened Words
  import opened LoadImage
  import opened Loader
  import opened LoadProgram

  /** `remote` counts only while there is no local string. */
  datatype XPointer = XPointer(remote: nat, local: Option<seq<nat>>)

  /** The string an entry stands for. */
  ghost predicate Denotes(mem: Memory, x: XPointer, s: seq<nat>) {
    && 0 !in s
    && match x.local
       case Some(t) => t == s
       case None => x.remote != 0 && ReadsAt(mem, x.remote, s + [0])
  }

  ghost predicate IsNull(x: XPointer) {
    x.local.None? && x.remote == 0
  }

  /** The entries stand for these strings and end with a null pointer. */
  ghost predicate Spells(mem: Memory, xs: seq<XPointer>, strings: seq<seq<nat>>) {
    && |xs| == |strings| + 1 && IsNull(xs[|strings|])
    && forall i :: 0 <= i < |strings| ==> Denotes(mem, xs[i], strings[i])
  }

  // ---------------------------------------------------------------- the block

  /** The local strings, one after the other. */
  function Texts(xs: seq<XPointer>): seq<nat> {
    if xs == [] then []
    else
      Texts(xs[..|xs| - 1]) + match xs[|xs| - 1].local
                              case Some(s) => s + [0]
                              case None => []
  }

  /** Where entry `i` points once the strings are at `base`. */
  function NewRemote(xs: seq<XPointer>, i: nat, base: nat): nat
    requires i < |xs|
  {
    if xs[i].local.Some? then base + |Texts(xs[..i])| else xs[i].remote
  }

  function Remotes(xs: seq<XPointer>, base: nat): (r: seq<nat>)
    ensures |r| == |xs| && forall i :: 0 <= i < |xs| ==> r[i] == NewRemote(xs, i, base)
  {
    seq(|xs|, i requires 0 <= i < |xs| => NewRemote(xs, i, base))
  }

  /** The pointer table, then the strings. */
  function BlockBytes(xs: seq<XPointer>, ptr: nat, w: nat): (s: seq<nat>)
    ensures |s| == At(w, |xs|) + |Texts(xs)|
  {
    Stored(Remotes(xs, ptr + At(w, |xs|)), w) + Texts(xs)
  }

  /** The text of entry `i` inside all texts. */
  lemma {:induction false} TextInside(xs: seq<XPointer>, i: nat, s: seq<nat>)
    requires i < |xs| && xs[i].local == Some(s)
    ensures |Texts(xs[..i])| + |s| + 1 <= |Texts(xs)|
    ensures Texts(xs)[|Texts(xs[..i])|..|Texts(xs[..i])| + |s| + 1] == s + [0]
    decreases |xs|
  {
    var n := |xs| - 1;
    if i < n {
      assert xs[..n][..i] == xs[..i];
      TextInside(xs[..n], i, s);
    }
  }

  /** The texts of different entries do not overlap. */
  lemma {:induction false} TextsApart(xs: seq<XPointer>, i: nat, j: nat)
    requires i < j < |xs| && xs[i].local.Some?
    ensures |Texts(xs[..i])| + |xs[i].local.value| + 1 <= |Texts(xs[..j])|
    decreases j
  {
    assert xs[..j][..j - 1] == xs[..j - 1];
    if i < j - 1 {
      TextsApart(xs, i, j - 1);
    }
  }

  // ---------------------------------------------------------------- reading the block back

  lemma PushedReads(mem: Memory, ptr: nat, bytes: seq<nat>)
    ensures ReadsAt(Pushed(mem, ptr, bytes), ptr, bytes)
  {
  }

  /** Strings outside the block stay. */
  lemma PushedKeeps(mem: Memory, ptr: nat, bytes: seq<nat>, a: nat, s: seq<nat>)
    requires ReadsAt(mem, a, s) && (a + |s| <= ptr || ptr + |bytes| <= a)
    ensures ReadsAt(Pushed(mem, ptr, bytes), a, s)
  {
  }

  /** The entries that were not modified keep their strings: the block is elsewhere. */
  ghost predicate Elsewhere(xs: seq<XPointer>, strings: seq<seq<nat>>, ptr: nat, size: nat)
    requires |xs| == |strings| + 1
  {
    forall i :: 0 <= i < |strings| && xs[i].local.None? ==>
      xs[i].remote + |strings[i]| + 1 <= ptr || ptr + size <= xs[i].remote
  }

  /** After the push, every pointer of the table leads to its string. */
  lemma PushedSpells(mem: Memory, xs: seq<XPointer>, strings: seq<seq<nat>>, ptr: nat, w: nat, i: nat, base: nat)
    requires Spells(mem, xs, strings) && i < |strings| && ptr > 0 && base == ptr + At(w, |xs|)
    requires Elsewhere(xs, strings, ptr, |BlockBytes(xs, ptr, w)|)
    ensures var mem' := Pushed(mem, ptr, BlockBytes(xs, ptr, w));
      NewRemote(xs, i, base) != 0 && ReadsAt(mem', NewRemote(xs, i, base), strings[i] + [0])
  {
    var block := BlockBytes(xs, ptr, w);
    var mem' := Pushed(mem, ptr, block);
    var s := strings[i];
    assert Denotes(mem, xs[i], s);
    if xs[i].local.Some? {
      var c := |Texts(xs[..i])|;
      TextInside(xs, i, s);
      PushedReads(mem, ptr, block);
      InBlock(block, Stored(Remotes(xs, base), w), Texts(xs), c, s + [0]);
      ReadsInside(mem', ptr, block, At(w, |xs|) + c, s + [0]);
    } else {
      PushedKeeps(mem, ptr, block, xs[i].remote, s + [0]);
    }
  }

  lemma InBlock(block: seq<nat>, table: seq<nat>, texts: seq<nat>, c: nat, t: seq<nat>)
    requires block == table + texts && c + |t| <= |texts| && texts[c..c + |t|] == t
    ensures block[|table| + c..|table| + c + |t|] == t
  {
    var part := block[|table| + c..|table| + c + |t|];
    forall k | 0 <= k < |t|
      ensures part[k] == t[k]
    {
      assert part[k] == texts[c + k];
      assert texts[c..c + |t|][k] == texts[c + k];
    }
  }

  /** The table itself reads back as the new pointers. */
  lemma PushedTable(mem: Memory, xs: seq<XPointer>, ptr: nat, w: nat, i: nat, base: nat, c: nat)
    requires i < |xs| && base == ptr + At(w, |xs|) && c == At(w, i) && NewRemote(xs, i, base) < Bound(w)
    ensures WordAt(Pushed(mem, ptr, BlockBytes(xs, ptr, w)), ptr + c, w) == NewRemote(xs, i, base)
  {
    var block := BlockBytes(xs, ptr, w);
    PushedReads(mem, ptr, block);
    WordRead(Pushed(mem, ptr, block), ptr, block, Remotes(xs, base), w, i, c);
    SmallMod(NewRemote(xs, i, base), Bound(w));
  }
}
