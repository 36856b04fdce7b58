/** Neutral and architecture syscall numbers (proot-master/src/syscall/sysnum.c).
    The concrete tables are parameters: any table whose numbers fit a word. */
module Sysnum {

  const PR_VOID: nat := 0

  /** `(word_t) -2`: the number no system call has. */
  const SYSCALL_AVOIDER: nat := 0xFFFF_FFFF_FFFF_FFFE

  datatype RawTable = Table(entries: seq<nat>, offset: nat)

  type Table = t: RawTable | t.offset + |t.entries| <= SYSCALL_AVOIDER
    witness Table([], 0)

  /** The first position of `sysnum` in the table, or its length. */
  ghost function FirstIndex(s: seq<nat>, sysnum: nat): (i: nat)
    ensures i <= |s|
    ensures i < |s| ==> s[i] == sysnum
    ensures forall j :: 0 <= j < i ==> s[j] != sysnum
  {
    if s == [] then 0 else if s[0] == sysnum then 0 else 1 + FirstIndex(s[1..], sysnum)
  }

  /** The architecture number of `sysnum`, `SYSCALL_AVOIDER` when the ABI has no such call. */
  ghost function AbiNumber(t: Table, sysnum: nat): (nr: nat)
    ensures nr == SYSCALL_AVOIDER <==> sysnum == PR_VOID || sysnum !in t.entries
    ensures nr != SYSCALL_AVOIDER ==>
      t.offset <= nr < t.offset + |t.entries| && t.entries[nr - t.offset] == sysnum
  {
    var i := FirstIndex(t.entries, sysnum);
    if sysnum == PR_VOID || i == |t.entries| then SYSCALL_AVOIDER else i + t.offset
  }

  method DetranslateSysnum(t: Table, sysnum: nat) returns (nr: nat)
    ensures nr == AbiNumber(t, sysnum)
  {
    if sysnum == PR_VOID {
      return SYSCALL_AVOIDER;
    }
    for i := 0 to |t.entries|
      invariant forall j :: 0 <= j < i ==> t.entries[j] != sysnum
    {
      if t.entries[i] == sysnum {
        return i + t.offset;
      }
    }
    return SYSCALL_AVOIDER;
  }

  /** `translate_sysnum`.  The source lets an index equal to the table's length through to a read past
      the end; that index is outside this model, so callers pass numbers that do not hit it. */
  function TranslateSysnum(t: Table, nr: nat): nat
    requires nr != t.offset + |t.entries|
  {
    if nr < t.offset then PR_VOID
    else if nr - t.offset > |t.entries| then PR_VOID
    else t.entries[nr - t.offset]
  }

  /** A number produced for a call translates back to that call. */
  lemma SysnumRoundTrip(t: Table, sysnum: nat)
    requires AbiNumber(t, sysnum) != SYSCALL_AVOIDER
    ensures AbiNumber(t, sysnum) != t.offset + |t.entries|
    ensures TranslateSysnum(t, AbiNumber(t, sysnum)) == sysnum
  {
  }
}
