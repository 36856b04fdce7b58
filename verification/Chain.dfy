/** The syscall-stage machine of a tracee: `translate_syscall` (proot-master/src/syscall/syscall.c), the calls PRoot
    chains behind a syscall (proot-master/src/syscall/chain.c) and the registers it pushes
    (proot-master/src/tracee/reg.c).

    The kernel and the translations are inputs: what a translation makes of a call, whether the kernel lets the
    syscall number be changed, what a call returns.  The result register is one of its own, as on x86, or that of the
    first argument, as on ARM. */
module Chain {
  import opened Wrappers
  import opened Sysnum

  const MINUS_ONE: nat := 0xFFFF_FFFF_FFFF_FFFF

  type Args = a: seq<nat> | |a| == 6 witness [0, 0, 0, 0, 0, 0]

  datatype Call = Call(num: nat, args: Args)

  datatype Regs = Regs(call: Call, result: nat, sp: nat, ip: int)

  /** The size of the trap instruction, the number of brk(2), and whether the result is returned in the register of the
      first argument. */
  datatype Config = Config(trap: nat, brk: nat, shared: bool)

  /** Registers of such a machine. */
  ghost predicate OfMachine(regs: Regs, c: Config) {
    c.shared ==> regs.result == regs.call.args[0]
  }

  function WithFirst(args: Args, x: nat): Args {
    [x] + args[1..]
  }

  function SetCall(regs: Regs, call: Call, c: Config): Regs {
    regs.(call := call, result := if c.shared then call.args[0] else regs.result)
  }

  function SetResult(regs: Regs, result: nat, c: Config): Regs {
    var r := regs.(result := result);
    if c.shared then r.(call := r.call.(args := WithFirst(r.call.args, result))) else r
  }

  /** What `RESTORE` does with the arguments: not with the one that holds the result. */
  function RestoredCall(now: Call, original: Call, c: Config): Call {
    if c.shared then original.(args := WithFirst(original.args, now.args[0])) else original
  }

  datatype Workaround = Inactive | FaultyCall | ReplacedCall

  datatype How = Cont | Syscall

  /** `kernel` is what the process really has in its registers, `current` the cached copy; `running` is the call the
      kernel performs.  `chain` is absent when no chain exists, which is not the same as an empty one. */
  datatype State = State(inExit: bool, chain: Option<seq<Call>>, workaround: Workaround, forced: Option<nat>,
                         restore: bool, changed: bool, how: How, current: Regs, original: Regs, kernel: Regs, running: Call)

  /** What happens at an enter stop: the registers trapped (ignored while a chain rewinds the process), what the
      translation turns the call into, the error it may report, how the tracee is to be restarted, and whether the
      kernel refuses a change of the number. */
  datatype Enter = Enter(trapped: Regs, translated: Call, sp: nat, error: Option<nat>, how: How, refused: bool)

  /** What happens at an exit stop: the kernel's result, the result the translation leaves, the calls it chains and the
      final result it forces. */
  datatype Exit = Exit(result: nat, translated: nat, registered: seq<Call>, force: Option<nat>)

  // ---------------------------------------------------------------- registers

  /** `push_specific_regs`: pushes the cached registers if they ever changed, restoring the original ones at the very
      end; a refused number leaves everything as it was. */
  function Push(s: State, including: bool, refused: bool, c: Config): (State, bool) {
    if !s.changed then (s, true)
    else
      var s1 :=
        if !s.restore then s
        else s.(current := s.current.(call := RestoredCall(s.current.call, s.original.call, c), sp := s.original.sp));
      if including && s1.current.call.num != s1.original.call.num then
        if refused then (s1, false)
        else (s1.(kernel := s1.current, running := s1.current.call), true)
      else (s1.(kernel := s1.current, running := s1.running.(args := s1.current.call.args)), true)
  }

  /** Arguments hoped to make the call fail; brk(0) only queries. */
  function BadArgs(num: nat, brk: nat): Args {
    [if num == brk then 0 else MINUS_ONE, MINUS_ONE, MINUS_ONE, MINUS_ONE, MINUS_ONE, MINUS_ONE]
  }

  // ---------------------------------------------------------------- enter stage

  /** The registers at an enter stop: a rewound process traps again on the same instruction. */
  function Trapped(s: State, i: Enter, c: Config): Regs {
    if s.chain.Some? then s.kernel.(ip := s.kernel.ip + c.trap) else i.trapped
  }

  function Translated(regs: Regs, i: Enter, c: Config): Regs {
    SetCall(regs, i.translated, c).(sp := i.sp)
  }

  /** On error the call is avoided. */
  function Avoided(regs: Regs, i: Enter, c: Config): Regs {
    match i.error
    case Some(e) => SetResult(regs.(call := regs.call.(num := SYSCALL_AVOIDER)), e, c)
    case None => regs
  }

  /** The enter stage of a call the tracee asked for, up to the push of the registers. */
  function Prepared(s: State, i: Enter, c: Config): State {
    var regs := s.kernel;
    var meant := Translated(regs, i, c);
    var now := Avoided(meant, i, c);
    s.(original := regs, how := i.how, inExit := i.how != Cont, changed := meant != regs || now != meant,
       current := if i.how == Cont then now.(sp := regs.sp) else now)
  }

  /** The kernel would not change the number: the call is made to fail and the intended one is chained behind it, or,
      if the call was to be avoided, its exit is intercepted. */
  function Recovered(s: State, c: Config): State {
    var s1 :=
      if s.current.call.num != SYSCALL_AVOIDER then s.(workaround := FaultyCall, chain := Some([s.current.call]))
      else if s.how == Cont then s.(inExit := true, how := Syscall)
      else s;
    var faulty := SetCall(s.current, s.current.call.(args := BadArgs(s.original.call.num, c.brk)), c);
    Push(s1.(current := faulty, changed := true), false, false, c).0
  }

  function Requested(s: State, i: Enter, c: Config): State {
    var (s1, pushed) := Push(Prepared(s, i, c), true, i.refused, c);
    if pushed then s1 else Recovered(s1, c)
  }

  function Stopped(s: State, regs: Regs): State {
    s.(kernel := regs, current := regs, running := regs.call, restore := false, inExit := true)
  }

  function EnterStage(s: State, i: Enter, c: Config): State {
    var s0 := Stopped(s, Trapped(s, i, c));
    if s.chain.Some? then Push(s0.(how := Syscall), false, false, c).0 else Requested(s0, i, c)
  }

  // ---------------------------------------------------------------- exit stage

  /** `register_chained_syscall`, for each of `calls`. */
  function Register(chain: Option<seq<Call>>, calls: seq<Call>): Option<seq<Call>> {
    if calls == [] then chain
    else match chain
      case Some(q) => Some(q + calls)
      case None => Some(calls)
  }

  lemma RegisterOne(chain: Option<seq<Call>>, calls: seq<Call>, k: nat)
    requires k < |calls|
    ensures Register(chain, calls[..k + 1]) ==
      Some((match Register(chain, calls[..k]) case Some(q) => q case None => []) + [calls[k]])
  {
    assert calls[..k + 1] == calls[..k] + [calls[k]];
    assert k == 0 ==> calls[..k] == [];
    if chain.Some? {
      assert chain.value + calls[..k] + [calls[k]] == chain.value + calls[..k + 1];
      assert chain.value + [] == chain.value;
    }
  }

  /** `chain_next_syscall`. */
  function NextInChain(s: State, c: Config): State
    requires s.chain.Some?
  {
    if s.chain.value == [] then
      var forced := if s.forced.Some? then SetResult(s.current, s.forced.value, c) else s.current;
      s.(chain := None, forced := None, current := forced, changed := s.changed || forced != s.current)
    else
      var next := SetCall(s.current, s.chain.value[0], c).(ip := s.current.ip - c.trap);
      s.(restore := false, chain := Some(s.chain.value[1..]), current := next, changed := s.changed || next != s.current, how := Syscall)
  }

  function Asked(s: State, i: Exit): State {
    s.(chain := Register(s.chain, i.registered), forced := if i.force.Some? then i.force else s.forced)
  }

  /** The handlers of an exit stop: the syscall's own, once; none for the call that was made to fail; the extensions'
      for a chained call. */
  function Handled(s: State, i: Exit, c: Config): State {
    if s.chain.None? || s.workaround == ReplacedCall then
      var done := SetResult(s.current, i.translated, c);
      Asked(s.(workaround := Inactive, current := done, changed := s.changed || done != s.current), i)
    else if s.workaround == FaultyCall then s.(workaround := ReplacedCall)
    else Asked(s, i)
  }

  function Returned(s: State, result: nat, c: Config): State {
    var regs := SetResult(s.kernel, result, c);
    s.(kernel := regs, current := regs, restore := true, inExit := false)
  }

  function ExitStage(s: State, i: Exit, c: Config): State {
    var s1 := Handled(Returned(s, i.result, c), i, c);
    Push(if s1.chain.Some? then NextInChain(s1, c) else s1, false, false, c).0
  }

  // ---------------------------------------------------------------- the machine as the source runs it

  class Tracee {
    var inExit: bool
    var chain: Option<seq<Call>>
    var workaround: Workaround
    var forced: Option<nat>
    var restore: bool
    var changed: bool
    var how: How
    var current: Regs
    var original: Regs
    var kernel: Regs
    var running: Call
    const c: Config

    function Abs(): State
      reads this
    {
      State(inExit, chain, workaround, forced, restore, changed, how, current, original, kernel, running)
    }

    constructor (regs: Regs, c: Config)
      ensures Abs() == Initial(regs) && this.c == c
    {
      inExit, chain, workaround, forced, restore, changed, how := false, None, Inactive, None, false, false, Syscall;
      current, original, kernel, running := regs, regs, regs, regs.call;
      this.c := c;
    }

    /** `poke_reg`, which notes whether a register changes. */
    method Poke(regs: Regs)
      modifies this`current, this`changed
      ensures current == regs && changed == (old(changed) || current != old(current))
    {
      if current != regs {
        current, changed := regs, true;
      }
    }

    method PushRegs(including: bool, refused: bool) returns (ok: bool)
      modifies this`current, this`kernel, this`running
      ensures (Abs(), ok) == Push(old(Abs()), including, refused, c)
    {
      if !changed {
        return true;
      }
      if restore {
        current := current.(call := RestoredCall(current.call, original.call, c), sp := original.sp);
      }
      if including && current.call.num != original.call.num {
        if refused {
          return false;
        }
        running := current.call;
      } else {
        running := running.(args := current.call.args);
      }
      kernel := current;
      return true;
    }

    /** `translate_syscall` at an enter stop. */
    method TranslateEnter(i: Enter)
      requires chain.None? ==> workaround.Inactive?
      modifies this
      ensures Abs() == EnterStage(old(Abs()), i, c)
      ensures old(chain).None? ==> EntersAs(Abs(), i, c)
    {
      ghost var was := Abs();
      kernel := if chain.Some? then kernel.(ip := kernel.ip + c.trap) else i.trapped;
      current, running, restore, inExit := kernel, kernel.call, false, true;
      if chain.Some? {
        how := Syscall;
        var pushed := PushRegs(false, false);
      } else {
        Ask(i);
        EnterExactly(was, i, c);
      }
    }

    /** The enter stage of a call the tracee asked for. */
    method Ask(i: Enter)
      requires current == kernel && inExit && chain.None? && workaround.Inactive?
      modifies this
      ensures Abs() == Requested(old(Abs()), i, c)
    {
      Prepare(i);
      var pushed := PushRegs(true, i.refused);
      if !pushed && original.call.num != current.call.num {
        Refused();
      }
    }

    method Prepare(i: Enter)
      requires current == kernel && inExit
      modifies this`original, this`changed, this`how, this`current, this`inExit
      ensures Abs() == Prepared(old(Abs()), i, c)
    {
      original, changed, how := current, false, i.how;
      Poke(SetCall(current, i.translated, c).(sp := i.sp));
      if i.error.Some? {
        Poke(SetResult(current.(call := current.call.(num := SYSCALL_AVOIDER)), i.error.value, c));
      }
      if how == Cont {
        inExit := false;
        Poke(current.(sp := original.sp));
      }
    }

    method Refused()
      requires chain.None? && workaround.Inactive?
      modifies this
      ensures Abs() == Recovered(old(Abs()), c)
    {
      if current.call.num != SYSCALL_AVOIDER {
        workaround := FaultyCall;
        chain := Some([current.call]);
      } else if how == Cont {
        inExit, how := true, Syscall;
      }
      current := SetCall(current, current.call.(args := BadArgs(original.call.num, c.brk)), c);
      changed := true;
      var pushed := PushRegs(false, false);
    }

    /** `translate_syscall` at an exit stop. */
    method TranslateExit(i: Exit)
      modifies this
      ensures Abs() == ExitStage(old(Abs()), i, c)
    {
      kernel := SetResult(kernel, i.result, c);
      current, restore, inExit := kernel, true, false;
      Handle(i);
      if chain.Some? {
        ChainNext();
      }
      var pushed := PushRegs(false, false);
    }

    method Handle(i: Exit)
      modifies this
      ensures Abs() == Handled(old(Abs()), i, c)
    {
      if chain.None? || workaround == ReplacedCall {
        workaround := Inactive;
        Poke(SetResult(current, i.translated, c));
        Chained(i);
      } else if workaround == FaultyCall {
        workaround := ReplacedCall;
      } else {
        Chained(i);
      }
    }

    /** What an exit handler asks for: calls to chain and a final result to force. */
    method Chained(i: Exit)
      modifies this`chain, this`forced
      ensures chain == Register(old(chain), i.registered) && forced == if i.force.Some? then i.force else old(forced)
    {
      for k := 0 to |i.registered|
        invariant chain == Register(old(chain), i.registered[..k]) && forced == old(forced)
      {
        if chain.None? {
          chain := Some([]);
        }
        chain := Some(chain.value + [i.registered[k]]);
        RegisterOne(old(chain), i.registered, k);
      }
      assert i.registered[..|i.registered|] == i.registered;
      if i.force.Some? {
        forced := i.force;
      }
    }

    method ChainNext()
      requires chain.Some?
      modifies this
      ensures Abs() == NextInChain(old(Abs()), c)
    {
      if chain.value == [] {
        chain := None;
        if forced.Some? {
          Poke(SetResult(current, forced.value, c));
        }
        forced := None;
        return;
      }
      restore := false;
      var call := chain.value[0];
      chain := Some(chain.value[1..]);
      Poke(SetCall(current, call, c).(ip := current.ip - c.trap));
      how := Syscall;
    }
  }

  function Initial(regs: Regs): State {
    State(false, None, Inactive, None, false, false, Syscall, regs, regs, regs, regs.call)
  }

  // ---------------------------------------------------------------- what every run keeps

  /** What happened since the tracee trapped: the call it was turned into and its stack pointer, how often its exit was translated, what the
      kernel performed, what was chained, the last result seen and the result forced. */
  datatype History = History(meant: Call, sp: nat, exits: nat, ran: seq<Call>, queued: seq<Call>, result: nat, force: Option<nat>)

  /** The call meant: the translated one; with the avoider for a number, and the error where the result is, if the
      translation failed. */
  ghost function Meant(i: Enter, c: Config): Call {
    match i.error
    case None => i.translated
    case Some(e) => Call(SYSCALL_AVOIDER, if c.shared then [e] + i.translated.args[1..] else i.translated.args)
  }

  ghost function EnterHistory(h: History, s: State, i: Enter, c: Config): History {
    if s.chain.Some? then h else History(Meant(i, c), if i.how == Cont then i.trapped.sp else i.sp, 0, [], [], 0, None)
  }

  ghost function ExitHistory(h: History, s: State, i: Exit): History {
    var own := s.chain.None? || s.workaround == ReplacedCall;
    var h1 := h.(ran := h.ran + [s.running], exits := h.exits + if own then 1 else 0, result := if own then i.translated else i.result);
    if own || s.workaround == Inactive then h1.(queued := h.queued + i.registered, force := if i.force.Some? then i.force else h.force) else h1
  }

  /** The call the kernel performs when it keeps the number: it is meant to fail. */
  ghost function Faulty(s: State, c: Config): Call {
    FaultyCallOf(s.original.call.num, c)
  }

  /** Every argument is -1, but for the first one of brk(2), which only queries. */
  ghost function FaultyCallOf(num: nat, c: Config): Call {
    Call(num, [if num == c.brk then 0 else 0xFFFF_FFFF_FFFF_FFFF, 0xFFFF_FFFF_FFFF_FFFF, 0xFFFF_FFFF_FFFF_FFFF,
               0xFFFF_FFFF_FFFF_FFFF, 0xFFFF_FFFF_FFFF_FFFF, 0xFFFF_FFFF_FFFF_FFFF])
  }

  /** The translation asks for another number, and the kernel does not take it. */
  ghost predicate Refusing(i: Enter, c: Config) {
    i.refused && Meant(i, c).num != i.trapped.call.num
  }

  /** What the enter stage of a call the tracee asked for leaves: the call meant and its stack, or the tracee's own stack
      if there is no stop at the exit; with the number refused, a call that fails, whose exit is waited for if nothing
      is to be performed, and the call meant behind it otherwise. */
  ghost predicate EntersAs(s: State, i: Enter, c: Config) {
    && s.original == i.trapped && s.kernel.ip == i.trapped.ip
    && s.kernel.sp == (if i.how == Cont then i.trapped.sp else i.sp)
    && (!Refusing(i, c) ==>
          && s.running == Meant(i, c) && s.kernel.call == Meant(i, c) && s.chain == None
          && s.how == i.how && (s.inExit <==> i.how == Syscall)
          && (i.error.Some? ==> s.kernel.result == i.error.value)
          && (i.error.None? ==> s.kernel.result == if c.shared then i.translated.args[0] else i.trapped.result))
    && (Refusing(i, c) ==>
          && s.running == FaultyCallOf(i.trapped.call.num, c)
          && (Meant(i, c).num == SYSCALL_AVOIDER ==> s.chain == None && s.how == Syscall && s.inExit)
          && (Meant(i, c).num != SYSCALL_AVOIDER ==>
                s.chain == Some([i.translated]) && s.how == i.how && (s.inExit <==> i.how == Syscall)))
  }

  lemma EnterExactly(s: State, i: Enter, c: Config)
    requires s.chain.None?
    ensures EntersAs(EnterStage(s, i, c), i, c)
  {
    var s0 := Stopped(s, i.trapped);
    var p := Prepared(s0, i, c);
    PreparedExactly(s0, i, c);
    if !p.changed {
      assert p.current == p.kernel == i.trapped;
    }
  }

  lemma PreparedExactly(s: State, i: Enter, c: Config)
    requires s.kernel == i.trapped && s.current == i.trapped
    ensures var p := Prepared(s, i, c);
      && p.original == i.trapped && p.kernel == s.kernel && p.running == s.running && p.chain == s.chain
      && p.how == i.how && (p.inExit <==> i.how == Syscall) && !(p.restore && !s.restore)
      && p.current.call == Meant(i, c) && p.current.ip == i.trapped.ip
      && p.current.sp == (if i.how == Cont then i.trapped.sp else i.sp)
      && (i.error.Some? ==> p.current.result == i.error.value)
      && (i.error.None? ==> p.current.result == if c.shared then i.translated.args[0] else i.trapped.result)
      && (!p.changed ==> p.current == i.trapped)
  {
  }

  /** How the syscall itself was performed: as meant, or through a failing call, or, when avoided, as a failing call. */
  ghost predicate Performed(own: seq<Call>, h: History, s: State, c: Config) {
    || own == [h.meant]
    || own == [Faulty(s, c), h.meant]
    || (own == [Faulty(s, c)] && h.meant.num == SYSCALL_AVOIDER)
  }

  /** Between syscalls: translated exactly once, everything chained performed once and in order, registers restored but
      for the result, which may be in the register of the first argument. */
  ghost predicate Settled(s: State, h: History, c: Config) {
    && h.exits == 1
    && (exists own :: Performed(own, h, s, c) && h.ran == own + h.queued)
    && s.kernel.call.num == s.original.call.num && s.kernel.call.args[1..] == s.original.call.args[1..]
    && (if c.shared then s.kernel.call.args[0] == s.kernel.result else s.kernel.call == s.original.call)
    && s.kernel.sp == s.original.sp && s.kernel.ip == s.original.ip
    && s.kernel.result == if h.force.Some? then h.force.value else h.result
  }

  /** While chained calls are performed, one of them is in the registers and the rest waits. */
  ghost predicate Chaining(s: State, h: History, c: Config)
    requires s.chain.Some?
  {
    && h.exits == 1 && s.forced == h.force
    && (exists own :: Performed(own, h, s, c) && own + h.queued == h.ran + [s.kernel.call] + s.chain.value)
  }

  ghost predicate Inv(s: State, h: History, c: Config) {
    && OfMachine(s.kernel, c)
    && match s.chain
    case None =>
      && s.workaround == Inactive && s.forced == None
      && (s.inExit ==>
            && s.how == Syscall && h.exits == 0 && h.ran == [] && h.queued == [] && h.force == None
            && Performed([s.running], h, s, c) && s.kernel.ip == s.original.ip && s.kernel.sp == h.sp
            && (!s.changed ==> s.kernel.call == s.original.call && s.kernel.sp == s.original.sp))
      && (!s.inExit && h.ran != [] ==> Settled(s, h, c))
      && (!s.inExit && h.ran == [] ==> s.running == h.meant && s.kernel.sp == s.original.sp && s.kernel.ip == s.original.ip)
    case Some(q) =>
      && s.changed && s.how == Syscall && s.kernel.sp == h.sp
      && s.kernel.ip == s.original.ip - (if s.inExit then 0 else c.trap)
      && (s.inExit && s.workaround != FaultyCall ==> s.running == s.kernel.call)
      && (match s.workaround
          case FaultyCall =>
            s.inExit && q == [h.meant] && s.running == Faulty(s, c) && s.forced == None
            && h.exits == 0 && h.ran == [] && h.queued == [] && h.force == None
          case ReplacedCall =>
            q == [] && s.kernel.call == h.meant && s.forced == None
            && h.exits == 0 && h.ran == [Faulty(s, c)] && h.queued == [] && h.force == None
          case Inactive => Chaining(s, h, c))
  }

  /** A forced result belongs to a chain. */
  ghost predicate LegalExit(s: State, i: Exit) {
    i.force.Some? ==> i.registered != [] || s.chain.Some?
  }

  /** The one combination that goes wrong: the tracee is to be restarted without a stop at the exit, and the kernel
      refuses the new number of a call that is not avoided. */
  ghost predicate Stranding(i: Enter) {
    i.how == Cont && i.refused && i.error.None? && i.translated.num != i.trapped.call.num && i.translated.num != SYSCALL_AVOIDER
  }

  lemma EnterKeeps(s: State, h: History, i: Enter, c: Config)
    requires Inv(s, h, c) && !s.inExit && (s.chain.None? ==> !Stranding(i))
    ensures Inv(EnterStage(s, i, c), EnterHistory(h, s, i, c), c)
  {
    if s.chain.None? {
      AskedKeeps(s, h, i, c);
    }
  }

  lemma AskedKeeps(s: State, h: History, i: Enter, c: Config)
    requires Inv(s, h, c) && !s.inExit && s.chain.None? && !Stranding(i)
    ensures Inv(EnterStage(s, i, c), EnterHistory(h, s, i, c), c)
  {
    EnterExactly(s, i, c);
  }

  lemma ExitKeeps(s: State, h: History, i: Exit, c: Config)
    requires Inv(s, h, c) && s.inExit && LegalExit(s, i) && c.trap > 0
    ensures Inv(ExitStage(s, i, c), ExitHistory(h, s, i), c)
  {
    if s.chain.None? {
      OwnExit(s, h, i, c, [s.running]);
    } else if s.workaround == ReplacedCall {
      OwnExit(s, h, i, c, [Faulty(s, c), h.meant]);
    } else if s.workaround == Inactive {
      var own :| Performed(own, h, s, c) && own + h.queued == h.ran + [s.kernel.call] + s.chain.value;
      ChainedExit(s, h, i, c, own);
    }
  }

  /** Past one performed call, with more calls chained behind. */
  lemma QueueMoves(own: seq<Call>, queued: seq<Call>, ran: seq<Call>, call: Call, q: seq<Call>, more: seq<Call>)
    requires own + queued == ran + [call] + q
    ensures q + more == [] ==> ran + [call] == own + (queued + more)
    ensures q + more != [] ==> own + (queued + more) == (ran + [call]) + [(q + more)[0]] + (q + more)[1..]
  {
    assert own + (queued + more) == (own + queued) + more;
    assert (ran + [call] + q) + more == (ran + [call]) + (q + more);
    if q + more != [] {
      assert q + more == [(q + more)[0]] + (q + more)[1..];
    }
  }

  lemma OwnExit(s: State, h: History, i: Exit, c: Config, own: seq<Call>)
    requires Inv(s, h, c) && s.inExit && LegalExit(s, i) && c.trap > 0
    requires s.chain.None? || s.workaround == ReplacedCall
    requires own == h.ran + [s.running] && Performed(own, h, s, c)
    ensures Inv(ExitStage(s, i, c), ExitHistory(h, s, i), c)
  {
    if i.registered == [] {
      OwnExitLast(s, h, i, c, own);
    } else {
      OwnExitChains(s, h, i, c, own);
    }
  }

  lemma OwnExitLast(s: State, h: History, i: Exit, c: Config, own: seq<Call>)
    requires Inv(s, h, c) && s.inExit && LegalExit(s, i) && i.registered == []
    requires s.chain.None? || s.workaround == ReplacedCall
    requires own == h.ran + [s.running] && Performed(own, h, s, c)
    ensures Inv(ExitStage(s, i, c), ExitHistory(h, s, i), c)
  {
    var s', h' := ExitStage(s, i, c), ExitHistory(h, s, i);
    assert h.queued + i.registered == [];
    assert Performed(own, h', s', c) && h'.ran == own + h'.queued;
  }

  lemma OwnExitChains(s: State, h: History, i: Exit, c: Config, own: seq<Call>)
    requires Inv(s, h, c) && s.inExit && c.trap > 0 && i.registered != []
    requires s.chain.None? || s.workaround == ReplacedCall
    requires own == h.ran + [s.running] && Performed(own, h, s, c)
    ensures Inv(ExitStage(s, i, c), ExitHistory(h, s, i), c)
  {
    var s', h' := ExitStage(s, i, c), ExitHistory(h, s, i);
    assert [] + i.registered == i.registered && h.queued + i.registered == i.registered;
    assert Performed(own, h', s', c) && own + h'.queued == h'.ran + [i.registered[0]] + i.registered[1..];
  }

  lemma ChainedExit(s: State, h: History, i: Exit, c: Config, own: seq<Call>)
    requires Inv(s, h, c) && s.inExit && c.trap > 0 && s.chain.Some? && s.workaround == Inactive
    requires Performed(own, h, s, c) && own + h.queued == h.ran + [s.kernel.call] + s.chain.value
    ensures Inv(ExitStage(s, i, c), ExitHistory(h, s, i), c)
  {
    var s', h' := ExitStage(s, i, c), ExitHistory(h, s, i);
    QueueMoves(own, h.queued, h.ran, s.kernel.call, s.chain.value, i.registered);
    assert s.chain.value + [] == s.chain.value;
    assert Performed(own, h', s', c);
  }

  // ---------------------------------------------------------------- whole runs

  datatype Stop = AtEnter(enter: Enter) | AtExit(exit: Exit)

  /** The stage a stop is taken for depends on the state; calls are chained at exit stops only. */
  ghost predicate Legal(s: State, stop: Stop) {
    match stop
    case AtEnter(i) => !s.inExit && (s.chain.None? ==> !Stranding(i))
    case AtExit(i) => s.inExit && LegalExit(s, i)
  }

  ghost function Next(s: State, stop: Stop, c: Config): State {
    match stop
    case AtEnter(i) => EnterStage(s, i, c)
    case AtExit(i) => ExitStage(s, i, c)
  }

  ghost function NextHistory(h: History, s: State, stop: Stop, c: Config): History {
    match stop
    case AtEnter(i) => EnterHistory(h, s, i, c)
    case AtExit(i) => ExitHistory(h, s, i)
  }

  ghost function After(s: State, stops: seq<Stop>, c: Config): State {
    if stops == [] then s else Next(After(s, stops[..|stops| - 1], c), stops[|stops| - 1], c)
  }

  ghost function HistoryAfter(s: State, h: History, stops: seq<Stop>, c: Config): History {
    if stops == [] then h
    else
      var n := |stops| - 1;
      NextHistory(HistoryAfter(s, h, stops[..n], c), After(s, stops[..n], c), stops[n], c)
  }

  ghost predicate LegalRun(s: State, stops: seq<Stop>, c: Config) {
    forall k :: 0 <= k < |stops| ==> Legal(After(s, stops[..k], c), stops[k])
  }

  ghost function NoHistory(regs: Regs): History {
    History(regs.call, regs.sp, 0, [], [], 0, None)
  }

  /** Every run keeps the invariant: in particular, between two syscalls, one that stopped at its exit was translated
      there exactly once, its chained calls were performed once each in the order they were registered, and registers
      and instruction pointer are the tracee's own again. */
  lemma {:induction false} RunKeeps(regs: Regs, stops: seq<Stop>, c: Config)
    requires OfMachine(regs, c) && LegalRun(Initial(regs), stops, c) && c.trap > 0
    ensures Inv(After(Initial(regs), stops, c), HistoryAfter(Initial(regs), NoHistory(regs), stops, c), c)
    decreases |stops|
  {
    if stops != [] {
      var n := |stops| - 1;
      var s, h := After(Initial(regs), stops[..n], c), HistoryAfter(Initial(regs), NoHistory(regs), stops[..n], c);
      LegalPrefix(Initial(regs), stops, c);
      RunKeeps(regs, stops[..n], c);
      assert Legal(s, stops[n]);
      match stops[n]
      case AtEnter(i) => EnterKeeps(s, h, i, c);
      case AtExit(i) => ExitKeeps(s, h, i, c);
    }
  }

  lemma LegalPrefix(s: State, stops: seq<Stop>, c: Config)
    requires LegalRun(s, stops, c) && stops != []
    ensures LegalRun(s, stops[..|stops| - 1], c)
  {
    var before := stops[..|stops| - 1];
    forall k | 0 <= k < |before|
      ensures Legal(After(s, before[..k], c), before[k])
    {
      assert before[..k] == stops[..k];
    }
  }

  /** The machine of the source follows the run. */
  method Drive(t: Tracee, stops: seq<Stop>)
    requires t.c.trap > 0 && OfMachine(t.kernel, t.c) && t.Abs() == Initial(t.kernel) && LegalRun(t.Abs(), stops, t.c)
    modifies t
    ensures t.Abs() == After(old(t.Abs()), stops, t.c)
    ensures Inv(t.Abs(), HistoryAfter(old(t.Abs()), NoHistory(old(t.kernel)), stops, t.c), t.c)
  {
    ghost var first := t.Abs();
    ghost var regs := t.kernel;
    for k := 0 to |stops|
      invariant t.Abs() == After(first, stops[..k], t.c)
    {
      ghost var now := t.Abs();
      assert stops[..k + 1][..k] == stops[..k];
      assert Legal(now, stops[k]);
      PrefixKeeps(regs, stops, k, t.c);
      match stops[k]
      case AtEnter(i) => t.TranslateEnter(i);
      case AtExit(i) => t.TranslateExit(i);
    }
    assert stops[..|stops|] == stops;
    RunKeeps(regs, stops, t.c);
  }

  lemma PrefixKeeps(regs: Regs, stops: seq<Stop>, k: nat, c: Config)
    requires OfMachine(regs, c) && LegalRun(Initial(regs), stops, c) && c.trap > 0 && k <= |stops|
    ensures var s := After(Initial(regs), stops[..k], c);
      s.chain.None? ==> s.workaround == Inactive
  {
    forall j | 0 <= j < k
      ensures Legal(After(Initial(regs), stops[..k][..j], c), stops[..k][j])
    {
      assert stops[..k][..j] == stops[..j];
    }
    RunKeeps(regs, stops[..k], c);
  }

  /** The enter stage keeps the invariant exactly outside the stranding combination; there it leaves a chained call
      behind although no stop at the exit will come. */
  lemma StrandedExactly(s: State, h: History, i: Enter, c: Config)
    requires Inv(s, h, c) && !s.inExit && s.chain.None?
    ensures Inv(EnterStage(s, i, c), EnterHistory(h, s, i, c), c) <==> !Stranding(i)
    ensures Stranding(i) ==>
      var s' := EnterStage(s, i, c);
      s'.chain == Some([Call(i.translated.num, i.translated.args)]) && !s'.inExit && s'.how == Cont
  {
    if !Stranding(i) {
      EnterKeeps(s, h, i, c);
    }
  }
}
