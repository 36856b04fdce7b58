/** The ptrace emulation: who traces whom, pending events and waiting ptracers (proot-master/src/ptrace/ptrace.c,
    proot-master/src/ptrace/wait.c, proot-master/src/tracee/tracee.c).

    The kernel decides when a process stops, whether the event is one the ptracer asked for, whether it ends the
    process, and whether memory can be written; these are inputs.  What is kept is the bookkeeping PRoot relies on. */
module Ptrace {
  import opened Wrappers

  /** How wait(2) chooses among ptracees. */
  datatype Options = Options(wall: bool, wclone: bool, nohang: bool)

  /** One traced process.  `pending` and `terminal` describe the event kept for its ptracer; `waitPid` is not 0 while
      the process, as a ptracer, is put in the "waiting for ptracee" state. */
  datatype Tracee = Tracee(parent: Option<nat>, clone: bool, running: bool, ptracer: Option<nat>, pending: bool, terminal: bool,
                           nb: nat, waitPid: int, options: Options)

  /** A dead ptracee whose end its ptracer has not been told. */
  datatype Zombie = Zombie(pid: nat, ptracer: nat, parent: Option<nat>, clone: bool)

  type Table = map<nat, Tracee>

  function ExpectedClone(o: Options, clone: bool): bool {
    o.wall || (o.wclone && clone) || (!o.wclone && !clone)
  }

  function Matches(waitPid: int, o: Options, pid: nat, clone: bool): bool {
    (waitPid == -1 || waitPid == pid) && ExpectedClone(o, clone)
  }

  predicate Parked(t: Tracee) {
    t.waitPid != 0
  }

  // ---------------------------------------------------------------- what every step keeps

  /** `p` is the ptracer of `q`. */
  ghost predicate Traces(ts: Table, p: nat, q: nat) {
    q in ts && ts[q].ptracer == Some(p)
  }

  ghost function Ptracees(ts: Table, p: nat): set<nat> {
    set q | q in ts && Traces(ts, p, q)
  }

  ghost function Zombies(zs: seq<Zombie>, p: nat): nat {
    if zs == [] then 0 else Zombies(zs[..|zs| - 1], p) + if zs[|zs| - 1].ptracer == p then 1 else 0
  }

  ghost predicate CountOf(ts: Table, zs: seq<Zombie>, p: nat) {
    p in ts ==> ts[p].nb == |Ptracees(ts, p)| + Zombies(zs, p)
  }

  /** The counter of each ptracer is the number of its ptracees, dead ones included. */
  ghost predicate Counted(ts: Table, zs: seq<Zombie>) {
    forall p :: CountOf(ts, zs, p)
  }

  ghost predicate Linked(ts: Table, zs: seq<Zombie>) {
    && (forall p, q :: Traces(ts, p, q) ==> p in ts && p != q)
    && (forall i :: 0 <= i < |zs| ==> zs[i].ptracer in ts)
  }

  /** Kept stopped for a ptracer. */
  predicate Held(t: Tracee) {
    t.ptracer.Some? && t.pending
  }

  /** `p` waits for such a ptracee. */
  ghost predicate Waits(ts: Table, p: nat, pid: nat, clone: bool) {
    p in ts && Parked(ts[p]) && Matches(ts[p].waitPid, ts[p].options, pid, clone)
  }

  ghost predicate Waiting(ts: Table, p: nat) {
    p in ts && Parked(ts[p])
  }

  /** A waiting ptracer is stopped and has something to wait for. */
  ghost predicate Asleep(ts: Table) {
    forall p :: Waiting(ts, p) ==> ts[p].nb > 0 && !ts[p].running
  }

  /** What holds whatever ptracers do. */
  ghost predicate Sound(ts: Table, zs: seq<Zombie>) {
    Counted(ts, zs) && Linked(ts, zs) && Asleep(ts)
  }

  /** A ptracee with an event for its ptracer is stopped. */
  ghost predicate HeldStopped(ts: Table) {
    forall q :: q in ts ==> Still(ts[q])
  }

  ghost predicate Still(t: Tracee) {
    Held(t) ==> !t.running
  }

  /** No wakeup is lost: no ptracer waits for a ptracee, dead or alive, whose event is kept for it. */
  ghost predicate Awake(ts: Table, zs: seq<Zombie>) {
    && (forall p, q :: Traces(ts, p, q) && ts[q].pending ==> !Waits(ts, p, q, ts[q].clone))
    && (forall i :: 0 <= i < |zs| ==> !Waits(ts, zs[i].ptracer, zs[i].pid, zs[i].clone))
  }

  // ---------------------------------------------------------------- attach and detach

  /** `attach_to_ptracer`. */
  function Attached(ts: Table, q: nat, p: nat): Table
    requires q in ts && p in ts && p != q
  {
    ts[q := ts[q].(ptracer := Some(p), pending := false, terminal := false)][p := ts[p].(nb := ts[p].nb + 1)]
  }

  /** `detach_from_ptracer`. */
  function Detached(ts: Table, q: nat, p: nat): Table
    requires q in ts && p in ts && p != q
  {
    ts[q := ts[q].(ptracer := None)][p := ts[p].(nb := Less(ts[p].nb))]
  }

  function Less(n: nat): nat {
    if n > 0 then n - 1 else 0
  }

  lemma AttachCounts(ts: Table, zs: seq<Zombie>, q: nat, p: nat)
    requires Counted(ts, zs) && q in ts && p in ts && p != q && ts[q].ptracer.None?
    ensures Counted(Attached(ts, q, p), zs)
  {
    var ts' := Attached(ts, q, p);
    forall r
      ensures CountOf(ts', zs, r)
    {
      assert CountOf(ts, zs, r);
      if r == p {
        assert Ptracees(ts', p) == Ptracees(ts, p) + {q};
      } else {
        assert Ptracees(ts', r) == Ptracees(ts, r);
      }
    }
  }

  lemma AttachKeeps(ts: Table, zs: seq<Zombie>, q: nat, p: nat)
    requires Sound(ts, zs) && q in ts && p in ts && p != q && ts[q].ptracer.None?
    ensures Sound(Attached(ts, q, p), zs)
  {
    AttachCounts(ts, zs, q, p);
    var ts' := Attached(ts, q, p);
    forall a, b | Traces(ts', a, b)
      ensures a in ts' && a != b
    {
      if b != q {
        assert Traces(ts, a, b);
      }
    }
    forall r | Waiting(ts', r)
      ensures ts'[r].nb > 0 && !ts'[r].running
    {
      assert Waiting(ts, r);
    }
  }

  lemma HasCount(ts: Table, zs: seq<Zombie>, p: nat, q: nat)
    requires Counted(ts, zs) && p in ts && Traces(ts, p, q)
    ensures ts[p].nb > 0
  {
    assert CountOf(ts, zs, p);
    assert q in Ptracees(ts, p);
  }

  lemma DetachCounts(ts: Table, zs: seq<Zombie>, q: nat, p: nat)
    requires Counted(ts, zs) && p in ts && Traces(ts, p, q) && p != q
    ensures ts[p].nb > 0 && Counted(Detached(ts, q, p), zs)
  {
    HasCount(ts, zs, p, q);
    var ts' := Detached(ts, q, p);
    forall r
      ensures CountOf(ts', zs, r)
    {
      assert CountOf(ts, zs, r);
      if r == p {
        assert Ptracees(ts', p) == Ptracees(ts, p) - {q};
      } else {
        assert Ptracees(ts', r) == Ptracees(ts, r);
      }
    }
  }

  /** Detaching keeps everything, as long as the ptracer does not wait. */
  lemma DetachKeeps(ts: Table, zs: seq<Zombie>, q: nat, p: nat)
    requires Sound(ts, zs) && Traces(ts, p, q) && !Waiting(ts, p)
    ensures p in ts && p != q && ts[p].nb > 0 && Sound(Detached(ts, q, p), zs)
  {
    DetachCounts(ts, zs, q, p);
    var ts' := Detached(ts, q, p);
    forall a, b | Traces(ts', a, b)
      ensures a in ts' && a != b
    {
      assert Traces(ts, a, b);
    }
    forall r | Waiting(ts', r)
      ensures ts'[r].nb > 0 && !ts'[r].running
    {
      assert Waiting(ts, r);
    }
  }

  // ---------------------------------------------------------------- changes of one process

  /** Another record for `q` with the same links. */
  ghost predicate SameLinks(t: Tracee, t': Tracee) {
    t'.ptracer == t.ptracer && t'.nb == t.nb && t'.clone == t.clone
  }

  lemma RecordCounts(ts: Table, zs: seq<Zombie>, q: nat, t': Tracee)
    requires Counted(ts, zs) && q in ts && SameLinks(ts[q], t')
    ensures Counted(ts[q := t'], zs)
  {
    var ts' := ts[q := t'];
    forall r
      ensures CountOf(ts', zs, r)
    {
      assert CountOf(ts, zs, r);
      assert Ptracees(ts', r) == Ptracees(ts, r);
    }
  }

  lemma RecordKeeps(ts: Table, zs: seq<Zombie>, q: nat, t': Tracee)
    requires Sound(ts, zs) && q in ts && SameLinks(ts[q], t')
    requires Parked(t') ==> t'.nb > 0 && !t'.running
    ensures Sound(ts[q := t'], zs)
  {
    var ts' := ts[q := t'];
    RecordCounts(ts, zs, q, t');
    forall a, b | Traces(ts', a, b)
      ensures a in ts' && a != b
    {
      assert Traces(ts, a, b);
    }
    forall r | Waiting(ts', r)
      ensures ts'[r].nb > 0 && !ts'[r].running
    {
      assert r != q ==> Waiting(ts, r);
    }
  }

  /** No ptracee of `p` that is stopped, and no zombie, has an event such a wait asks for: what the search can see. */
  ghost predicate NothingSeen(ts: Table, zs: seq<Zombie>, p: nat, waitPid: int, o: Options) {
    && (forall q :: Traces(ts, p, q) && ts[q].pending && !ts[q].running ==> !Matches(waitPid, o, q, ts[q].clone))
    && (forall i :: 0 <= i < |zs| && zs[i].ptracer == p ==> !Matches(waitPid, o, zs[i].pid, zs[i].clone))
  }

  /** A ptracee of `p` that runs although it has an event such a wait asks for. */
  ghost predicate Unseen(ts: Table, p: nat, waitPid: int, o: Options, q: nat) {
    Traces(ts, p, q) && ts[q].pending && ts[q].running && Matches(waitPid, o, q, ts[q].clone)
  }

  // ---------------------------------------------------------------- zombies

  function Without(zs: seq<Zombie>, i: nat): seq<Zombie>
    requires i < |zs|
  {
    zs[..i] + zs[i + 1..]
  }

  lemma {:induction false} ZombieGone(zs: seq<Zombie>, i: nat, p: nat)
    requires i < |zs|
    ensures Zombies(zs, p) == Zombies(Without(zs, i), p) + if zs[i].ptracer == p then 1 else 0
    decreases |zs|
  {
    var n := |zs| - 1;
    if i < n {
      ZombieGone(zs[..n], i, p);
      var rest := Without(zs, i);
      assert rest[..|rest| - 1] == Without(zs[..n], i);
      assert rest[|rest| - 1] == zs[n];
    } else {
      assert Without(zs, i) == zs[..n];
    }
  }

  /** A zombie whose ptracer was told rests in peace. */
  function Buried(ts: Table, p: nat): Table
    requires p in ts
  {
    ts[p := ts[p].(nb := Less(ts[p].nb))]
  }

  lemma ZombieCounted(ts: Table, zs: seq<Zombie>, i: nat)
    requires Counted(ts, zs) && i < |zs| && zs[i].ptracer in ts
    ensures ts[zs[i].ptracer].nb > 0
  {
    assert CountOf(ts, zs, zs[i].ptracer);
    ZombieGone(zs, i, zs[i].ptracer);
  }

  lemma BuryKeeps(ts: Table, zs: seq<Zombie>, i: nat)
    requires Sound(ts, zs) && i < |zs| && !Waiting(ts, zs[i].ptracer)
    ensures ts[zs[i].ptracer].nb > 0 && Sound(Buried(ts, zs[i].ptracer), Without(zs, i))
  {
    var p := zs[i].ptracer;
    ZombieCounted(ts, zs, i);
    var ts', zs' := Buried(ts, p), Without(zs, i);
    forall r
      ensures CountOf(ts', zs', r)
    {
      assert CountOf(ts, zs, r);
      assert Ptracees(ts', r) == Ptracees(ts, r);
      ZombieGone(zs, i, r);
    }
    forall a, b | Traces(ts', a, b)
      ensures a in ts' && a != b
    {
      assert Traces(ts, a, b);
    }
    forall r | Waiting(ts', r)
      ensures ts'[r].nb > 0 && !ts'[r].running
    {
      assert Waiting(ts, r);
    }
    forall j | 0 <= j < |zs'|
      ensures zs'[j].ptracer in ts'
    {
      assert zs'[j] == zs[if j < i then j else j + 1];
    }
  }

  /** A dead ptracee becomes a zombie of its ptracer. */
  lemma ZombifyKeeps(ts: Table, zs: seq<Zombie>, p: nat, q: nat)
    requires Sound(ts, zs) && Traces(ts, p, q)
    ensures Sound(ts[q := ts[q].(ptracer := None)], zs + [Zombie(q, p, ts[q].parent, ts[q].clone)])
  {
    var z := Zombie(q, p, ts[q].parent, ts[q].clone);
    var ts', zs' := ts[q := ts[q].(ptracer := None)], zs + [z];
    assert zs'[..|zs|] == zs;
    forall r
      ensures CountOf(ts', zs', r)
    {
      assert CountOf(ts, zs, r);
      if r == p {
        assert Ptracees(ts', p) == Ptracees(ts, p) - {q};
      } else {
        assert Ptracees(ts', r) == Ptracees(ts, r);
      }
    }
    forall a, b | Traces(ts', a, b)
      ensures a in ts' && a != b
    {
      assert Traces(ts, a, b);
    }
    forall r | Waiting(ts', r)
      ensures ts'[r].nb > 0 && !ts'[r].running
    {
      assert Waiting(ts, r);
    }
  }

  // ---------------------------------------------------------------- the end of a process

  /** Its ptracees are free again, and run if they were kept stopped; its children are orphans. */
  function FreeOf(t: Tracee, q: nat): Tracee {
    var t1 := if t.parent == Some(q) then t.(parent := None) else t;
    if t.ptracer == Some(q) then
      t1.(ptracer := None, pending := false, terminal := false, running := t.running || (t.pending && !Parked(t)))
    else t1
  }

  function Released(ts: Table, q: nat): (r: Table)
    requires q in ts
    ensures r.Keys == ts.Keys
  {
    map r | r in ts :: if r == q then ts[q].(nb := 0, waitPid := 0) else FreeOf(ts[r], q)
  }

  function Forget(zs: seq<Zombie>, q: nat): seq<Zombie> {
    if zs == [] then []
    else Forget(zs[..|zs| - 1], q) + if zs[|zs| - 1].ptracer == q then [] else [zs[|zs| - 1]]
  }

  lemma {:induction false} Forgotten(zs: seq<Zombie>, q: nat, p: nat)
    ensures Zombies(Forget(zs, q), p) == if p == q then 0 else Zombies(zs, p)
    decreases |zs|
  {
    if zs != [] {
      var n := |zs| - 1;
      Forgotten(zs[..n], q, p);
      var before := Forget(zs[..n], q);
      if zs[n].ptracer != q {
        assert Forget(zs, q)[..|before|] == before;
      } else {
        assert Forget(zs, q) == before;
      }
    }
  }

  lemma {:induction false} Remembered(zs: seq<Zombie>, q: nat, j: nat) returns (k: nat)
    requires j < |Forget(zs, q)|
    ensures k < |zs| && zs[k] == Forget(zs, q)[j] && zs[k].ptracer != q
    decreases |zs|
  {
    var n := |zs| - 1;
    var before := Forget(zs[..n], q);
    if j < |before| {
      k := Remembered(zs[..n], q, j);
    } else {
      k := n;
    }
  }

  lemma ReleaseCounts(ts: Table, zs: seq<Zombie>, q: nat)
    requires Sound(ts, zs) && q in ts
    ensures Counted(Released(ts, q), Forget(zs, q))
  {
    var ts', zs' := Released(ts, q), Forget(zs, q);
    forall r
      ensures CountOf(ts', zs', r)
    {
      assert CountOf(ts, zs, r);
      Forgotten(zs, q, r);
      if r == q {
        assert !Traces(ts, q, q);
        assert Ptracees(ts', q) == {};
      } else {
        assert forall b :: Traces(ts', r, b) <==> Traces(ts, r, b);
        assert Ptracees(ts', r) == Ptracees(ts, r);
      }
    }
  }

  lemma ReleaseKeeps(ts: Table, zs: seq<Zombie>, q: nat)
    requires Sound(ts, zs) && q in ts
    ensures Sound(Released(ts, q), Forget(zs, q))
    ensures forall b :: !Traces(Released(ts, q), q, b)
    ensures forall i :: 0 <= i < |Forget(zs, q)| ==> Forget(zs, q)[i].ptracer != q
  {
    var ts', zs' := Released(ts, q), Forget(zs, q);
    ReleaseCounts(ts, zs, q);
    forall a, b | Traces(ts', a, b)
      ensures a != q && a in ts' && a != b
    {
      assert Traces(ts, a, b);
    }
    forall r | Waiting(ts', r)
      ensures ts'[r].nb > 0 && !ts'[r].running
    {
      assert Waiting(ts, r);
    }
    forall j | 0 <= j < |zs'|
      ensures zs'[j].ptracer != q && zs'[j].ptracer in ts'
    {
      var k := Remembered(zs, q, j);
    }
  }

  lemma DeleteKeeps(ts: Table, zs: seq<Zombie>, q: nat)
    requires Sound(ts, zs) && q in ts && ts[q].ptracer.None?
    requires forall b :: !Traces(ts, q, b)
    requires forall i :: 0 <= i < |zs| ==> zs[i].ptracer != q
    ensures Sound(ts - {q}, zs)
  {
    var ts' := ts - {q};
    forall r
      ensures CountOf(ts', zs, r)
    {
      assert CountOf(ts, zs, r);
      assert Ptracees(ts', r) == Ptracees(ts, r);
    }
    forall a, b | Traces(ts', a, b)
      ensures a in ts' && a != b
    {
      assert Traces(ts, a, b);
    }
    forall r | Waiting(ts', r)
      ensures ts'[r].nb > 0 && !ts'[r].running
    {
      assert Waiting(ts, r);
    }
  }

  lemma {:induction false} NoZombies(zs: seq<Zombie>, q: nat)
    requires forall i :: 0 <= i < |zs| ==> zs[i].ptracer != q
    ensures Zombies(zs, q) == 0
  {
    if zs != [] {
      NoZombies(zs[..|zs| - 1], q);
    }
  }

  lemma AddKeeps(ts: Table, zs: seq<Zombie>, q: nat, t: Tracee)
    requires Sound(ts, zs) && q !in ts && t.ptracer.None? && t.nb == 0 && !Parked(t)
    ensures Sound(ts[q := t], zs)
  {
    var ts' := ts[q := t];
    forall r
      ensures CountOf(ts', zs, r)
    {
      assert CountOf(ts, zs, r);
      if r == q {
        forall b
          ensures !Traces(ts', q, b)
        {
          assert !Traces(ts, q, b);
        }
        assert Ptracees(ts', q) == {};
        NoZombies(zs, q);
      } else {
        assert Ptracees(ts', r) == Ptracees(ts, r);
      }
    }
    forall a, b | Traces(ts', a, b)
      ensures a in ts' && a != b
    {
      assert Traces(ts, a, b);
    }
    forall r | Waiting(ts', r)
      ensures ts'[r].nb > 0 && !ts'[r].running
    {
      assert Waiting(ts, r);
    }
  }

  // ---------------------------------------------------------------- the emulation as the source runs it

  datatype Found = Nobody | Dead(index: nat) | Alive(pid: nat)

  datatype WaitResult = Status(pid: nat) | Fault | NoChild | NotYet | Waiting | InKernel

  /** What telling a ptracer about `found` changes: nothing if its memory cannot be written; a dead child is left to the
      kernel to report; a zombie goes; the event of a live ptracee is no longer pending. */
  function Told(ts: Table, zs: seq<Zombie>, p: nat, found: Found, fault: bool): (Table, seq<Zombie>, WaitResult)
    requires p in ts && (found.Dead? ==> found.index < |zs|) && (found.Alive? ==> found.pid in ts && found.pid != p)
  {
    match found
    case Nobody => (ts, zs, NoChild)
    case Dead(i) =>
      if zs[i].parent == Some(p) then (Buried(ts, p), Without(zs, i), InKernel)
      else if fault then (ts, zs, Fault)
      else (Buried(ts, p), Without(zs, i), Status(zs[i].pid))
    case Alive(q) =>
      if ts[q].terminal && ts[q].parent == Some(p) then (Detached(ts, q, p), zs, InKernel)
      else if fault then (ts, zs, Fault)
      else (ts[q := ts[q].(pending := false)], zs, Status(q))
  }

  /** The ptracee found has ended and is a child of its ptracer, whom the kernel tells. */
  ghost predicate EndedChild(ts: Table, zs: seq<Zombie>, p: nat, found: Found) {
    match found
    case Nobody => false
    case Dead(i) => i < |zs| && zs[i].parent == Some(p)
    case Alive(q) => q in ts && ts[q].terminal && ts[q].parent == Some(p)
  }

  /** One ptracee fewer to count, and nobody else changed. */
  ghost predicate OneFewer(ts: Table, ts': Table, p: nat, but: set<nat>) {
    && ts'.Keys == ts.Keys && p in ts && ts[p].nb > 0 && ts'[p] == ts[p].(nb := ts[p].nb - 1)
    && forall x :: x in ts && x != p && x !in but ==> ts'[x] == ts[x]
  }

  /** The event of a live ptracee that such a wait asks for. */
  ghost predicate LiveEvent(ts: Table, p: nat, pid: int, o: Options, q: nat) {
    Traces(ts, p, q) && p != q && ts[q].pending && !ts[q].running && (pid == -1 || pid == q) && (o.wall || o.wclone == ts[q].clone)
  }

  ghost predicate DeadEvent(zs: seq<Zombie>, p: nat, pid: int, o: Options, i: nat) {
    i < |zs| && zs[i].ptracer == p && (pid == -1 || pid == zs[i].pid) && (o.wall || o.wclone == zs[i].clone)
  }

  /** That zombie is gone, and no other. */
  ghost predicate Gone(zs: seq<Zombie>, i: nat, zs': seq<Zombie>) {
    i < |zs| && zs' == zs[..i] + zs[i + 1..]
  }

  /** What the answer to a wait means: the process it names is a ptracee of the caller, it is one of those asked for, it
      had an event, and this event and no other is gone; a fault changes nothing; the kernel is left to report the end
      of a child; and there is no other answer unless no event can be seen. */
  ghost predicate Answered(ts: Table, zs: seq<Zombie>, ts': Table, zs': seq<Zombie>, p: nat, pid: int, o: Options, r: WaitResult) {
    match r
    case Status(q) =>
      || (LiveEvent(ts, p, pid, o, q) && !(ts[q].terminal && ts[q].parent == Some(p))
          && ts' == ts[q := ts[q].(pending := false)] && zs' == zs)
      || (exists i: nat :: DeadEvent(zs, p, pid, o, i) && Gone(zs, i, zs') && zs[i].pid == q && zs[i].parent != Some(p) && OneFewer(ts, ts', p, {}))
    case Fault => ts' == ts && zs' == zs && !NothingSeen(ts, zs, p, pid, o)
    case InKernel =>
      || (exists q :: LiveEvent(ts, p, pid, o, q) && ts[q].terminal && ts[q].parent == Some(p)
                      && OneFewer(ts, ts', p, {q}) && ts'[q] == ts[q].(ptracer := None) && zs' == zs)
      || (exists i: nat :: DeadEvent(zs, p, pid, o, i) && Gone(zs, i, zs') && zs[i].parent == Some(p) && OneFewer(ts, ts', p, {}))
    case _ => NothingSeen(ts, zs, p, pid, o) && zs' == zs
  }

  /** Telling is answering. */
  lemma ToldAnswers(ts: Table, zs: seq<Zombie>, p: nat, pid: int, o: Options, found: Found, fault: bool)
    requires Sound(ts, zs) && FoundFor(ts, zs, p, pid, o, found)
    ensures var (ts', zs', r) := Told(ts, zs, p, found, fault);
      && Answered(ts, zs, ts', zs', p, pid, o, r)
      && (r == InKernel <==> EndedChild(ts, zs, p, found)) && (r == Fault <==> fault && !EndedChild(ts, zs, p, found))
  {
    SomethingFor(ts, zs, p, pid, o, found);
    var (ts', zs', r) := Told(ts, zs, p, found, fault);
    match found {
      case Alive(q) =>
        assert LiveEvent(ts, p, pid, o, q);
        HasCount(ts, zs, p, q);
        if EndedChild(ts, zs, p, found) {
          assert OneFewer(ts, ts', p, {q});
        }
      case Dead(i) =>
        assert DeadEvent(zs, p, pid, o, i);
        ZombieCounted(ts, zs, i);
        if r != Fault {
          assert Gone(zs, i, zs') && OneFewer(ts, ts', p, {});
        }
    }
  }

  function Woken(ts: Table, p: nat): Table
    requires p in ts
  {
    ts[p := ts[p].(waitPid := 0, running := true)]
  }

  /** An event is kept for the ptracer, who is told and woken at once if it waits for it. */
  function Reported(ts: Table, zs: seq<Zombie>, q: nat, p: nat, terminal: bool, fault: bool): (Table, seq<Zombie>)
    requires q in ts && p in ts && p != q
  {
    var kept := ts[q := ts[q].(pending := true, terminal := terminal)];
    if Parked(ts[p]) && Matches(ts[p].waitPid, ts[p].options, q, ts[q].clone) then
      var told := Told(Woken(kept, p), zs, p, Alive(q), fault);
      (told.0, told.1)
    else (kept, zs)
  }

  function Resumed(ts: Table, q: nat): Table
    requires q in ts
  {
    if Parked(ts[q]) then ts else ts[q := ts[q].(running := true)]
  }

  function NewTracee(parent: Option<nat>, clone: bool): Tracee {
    Tracee(parent, clone, true, None, false, false, 0, 0, Options(false, false, false))
  }

  ghost predicate NoZombie(zs: seq<Zombie>, p: nat, pid: int, o: Options) {
    forall i :: 0 <= i < |zs| && zs[i].ptracer == p ==> !Matches(pid, o, zs[i].pid, zs[i].clone)
  }

  /** What a search for a stopped ptracee accepts. */
  ghost predicate Offers(t: Tracee, onlyPending: bool) {
    !t.running && (onlyPending ==> t.pending)
  }

  const WALL := Options(true, false, false)

  /** A stopped ptracee of `p`, not a dead one, is what a request must name. */
  ghost predicate Stopping(ts: Table, zs: seq<Zombie>, p: nat, pid: int) {
    && pid >= 0 && pid in ts && ts[pid].ptracer == Some(p) && !ts[pid].running
    && NoZombie(zs, p, pid, WALL)
  }

  /** Without its last ptracee, a waiting ptracer is woken. */
  function Left(ts: Table, q: nat, p: nat): Table
    requires q in ts && p in ts && p != q
  {
    var left := Detached(ts, q, p);
    if left[p].nb == 0 && Parked(left[p]) then Woken(left, p) else left
  }

  predicate Dies(t: Tracee) {
    t.pending && t.terminal
  }

  /** The end of a process. */
  function Ended(ts: Table, zs: seq<Zombie>, q: nat): (Table, seq<Zombie>)
    requires q in ts
  {
    Departed(Released(ts, q), Forget(zs, q), q)
  }

  /** The end of a process that has no ptracees. */
  function Departed(ts: Table, zs: seq<Zombie>, q: nat): (Table, seq<Zombie>)
    requires q in ts
  {
    var t := ts[q];
    if t.ptracer.Some? && t.ptracer.value in ts && t.ptracer.value != q then
      if Dies(t) then (ts - {q}, zs + [Zombie(q, t.ptracer.value, t.parent, t.clone)])
      else (Left(ts, q, t.ptracer.value) - {q}, zs)
    else (ts - {q}, zs)
  }

  /** Its end would wake a ptracer that is itself kept stopped. */
  predicate WakesHeld(ts: Table, q: nat)
    requires q in ts
  {
    ts[q].ptracer.Some? && !Dies(ts[q]) && ts[q].ptracer.value in ts && LastOf(ts[ts[q].ptracer.value])
  }

  predicate LastOf(t: Tracee) {
    t.nb == 1 && Parked(t) && Held(t)
  }

  /** `order` is the list of tracees, newest first; the zombies of a ptracer are searched newest first. */
  class Emulation {
    var ts: Table
    var order: seq<nat>
    var zs: seq<Zombie>

    ghost predicate Valid()
      reads this
    {
      Sound(ts, zs) && forall q :: q in order <==> q in ts
    }

    constructor (first: nat)
      ensures Valid() && ts == map[first := NewTracee(None, false)] && zs == []
    {
      ts := map[first := NewTracee(None, false)];
      order := [first];
      zs := [];
      new;
      assert Sound(map[], []);
      AddKeeps(map[], [], first, ts[first]);
      assert map[][first := ts[first]] == ts;
    }

    /** `get_stopped_ptracee`: a miss means there is none. */
    method GetStopped(p: nat, pid: int, onlyPending: bool, o: Options) returns (found: Found)
      requires Valid() && p in ts
      ensures found.Dead? ==> found.index < |zs| && zs[found.index].ptracer == p
      ensures found.Dead? ==> Matches(pid, o, zs[found.index].pid, zs[found.index].clone)
      ensures found.Alive? ==> Traces(ts, p, found.pid) && !ts[found.pid].running && (onlyPending ==> ts[found.pid].pending)
      ensures found.Alive? ==> Matches(pid, o, found.pid, ts[found.pid].clone) && found.pid != p
      ensures found.Nobody? && onlyPending ==> NothingSeen(ts, zs, p, pid, o)
      ensures !found.Dead? ==> NoZombie(zs, p, pid, o)
      ensures found.Nobody? && !onlyPending ==> forall q :: Traces(ts, p, q) && !ts[q].running ==> !Matches(pid, o, q, ts[q].clone)
    {
      var i := |zs|;
      while i > 0
        invariant 0 <= i <= |zs|
        invariant forall j :: i <= j < |zs| && zs[j].ptracer == p ==> !Matches(pid, o, zs[j].pid, zs[j].clone)
      {
        i := i - 1;
        if zs[i].ptracer == p && (pid == -1 || pid == zs[i].pid) && ExpectedClone(o, zs[i].clone) {
          return Dead(i);
        }
      }
      for k := 0 to |order|
        invariant forall j :: 0 <= j < k && Traces(ts, p, order[j]) && Offers(ts[order[j]], onlyPending) ==>
          !Matches(pid, o, order[j], ts[order[j]].clone)
      {
        var q := order[k];
        assert q in order;
        var t := ts[q];
        if t.ptracer == Some(p) && (pid == -1 || pid == q) && ExpectedClone(o, t.clone) && !t.running {
          if t.pending || !onlyPending {
            assert Traces(ts, p, q);
            return Alive(q);
          }
          if pid == q {
            SearchDone(ts, order, p, pid, o, q);
            return Nobody;
          }
        }
      }
      forall q | Traces(ts, p, q) && Offers(ts[q], onlyPending)
        ensures !Matches(pid, o, q, ts[q].clone)
      {
        assert q in order;
        var j :| 0 <= j < |order| && order[j] == q;
      }
      found := Nobody;
    }

    /** `has_ptracees`, once no zombie matches. */
    method HasPtracees(p: nat, pid: int, o: Options) returns (has: bool)
      requires Valid() && p in ts
      ensures has <==> exists q :: Traces(ts, p, q) && Matches(pid, o, q, ts[q].clone)
    {
      for k := 0 to |order|
        invariant forall j :: 0 <= j < k && Traces(ts, p, order[j]) ==> !Matches(pid, o, order[j], ts[order[j]].clone)
      {
        var q := order[k];
        assert q in order;
        if ts[q].ptracer == Some(p) && Matches(pid, o, q, ts[q].clone) {
          assert Traces(ts, p, q);
          return true;
        }
      }
      forall q | Traces(ts, p, q)
        ensures !Matches(pid, o, q, ts[q].clone)
      {
        assert q in order;
        var j :| 0 <= j < |order| && order[j] == q;
      }
      return false;
    }

    /** `update_wait_status`: the ptracer is told, or, if it is also the parent of a dead ptracee, sent to wait for it
        in the kernel; a zombie goes once told. */
    method UpdateWaitStatus(p: nat, found: Found, fault: bool) returns (r: WaitResult)
      requires Valid() && p in ts && !Parked(ts[p]) && !found.Nobody?
      requires found.Dead? ==> found.index < |zs| && zs[found.index].ptracer == p
      requires found.Alive? ==> Traces(ts, p, found.pid) && ts[found.pid].pending && found.pid != p
      modifies this`ts, this`zs
      ensures Valid() && ts.Keys == old(ts.Keys)
      ensures (ts, zs, r) == Told(old(ts), old(zs), p, found, fault)
      ensures r.Status? ==> r.pid == match found case Dead(i) => old(zs)[i].pid case Alive(q) => q case Nobody => 0
      ensures r == InKernel <==> EndedChild(old(ts), old(zs), p, found)
      ensures r == Fault <==> fault && !EndedChild(old(ts), old(zs), p, found)
    {
      if found.Dead? {
        var z := zs[found.index];
        if z.parent != Some(p) && fault {
          return Fault;
        }
        BuryKeeps(ts, zs, found.index);
        ts, zs := Buried(ts, p), Without(zs, found.index);
        return if z.parent == Some(p) then InKernel else Status(z.pid);
      }
      var q := found.pid;
      if ts[q].terminal && ts[q].parent == Some(p) {
        DetachKeeps(ts, zs, q, p);
        ts := Detached(ts, q, p);
        return InKernel;
      }
      if fault {
        return Fault;
      }
      RecordKeeps(ts, zs, q, ts[q].(pending := false));
      ts := ts[q := ts[q].(pending := false)];
      return Status(q);
    }

    /** `translate_wait_exit`: a ptracer waits only when there is no event for it. */
    method WaitExit(p: nat, pid: int, o: Options, fault: bool) returns (r: WaitResult, ghost found: Found)
      requires Valid() && p in ts && !ts[p].running && !Parked(ts[p])
      modifies this`ts, this`zs
      ensures Valid() && ts.Keys == old(ts.Keys)
      ensures found.Nobody? <==> NothingSeen(old(ts), old(zs), p, pid, o)
      ensures found.Nobody? ==> zs == old(zs)
      ensures found.Nobody? && old(ts[p]).nb > 0 && !o.nohang ==>
        r == Waiting && ts == old(ts)[p := old(ts[p]).(waitPid := pid, options := o)]
      ensures found.Nobody? && (old(ts[p]).nb == 0 || o.nohang) ==> ts == old(ts) && (r == NotYet || r == NoChild)
      ensures found.Nobody? && old(ts[p]).nb == 0 ==> r == NoChild
      ensures found.Nobody? && old(ts[p]).nb > 0 && o.nohang ==>
        (r == NotYet <==> exists q :: Traces(old(ts), p, q) && Matches(pid, o, q, old(ts)[q].clone))
      ensures !found.Nobody? ==> FoundFor(old(ts), old(zs), p, pid, o, found) && (ts, zs, r) == Told(old(ts), old(zs), p, found, fault)
      ensures Answered(old(ts), old(zs), ts, zs, p, pid, o, r)
      ensures !found.Nobody? ==> (r == InKernel <==> EndedChild(old(ts), old(zs), p, found))
      ensures !found.Nobody? ==> (r == Fault <==> fault && !EndedChild(old(ts), old(zs), p, found))
    {
      var seen := GetStopped(p, pid, true, o);
      found := seen;
      SomethingFor(ts, zs, p, pid, o, seen);
      if seen.Nobody? {
        if ts[p].nb == 0 {
          return NoChild, found;
        }
        if o.nohang {
          var has := HasPtracees(p, pid, o);
          return if has then NotYet else NoChild, found;
        }
        RecordKeeps(ts, zs, p, ts[p].(waitPid := pid, options := o));
        ts := ts[p := ts[p].(waitPid := pid, options := o)];
        return Waiting, found;
      }
      ToldAnswers(ts, zs, p, pid, o, seen, fault);
      r := UpdateWaitStatus(p, seen, fault);
    }

    /** A process stops. */
    method Stop(q: nat)
      requires Valid() && q in ts
      modifies this`ts
      ensures Valid() && ts == old(ts)[q := old(ts[q]).(running := false)]
    {
      RecordKeeps(ts, zs, q, ts[q].(running := false));
      ts := ts[q := ts[q].(running := false)];
    }

    /** `restart_tracee`: not while it waits for a ptracee. */
    method Restart(q: nat)
      requires Valid() && q in ts
      modifies this`ts
      ensures Valid() && ts == Resumed(old(ts), q)
    {
      if !Parked(ts[q]) {
        RecordKeeps(ts, zs, q, ts[q].(running := true));
        ts := ts[q := ts[q].(running := true)];
      }
    }

    /** `handle_ptracee_event`, for an event the ptracer is to see: it is kept for the ptracer, who is told and woken at
        once if it waits for it. */
    method Report(q: nat, terminal: bool, fault: bool)
      requires Valid() && q in ts && !ts[q].running && ts[q].ptracer.Some?
      modifies this`ts, this`zs
      ensures Valid() && old(ts[q].ptracer.value) in old(ts) && old(ts[q].ptracer.value) != q
      ensures (ts, zs) == Reported(old(ts), old(zs), q, old(ts[q].ptracer.value), terminal, fault)
    {
      var p := ts[q].ptracer.value;
      assert Traces(ts, p, q);
      ghost var kept := ts[q := ts[q].(pending := true, terminal := terminal)];
      var waited := Parked(ts[p]) && Matches(ts[p].waitPid, ts[p].options, q, ts[q].clone);
      if waited {
        RecordKeeps(ts, zs, p, ts[p].(waitPid := 0, running := true));
        ts := Woken(ts, p);
      }
      RecordKeeps(ts, zs, q, ts[q].(pending := true, terminal := terminal));
      ts := ts[q := ts[q].(pending := true, terminal := terminal)];
      if waited {
        assert ts == Woken(kept, p);
        assert Traces(ts, p, q);
        var told := UpdateWaitStatus(p, Alive(q), fault);
      }
    }

    /** The requests that restart a ptracee, PTRACE_CONT and the like: only a live one, stopped, of this ptracer. */
    method Continue(p: nat, pid: int) returns (ok: bool)
      requires Valid() && p in ts && !Parked(ts[p])
      modifies this`ts
      ensures Valid()
      ensures ok <==> Stopping(old(ts), old(zs), p, pid)
      ensures ts == if ok then Resumed(old(ts), pid) else old(ts)
    {
      var found := GetStopped(p, pid, false, WALL);
      if !found.Alive? || pid == -1 {
        assert pid >= 0 && pid in ts ==> (Traces(ts, p, pid) <==> ts[pid].ptracer == Some(p));
        return false;
      }
      Restart(found.pid);
      return true;
    }

    /** PTRACE_DETACH. */
    method Detach(p: nat, pid: int) returns (ok: bool)
      requires Valid() && p in ts && !Parked(ts[p])
      modifies this`ts
      ensures Valid()
      ensures ok <==> Stopping(old(ts), old(zs), p, pid)
      ensures ok ==> pid != p
      ensures ts == if ok then Resumed(Detached(old(ts), pid, p), pid) else old(ts)
      ensures ok ==> ts[pid].ptracer == None && (ts[pid].running <==> !Parked(old(ts[pid]))) && OneFewer(old(ts), ts, p, {pid})
    {
      var found := GetStopped(p, pid, false, WALL);
      if !found.Alive? || pid == -1 {
        assert pid >= 0 && pid in ts ==> (Traces(ts, p, pid) <==> ts[pid].ptracer == Some(p));
        return false;
      }
      DetachKeeps(ts, zs, found.pid, p);
      ts := Detached(ts, found.pid, p);
      Restart(found.pid);
      return true;
    }

    /** PTRACE_TRACEME by `q`, or PTRACE_ATTACH to `q`: one ptracer at most, and never oneself. */
    method Attach(q: nat, p: nat) returns (ok: bool)
      requires Valid() && q in ts && p in ts
      modifies this`ts
      ensures Valid()
      ensures ok <==> old(ts[q]).ptracer.None? && p != q
      ensures ts == if ok then Attached(old(ts), q, p) else old(ts)
      ensures ok ==> ts[q] == old(ts[q]).(ptracer := Some(p), pending := false, terminal := false) && ts[p].nb == old(ts[p]).nb + 1
    {
      if ts[q].ptracer.Some? || q == p {
        return false;
      }
      AttachKeeps(ts, zs, q, p);
      ts := Attached(ts, q, p);
      return true;
    }

    /** `new_child`, which the ptracer of the parent may follow. */
    method Fork(parent: nat, child: nat, clone: bool, sibling: bool, traced: bool)
      requires Valid() && parent in ts && child !in ts
      modifies this`ts, this`order
      ensures Valid() && order == [child] + old(order)
      ensures var born := old(ts)[child := NewTracee(if sibling then old(ts[parent]).parent else Some(parent), clone)];
        var p := old(ts[parent]).ptracer;
        if traced && p.Some? then p.value in born && p.value != child && ts == Attached(born, child, p.value) else ts == born
      ensures ts[child].clone == clone && ts[child].running && !ts[child].pending && !Parked(ts[child]) && ts[child].nb == 0
      ensures ts[child].parent == (if sibling then old(ts[parent]).parent else Some(parent))
      ensures ts[child].ptracer == (if traced then old(ts[parent]).ptracer else None)
    {
      var t := NewTracee(if sibling then ts[parent].parent else Some(parent), clone);
      AddKeeps(ts, zs, child, t);
      ghost var before := ts;
      ts, order := ts[child := t], [child] + order;
      if traced && ts[parent].ptracer.Some? {
        var p := ts[parent].ptracer.value;
        assert Traces(before, p, parent);
        var ok := Attach(child, p);
      }
    }

    /** `remove_tracee`: its ptracees are released, and its own ptracer keeps it as a zombie until told, or is woken
        when nothing is left to wait for. */
    method Remove(q: nat)
      requires Valid() && q in ts
      modifies this
      ensures Valid() && (ts, zs) == Ended(old(ts), old(zs), q)
    {
      ReleaseAll(q);
      Depart(q);
    }

    method Depart(q: nat)
      requires Valid() && q in ts
      requires forall b :: !Traces(ts, q, b)
      requires forall i :: 0 <= i < |zs| ==> zs[i].ptracer != q
      modifies this
      ensures Valid() && (ts, zs) == Departed(old(ts), old(zs), q)
    {
      var t := ts[q];
      if t.ptracer.Some? {
        var p := t.ptracer.value;
        assert Traces(ts, p, q);
        if Dies(t) {
          ZombifyKeeps(ts, zs, p, q);
          ts, zs := ts[q := t.(ptracer := None)], zs + [Zombie(q, p, t.parent, t.clone)];
          assert ts - {q} == old(ts) - {q};
          forall b
            ensures !Traces(ts, q, b)
          {
            assert !Traces(old(ts), q, b);
          }
        } else {
          LeavePtracer(q, p);
        }
      }
      DeleteKeeps(ts, zs, q);
      ts, order := ts - {q}, Others(order, q);
    }

    method LeavePtracer(q: nat, p: nat)
      requires Valid() && Traces(ts, p, q) && p in ts && forall b :: !Traces(ts, q, b)
      modifies this`ts
      ensures Valid() && p != q && ts == Left(old(ts), q, p) && forall b :: !Traces(ts, q, b)
    {
      DetachEnds(ts, zs, q, p);
      ts := Detached(ts, q, p);
      if ts[p].nb == 0 && Parked(ts[p]) {
        ts := Woken(ts, p);
      }
      forall b
        ensures !Traces(ts, q, b)
      {
        assert !Traces(old(ts), q, b);
      }
    }

    method ReleaseAll(q: nat)
      requires Valid() && q in ts
      modifies this`ts, this`zs
      ensures Valid() && ts == Released(old(ts), q) && zs == Forget(old(zs), q)
      ensures forall b :: !Traces(ts, q, b)
      ensures forall i :: 0 <= i < |zs| ==> zs[i].ptracer != q
    {
      ReleaseKeeps(ts, zs, q);
      FreeRelatives(q);
      zs := Forget(zs, q);
    }

    /** The loop over the relatives of `q`; the record of `q` itself is freed with its counters. */
    method FreeRelatives(q: nat)
      requires q in ts && forall r :: r in order <==> r in ts
      modifies this`ts
      ensures ts == Released(old(ts), q)
    {
      ghost var before := ts;
      for k := 0 to |order|
        invariant ts.Keys == before.Keys && ts[q] == before[q]
        invariant forall r :: r in before && r != q ==> ts[r] == if r in order[..k] then FreeOf(before[r], q) else before[r]
      {
        var r := order[k];
        assert r in order;
        assert order[..k + 1] == order[..k] + [r];
        if r != q {
          ts := ts[r := FreeOf(ts[r], q)];
        }
      }
      assert order[..|order|] == order;
      ts := ts[q := ts[q].(nb := 0, waitPid := 0)];
    }
  }

  function Others(order: seq<nat>, q: nat): (r: seq<nat>)
    ensures forall x :: x in r <==> x in order && x != q
  {
    if order == [] then []
    else
      assert order == [order[0]] + order[1..];
      (if order[0] == q then [] else [order[0]]) + Others(order[1..], q)
  }

  /** The last ptracee leaves: a waiting ptracer is woken, so that it does not wait for nothing. */
  lemma DetachEnds(ts: Table, zs: seq<Zombie>, q: nat, p: nat)
    requires Sound(ts, zs) && Traces(ts, p, q) && p in ts
    ensures p != q && ts[p].nb > 0 && Sound(Left(ts, q, p), zs)
  {
    DetachCounts(ts, zs, q, p);
    var ts' := Left(ts, q, p);
    assert Counted(ts', zs) by {
      if ts' != Detached(ts, q, p) {
        RecordCounts(Detached(ts, q, p), zs, p, ts'[p]);
      }
    }
    forall a, b | Traces(ts', a, b)
      ensures a in ts' && a != b
    {
      assert Traces(ts, a, b);
    }
    forall r | Waiting(ts', r)
      ensures ts'[r].nb > 0 && !ts'[r].running
    {
      assert Waiting(ts, r);
    }
  }

  ghost predicate FoundFor(ts: Table, zs: seq<Zombie>, p: nat, pid: int, o: Options, found: Found) {
    match found
    case Nobody => false
    case Dead(i) => p in ts && i < |zs| && zs[i].ptracer == p && Matches(pid, o, zs[i].pid, zs[i].clone)
    case Alive(q) => p in ts && q != p && Traces(ts, p, q) && ts[q].pending && !ts[q].running && Matches(pid, o, q, ts[q].clone)
  }

  lemma SomethingFor(ts: Table, zs: seq<Zombie>, p: nat, pid: int, o: Options, found: Found)
    ensures FoundFor(ts, zs, p, pid, o, found) ==> !NothingSeen(ts, zs, p, pid, o)
  {
  }

  lemma SearchDone(ts: Table, order: seq<nat>, p: nat, pid: int, o: Options, q: nat)
    requires q in ts && !ts[q].pending && pid == q
    ensures forall r :: Traces(ts, p, r) && ts[r].pending ==> !Matches(pid, o, r, ts[r].clone)
  {
  }

  // ---------------------------------------------------------------- whole runs

  /** What can happen next: a process stops or is let go, or one that stopped has its request handled. */
  datatype Step =
    | Stops(q: nat)
    | Goes(q: nat)
    | Reports(q: nat, terminal: bool, fault: bool)
    | WaitsFor(p: nat, pid: int, options: Options, fault: bool)
    | Continues(p: nat, pid: int)
    | Detaches(p: nat, pid: int)
    | Attaches(q: nat, p: nat)
    | Forks(parent: nat, child: nat, clone: bool, sibling: bool, traced: bool)
    | Ends(q: nat)

  /** What the kernel guarantees: those who report or ask for something are stopped, and one that waits asks for
      nothing else. */
  predicate Possible(ts: Table, step: Step) {
    match step
    case Stops(q) => q in ts && ts[q].running
    case Goes(q) => q in ts && !ts[q].running
    case Reports(q, _, _) => q in ts && !ts[q].running && ts[q].ptracer.Some?
    case WaitsFor(p, _, _, _) => p in ts && !ts[p].running && !Parked(ts[p])
    case Continues(p, _) => p in ts && !Parked(ts[p])
    case Detaches(p, _) => p in ts && !Parked(ts[p])
    case Attaches(q, p) => q in ts && p in ts
    case Forks(parent, child, _, _, _) => parent in ts && child !in ts
    case Ends(q) => q in ts
  }

  /** What a step does to the tracees and the zombies. */
  ghost predicate Moves(ts: Table, zs: seq<Zombie>, step: Step, ts': Table, zs': seq<Zombie>)
    requires Possible(ts, step)
  {
    match step
    case Stops(q) => ts' == ts[q := ts[q].(running := false)] && zs' == zs
    case Goes(q) => ts' == Resumed(ts, q) && zs' == zs
    case Reports(q, terminal, fault) =>
      var p := ts[q].ptracer.value;
      p in ts && p != q && (ts', zs') == Reported(ts, zs, q, p, terminal, fault)
    case WaitsFor(p, pid, o, fault) =>
      if NothingSeen(ts, zs, p, pid, o) then
        zs' == zs && ts' == if ts[p].nb > 0 && !o.nohang then ts[p := ts[p].(waitPid := pid, options := o)] else ts
      else
        exists found :: FoundFor(ts, zs, p, pid, o, found) && ts' == Told(ts, zs, p, found, fault).0 && zs' == Told(ts, zs, p, found, fault).1
    case Continues(p, pid) => zs' == zs && ts' == if Stopping(ts, zs, p, pid) then Resumed(ts, pid) else ts
    case Detaches(p, pid) => zs' == zs && ts' == if Stopping(ts, zs, p, pid) && pid != p then Resumed(Detached(ts, pid, p), pid) else ts
    case Attaches(q, p) => zs' == zs && ts' == if ts[q].ptracer.None? && p != q then Attached(ts, q, p) else ts
    case Forks(parent, child, clone, sibling, traced) =>
      var born, p := ts[child := NewTracee(if sibling then ts[parent].parent else Some(parent), clone)], ts[parent].ptracer;
      zs' == zs && if traced && p.Some? then p.value in born && p.value != child && ts' == Attached(born, child, p.value) else ts' == born
    case Ends(q) => (ts', zs') == Ended(ts, zs, q)
  }

  method Perform(e: Emulation, step: Step)
    requires e.Valid() && Possible(e.ts, step)
    modifies e
    ensures e.Valid() && Moves(old(e.ts), old(e.zs), step, e.ts, e.zs)
  {
    match step {
      case Stops(q) => e.Stop(q);
      case Goes(q) => e.Restart(q);
      case Reports(q, terminal, fault) => e.Report(q, terminal, fault);
      case WaitsFor(p, pid, options, fault) => var r, found := e.WaitExit(p, pid, options, fault);
      case Continues(p, pid) => var ok := e.Continue(p, pid);
      case Detaches(p, pid) => var ok := e.Detach(p, pid);
      case Attaches(q, p) => var ok := e.Attach(q, p);
      case Forks(parent, child, clone, sibling, traced) => e.Fork(parent, child, clone, sibling, traced);
      case Ends(q) => e.Remove(q);
    }
  }

  /** Tables and zombies after each of the steps. */
  ghost predicate History(states: seq<State>, steps: seq<Step>) {
    && |states| == |steps| + 1
    && forall i :: 0 <= i < |steps| ==> Happens(states[i], steps[i], states[i + 1])
  }

  /** What is not possible does not happen. */
  ghost predicate Happens(before: State, step: Step, after: State) {
    if Possible(before.0, step) then Moves(before.0, before.1, step, after.0, after.1) else after == before
  }

  type State = (Table, seq<Zombie>)

  function Initial(first: nat): State {
    (map[first := NewTracee(None, false)], [])
  }

  /** Whatever ptracers and ptracees do, at every moment the counters are exact, each ptracee has one living ptracer, and
      whoever waits is stopped and has something to wait for; and no wakeup is ever lost if and only if no wait overlooks
      an event. */
  method Run(first: nat, steps: seq<Step>) returns (e: Emulation, ghost states: seq<State>)
    ensures fresh(e) && e.Valid()
    ensures History(states, steps) && states[0] == Initial(first) && states[|steps|] == (e.ts, e.zs)
    ensures AllSound(states)
    ensures (forall k :: 0 <= k <= |steps| ==> Awake(states[k].0, states[k].1)) <==> (forall i :: 0 <= i < |steps| ==> !LosesAt(states, steps, i))
  {
    e := new Emulation(first);
    states := [(e.ts, e.zs)];
    for i := 0 to |steps|
      invariant fresh(e) && e.Valid()
      invariant History(states, steps[..i]) && states[0] == Initial(first) && states[i] == (e.ts, e.zs)
      invariant AllSound(states)
    {
      if Possible(e.ts, steps[i]) {
        Perform(e, steps[i]);
      }
      states := states + [(e.ts, e.zs)];
    }
    assert steps[..|steps|] == steps;
    NoneLostExactly(states, steps);
  }

  // ---------------------------------------------------------------- kept stopped

  /** The step lets run a process that is kept stopped for its ptracer: PRoot or the ptracer restarts it before its
      event was told, or it is itself a ptracer and woken. */
  ghost predicate LetsGo(ts: Table, zs: seq<Zombie>, step: Step)
    requires Possible(ts, step)
  {
    match step
    case Goes(q) => Held(ts[q]) && !Parked(ts[q])
    case Continues(p, pid) => Stopping(ts, zs, p, pid) && Held(ts[pid]) && !Parked(ts[pid])
    case Reports(q, _, _) =>
      var p := ts[q].ptracer.value;
      Waits(ts, p, q, ts[q].clone) && Held(ts[p])
    case Ends(q) => WakesHeld(Released(ts, q), q)
    case _ => false
  }

  /** Ptracees with events stay stopped exactly as long as no step lets one go. */
  lemma StoppedExactly(ts: Table, zs: seq<Zombie>, step: Step, ts': Table, zs': seq<Zombie>)
    requires Sound(ts, zs) && HeldStopped(ts) && Possible(ts, step) && Moves(ts, zs, step, ts', zs')
    ensures HeldStopped(ts') <==> !LetsGo(ts, zs, step)
  {
    match step
    case Goes(q) => assert LetsGo(ts, zs, step) ==> !Still(ts'[q]);
    case Continues(p, pid) => assert LetsGo(ts, zs, step) ==> !Still(ts'[pid]);
    case Reports(q, terminal, fault) => ReportStopped(ts, zs, q, ts[q].ptracer.value, terminal, fault);
    case WaitsFor(p, pid, o, fault) =>
      if !NothingSeen(ts, zs, p, pid, o) {
        var found :| FoundFor(ts, zs, p, pid, o, found) && ts' == Told(ts, zs, p, found, fault).0;
        ToldStopped(ts, zs, p, found, fault);
      }
    case Ends(q) => EndStopped(ts, zs, q);
    case _ =>
  }

  lemma ToldStopped(ts: Table, zs: seq<Zombie>, p: nat, found: Found, fault: bool)
    requires HeldStopped(ts) && p in ts && (found.Dead? ==> found.index < |zs|) && (found.Alive? ==> found.pid in ts && found.pid != p)
    ensures HeldStopped(Told(ts, zs, p, found, fault).0)
  {
  }

  lemma ReportStopped(ts: Table, zs: seq<Zombie>, q: nat, p: nat, terminal: bool, fault: bool)
    requires HeldStopped(ts) && q in ts && p in ts && p != q && !ts[q].running
    ensures HeldStopped(Reported(ts, zs, q, p, terminal, fault).0) <==> !(Waits(ts, p, q, ts[q].clone) && Held(ts[p]))
  {
    var kept := ts[q := ts[q].(pending := true, terminal := terminal)];
    if Waits(ts, p, q, ts[q].clone) {
      var ts' := Reported(ts, zs, q, p, terminal, fault).0;
      assert Held(ts'[p]) == Held(ts[p]) && ts'[p].running;
      if !Held(ts[p]) {
        ToldStopped(Woken(kept, p), zs, p, Alive(q), fault);
      }
    }
  }

  lemma EndStopped(ts: Table, zs: seq<Zombie>, q: nat)
    requires Sound(ts, zs) && HeldStopped(ts) && q in ts
    ensures HeldStopped(Ended(ts, zs, q).0) <==> !WakesHeld(Released(ts, q), q)
  {
    ReleaseKeeps(ts, zs, q);
    var r := Released(ts, q);
    assert HeldStopped(r);
    DepartStopped(r, Forget(zs, q), q);
  }

  lemma DepartStopped(ts: Table, zs: seq<Zombie>, q: nat)
    requires Sound(ts, zs) && HeldStopped(ts) && q in ts
    ensures HeldStopped(Departed(ts, zs, q).0) <==> !WakesHeld(ts, q)
  {
    var ts' := Departed(ts, zs, q).0;
    if ts[q].ptracer.Some? {
      var p := ts[q].ptracer.value;
      assert Traces(ts, p, q);
      assert Held(ts'[p]) == Held(ts[p]);
      HasCount(ts, zs, p, q);
      assert forall r :: r in ts' && r != p ==> ts'[r] == ts[r];
    }
  }

  // ---------------------------------------------------------------- no wakeup is lost

  /** A wait that puts the ptracer to sleep although a ptracee, running, has an event it asks for. */
  ghost predicate Overlooks(ts: Table, zs: seq<Zombie>, step: Step) {
    && step.WaitsFor? && step.p in ts && step.pid != 0 && NothingSeen(ts, zs, step.p, step.pid, step.options)
    && ts[step.p].nb > 0 && !step.options.nohang
    && exists q :: Unseen(ts, step.p, step.pid, step.options, q)
  }

  /** Going to sleep loses no wakeup exactly when no ptracee, running or not, has an event the wait asks for. */
  lemma ParkExactly(ts: Table, zs: seq<Zombie>, p: nat, pid: int, o: Options)
    requires Awake(ts, zs) && Linked(ts, zs) && p in ts && pid != 0 && NothingSeen(ts, zs, p, pid, o)
    ensures Awake(ts[p := ts[p].(waitPid := pid, options := o)], zs) <==> forall q :: !Unseen(ts, p, pid, o, q)
  {
    var ts' := ts[p := ts[p].(waitPid := pid, options := o)];
    if q :| Unseen(ts, p, pid, o, q) {
      assert Traces(ts', p, q) && Waits(ts', p, q, ts'[q].clone);
    } else {
      forall a, b | Traces(ts', a, b) && ts'[b].pending
        ensures !Waits(ts', a, b, ts'[b].clone)
      {
        assert Traces(ts, a, b) && !Unseen(ts, p, pid, o, b);
      }
    }
  }

  /** A wakeup is lost exactly at a wait that overlooks an event: every other step keeps whoever waits from sleeping on. */
  lemma AwakeExactly(ts: Table, zs: seq<Zombie>, step: Step, ts': Table, zs': seq<Zombie>)
    requires Sound(ts, zs) && Awake(ts, zs) && Possible(ts, step) && Moves(ts, zs, step, ts', zs')
    ensures Awake(ts', zs') <==> !Overlooks(ts, zs, step)
  {
    match step
    case Stops(q) => SameWaits(ts, zs, q, ts[q].(running := false));
    case Goes(q) => SameWaits(ts, zs, q, ts[q].(running := true));
    case Reports(q, terminal, fault) => ReportAwake(ts, zs, q, ts[q].ptracer.value, terminal, fault);
    case WaitsFor(p, pid, o, fault) => WaitAwake(ts, zs, p, pid, o, fault, ts', zs');
    case Continues(p, pid) =>
      if Stopping(ts, zs, p, pid) {
        SameWaits(ts, zs, pid, ts[pid].(running := true));
      }
    case Detaches(p, pid) =>
      if Stopping(ts, zs, p, pid) && pid != p {
        DetachAwake(ts, zs, pid, p);
        SameWaits(Detached(ts, pid, p), zs, pid, Detached(ts, pid, p)[pid].(running := true));
      }
    case Attaches(q, p) =>
      if ts[q].ptracer.None? && p != q {
        AttachAwake(ts, zs, q, p);
      }
    case Forks(parent, child, clone, sibling, traced) =>
      var born := ts[child := NewTracee(if sibling then ts[parent].parent else Some(parent), clone)];
      BirthAwake(ts, zs, child, born[child]);
      if traced && ts[parent].ptracer.Some? {
        assert Traces(ts, ts[parent].ptracer.value, parent);
        AttachAwake(born, zs, child, ts[parent].ptracer.value);
      }
    case Ends(q) => EndAwake(ts, zs, q);
  }

  /** A record that differs in nothing that matters to waits. */
  lemma SameWaits(ts: Table, zs: seq<Zombie>, q: nat, t': Tracee)
    requires Awake(ts, zs) && q in ts && t'.ptracer == ts[q].ptracer && t'.clone == ts[q].clone
    requires t'.pending ==> ts[q].pending || t'.ptracer.None? || !Waits(ts, t'.ptracer.value, q, t'.clone)
    requires Parked(t') ==> t'.waitPid == ts[q].waitPid && t'.options == ts[q].options
    ensures Awake(ts[q := t'], zs)
  {
    var ts' := ts[q := t'];
    forall a, b | Traces(ts', a, b) && ts'[b].pending
      ensures !Waits(ts', a, b, ts'[b].clone)
    {
      assert Traces(ts, a, b);
    }
    forall i | 0 <= i < |zs|
      ensures !Waits(ts', zs[i].ptracer, zs[i].pid, zs[i].clone)
    {
      assert !Waits(ts, zs[i].ptracer, zs[i].pid, zs[i].clone);
    }
  }

  lemma DetachAwake(ts: Table, zs: seq<Zombie>, q: nat, p: nat)
    requires Awake(ts, zs) && q in ts && p in ts && p != q
    ensures Awake(Detached(ts, q, p), zs)
  {
    var ts' := Detached(ts, q, p);
    forall a, b | Traces(ts', a, b) && ts'[b].pending
      ensures !Waits(ts', a, b, ts'[b].clone)
    {
      assert Traces(ts, a, b);
    }
    forall i | 0 <= i < |zs|
      ensures !Waits(ts', zs[i].ptracer, zs[i].pid, zs[i].clone)
    {
      assert !Waits(ts, zs[i].ptracer, zs[i].pid, zs[i].clone);
    }
  }

  lemma AttachAwake(ts: Table, zs: seq<Zombie>, q: nat, p: nat)
    requires Awake(ts, zs) && q in ts && p in ts && p != q
    ensures Awake(Attached(ts, q, p), zs)
  {
    var ts' := Attached(ts, q, p);
    forall a, b | Traces(ts', a, b) && ts'[b].pending
      ensures !Waits(ts', a, b, ts'[b].clone)
    {
      assert b != q && Traces(ts, a, b);
    }
    forall i | 0 <= i < |zs|
      ensures !Waits(ts', zs[i].ptracer, zs[i].pid, zs[i].clone)
    {
      assert !Waits(ts, zs[i].ptracer, zs[i].pid, zs[i].clone);
    }
  }

  lemma BirthAwake(ts: Table, zs: seq<Zombie>, q: nat, t: Tracee)
    requires Awake(ts, zs) && q !in ts && t.ptracer.None? && !Parked(t)
    ensures Awake(ts[q := t], zs)
  {
    var ts' := ts[q := t];
    forall a, b | Traces(ts', a, b) && ts'[b].pending
      ensures !Waits(ts', a, b, ts'[b].clone)
    {
      assert Traces(ts, a, b);
    }
    forall i | 0 <= i < |zs|
      ensures !Waits(ts', zs[i].ptracer, zs[i].pid, zs[i].clone)
    {
      assert !Waits(ts, zs[i].ptracer, zs[i].pid, zs[i].clone);
    }
  }

  lemma ToldAwake(ts: Table, zs: seq<Zombie>, p: nat, found: Found, fault: bool)
    requires Awake(ts, zs) && p in ts && (found.Dead? ==> found.index < |zs|) && (found.Alive? ==> found.pid in ts && found.pid != p)
    ensures Awake(Told(ts, zs, p, found, fault).0, Told(ts, zs, p, found, fault).1)
  {
    match found
    case Nobody =>
    case Dead(i) => BuryAwake(ts, zs, p, i);
    case Alive(q) =>
      DetachAwake(ts, zs, q, p);
      SameWaits(ts, zs, q, ts[q].(pending := false));
  }

  lemma BuryAwake(ts: Table, zs: seq<Zombie>, p: nat, i: nat)
    requires Awake(ts, zs) && p in ts && i < |zs|
    ensures Awake(Buried(ts, p), Without(zs, i))
  {
    SameWaits(ts, zs, p, Buried(ts, p)[p]);
    forall j | 0 <= j < |zs| - 1
      ensures !Waits(Buried(ts, p), Without(zs, i)[j].ptracer, Without(zs, i)[j].pid, Without(zs, i)[j].clone)
    {
      assert Without(zs, i)[j] == zs[if j < i then j else j + 1];
    }
  }

  lemma ReportAwake(ts: Table, zs: seq<Zombie>, q: nat, p: nat, terminal: bool, fault: bool)
    requires Awake(ts, zs) && Traces(ts, p, q) && p in ts && p != q
    ensures Awake(Reported(ts, zs, q, p, terminal, fault).0, Reported(ts, zs, q, p, terminal, fault).1)
  {
    var t' := ts[q].(pending := true, terminal := terminal);
    if Waits(ts, p, q, ts[q].clone) {
      SameWaits(ts, zs, p, ts[p].(waitPid := 0, running := true));
      SameWaits(Woken(ts, p), zs, q, t');
      assert Woken(ts, p)[q := t'] == Woken(ts[q := t'], p);
      ToldAwake(Woken(ts[q := t'], p), zs, p, Alive(q), fault);
    } else {
      SameWaits(ts, zs, q, t');
    }
  }

  lemma WaitAwake(ts: Table, zs: seq<Zombie>, p: nat, pid: int, o: Options, fault: bool, ts': Table, zs': seq<Zombie>)
    requires Sound(ts, zs) && Awake(ts, zs) && Possible(ts, WaitsFor(p, pid, o, fault)) && Moves(ts, zs, WaitsFor(p, pid, o, fault), ts', zs')
    ensures Awake(ts', zs') <==> !Overlooks(ts, zs, WaitsFor(p, pid, o, fault))
  {
    if !NothingSeen(ts, zs, p, pid, o) {
      var found :| FoundFor(ts, zs, p, pid, o, found) && ts' == Told(ts, zs, p, found, fault).0 && zs' == Told(ts, zs, p, found, fault).1;
      ToldAwake(ts, zs, p, found, fault);
    } else if pid == 0 {
      SameWaits(ts, zs, p, ts[p].(waitPid := pid, options := o));
    } else {
      ParkExactly(ts, zs, p, pid, o);
    }
  }

  lemma ReleaseAwake(ts: Table, zs: seq<Zombie>, q: nat)
    requires Sound(ts, zs) && Awake(ts, zs) && q in ts
    ensures Awake(Released(ts, q), Forget(zs, q))
  {
    var ts', zs' := Released(ts, q), Forget(zs, q);
    forall a, b | Traces(ts', a, b) && ts'[b].pending
      ensures !Waits(ts', a, b, ts'[b].clone)
    {
      assert Traces(ts, a, b);
    }
    forall j | 0 <= j < |zs'|
      ensures !Waits(ts', zs'[j].ptracer, zs'[j].pid, zs'[j].clone)
    {
      var k := Remembered(zs, q, j);
      assert !Waits(ts, zs[k].ptracer, zs[k].pid, zs[k].clone);
    }
  }

  lemma EndAwake(ts: Table, zs: seq<Zombie>, q: nat)
    requires Sound(ts, zs) && Awake(ts, zs) && q in ts
    ensures Awake(Ended(ts, zs, q).0, Ended(ts, zs, q).1)
  {
    ReleaseKeeps(ts, zs, q);
    ReleaseAwake(ts, zs, q);
    DepartAwake(Released(ts, q), Forget(zs, q), q);
  }

  lemma DepartAwake(ts: Table, zs: seq<Zombie>, q: nat)
    requires Sound(ts, zs) && Awake(ts, zs) && q in ts
    ensures Awake(Departed(ts, zs, q).0, Departed(ts, zs, q).1)
  {
    if ts[q].ptracer.Some? {
      var p := ts[q].ptracer.value;
      assert Traces(ts, p, q);
      DetachAwake(ts, zs, q, p);
      var left := Detached(ts, q, p);
      SameWaits(left, zs, p, left[p].(waitPid := 0, running := true));
      GoneAwake(Left(ts, q, p), zs, q);
      if Dies(ts[q]) {
        ZombieAwake(ts, zs, q, p);
      }
    } else {
      GoneAwake(ts, zs, q);
    }
  }

  lemma GoneAwake(ts: Table, zs: seq<Zombie>, q: nat)
    requires Awake(ts, zs)
    ensures Awake(ts - {q}, zs)
  {
    forall a, b | Traces(ts - {q}, a, b) && (ts - {q})[b].pending
      ensures !Waits(ts - {q}, a, b, (ts - {q})[b].clone)
    {
      assert Traces(ts, a, b);
    }
    forall i | 0 <= i < |zs|
      ensures !Waits(ts - {q}, zs[i].ptracer, zs[i].pid, zs[i].clone)
    {
      assert !Waits(ts, zs[i].ptracer, zs[i].pid, zs[i].clone);
    }
  }

  lemma ZombieAwake(ts: Table, zs: seq<Zombie>, q: nat, p: nat)
    requires Awake(ts, zs) && Traces(ts, p, q) && ts[q].pending
    ensures Awake(ts - {q}, zs + [Zombie(q, p, ts[q].parent, ts[q].clone)])
  {
    GoneAwake(ts, zs, q);
    assert !Waits(ts, p, q, ts[q].clone);
  }

  // ---------------------------------------------------------------- exactly when, over whole runs

  ghost predicate AllSound(states: seq<State>) {
    forall i :: 0 <= i < |states| ==> Sound(states[i].0, states[i].1)
  }

  /** Step `i` overlooks an event. */
  ghost predicate LosesAt(states: seq<State>, steps: seq<Step>, i: nat) {
    i < |steps| < |states| && Possible(states[i].0, steps[i]) && Overlooks(states[i].0, states[i].1, steps[i])
  }

  /** Step `i` lets a process go that is kept stopped. */
  ghost predicate LetsGoAt(states: seq<State>, steps: seq<Step>, i: nat) {
    i < |steps| < |states| && Possible(states[i].0, steps[i]) && LetsGo(states[i].0, states[i].1, steps[i])
  }

  lemma {:induction false} AwakeUpTo(states: seq<State>, steps: seq<Step>, k: nat)
    requires History(states, steps) && AllSound(states) && Awake(states[0].0, states[0].1) && k <= |steps|
    requires forall i :: 0 <= i < k ==> !LosesAt(states, steps, i)
    ensures Awake(states[k].0, states[k].1)
    decreases k
  {
    if k > 0 {
      AwakeUpTo(states, steps, k - 1);
      assert Happens(states[k - 1], steps[k - 1], states[k - 1 + 1]) && !LosesAt(states, steps, k - 1);
      if Possible(states[k - 1].0, steps[k - 1]) {
        AwakeExactly(states[k - 1].0, states[k - 1].1, steps[k - 1], states[k].0, states[k].1);
      }
    }
  }

  /** Over any run, no wakeup is ever lost if and only if no wait overlooks an event. */
  lemma NoneLostExactly(states: seq<State>, steps: seq<Step>)
    requires History(states, steps) && AllSound(states) && Awake(states[0].0, states[0].1)
    ensures (forall k :: 0 <= k <= |steps| ==> Awake(states[k].0, states[k].1)) <==> (forall i :: 0 <= i < |steps| ==> !LosesAt(states, steps, i))
  {
    if forall i :: 0 <= i < |steps| ==> !LosesAt(states, steps, i) {
      forall k | 0 <= k <= |steps|
        ensures Awake(states[k].0, states[k].1)
      {
        AwakeUpTo(states, steps, k);
      }
    } else {
      var i :| 0 <= i < |steps| && LosesAt(states, steps, i);
      assert Happens(states[i], steps[i], states[i + 1]);
      if Awake(states[i].0, states[i].1) {
        AwakeExactly(states[i].0, states[i].1, steps[i], states[i + 1].0, states[i + 1].1);
      }
    }
  }

  lemma {:induction false} StoppedUpTo(states: seq<State>, steps: seq<Step>, k: nat)
    requires History(states, steps) && AllSound(states) && HeldStopped(states[0].0) && k <= |steps|
    requires forall i :: 0 <= i < k ==> !LetsGoAt(states, steps, i)
    ensures HeldStopped(states[k].0)
    decreases k
  {
    if k > 0 {
      StoppedUpTo(states, steps, k - 1);
      assert Happens(states[k - 1], steps[k - 1], states[k - 1 + 1]) && !LetsGoAt(states, steps, k - 1);
      if Possible(states[k - 1].0, steps[k - 1]) {
        StoppedExactly(states[k - 1].0, states[k - 1].1, steps[k - 1], states[k].0, states[k].1);
      }
    }
  }

  /** In a run that lets nobody go, no wakeup is ever lost. */
  lemma OrderlyRuns(states: seq<State>, steps: seq<Step>, k: nat)
    requires History(states, steps) && AllSound(states) && HeldStopped(states[0].0) && Awake(states[0].0, states[0].1) && k <= |steps|
    requires forall i :: 0 <= i < |steps| ==> !LetsGoAt(states, steps, i)
    ensures HeldStopped(states[k].0) && Awake(states[k].0, states[k].1)
  {
    StoppedUpTo(states, steps, k);
    forall i | 0 <= i < k
      ensures !LosesAt(states, steps, i)
    {
      StoppedUpTo(states, steps, i);
    }
    AwakeUpTo(states, steps, k);
  }

  // ---------------------------------------------------------------- wakeups that are lost

  const BLOCKING := Options(false, false, false)

  function Process(parent: Option<nat>, running: bool, ptracer: Option<nat>, pending: bool, nb: nat, waitPid: int): Tracee {
    Tracee(parent, false, running, ptracer, pending, false, nb, waitPid, BLOCKING)
  }

  /** From the first process on: a child is attached and reports, and is restarted before its event was told. */
  function EarlySteps(): seq<Step> {
    [Forks(1, 2, false, false, false), Stops(1), Stops(2), Attaches(2, 1), Reports(2, false, false),
     Continues(1, 2), WaitsFor(1, -1, BLOCKING, false)]
  }

  function EarlyTable(i: nat): Table {
    if i == 0 then Initial(1).0
    else map[1 := Process(None, i < 2, None, false, if i < 4 then 0 else 1, if i < 7 then 0 else -1),
             2 := Process(Some(1), i < 3 || i >= 6, if i < 4 then None else Some(1), i >= 5, 0, 0)]
  }

  lemma EarlyStep(i: nat)
    requires i < 7
    ensures Happens((EarlyTable(i), []), EarlySteps()[i], (EarlyTable(i + 1), []))
  {
    var ts, ts' := EarlyTable(i), EarlyTable(i + 1);
    if i == 0 {
      assert ts' == ts[2 := NewTracee(Some(1), false)];
    } else if i == 3 {
      assert ts' == Attached(ts, 2, 1);
    } else if i == 6 {
      assert NothingSeen(ts, [], 1, -1, BLOCKING);
      assert ts' == ts[1 := ts[1].(waitPid := -1, options := BLOCKING)];
    } else if i == 5 {
      assert Stopping(ts, [], 1, 2) && ts' == Resumed(ts, 2);
    } else {
      assert i == 1 || i == 2 || i == 4;
      assert ts' == ts[if i == 1 then 1 else 2 := ts'[if i == 1 then 1 else 2]];
    }
  }

  /** The wait that follows overlooks the event it is there for. */
  lemma EarlyRestart() returns (states: seq<State>)
    ensures History(states, EarlySteps()) && states[0] == Initial(1)
    ensures LetsGoAt(states, EarlySteps(), 5) && LosesAt(states, EarlySteps(), 6) && !Awake(states[7].0, states[7].1)
  {
    states := seq(8, i requires 0 <= i < 8 => (EarlyTable(i), []));
    forall i | 0 <= i < 7
      ensures Happens(states[i], EarlySteps()[i], states[i + 1])
    {
      EarlyStep(i);
    }
    EarlyStep(6);
    assert Unseen(EarlyTable(6), 1, -1, BLOCKING, 2);
    assert Traces(EarlyTable(7), 1, 2);
  }

  /** A process that is ptracer and ptracee: it waits, its own event is kept for its ptracer, and then the event of its
      ptracee wakes it. */
  function RelaySteps(): seq<Step> {
    [Forks(1, 2, false, false, false), Forks(2, 3, false, false, false), Stops(1), Stops(2), Stops(3), Attaches(2, 1), Attaches(3, 2),
     WaitsFor(2, -1, BLOCKING, false), Reports(2, false, false), Reports(3, false, false), WaitsFor(1, -1, BLOCKING, false)]
  }

  function RelayTable(i: nat): Table {
    if i == 0 then Initial(1).0
    else
      var two := map[1 := Process(None, i < 3, None, false, if i < 6 then 0 else 1, if i < 11 then 0 else -1),
                     2 := Process(Some(1), i < 4 || i >= 10, if i < 6 then None else Some(1), i >= 9, if i < 7 then 0 else 1,
                                  if 8 <= i < 10 then -1 else 0)];
      if i == 1 then two else two[3 := Process(Some(2), i < 5, if i < 7 then None else Some(2), false, 0, 0)]
  }

  lemma RelayStep(i: nat)
    requires i < 11
    ensures Happens((RelayTable(i), []), RelaySteps()[i], (RelayTable(i + 1), []))
  {
    var ts, ts' := RelayTable(i), RelayTable(i + 1);
    if i < 2 {
      assert ts' == ts[i + 2 := NewTracee(Some(i + 1), false)];
    } else if i < 5 {
      assert ts' == ts[i - 1 := ts[i - 1].(running := false)];
    } else if i < 7 {
      assert ts' == Attached(ts, i - 3, i - 4);
    } else if i == 7 || i == 10 {
      var p := if i == 7 then 2 else 1;
      assert NothingSeen(ts, [], p, -1, BLOCKING);
      assert ts' == ts[p := ts[p].(waitPid := -1, options := BLOCKING)];
    } else if i == 8 {
      assert ts' == ts[2 := ts[2].(pending := true)];
    } else {
      RelayWakes();
    }
  }

  lemma RelayWakes()
    ensures Reported(RelayTable(9), [], 3, 2, false, false) == (RelayTable(10), [])
  {
    var ts := RelayTable(9);
    assert Woken(ts[3 := ts[3].(pending := true)], 2)[3 := ts[3]] == RelayTable(10);
  }

  /** Its ptracer then overlooks it. */
  lemma WokenWhileHeld() returns (states: seq<State>)
    ensures History(states, RelaySteps()) && states[0] == Initial(1)
    ensures LetsGoAt(states, RelaySteps(), 9) && LosesAt(states, RelaySteps(), 10) && !Awake(states[11].0, states[11].1)
  {
    states := seq(12, i requires 0 <= i < 12 => (RelayTable(i), []));
    forall i | 0 <= i < 11
      ensures Happens(states[i], RelaySteps()[i], states[i + 1])
    {
      RelayStep(i);
    }
    assert Unseen(RelayTable(10), 1, -1, BLOCKING, 2);
    assert NothingSeen(RelayTable(10), [], 1, -1, BLOCKING);
    assert Traces(RelayTable(11), 1, 2);
  }
}
