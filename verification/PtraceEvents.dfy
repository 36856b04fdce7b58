/** What becomes of the events kept for ptracers (proot-master/src/ptrace/wait.c): over any run, none is forgotten before
    its ptracer is told. */
module PtraceEvents {
  import opened Wrappers
  import opened Ptrace

  /** An event of `q` is kept for `p`. */
  ghost predicate Kept(ts: Table, p: nat, q: nat, terminal: bool) {
    Traces(ts, p, q) && ts[q].pending && ts[q].terminal == terminal
  }

  /** The steps that end the keeping of an event: the next event of the ptracee, a wait of the ptracer that asks for it,
      its detaching, and the end of one of the two. */
  ghost predicate Settles(ts: Table, step: Step, p: nat, q: nat)
    requires q in ts
  {
    match step
    case Reports(x, _, _) => x == q
    case WaitsFor(x, pid, o, _) => x == p && (pid == -1 || pid == q) && ExpectedClone(o, ts[q].clone)
    case Detaches(x, pid) => x == p && pid == q
    case Ends(x) => x == p || x == q
    case _ => false
  }

  lemma EventKept(ts: Table, zs: seq<Zombie>, step: Step, ts': Table, zs': seq<Zombie>, p: nat, q: nat, terminal: bool)
    requires Sound(ts, zs) && Possible(ts, step) && Moves(ts, zs, step, ts', zs') && Kept(ts, p, q, terminal)
    ensures Settles(ts, step, p, q) || Kept(ts', p, q, terminal)
  {
    if step.WaitsFor? {
      WaitKeeps(ts, zs, step, ts', zs', p, q, terminal);
    } else if step.Ends? {
      if step.q != p && step.q != q {
        EndKeeps(ts, zs, step.q, p, q, terminal);
      }
    } else if step.Reports? && step.q != q {
      ReportKeeps(ts, zs, step.q, ts[step.q].ptracer.value, step.terminal, step.fault, p, q, terminal);
    }
  }

  lemma WaitKeeps(ts: Table, zs: seq<Zombie>, step: Step, ts': Table, zs': seq<Zombie>, p: nat, q: nat, terminal: bool)
    requires step.WaitsFor? && Possible(ts, step) && Moves(ts, zs, step, ts', zs') && Kept(ts, p, q, terminal)
    ensures Settles(ts, step, p, q) || Kept(ts', p, q, terminal)
  {
  }

  lemma EndKeeps(ts: Table, zs: seq<Zombie>, x: nat, p: nat, q: nat, terminal: bool)
    requires x in ts && x != p && x != q && Kept(ts, p, q, terminal)
    ensures Kept(Ended(ts, zs, x).0, p, q, terminal)
  {
    assert Released(ts, x)[q].ptracer == Some(p);
  }

  lemma ReportKeeps(ts: Table, zs: seq<Zombie>, x: nat, y: nat, t: bool, fault: bool, p: nat, q: nat, terminal: bool)
    requires x in ts && y in ts && y != x && x != q && Kept(ts, p, q, terminal)
    ensures Kept(Reported(ts, zs, x, y, t, fault).0, p, q, terminal)
  {
  }

  /** The zombie of a ptracee that ended stays until its ptracer waits for it or ends. */
  lemma ZombieKept(ts: Table, zs: seq<Zombie>, step: Step, ts': Table, zs': seq<Zombie>, z: Zombie)
    requires Sound(ts, zs) && Possible(ts, step) && Moves(ts, zs, step, ts', zs') && z in zs
    ensures || z in zs' || step == Ends(z.ptracer)
            || (step.WaitsFor? && step.p == z.ptracer && (step.pid == -1 || step.pid == z.pid) && ExpectedClone(step.options, z.clone))
  {
    match step
    case Ends(x) =>
      if x != z.ptracer {
        NotForgotten(zs, x, z);
      }
    case WaitsFor(p, pid, o, fault) =>
      if !NothingSeen(ts, zs, p, pid, o) {
        var found :| FoundFor(ts, zs, p, pid, o, found) && ts' == Told(ts, zs, p, found, fault).0 && zs' == Told(ts, zs, p, found, fault).1;
        if found.Dead? && zs[found.index] != z {
          StillThere(zs, found.index, z);
        }
      }
    case _ =>
  }

  lemma {:induction false} NotForgotten(zs: seq<Zombie>, q: nat, z: Zombie)
    requires z in zs && z.ptracer != q
    ensures z in Forget(zs, q)
    decreases |zs|
  {
    var n := |zs| - 1;
    if zs[n] != z {
      assert z in zs[..n];
      NotForgotten(zs[..n], q, z);
    }
  }

  lemma StillThere(zs: seq<Zombie>, i: nat, z: Zombie)
    requires i < |zs| && z in zs && zs[i] != z
    ensures z in Without(zs, i)
  {
    var k :| 0 <= k < |zs| && zs[k] == z;
    if k < i {
      assert Without(zs, i)[k] == z;
    } else {
      assert Without(zs, i)[k - 1] == z;
    }
  }

  /** The end of a ptracee that its ptracer was to be told becomes a zombie. */
  lemma EndBecomesZombie(ts: Table, zs: seq<Zombie>, q: nat, p: nat)
    requires Sound(ts, zs) && Kept(ts, p, q, true)
    ensures Zombie(q, p, ts[q].parent, ts[q].clone) in Ended(ts, zs, q).1
  {
    assert Released(ts, q)[q].ptracer == Some(p) && p != q;
  }

  /** The end of a process, for the others: its ptracees are free and run again if they were kept stopped; its ptracer
      counts it as long as it is a zombie, and is woken if it waits for nothing any more; nobody else changes. */
  lemma EndExactly(ts: Table, zs: seq<Zombie>, q: nat, r: nat)
    requires Sound(ts, zs) && q in ts && r in ts && r != q
    ensures var ts' := Ended(ts, zs, q).0;
      && q !in ts' && r in ts'
      && (ts[r].parent != Some(q) && ts[r].ptracer != Some(q) && ts[q].ptracer != Some(r) ==> ts'[r] == ts[r])
      && (ts[r].ptracer == Some(q) && ts[q].ptracer != Some(r) ==>
            ts'[r].ptracer == None && !ts'[r].pending && (ts'[r].running <==> ts[r].running || (ts[r].pending && !Parked(ts[r]))))
      && (ts[q].ptracer == Some(r) && Kept(ts, r, q, true) ==> ts'[r].nb == ts[r].nb && (Parked(ts'[r]) <==> Parked(ts[r])))
      && (ts[q].ptracer == Some(r) && !Kept(ts, r, q, true) ==>
            && ts[r].nb > 0 && ts'[r].nb == ts[r].nb - 1
            && (Parked(ts[r]) && ts[r].nb == 1 ==> !Parked(ts'[r]) && ts'[r].running))
  {
    if ts[q].ptracer == Some(r) {
      HasCount(ts, zs, r, q);
    }
    assert Released(ts, q)[q].ptracer == ts[q].ptracer && Released(ts, q)[r].nb == ts[r].nb;
  }

  /** A reported event is kept, or the ptracer waits for it: then it runs again and the event is told, left to the kernel,
      or, if it cannot be told, still kept. */
  lemma ReportedIsKept(ts: Table, zs: seq<Zombie>, q: nat, p: nat, terminal: bool, fault: bool)
    requires Sound(ts, zs) && Traces(ts, p, q)
    ensures p in ts && p != q
    ensures !Waits(ts, p, q, ts[q].clone) ==>
      Reported(ts, zs, q, p, terminal, fault) == (ts[q := ts[q].(pending := true, terminal := terminal)], zs)
    ensures Waits(ts, p, q, ts[q].clone) ==>
      var ts' := Reported(ts, zs, q, p, terminal, fault).0;
      && p in ts' && q in ts' && ts'[p].running && !Parked(ts'[p])
      && (terminal && ts[q].parent == Some(p) ==> ts'[q].ptracer == None)
      && (!(terminal && ts[q].parent == Some(p)) ==> ts'[q].ptracer == Some(p) && (ts'[q].pending <==> fault))
  {
  }

  /** Step `i` of a run settles the event. */
  ghost predicate SettlesAt(states: seq<State>, steps: seq<Step>, i: nat, p: nat, q: nat) {
    i < |steps| && i < |states| && q in states[i].0 && Settles(states[i].0, steps[i], p, q)
  }

  lemma KeptByStep(before: State, step: Step, after: State, p: nat, q: nat, terminal: bool)
    requires Happens(before, step, after) && Sound(before.0, before.1) && Kept(before.0, p, q, terminal) && !Settles(before.0, step, p, q)
    ensures Kept(after.0, p, q, terminal)
  {
    if Possible(before.0, step) {
      EventKept(before.0, before.1, step, after.0, after.1, p, q, terminal);
    }
  }

  /** Over any run: an event is kept as long as no step settles it. */
  lemma {:induction false} KeptUntilSettled(states: seq<State>, steps: seq<Step>, k: nat, j: nat, p: nat, q: nat, terminal: bool)
    requires History(states, steps) && AllSound(states) && k <= j <= |steps| && Kept(states[k].0, p, q, terminal)
    requires forall i :: k <= i < j ==> !SettlesAt(states, steps, i, p, q)
    ensures Kept(states[j].0, p, q, terminal)
    decreases j
  {
    if k < j {
      var before, step, after := states[j - 1], steps[j - 1], states[j];
      KeptUntilSettled(states, steps, k, j - 1, p, q, terminal);
      assert !SettlesAt(states, steps, j - 1, p, q);
      KeptByStep(before, step, after, p, q, terminal);
    }
  }
}
