/** Emulated mount, umount and pivot_root as rewrites of the binding lists
    (proot-master/src/syscall/enter.c). */
module Mounts {
  import opened Wrappers
  import opened Limits
  import opened Paths
  import opened Bindings

  type Path = seq<string>

  /** `m` holds exactly `o` at `g`. */
  ghost predicate Holds(m: map<Path, Path>, g: Path, o: Option<Path>) {
    match o
    case None => g !in m
    case Some(h) => g in m && m[g] == h
  }

  /** Strictly below the new root; with "/" as the new root the source finds nothing there. */
  ghost predicate Below(newRoot: Path, g: Path) {
    newRoot != [] && newRoot < g
  }

  // ---------------------------------------------------------------- the checks on characters

  /** `strncmp(path, dir, length) == 0 && path[length] == '/'` */
  function StartsInside(path: string, dir: string): bool {
    |dir| <= |path| && path[..|dir|] == dir && At(path, |dir|) == '/'
  }

  /** `strncmp(path, dir, length) == 0` and then the end or a separator. */
  function StartsAtOrInside(path: string, dir: string): bool {
    |dir| <= |path| && path[..|dir|] == dir && (At(path, |dir|) == '/' || |path| == |dir|)
  }

  lemma InsideMeaning(p: Path, dir: Path)
    requires Names(p) && Names(dir)
    ensures StartsInside(Render(p), Render(dir)) <==> Below(dir, p)
    ensures dir != [] ==> (StartsAtOrInside(Render(p), Render(dir)) <==> dir <= p)
  {
    if dir == [] {
      if p != [] {
        SlashedFirst(p);
        assert Render(p)[1] == p[0][0] && p[0][0] in p[0];
      }
    } else {
      SlashedShape(dir);
      if p != [] {
        if dir <= p {
          SlashedPrefix(dir, p);
          assert |dir| == |p| ==> dir == p;
        } else if StartsAtOrInside(Slashed(p), Slashed(dir)) {
          PrefixReflects(dir, p);
        }
      }
    }
  }

  // ---------------------------------------------------------------- mount and umount

  datatype MountRequest = MountRequest(remount: bool, bind: bool, source: Option<Path>, fstype: string, tmpdir: Option<Path>)

  /** The host directory a mount shows: the translated source of a bind mount (none when it does not translate),
      the host's own file-system for the known types, a fresh directory for a tmpfs. */
  function MountedHost(request: MountRequest): Option<Path> {
    if request.remount then None
    else if request.bind then request.source
    else if request.fstype == "proc" then Some(["proc"])
    else if request.fstype == "sysfs" then Some(["sys"])
    else if request.fstype == "devtmpfs" then Some(["dev"])
    else if request.fstype == "devpts" then Some(["dev", "pts"])
    else if request.fstype == "tmpfs" then request.tmpdir
    else None
  }

  ghost function Mounted(m: map<Path, Path>, host: Option<Path>, target: Option<Path>): map<Path, Path> {
    if host.Some? && target.Some? then m[target.value := host.value] else m
  }

  ghost function Unmounted(m: map<Path, Path>, target: Path): map<Path, Path> {
    if target == [] then m else m - {target}
  }

  /** What is seen at the target afterwards: the source of a bind mount, the file system of the host for the types it has,
      a new directory for a tmpfs; nothing changes for a remount, an unknown type, or what has no directory to show. */
  ghost predicate Shows(request: MountRequest, target: Path, m: map<Path, Path>, m': map<Path, Path>) {
    && (request.remount ==> m' == m)
    && (!request.remount && request.bind && request.source.Some? ==> m' == m[target := request.source.value])
    && (!request.remount && request.bind && request.source.None? ==> m' == m)
    && (!request.remount && !request.bind ==>
          && (request.fstype == "proc" ==> m' == m[target := ["proc"]])
          && (request.fstype == "sysfs" ==> m' == m[target := ["sys"]])
          && (request.fstype == "devtmpfs" ==> m' == m[target := ["dev"]])
          && (request.fstype == "devpts" ==> m' == m[target := ["dev", "pts"]])
          && (request.fstype == "tmpfs" && request.tmpdir.Some? ==> m' == m[target := request.tmpdir.value])
          && (request.fstype == "tmpfs" && request.tmpdir.None? ==> m' == m)
          && (request.fstype !in {"proc", "sysfs", "devtmpfs", "devpts", "tmpfs"} ==> m' == m))
  }

  lemma MountShows(request: MountRequest, target: Path, m: map<Path, Path>)
    ensures Shows(request, target, m, Mounted(m, MountedHost(request), Some(target)))
  {
  }

  /** `emulate_mount`: one more binding, or nothing at all. */
  method EmulateMount(lists: BindingLists, request: MountRequest, target: Option<Path>)
    requires lists.Valid() && (target.Some? ==> Names(target.value))
    requires request.source.Some? ==> Names(request.source.value)
    requires request.tmpdir.Some? ==> Names(request.tmpdir.value)
    modifies lists
    ensures lists.Valid() && lists.Map() == Mounted(old(lists.Map()), MountedHost(request), target)
    ensures target.Some? ==> Shows(request, target.value, old(lists.Map()), lists.Map())
  {
    if target.Some? {
      MountShows(request, target.value, lists.Map());
    }
    var host := MountedHost(request);
    if host.Some? && target.Some? {
      var b := lists.Insort3(host.value, target.value);
    }
  }

  /** `emulate_umount`: exactly the binding of that guest path goes, and never the root. */
  method EmulateUmount(lists: BindingLists, target: Path)
    requires lists.Valid() && Names(target) && [] in lists.Map()
    modifies lists
    ensures lists.Valid() && lists.Map() == Unmounted(old(lists.Map()), target)
  {
    if target == [] {
      return;
    }
    var found, b := lists.GetGuestBinding(target);
    ghost var m := lists.Map();
    if b.guest != target {
      assert target !in m by {
        if target in m {
          SameLength(b.guest, target, target);
        }
      }
      Unbound(m, target);
      return;
    }
    lists.Remove(b);
  }

  /** Nothing was bound at the target, which is not the root; or the target is the root and shows what it showed. */
  ghost predicate Undone(m: map<Path, Path>, host: Option<Path>, target: Path) {
    if target == [] then host.Some? ==> target in m && m[target] == host.value else target !in m
  }

  /** A mount and the umount that follows leave the bindings as they were exactly then: a binding a mount replaces does
      not come back, and the root is never unmounted. */
  method UmountUndoesMount(lists: BindingLists, request: MountRequest, target: Path)
    requires lists.Valid() && Names(target) && [] in lists.Map()
    requires request.source.Some? ==> Names(request.source.value)
    requires request.tmpdir.Some? ==> Names(request.tmpdir.value)
    modifies lists
    ensures lists.Valid()
    ensures lists.Map() == old(lists.Map()) <==> Undone(old(lists.Map()), MountedHost(request), target)
  {
    UndoneExactly(lists.Map(), MountedHost(request), target);
    EmulateMount(lists, request, Some(target));
    EmulateUmount(lists, target);
  }

  lemma UndoneExactly(m: map<Path, Path>, host: Option<Path>, target: Path)
    requires [] in m
    ensures Unmounted(Mounted(m, host, Some(target)), target) == m <==> Undone(m, host, target)
  {
    var m' := Unmounted(Mounted(m, host, Some(target)), target);
    if target == [] {
      if host.Some? {
        assert m'[target] == host.value;
        if m[target] == host.value {
          assert m' == m;
        }
      }
    } else {
      assert target !in m';
      if target !in m {
        assert m' == m;
      }
    }
  }

  lemma Unbound(m: map<Path, Path>, g: Path)
    requires g !in m
    ensures m - {g} == m
  {
  }

  // ---------------------------------------------------------------- pivot_root

  /** A binding was moved to `g` out of the new root. */
  ghost predicate MovedAt(done: set<Path>, newRoot: Path, g: Path) {
    newRoot != [] && newRoot + g in done
  }

  ghost predicate GetsAlias(putOld: Option<Path>, b: Path) {
    putOld.Some? && !(putOld.value <= b) && |Render(putOld.value + b)| < PATH_MAX
  }

  /** What follows put_old. */
  ghost function Under(putOld: Option<Path>, g: Path): Path {
    if putOld.Some? && putOld.value <= g then g[|putOld.value|..] else []
  }

  /** A binding of the previous root was re-exposed at `g`. */
  ghost predicate AliasAt(done: set<Path>, newRoot: Path, putOld: Option<Path>, g: Path) {
    && putOld.Some? && putOld.value <= g
    && Under(putOld, g) != [] && Under(putOld, g) in done && !Below(newRoot, Under(putOld, g)) && GetsAlias(putOld, Under(putOld, g))
  }

  /** Something new was bound at `g`. */
  ghost predicate Taken(done: set<Path>, newRoot: Path, putOld: Option<Path>, g: Path) {
    MovedAt(done, newRoot, g) || AliasAt(done, newRoot, putOld, g) || putOld == Some(g)
  }

  /** What `g` is bound to once the bindings at `done` have been visited: the new root; what was moved or re-exposed
      there, and one of the two if both were; at put_old the previous root; otherwise what was there, unless it moved
      away. */
  ghost predicate EntryIs(m: map<Path, Path>, m0: map<Path, Path>, done: set<Path>,
                          newRoot: Path, newRootHost: Path, putOld: Option<Path>, g: Path)
    requires done <= m0.Keys && [] in m0
  {
    if g == [] then Holds(m, g, Some(newRootHost))
    else if MovedAt(done, newRoot, g) && AliasAt(done, newRoot, putOld, g) then
      Holds(m, g, Some(m0[newRoot + g])) || Holds(m, g, Some(m0[Under(putOld, g)]))
    else if MovedAt(done, newRoot, g) then Holds(m, g, Some(m0[newRoot + g]))
    else if AliasAt(done, newRoot, putOld, g) then Holds(m, g, Some(m0[Under(putOld, g)]))
    else if putOld == Some(g) then Holds(m, g, Some(m0[[]]))
    else Holds(m, g, if g in m0 && !(Below(newRoot, g) && g in done) then Some(m0[g]) else None)
  }

  /** What put_old followed by `h` is bound to, when nothing was bound there before. */
  ghost function EntryUnderPutOld(m0: map<Path, Path>, done: set<Path>, newRoot: Path, putOld: Path, h: Path): Option<Path>
    requires done <= m0.Keys && [] in m0
  {
    if h == [] then Some(m0[[]])
    else if h in done && !Below(newRoot, h) && |Render(putOld + h)| < PATH_MAX then Some(m0[h])
    else None
  }

  /** No old binding sits at or below put_old, seen from the old root or from the new one. */
  ghost predicate PutOldFree(m0: map<Path, Path>, newRoot: Path, putOld: Path) {
    forall g :: g in m0 ==> !(putOld <= g) && !(newRoot + putOld <= g)
  }

  ghost predicate Outside(putOld: Option<Path>, g: Path) {
    putOld.Some? ==> !(putOld.value <= g)
  }

  /** The state of the rewriting loop: which guest paths are bound to what. */
  ghost predicate Pivoting(m: map<Path, Path>, m0: map<Path, Path>, done: set<Path>,
                           newRoot: Path, newRootHost: Path, putOld: Option<Path>)
    requires done <= m0.Keys && [] in m0
  {
    forall g :: EntryIs(m, m0, done, newRoot, newRootHost, putOld, g)
  }

  lemma FreeEntry(m: map<Path, Path>, m0: map<Path, Path>, done: set<Path>, newRoot: Path, newRootHost: Path, putOld: Path, h: Path)
    requires done <= m0.Keys && [] in m0 && Pivoting(m, m0, done, newRoot, newRootHost, Some(putOld))
    requires PutOldFree(m0, newRoot, putOld) && putOld != []
    ensures Holds(m, putOld + h, EntryUnderPutOld(m0, done, newRoot, putOld, h))
  {
    var g := putOld + h;
    assert EntryIs(m, m0, done, newRoot, newRootHost, Some(putOld), g);
    assert putOld <= g && Under(Some(putOld), g) == h;
    assert newRoot + putOld <= newRoot + g;
    assert h == [] ==> g == putOld;
    assert h != [] ==> |g| > |putOld|;
  }

  lemma StripPrefix(dir: Path, g: Path)
    requires dir <= g
    ensures dir + g[|dir|..] == g
  {
  }

  lemma AppendInjective(a: Path, x: Path, y: Path)
    requires a + x == a + y
    ensures x == y
  {
    assert x == (a + x)[|a|..] && y == (a + y)[|a|..];
  }

  /** The bindings after moving the one at `b` out of the new root. */
  ghost function Moved(m: map<Path, Path>, newRoot: Path, b: Path, host: Path, linked: bool): map<Path, Path>
    requires newRoot <= b
  {
    var m1 := m[b[|newRoot|..] := host];
    if linked then m1 - {b} else m1
  }

  /** The bindings after re-exposing the one at `b` under put_old. */
  ghost function Aliased(m: map<Path, Path>, putOld: Option<Path>, b: Path, host: Path): map<Path, Path> {
    if GetsAlias(putOld, b) then m[putOld.value + b := host] else m
  }

  /** A binding below the new root moves with it; the stale record goes if it is still linked. */
  lemma StepBelow(m: map<Path, Path>, m0: map<Path, Path>, done: set<Path>,
                  newRoot: Path, newRootHost: Path, putOld: Option<Path>, b: Path, linked: bool)
    requires done <= m0.Keys && [] in m0 && Pivoting(m, m0, done, newRoot, newRootHost, putOld)
    requires b in m0 && b !in done && Below(newRoot, b)
    requires linked <==> !Taken(done, newRoot, putOld, b)
    ensures Pivoting(Moved(m, newRoot, b, m0[b], linked), m0, done + {b}, newRoot, newRootHost, putOld)
  {
    var r := b[|newRoot|..];
    StripPrefix(newRoot, b);
    forall g
      ensures EntryIs(Moved(m, newRoot, b, m0[b], linked), m0, done + {b}, newRoot, newRootHost, putOld, g)
    {
      assert EntryIs(m, m0, done, newRoot, newRootHost, putOld, g);
      if newRoot + g == b {
        AppendInjective(newRoot, g, r);
      }
    }
  }

  /** Any other binding stays, and is re-exposed under put_old unless it already sits there. */
  lemma StepKeep(m: map<Path, Path>, m0: map<Path, Path>, done: set<Path>,
                 newRoot: Path, newRootHost: Path, putOld: Option<Path>, b: Path)
    requires done <= m0.Keys && [] in m0 && Pivoting(m, m0, done, newRoot, newRootHost, putOld)
    requires b in m0 && b !in done && !Below(newRoot, b) && b != []
    ensures Pivoting(Aliased(m, putOld, b, m0[b]), m0, done + {b}, newRoot, newRootHost, putOld)
  {
    forall g
      ensures EntryIs(Aliased(m, putOld, b, m0[b]), m0, done + {b}, newRoot, newRootHost, putOld, g)
    {
      assert EntryIs(m, m0, done, newRoot, newRootHost, putOld, g);
      NotBelow(newRoot, b, g);
      if putOld.Some? && putOld.value <= g {
        StripPrefix(putOld.value, g);
        if g == putOld.value + b {
          AppendInjective(putOld.value, Under(putOld, g), b);
        }
      }
    }
  }

  lemma NotBelow(newRoot: Path, b: Path, g: Path)
    ensures newRoot != [] && g != [] && newRoot + g == b ==> Below(newRoot, b)
  {
  }

  lemma StepRoot(m: map<Path, Path>, m0: map<Path, Path>, done: set<Path>,
                 newRoot: Path, newRootHost: Path, putOld: Option<Path>)
    requires done <= m0.Keys && [] in m0 && Pivoting(m, m0, done, newRoot, newRootHost, putOld)
    ensures Pivoting(m, m0, done + {[]}, newRoot, newRootHost, putOld)
  {
    forall g
      ensures EntryIs(m, m0, done + {[]}, newRoot, newRootHost, putOld, g)
    {
      assert EntryIs(m, m0, done, newRoot, newRootHost, putOld, g);
      assert newRoot != [] ==> newRoot + g != [];
    }
  }

  /** The bindings right after the root has been switched. */
  ghost function Switched(m0: map<Path, Path>, newRootHost: Path, putOld: Option<Path>): map<Path, Path>
    requires [] in m0
  {
    var m1 := m0[[] := newRootHost];
    if putOld.Some? then m1[putOld.value := m0[[]]] else m1
  }

  lemma StartPivot(m0: map<Path, Path>, newRoot: Path, newRootHost: Path, putOld: Option<Path>)
    requires [] in m0 && (putOld.Some? ==> putOld.value != [])
    ensures Pivoting(Switched(m0, newRootHost, putOld), m0, {}, newRoot, newRootHost, putOld)
  {
  }

  /** put_old as seen from the new root, when it is strictly below it. */
  function PutOldAfter(newRoot: Path, putOld: Path): (r: Option<Path>)
    requires Names(newRoot) && Names(putOld)
    ensures r == if newRoot <= putOld && newRoot != putOld then Some(putOld[|newRoot|..]) else None
  {
    InsideMeaning(putOld, newRoot);
    assert newRoot <= putOld && |newRoot| == |putOld| ==> newRoot == putOld;
    if newRoot == [] then
      if putOld != [] then Some(putOld) else None
    else
      if StartsInside(Render(putOld), Render(newRoot)) then Some(putOld[|newRoot|..]) else None
  }

  /** Which old records are linked: new records have newer numbers, and an old record not yet visited is
      linked unless something new is bound at its guest path. */
  ghost predicate Linkage(now: seq<Binding>, snapshot: seq<Binding>, k: nat, firstNew: nat, done: set<Path>,
                          newRoot: Path, putOld: Option<Path>)
    requires k <= |snapshot|
  {
    && (forall x :: x in now ==> x in snapshot || x.id >= firstNew)
    && (forall i :: k <= i < |snapshot| && snapshot[i].guest != [] ==>
          (snapshot[i] in now <==> !Taken(done, newRoot, putOld, snapshot[i].guest)))
  }

  /** The bindings a guest list keeps when one guest path is taken over. */
  ghost predicate Took(was: seq<Binding>, now: seq<Binding>, firstNew: nat, except: Binding, taken: Option<Path>) {
    && (forall x :: x in now ==> x in was || x.id >= firstNew)
    && (forall x :: x in was && x != except ==> (x in now <==> taken != Some(x.guest)))
  }

  method VisitBelow(lists: BindingLists, b: Binding, newRoot: Path)
    requires lists.Valid() && Names(b.guest) && Names(b.host) && newRoot != [] && newRoot < b.guest
    requires b.id < lists.nextId && (b in lists.guest || Unlinked(lists.guest, b))
    modifies lists
    ensures lists.Valid() && lists.nextId >= old(lists.nextId)
    ensures lists.Map() == Moved(old(lists.Map()), newRoot, b.guest, b.host, b in old(lists.guest))
    ensures Took(old(lists.guest), lists.guest, old(lists.nextId), b, Some(b.guest[|newRoot|..]))
  {
    var r := b.guest[|newRoot|..];
    var moved := lists.Insort3(b.host, r);
    assert b in lists.guest <==> b in old(lists.guest);
    assert b in lists.guest || Unlinked(lists.guest, b) by {
      if b !in lists.guest {
        UnlinkedAfter(old(lists.guest), lists.guest, b, moved);
      }
    }
    lists.Remove(b);
  }

  lemma UnlinkedAfter(was: seq<Binding>, now: seq<Binding>, b: Binding, moved: Binding)
    requires Unlinked(was, b) && moved.id != b.id
    requires forall x :: x in now ==> x == moved || x in was
    ensures Unlinked(now, b)
  {
    forall i | 0 <= i < |now|
      ensures now[i].id != b.id
    {
      assert now[i] in now;
    }
  }

  method VisitOther(lists: BindingLists, b: Binding, putOld: Option<Path>)
    requires lists.Valid() && Names(b.guest) && Names(b.host)
    requires putOld.Some? ==> Names(putOld.value) && putOld.value != []
    modifies lists
    ensures lists.Valid() && lists.nextId >= old(lists.nextId)
    ensures lists.Map() == Aliased(old(lists.Map()), putOld, b.guest, b.host)
    ensures Took(old(lists.guest), lists.guest, old(lists.nextId), b,
                 if GetsAlias(putOld, b.guest) then Some(putOld.value + b.guest) else None)
  {
    if putOld.Some? {
      InsideMeaning(b.guest, putOld.value);
      if StartsAtOrInside(Render(b.guest), Render(putOld.value)) {
        return;
      }
      if |Render(putOld.value + b.guest)| >= PATH_MAX {
        return;
      }
      var alias := lists.Insort3(b.host, putOld.value + b.guest);
    }
  }

  lemma LinkageBelow(was: seq<Binding>, now: seq<Binding>, snapshot: seq<Binding>, k: nat, firstNew: nat, nextId: nat,
                     done: set<Path>, newRoot: Path, putOld: Option<Path>)
    requires k < |snapshot| && UniqueIds(snapshot) && firstNew <= nextId && Below(newRoot, snapshot[k].guest)
    requires forall i :: 0 <= i < |snapshot| ==> snapshot[i].id < firstNew
    requires Linkage(was, snapshot, k, firstNew, done, newRoot, putOld)
    requires Took(was, now, nextId, snapshot[k], Some(snapshot[k].guest[|newRoot|..]))
    ensures Linkage(now, snapshot, k + 1, firstNew, done + {snapshot[k].guest}, newRoot, putOld)
  {
    var b, r := snapshot[k].guest, snapshot[k].guest[|newRoot|..];
    StripPrefix(newRoot, b);
    forall i | k + 1 <= i < |snapshot| && snapshot[i].guest != []
      ensures snapshot[i] in now <==> !Taken(done + {b}, newRoot, putOld, snapshot[i].guest)
    {
      if newRoot + snapshot[i].guest == b {
        AppendInjective(newRoot, snapshot[i].guest, r);
      }
    }
  }

  lemma LinkageOther(was: seq<Binding>, now: seq<Binding>, snapshot: seq<Binding>, k: nat, firstNew: nat, nextId: nat,
                     done: set<Path>, newRoot: Path, putOld: Option<Path>, taken: Option<Path>)
    requires k < |snapshot| && UniqueIds(snapshot) && firstNew <= nextId && !Below(newRoot, snapshot[k].guest)
    requires forall i :: 0 <= i < |snapshot| ==> snapshot[i].id < firstNew
    requires Linkage(was, snapshot, k, firstNew, done, newRoot, putOld)
    requires taken == if snapshot[k].guest != [] && GetsAlias(putOld, snapshot[k].guest) then Some(putOld.value + snapshot[k].guest) else None
    requires Took(was, now, nextId, snapshot[k], taken)
    ensures Linkage(now, snapshot, k + 1, firstNew, done + {snapshot[k].guest}, newRoot, putOld)
  {
    var b := snapshot[k].guest;
    forall i | k + 1 <= i < |snapshot| && snapshot[i].guest != []
      ensures snapshot[i] in now <==> !Taken(done + {b}, newRoot, putOld, snapshot[i].guest)
    {
      var g := snapshot[i].guest;
      NotBelow(newRoot, b, g);
      if putOld.Some? && putOld.value <= g {
        StripPrefix(putOld.value, g);
        if g == putOld.value + b {
          AppendInjective(putOld.value, Under(putOld, g), b);
        }
      }
    }
  }

  lemma LinkedOrNot(now: seq<Binding>, snapshot: seq<Binding>, k: nat, firstNew: nat, done: set<Path>,
                    newRoot: Path, putOld: Option<Path>)
    requires k < |snapshot| && UniqueIds(snapshot) && Linkage(now, snapshot, k, firstNew, done, newRoot, putOld)
    requires forall i :: 0 <= i < |snapshot| ==> snapshot[i].id < firstNew
    ensures snapshot[k] in now || Unlinked(now, snapshot[k])
  {
    if snapshot[k] !in now {
      forall i | 0 <= i < |now|
        ensures now[i].id != snapshot[k].id
      {
        assert now[i] in now;
      }
    }
  }

  /** Everything the loop over the snapshot keeps. */
  ghost predicate Progress(lists: BindingLists, snapshot: seq<Binding>, k: nat, firstNew: nat,
                           m0: map<Path, Path>, done: set<Path>, newRoot: Path, newRootHost: Path, putOld: Option<Path>)
    reads lists
    requires k <= |snapshot| && done <= m0.Keys && [] in m0
  {
    && lists.Valid() && lists.nextId >= firstNew
    && Pivoting(lists.Map(), m0, done, newRoot, newRootHost, putOld)
    && Linkage(lists.guest, snapshot, k, firstNew, done, newRoot, putOld)
  }

  ghost predicate Snapshot(snapshot: seq<Binding>, firstNew: nat, m0: map<Path, Path>) {
    && UniqueIds(snapshot) && UniqueGuests(snapshot) && Canonical(snapshot) && m0 == MapOf(snapshot)
    && forall i :: 0 <= i < |snapshot| ==> snapshot[i].id < firstNew
  }

  /** One turn of the loop. */
  method Visit(lists: BindingLists, snapshot: seq<Binding>, k: nat, newRoot: Path, putOld: Option<Path>,
               ghost firstNew: nat, ghost m0: map<Path, Path>, ghost done: set<Path>, ghost newRootHost: Path)
    requires k < |snapshot| && Snapshot(snapshot, firstNew, m0) && done <= m0.Keys && [] in m0
    requires Progress(lists, snapshot, k, firstNew, m0, done, newRoot, newRootHost, putOld)
    requires snapshot[k].guest !in done && Names(newRoot)
    requires snapshot[k].guest in m0 && m0[snapshot[k].guest] == snapshot[k].host
    requires putOld.Some? ==> Names(putOld.value) && putOld.value != []
    modifies lists
    ensures Progress(lists, snapshot, k + 1, firstNew, m0, done + {snapshot[k].guest}, newRoot, newRootHost, putOld)
  {
    var b := snapshot[k];
    ghost var was, m, nextId := lists.guest, lists.Map(), lists.nextId;
    if b.guest == [] {
      StepRoot(m, m0, done, newRoot, newRootHost, putOld);
      LinkageOther(was, was, snapshot, k, firstNew, nextId, done, newRoot, putOld, None);
      return;
    }
    InsideMeaning(b.guest, newRoot);
    if StartsInside(Render(b.guest), Render(newRoot)) {
      LinkedOrNot(was, snapshot, k, firstNew, done, newRoot, putOld);
      StepBelow(m, m0, done, newRoot, newRootHost, putOld, b.guest, b in was);
      VisitBelow(lists, b, newRoot);
      LinkageBelow(was, lists.guest, snapshot, k, firstNew, nextId, done, newRoot, putOld);
    } else {
      StepKeep(m, m0, done, newRoot, newRootHost, putOld, b.guest);
      VisitOther(lists, b, putOld);
      LinkageOther(was, lists.guest, snapshot, k, firstNew, nextId, done, newRoot, putOld,
                   if GetsAlias(putOld, b.guest) then Some(putOld.value + b.guest) else None);
    }
  }

  /** `emulate_pivot_root`, once its paths are canonical: `newRootHost` is where the new root led before, and
      put_old carries no trailing separator. */
  method EmulatePivotRoot(lists: BindingLists, newRoot: Path, newRootHost: Path, putOld: Path)
    requires lists.Valid() && [] in lists.Map() && Names(newRoot) && Names(newRootHost) && Names(putOld)
    modifies lists
    ensures lists.Valid()
    ensures Pivoting(lists.Map(), old(lists.Map()), old(lists.Map()).Keys, newRoot, newRootHost, PutOldAfter(newRoot, putOld))
  {
    ghost var m0, firstNew := lists.Map(), lists.nextId;
    var snapshot := lists.guest;
    var after := PutOldAfter(newRoot, putOld);
    assert Snapshot(snapshot, firstNew, m0);
    BeginPivot(lists, newRoot, newRootHost, after);
    VisitAll(lists, snapshot, newRoot, after, firstNew, m0, newRootHost);
  }

  method VisitAll(lists: BindingLists, snapshot: seq<Binding>, newRoot: Path, putOld: Option<Path>,
                  ghost firstNew: nat, ghost m0: map<Path, Path>, ghost newRootHost: Path)
    requires Snapshot(snapshot, firstNew, m0) && [] in m0 && Names(newRoot)
    requires Progress(lists, snapshot, 0, firstNew, m0, {}, newRoot, newRootHost, putOld)
    requires putOld.Some? ==> Names(putOld.value) && putOld.value != []
    modifies lists
    ensures lists.Valid() && Pivoting(lists.Map(), m0, m0.Keys, newRoot, newRootHost, putOld)
  {
    VisitedAll(snapshot);
    ghost var done: set<Path> := {};
    for k := 0 to |snapshot|
      invariant done == Visited(snapshot, k) && done <= m0.Keys
      invariant Progress(lists, snapshot, k, firstNew, m0, done, newRoot, newRootHost, putOld)
    {
      VisitedNext(snapshot, k);
      Visit(lists, snapshot, k, newRoot, putOld, firstNew, m0, done, newRootHost);
      done := done + {snapshot[k].guest};
    }
  }

  method BeginPivot(lists: BindingLists, newRoot: Path, newRootHost: Path, putOld: Option<Path>)
    requires lists.Valid() && [] in lists.Map() && Names(newRootHost)
    requires putOld.Some? ==> Names(putOld.value) && putOld.value != []
    modifies lists
    ensures Progress(lists, old(lists.guest), 0, old(lists.nextId), old(lists.Map()), {}, newRoot, newRootHost, putOld)
  {
    ghost var m0, firstNew, snapshot := lists.Map(), lists.nextId, lists.guest;
    SwitchRoot(lists, newRootHost, putOld);
    StartPivot(m0, newRoot, newRootHost, putOld);
    LinkageStart(snapshot, lists.guest, firstNew, newRoot, putOld);
  }

  ghost function Visited(snapshot: seq<Binding>, k: nat): set<Path>
    requires k <= |snapshot|
  {
    MapOf(snapshot[..k]).Keys
  }

  lemma MapOfNext(list: seq<Binding>, k: nat)
    requires k < |list|
    ensures MapOf(list[..k + 1]) == MapOf(list[..k])[list[k].guest := list[k].host]
  {
    assert list[..k + 1][..k] == list[..k];
  }

  lemma VisitedNext(snapshot: seq<Binding>, k: nat)
    requires k < |snapshot| && UniqueGuests(snapshot)
    ensures snapshot[k].guest !in Visited(snapshot, k)
    ensures Visited(snapshot, k + 1) == Visited(snapshot, k) + {snapshot[k].guest}
    ensures snapshot[k].guest in MapOf(snapshot) && MapOf(snapshot)[snapshot[k].guest] == snapshot[k].host
  {
    MapOfNext(snapshot, k);
    if snapshot[k].guest in Visited(snapshot, k) {
      var i := BoundBySome(snapshot[..k], snapshot[k].guest);
    }
    BoundTo(snapshot, k);
  }

  lemma VisitedAll(snapshot: seq<Binding>)
    ensures Visited(snapshot, 0) == {} && Visited(snapshot, |snapshot|) == MapOf(snapshot).Keys
  {
    assert snapshot[..|snapshot|] == snapshot;
  }

  /** Only the records at "/" and at put_old can have gone. */
  ghost predicate Started(was: seq<Binding>, now: seq<Binding>, firstNew: nat, putOld: Option<Path>) {
    && (forall x :: x in now ==> x in was || x.id >= firstNew)
    && (forall x :: x in was && x.guest != [] ==> (x in now <==> putOld != Some(x.guest)))
  }

  lemma LinkageStart(was: seq<Binding>, now: seq<Binding>, firstNew: nat, newRoot: Path, putOld: Option<Path>)
    requires Started(was, now, firstNew, putOld)
    ensures Linkage(now, was, 0, firstNew, {}, newRoot, putOld)
  {
  }

  /** The root now leads to the new root, and put_old to the previous one. */
  method SwitchRoot(lists: BindingLists, newRootHost: Path, putOld: Option<Path>)
    requires lists.Valid() && [] in lists.Map() && Names(newRootHost)
    requires putOld.Some? ==> Names(putOld.value)
    modifies lists
    ensures lists.Valid() && lists.nextId >= old(lists.nextId)
    ensures lists.Map() == Switched(old(lists.Map()), newRootHost, putOld)
    ensures Started(old(lists.guest), lists.guest, old(lists.nextId), putOld)
  {
    var oldRootHost := ReplaceRoot(lists, newRootHost);
    if putOld.Some? {
      var exposed := lists.Insort3(oldRootHost, putOld.value);
    }
  }

  method ReplaceRoot(lists: BindingLists, newRootHost: Path) returns (oldRootHost: Path)
    requires lists.Valid() && [] in lists.Map() && Names(newRootHost)
    modifies lists
    ensures lists.Valid() && lists.nextId == old(lists.nextId) + 1
    ensures lists.Map() == old(lists.Map())[[] := newRootHost]
    ensures oldRootHost == old(lists.Map())[[]] && Names(oldRootHost)
    ensures Started(old(lists.guest), lists.guest, old(lists.nextId), None)
  {
    ghost var m0 := lists.Map();
    var found, root := lists.GetGuestBinding([]);
    assert root.guest == [];
    lists.Remove(root);
    RootGone(old(lists.guest), lists.guest, root);
    Rebound(m0, [], newRootHost);
    var b := lists.Insort3(newRootHost, []);
    oldRootHost := root.host;
  }

  lemma RootGone(was: seq<Binding>, now: seq<Binding>, root: Binding)
    requires UniqueIds(was) && root in was && root.guest == []
    requires forall x :: x in now <==> x in was && x.id != root.id
    ensures forall x :: x in was && x.guest != [] ==> x in now
  {
    var r :| 0 <= r < |was| && was[r] == root;
    forall x | x in was && x.guest != []
      ensures x in now
    {
      var i :| 0 <= i < |was| && was[i] == x;
      assert i != r;
    }
  }

  lemma Rebound(m: map<Path, Path>, g: Path, h: Path)
    ensures (m - {g})[g := h] == m[g := h]
  {
  }

  // ---------------------------------------------------------------- what pivot_root achieves

  lemma PrefixOfConcat(g: Path, a: Path, p: Path)
    requires g <= a + p
    ensures |g| <= |a| ==> g <= a
    ensures |a| <= |g| ==> g == a + g[|a|..] && g[|a|..] <= p
  {
    if |a| <= |g| {
      assert a == (a + p)[..|a|] == g[..|a|];
      assert p == (a + p)[|a|..];
    }
  }

  lemma OutsidePrefix(putOld: Option<Path>, g: Path, p: Path)
    requires Outside(putOld, p) && g <= p
    ensures Outside(putOld, g)
  {
  }

  /** What a prefix of a path not covered by put_old or a retained binding is bound to. */
  lemma AfterPivot(m: map<Path, Path>, m0: map<Path, Path>, newRoot: Path, host: Path, putOld: Option<Path>, p: Path, g: Path)
    requires [] in m0 && Pivoting(m, m0, m0.Keys, newRoot, host, putOld) && Outside(putOld, p)
    requires forall k :: k in m0 && k != [] && !Below(newRoot, k) ==> !(k <= p)
    requires g <= p
    ensures g == [] ==> g in m && m[g] == host
    ensures g != [] ==> (g in m <==> newRoot != [] && newRoot + g in m0)
    ensures g != [] && g in m ==> m[g] == m0[newRoot + g]
  {
    OutsidePrefix(putOld, g, p);
    assert EntryIs(m, m0, m0.Keys, newRoot, host, putOld, g);
  }

  /** The innermost binding of such a path is the moved innermost binding, or the root. */
  lemma InnermostAfterPivot(m: map<Path, Path>, m0: map<Path, Path>, newRoot: Path, host: Path, putOld: Option<Path>, p: Path)
    requires [] in m0 && Pivoting(m, m0, m0.Keys, newRoot, host, putOld) && Outside(putOld, p)
    requires forall g :: g in m0 && g != [] && !Below(newRoot, g) ==> !(g <= p)
    ensures [] in m && m[[]] == host
    ensures Longest(m, p) == [] ==> Longest(m0, newRoot + p) == Longest(m0, newRoot)
    ensures Longest(m, p) != [] ==>
      Longest(m0, newRoot + p) == newRoot + Longest(m, p) && m[Longest(m, p)] == m0[newRoot + Longest(m, p)]
  {
    var whole := newRoot + p;
    AfterPivot(m, m0, newRoot, host, putOld, p, []);
    var q, q0, q' := Longest(m, p), Longest(m0, whole), Longest(m0, newRoot);
    AfterPivot(m, m0, newRoot, host, putOld, p, q);
    PrefixOfConcat(q0, newRoot, p);
    assert newRoot <= whole && newRoot + q <= whole;
    if q == [] {
      if |newRoot| < |q0| {
        AfterPivot(m, m0, newRoot, host, putOld, p, q0[|newRoot|..]);
      }
      SameLength(q0, q', whole);
    } else {
      AfterPivot(m, m0, newRoot, host, putOld, p, q0[|newRoot|..]);
      SameLength(q0, newRoot + q, whole);
    }
  }

  /** After pivot_root, a guest path covered neither by put_old nor by a retained binding leads where the new
      root followed by that path led before. */
  lemma NewRootTheorem(m: map<Path, Path>, m0: map<Path, Path>, newRoot: Path, putOld: Option<Path>, p: Path)
    requires [] in m0 && Pivoting(m, m0, m0.Keys, newRoot, Resolve(m0, newRoot), putOld) && Outside(putOld, p)
    requires forall g :: g in m0 && g != [] && !Below(newRoot, g) ==> !(g <= p)
    ensures [] in m && Resolve(m, p) == Resolve(m0, newRoot + p)
  {
    InnermostAfterPivot(m, m0, newRoot, Resolve(m0, newRoot), putOld, p);
    if Longest(m, p) == [] {
      ResolveThrough(m, m0, newRoot, p);
    } else {
      ResolveMoved(m0, m, newRoot, p);
    }
  }

  lemma ResolveThrough(m: map<Path, Path>, m0: map<Path, Path>, a: Path, p: Path)
    requires [] in m && [] in m0 && m[[]] == Resolve(m0, a)
    requires Longest(m, p) == [] && Longest(m0, a + p) == Longest(m0, a)
    ensures Resolve(m, p) == Resolve(m0, a + p)
  {
    var q := Longest(m0, a);
    DropThenAppend(a, p, |q|);
    Reassociate(m0[q], a[|q|..], p);
    assert p[|Longest(m, p)|..] == p;
  }

  lemma DropThenAppend(a: Path, p: Path, n: nat)
    requires n <= |a|
    ensures (a + p)[n..] == a[n..] + p
  {
  }

  lemma Reassociate(x: Path, y: Path, z: Path)
    ensures (x + y) + z == x + (y + z)
  {
  }

  lemma ResolveMoved(m: map<Path, Path>, m0: map<Path, Path>, a: Path, p: Path)
    requires [] in m && [] in m0
    requires Longest(m, a + p) == a + Longest(m0, p) && m[a + Longest(m0, p)] == m0[Longest(m0, p)]
    ensures Resolve(m, a + p) == Resolve(m0, p)
  {
    var h := Longest(m0, p);
    assert (a + p)[|a + h|..] == p[|h|..];
  }

  lemma InnermostUnderPutOld(m: map<Path, Path>, m0: map<Path, Path>, newRoot: Path, host: Path, putOld: Path, p: Path)
    requires [] in m0 && Pivoting(m, m0, m0.Keys, newRoot, host, Some(putOld)) && putOld != []
    requires PutOldFree(m0, newRoot, putOld) && !Below(newRoot, p)
    requires forall g :: g in m0 && g <= p ==> |Render(putOld + g)| < PATH_MAX
    ensures [] in m && Longest(m, putOld + p) == putOld + Longest(m0, p)
    ensures m[putOld + Longest(m0, p)] == m0[Longest(m0, p)]
  {
    var whole := putOld + p;
    assert EntryIs(m, m0, m0.Keys, newRoot, host, Some(putOld), []);
    var q, h0 := Longest(m, whole), Longest(m0, p);
    FreeEntry(m, m0, m0.Keys, newRoot, host, putOld, h0);
    assert putOld + h0 <= whole;
    PrefixOfConcat(q, putOld, p);
    var h := q[|putOld|..];
    FreeEntry(m, m0, m0.Keys, newRoot, host, putOld, h);
    SameLength(h, h0, p);
  }

  /** When nothing was bound at put_old, put_old followed by a path outside the new root leads where that path
      led before, as long as the re-exposed names fit. */
  lemma PutOldTheorem(m: map<Path, Path>, m0: map<Path, Path>, newRoot: Path, host: Path, putOld: Path, p: Path)
    requires [] in m0 && Pivoting(m, m0, m0.Keys, newRoot, host, Some(putOld)) && putOld != []
    requires PutOldFree(m0, newRoot, putOld) && !Below(newRoot, p)
    requires forall g :: g in m0 && g <= p ==> |Render(putOld + g)| < PATH_MAX
    ensures [] in m && Resolve(m, putOld + p) == Resolve(m0, p)
  {
    InnermostUnderPutOld(m, m0, newRoot, host, putOld, p);
    ResolveMoved(m, m0, putOld, p);
  }

  // ---------------------------------------------------------------- whole runs

  datatype Op =
    | Mount(request: MountRequest, target: Option<Path>)
    | Umount(path: Path)
    | Pivot(newRoot: Path, newRootHost: Path, putOld: Path)

  ghost predicate Spelled(op: Op) {
    match op
    case Mount(request, target) =>
      && (target.Some? ==> Names(target.value)) && (request.source.Some? ==> Names(request.source.value))
      && (request.tmpdir.Some? ==> Names(request.tmpdir.value))
    case Umount(path) => Names(path)
    case Pivot(newRoot, newRootHost, putOld) => Names(newRoot) && Names(newRootHost) && Names(putOld)
  }

  /** What an operation does to the bindings of a tracee with a root. */
  ghost predicate Applies(m: map<Path, Path>, op: Op, m': map<Path, Path>)
    requires [] in m && Spelled(op)
  {
    match op
    case Mount(request, target) => m' == Mounted(m, MountedHost(request), target)
    case Umount(path) => m' == Unmounted(m, path)
    case Pivot(newRoot, newRootHost, putOld) => Pivoting(m', m, m.Keys, newRoot, newRootHost, PutOldAfter(newRoot, putOld))
  }

  method Perform(lists: BindingLists, op: Op)
    requires lists.Valid() && [] in lists.Map() && Spelled(op)
    modifies lists
    ensures lists.Valid() && [] in lists.Map() && Applies(old(lists.Map()), op, lists.Map())
  {
    match op
    case Mount(request, target) => EmulateMount(lists, request, target);
    case Umount(path) => EmulateUmount(lists, path);
    case Pivot(newRoot, newRootHost, putOld) =>
      ghost var m := lists.Map();
      EmulatePivotRoot(lists, newRoot, newRootHost, putOld);
      assert EntryIs(lists.Map(), m, m.Keys, newRoot, newRootHost, PutOldAfter(newRoot, putOld), []);
  }

  ghost predicate Maps(maps: seq<map<Path, Path>>, ops: seq<Op>) {
    && |maps| == |ops| + 1 && (forall i :: 0 <= i < |maps| ==> [] in maps[i])
    && forall i :: 0 <= i < |ops| ==> Spelled(ops[i]) && Applies(maps[i], ops[i], maps[i + 1])
  }

  lemma MapsNext(maps: seq<map<Path, Path>>, ops: seq<Op>, i: nat, next: map<Path, Path>)
    requires i < |ops| && Maps(maps, ops[..i]) && Spelled(ops[i]) && Applies(maps[i], ops[i], next) && [] in next
    ensures Maps(maps + [next], ops[..i + 1])
  {
    var more, now := maps + [next], ops[..i + 1];
    forall k | 0 <= k < |now|
      ensures Spelled(now[k]) && Applies(more[k], now[k], more[k + 1])
    {
      if k < i {
        assert ops[..i][k] == now[k];
      }
    }
  }

  /** Over any run of mounts, umounts and pivots from a root file system on, the lists stay sorted and consistent, each
      operation does what it should, and there is always a root. */
  method Run(root: Path, ops: seq<Op>) returns (lists: BindingLists, ghost maps: seq<map<Path, Path>>)
    requires Names(root) && forall i :: 0 <= i < |ops| ==> Spelled(ops[i])
    ensures fresh(lists) && lists.Valid() && Maps(maps, ops) && maps[0] == map[[] := root] && maps[|ops|] == lists.Map()
  {
    lists := new BindingLists(root);
    maps := [lists.Map()];
    for i := 0 to |ops|
      invariant fresh(lists) && lists.Valid() && Maps(maps, ops[..i]) && maps[0] == map[[] := root] && maps[i] == lists.Map()
    {
      Perform(lists, ops[i]);
      MapsNext(maps, ops, i, lists.Map());
      maps := maps + [lists.Map()];
    }
    assert ops[..|ops|] == ops;
  }
}
