/** When canonicalization succeeds, and which error it reports otherwise (proot-master/src/path/canon.c): stated on the
    file system for paths without links, and for all paths on the worklist resolver, whose work list then also shows
    where the target of a link ends. */
module Traversal {
  import opened Wrappers
  import opened Limits
  import opened Paths
  import opened Resolver
  import opened Canon
  import opened CanonCode

  // ---------------------------------------------------------------- paths without links

  predicate Ordinary(c: string) {
    c != "." && c != ".."
  }

  function Apply(base: Path, c: string): Path {
    if c == "." then base else if c == ".." then Parent(base) else base + [c]
  }

  /** Where names lead when none is a link. */
  function Lexical(base: Path, names: seq<string>): Path
    decreases |names|
  {
    if names == [] then base else Lexical(Apply(base, names[0]), names[1..])
  }

  /** The place the first `k + 1` names lead to. */
  function Prefix(base: Path, names: seq<string>, k: nat): string
    requires k < |names|
  {
    Render(Lexical(base, names[..k + 1]))
  }

  /** No name on the way is a link, except perhaps a last one that is not to be followed. */
  ghost predicate WithoutLinks(fs: FileSystem, base: Path, names: seq<string>, followLast: bool) {
    forall k: nat | k < |names| && Ordinary(names[k]) :: fs(Prefix(base, names, k)).Link? ==> k == |names| - 1 && !followLast
  }

  /** What is wrong with name `k`: it or its place is too long, or it is no directory although names follow. */
  ghost function Refusal(fs: FileSystem, base: Path, names: seq<string>, k: nat): Option<Error>
    requires k < |names|
  {
    if |names[k]| >= NAME_MAX then Some(ENAMETOOLONG)
    else if !Ordinary(names[k]) then None
    else if |Prefix(base, names, k)| + 1 >= PATH_MAX then Some(ENAMETOOLONG)
    else if k == |names| - 1 then None
    else match fs(Prefix(base, names, k))
      case Missing => Some(ENOENT)
      case File => Some(ENOTDIR)
      case _ => None
  }

  ghost predicate FirstRefusal(fs: FileSystem, base: Path, names: seq<string>, k: nat, e: Error) {
    && k < |names| && Refusal(fs, base, names, k) == Some(e)
    && forall j: nat | j < k :: Refusal(fs, base, names, j) == None
  }

  lemma RefusalShifts(fs: FileSystem, base: Path, names: seq<string>, k: nat)
    requires 0 < k < |names|
    ensures Prefix(base, names, k) == Prefix(Apply(base, names[0]), names[1..], k - 1)
    ensures Refusal(fs, base, names, k) == Refusal(fs, Apply(base, names[0]), names[1..], k - 1)
  {
    assert names[..k + 1][1..] == names[1..][..k];
  }

  lemma WithoutLinksRest(fs: FileSystem, base: Path, names: seq<string>, followLast: bool)
    requires WithoutLinks(fs, base, names, followLast) && names != []
    ensures WithoutLinks(fs, Apply(base, names[0]), names[1..], followLast)
  {
    forall k: nat | k < |names[1..]| && Ordinary(names[1..][k]) && fs(Prefix(Apply(base, names[0]), names[1..], k)).Link?
      ensures k == |names[1..]| - 1 && !followLast
    {
      RefusalShifts(fs, base, names, k + 1);
      assert names[k + 1] == names[1..][k];
    }
  }

  /** The walk over names that are no links stops at the first that is refused. */
  lemma {:induction false} WalkWithoutLinks(fs: FileSystem, names: seq<string>, followLast: bool, base: Path, level: nat, followed: nat, max: nat)
    returns (k: nat)
    requires level <= max && WithoutLinks(fs, base, names, followLast)
    ensures var r := Walk(fs, names, followLast, base, level, followed, max);
      if r.Ok? then r.value == Lexical(base, names) && NoneRefused(fs, base, names)
      else FirstRefusal(fs, base, names, k, r.error)
    decreases |names|
  {
    k := 0;
    if names != [] {
      var c, rest := names[0], names[1..];
      FirstName(fs, names, followLast, base, level, followed, max);
      if Refusal(fs, base, names, 0) == None {
        WithoutLinksRest(fs, base, names, followLast);
        var j := WalkWithoutLinks(fs, rest, followLast, Apply(base, c), level, followed, max);
        forall i: nat | 0 < i < |names|
          ensures Refusal(fs, base, names, i) == Refusal(fs, Apply(base, c), rest, i - 1)
        {
          RefusalShifts(fs, base, names, i);
        }
        k := j + 1;
      }
    }
  }

  lemma FirstName(fs: FileSystem, names: seq<string>, followLast: bool, base: Path, level: nat, followed: nat, max: nat)
    requires level <= max && WithoutLinks(fs, base, names, followLast) && names != []
    ensures Walk(fs, names, followLast, base, level, followed, max) ==
      match Refusal(fs, base, names, 0)
      case Some(e) => Err(e)
      case None => Walk(fs, names[1..], followLast, Apply(base, names[0]), level, followed, max)
  {
    assert names[..1] == [names[0]];
    assert Lexical(base, names[..1]) == Apply(base, names[0]);
    if Ordinary(names[0]) {
      assert fs(Prefix(base, names, 0)).Link? ==> |names| == 1 && !followLast;
    }
  }

  /** A path without links is accepted exactly when no name is refused: whatever the last one is, it may be a file or
      not be there.  It then leads where its names say, and otherwise the first refusal is the error. */
  lemma PlainExactly(fs: FileSystem, user: string, deref: bool, base: Path, level: nat, max: nat)
    requires level <= max && |Render(base)| < PATH_MAX
    requires WithoutLinks(fs, if IsAbsolute(user) then [] else base, Split(user), deref || EndsWithSlash(user))
    ensures var r, start, names := Canonicalized(fs, user, deref, base, level, max), if IsAbsolute(user) then [] else base, Split(user);
      && (r.Ok? <==> NoneRefused(fs, start, names))
      && (r.Ok? ==> r.value == Lexical(start, names))
      && forall e :: r == Err(e) <==> Refused(fs, start, names, e)
  {
    var start, names := if IsAbsolute(user) then [] else base, Split(user);
    var k := WalkWithoutLinks(fs, names, deref || EndsWithSlash(user), start, level, 0, max);
    var r := Canonicalized(fs, user, deref, base, level, max);
    forall e
      ensures r == Err(e) <==> Refused(fs, start, names, e)
    {
      if r.Err? {
        OneRefusal(fs, start, names, e, k, r.error);
      }
    }
  }

  ghost predicate NoneRefused(fs: FileSystem, base: Path, names: seq<string>) {
    forall k: nat | k < |names| :: Refusal(fs, base, names, k) == None
  }

  /** The first name that is refused is refused with that error. */
  ghost predicate Refused(fs: FileSystem, base: Path, names: seq<string>, e: Error) {
    exists k: nat :: FirstRefusal(fs, base, names, k, e)
  }

  lemma OneRefusal(fs: FileSystem, base: Path, names: seq<string>, e: Error, k: nat, f: Error)
    requires FirstRefusal(fs, base, names, k, f)
    ensures Refused(fs, base, names, e) <==> e == f
  {
    if Refused(fs, base, names, e) {
      var j: nat :| FirstRefusal(fs, base, names, j, e);
      assert j == k;
    }
  }

  // ---------------------------------------------------------------- all paths

  /** A name still to resolve, or the end of the target of a link found in `from`; links followed behind that end are
      counted from `cost` on. */
  datatype Task = Enter(name: string, follow: bool) | Back(from: Path, cost: nat)

  /** `cost` counts the links followed, those inside the targets of links already left behind excepted. */
  datatype State = State(base: Path, work: seq<Task>, cost: nat)

  ghost function Tasks(names: seq<string>, followLast: bool): (r: seq<Task>)
    ensures |r| == |names|
  {
    seq(|names|, i requires 0 <= i < |names| => Enter(names[i], i < |names| - 1 || followLast))
  }

  /** No name follows in the same path. */
  ghost predicate Last(work: seq<Task>) {
    |work| <= 1 || work[1].Back?
  }

  ghost function NoDirectory(kind: Kind): Option<Error> {
    match kind
    case Missing => Some(ENOENT)
    case File => Some(ENOTDIR)
    case _ => None
  }

  /** Why the resolver may not go on: something is too long, too many links were followed, a link leads back to where it
      was found, or what is followed by a name is no directory. */
  ghost function Blocked(fs: FileSystem, s: State, max: nat): Option<Error>
    requires s.work != []
  {
    match s.work[0]
    case Enter(c, follow) =>
      if |c| >= NAME_MAX then Some(ENAMETOOLONG)
      else if !Ordinary(c) then None
      else if |Render(s.base + [c])| + 1 >= PATH_MAX then Some(ENAMETOOLONG)
      else
        var kind := fs(Render(s.base + [c]));
        if kind.Link? && follow then
          if |kind.target| >= PATH_MAX then Some(ENAMETOOLONG) else if s.cost + 1 > max then Some(ELOOP) else None
        else if Last(s.work) then None
        else NoDirectory(kind)
    case Back(from, _) =>
      if s.base == from then Some(ELOOP) else if Last(s.work) then None else NoDirectory(fs(Render(s.base)))
  }

  /** One step of the resolver: the same as without the marks. */
  ghost function Advance(fs: FileSystem, s: State): State
    requires s.work != []
  {
    var rest := s.work[1..];
    match s.work[0]
    case Back(_, cost) => State(s.base, rest, cost)
    case Enter(c, follow) =>
      var kind := fs(Render(s.base + [c]));
      if Ordinary(c) && kind.Link? && follow then
        State(if IsAbsolute(kind.target) then [] else s.base,
              Tasks(Split(kind.target), true) + [Back(s.base, s.cost + 1)] + rest, s.cost + 1)
      else State(Apply(s.base, c), rest, s.cost)
  }

  /** `n` steps, none of them blocked. */
  ghost predicate Goes(fs: FileSystem, s: State, n: nat, t: State, max: nat)
    decreases n
  {
    if n == 0 then s == t
    else s.work != [] && Blocked(fs, s, max) == None && Goes(fs, Advance(fs, s), n - 1, t, max)
  }

  lemma {:induction false} GoesThen(fs: FileSystem, s: State, n: nat, t: State, k: nat, u: State, max: nat)
    requires Goes(fs, s, n, t, max) && Goes(fs, t, k, u, max)
    ensures Goes(fs, s, n + k, u, max)
    decreases n
  {
    if n > 0 {
      GoesThen(fs, Advance(fs, s), n - 1, t, k, u, max);
    }
  }

  /** The resolver stops in `t`: nothing is left, or it is blocked. */
  ghost predicate Stops(fs: FileSystem, t: State, max: nat) {
    t.work == [] || Blocked(fs, t, max) != None
  }

  lemma {:induction false} OneStop(fs: FileSystem, s: State, n: nat, t: State, k: nat, u: State, max: nat)
    requires Goes(fs, s, n, t, max) && Goes(fs, s, k, u, max) && Stops(fs, t, max) && Stops(fs, u, max)
    ensures n == k && t == u
    decreases n
  {
    if n > 0 && k > 0 {
      OneStop(fs, Advance(fs, s), n - 1, t, k - 1, u, max);
    }
  }

  /** How a call that reads names to the end of its path leaves the resolver: with what waits behind, or blocked. */
  ghost predicate Left(fs: FileSystem, r: Result<Path>, t: State, rest: seq<Task>, max: nat) {
    match r
    case Ok(cs) => t.base == cs && t.work == rest
    case Err(e) => t.work != [] && Blocked(fs, t, max) == Some(e)
  }

  /** How one name leaves it. */
  ghost predicate Passed(fs: FileSystem, r: Result<(Path, nat)>, t: State, more: seq<Task>, level: nat, max: nat) {
    match r
    case Ok((cs, followed)) => t == State(cs, more, level + followed) && level + followed <= max
    case Err(e) => t.work != [] && Blocked(fs, t, max) == Some(e)
  }

  lemma TasksFirst(names: seq<string>, followLast: bool, rest: seq<Task>)
    requires names != []
    ensures Tasks(names, followLast) + rest == [Enter(names[0], |names| > 1 || followLast)] + (Tasks(names[1..], followLast) + rest)
  {
  }

  /** "." and ".." are never blocked. */
  lemma DotGoes(fs: FileSystem, s: State, c: string, follow: bool, more: seq<Task>, n: nat, t: State, max: nat)
    requires s.work == [Enter(c, follow)] + more && |c| < NAME_MAX && !Ordinary(c)
    requires Goes(fs, State(Apply(s.base, c), more, s.cost), n, t, max)
    ensures Goes(fs, s, n + 1, t, max)
  {
    assert s.work[1..] == more;
  }

  lemma {:induction false} WalkGoes(fs: FileSystem, names: seq<string>, followLast: bool, base: Path, level: nat, followed: nat, max: nat,
                                    rest: seq<Task>, s: State)
    returns (n: nat, t: State)
    requires level + followed <= max && (rest == [] || rest[0].Back?)
    requires s == State(base, Tasks(names, followLast) + rest, level + followed)
    ensures Goes(fs, s, n, t, max) && Left(fs, Walk(fs, names, followLast, base, level, followed, max), t, rest, max)
    decreases Depth(level, max), 1, |names|, 1
  {
    if names == [] {
      assert Tasks(names, followLast) + rest == rest;
      return 0, s;
    }
    var c, others := names[0], names[1..];
    var more := Tasks(others, followLast) + rest;
    TasksFirst(names, followLast, rest);
    if |c| >= NAME_MAX {
      return 0, s;
    }
    if !Ordinary(c) {
      WalkDots(fs, names, followLast, base, level, followed, max);
      var k, u := WalkGoes(fs, others, followLast, Apply(base, c), level, followed, max, rest, State(Apply(base, c), more, s.cost));
      DotGoes(fs, s, c, others != [] || followLast, more, k, u, max);
      return k + 1, u;
    }
    n, t := NameGoes(fs, names, followLast, base, level, followed, max, rest, more, s);
  }

  lemma {:induction false} NameGoes(fs: FileSystem, names: seq<string>, followLast: bool, base: Path, level: nat, followed: nat, max: nat,
                                    rest: seq<Task>, more: seq<Task>, s: State)
    returns (n: nat, t: State)
    requires level + followed <= max && (rest == [] || rest[0].Back?)
    requires names != [] && |names[0]| < NAME_MAX && Ordinary(names[0])
    requires more == Tasks(names[1..], followLast) + rest
    requires s == State(base, [Enter(names[0], names[1..] != [] || followLast)] + more, level + followed)
    ensures Goes(fs, s, n, t, max) && Left(fs, Walk(fs, names, followLast, base, level, followed, max), t, rest, max)
    decreases Depth(level, max), 1, |names|, 0
  {
    var c, others := names[0], names[1..];
    NextTask(others, followLast, rest, more);
    var i, v := EnteredGoes(fs, c, others == [], others != [] || followLast, base, level, followed, max, more, s);
    WalkEnters(fs, names, followLast, base, level, followed, max);
    match Entered(fs, c, others == [], others != [] || followLast, base, level, followed, max) {
      case Err(_) =>
        return i, v;
      case Ok((base', followed')) =>
        n, t := RestGoes(fs, others, followLast, base', level, followed', max, rest, s, i, v);
    }
  }

  /** The names behind one that has been passed. */
  lemma {:induction false} RestGoes(fs: FileSystem, names: seq<string>, followLast: bool, base: Path, level: nat, followed: nat, max: nat,
                                    rest: seq<Task>, s: State, i: nat, v: State)
    returns (n: nat, t: State)
    requires level + followed <= max && (rest == [] || rest[0].Back?)
    requires Goes(fs, s, i, v, max) && v == State(base, Tasks(names, followLast) + rest, level + followed)
    ensures Goes(fs, s, n, t, max) && Left(fs, Walk(fs, names, followLast, base, level, followed, max), t, rest, max)
    decreases Depth(level, max), 1, |names|, 2
  {
    n, t := WalkGoes(fs, names, followLast, base, level, followed, max, rest, v);
    GoesThen(fs, s, i, v, n, t, max);
    n := i + n;
  }

  lemma NextTask(others: seq<string>, followLast: bool, rest: seq<Task>, more: seq<Task>)
    requires more == Tasks(others, followLast) + rest && (rest == [] || rest[0].Back?)
    ensures others == [] <==> more == [] || more[0].Back?
  {
    if others != [] {
      assert more[0] == Enter(others[0], |others| > 1 || followLast);
    } else {
      assert more == rest;
    }
  }

  lemma {:induction false} EnteredGoes(fs: FileSystem, c: string, last: bool, follow: bool, base: Path, level: nat, followed: nat, max: nat,
                                       more: seq<Task>, s: State)
    returns (n: nat, t: State)
    requires level + followed <= max && |c| < NAME_MAX && Ordinary(c)
    requires last == (more == [] || more[0].Back?) && (!last ==> follow)
    requires s == State(base, [Enter(c, follow)] + more, level + followed)
    ensures Goes(fs, s, n, t, max) && Passed(fs, Entered(fs, c, last, follow, base, level, followed, max), t, more, level, max)
    decreases Depth(level, max), 0
  {
    NameBlocked(fs, c, last, follow, base, level, followed, max, more, s);
    n, t := 0, s;
    if Blocked(fs, s, max) == None {
      var kind := fs(Render(base + [c]));
      var u := Advance(fs, s);
      OneStep(fs, s, u, max);
      if kind.Link? && follow {
        n, t := LinkGoes(fs, kind.target, c, last, base, level, followed, max, more, s, u);
      } else {
        n, t := 1, u;
      }
    }
  }

  lemma OneStep(fs: FileSystem, s: State, u: State, max: nat)
    requires s.work != [] && Blocked(fs, s, max) == None && u == Advance(fs, s)
    ensures Goes(fs, s, 1, u, max)
  {
    assert Goes(fs, u, 0, u, max);
  }

  /** What blocks a name is its error, and a name that is no link to follow is then passed. */
  lemma NameBlocked(fs: FileSystem, c: string, last: bool, follow: bool, base: Path, level: nat, followed: nat, max: nat,
                    more: seq<Task>, s: State)
    requires level + followed <= max && |c| < NAME_MAX && Ordinary(c)
    requires last == (more == [] || more[0].Back?) && (!last ==> follow)
    requires s == State(base, [Enter(c, follow)] + more, level + followed)
    ensures Blocked(fs, s, max).Some? ==> Entered(fs, c, last, follow, base, level, followed, max) == Err(Blocked(fs, s, max).value)
    ensures var kind := fs(Render(base + [c]));
      Blocked(fs, s, max) == None ==>
        && |Render(base + [c])| + 1 < PATH_MAX
        && (kind.Link? && follow ==>
              && |kind.target| < PATH_MAX && level + followed + 1 <= max
              && Advance(fs, s) == State(if IsAbsolute(kind.target) then [] else base,
                                         Tasks(Split(kind.target), true) + [Back(base, level + followed + 1)] + more, level + followed + 1))
        && (!(kind.Link? && follow) ==>
              && Advance(fs, s) == State(base + [c], more, level + followed)
              && Entered(fs, c, last, follow, base, level, followed, max) == Ok((base + [c], followed)))
  {
    assert s.work[1..] == more && Last(s.work) == last;
  }

  lemma {:induction false} LinkGoes(fs: FileSystem, target: string, c: string, last: bool, base: Path, level: nat, followed: nat, max: nat,
                                    more: seq<Task>, s: State, u: State)
    returns (n: nat, t: State)
    requires fs(Render(base + [c])) == Link(target) && |Render(base + [c])| + 1 < PATH_MAX && |target| < PATH_MAX
    requires level + followed + 1 <= max && last == (more == [] || more[0].Back?) && Goes(fs, s, 1, u, max)
    requires u == State(if IsAbsolute(target) then [] else base,
                        Tasks(Split(target), true) + [Back(base, level + followed + 1)] + more, level + followed + 1)
    ensures Goes(fs, s, n, t, max) && Passed(fs, Entered(fs, c, last, true, base, level, followed, max), t, more, level, max)
    decreases Depth(level + 1, max), 3
  {
    n, t := TargetGoes(fs, target, c, last, base, level, followed, max, more, u);
    GoesThen(fs, s, 1, u, n, t, max);
    n := 1 + n;
  }

  /** Through the target of a link, and back. */
  lemma {:induction false} TargetGoes(fs: FileSystem, target: string, c: string, last: bool, base: Path, level: nat, followed: nat, max: nat,
                                      more: seq<Task>, s: State)
    returns (n: nat, t: State)
    requires fs(Render(base + [c])) == Link(target) && |Render(base + [c])| + 1 < PATH_MAX && |target| < PATH_MAX
    requires level + followed + 1 <= max && last == (more == [] || more[0].Back?)
    requires s == State(if IsAbsolute(target) then [] else base,
                        Tasks(Split(target), true) + [Back(base, level + followed + 1)] + more, level + followed + 1)
    ensures Goes(fs, s, n, t, max) && Passed(fs, Entered(fs, c, last, true, base, level, followed, max), t, more, level, max)
    decreases Depth(level + 1, max), 2
  {
    var cost := level + followed + 1;
    var behind := [Back(base, cost)] + more;
    assert s.work == Tasks(Split(target), true) + behind;
    n, t := WalkGoes(fs, Split(target), true, s.base, cost, 0, max, behind, s);
    EnteredLink(fs, target, c, last, base, level, followed, max);
    if Walk(fs, Split(target), true, s.base, cost, 0, max).Ok? {
      AfterTarget(fs, t, base, cost, more, last, max);
      var u := State(t.base, more, cost);
      if Returned(fs, t.base, base, last) == None {
        GoesThen(fs, s, n, t, 1, u, max);
        n, t := n + 1, u;
      }
    }
  }

  /** What a link is refused for once its target is resolved. */
  ghost function Returned(fs: FileSystem, referee: Path, from: Path, last: bool): Option<Error> {
    if referee == from then Some(ELOOP) else if last then None else NoDirectory(fs(Render(referee)))
  }

  lemma EnteredLink(fs: FileSystem, target: string, c: string, last: bool, base: Path, level: nat, followed: nat, max: nat)
    requires fs(Render(base + [c])) == Link(target) && |Render(base + [c])| + 1 < PATH_MAX && |target| < PATH_MAX
    requires level + followed + 1 <= max
    ensures Entered(fs, c, last, true, base, level, followed, max) ==
      match Walk(fs, Split(target), true, if IsAbsolute(target) then [] else base, level + followed + 1, 0, max)
      case Err(e) => Err(e)
      case Ok(referee) =>
        match Returned(fs, referee, base, last)
        case Some(e) => Err(e)
        case None => Ok((referee, followed + 1))
  {
    BaseFits(base, c);
  }

  lemma AfterTarget(fs: FileSystem, t: State, from: Path, cost: nat, more: seq<Task>, last: bool, max: nat)
    requires t.work == [Back(from, cost)] + more && last == (more == [] || more[0].Back?)
    ensures Blocked(fs, t, max) == Returned(fs, t.base, from, last)
    ensures Blocked(fs, t, max) == None ==> Goes(fs, t, 1, State(t.base, more, cost), max)
  {
    assert last == Last(t.work);
    if Blocked(fs, t, max) == None {
      BackGoes(fs, t, from, cost, more, max);
    }
  }

  lemma BackGoes(fs: FileSystem, t: State, from: Path, cost: nat, more: seq<Task>, max: nat)
    requires t.work == [Back(from, cost)] + more && Blocked(fs, t, max) == None
    ensures Goes(fs, t, 1, State(t.base, more, cost), max)
  {
    assert t.work[1..] == more;
    assert Goes(fs, Advance(fs, t), 0, State(t.base, more, cost), max);
  }

  lemma BaseFits(base: Path, c: string)
    requires |Render(base + [c])| + 1 < PATH_MAX
    ensures |Render(base)| < PATH_MAX
  {
    SlashedConcat(base, [c]);
  }

  ghost function Start(user: string, deref: bool, base: Path): State {
    State(if IsAbsolute(user) then [] else base, Tasks(Split(user), deref || EndsWithSlash(user)), 0)
  }

  ghost predicate Arrives(fs: FileSystem, s: State, cs: Path, max: nat) {
    exists n: nat, t :: Goes(fs, s, n, t, max) && t.work == [] && t.base == cs
  }

  ghost predicate Fails(fs: FileSystem, s: State, e: Error, max: nat) {
    exists n: nat, t :: Goes(fs, s, n, t, max) && t.work != [] && Blocked(fs, t, max) == Some(e)
  }

  /** `canonicalize` succeeds exactly when the resolver comes to its end without being blocked, and fails exactly with
      the error that blocks it. */
  lemma ResolvesExactly(fs: FileSystem, user: string, deref: bool, base: Path, max: nat)
    requires |Render(base)| < PATH_MAX
    ensures forall cs :: Canonicalized(fs, user, deref, base, 0, max) == Ok(cs) <==> Arrives(fs, Start(user, deref, base), cs, max)
    ensures forall e :: Canonicalized(fs, user, deref, base, 0, max) == Err(e) <==> Fails(fs, Start(user, deref, base), e, max)
  {
    var s := Start(user, deref, base);
    assert s.work + [] == s.work;
    var n, t := WalkGoes(fs, Split(user), deref || EndsWithSlash(user), s.base, 0, 0, max, [], s);
    forall cs
      ensures Canonicalized(fs, user, deref, base, 0, max) == Ok(cs) <==> Arrives(fs, s, cs, max)
    {
      ArrivesAt(fs, s, n, t, cs, max);
    }
    forall e
      ensures Canonicalized(fs, user, deref, base, 0, max) == Err(e) <==> Fails(fs, s, e, max)
    {
      FailsAt(fs, s, n, t, e, max);
    }
  }

  lemma ArrivesAt(fs: FileSystem, s: State, n: nat, t: State, cs: Path, max: nat)
    requires Goes(fs, s, n, t, max) && Stops(fs, t, max)
    ensures Arrives(fs, s, cs, max) <==> t.work == [] && t.base == cs
  {
    if Arrives(fs, s, cs, max) {
      var k: nat, u :| Goes(fs, s, k, u, max) && u.work == [] && u.base == cs;
      OneStop(fs, s, n, t, k, u, max);
    }
  }

  lemma FailsAt(fs: FileSystem, s: State, n: nat, t: State, e: Error, max: nat)
    requires Goes(fs, s, n, t, max) && Stops(fs, t, max)
    ensures Fails(fs, s, e, max) <==> t.work != [] && Blocked(fs, t, max) == Some(e)
  {
    if Fails(fs, s, e, max) {
      var k: nat, u :| Goes(fs, s, k, u, max) && u.work != [] && Blocked(fs, u, max) == Some(e);
      OneStop(fs, s, n, t, k, u, max);
    }
  }

  // ---------------------------------------------------------------- the marks change nothing else

  ghost function PlainWork(work: seq<Task>): seq<Item> {
    if work == [] then []
    else
      var rest := PlainWork(work[1..]);
      match work[0]
      case Enter(c, follow) => [Item(c, follow)] + rest
      case Back(_, _) => rest
  }

  ghost function Plain(s: State): Config {
    Config(s.base, PlainWork(s.work))
  }

  lemma {:induction false} PlainTasks(names: seq<string>, followLast: bool, rest: seq<Task>)
    ensures PlainWork(Tasks(names, followLast) + rest) == Items(names, followLast) + PlainWork(rest)
    decreases |names|
  {
    if names == [] {
      assert Tasks(names, followLast) + rest == rest;
    } else {
      TasksFirst(names, followLast, rest);
      var tail := Tasks(names[1..], followLast) + rest;
      assert ([Enter(names[0], |names| > 1 || followLast)] + tail)[1..] == tail;
      PlainTasks(names[1..], followLast, rest);
    }
  }

  lemma AdvanceIsStep(fs: FileSystem, s: State)
    requires s.work != []
    ensures if s.work[0].Back? then Plain(Advance(fs, s)) == Plain(s)
            else PlainWork(s.work) != [] && Plain(Advance(fs, s)) == Step(fs, Plain(s))
  {
    if s.work[0].Enter? {
      var c, rest := s.work[0].name, s.work[1..];
      assert PlainWork(s.work)[1..] == PlainWork(rest);
      var kind := fs(Render(s.base + [c]));
      if Ordinary(c) && kind.Link? && s.work[0].follow {
        var back := [Back(s.base, s.cost + 1)];
        var tasks := Tasks(Split(kind.target), true);
        assert tasks + back + rest == tasks + (back + rest) && (back + rest)[1..] == rest;
        PlainTasks(Split(kind.target), true, back + rest);
      }
    }
  }

  /** Every run without a block is a run of the worklist resolver. */
  lemma {:induction false} GoesRuns(fs: FileSystem, s: State, n: nat, t: State, max: nat) returns (m: nat)
    requires Goes(fs, s, n, t, max)
    ensures m <= n && Runs(fs, Plain(s), m, Plain(t))
    decreases n
  {
    m := 0;
    if n > 0 {
      AdvanceIsStep(fs, s);
      m := GoesRuns(fs, Advance(fs, s), n - 1, t, max);
      if s.work[0].Enter? {
        m := m + 1;
      }
    }
  }

  // ---------------------------------------------------------------- what lies on the way

  /** The path and all that contains it are directories. */
  ghost predicate Directories(fs: FileSystem, cs: Path) {
    forall k: nat | k <= |cs| :: fs(Render(cs[..k])).Dir?
  }

  lemma DirectoriesParent(fs: FileSystem, cs: Path)
    requires Directories(fs, cs)
    ensures Directories(fs, Parent(cs))
  {
    forall k: nat | k <= |Parent(cs)|
      ensures fs(Render(Parent(cs)[..k])).Dir?
    {
      assert Parent(cs)[..k] == cs[..k];
    }
  }

  lemma DirectoriesChild(fs: FileSystem, cs: Path)
    requires Directories(fs, Parent(cs)) && fs(Render(cs)).Dir?
    ensures Directories(fs, cs)
  {
    forall k: nat | k <= |cs|
      ensures fs(Render(cs[..k])).Dir?
    {
      if k < |cs| {
        assert cs[..k] == Parent(cs)[..k];
      } else {
        assert cs[..k] == cs;
      }
    }
  }

  /** From a directory, what is reached lies in directories, whatever it is itself and however many links led there. */
  lemma {:induction false} LiesInDirectories(fs: FileSystem, user: string, deref: bool, base: Path, level: nat, max: nat)
    requires GoodFileSystem(fs) && '\0' !in user && Proper(base) && LinkFree(fs, base) && Directories(fs, base)
    requires Canonicalized(fs, user, deref, base, level, max).Ok?
    ensures Directories(fs, Parent(Canonicalized(fs, user, deref, base, level, max).value))
    decreases Depth(level, max), |user| + 2
  {
    SplitNames(user);
    DirectoriesParent(fs, base);
    assert base[..0] == [];
    assert Directories(fs, []);
    WalkDirectories(fs, Split(user), deref || EndsWithSlash(user), if IsAbsolute(user) then [] else base, level, 0, max);
  }

  lemma {:induction false} WalkDirectories(fs: FileSystem, names: seq<string>, followLast: bool, base: Path, level: nat, followed: nat, max: nat)
    requires GoodFileSystem(fs) && Names(names) && Proper(base) && Directories(fs, Parent(base))
    requires names != [] ==> LinkFree(fs, base) && Directories(fs, base)
    requires level <= max && Walk(fs, names, followLast, base, level, followed, max).Ok?
    ensures Directories(fs, Parent(Walk(fs, names, followLast, base, level, followed, max).value))
    decreases Depth(level, max), 1, |names|
  {
    if names != [] {
      var c, rest := names[0], names[1..];
      if !Ordinary(c) {
        WalkDots(fs, names, followLast, base, level, followed, max);
        LinkFreeParent(fs, base);
        DirectoriesParent(fs, Parent(base));
        WalkDirectories(fs, rest, followLast, Apply(base, c), level, followed, max);
      } else {
        WalkEnters(fs, names, followLast, base, level, followed, max);
        EnteredShape(fs, c, rest == [], rest != [] || followLast, base, level, followed, max);
        EnteredDirectories(fs, c, rest == [], rest != [] || followLast, base, level, followed, max);
        var (base', followed') := Entered(fs, c, rest == [], rest != [] || followLast, base, level, followed, max).value;
        WalkDirectories(fs, rest, followLast, base', level, followed', max);
      }
    }
  }

  lemma {:induction false} EnteredDirectories(fs: FileSystem, c: string, last: bool, follow: bool, base: Path, level: nat, followed: nat, max: nat)
    requires GoodFileSystem(fs) && Name(c) && Ordinary(c) && Proper(base) && LinkFree(fs, base) && Directories(fs, base)
    requires level <= max && Entered(fs, c, last, follow, base, level, followed, max).Ok? && (!last ==> follow)
    ensures var cs := Entered(fs, c, last, follow, base, level, followed, max).value.0;
      Directories(fs, Parent(cs)) && (!last ==> Directories(fs, cs))
    decreases Depth(level, max), 0
  {
    var kind := fs(Render(base + [c]));
    var cs := Entered(fs, c, last, follow, base, level, followed, max).value.0;
    if kind.Link? && follow {
      LiesInDirectories(fs, kind.target, true, base, level + followed + 1, max);
      RefereeIsNoLink(fs, kind.target, base, level + followed + 1, max);
    } else {
      assert Parent(base + [c]) == base;
    }
    if !last {
      DirectoriesChild(fs, cs);
    }
  }

  // ---------------------------------------------------------------- on strings

  /** A terminating separator or "." must fit too. */
  ghost predicate EndingFits(cs: Path, f: Finality) {
    f == FinalNormal || |Render(cs) + Ending(cs, f)| + 1 < PATH_MAX
  }

  lemma FinishExactly(cs: Path, f: Finality)
    requires Names(cs) && f != NotFinal
    ensures Finish(Render(cs), f) == if EndingFits(cs, f) then Ok(Render(cs) + Ending(cs, f)) else Err(ENAMETOOLONG)
  {
    RenderLength(cs);
    if cs != [] {
      SlashedShape(cs);
    }
    var a := Render(cs);
    assert a + "" == a && a + "/" + "" == a + "/" && a + "/" + "." == a + "/.";
  }

  /** What a caller gets for a path with names, or for the empty one at the root: the text and the error of the
      resolver. */
  ghost predicate Resolved(fs: FileSystem, user: string, deref: bool, base: Path, max: nat, r: Result<string>) {
    var s, f := Start(user, deref, base), FinalityOf(user);
    && (r.Ok? ==> exists cs :: Arrives(fs, s, cs, max) && EndingFits(cs, f) && r.value == Render(cs) + Ending(cs, f))
    && (r.Err? && r.error != ENAMETOOLONG ==> Fails(fs, s, r.error, max))
    && (r == Err(ENAMETOOLONG) ==> Fails(fs, s, ENAMETOOLONG, max) || exists cs :: Arrives(fs, s, cs, max) && !EndingFits(cs, f))
  }

  /** `canonicalize` as its callers use it. */
  method CanonicalizePath(fs: FileSystem, user: string, deref: bool, guestPath: string, max: nat, ghost base: Path) returns (r: Result<string>)
    requires GoodFileSystem(fs) && '\0' !in user && Proper(base) && LinkFree(fs, base) && guestPath == Render(base)
    ensures |guestPath| >= PATH_MAX && (user != "" || base == []) ==> r == Err(ENAMETOOLONG)
    ensures |guestPath| < PATH_MAX && (user != "" || base == []) ==> Resolved(fs, user, deref, base, max, r)
    ensures user == "" && base != [] ==> r == if |guestPath| + 2 >= PATH_MAX then Err(ENAMETOOLONG) else Ok(guestPath + "/")
  {
    ghost var calls;
    r, calls := Canonicalize(fs, user, deref, guestPath, 0, max, base);
    if |guestPath| < PATH_MAX && (user != "" || base == []) {
      OutcomeResolved(fs, user, deref, base, max);
    }
  }

  lemma OutcomeResolved(fs: FileSystem, user: string, deref: bool, base: Path, max: nat)
    requires GoodFileSystem(fs) && '\0' !in user && Proper(base) && LinkFree(fs, base)
    requires |Render(base)| < PATH_MAX && (user != "" || base == [])
    ensures Resolved(fs, user, deref, base, max, Outcome(fs, user, deref, base, 0, max))
  {
    ResolvesExactly(fs, user, deref, base, max);
    if Canonicalized(fs, user, deref, base, 0, max).Ok? {
      var cs := Canonicalized(fs, user, deref, base, 0, max).value;
      CanonicalizedShape(fs, user, deref, base, 0, max);
      FinishExactly(cs, FinalityOf(user));
      assert Arrives(fs, Start(user, deref, base), cs, max);
    }
  }
}
