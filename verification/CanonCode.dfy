/** `canonicalize` as the source runs it, on C strings: a cursor moves through the user path while the guest path
    is extended, cut and replaced (proot-master/src/path/canon.c). */
module CanonCode {
  import opened Wrappers
  import opened Limits
  import opened Paths
  import opened Resolver
  import opened Canon

  datatype Finality = NotFinal | FinalNormal | FinalSlash | FinalDot

  // ---------------------------------------------------------------- the next name

  lemma SkipDone(s: string)
    requires s == "" || s[0] != '/'
    ensures Skip(s) == s
  {
  }

  /** Moves the cursor over separators. */
  method SkipSeparators(path: string, cursor: nat) returns (c: nat)
    requires cursor <= |path|
    ensures cursor <= c <= |path| && path[c..] == Skip(path[cursor..])
  {
    c := cursor;
    while c < |path| && path[c] == '/'
      invariant cursor <= c <= |path| && Skip(path[c..]) == Skip(path[cursor..])
    {
      assert path[c..][1..] == path[c + 1..];
      c := c + 1;
    }
    SkipDone(path[c..]);
  }

  /** `next_component`: the name at the cursor, none when it is too long, and whether it is the last. */
  method NextComponent(path: string, cursor: nat) returns (component: Option<string>, c: nat, finality: Finality)
    requires cursor <= |path|
    ensures var u := Skip(path[cursor..]);
      && cursor <= c <= |path| && path[c..] == Skip(Tail(u))
      && component == (if |Head(u)| >= NAME_MAX then None else Some(Head(u)))
      && finality == (if path[c..] != "" then NotFinal else if Tail(u) != "" then FinalSlash else FinalNormal)
  {
    var start := SkipSeparators(path, cursor);
    var end := ScanName(path, start);
    component := if end - start >= NAME_MAX then None else Some(path[start..end]);
    var wantDir := end < |path| && path[end] == '/';
    c := SkipSeparators(path, end);
    finality := if c < |path| then NotFinal else if wantDir then FinalSlash else FinalNormal;
  }

  /** Moves over the characters of a name. */
  method ScanName(path: string, start: nat) returns (end: nat)
    requires start <= |path|
    ensures start <= end <= |path|
    ensures path[start..end] == Head(path[start..]) && path[end..] == Tail(path[start..])
  {
    end := start;
    while end < |path| && path[end] != '/'
      invariant start <= end <= |path|
      invariant Head(path[start..]) == path[start..end] + Head(path[end..])
      invariant Tail(path[start..]) == Tail(path[end..])
    {
      HeadNext(path, start, end);
      end := end + 1;
    }
    assert Head(path[end..]) == "" && Tail(path[end..]) == path[end..];
    assert path[start..end] + "" == path[start..end];
  }

  lemma HeadNext(path: string, start: nat, end: nat)
    requires start <= end < |path| && path[end] != '/'
    ensures path[start..end] + Head(path[end..]) == path[start..end + 1] + Head(path[end + 1..])
    ensures Tail(path[end..]) == Tail(path[end + 1..])
  {
    assert path[end..][1..] == path[end + 1..];
    assert path[start..end + 1] == path[start..end] + [path[end]];
  }

  // ---------------------------------------------------------------- cutting the last name

  function Slashes(n: nat): string {
    seq(n, _ => '/')
  }

  /** `pop_component` cuts the last name and any separators after it; "/" stays. */
  method PopComponent(path: string, ghost cs: Path, ghost extra: nat) returns (r: string)
    requires Names(cs) && path == Render(cs) + Slashes(extra)
    ensures r == Render(Parent(cs))
  {
    SlashedLast(cs);
    RenderLength(cs);
    var offset: nat := |path| - 1;
    if offset == 0 {
      return path;
    }
    ghost var cut, last := 0, 0;
    if cs != [] {
      cut, last := |Slashed(cs[..|cs| - 1])|, |Slashed(cs)| - 1;
      RenderLength(cs[..|cs| - 1]);
      assert forall i :: 0 <= i <= last ==> path[i] == Slashed(cs)[i];
    }
    offset := SkipBack(path, offset, last);
    while offset > 1 && path[offset] != '/'
      invariant 1 <= offset < |path| && cut <= offset && (cs == [] ==> offset == 1) && (cs != [] ==> offset <= last)
    {
      offset := offset - 1;
    }
    r := path[..offset];
    assert cs != [] ==> path[..cut] == Slashed(cs)[..cut];
    assert path[..1] == "/";
  }

  method SkipBack(path: string, from: nat, ghost last: nat) returns (offset: nat)
    requires 1 <= from < |path| && last <= from && (last > 0 ==> path[last] != '/')
    ensures 1 <= offset <= from && last <= offset && (offset == 1 || path[offset] != '/')
  {
    offset := from;
    while offset > 1 && path[offset] == '/'
      invariant 1 <= offset <= from && last <= offset
    {
      offset := offset - 1;
    }
  }

  lemma SlashedLast(cs: Path)
    requires Names(cs)
    ensures cs != [] ==>
      var cut := |Slashed(cs[..|cs| - 1])|;
      && cut + 1 < |Slashed(cs)| && Slashed(cs)[cut] == '/' && Slashed(cs)[..cut] == Slashed(cs[..|cs| - 1])
      && Slashed(cs)[0] == '/'
      && forall i :: cut < i < |Slashed(cs)| ==> Slashed(cs)[i] != '/'
  {
    if cs != [] {
      var last, cut := cs[|cs| - 1], |Slashed(cs[..|cs| - 1])|;
      SlashedFirst(cs);
      forall i | cut < i < |Slashed(cs)|
        ensures Slashed(cs)[i] != '/'
      {
        assert Slashed(cs)[i] == last[i - cut - 1] && last[i - cut - 1] in last;
      }
    }
  }

  // ---------------------------------------------------------------- the loop

  ghost function Pow2(n: nat): nat {
    if n == 0 then 1 else 2 * Pow2(n - 1)
  }

  /** What the last name says about the result: a directory is meant after "..", a separator or ".". */
  ghost function FinalityOf(user: string): Finality {
    var names := Split(user);
    if names == [] then FinalNormal
    else if names[|names| - 1] == "." then FinalDot
    else if names[|names| - 1] == ".." || EndsWithSlash(user) then FinalSlash
    else FinalNormal
  }

  /** At the outermost level a terminating "/" or "/." keeps the meaning of the user path. */
  function Finish(guest: string, finality: Finality): Result<string> {
    match finality
    case FinalSlash => (match JoinPaths(guest, "") case Some(r) => Ok(r) case None => Err(ENAMETOOLONG))
    case FinalDot => (match JoinPaths(guest, ".") case Some(r) => Ok(r) case None => Err(ENAMETOOLONG))
    case _ => Ok(guest)
  }

  /** What canonicalization leaves behind the names. */
  function Ending(cs: Path, f: Finality): string {
    match f
    case FinalSlash => if cs == [] then "" else "/"
    case FinalDot => if cs == [] then "." else "/."
    case _ => ""
  }

  /** The string left in `guest_path`; an empty user path only adds a separator to a base other than "/". */
  ghost function Outcome(fs: FileSystem, user: string, deref: bool, base: Path, level: nat, max: nat): Result<string> {
    if user == "" && base != [] && level <= max then
      if |Render(base)| + 2 >= PATH_MAX then Err(ENAMETOOLONG) else Ok(Render(base) + "/")
    else match Canonicalized(fs, user, deref, base, level, max)
    case Err(e) => Err(e)
    case Ok(cs) => if level == 0 then Finish(Render(cs), FinalityOf(user)) else Ok(Render(cs))
  }

  /** Following one link: read it, canonicalize its target from here, and refuse to stay in place. */
  method FollowLink(fs: FileSystem, target: string, guest: string, level: nat, max: nat, ghost cs: Path)
    returns (r: Result<string>, ghost calls: nat)
    requires GoodFileSystem(fs) && target != "" && '\0' !in target && Proper(cs) && LinkFree(fs, cs) && guest == Render(cs)
    requires 0 < level <= max + 1
    ensures r == match Canonicalized(fs, target, true, cs, level, max)
                 case Err(e) => Err(if |target| >= PATH_MAX then ENAMETOOLONG else e)
                 case Ok(referee) =>
                   if |target| >= PATH_MAX then Err(ENAMETOOLONG)
                   else if referee == cs then Err(ELOOP) else Ok(Render(referee))
    ensures calls <= Pow2(Depth(level, max))
    decreases Depth(level, max), |target| + 6
  {
    calls := 0;
    if |target| >= PATH_MAX {
      return Err(ENAMETOOLONG), 0;
    }
    r, calls := Canonicalize(fs, target, true, guest, level, max, cs);
    if r.Ok? {
      RefereeIsNoLink(fs, target, cs, level, max);
      ghost var referee := Canonicalized(fs, target, true, cs, level, max).value;
      if r.value == guest {
        RenderInjective(referee, cs);
        return Err(ELOOP), calls;
      }
    }
  }

  lemma WalkEnters(fs: FileSystem, names: seq<string>, followLast: bool, cs: Path, level: nat, followed: nat, max: nat)
    requires level <= max && names != [] && names[0] != "." && names[0] != ".." && |names[0]| < NAME_MAX
    ensures Walk(fs, names, followLast, cs, level, followed, max) ==
      match Entered(fs, names[0], names[1..] == [], names[1..] != [] || followLast, cs, level, followed, max)
      case Err(e) => Err(e)
      case Ok((cs', f)) => Walk(fs, names[1..], followLast, cs', level, f, max)
  {
  }

  method EnterName(fs: FileSystem, c: string, last: bool, follow: bool, guest: string, level: nat, followed: nat, max: nat, ghost cs: Path)
    returns (r: Result<(string, nat)>, ghost cs': Path, ghost calls: nat)
    requires GoodFileSystem(fs) && Name(c) && c != "." && c != ".."
    requires Proper(cs) && LinkFree(fs, cs) && guest == Render(cs)
    requires level + followed <= max && (!last ==> follow)
    ensures r == match Entered(fs, c, last, follow, cs, level, followed, max)
                 case Err(e) => Err(e)
                 case Ok((p, f)) => Ok((Render(p), f))
    ensures r.Ok? ==> Entered(fs, c, last, follow, cs, level, followed, max).value.0 == cs'
    ensures r.Ok? ==> Proper(cs') && (follow ==> LinkFree(fs, cs')) && level + r.value.1 <= max
    ensures r.Ok? ==> r.value.0 == Render(cs') && followed <= r.value.1 <= followed + 1
    ensures r.Ok? && r.value.1 == followed ==> calls == 0
    ensures calls <= Pow2(Depth(level + followed + 1, max))
    decreases Depth(level, max), 1
  {
    calls := 0;
    cs' := cs;
    Pow2Positive(Depth(level + followed + 1, max));
    var scratch := JoinPaths(guest, c);
    JoinMeaning(cs, c);
    if scratch.None? {
      return Err(ENAMETOOLONG), cs, 0;
    }
    var kind := fs(scratch.value);
    if !last && (kind.File? || kind.Missing?) {
      return Err(if kind.File? then ENOTDIR else ENOENT), cs, 0;
    }
    if !kind.Link? || !follow {
      if !kind.Link? {
        LinkFreeChild(fs, cs, c);
      }
      return Ok((scratch.value, followed)), cs + [c], 0;
    }
    var referee;
    referee, calls := FollowLink(fs, kind.target, guest, level + followed + 1, max, cs);
    if referee.Err? {
      return Err(referee.error), cs, calls;
    }
    RefereeIsNoLink(fs, kind.target, cs, level + followed + 1, max);
    cs' := Canonicalized(fs, kind.target, true, cs, level + followed + 1, max).value;
    var there := fs(referee.value);
    if !last && (there.File? || there.Missing?) {
      return Err(if there.File? then ENOTDIR else ENOENT), cs, calls;
    }
    assert !there.Link?;
    return Ok((referee.value, followed + 1)), cs', calls;
  }

  /** Where the loop stands: the names still to read decide the rest, or the result is reached. */
  ghost predicate Reached(fs: FileSystem, goal: Result<Path>, user: string, follow: bool, cursor: nat, finality: Finality,
                          cs: Path, level: nat, followed: nat, max: nat) {
    && cursor <= |user| && Proper(cs) && level + followed <= max
    && (finality == NotFinal ==>
          && LinkFree(fs, cs) && SameEnd(user, cursor)
          && (Split(user[cursor..]) != [] || (cs == [] && Split(user) == []))
          && goal == Walk(fs, Split(user[cursor..]), follow, cs, level, followed, max))
    && (finality != NotFinal ==> goal == Ok(cs) && finality == FinalityOf(user))
  }

  /** One turn of the loop. */
  method Turn(fs: FileSystem, user: string, deref: bool, guest: string, cursor: nat, level: nat, followed: nat, max: nat,
              ghost cs: Path, ghost goal: Result<Path>)
    returns (r: Result<(string, nat)>, cursor': nat, finality: Finality, ghost cs': Path, ghost calls: nat)
    requires GoodFileSystem(fs) && '\0' !in user && guest == Render(cs)
    requires Reached(fs, goal, user, deref || EndsWithSlash(user), cursor, NotFinal, cs, level, followed, max)
    ensures r.Err? ==> goal == Err(r.error)
    ensures r.Ok? ==> r.value.0 == Render(cs') && followed <= r.value.1 <= followed + 1 && cursor <= cursor'
    ensures r.Ok? ==> Reached(fs, goal, user, deref || EndsWithSlash(user), cursor', finality, cs', level, r.value.1, max)
    ensures r.Ok? && finality == NotFinal ==> cursor < cursor'
    ensures r.Ok? && r.value.1 == followed ==> calls == 0
    ensures calls <= Pow2(Depth(level + followed + 1, max))
    decreases Depth(level, max), 3
  {
    ghost var names, follow := Split(user[cursor..]), deref || EndsWithSlash(user);
    calls := 0;
    cs' := cs;
    Pow2Positive(Depth(level + followed + 1, max));
    var component;
    component, cursor', finality := NextComponent(user, cursor);
    NextNames(user, cursor, cursor');
    SuffixClean(user, cursor);
    SplitNames(user[cursor..]);
    if component.None? {
      return Err(ENAMETOOLONG), cursor', finality, cs, 0;
    }
    if component.value == "" {
      // no name at all: "/" stays "/"
      return Ok((guest, followed)), cursor', finality, cs, 0;
    }
    if component.value == "." || component.value == ".." {
      var at;
      at, finality, cs' := TurnDots(fs, user, deref, component.value, finality, guest, cursor, cursor', level, followed, max, cs, goal);
      return Ok((at, followed)), cursor', finality, cs', 0;
    }
    r, cs', calls := TurnName(fs, user, deref, component.value, finality, guest, cursor, cursor', level, followed, max, cs, goal);
  }

  /** "." stays, ".." goes up; at the end of the path both say that a directory is meant. */
  method TurnDots(fs: FileSystem, user: string, deref: bool, c: string, finality: Finality, guest: string, cursor: nat, next: nat,
                  level: nat, followed: nat, max: nat, ghost cs: Path, ghost goal: Result<Path>)
    returns (at: string, finality': Finality, ghost cs': Path)
    requires guest == Render(cs)
    requires Reached(fs, goal, user, deref || EndsWithSlash(user), cursor, NotFinal, cs, level, followed, max)
    requires cursor <= next <= |user| && user[next..] == Skip(Tail(Skip(user[cursor..])))
    requires Split(user[cursor..]) != [] && c == Split(user[cursor..])[0] && (c == "." || c == "..")
    requires finality == NotFinal <==> user[next..] != ""
    ensures at == Render(cs') && (finality' == NotFinal <==> finality == NotFinal)
    ensures Reached(fs, goal, user, deref || EndsWithSlash(user), next, finality', cs', level, followed, max)
  {
    ghost var names, follow := Split(user[cursor..]), deref || EndsWithSlash(user);
    at, finality', cs' := guest, finality, cs;
    WalkDots(fs, names, follow, cs, level, followed, max);
    if c == "." {
      if finality != NotFinal {
        finality' := FinalDot;
      }
    } else {
      at := PopComponent(guest, cs, 0);
      LinkFreeParent(fs, cs);
      cs' := Parent(cs);
      if finality != NotFinal {
        finality' := FinalSlash;
      }
    }
    Advance(fs, goal, user, follow, cursor, next, finality', cs', level, followed, max);
  }

  method TurnName(fs: FileSystem, user: string, deref: bool, c: string, finality: Finality, guest: string, cursor: nat, next: nat,
                  level: nat, followed: nat, max: nat, ghost cs: Path, ghost goal: Result<Path>)
    returns (r: Result<(string, nat)>, ghost cs': Path, ghost calls: nat)
    requires GoodFileSystem(fs) && guest == Render(cs)
    requires Reached(fs, goal, user, deref || EndsWithSlash(user), cursor, NotFinal, cs, level, followed, max)
    requires cursor <= next <= |user| && user[next..] == Skip(Tail(Skip(user[cursor..])))
    requires Split(user[cursor..]) != [] && c == Split(user[cursor..])[0] && Name(c) && c != "." && c != ".." && |c| < NAME_MAX
    requires finality == if user[next..] != "" then NotFinal else if Tail(Skip(user[cursor..])) != "" then FinalSlash else FinalNormal
    ensures r.Err? ==> goal == Err(r.error)
    ensures r.Ok? ==> r.value.0 == Render(cs') && followed <= r.value.1 <= followed + 1
    ensures r.Ok? ==> Reached(fs, goal, user, deref || EndsWithSlash(user), next, finality, cs', level, r.value.1, max)
    ensures r.Ok? && r.value.1 == followed ==> calls == 0
    ensures calls <= Pow2(Depth(level + followed + 1, max))
    decreases Depth(level, max), 2
  {
    ghost var names, follow := Split(user[cursor..]), deref || EndsWithSlash(user);
    NextNames(user, cursor, next);
    WalkEnters(fs, names, follow, cs, level, followed, max);
    r, cs', calls := EnterName(fs, c, finality != NotFinal, !(finality == FinalNormal && !deref), guest, level, followed, max, cs);
    if r.Ok? {
      Advance(fs, goal, user, follow, cursor, next, finality, cs', level, r.value.1, max);
    }
  }

  lemma WalkDots(fs: FileSystem, names: seq<string>, followLast: bool, cs: Path, level: nat, followed: nat, max: nat)
    requires level <= max && names != [] && |names[0]| < NAME_MAX
    ensures names[0] == "." ==>
      Walk(fs, names, followLast, cs, level, followed, max) == Walk(fs, names[1..], followLast, cs, level, followed, max)
    ensures names[0] == ".." ==>
      Walk(fs, names, followLast, cs, level, followed, max) == Walk(fs, names[1..], followLast, Parent(cs), level, followed, max)
  {
  }

  /** Past one name, with the finality its place and spelling give it. */
  lemma Advance(fs: FileSystem, goal: Result<Path>, user: string, follow: bool, cursor: nat, next: nat, finality: Finality,
                cs: Path, level: nat, followed: nat, max: nat)
    requires cursor <= next <= |user| && SameEnd(user, cursor) && Split(user[cursor..]) != []
    requires user[next..] == Skip(Tail(Skip(user[cursor..])))
    requires Proper(cs) && level + followed <= max && (user[next..] != "" ==> LinkFree(fs, cs))
    requires goal == Walk(fs, Split(user[cursor..])[1..], follow, cs, level, followed, max)
    requires var name := Split(user[cursor..])[0];
      finality == if user[next..] != "" then NotFinal
                  else if name == "." then FinalDot
                  else if name == ".." || Tail(Skip(user[cursor..])) != "" then FinalSlash
                  else FinalNormal
    ensures Reached(fs, goal, user, follow, next, finality, cs, level, followed, max)
  {
    NextNames(user, cursor, next);
  }

  lemma SuffixClean(user: string, cursor: nat)
    requires '\0' !in user && cursor <= |user|
    ensures '\0' !in user[cursor..]
  {
  }

  method Canonicalize(fs: FileSystem, user: string, deref: bool, guestPath: string, level: nat, max: nat, ghost base: Path)
    returns (r: Result<string>, ghost calls: nat)
    requires GoodFileSystem(fs) && '\0' !in user && Proper(base) && LinkFree(fs, base) && guestPath == Render(base)
    requires level <= max + 1
    ensures r == Outcome(fs, user, deref, base, level, max)
    ensures calls <= Pow2(Depth(level, max))
    decreases Depth(level, max), |user| + 5
  {
    calls := 1;
    if level > max {
      return Err(ELOOP), 1;
    }
    if |guestPath| >= PATH_MAX {
      Pow2Positive(Depth(level, max));
      return Err(ENAMETOOLONG), 1;
    }
    if user == "" && guestPath != "/" {
      r := NoName(fs, guestPath, base);
      Pow2Positive(Depth(level, max));
      return r, 1;
    }
    var guest := if user == "" || user[0] != '/' then guestPath else "/";
    ghost var cs: Path := if IsAbsolute(user) then [] else base;
    ghost var goal := Canonicalized(fs, user, deref, base, level, max);
    assert user[0..] == user;
    RelativeHasName(user);
    var finality;
    r, finality, cs, calls := Loop(fs, user, deref, guest, level, max, cs, goal);
    if level == 0 && r.Ok? {
      r := Finish(r.value, finality);
    }
  }

  /** The turn of the loop an empty user path takes: its only component is empty, and what it is joined to is no link. */
  method NoName(fs: FileSystem, guest: string, ghost base: Path) returns (r: Result<string>)
    requires GoodFileSystem(fs) && Proper(base) && base != [] && guest == Render(base)
    ensures r == if |guest| + 2 >= PATH_MAX then Err(ENAMETOOLONG) else Ok(guest + "/")
  {
    SlashedShape(base);
    var component, cursor, finality := NextComponent("", 0);
    assert component == Some("") && finality == FinalNormal;
    var joined := JoinPaths(guest, component.value);
    if joined.None? {
      return Err(ENAMETOOLONG);
    }
    assert joined.value == guest + "/" && EndsWithSlash(joined.value);
    assert !fs(joined.value).Link?;
    return Ok(joined.value);
  }

  method Loop(fs: FileSystem, user: string, deref: bool, start: string, level: nat, max: nat, ghost base: Path, ghost goal: Result<Path>)
    returns (r: Result<string>, finality: Finality, ghost cs: Path, ghost calls: nat)
    requires GoodFileSystem(fs) && '\0' !in user && start == Render(base)
    requires Reached(fs, goal, user, deref || EndsWithSlash(user), 0, NotFinal, base, level, 0, max)
    ensures r.Err? ==> goal == Err(r.error)
    ensures r.Ok? ==> goal == Ok(cs) && r.value == Render(cs) && finality == FinalityOf(user)
    ensures calls <= Pow2(Depth(level, max))
    decreases Depth(level, max), 4
  {
    calls := 1;
    cs := base;
    finality := NotFinal;
    var guest, cursor, followed := start, 0, 0;
    while finality == NotFinal
      invariant guest == Render(cs)
      invariant Reached(fs, goal, user, deref || EndsWithSlash(user), cursor, finality, cs, level, followed, max)
      invariant Affordable(calls, level, followed, max)
      decreases |user| - cursor, finality == NotFinal
    {
      var step;
      ghost var more;
      step, cursor, finality, cs, more := Turn(fs, user, deref, guest, cursor, level, followed, max, cs, goal);
      AfterTurn(level, max, followed, if step.Ok? then step.value.1 else followed + 1, calls, more);
      calls := calls + more;
      if step.Err? {
        return Err(step.error), finality, cs, calls;
      }
      guest, followed := step.value.0, step.value.1;
    }
    OneMoreCall(level, max, followed, calls, 0);
    r := Ok(guest);
  }

  /** The calls made so far leave room for those that following one link less allows. */
  ghost predicate Affordable(calls: nat, level: nat, followed: nat, max: nat) {
    level + followed <= max && calls + Pow2(Depth(level, max) - followed) <= Pow2(Depth(level, max)) + 1
  }

  lemma OneMoreCall(level: nat, max: nat, followed: nat, calls: nat, more: nat)
    requires Affordable(calls, level, followed, max) && more <= Pow2(Depth(level + followed + 1, max))
    ensures calls + more <= Pow2(Depth(level, max))
    ensures level + followed + 1 <= max ==> Affordable(calls + more, level, followed + 1, max)
  {
    assert Depth(level, max) - followed == Depth(level + followed + 1, max) + 1;
    Pow2Positive(Depth(level + followed + 1, max));
  }

  lemma AfterTurn(level: nat, max: nat, followed: nat, followed': nat, calls: nat, more: nat)
    requires Affordable(calls, level, followed, max) && more <= Pow2(Depth(level + followed + 1, max))
    requires followed <= followed' <= followed + 1 && (followed' == followed ==> more == 0)
    ensures calls + more <= Pow2(Depth(level, max))
    ensures level + followed' <= max ==> Affordable(calls + more, level, followed', max)
  {
    OneMoreCall(level, max, followed, calls, more);
  }

  lemma RelativeHasName(user: string)
    ensures user != "" && !IsAbsolute(user) ==> Split(user) != []
  {
  }

  lemma Pow2Positive(n: nat)
    ensures Pow2(n) >= 1
  {
  }

  /** Whatever is left to read ends as the whole path does. */
  ghost predicate SameEnd(user: string, cursor: nat)
    requires cursor <= |user|
  {
    && (user[cursor..] != "" ==> EndsWithSlash(user[cursor..]) == EndsWithSlash(user))
    && (Split(user[cursor..]) != [] ==> Split(user) != [] && Split(user)[|Split(user)| - 1] == Split(user[cursor..])[|Split(user[cursor..])| - 1])
  }

  lemma {:induction false} SkipKeepsEnd(s: string)
    ensures Skip(s) != "" ==> EndsWithSlash(Skip(s)) == EndsWithSlash(s)
    ensures Skip(s) == "" && s != "" ==> EndsWithSlash(s)
    decreases |s|
  {
    if s != "" && s[0] == '/' {
      SkipKeepsEnd(s[1..]);
    }
  }

  lemma {:induction false} HeadThenTail(s: string)
    ensures s == Head(s) + Tail(s)
    decreases |s|
  {
    if s != "" && s[0] != '/' {
      HeadThenTail(s[1..]);
      assert s == [s[0]] + s[1..];
    }
  }

  /** How reading one name advances through the names of the path. */
  lemma NextNames(user: string, cursor: nat, next: nat)
    requires cursor <= |user| && cursor <= next <= |user| && SameEnd(user, cursor)
    requires user[next..] == Skip(Tail(Skip(user[cursor..])))
    ensures var names, u := Split(user[cursor..]), Skip(user[cursor..]);
      && (names == [] <==> u == "")
      && (names != [] ==> names[0] == Head(u) && names[1..] == Split(user[next..]) && next > cursor)
      && (user[next..] == "" <==> Split(user[next..]) == [])
      && (names != [] ==> SameEnd(user, next))
      && (names != [] && user[next..] == "" ==> (Tail(u) != "" <==> EndsWithSlash(user)))
      && (names == [] ==> user[next..] == "" && Tail(u) == "" && Head(u) == "")
  {
    var u := Skip(user[cursor..]);
    var t := Tail(u);
    SkipKeepsEnd(user[cursor..]);
    SkipKeepsEnd(t);
    HeadThenTail(u);
    SplitSkipped(t);
    if u != "" && t == "" {
      assert u == Head(u) && u[|u| - 1] in u;
    }
    if t != "" {
      assert u[|u| - 1] == t[|t| - 1];
    }
  }

  // ---------------------------------------------------------------- how a path ends

  lemma {:induction false} CutBefore(a: string, b: string)
    requires b != "" && b[0] == '/'
    ensures Head(a + b) == Head(a) && Tail(a + b) == Tail(a) + b
    decreases |a|
  {
    if a == "" {
      assert a + b == b;
    } else {
      assert (a + b)[1..] == a[1..] + b;
      if a[0] != '/' {
        CutBefore(a[1..], b);
      }
    }
  }

  /** The names of a path are those before a separator and those behind it. */
  lemma {:induction false} SplitConcat(a: string, b: string)
    ensures Split(a + "/" + b) == Split(a) + Split(b)
    decreases |a|
  {
    var s := a + "/" + b;
    if a == "" {
      assert s == "/" + b && s[1..] == b;
      SplitSkipped(s);
      SplitSkipped(b);
    } else if a[0] == '/' {
      assert s[1..] == a[1..] + "/" + b;
      SplitConcat(a[1..], b);
      SplitSkipped(s);
      SplitSkipped(s[1..]);
      SplitSkipped(a);
      SplitSkipped(a[1..]);
    } else {
      assert s == a + ("/" + b);
      CutBefore(a, "/" + b);
      assert Tail(a) + ("/" + b) == Tail(a) + "/" + b;
      SplitConcat(Tail(a), b);
      assert Split(s) == [Head(a)] + (Split(Tail(a)) + Split(b));
    }
  }

  lemma OneName(c: string)
    requires c != "" && '/' !in c
    ensures Split(c) == [c]
  {
    WholeName(c);
    assert c[0] in c;
    assert Split("") == [];
  }

  lemma {:induction false} WholeName(c: string)
    requires '/' !in c
    ensures Head(c) == c && Tail(c) == ""
    decreases |c|
  {
    if c != "" {
      assert c[0] in c && c == [c[0]] + c[1..];
      WholeName(c[1..]);
    }
  }

  /** What the end of the user path says: "." is kept as such, ".." and a separator ask for a directory, and any other
      name for nothing. */
  lemma EndsAs(before: string, c: string)
    requires c != "" && '/' !in c
    ensures FinalityOf(before + "/" + c) == if c == "." then FinalDot else if c == ".." then FinalSlash else FinalNormal
    ensures FinalityOf(c) == if c == "." then FinalDot else if c == ".." then FinalSlash else FinalNormal
    ensures FinalityOf(before + "/" + c + "/") == if c == "." then FinalDot else FinalSlash
  {
    OneName(c);
    SplitConcat(before, c);
    SplitConcat(before + "/" + c, "");
    assert Split("") == [] && c[|c| - 1] in c;
    assert (before + "/" + c + "/") + "" == before + "/" + c + "/";
  }

  lemma SplitSkipped(s: string)
    ensures Split(Skip(s)) == Split(s)
    ensures Split(s) == [] <==> Skip(s) == ""
  {
    SkipDone(Skip(s));
  }
}
