/** `canonicalize` (proot-master/src/path/canon.c) on names: the recursion on link targets, its limits and its
    errors, shown to be the worklist resolver whenever it succeeds. */
module Canon {
  import opened Limits
  import opened Paths
  import opened Resolver

  datatype Error = ELOOP | ENAMETOOLONG | ENOENT | ENOTDIR

  datatype Result<T> = Ok(value: T) | Err(error: Error)

  /** What readlink(2) and the root directory guarantee, and that a path ending in a separator does not name a link. */
  ghost predicate GoodFileSystem(fs: FileSystem) {
    && (forall p :: fs(p).Link? ==> fs(p).target != "" && '\0' !in fs(p).target)
    && !fs("/").Link?
    && forall p :: EndsWithSlash(p) ==> !fs(p).Link?
  }

  /** A component that is not the last must be a directory or a link. */
  ghost function NotTraversable(kind: Kind): Result<()> {
    match kind
    case File => Err(ENOTDIR)
    case Missing => Err(ENOENT)
    case _ => Ok(())
  }

  /** Depth still available below a recursion level. */
  ghost function Depth(level: nat, max: nat): nat {
    if level <= max then max + 1 - level else 0
  }

  /** One call of `canonicalize`, at a recursion level, from the base `guest_path` held; `max` is MAXSYMLINKS. */
  ghost function Canonicalized(fs: FileSystem, user: string, deref: bool, base: Path, level: nat, max: nat): Result<Path>
    decreases Depth(level, max), |user| + 2
  {
    if level > max then Err(ELOOP)
    else if |Render(base)| >= PATH_MAX then Err(ENAMETOOLONG)
    else Walk(fs, Split(user), deref || EndsWithSlash(user), if IsAbsolute(user) then [] else base, level, 0, max)
  }

  /** The loop over the names that are left; `followed` links have been followed at this level. */
  ghost function Walk(fs: FileSystem, names: seq<string>, followLast: bool, base: Path, level: nat, followed: nat, max: nat): Result<Path>
    requires level <= max
    decreases Depth(level, max), 1, |names|
  {
    if names == [] then Ok(base)
    else
      var c, rest := names[0], names[1..];
      if |c| >= NAME_MAX then Err(ENAMETOOLONG)
      else if c == "." then Walk(fs, rest, followLast, base, level, followed, max)
      else if c == ".." then Walk(fs, rest, followLast, Parent(base), level, followed, max)
      else
        match Entered(fs, c, rest == [], rest != [] || followLast, base, level, followed, max)
        case Err(e) => Err(e)
        case Ok((base', followed')) => Walk(fs, rest, followLast, base', level, followed', max)
  }

  /** What resolving one ordinary name does: where it leads, and how many links have been followed. */
  ghost function Entered(fs: FileSystem, c: string, last: bool, follow: bool, base: Path, level: nat, followed: nat, max: nat): Result<(Path, nat)>
    requires level <= max
    decreases Depth(level, max), 0
  {
    if |Render(base + [c])| + 1 >= PATH_MAX then Err(ENAMETOOLONG)
    else
      var kind := fs(Render(base + [c]));
      if !last && NotTraversable(kind).Err? then Err(NotTraversable(kind).error)
      else if !kind.Link? || !follow then Ok((base + [c], followed))
      else if |kind.target| >= PATH_MAX then Err(ENAMETOOLONG)
      else
        match Canonicalized(fs, kind.target, true, base, level + followed + 1, max)
        case Err(e) => Err(e)
        case Ok(referee) =>
          if referee == base then Err(ELOOP)
          else if !last && NotTraversable(fs(Render(referee))).Err? then Err(NotTraversable(fs(Render(referee))).error)
          else Ok((referee, followed + 1))
  }

  /** Whenever it succeeds, `canonicalize` ends where the worklist resolver ends. */
  lemma {:induction false} CanonicalizedRuns(fs: FileSystem, user: string, deref: bool, base: Path, level: nat, max: nat) returns (n: nat)
    requires Canonicalized(fs, user, deref, base, level, max).Ok?
    ensures Runs(fs, Config(if IsAbsolute(user) then [] else base, Items(Split(user), deref || EndsWithSlash(user))), n,
                 Config(Canonicalized(fs, user, deref, base, level, max).value, []))
    decreases Depth(level, max), |user| + 2
  {
    n := WalkRuns(fs, Split(user), deref || EndsWithSlash(user), if IsAbsolute(user) then [] else base, level, 0, max);
  }

  lemma {:induction false} WalkRuns(fs: FileSystem, names: seq<string>, followLast: bool, base: Path, level: nat, followed: nat, max: nat) returns (n: nat)
    requires level <= max && Walk(fs, names, followLast, base, level, followed, max).Ok?
    ensures Runs(fs, Config(base, Items(names, followLast)), n, Config(Walk(fs, names, followLast, base, level, followed, max).value, []))
    decreases Depth(level, max), 1, |names|
  {
    if names == [] {
      return 0;
    }
    var c, rest := names[0], names[1..];
    var items := Items(names, followLast);
    assert items[0] == Item(c, |names| > 1 || followLast) && items[1..] == Items(rest, followLast);
    var end := Config(Walk(fs, names, followLast, base, level, followed, max).value, []);
    if c == "." {
      var k := WalkRuns(fs, rest, followLast, base, level, followed, max);
      n := k + 1;
    } else if c == ".." {
      var k := WalkRuns(fs, rest, followLast, Parent(base), level, followed, max);
      n := k + 1;
    } else {
      var (base', followed') := Entered(fs, c, rest == [], rest != [] || followLast, base, level, followed, max).value;
      var i := EnteredRuns(fs, c, rest == [], rest != [] || followLast, base, level, followed, max, Items(rest, followLast));
      var j := WalkRuns(fs, rest, followLast, base', level, followed', max);
      assert items == [Item(c, rest != [] || followLast)] + Items(rest, followLast);
      RunsThen(fs, Config(base, items), i, Config(base', Items(rest, followLast)), j, end);
      n := i + j;
    }
  }

  /** Resolving one name, with more work waiting behind. */
  lemma {:induction false} EnteredRuns(fs: FileSystem, c: string, last: bool, follow: bool, base: Path, level: nat, followed: nat, max: nat, more: seq<Item>)
    returns (n: nat)
    requires level <= max && c != "." && c != ".." && Entered(fs, c, last, follow, base, level, followed, max).Ok?
    ensures Runs(fs, Config(base, [Item(c, follow)] + more), n, Config(Entered(fs, c, last, follow, base, level, followed, max).value.0, more))
    decreases Depth(level, max), 0
  {
    var work := [Item(c, follow)] + more;
    assert work[0] == Item(c, follow) && work[1..] == more;
    var kind := fs(Render(base + [c]));
    var k: nat := 0;
    if kind.Link? && follow {
      k := CanonicalizedRuns(fs, kind.target, true, base, level + followed + 1, max);
      var referee := Canonicalized(fs, kind.target, true, base, level + followed + 1, max).value;
      var start := Config(if IsAbsolute(kind.target) then [] else base, Items(Split(kind.target), true));
      RunsBefore(fs, start, k, Config(referee, []), more);
      assert [] + more == more;
    }
    n := k + 1;
  }

  // ---------------------------------------------------------------- the shape of the result

  ghost predicate Proper(cs: Path) {
    Names(cs) && forall i :: 0 <= i < |cs| ==> cs[i] != "." && cs[i] != ".."
  }

  /** No prefix of the path is a link. */
  ghost predicate LinkFree(fs: FileSystem, cs: Path) {
    forall k :: 1 <= k <= |cs| ==> !fs(Render(cs[..k])).Link?
  }

  lemma LinkFreeParent(fs: FileSystem, cs: Path)
    requires LinkFree(fs, cs)
    ensures LinkFree(fs, Parent(cs))
  {
    forall k | 1 <= k <= |Parent(cs)|
      ensures !fs(Render(Parent(cs)[..k])).Link?
    {
      assert Parent(cs)[..k] == cs[..k];
    }
  }

  lemma LinkFreeChild(fs: FileSystem, base: Path, c: string)
    requires LinkFree(fs, base) && !fs(Render(base + [c])).Link?
    ensures LinkFree(fs, base + [c])
  {
    var cs := base + [c];
    forall k | 1 <= k <= |cs|
      ensures !fs(Render(cs[..k])).Link?
    {
      if k <= |base| {
        assert cs[..k] == base[..k];
      } else {
        assert cs[..k] == cs;
      }
    }
  }

  lemma {:induction false} CutNames(s: string)
    ensures '\0' !in s ==> '\0' !in Skip(s) && '\0' !in Head(s) && '\0' !in Tail(s)
    decreases |s|
  {
    if s != "" {
      CutNames(s[1..]);
      assert s == [s[0]] + s[1..];
    }
  }

  lemma {:induction false} SplitNames(s: string)
    requires '\0' !in s
    ensures Names(Split(s))
    decreases |s|
  {
    var u := Skip(s);
    CutNames(s);
    CutNames(u);
    if u != "" {
      SplitNames(Tail(u));
    }
  }

  /** A canonical result holds no ".", ".." or empty name, and no prefix of it is a link, except that the last
      name may be one when it was not to be followed. */
  lemma {:induction false} CanonicalizedShape(fs: FileSystem, user: string, deref: bool, base: Path, level: nat, max: nat)
    requires GoodFileSystem(fs) && '\0' !in user && Proper(base) && LinkFree(fs, base)
    requires Canonicalized(fs, user, deref, base, level, max).Ok?
    ensures var cs := Canonicalized(fs, user, deref, base, level, max).value;
      Proper(cs) && LinkFree(fs, Parent(cs)) && (deref || EndsWithSlash(user) ==> LinkFree(fs, cs))
    decreases Depth(level, max), |user| + 2
  {
    SplitNames(user);
    LinkFreeParent(fs, base);
    WalkShape(fs, Split(user), deref || EndsWithSlash(user), if IsAbsolute(user) then [] else base, level, 0, max);
  }

  lemma {:induction false} WalkShape(fs: FileSystem, names: seq<string>, followLast: bool, base: Path, level: nat, followed: nat, max: nat)
    requires GoodFileSystem(fs) && Names(names) && Proper(base) && LinkFree(fs, Parent(base))
    requires names != [] || followLast ==> LinkFree(fs, base)
    requires level <= max && Walk(fs, names, followLast, base, level, followed, max).Ok?
    ensures var cs := Walk(fs, names, followLast, base, level, followed, max).value;
      Proper(cs) && LinkFree(fs, Parent(cs)) && (followLast ==> LinkFree(fs, cs))
    decreases Depth(level, max), 1, |names|
  {
    if names != [] {
      var c, rest := names[0], names[1..];
      LinkFreeParent(fs, base);
      if c == "." {
        WalkShape(fs, rest, followLast, base, level, followed, max);
      } else if c == ".." {
        LinkFreeParent(fs, Parent(base));
        WalkShape(fs, rest, followLast, Parent(base), level, followed, max);
      } else {
        EnteredShape(fs, c, rest == [], rest != [] || followLast, base, level, followed, max);
        var (base', followed') := Entered(fs, c, rest == [], rest != [] || followLast, base, level, followed, max).value;
        WalkShape(fs, rest, followLast, base', level, followed', max);
      }
    }
  }

  lemma {:induction false} EnteredShape(fs: FileSystem, c: string, last: bool, follow: bool, base: Path, level: nat, followed: nat, max: nat)
    requires GoodFileSystem(fs) && Name(c) && c != "." && c != ".." && Proper(base) && LinkFree(fs, base)
    requires level <= max && Entered(fs, c, last, follow, base, level, followed, max).Ok?
    ensures var cs := Entered(fs, c, last, follow, base, level, followed, max).value.0;
      Proper(cs) && LinkFree(fs, Parent(cs)) && (follow ==> LinkFree(fs, cs))
    decreases Depth(level, max), 0
  {
    var kind := fs(Render(base + [c]));
    if !kind.Link? || !follow {
      assert Parent(base + [c]) == base;
      if !kind.Link? {
        LinkFreeChild(fs, base, c);
      }
    } else {
      RefereeIsNoLink(fs, kind.target, base, level + followed + 1, max);
    }
  }

  /** The assertion of the source: a dereferenced link is no link any more. */
  lemma {:induction false} RefereeIsNoLink(fs: FileSystem, target: string, base: Path, level: nat, max: nat)
    requires GoodFileSystem(fs) && '\0' !in target && Proper(base) && LinkFree(fs, base)
    requires Canonicalized(fs, target, true, base, level, max).Ok?
    ensures var cs := Canonicalized(fs, target, true, base, level, max).value;
      Proper(cs) && LinkFree(fs, cs) && LinkFree(fs, Parent(cs)) && !fs(Render(cs)).Link?
    decreases Depth(level, max), |target| + 3
  {
    CanonicalizedShape(fs, target, true, base, level, max);
    var cs := Canonicalized(fs, target, true, base, level, max).value;
    if cs != [] {
      assert cs[..|cs|] == cs;
    }
  }
}
