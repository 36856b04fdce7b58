/** put_old as the user spells it (proot-master/src/syscall/enter.c): canonicalization keeps a terminating separator or
    ".", and the binding made of such a path no longer shows what it should. */
module PutOld {
  import opened Wrappers
  import opened Limits
  import opened Paths
  import opened Resolver
  import opened Canon
  import opened CanonCode

  /** The string `canonicalize` returns for the user path. */
  lemma SpelledAs(fs: FileSystem, user: string, base: Path, max: nat)
    requires user != "" || base == []
    requires Outcome(fs, user, true, base, 0, max).Ok? && Canonicalized(fs, user, true, base, 0, max).Ok?
    requires Names(Canonicalized(fs, user, true, base, 0, max).value)
    ensures var cs := Canonicalized(fs, user, true, base, 0, max).value;
      Outcome(fs, user, true, base, 0, max).value == Render(cs) + Ending(cs, FinalityOf(user))
  {
    var cs := Canonicalized(fs, user, true, base, 0, max).value;
    if cs != [] {
      SlashedShape(cs);
    }
    assert Render(cs) + "" == Render(cs);
  }

  /** What follows the new root, when it is more than a separator. */
  function After(newRoot: string, putOld: string): Option<string> {
    if |newRoot| > 0 && |newRoot| <= |putOld| && putOld[..|newRoot|] == newRoot && (At(putOld, |newRoot|) == '/' || newRoot == "/") then
      var after := putOld[if |newRoot| == 1 then 0 else |newRoot|..];
      if |after| >= 2 && after[0] == '/' then Some(after) else None
    else None
  }

  lemma AfterDirectory(dir: string, tail: string)
    requires |dir| > 1 && |tail| >= 2 && tail[0] == '/'
    ensures After(dir, dir + tail) == Some(tail)
  {
    assert (dir + tail)[..|dir|] == dir && (dir + tail)[|dir|..] == tail;
  }

  lemma AfterRoot(tail: string)
    requires |tail| >= 2 && tail[0] == '/'
    ensures After("/", tail) == Some(tail)
  {
    assert tail[..1] == "/" && tail[0..] == tail;
  }

  lemma AfterMeaning(newRoot: Path, cs: Path, f: Finality)
    requires Names(newRoot) && Names(cs) && newRoot < cs
    ensures After(Render(newRoot), Render(cs) + Ending(cs, f)) == Some(Render(cs[|newRoot|..]) + Ending(cs, f))
  {
    var rest, end := cs[|newRoot|..], Ending(cs, f);
    assert cs == newRoot + rest;
    SlashedShape(rest);
    if newRoot == [] {
      assert rest == cs;
      AfterRoot(Slashed(rest) + end);
    } else {
      SlashedConcat(newRoot, rest);
      SlashedShape(newRoot);
      Associates(Slashed(newRoot), Slashed(rest), end);
      AfterDirectory(Slashed(newRoot), Slashed(rest) + end);
    }
  }

  /** `substitute_binding` through a binding with that guest path. */
  function Substituted(guest: string, host: string, path: string): string
    requires |guest| <= |path|
  {
    if ComparePaths(host, guest) == PathsAreEqual then path else SubstitutePathPrefix(path, |guest|, host)
  }

  /** The binding applies to the path and leads it there. */
  ghost predicate Leads(guest: string, host: string, path: string, result: string) {
    && (ComparePaths(guest, path) == PathsAreEqual || ComparePaths(guest, path) == Path1IsPrefix)
    && |guest| <= |path| && Substituted(guest, host, path) == result
  }

  /** The binding at put_old leads the paths below it into the previous root exactly when put_old was spelled without a
      terminating separator, "." or "..", or when it is bound to its own name, and the separator does not matter. */
  lemma LeadsExactly(putOld: Path, f: Finality, host: Path, rest: Path)
    requires Proper(putOld) && putOld != [] && Names(host) && Proper(rest) && rest != [] && SubstitutionFits(putOld, host, putOld + rest)
    ensures Leads(Render(putOld) + Ending(putOld, f), Render(host), Render(putOld + rest), Render(host + rest))
      <==> Ending(putOld, f) == "" || (Ending(putOld, f) == "/" && host == putOld)
  {
    if f == FinalSlash {
      LeadsSlashed(putOld, host, rest);
    } else if f == FinalDot {
      DottedApart(putOld, rest);
    } else {
      assert Render(putOld) + "" == Render(putOld);
      LeadsPlain(putOld, host, rest);
    }
  }

  lemma LeadsPlain(putOld: Path, host: Path, rest: Path)
    requires Names(putOld) && putOld != [] && Names(host) && Names(rest) && rest != [] && SubstitutionFits(putOld, host, putOld + rest)
    ensures Leads(Render(putOld), Render(host), Render(putOld + rest), Render(host + rest))
  {
    assert (putOld + rest)[|putOld|..] == rest;
    CompareMeaning(putOld, putOld + rest);
    CompareMeaning(host, putOld);
    SlashedPrefix(putOld, putOld + rest);
    if host != putOld {
      SubstituteMeaning(putOld, host, putOld + rest);
    }
  }

  lemma LeadsSlashed(putOld: Path, host: Path, rest: Path)
    requires Names(putOld) && putOld != [] && Names(host) && Names(rest) && rest != [] && SubstitutionFits(putOld, host, putOld + rest)
    ensures Leads(Render(putOld) + "/", Render(host), Render(putOld + rest), Render(host + rest)) <==> host == putOld
  {
    SlashedConcat(putOld, rest);
    SlashedConcat(host, rest);
    SlashedShape(putOld);
    SlashedShape(rest);
    RenderLength(host);
    SameWithSeparator(host, putOld);
    Applies(Slashed(putOld), Slashed(rest));
    if host != putOld {
      RunsTogether(Slashed(putOld), Slashed(rest), Render(host));
    }
  }

  lemma Applies(dir: string, tail: string)
    requires |dir| >= 2 && dir[|dir| - 1] != '/' && |tail| >= 2 && tail[0] == '/' && tail[|tail| - 1] != '/'
    ensures ComparePaths(dir + "/", dir + tail) == Path1IsPrefix && |dir + "/"| <= |dir + tail|
  {
    assert (dir + "/")[..|dir|] == dir == (dir + tail)[..|dir|];
  }

  /** One separator too many is taken away. */
  lemma RunsTogether(dir: string, tail: string, host: string)
    requires |dir| >= 2 && |tail| >= 2 && |host| >= 1 && (|host| == 1 || |tail| + |host| < PATH_MAX)
    ensures SubstitutePathPrefix(dir + tail, |dir + "/"|, host) == (if |host| == 1 then "" else host) + tail[1..]
  {
    assert (dir + tail)[|dir| + 1..] == tail[1..];
    assert "" + tail[1..] == tail[1..];
  }

  /** A terminating separator does not count in comparisons. */
  lemma SameWithSeparator(a: Path, b: Path)
    requires Names(a) && Names(b) && b != []
    ensures ComparePaths(Render(a), Render(b) + "/") == PathsAreEqual <==> a == b
  {
    SlashedShape(b);
    Trimmed(a);
    assert (Render(b) + "/")[..|Slashed(b)|] == Slashed(b);
    if ComparePaths(Render(a), Render(b) + "/") == PathsAreEqual {
      assert Slashed(a) == Slashed(b);
      RenderLength(a);
      RenderInjective(a, b);
    }
  }

  lemma DottedApart(putOld: Path, rest: Path)
    requires Names(putOld) && putOld != [] && Proper(rest) && rest != []
    ensures ComparePaths(Render(putOld) + "/.", Render(putOld + rest)) == PathsAreNotComparable
  {
    var g, path, n := Render(putOld) + "/.", Render(putOld + rest), |Slashed(putOld)|;
    SlashedConcat(putOld, rest);
    SlashedShape(putOld);
    SlashedFirst(rest);
    SlashedShape(rest);
    TailStarts(rest[1..]);
    var c := rest[0];
    assert path == Slashed(putOld) + ("/" + c + Slashed(rest[1..]));
    assert path[n + 1] == c[0] && g[n + 1] == '.';
    assert path[|path| - 1] == Slashed(rest)[|Slashed(rest)| - 1];
    if |c| == 1 {
      assert c == [c[0]];
      assert g[..n + 2][n + 1] != path[..n + 2][n + 1];
    } else {
      assert path[n + 2] == c[1] && c[1] in c;
      assert path[n + 2] != '/' && path[n + 2] != '\0';
    }
  }

  /** Stated of the user's path: put_old gives access to the previous root exactly then. */
  lemma PutOldExactly(fs: FileSystem, user: string, newRoot: Path, max: nat, oldRoot: Path, rest: Path)
    requires GoodFileSystem(fs) && '\0' !in user && Proper(newRoot) && LinkFree(fs, newRoot)
    requires var base := if IsAbsolute(user) then [] else newRoot;
      && Outcome(fs, user, true, base, 0, max).Ok? && Canonicalized(fs, user, true, base, 0, max).Ok?
      && newRoot < Canonicalized(fs, user, true, base, 0, max).value
    requires var putOld := Canonicalized(fs, user, true, if IsAbsolute(user) then [] else newRoot, 0, max).value[|newRoot|..];
      Names(oldRoot) && Proper(rest) && rest != [] && Names(putOld) && SubstitutionFits(putOld, oldRoot, putOld + rest)
    ensures var base := if IsAbsolute(user) then [] else newRoot;
      var putOld := Canonicalized(fs, user, true, base, 0, max).value[|newRoot|..];
      var after := After(Render(newRoot), Outcome(fs, user, true, base, 0, max).value);
      after.Some? && (Leads(after.value, Render(oldRoot), Render(putOld + rest), Render(oldRoot + rest))
                      <==> FinalityOf(user) == FinalNormal || (FinalityOf(user) == FinalSlash && oldRoot == putOld))
  {
    var base: Path := if IsAbsolute(user) then [] else newRoot;
    assert LinkFree(fs, base) && Proper(base);
    var cs := Canonicalized(fs, user, true, base, 0, max).value;
    CanonicalizedShape(fs, user, true, base, 0, max);
    assert Split("") == [];
    SpelledAs(fs, user, base, max);
    AfterMeaning(newRoot, cs, FinalityOf(user));
    var putOld := cs[|newRoot|..];
    assert Ending(cs, FinalityOf(user)) == Ending(putOld, FinalityOf(user));
    LeadsExactly(putOld, FinalityOf(user), oldRoot, rest);
  }
}
