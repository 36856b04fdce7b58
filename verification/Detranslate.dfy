/** From host paths back to guest paths (`detranslate_path`, proot-master/src/path/path.c), and when that undoes a
    translation.  What the kernel's own links in /proc lead to is an input. */
module Detranslate {
  import opened Wrappers
  import opened Paths
  import opened Bindings

  type Path = seq<string>

  /** The first binding of the host list that contains the path. */
  ghost function FirstHostMatch(hosts: seq<Binding>, h: Path): Option<Binding> {
    if hosts == [] then None
    else if hosts[0].host <= h then Some(hosts[0])
    else FirstHostMatch(hosts[1..], h)
  }

  /** Paths inside a rootfs other than "/" never go through a binding. */
  ghost function HostBinding(hosts: seq<Binding>, root: Path, h: Path): Option<Binding> {
    if root != [] && root <= h then None else FirstHostMatch(hosts, h)
  }

  /** Bindings are resolved for a path that is no link's target, for the target of a link in /proc, and for the target
      of a link outside the rootfs that lies in the same binding as the link. */
  ghost predicate Follows(hosts: seq<Binding>, root: Path, h: Path, referrer: Option<Path>) {
    match referrer
    case None => true
    case Some(t) =>
      || ["proc"] < t
      || (!(root <= t) && HostBinding(hosts, root, h).Some? && HostBinding(hosts, root, t).Some?
          && HostBinding(hosts, root, h).value.host == HostBinding(hosts, root, t).value.host)
  }

  /** The guest path of a host path; a link may lead out of the root, anything else may not. */
  ghost function Detranslated(hosts: seq<Binding>, root: Path, h: Path, referrer: Option<Path>): Option<Path> {
    var b := if Follows(hosts, root, h, referrer) then HostBinding(hosts, root, h) else None;
    if b.Some? && b.value.host <= h then Some(b.value.guest + h[|b.value.host|..])
    else if root <= h then Some(h[|root|..])
    else if referrer.Some? then Some(h) else None
  }

  lemma {:induction false} MatchContains(hosts: seq<Binding>, h: Path)
    ensures FirstHostMatch(hosts, h).Some? ==>
      FirstHostMatch(hosts, h).value in hosts && FirstHostMatch(hosts, h).value.host <= h
    decreases |hosts|
  {
    if hosts != [] {
      MatchContains(hosts[1..], h);
    }
  }

  /** `get_binding` on the host side. */
  method GetHostBinding(hosts: seq<Binding>, root: Path, path: Path) returns (r: Option<Binding>)
    requires Canonical(hosts) && Names(root) && Names(path)
    ensures r == HostBinding(hosts, root, path)
  {
    for i := 0 to |hosts|
      invariant FirstHostMatch(hosts, path) == FirstHostMatch(hosts[i..], path) ||
        (root != [] && root <= path)
    {
      CompareMeaning(hosts[i].host, path);
      var comparison := ComparePaths(Render(hosts[i].host), Render(path));
      if comparison == PathsAreEqual || comparison == Path1IsPrefix {
        CompareMeaning(root, []);
        CompareMeaning(root, path);
        var belongs := ComparePaths(Render(root), Render(path));
        if ComparePaths(Render(root), "/") != PathsAreEqual && (belongs == PathsAreEqual || belongs == Path1IsPrefix) {
          continue;
        }
        return Some(hosts[i]);
      }
    }
    return None;
  }

  /** The guest side of the binding is not too long for the buffer; otherwise the path stays as it is. */
  ghost predicate Fits(hosts: seq<Binding>, root: Path, h: Path, referrer: Option<Path>) {
    match HostBinding(hosts, root, h)
    case Some(b) => Follows(hosts, root, h, referrer) ==> b.host <= h && SubstitutionFits(b.host, b.guest, h)
    case None => true
  }

  /** `detranslate_path`; a link outside the rootfs lies in some binding. */
  method DetranslatePath(hosts: seq<Binding>, root: Path, path: Path, referrer: Option<Path>) returns (r: Option<string>)
    requires Canonical(hosts) && Names(root) && Names(path) && (referrer.Some? ==> Names(referrer.value))
    requires referrer.Some? && !(["proc"] < referrer.value) && !(root <= referrer.value) ==> HostBinding(hosts, root, referrer.value).Some?
    ensures Fits(hosts, root, path, referrer) ==>
      r == match Detranslated(hosts, root, path, referrer) case Some(g) => Some(Render(g)) case None => None
    ensures !Fits(hosts, root, path, referrer) ==> r == Some(Render(path))
  {
    MatchContains(hosts, path);
    var follow := FollowsBinding(hosts, root, path, referrer);
    if follow {
      var found := GetHostBinding(hosts, root, path);
      if found.Some? {
        r := Some(ThroughBinding(found.value, path));
        return;
      }
    }
    r := StripRoot(root, path, referrer.None?);
  }

  method FollowsBinding(hosts: seq<Binding>, root: Path, path: Path, referrer: Option<Path>) returns (follow: bool)
    requires Canonical(hosts) && Names(root) && Names(path) && (referrer.Some? ==> Names(referrer.value))
    requires referrer.Some? && !(["proc"] < referrer.value) && !(root <= referrer.value) ==> HostBinding(hosts, root, referrer.value).Some?
    ensures follow <==> Follows(hosts, root, path, referrer)
  {
    if referrer.None? {
      return true;
    }
    CompareMeaning(["proc"], referrer.value);
    if ComparePaths(Render(["proc"]), Render(referrer.value)) == Path1IsPrefix {
      return true;
    }
    CompareMeaning(root, referrer.value);
    var belongs := ComparePaths(Render(root), Render(referrer.value));
    if belongs == PathsAreEqual || belongs == Path1IsPrefix {
      return false;
    }
    var referree := GetHostBinding(hosts, root, path);
    var ofLink := GetHostBinding(hosts, root, referrer.value);
    if referree.None? {
      return false;
    }
    MatchContains(hosts, path);
    MatchContains(hosts, referrer.value);
    CompareMeaning(referree.value.host, ofLink.value.host);
    return ComparePaths(Render(referree.value.host), Render(ofLink.value.host)) == PathsAreEqual;
  }

  function ThroughBinding(b: Binding, path: Path): (r: string)
    requires Names(b.host) && Names(b.guest) && Names(path) && b.host <= path
    ensures r == if SubstitutionFits(b.host, b.guest, path) then Render(b.guest + path[|b.host|..]) else Render(path)
  {
    CompareMeaning(b.host, b.guest);
    assert b.host + path[|b.host|..] == path;
    if ComparePaths(Render(b.host), Render(b.guest)) == PathsAreEqual then Render(path)
    else
      SubstituteMeaning(b.host, b.guest, path);
      SubstitutePathPrefix(Render(path), |Render(b.host)|, Render(b.guest))
  }

  method StripRoot(root: Path, path: Path, sanityCheck: bool) returns (r: Option<string>)
    requires Names(root) && Names(path)
    ensures r == if root <= path then Some(Render(path[|root|..])) else if sanityCheck then None else Some(Render(path))
  {
    CompareMeaning(root, path);
    match ComparePaths(Render(root), Render(path))
    case Path1IsPrefix =>
      StripMeaning(root, path);
      var prefixLength := if |Render(root)| == 1 then 0 else |Render(root)|;
      return Some(Render(path)[prefixLength..]);
    case PathsAreEqual =>
      assert path[|root|..] == [];
      return Some("/");
    case _ =>
      assert !(root <= path);
      return if sanityCheck then None else Some(Render(path));
  }

  lemma StripMeaning(root: Path, path: Path)
    requires Names(root) && Names(path) && root <= path && root != path
    ensures |Render(root)| <= |Render(path)|
    ensures Render(path)[if |Render(root)| == 1 then 0 else |Render(root)|..] == Render(path[|root|..])
  {
    var rest := path[|root|..];
    assert path == root + rest;
    SlashedConcat(root, rest);
    RenderLength(root);
    RenderLength(path);
    if root == [] {
      assert rest == path;
    }
  }

  // ---------------------------------------------------------------- there and back

  /** The binding that decides on the host side shows the same place as `b`. */
  ghost predicate SamePlace(b: Binding, f: Binding) {
    b.host <= f.host && f.guest == b.guest + f.host[|b.host|..]
  }

  /** A path comes back exactly if: in a rootfs, the binding shows a directory of it at its own place; elsewhere, the
      innermost binding on the host side shows the same place. */
  ghost predicate ComesBack(hosts: seq<Binding>, root: Path, b: Binding, h: Path) {
    if root != [] && root <= h then b.host == root + b.guest
    else FirstHostMatch(hosts, h).Some? && SamePlace(b, FirstHostMatch(hosts, h).value)
  }

  lemma RoundTrip(hosts: seq<Binding>, root: Path, b: Binding, p: Path)
    requires b in hosts && DeepestFirst(hosts, Host) && b.guest <= p
    ensures var h := b.host + p[|b.guest|..];
      Detranslated(hosts, root, h, None) == Some(p) <==> ComesBack(hosts, root, b, h)
  {
    var rest := p[|b.guest|..];
    var h := b.host + rest;
    assert p == b.guest + rest;
    if root != [] && root <= h {
      InsideRoot(root, b, rest);
    } else {
      FirstIsDeepest(hosts, b, h);
      OutsideRoot(b, FirstHostMatch(hosts, h).value, rest);
    }
  }

  lemma InsideRoot(root: Path, b: Binding, rest: Path)
    requires root <= b.host + rest
    ensures (b.host + rest)[|root|..] == b.guest + rest <==> b.host == root + b.guest
  {
    var h := b.host + rest;
    assert h == root + h[|root|..];
    if h[|root|..] == b.guest + rest {
      assert h == (root + b.guest) + rest;
      assert b.host == h[..|h| - |rest|] == root + b.guest;
    }
    if b.host == root + b.guest {
      assert h == root + (b.guest + rest);
    }
  }

  lemma OutsideRoot(b: Binding, f: Binding, rest: Path)
    requires b.host <= f.host <= b.host + rest
    ensures f.guest + (b.host + rest)[|f.host|..] == b.guest + rest <==> SamePlace(b, f)
  {
    var x := f.host[|b.host|..];
    assert f.host == b.host + x && x <= rest;
    var y := rest[|x|..];
    assert rest == x + y && (b.host + rest)[|f.host|..] == y;
    assert b.guest + rest == (b.guest + x) + y;
    if f.guest + y == (b.guest + x) + y {
      assert f.guest == (f.guest + y)[..|f.guest|];
      assert b.guest + x == ((b.guest + x) + y)[..|b.guest + x|];
    }
  }

  /** In a list kept deepest first, the first match is the innermost one. */
  lemma {:induction false} FirstIsDeepest(hosts: seq<Binding>, b: Binding, h: Path)
    requires b in hosts && DeepestFirst(hosts, Host) && b.host <= h
    ensures FirstHostMatch(hosts, h).Some? && b.host <= FirstHostMatch(hosts, h).value.host <= h
    decreases |hosts|
  {
    var f := hosts[0];
    if f.host <= h {
      var i :| 0 <= i < |hosts| && hosts[i] == b;
      if |f.host| < |b.host| {
        PrefixesNest(f.host, b.host, h);
      } else if |b.host| < |f.host| {
        PrefixesNest(b.host, f.host, h);
      } else {
        SameLength(b.host, f.host, h);
      }
    } else {
      FirstIsDeepest(hosts[1..], b, h);
    }
  }

  /** What decides whether a path comes back, of the binding it went through from `guest` to `host`. */
  ghost predicate ShowsSamePlace(hosts: seq<Binding>, root: Path, guest: Path, host: Path, h: Path) {
    if root != [] && root <= h then host == root + guest
    else
      var f := FirstHostMatch(hosts, h);
      f.Some? && host <= f.value.host && f.value.guest == guest + f.value.host[|host|..]
  }

  /** `substitute_binding` on the guest side and then `detranslate_path`, where the results fit. */
  method ThereAndBack(lists: BindingLists, p: Path) returns (r: Option<string>)
    requires lists.Valid() && Names(p) && [] in lists.Map()
    ensures var m := lists.Map();
      var b := Longest(m, p);
      var h := Resolve(m, p);
      SubstitutionFits(b, m[b], p) && Fits(lists.host, m[[]], h, None) ==>
        (r == Some(Render(p)) <==> ShowsSamePlace(lists.host, m[[]], b, m[b], h))
  {
    var found, b := lists.GetGuestBinding(p);
    var root := lists.GetRoot();
    var there := lists.SubstituteGuest(p);
    var h := b.host + p[|b.guest|..];
    if there != Render(h) {
      return None;
    }
    RootIsLast(lists.guest);
    assert b in lists.host;
    JoinedNames(b.host, p, |b.guest|);
    r := Back(lists.host, root, b, p, h);
  }

  method Back(hosts: seq<Binding>, root: Path, ghost b: Binding, ghost p: Path, h: Path) returns (r: Option<string>)
    requires Canonical(hosts) && DeepestFirst(hosts, Host) && Names(root) && Names(h) && Names(p)
    requires b in hosts && b.guest <= p && h == b.host + p[|b.guest|..]
    ensures Fits(hosts, root, h, None) ==> (r == Some(Render(p)) <==> ShowsSamePlace(hosts, root, b.guest, b.host, h))
  {
    RoundTrip(hosts, root, b, p);
    BackExactly(hosts, root, h, p);
    r := DetranslatePath(hosts, root, h, None);
  }

  lemma JoinedNames(host: Path, p: Path, n: nat)
    requires Names(host) && Names(p) && n <= |p|
    ensures Names(host + p[n..])
  {
  }

  lemma BackExactly(hosts: seq<Binding>, root: Path, h: Path, p: Path)
    requires Canonical(hosts) && Names(root) && Names(h) && Names(p)
    ensures var back := Detranslated(hosts, root, h, None);
      back.Some? && Render(back.value) == Render(p) <==> back == Some(p)
  {
    var back := Detranslated(hosts, root, h, None);
    if back.Some? {
      BackIsSpelled(hosts, root, h);
      if Render(back.value) == Render(p) {
        RenderInjective(back.value, p);
      }
    }
  }

  lemma BackIsSpelled(hosts: seq<Binding>, root: Path, h: Path)
    requires Canonical(hosts) && Names(root) && Names(h) && Detranslated(hosts, root, h, None).Some?
    ensures Names(Detranslated(hosts, root, h, None).value)
  {
    MatchContains(hosts, h);
  }

  /** A binding whose host side contains the rootfs never brings a path of the rootfs back. */
  lemma ContainingRootfs(hosts: seq<Binding>, root: Path, b: Binding, p: Path)
    requires b in hosts && DeepestFirst(hosts, Host) && b.guest <= p && b.host < root <= b.host + p[|b.guest|..]
    ensures Detranslated(hosts, root, b.host + p[|b.guest|..], None) != Some(p)
  {
    RoundTrip(hosts, root, b, p);
  }

  /** A link and its target in one binding outside the rootfs stay together: "/lib/a -> /lib/b" bound at "/foo" reads
      "/foo/b". */
  lemma LinksStayTogether(hosts: seq<Binding>, root: Path, b: Binding, link: Path, target: Path)
    requires b.host <= link && b.host <= target && !(root <= link) && !(root <= target)
    requires FirstHostMatch(hosts, link) == Some(b) && FirstHostMatch(hosts, target) == Some(b)
    ensures Detranslated(hosts, root, target, Some(link)) == Some(b.guest + target[|b.host|..])
  {
  }

  /** The target of a link in /proc is what the same path is without a link, except that it may lie outside the root. */
  lemma ProcLinksFollow(hosts: seq<Binding>, root: Path, link: Path, target: Path)
    requires |link| > 1 && link[0] == "proc"
    ensures Detranslated(hosts, root, target, Some(link)) ==
      match Detranslated(hosts, root, target, None) case Some(g) => Some(g) case None => Some(target)
  {
    assert link[..1] == ["proc"];
  }

  /** So a target in a binding outside the rootfs is shown in that binding, wherever in /proc the link is. */
  lemma ProcLinkThroughBinding(hosts: seq<Binding>, root: Path, b: Binding, link: Path, target: Path)
    requires |link| > 1 && link[0] == "proc" && !(root <= target) && FirstHostMatch(hosts, target) == Some(b)
    ensures b.host <= target && Detranslated(hosts, root, target, Some(link)) == Some(b.guest + target[|b.host|..])
  {
    MatchContains(hosts, target);
    assert link[..1] == ["proc"];
  }

  /** A link of the rootfs elsewhere is never followed into a binding: a target outside stays as it is. */
  lemma RootLinksStay(hosts: seq<Binding>, root: Path, link: Path, target: Path)
    requires root <= link && (link == [] || link[0] != "proc" || |link| == 1)
    ensures Detranslated(hosts, root, target, Some(link)) == if root <= target then Some(target[|root|..]) else Some(target)
  {
  }

  /** A directory of the rootfs bound at another place comes back under its own name. */
  lemma NoRoundTripInsideRootfs()
    ensures var root, b := ["r"], Binding(0, ["r", "data"], ["x"]);
            Detranslated([b], root, b.host + ["f"], None) == Some(["data", "f"])
  {
    var root, b := ["r"], Binding(0, ["r", "data"], ["x"]);
    var h := b.host + ["f"];
    assert h == ["r", "data", "f"] && h[..1] == root && h[1..] == ["data", "f"];
  }
}
