/** Canonicalization of guest paths (proot-master/src/path/canon.c).

    The file system is a constant function from canonical guest paths to what is there; a link's target is
    the target as the guest sees it.  `Resolver` gives the reference meaning, a plain worklist resolver in the
    sense of section 4.13 (Pathname Resolution) of POSIX.1-2017 Base Definitions. */
module Resolver {
  import opened Paths

  type Path = seq<string>

  datatype Kind = Dir | File | Missing | Link(target: string)

  type FileSystem = string -> Kind

  // ---------------------------------------------------------------- cutting a string into names

  function Skip(s: string): (r: string)
    ensures |r| <= |s| && (r == "" || r[0] != '/')
  {
    if s != "" && s[0] == '/' then Skip(s[1..]) else s
  }

  function Head(s: string): (r: string)
    ensures |r| <= |s| && '/' !in r
    ensures s != "" && s[0] != '/' ==> r != ""
  {
    if s == "" || s[0] == '/' then "" else [s[0]] + Head(s[1..])
  }

  function Tail(s: string): (r: string)
    ensures |r| <= |s| && (r == "" || r[0] == '/')
    ensures s != "" && s[0] != '/' ==> |r| < |s|
  {
    if s == "" || s[0] == '/' then s else Tail(s[1..])
  }

  /** The names of a path, without the separators. */
  function Split(s: string): seq<string>
    decreases |s|
  {
    var u := Skip(s);
    if u == "" then [] else [Head(u)] + Split(Tail(u))
  }

  function IsAbsolute(s: string): bool {
    s != "" && s[0] == '/'
  }

  function EndsWithSlash(s: string): bool {
    s != "" && s[|s| - 1] == '/'
  }

  // ---------------------------------------------------------------- the worklist resolver

  /** A name still to resolve, and whether a link of that name is followed. */
  datatype Item = Item(name: string, follow: bool)

  datatype Config = Config(base: Path, work: seq<Item>)

  /** Every name is followed, except perhaps the last. */
  ghost function Items(names: seq<string>, followLast: bool): (r: seq<Item>)
    ensures |r| == |names|
  {
    if names == [] then []
    else [Item(names[0], |names| > 1 || followLast)] + Items(names[1..], followLast)
  }

  function Parent(base: Path): Path {
    if base == [] then [] else base[..|base| - 1]
  }

  /** One step: push a name, pop on "..", splice a link's target in front of the work left. */
  ghost function Step(fs: FileSystem, c: Config): Config
    requires c.work != []
  {
    var x, rest := c.work[0], c.work[1..];
    if x.name == "." then Config(c.base, rest)
    else if x.name == ".." then Config(Parent(c.base), rest)
    else
      var kind := fs(Render(c.base + [x.name]));
      if kind.Link? && x.follow then
        Config(if IsAbsolute(kind.target) then [] else c.base, Items(Split(kind.target), true) + rest)
      else Config(c.base + [x.name], rest)
  }

  ghost predicate Runs(fs: FileSystem, c: Config, n: nat, d: Config)
    decreases n
  {
    if n == 0 then c == d else c.work != [] && Runs(fs, Step(fs, c), n - 1, d)
  }

  /** Work that waits behind does not change a run. */
  lemma {:induction false} RunsBefore(fs: FileSystem, c: Config, n: nat, d: Config, more: seq<Item>)
    requires Runs(fs, c, n, d)
    ensures Runs(fs, Config(c.base, c.work + more), n, Config(d.base, d.work + more))
    decreases n
  {
    if n > 0 {
      var e := Step(fs, c);
      RunsBefore(fs, e, n - 1, d, more);
      StepBefore(fs, c, more);
    }
  }

  lemma StepBefore(fs: FileSystem, c: Config, more: seq<Item>)
    requires c.work != []
    ensures Step(fs, Config(c.base, c.work + more)) == Config(Step(fs, c).base, Step(fs, c).work + more)
  {
    var x, rest := c.work[0], c.work[1..];
    assert (c.work + more)[0] == x && (c.work + more)[1..] == rest + more;
    var kind := fs(Render(c.base + [x.name]));
    if kind.Link? {
      var spliced := Items(Split(kind.target), true);
      assert spliced + (rest + more) == (spliced + rest) + more;
    }
  }

  lemma {:induction false} RunsThen(fs: FileSystem, c: Config, n: nat, d: Config, k: nat, e: Config)
    requires Runs(fs, c, n, d) && Runs(fs, d, k, e)
    ensures Runs(fs, c, n + k, e)
    decreases n
  {
    if n > 0 {
      RunsThen(fs, Step(fs, c), n - 1, d, k, e);
    }
  }

  /** The resolver is deterministic: a run that ends has one result. */
  lemma {:induction false} OneResult(fs: FileSystem, c: Config, n: nat, d: Config, k: nat, e: Config)
    requires Runs(fs, c, n, d) && d.work == [] && Runs(fs, c, k, e) && e.work == []
    ensures n == k && d == e
    decreases n
  {
    if n > 0 && k > 0 {
      OneResult(fs, Step(fs, c), n - 1, d, k - 1, e);
    }
  }
}
