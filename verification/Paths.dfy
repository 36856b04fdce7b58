/** Path strings and their components (proot-master/src/path/path.c).

    A canonical path is "/" or a run of "/name"; `Render` builds it from its names and `Split` reads them
    back.  The comparison, joining and prefix substitution of the source work on characters; here they are
    shown to be the component operations they stand for. */
module Paths {
  import opened Wrappers
  import opened Limits

  const NAME_MAX: nat := 255

  /** One component: not empty, no separator, no terminator. */
  ghost predicate Name(c: string) {
    c != "" && '/' !in c && '\0' !in c
  }

  ghost predicate Names(cs: seq<string>) {
    forall i :: 0 <= i < |cs| ==> Name(cs[i])
  }

  /** Every name preceded by a separator. */
  function Slashed(cs: seq<string>): string {
    if cs == [] then "" else Slashed(cs[..|cs| - 1]) + "/" + cs[|cs| - 1]
  }

  function Render(cs: seq<string>): string {
    if cs == [] then "/" else Slashed(cs)
  }

  lemma Associates(a: string, b: string, c: string)
    ensures (a + b) + c == a + (b + c)
  {
  }

  lemma {:induction false} SlashedConcat(a: seq<string>, b: seq<string>)
    ensures Slashed(a + b) == Slashed(a) + Slashed(b)
    decreases |b|
  {
    if b == [] {
      assert a + b == a;
    } else {
      var n := |b| - 1;
      SlashedConcat(a, b[..n]);
      assert (a + b)[..|a + b| - 1] == a + b[..n];
      Associates(Slashed(a), Slashed(b[..n]), "/" + b[n]);
      Associates(Slashed(b[..n]), "/", b[n]);
      Associates(Slashed(a + b[..n]), "/", b[n]);
    }
  }

  lemma SlashedOne(c: string)
    ensures Slashed([c]) == "/" + c
  {
    assert [c][..0] == [];
    assert Slashed([]) == "";
  }

  lemma SlashedFirst(cs: seq<string>)
    requires cs != []
    ensures Slashed(cs) == "/" + cs[0] + Slashed(cs[1..])
  {
    assert cs == [cs[0]] + cs[1..];
    SlashedConcat([cs[0]], cs[1..]);
    SlashedOne(cs[0]);
  }

  lemma SlashedShape(cs: seq<string>)
    requires Names(cs) && cs != []
    ensures |Slashed(cs)| >= 2 && Slashed(cs)[0] == '/'
    ensures Slashed(cs)[|Slashed(cs)| - 1] != '/'
  {
    SlashedFirst(cs);
    var last := cs[|cs| - 1];
    assert Slashed(cs)[|Slashed(cs)| - 1] == last[|last| - 1];
    assert last[|last| - 1] in last;
  }

  // ---------------------------------------------------------------- comparison

  /** The character at `i`, or the terminator. */
  function At(s: string, i: nat): char {
    if i < |s| then s[i] else '\0'
  }

  datatype Comparison = PathsAreEqual | Path1IsPrefix | Path2IsPrefix | PathsAreNotComparable

  /** `compare_paths2` on the lengths `compare_paths` passes. */
  function ComparePaths(path1: string, path2: string): Comparison {
    if |path1| == 0 || |path2| == 0 then PathsAreNotComparable
    else
      var length1 := if path1[|path1| - 1] == '/' then |path1| - 1 else |path1|;
      var length2 := if path2[|path2| - 1] == '/' then |path2| - 1 else |path2|;
      var lengthMin := if length1 < length2 then length1 else length2;
      var sentinel := if length1 < length2 then At(path2, lengthMin) else At(path1, lengthMin);
      if sentinel != '/' && sentinel != '\0' then PathsAreNotComparable
      else if path1[..lengthMin] != path2[..lengthMin] then PathsAreNotComparable
      else if length1 == length2 then PathsAreEqual
      else if length1 < length2 then Path1IsPrefix
      else Path2IsPrefix
  }

  /** `a` is where a separator or the end falls in the longer path. */
  lemma {:induction false} PrefixReflects(a: seq<string>, b: seq<string>)
    requires Names(a) && Names(b)
    requires Slashed(a) <= Slashed(b)
    requires |Slashed(a)| == |Slashed(b)| || Slashed(b)[|Slashed(a)|] == '/'
    ensures a <= b
    decreases |a|
  {
    if a != [] {
      SlashedFirst(a);
      assert b != [];
      SlashedFirst(b);
      FirstNamesAgree(a[0], Slashed(a[1..]), b[0], Slashed(b[1..])) by {
        TailStarts(a[1..]);
        TailStarts(b[1..]);
      }
      PrefixReflects(a[1..], b[1..]);
      assert a == [a[0]] + a[1..] && b == [b[0]] + b[1..];
    }
  }

  lemma TailStarts(cs: seq<string>)
    ensures Slashed(cs) == "" || Slashed(cs)[0] == '/'
  {
    if cs != [] {
      SlashedFirst(cs);
    }
  }

  lemma FirstNamesAgree(c: string, x: string, d: string, y: string)
    requires Name(c) && Name(d)
    requires x == "" || x[0] == '/'
    requires y == "" || y[0] == '/'
    requires "/" + c + x <= "/" + d + y
    requires |c + x| == |d + y| || ("/" + d + y)[|c + x| + 1] == '/'
    ensures c == d && x <= y
    ensures |x| == |y| || y[|x|] == '/'
  {
    var l, r := "/" + c + x, "/" + d + y;
    assert c + x == l[1..] && d + y == r[1..];
    SegmentOf(c, x);
    SegmentOf(d, y);
    SegmentPrefix(c + x, d + y);
    assert c == (c + x)[..|c|] && d == (d + y)[..|d|];
    assert x == (c + x)[|c|..] && y == (d + y)[|d|..];
  }

  /** The length of the part before the first separator. */
  ghost function Segment(s: string): nat {
    if s == "" || s[0] == '/' then 0 else 1 + Segment(s[1..])
  }

  lemma {:induction false} SegmentOf(c: string, x: string)
    requires '/' !in c
    requires x == "" || x[0] == '/'
    ensures Segment(c + x) == |c|
    decreases |c|
  {
    if c == "" {
      assert c + x == x;
    } else {
      assert c[0] in c;
      SegmentOf(c[1..], x);
      assert (c + x)[1..] == c[1..] + x;
    }
  }

  lemma {:induction false} SegmentPrefix(u: string, v: string)
    requires u <= v && (|u| == |v| || v[|u|] == '/')
    ensures Segment(u) == Segment(v)
    decreases |u|
  {
    if u != "" {
      SegmentPrefix(u[1..], v[1..]);
    }
  }

  lemma SlashedPrefix(a: seq<string>, b: seq<string>)
    requires a <= b
    ensures Slashed(a) <= Slashed(b)
    ensures a != b ==> |Slashed(a)| < |Slashed(b)| && Slashed(b)[|Slashed(a)|] == '/'
  {
    var rest := b[|a|..];
    assert b == a + rest;
    SlashedConcat(a, rest);
    if rest != [] {
      SlashedFirst(rest);
    }
  }

  /** How two component lists compare. */
  ghost function CompareNames(a: seq<string>, b: seq<string>): Comparison {
    if a == b then PathsAreEqual
    else if a <= b then Path1IsPrefix
    else if b <= a then Path2IsPrefix
    else PathsAreNotComparable
  }

  lemma Trimmed(cs: seq<string>)
    requires Names(cs)
    ensures var p := Render(cs);
            |p| > 0 && p[..if p[|p| - 1] == '/' then |p| - 1 else |p|] == Slashed(cs)
    ensures forall i :: |Slashed(cs)| <= i ==> At(Render(cs), i) == '/' || At(Render(cs), i) == '\0'
  {
    if cs != [] {
      SlashedShape(cs);
    }
  }

  lemma {:induction false} NoTerminator(cs: seq<string>)
    requires Names(cs)
    ensures '\0' !in Slashed(cs)
    decreases |cs|
  {
    if cs != [] {
      NoTerminator(cs[..|cs| - 1]);
    }
  }

  /** On canonical paths the character comparison is component-wise: "/usr" does not contain "/usrlocal". */
  lemma CompareMeaning(a: seq<string>, b: seq<string>)
    requires Names(a) && Names(b)
    ensures ComparePaths(Render(a), Render(b)) == CompareNames(a, b)
  {
    Trimmed(a);
    Trimmed(b);
    NoTerminator(a);
    NoTerminator(b);
    var p, q, s, t := Render(a), Render(b), Slashed(a), Slashed(b);
    if a <= b {
      SlashedPrefix(a, b);
    } else if b <= a {
      SlashedPrefix(b, a);
    } else {
      if s <= t && (|s| == |t| || t[|s|] == '/') {
        PrefixReflects(a, b);
      }
      if t <= s && (|s| == |t| || s[|t|] == '/') {
        PrefixReflects(b, a);
      }
    }
  }

  /** A canonical path has one list of names. */
  lemma RenderInjective(a: seq<string>, b: seq<string>)
    requires Names(a) && Names(b) && Render(a) == Render(b)
    ensures a == b
  {
    CompareMeaning(a, b);
    CompareMeaning(a, a);
  }

  // ---------------------------------------------------------------- joining

  /** `join_paths` of two paths; nothing when the result does not fit. */
  function JoinPaths(a: string, b: string): Option<string> {
    if |a| + 1 >= PATH_MAX then None
    else if |a| > 0 && a[|a| - 1] != '/' && At(b, 0) != '/' then
      if |a| + |b| + 1 + 1 >= PATH_MAX then None else Some(a + "/" + b)
    else if |a| > 0 && a[|a| - 1] == '/' && At(b, 0) == '/' then
      if |a| + |b| - 1 + 1 >= PATH_MAX then None else Some(a + b[1..])
    else
      if |a| + |b| + 1 >= PATH_MAX then None else Some(a + b)
  }

  /** Joining a name to a canonical path adds it at the end. */
  lemma JoinMeaning(cs: seq<string>, c: string)
    requires Names(cs) && Name(c)
    ensures JoinPaths(Render(cs), c) ==
      if |Render(cs + [c])| + 1 >= PATH_MAX then None else Some(Render(cs + [c]))
  {
    SlashedConcat(cs, [c]);
    SlashedOne(c);
    assert c[0] in c;
    if cs != [] {
      SlashedShape(cs);
    }
  }

  // ---------------------------------------------------------------- prefix substitution

  /** `substitute_path_prefix`; a result that would not fit leaves the path as it is. */
  function SubstitutePathPrefix(path: string, oldLength: nat, newPrefix: string): string
    requires oldLength <= |path|
  {
    if |newPrefix| == 1 then
      if |path| - oldLength != 0 then path[oldLength..] else "/"
    else if oldLength == 1 then
      if |newPrefix| + |path| >= PATH_MAX then path
      else if |path| > 1 then newPrefix + path
      else newPrefix
    else
      if |path| - oldLength + |newPrefix| >= PATH_MAX then path
      else newPrefix + path[oldLength..]
  }

  /** When the substituted path fits the buffer, as the source measures it. */
  ghost predicate SubstitutionFits(from: seq<string>, into: seq<string>, path: seq<string>)
    requires from <= path
  {
    || into == [] || into == from
    || (from == [] && |Render(into)| + |Render(path)| < PATH_MAX)
    || (from != [] && |Slashed(path)| - |Slashed(from)| + |Slashed(into)| < PATH_MAX)
  }

  /** Replacing one containing directory by another, with no special case for "/" left to see. */
  lemma SubstituteMeaning(from: seq<string>, into: seq<string>, path: seq<string>)
    requires Names(from) && Names(into) && Names(path) && from <= path && from != into
    ensures |Render(from)| <= |Render(path)|
    ensures SubstitutePathPrefix(Render(path), |Render(from)|, Render(into)) ==
      if SubstitutionFits(from, into, path) then Render(into + path[|from|..]) else Render(path)
  {
    var rest := path[|from|..];
    assert path == from + rest;
    SlashedConcat(from, rest);
    RenderLength(from);
    RenderLength(path);
    if into == [] {
      IntoRoot(from, rest);
    } else if from == [] {
      FromRoot(into, rest);
    } else {
      FromInto(from, into, rest);
    }
  }

  lemma IntoRoot(from: seq<string>, rest: seq<string>)
    requires Names(from) && Names(rest) && from != []
    ensures |Render(from)| <= |Render(from + rest)|
    ensures SubstitutePathPrefix(Render(from + rest), |Render(from)|, "/") == Render([] + rest)
  {
    SlashedConcat(from, rest);
    RenderLength(rest);
    assert [] + rest == rest && Render(from + rest)[|Render(from)|..] == Slashed(rest);
  }

  lemma FromRoot(into: seq<string>, path: seq<string>)
    requires Names(into) && Names(path) && into != []
    ensures SubstitutePathPrefix(Render(path), 1, Render(into)) ==
      if |Render(into)| + |Render(path)| < PATH_MAX then Render(into + path) else Render(path)
  {
    SlashedConcat(into, path);
    SlashedShape(into);
    RenderLength(path);
    if path == [] {
      assert into + path == into;
    }
  }

  lemma FromInto(from: seq<string>, into: seq<string>, rest: seq<string>)
    requires Names(from) && Names(into) && Names(rest) && from != [] && into != []
    ensures |Render(from)| <= |Render(from + rest)|
    ensures SubstitutePathPrefix(Render(from + rest), |Render(from)|, Render(into)) ==
      if |Slashed(rest)| + |Slashed(into)| < PATH_MAX then Render(into + rest) else Render(from + rest)
  {
    SlashedConcat(from, rest);
    SlashedConcat(into, rest);
    SlashedShape(from);
    SlashedShape(into);
    ReplaceStart(Slashed(from), Slashed(rest), Slashed(into));
  }

  lemma ReplaceStart(a: string, tail: string, b: string)
    requires |a| > 1 && |b| > 1
    ensures SubstitutePathPrefix(a + tail, |a|, b) == if |tail| + |b| < PATH_MAX then b + tail else a + tail
  {
    assert (a + tail)[|a|..] == tail;
  }

  lemma RenderLength(cs: seq<string>)
    requires Names(cs)
    ensures |Render(cs)| == 1 <==> cs == []
    ensures Slashed(cs) == "" <==> cs == []
  {
    if cs != [] {
      SlashedShape(cs);
    }
  }
}
