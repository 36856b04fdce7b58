/** The binding lists (proot-master/src/path/binding.c): kept deepest first by insertion, so that the
    first match is the longest one. */
module Bindings {
  import opened Paths

  /** A binding: a host location shown at a guest location, both canonical paths.  The number stands for
      the identity of the allocated record. */
  datatype Binding = Binding(id: nat, host: seq<string>, guest: seq<string>)

  datatype Side = Guest | Host

  function PathOf(b: Binding, side: Side): seq<string> {
    if side == Guest then b.guest else b.host
  }

  // ---------------------------------------------------------------- list order

  /** No binding precedes one nested inside it. */
  ghost predicate DeepestFirst(list: seq<Binding>, side: Side) {
    forall i, j :: 0 <= i < j < |list| ==> !(PathOf(list[i], side) < PathOf(list[j], side))
  }

  ghost predicate UniqueGuests(list: seq<Binding>) {
    forall i, j :: 0 <= i < j < |list| ==> list[i].guest != list[j].guest
  }

  ghost predicate UniqueIds(list: seq<Binding>) {
    forall i, j :: 0 <= i < j < |list| ==> list[i].id != list[j].id
  }

  ghost predicate Canonical(list: seq<Binding>) {
    forall i :: 0 <= i < |list| ==> Names(list[i].guest) && Names(list[i].host)
  }

  function InsertAt(list: seq<Binding>, p: nat, b: Binding): seq<Binding>
    requires p <= |list|
  {
    list[..p] + [b] + list[p..]
  }

  function RemoveAt(list: seq<Binding>, p: nat): seq<Binding>
    requires p < |list|
  {
    list[..p] + list[p + 1..]
  }

  lemma InsertAtIndex(list: seq<Binding>, p: nat, b: Binding, i: nat)
    requires p <= |list| && i <= |list|
    ensures |InsertAt(list, p, b)| == |list| + 1
    ensures InsertAt(list, p, b)[i] == if i < p then list[i] else if i == p then b else list[i - 1]
  {
  }

  lemma RemoveAtIndex(list: seq<Binding>, p: nat, i: nat)
    requires p < |list| && i < |list| - 1
    ensures |RemoveAt(list, p)| == |list| - 1
    ensures RemoveAt(list, p)[i] == if i < p then list[i] else list[i + 1]
  {
  }

  /** Right after the last binding the new one contains, nothing before contains it. */
  lemma InsortKeepsOrder(list: seq<Binding>, side: Side, p: nat, b: Binding)
    requires DeepestFirst(list, side) && p <= |list|
    requires p > 0 ==> PathOf(b, side) <= PathOf(list[p - 1], side)
    requires forall i :: p <= i < |list| ==> !(PathOf(b, side) <= PathOf(list[i], side))
    ensures DeepestFirst(InsertAt(list, p, b), side)
  {
    var r := InsertAt(list, p, b);
    forall i, j | 0 <= i < j < |r|
      ensures !(PathOf(r[i], side) < PathOf(r[j], side))
    {
      InsertAtIndex(list, p, b, i);
      InsertAtIndex(list, p, b, j);
      if j == p && PathOf(r[i], side) < PathOf(b, side) {
        PrefixProper(PathOf(r[i], side), PathOf(b, side), PathOf(list[p - 1], side));
      }
    }
  }

  lemma PrefixProper(a: seq<string>, b: seq<string>, c: seq<string>)
    requires a < b && b <= c
    ensures a < c
  {
  }

  lemma RemoveKeepsOrder(list: seq<Binding>, side: Side, p: nat)
    requires p < |list| && DeepestFirst(list, side)
    ensures DeepestFirst(RemoveAt(list, p), side)
  {
    var r := RemoveAt(list, p);
    forall i, j | 0 <= i < j < |r|
      ensures !(PathOf(r[i], side) < PathOf(r[j], side))
    {
      RemoveAtIndex(list, p, i);
      RemoveAtIndex(list, p, j);
    }
  }

  // ---------------------------------------------------------------- what a list means

  /** The host location of each guest location. */
  ghost function MapOf(list: seq<Binding>): map<seq<string>, seq<string>> {
    if list == [] then map[]
    else MapOf(list[..|list| - 1])[list[|list| - 1].guest := list[|list| - 1].host]
  }

  lemma {:induction false} BoundBySome(list: seq<Binding>, g: seq<string>) returns (i: nat)
    requires g in MapOf(list)
    ensures i < |list| && list[i].guest == g
    decreases |list|
  {
    var n := |list| - 1;
    if list[n].guest == g {
      i := n;
    } else {
      i := BoundBySome(list[..n], g);
    }
  }

  lemma {:induction false} BoundTo(list: seq<Binding>, i: nat)
    requires UniqueGuests(list) && i < |list|
    ensures list[i].guest in MapOf(list) && MapOf(list)[list[i].guest] == list[i].host
    decreases |list|
  {
    var n := |list| - 1;
    if i < n {
      BoundTo(list[..n], i);
    }
  }

  /** A binding of the list is a binding of the map. */
  lemma MemberBound(list: seq<Binding>, x: Binding)
    requires UniqueGuests(list) && x in list
    ensures x.guest in MapOf(list) && MapOf(list)[x.guest] == x.host
  {
    var i :| 0 <= i < |list| && list[i] == x;
    BoundTo(list, i);
  }

  lemma BoundMember(list: seq<Binding>, g: seq<string>) returns (x: Binding)
    requires g in MapOf(list)
    ensures x in list && x.guest == g
  {
    var i := BoundBySome(list, g);
    x := list[i];
  }

  /** The longest prefix of `p` that is bound. */
  ghost function Longest(m: map<seq<string>, seq<string>>, p: seq<string>): (q: seq<string>)
    requires [] in m
    ensures q in m && q <= p
    ensures forall r :: r in m && r <= p ==> |r| <= |q|
    decreases |p|
  {
    if p in m then p
    else
      ProperPrefixes(m, p);
      Longest(m, p[..|p| - 1])
  }

  lemma ProperPrefixes(m: map<seq<string>, seq<string>>, p: seq<string>)
    requires p != [] && p !in m
    ensures forall r :: r in m && r <= p ==> r <= p[..|p| - 1]
  {
    forall r | r in m && r <= p
      ensures r <= p[..|p| - 1]
    {
      assert p[..|r|] == r && p[..|p|] == p;
    }
  }

  /** Where a guest path leads on the host: the innermost binding's host location, then the rest. */
  ghost function Resolve(m: map<seq<string>, seq<string>>, p: seq<string>): seq<string>
    requires [] in m
  {
    var q := Longest(m, p);
    m[q] + p[|q|..]
  }

  class BindingLists {
    var guest: seq<Binding>
    var host: seq<Binding>
    var nextId: nat

    ghost predicate Consistent()
      reads this
    {
      && Canonical(guest) && UniqueGuests(guest) && UniqueIds(guest) && DeepestFirst(guest, Guest)
      && Canonical(host) && UniqueIds(host) && DeepestFirst(host, Host)
      && (forall i :: 0 <= i < |guest| ==> guest[i].id < nextId)
      && (forall i :: 0 <= i < |host| ==> host[i].id < nextId)
    }

    ghost predicate Valid()
      reads this
    {
      Consistent() && forall b :: b in guest <==> b in host
    }

    ghost function Map(): map<seq<string>, seq<string>>
      reads this
    {
      MapOf(guest)
    }

    /** The root file system alone. */
    constructor (root: seq<string>)
      requires Names(root)
      ensures Valid() && Map() == map[[] := root]
    {
      guest, host, nextId := [Binding(0, root, [])], [Binding(0, root, [])], 1;
      new;
      BoundTo(guest, 0);
    }

    /** `insort_binding` on the guest list: replace the binding of the same guest path, dropping that
        record from every list, or insert. */
    method InsortGuest(b: Binding)
      requires Consistent() && Names(b.guest) && Names(b.host) && b.id < nextId && Unlinked(guest, b)
      modifies this`guest, this`host
      ensures Consistent()
      ensures forall x :: x in guest <==> x == b || (x in old(guest) && x.guest != b.guest)
      ensures forall x :: x in host <==> x in old(host) && !Replaced(old(guest), b, x.id)
    {
      ghost var was := guest;
      var list, replaced := PlaceGuest(guest, b);
      guest := list;
      if replaced >= 0 {
        host := Unlink(host, replaced);
      }
    }

    /** `insort_binding` on the host list: equal host paths keep insertion order. */
    method InsortHost(b: Binding)
      requires Consistent() && Names(b.guest) && Names(b.host) && b.id < nextId && Unlinked(host, b)
      modifies this`host
      ensures Consistent()
      ensures forall x :: x in host <==> x == b || x in old(host)
    {
      var at, replace := FindPlace(host, Host, b);
      InsertFacts(host, Host, at, b);
      host := InsertAt(host, at, b);
    }

    /** `insort_binding2`: both lists; the guest path now leads to the new host path. */
    method Insort2(b: Binding)
      requires Valid() && Names(b.guest) && Names(b.host) && b.id < nextId && Unlinked(guest, b)
      modifies this`guest, this`host
      ensures Valid() && Map() == old(Map())[b.guest := b.host]
      ensures forall x :: x in guest <==> x == b || (x in old(guest) && x.guest != b.guest)
    {
      ghost var was := guest;
      SameUnlinked(guest, host, b);
      InsortGuest(b);
      StillUnlinked(old(host), host, b);
      InsortHost(b);
      SameBindings(was, guest, host, b);
      MapInsert(was, guest, b);
    }

    /** `insort_binding3`: a new record. */
    method Insort3(hostPath: seq<string>, guestPath: seq<string>) returns (b: Binding)
      requires Valid() && Names(guestPath) && Names(hostPath)
      modifies this
      ensures Valid() && Map() == old(Map())[guestPath := hostPath]
      ensures b == Binding(old(nextId), hostPath, guestPath) && nextId == old(nextId) + 1
      ensures forall x :: x in guest <==> x == b || (x in old(guest) && x.guest != guestPath)
    {
      b := Binding(nextId, hostPath, guestPath);
      nextId := nextId + 1;
      Insort2(b);
    }

    /** `remove_binding_from_all_lists`: unlink the record where it is linked. */
    method Remove(b: Binding)
      requires Valid()
      modifies this`guest, this`host
      ensures Valid()
      ensures forall x :: x in guest <==> x in old(guest) && x.id != b.id
      ensures b in old(guest) ==> Map() == old(Map()) - {b.guest}
      ensures b !in old(guest) && Unlinked(old(guest), b) ==> Map() == old(Map())
    {
      ghost var was := guest;
      guest := Unlink(guest, b.id);
      host := Unlink(host, b.id);
      MapAfterRemove(was, guest, b);
    }

    /** `get_binding` on the guest side: the first match of the list is the innermost binding. */
    method GetGuestBinding(path: seq<string>) returns (found: bool, b: Binding)
      requires Valid() && Names(path)
      ensures !found ==> forall g :: g in Map() ==> !(g <= path)
      ensures found ==> b in guest && b.guest <= path && forall g :: g in Map() && g <= path ==> |g| <= |b.guest|
      ensures [] in Map() ==> found && b.guest == Longest(Map(), path) && b.host == Map()[b.guest]
    {
      found, b := FirstMatch(guest, path);
    }

    /** `get_root`: the binding of "/" is always the last one. */
    method GetRoot() returns (root: seq<string>)
      requires Valid() && [] in Map()
      ensures root == Map()[[]]
    {
      var b := guest[|guest| - 1];
      RootIsLast(guest);
      root := b.host;
    }

    /** `substitute_binding` on the guest side, as a string operation. */
    method SubstituteGuest(path: seq<string>) returns (result: string)
      requires Valid() && Names(path) && [] in Map()
      ensures SubstitutionFits(Longest(Map(), path), Map()[Longest(Map(), path)], path) ==>
        result == Render(Resolve(Map(), path))
      ensures !SubstitutionFits(Longest(Map(), path), Map()[Longest(Map(), path)], path) ==> result == Render(path)
    {
      var found, b := GetGuestBinding(path);
      CompareMeaning(b.host, b.guest);
      if ComparePaths(Render(b.host), Render(b.guest)) == PathsAreEqual {
        assert b.guest + path[|b.guest|..] == path;
        result := Render(path);
      } else {
        SubstituteMeaning(b.guest, b.host, path);
        result := SubstitutePathPrefix(Render(path), |Render(b.guest)|, Render(b.host));
      }
    }
  }

  ghost predicate Unlinked(list: seq<Binding>, b: Binding) {
    forall i :: 0 <= i < |list| ==> list[i].id != b.id
  }

  /** The record `id` is the one the new binding takes the place of. */
  ghost predicate Replaced(list: seq<Binding>, b: Binding, id: nat) {
    exists i :: 0 <= i < |list| && list[i].guest == b.guest && list[i].id == id
  }

  /** The search loop of `insort_binding`.  `next` starts at the first binding, so its update for
      containers never happens and a binding that contains none goes to the head. */
  method FindPlace(list: seq<Binding>, side: Side, b: Binding) returns (at: nat, replace: bool)
    requires Canonical(list) && Names(b.guest) && Names(b.host)
    ensures replace ==> side == Guest && at < |list| && list[at].guest == b.guest
    ensures !replace ==> at <= |list| && (at > 0 ==> PathOf(b, side) <= PathOf(list[at - 1], side))
    ensures !replace ==> forall i :: at <= i < |list| ==> !(PathOf(b, side) <= PathOf(list[i], side))
    ensures !replace && side == Guest ==> forall i :: 0 <= i < |list| ==> list[i].guest != b.guest
  {
    var previous, next := -1, 0;
    for i := 0 to |list|
      invariant -1 <= previous < i && next == 0
      invariant previous >= 0 ==> PathOf(b, side) <= PathOf(list[previous], side)
      invariant forall j :: previous < j < i ==> !(PathOf(b, side) <= PathOf(list[j], side))
      invariant side == Guest ==> forall j :: 0 <= j < i ==> list[j].guest != b.guest
    {
      CompareMeaning(PathOf(b, side), PathOf(list[i], side));
      var comparison := ComparePaths(Render(PathOf(b, side)), Render(PathOf(list[i], side)));
      match comparison
      case PathsAreEqual =>
        if side == Guest {
          return i, true;
        }
        previous := i;
      case Path1IsPrefix =>
        previous := i;
      case Path2IsPrefix =>
        if next == |list| {
          next := i;
        }
      case PathsAreNotComparable =>
    }
    if previous >= 0 {
      return previous + 1, false;
    } else {
      return next, false;
    }
  }

  /** The new guest list, and the record that gave way, or -1. */
  method PlaceGuest(list: seq<Binding>, b: Binding) returns (r: seq<Binding>, replaced: int)
    requires Canonical(list) && UniqueGuests(list) && UniqueIds(list) && DeepestFirst(list, Guest)
    requires Names(b.guest) && Names(b.host) && Unlinked(list, b)
    ensures Canonical(r) && UniqueGuests(r) && UniqueIds(r) && DeepestFirst(r, Guest)
    ensures forall x :: x in r <==> x == b || (x in list && x.guest != b.guest)
    ensures replaced >= -1 && forall id: nat :: Replaced(list, b, id) <==> id == replaced
  {
    var at, replace := FindPlace(list, Guest, b);
    if replace {
      ReplaceFacts(list, at, b);
      OneReplaced(list, at, b);
      return list[at := b], list[at].id;
    } else {
      InsertFacts(list, Guest, at, b);
      InsertUnique(list, at, b);
      NoneReplaced(list, b);
      return InsertAt(list, at, b), -1;
    }
  }

  lemma InsertFacts(list: seq<Binding>, side: Side, p: nat, b: Binding)
    requires Canonical(list) && UniqueIds(list) && DeepestFirst(list, side) && p <= |list|
    requires Names(b.guest) && Names(b.host) && Unlinked(list, b)
    requires p > 0 ==> PathOf(b, side) <= PathOf(list[p - 1], side)
    requires forall i :: p <= i < |list| ==> !(PathOf(b, side) <= PathOf(list[i], side))
    ensures Canonical(InsertAt(list, p, b)) && UniqueIds(InsertAt(list, p, b))
    ensures DeepestFirst(InsertAt(list, p, b), side)
    ensures forall x :: x in InsertAt(list, p, b) <==> x == b || x in list
  {
    InsortKeepsOrder(list, side, p, b);
    InsertMembers(list, p, b);
    InsertIds(list, p, b);
  }

  lemma InsertMembers(list: seq<Binding>, p: nat, b: Binding)
    requires p <= |list|
    ensures forall x :: x in InsertAt(list, p, b) <==> x == b || x in list
    ensures Canonical(list) && Names(b.guest) && Names(b.host) ==> Canonical(InsertAt(list, p, b))
  {
    var r := InsertAt(list, p, b);
    assert r[p] == b;
    forall x | x in list
      ensures x in r
    {
      var i :| 0 <= i < |list| && list[i] == x;
      InsertAtIndex(list, p, b, if i < p then i else i + 1);
    }
    forall i | 0 <= i < |r|
      ensures r[i] == b || r[i] in list
    {
      InsertAtIndex(list, p, b, i);
    }
  }

  lemma InsertIds(list: seq<Binding>, p: nat, b: Binding)
    requires UniqueIds(list) && p <= |list| && Unlinked(list, b)
    ensures UniqueIds(InsertAt(list, p, b))
  {
    var r := InsertAt(list, p, b);
    forall i, j | 0 <= i < j < |r|
      ensures r[i].id != r[j].id
    {
      InsertAtIndex(list, p, b, i);
      InsertAtIndex(list, p, b, j);
    }
  }

  lemma InsertUnique(list: seq<Binding>, p: nat, b: Binding)
    requires UniqueGuests(list) && p <= |list| && forall i :: 0 <= i < |list| ==> list[i].guest != b.guest
    ensures UniqueGuests(InsertAt(list, p, b))
  {
    var r := InsertAt(list, p, b);
    forall i, j | 0 <= i < j < |r|
      ensures r[i].guest != r[j].guest
    {
      InsertAtIndex(list, p, b, i);
      InsertAtIndex(list, p, b, j);
    }
  }

  lemma OneReplaced(list: seq<Binding>, p: nat, b: Binding)
    requires UniqueGuests(list) && p < |list| && list[p].guest == b.guest
    ensures forall id :: Replaced(list, b, id) <==> id == list[p].id
  {
  }

  lemma NoneReplaced(list: seq<Binding>, b: Binding)
    requires forall i :: 0 <= i < |list| ==> list[i].guest != b.guest
    ensures forall id :: !Replaced(list, b, id)
  {
  }

  lemma StillUnlinked(was: seq<Binding>, now: seq<Binding>, b: Binding)
    requires Unlinked(was, b) && forall x :: x in now ==> x in was
    ensures Unlinked(now, b)
  {
    forall i | 0 <= i < |now|
      ensures now[i].id != b.id
    {
      assert now[i] in was;
    }
  }

  lemma ReplaceFacts(list: seq<Binding>, p: nat, b: Binding)
    requires Canonical(list) && UniqueIds(list) && UniqueGuests(list) && DeepestFirst(list, Guest)
    requires p < |list| && list[p].guest == b.guest && Names(b.guest) && Names(b.host) && Unlinked(list, b)
    ensures Canonical(list[p := b]) && UniqueIds(list[p := b]) && UniqueGuests(list[p := b])
    ensures DeepestFirst(list[p := b], Guest)
    ensures forall x :: x in list[p := b] <==> x == b || (x in list && x.guest != b.guest)
  {
    var r := list[p := b];
    forall x | x in list && x.guest != b.guest
      ensures x in r
    {
      var i :| 0 <= i < |list| && list[i] == x;
      assert r[i] == x;
    }
    assert r[p] == b;
  }

  lemma SameUnlinked(guest: seq<Binding>, host: seq<Binding>, b: Binding)
    requires Unlinked(guest, b) && forall x :: x in guest <==> x in host
    ensures Unlinked(host, b)
  {
    forall i | 0 <= i < |host|
      ensures host[i].id != b.id
    {
      assert host[i] in guest;
    }
  }

  lemma SameBindings(was: seq<Binding>, guest: seq<Binding>, host: seq<Binding>, b: Binding)
    requires UniqueIds(was)
    requires forall x :: x in guest <==> x == b || (x in was && x.guest != b.guest)
    requires forall x :: x in host <==> x == b || (x in was && !Replaced(was, b, x.id))
    ensures forall x :: x in guest <==> x in host
  {
    forall x | x in was
      ensures Replaced(was, b, x.id) <==> x.guest == b.guest
    {
      var i :| 0 <= i < |was| && was[i] == x;
    }
  }

  lemma MapInsert(was: seq<Binding>, now: seq<Binding>, b: Binding)
    requires UniqueGuests(was) && UniqueGuests(now)
    requires forall x :: x in now <==> x == b || (x in was && x.guest != b.guest)
    ensures MapOf(now) == MapOf(was)[b.guest := b.host]
  {
    var m, m' := MapOf(was)[b.guest := b.host], MapOf(now);
    forall g | g in m'
      ensures g in m && m[g] == m'[g]
    {
      var x := BoundMember(now, g);
      MemberBound(now, x);
      if x != b {
        MemberBound(was, x);
      }
    }
    forall g | g in m
      ensures g in m'
    {
      if g == b.guest {
        MemberBound(now, b);
      } else {
        var x := BoundMember(was, g);
        MemberBound(now, x);
      }
    }
  }

  lemma MapRemove(was: seq<Binding>, now: seq<Binding>, b: Binding)
    requires UniqueGuests(was) && UniqueGuests(now) && UniqueIds(was) && b in was
    requires forall x :: x in now <==> x in was && x.id != b.id
    ensures MapOf(now) == MapOf(was) - {b.guest}
  {
    var m, m' := MapOf(was) - {b.guest}, MapOf(now);
    forall g | g in m'
      ensures g in m && m[g] == m'[g]
    {
      var x := BoundMember(now, g);
      MemberBound(now, x);
      MemberBound(was, x);
      OtherGuest(was, x, b);
    }
    forall g | g in m
      ensures g in m'
    {
      var x := BoundMember(was, g);
      OtherGuest(was, x, b);
      MemberBound(now, x);
    }
  }

  /** Different records of one list have different guest paths and different numbers. */
  lemma OtherGuest(list: seq<Binding>, x: Binding, y: Binding)
    requires UniqueGuests(list) && UniqueIds(list) && x in list && y in list
    ensures x.guest == y.guest <==> x == y
    ensures x.id == y.id <==> x == y
  {
    var i :| 0 <= i < |list| && list[i] == x;
    var j :| 0 <= j < |list| && list[j] == y;
  }

  lemma MapSame(was: seq<Binding>, now: seq<Binding>, b: Binding)
    requires UniqueGuests(was) && UniqueGuests(now) && Unlinked(was, b)
    requires forall x :: x in now <==> x in was && x.id != b.id
    ensures MapOf(now) == MapOf(was)
  {
    var m, m' := MapOf(was), MapOf(now);
    forall g | g in m'
      ensures g in m && m[g] == m'[g]
    {
      var x := BoundMember(now, g);
      MemberBound(now, x);
      MemberBound(was, x);
    }
    forall g | g in m
      ensures g in m'
    {
      var x := BoundMember(was, g);
      MemberBound(now, x);
    }
  }

  lemma MapAfterRemove(was: seq<Binding>, now: seq<Binding>, b: Binding)
    requires UniqueGuests(was) && UniqueGuests(now) && UniqueIds(was)
    requires forall x :: x in now <==> x in was && x.id != b.id
    ensures b in was ==> MapOf(now) == MapOf(was) - {b.guest}
    ensures b !in was && Unlinked(was, b) ==> MapOf(now) == MapOf(was)
  {
    if b in was {
      MapRemove(was, now, b);
    } else if Unlinked(was, b) {
      MapSame(was, now, b);
    }
  }

  method FirstMatch(list: seq<Binding>, path: seq<string>) returns (found: bool, b: Binding)
    requires Canonical(list) && UniqueGuests(list) && DeepestFirst(list, Guest) && Names(path)
    ensures !found ==> forall g :: g in MapOf(list) ==> !(g <= path)
    ensures found ==> b in list && b.guest <= path && forall g :: g in MapOf(list) && g <= path ==> |g| <= |b.guest|
    ensures [] in MapOf(list) ==> found && b.guest == Longest(MapOf(list), path) && b.host == MapOf(list)[b.guest]
  {
    b := Binding(0, [], []);
    for i := 0 to |list|
      invariant forall j :: 0 <= j < i ==> !(list[j].guest <= path)
    {
      CompareMeaning(list[i].guest, path);
      var comparison := ComparePaths(Render(list[i].guest), Render(path));
      if comparison == PathsAreEqual || comparison == Path1IsPrefix {
        FirstIsLongest(list, i, path);
        BoundTo(list, i);
        return true, list[i];
      }
    }
    NothingBound(list, path);
    return false, b;
  }

  lemma NothingBound(list: seq<Binding>, path: seq<string>)
    requires forall j :: 0 <= j < |list| ==> !(list[j].guest <= path)
    ensures forall g :: g in MapOf(list) ==> !(g <= path)
  {
    forall g | g in MapOf(list)
      ensures !(g <= path)
    {
      var i := BoundBySome(list, g);
    }
  }

  /** In a list kept deepest first, nothing after the first match is deeper. */
  lemma FirstIsLongest(list: seq<Binding>, i: nat, path: seq<string>)
    requires UniqueGuests(list) && DeepestFirst(list, Guest) && i < |list| && list[i].guest <= path
    requires forall j :: 0 <= j < i ==> !(list[j].guest <= path)
    ensures forall g :: g in MapOf(list) && g <= path ==> |g| <= |list[i].guest|
    ensures [] in MapOf(list) ==> list[i].guest == Longest(MapOf(list), path)
  {
    forall g | g in MapOf(list) && g <= path
      ensures |g| <= |list[i].guest|
    {
      var j := BoundBySome(list, g);
      PrefixesNest(list[i].guest, g, path);
    }
    if [] in MapOf(list) {
      BoundTo(list, i);
      SameLength(list[i].guest, Longest(MapOf(list), path), path);
    }
  }

  lemma PrefixesNest(a: seq<string>, b: seq<string>, p: seq<string>)
    requires a <= p && b <= p
    ensures |a| < |b| ==> a < b
  {
  }

  lemma SameLength(a: seq<string>, b: seq<string>, p: seq<string>)
    requires a <= p && b <= p && |a| == |b|
    ensures a == b
  {
  }

  lemma RootIsLast(list: seq<Binding>)
    requires UniqueGuests(list) && DeepestFirst(list, Guest) && [] in MapOf(list)
    ensures |list| > 0 && list[|list| - 1].guest == [] && list[|list| - 1].host == MapOf(list)[[]]
  {
    var i := BoundBySome(list, []);
    BoundTo(list, |list| - 1);
    var last := list[|list| - 1].guest;
    assert [] < last || last == [];
  }

  /** Remove the record `id` from one list, if it is linked there. */
  method Unlink(list: seq<Binding>, id: nat) returns (r: seq<Binding>)
    requires UniqueIds(list)
    ensures UniqueIds(r) && |r| <= |list|
    ensures Canonical(list) ==> Canonical(r)
    ensures UniqueGuests(list) ==> UniqueGuests(r)
    ensures forall side :: DeepestFirst(list, side) ==> DeepestFirst(r, side)
    ensures forall x :: x in r <==> x in list && x.id != id
  {
    for i := 0 to |list|
      invariant forall j :: 0 <= j < i ==> list[j].id != id
    {
      if list[i].id == id {
        r := RemoveAt(list, i);
        RemoveFacts(list, i);
        return;
      }
    }
    return list;
  }

  lemma RemoveFacts(list: seq<Binding>, p: nat)
    requires UniqueIds(list) && p < |list|
    ensures UniqueIds(RemoveAt(list, p))
    ensures Canonical(list) ==> Canonical(RemoveAt(list, p))
    ensures UniqueGuests(list) ==> UniqueGuests(RemoveAt(list, p))
    ensures forall side :: DeepestFirst(list, side) ==> DeepestFirst(RemoveAt(list, p), side)
    ensures forall x :: x in RemoveAt(list, p) <==> x in list && x.id != list[p].id
  {
    var r := RemoveAt(list, p);
    forall i | 0 <= i < |r|
      ensures r[i] == if i < p then list[i] else list[i + 1]
    {
      RemoveAtIndex(list, p, i);
    }
    forall side | DeepestFirst(list, side)
      ensures DeepestFirst(r, side)
    {
      RemoveKeepsOrder(list, side, p);
    }
    RemoveMembers(list, p);
  }

  lemma RemoveMembers(list: seq<Binding>, p: nat)
    requires UniqueIds(list) && p < |list|
    ensures forall x :: x in RemoveAt(list, p) <==> x in list && x.id != list[p].id
  {
    var r := RemoveAt(list, p);
    forall x | x in list && x.id != list[p].id
      ensures x in r
    {
      var i :| 0 <= i < |list| && list[i] == x;
      RemoveAtIndex(list, p, if i < p then i else i - 1);
    }
    forall i | 0 <= i < |r|
      ensures r[i] in list && r[i].id != list[p].id
    {
      RemoveAtIndex(list, p, i);
    }
  }
}
