/** The growing buffer behind TinySTL's vector (Dobby-master/external/TINYSTL/buffer.h), for plain element types.

    A range to insert may lie in the buffer itself; the source works on pointers, so what it copies depends on where
    that range is once the elements behind the insertion point have moved. */
module Buffers {

  /** Where the elements to insert come from. */
  datatype Source<T> = Outside(values: seq<T>) | Inside(first: nat, count: nat)

  function Inserted<T>(s: seq<T>, where: nat, v: seq<T>): seq<T>
    requires where <= |s|
  {
    s[..where] + v + s[where..]
  }

  /** The insertion point is strictly inside the range to insert. */
  predicate Straddles(where: nat, first: nat, count: nat) {
    first < where < first + count
  }

  /** `p` over and over. */
  function Repeated<T>(p: seq<T>, k: nat): T
    requires p != []
    decreases k
  {
    if k < |p| then p[k] else Repeated(p, k - |p|)
  }

  /** What is really inserted: a straddling range repeats what precedes the insertion point. */
  ghost function Copied<T>(s: seq<T>, where: nat, first: nat, count: nat): (v: seq<T>)
    requires first + count <= |s| && where <= |s|
    ensures |v| == count
  {
    if Straddles(where, first, count) then seq(count, k requires 0 <= k < count => Repeated(s[first..where], k))
    else s[first..first + count]
  }

  /** Inserting a range of the buffer itself is right for all contents exactly when the range does not straddle the
      insertion point. */
  lemma StraddleExactly(size: nat, where: nat, first: nat, count: nat)
    requires first + count <= size && where <= size
    ensures (forall s: seq<nat> :: |s| == size ==> Copied(s, where, first, count) == s[first..first + count])
      <==> !Straddles(where, first, count)
  {
    if Straddles(where, first, count) {
      var s := seq(size, (i: nat) => i);
      assert Copied(s, where, first, count)[where - first] == Repeated(s[first..where], 0) == s[first];
      assert s[first..first + count][where - first] == s[where];
    }
  }

  class Buffer<T(0)> {
    var data: array<T>
    var size: nat

    ghost predicate Valid()
      reads this
    {
      size <= data.Length
    }

    ghost function Contents(): seq<T>
      reads this, data
      requires Valid()
    {
      data[..size]
    }

    constructor ()
      ensures Valid() && fresh(data) && Contents() == []
    {
      data := new T[0];
      size := 0;
    }

    /** `buffer_reserve`. */
    method Reserve(capacity: nat)
      requires Valid()
      modifies this`data
      ensures Valid() && (data == old(data) || fresh(data)) && data.Length >= capacity && data.Length >= old(data.Length)
      ensures Contents() == old(Contents())
    {
      if capacity <= data.Length {
        return;
      }
      var moved := new T[capacity];
      CopyFront(data, moved, size);
      data := moved;
    }

    /** `buffer_insert_common`: room for `count` elements at `where`, the rest moved back. */
    method InsertCommon(where: nat, count: nat)
      requires Valid() && where <= size
      modifies this, data
      ensures Valid() && size == old(size) + count && (data == old(data) || fresh(data))
      ensures data[..where] == old(Contents())[..where] && data[where + count..size] == old(Contents())[where..]
    {
      ghost var s := Contents();
      var newSize := size + count;
      if newSize > data.Length {
        Reserve(newSize * 3 / 2);
      }
      MoveBack(data, where, count, size);
      size := newSize;
    }

    /** `buffer_insert`. */
    method Insert(where: nat, source: Source<T>)
      requires Valid() && where <= size && (source.Inside? ==> source.first + source.count <= size)
      modifies this, data
      ensures Valid() && (data == old(data) || fresh(data))
      ensures Contents() == Inserted(old(Contents()), where,
        match source
        case Outside(values) => values
        case Inside(first, count) => Copied(old(Contents()), where, first, count))
    {
      ghost var s := Contents();
      match source {
        case Outside(values) =>
          InsertCommon(where, |values|);
          CopyIn(data, where, values);
          Assembled(data[..size], s, where, values);
        case Inside(first, count) =>
          var offset := if where <= first then first + count else first;
          InsertCommon(where, count);
          CopyWithin(data, where, offset, count, s, first, size);
          Assembled(data[..size], s, where, Copied(s, where, first, count));
      }
    }

    /** `buffer_append`. */
    method Append(source: Source<T>)
      requires Valid() && (source.Inside? ==> source.first < size && source.count == 1) && (source.Outside? ==> |source.values| == 1)
      modifies this, data
      ensures Valid() && (data == old(data) || fresh(data))
      ensures Contents() == old(Contents()) + [if source.Outside? then source.values[0] else old(Contents())[source.first]]
    {
      ghost var s := Contents();
      if size != data.Length {
        data[size] := if source.Outside? then source.values[0] else data[source.first];
        size := size + 1;
      } else {
        Insert(size, source);
        assert s[|s|..] == [] && s[..|s|] == s;
      }
    }

    /** `buffer_erase`. */
    method Erase(first: nat, last: nat)
      requires Valid() && first <= last <= size
      modifies this`size, data
      ensures Valid() && Contents() == old(Contents())[..first] + old(Contents())[last..]
    {
      ghost var s := Contents();
      var count := last - first;
      MoveDown(data, first, last, size);
      size := size - count;
      assert data[..size] == data[..first] + data[first..size];
    }

    /** `buffer_erase_unordered`: the hole is filled from the end. */
    method EraseUnordered(first: nat, last: nat)
      requires Valid() && first <= last <= size
      modifies this`size, data
      ensures Valid()
      ensures var s := old(Contents());
        Contents() == if last - first < |s| - last
                      then s[..first] + s[|s| - (last - first)..] + s[last..|s| - (last - first)]
                      else s[..first] + s[last..]
    {
      ghost var s := Contents();
      var count, tail := last - first, size - last;
      var from := size - if count < tail then count else tail;
      MoveDown(data, first, from, size);
      size := size - count;
      ErasedParts(data[..], s, first, last, size);
    }
  }

  lemma ErasedParts<T>(now: seq<T>, s: seq<T>, first: nat, last: nat, size: nat)
    requires first <= last <= |s| <= |now| && size == |s| - (last - first)
    requires var from := |s| - if last - first < |s| - last then last - first else |s| - last;
      && now[first..first + (|s| - from)] == s[from..]
      && forall k :: 0 <= k < |s| && !(first <= k < first + (|s| - from)) ==> now[k] == s[k]
    ensures now[..size] == if last - first < |s| - last then s[..first] + s[size..] + s[last..size] else s[..first] + s[last..]
  {
    if last - first < |s| - last {
      assert now[..size] == now[..first] + now[first..last] + now[last..size];
    } else {
      assert now[..size] == now[..first] + now[first..size];
    }
  }

  /** `buffer_bmove_urange`: last element first. */
  method MoveBack<T>(data: array<T>, where: nat, count: nat, size: nat)
    requires where <= size && size + count <= data.Length
    modifies data
    ensures data[..where] == old(data[..where]) && data[where + count..size + count] == old(data[where..size])
  {
    var i := size;
    while i != where
      invariant where <= i <= size
      invariant forall k :: 0 <= k < i ==> data[k] == old(data[k])
      invariant forall k :: i <= k < size ==> data[k + count] == old(data[k])
    {
      data[i - 1 + count] := data[i - 1];
      i := i - 1;
    }
  }

  method CopyFront<T>(from: array<T>, into: array<T>, size: nat)
    requires size <= from.Length && size <= into.Length && from != into
    modifies into
    ensures into[..size] == from[..size]
  {
    for i := 0 to size
      invariant forall k :: 0 <= k < i ==> into[k] == from[k]
    {
      into[i] := from[i];
    }
  }

  method CopyIn<T>(data: array<T>, where: nat, values: seq<T>)
    requires where + |values| <= data.Length
    modifies data
    ensures data[where..where + |values|] == values
    ensures forall k :: 0 <= k < data.Length && !(where <= k < where + |values|) ==> data[k] == old(data[k])
  {
    for i := 0 to |values|
      invariant forall k :: 0 <= k < i ==> data[where + k] == values[k]
      invariant forall k :: 0 <= k < data.Length && !(where <= k < where + i) ==> data[k] == old(data[k])
    {
      data[where + i] := values[i];
    }
  }

  /** The copy loop of a range inside the buffer, which may run over elements it has just written. */
  method CopyWithin<T>(data: array<T>, where: nat, offset: nat, count: nat, ghost s: seq<T>, ghost first: nat, ghost size: nat)
    requires where <= |s| && first + count <= |s| && size == |s| + count <= data.Length
    requires data[..where] == s[..where] && data[where + count..size] == s[where..]
    requires offset == if where <= first then first + count else first
    modifies data
    ensures data[where..where + count] == Copied(s, where, first, count)
    ensures forall k :: 0 <= k < data.Length && !(where <= k < where + count) ==> data[k] == old(data[k])
  {
    ghost var v := Copied(s, where, first, count);
    for i := 0 to count
      invariant forall k :: 0 <= k < i ==> data[where + k] == v[k]
      invariant forall k :: 0 <= k < data.Length && !(where <= k < where + i) ==> data[k] == old(data[k])
    {
      NextCopied(old(data[..]), data[..], s, where, first, count, i, offset);
      data[where + i] := data[offset + i];
    }
  }

  lemma NextCopied<T>(before: seq<T>, now: seq<T>, s: seq<T>, where: nat, first: nat, count: nat, i: nat, offset: nat)
    requires where <= |s| && first + count <= |s| && |s| + count <= |before| == |now| && i < count
    requires before[..where] == s[..where] && before[where + count..|s| + count] == s[where..]
    requires offset == if where <= first then first + count else first
    requires forall k :: 0 <= k < i ==> now[where + k] == Copied(s, where, first, count)[k]
    requires forall k :: 0 <= k < |now| && !(where <= k < where + i) ==> now[k] == before[k]
    ensures now[offset + i] == Copied(s, where, first, count)[i]
  {
    var v := Copied(s, where, first, count);
    if where <= first {
      assert before[where + count..|s| + count][first + i - where] == before[first + count + i];
    } else if first + i < where {
      assert before[..where][first + i] == s[first + i];
      if Straddles(where, first, count) {
        assert s[first..where][i] == s[first + i];
      }
    } else {
      var k := first + i - where;
      assert now[where + k] == v[k];
      assert v[i] == Repeated(s[first..where], i) == Repeated(s[first..where], i - (where - first));
    }
  }

  lemma Assembled<T>(now: seq<T>, s: seq<T>, where: nat, v: seq<T>)
    requires where <= |s| && |now| == |s| + |v| && now[..where] == s[..where]
    requires now[where..where + |v|] == v && now[where + |v|..] == s[where..]
    ensures now == Inserted(s, where, v)
  {
  }

  /** Elements from `from` to `size` moved down to `dest`, first element first. */
  method MoveDown<T>(data: array<T>, dest: nat, from: nat, size: nat)
    requires dest <= from <= size <= data.Length
    modifies data
    ensures data[dest..dest + (size - from)] == old(data[from..size])
    ensures forall k :: 0 <= k < data.Length && !(dest <= k < dest + (size - from)) ==> data[k] == old(data[k])
  {
    ghost var moved := data[from..size];
    for i := 0 to size - from
      invariant forall k :: dest <= k < dest + i ==> data[k] == moved[k - dest]
      invariant forall k :: 0 <= k < data.Length && !(dest <= k < dest + i) ==> data[k] == old(data[k])
    {
      data[dest + i] := data[from + i];
    }
  }

  /** Both erasures leave the same elements. */
  lemma SameLeft<T>(s: seq<T>, first: nat, last: nat)
    requires first <= last <= |s| && last - first < |s| - last
    ensures multiset(s[..first] + s[|s| - (last - first)..] + s[last..|s| - (last - first)]) == multiset(s[..first] + s[last..])
  {
    var cut := |s| - (last - first);
    assert s[last..] == s[last..cut] + s[cut..];
  }
}
