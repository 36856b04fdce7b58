/** Little-endian words in byte sequences. */
module Words {
  import opened Bits

  /** The value of a little-endian byte sequence. */
  function Value(s: seq<nat>): nat {
    if s == [] then 0 else s[0] + 256 * Value(s[1..])
  }

  /** The `n` low bytes of `v`. */
  function Bytes(v: nat, n: nat): (s: seq<nat>)
    ensures |s| == n && forall i :: 0 <= i < n ==> s[i] < 256
  {
    if n == 0 then [] else [v % 256] + Bytes(v / 256, n - 1)
  }

  function Bound(n: nat): (r: nat)
    ensures r > 0
  {
    if n == 0 then 1 else 256 * Bound(n - 1)
  }

  lemma SmallMod(x: nat, b: nat)
    requires x < b
    ensures x % b == x
  {
  }

  lemma {:induction false} ValueBytes(v: nat, n: nat)
    ensures Value(Bytes(v, n)) == v % Bound(n)
    decreases n
  {
    if n > 0 {
      var s := Bytes(v, n);
      assert s[1..] == Bytes(v / 256, n - 1);
      ValueBytes(v / 256, n - 1);
      SplitMod(v, Bound(n - 1));
    }
  }

  lemma SplitMod(v: nat, m: nat)
    requires m > 0
    ensures v % (256 * m) == v % 256 + 256 * ((v / 256) % m)
  {
    var q, r := (v / 256) / m, (v / 256) % m;
    assert v / 256 == m * q + r;
    assert (256 * m) * q == 256 * (m * q);
    ModUnique(v, 256 * m, q, 256 * r + v % 256);
  }

  /** The low bytes of a stored word are the low bytes of its value. */
  lemma {:induction false} BytesPrefix(v: nat, n: nat, k: nat)
    requires k <= n
    ensures Bytes(v, n)[..k] == Bytes(v, k)
    decreases n
  {
    if k > 0 {
      BytesPrefix(v / 256, n - 1, k - 1);
      assert Bytes(v, n)[..k] == [v % 256] + Bytes(v / 256, n - 1)[..k - 1];
    }
  }

  /** The offset of word `i` among words of `w` bytes. */
  function At(w: nat, i: nat): nat {
    if i == 0 then 0 else At(w, i - 1) + w
  }

  lemma {:induction false} AtIsProduct(w: nat, i: nat)
    ensures At(w, i) == w * i
  {
    if i > 0 {
      AtIsProduct(w, i - 1);
      assert w * i == w * (i - 1) + w;
    }
  }

  lemma {:induction false} AtMonotone(w: nat, i: nat, j: nat)
    requires i <= j
    ensures At(w, i) <= At(w, j)
    decreases j
  {
    if i < j {
      AtMonotone(w, i, j - 1);
    }
  }

  lemma {:induction false} AtSum(w: nat, i: nat, j: nat)
    ensures At(w, i + j) == At(w, i) + At(w, j)
    decreases j
  {
    if j > 0 {
      AtSum(w, i, j - 1);
    }
  }

  /** Consecutive words of `w` bytes. */
  function Stored(words: seq<nat>, w: nat): (s: seq<nat>)
    ensures |s| == At(w, |words|)
  {
    if words == [] then [] else Stored(words[..|words| - 1], w) + Bytes(words[|words| - 1], w)
  }

  lemma {:induction false} StoredConcat(a: seq<nat>, b: seq<nat>, w: nat)
    ensures Stored(a + b, w) == Stored(a, w) + Stored(b, w)
    decreases |b|
  {
    if b == [] {
      assert a + b == a;
    } else {
      var n := |b| - 1;
      assert (a + b)[..|a + b| - 1] == a + b[..n];
      StoredConcat(a, b[..n], w);
      Associates(Stored(a, w), Stored(b[..n], w), Bytes(b[n], w));
    }
  }

  lemma Associates(a: seq<nat>, b: seq<nat>, c: seq<nat>)
    ensures (a + b) + c == a + (b + c)
  {
  }

  /** The bytes of the word at index `i`. */
  lemma {:induction false} StoredAt(words: seq<nat>, w: nat, i: nat)
    requires i < |words|
    ensures At(w, i) + w <= |Stored(words, w)|
    ensures Stored(words, w)[At(w, i)..At(w, i) + w] == Bytes(words[i], w)
    decreases |words|
  {
    var n := |words| - 1;
    if i < n {
      StoredAt(words[..n], w, i);
      SliceBefore(Stored(words[..n], w), Bytes(words[n], w), At(w, i), At(w, i) + w);
    } else {
      SliceAfter(Stored(words[..n], w), Bytes(words[n], w));
    }
  }

  lemma SliceBefore(a: seq<nat>, b: seq<nat>, from: nat, end: nat)
    requires from <= end <= |a|
    ensures (a + b)[from..end] == a[from..end]
  {
  }

  lemma SliceAfter(a: seq<nat>, b: seq<nat>)
    ensures (a + b)[|a|..|a| + |b|] == b
  {
  }
}
