/** Bitwise operations on unsigned words, defined bit by bit. */
module Bits {

  /** `x & y` */
  function BitAnd(x: nat, y: nat): nat {
    if x == 0 || y == 0 then 0
    else (if x % 2 == 1 && y % 2 == 1 then 1 else 0) + 2 * BitAnd(x / 2, y / 2)
  }

  /** `x | y` */
  function BitOr(x: nat, y: nat): nat {
    if x == 0 then y
    else if y == 0 then x
    else (if x % 2 == 1 || y % 2 == 1 then 1 else 0) + 2 * BitOr(x / 2, y / 2)
  }

  lemma {:induction false} OrCommutes(x: nat, y: nat)
    ensures BitOr(x, y) == BitOr(y, x)
  {
    if x != 0 && y != 0 {
      OrCommutes(x / 2, y / 2);
    }
  }

  /** The low bit and the rest of an "or". */
  lemma OrSplit(x: nat, y: nat)
    ensures BitOr(x, y) / 2 == BitOr(x / 2, y / 2)
    ensures BitOr(x, y) % 2 == if x % 2 == 1 || y % 2 == 1 then 1 else 0
    ensures BitOr(x, y) == 0 <==> x == 0 && y == 0
    decreases x
  {
    if x != 0 && y != 0 {
      if x / 2 != 0 || y / 2 != 0 {
        OrSplit(x / 2, y / 2);
      }
    }
  }

  lemma {:induction false} OrAssociates(x: nat, y: nat, z: nat)
    ensures BitOr(x, BitOr(y, z)) == BitOr(BitOr(x, y), z)
    decreases x
  {
    if x != 0 && y != 0 && z != 0 {
      OrAssociates(x / 2, y / 2, z / 2);
      OrSplit(y, z);
      OrSplit(x, y);
      OrSplit(x, BitOr(y, z));
      OrSplit(BitOr(x, y), z);
    }
  }

  lemma {:induction false} OrIdempotent(x: nat)
    ensures BitOr(x, x) == x
  {
    if x != 0 {
      OrIdempotent(x / 2);
    }
  }

  predicate PowerOfTwo(n: nat) {
    n == 1 || (n > 1 && n % 2 == 0 && PowerOfTwo(n / 2))
  }

  lemma {:induction false} OrBound(x: nat, y: nat, n: nat)
    requires PowerOfTwo(n)
    ensures BitOr(x, y) < n <==> x < n && y < n
    decreases n
  {
    OrSplit(x, y);
    if n > 1 {
      OrBound(x / 2, y / 2, n / 2);
    }
  }

  lemma WordsArePowers()
    ensures PowerOfTwo(0x1_0000) && PowerOfTwo(0x1_0000_0000)
  {
    assert PowerOfTwo(1);
    Times16(0x1);
    Times16(0x10);
    Times16(0x100);
    Times16(0x1000);
    Times16(0x1_0000);
    Times16(0x10_0000);
    Times16(0x100_0000);
    Times16(0x1000_0000);
  }

  lemma OrBound16(x: nat, y: nat)
    ensures BitOr(x, y) < 0x1_0000 <==> x < 0x1_0000 && y < 0x1_0000
  {
    WordsArePowers();
    OrBound(x, y, 0x1_0000);
  }

  /** Setting one bit. */
  lemma {:induction false} OrPower(x: nat, n: nat)
    requires PowerOfTwo(n)
    ensures BitOr(x, n) == if BitAnd(x, n) != 0 then x else x + n
    decreases n
  {
    if x != 0 && n > 1 {
      OrPower(x / 2, n / 2);
    } else if n == 1 {
      assert BitOr(x / 2, 0) == x / 2 && BitAnd(x / 2, 0) == 0;
    }
  }

  /** Masking with a power of two less one is the remainder. */
  lemma {:induction false} MaskIsMod(h: nat, n: nat)
    requires PowerOfTwo(n)
    ensures BitAnd(h, n - 1) == h % n
    decreases n
  {
    if h == 0 {
      assert BitAnd(h, n - 1) == 0;
    } else if n > 1 {
      var m := n / 2;
      assert n - 1 == 2 * (m - 1) + 1;
      MaskIsMod(h / 2, m);
      HalveMod(h, m);
      OddMask(h, m - 1);
    }
  }

  lemma OddMask(h: nat, y: nat)
    ensures BitAnd(h, 2 * y + 1) == h % 2 + 2 * BitAnd(h / 2, y)
  {
    assert (2 * y + 1) % 2 == 1 && (2 * y + 1) / 2 == y;
    if h == 0 {
      assert BitAnd(h / 2, y) == 0;
    }
  }

  lemma HalveMod(h: nat, m: nat)
    requires m > 0
    ensures h % (2 * m) == h % 2 + 2 * ((h / 2) % m)
  {
    var q, r := (h / 2) / m, (h / 2) % m;
    assert h / 2 == m * q + r;
    assert (2 * m) * q == 2 * (m * q);
    ModUnique(h, 2 * m, q, 2 * r + h % 2);
  }

  /** Quotient and remainder are unique. */
  lemma ModUnique(h: nat, d: nat, q: nat, r: nat)
    requires r < d && h == d * q + r
    ensures h % d == r && h / d == q
  {
    Apart(d, q, h / d);
    Apart(d, h / d, q);
  }

  /** Multiples of `d` of different rank are at least `d` apart. */
  lemma {:induction false} Apart(d: nat, q: nat, q': nat)
    ensures q < q' ==> d * q + d <= d * q'
    decreases q'
  {
    if q + 1 < q' {
      Apart(d, q, q' - 1);
    }
  }

  /** Clearing the bits below a power of two rounds down to a multiple of it. */
  lemma {:induction false} MaskRoundsDown(a: nat, p: nat, w: nat)
    requires PowerOfTwo(p) && PowerOfTwo(w) && p <= w && a < w
    ensures BitAnd(a, w - p) == a - a % p
    decreases p
  {
    if p == 1 {
      MaskIsMod(a, w);
      ModUnique(a, w, 0, a);
    } else if p == w {
      ModUnique(a, p, 0, a);
    } else {
      var m, v := p / 2, w / 2;
      assert w - p == 2 * (v - m);
      MaskRoundsDown(a / 2, m, v);
      HalveMod(a, m);
      EvenMask(a, v - m);
    }
  }

  lemma ModAtMost(a: nat, d: nat)
    requires d > 0
    ensures a % d <= a
  {
    if a < d {
      ModUnique(a, d, 0, a);
    }
  }

  lemma EvenMask(h: nat, y: nat)
    ensures BitAnd(h, 2 * y) == 2 * BitAnd(h / 2, y)
  {
    assert (2 * y) % 2 == 0 && (2 * y) / 2 == y;
    if h == 0 || y == 0 {
      assert BitAnd(h / 2, y) == 0;
    }
  }

  lemma Doubled(n: nat)
    requires PowerOfTwo(n)
    ensures PowerOfTwo(2 * n)
  {
  }

  lemma Times16(n: nat)
    requires PowerOfTwo(n)
    ensures PowerOfTwo(16 * n)
  {
    Doubled(n);
    Doubled(2 * n);
    Doubled(4 * n);
    Doubled(8 * n);
  }

  /** Adding a multiple of `d` keeps the remainder. */
  lemma ModShift(a: nat, d: nat, b: nat)
    requires d > 0 && b % d == 0
    ensures (a + b) % d == a % d
  {
    var q, r := a / d, b / d;
    assert d * (q + r) == d * q + d * r;
    ModUnique(a + b, d, q + r, a % d);
  }

  lemma RoundDownMonotone(a: nat, b: nat, d: nat)
    requires d > 0 && a <= b
    ensures a - a % d <= b - b % d
  {
    if a / d > b / d {
      Apart(d, b / d, a / d);
    } else if a / d < b / d {
      Apart(d, a / d, b / d);
    }
  }
}
