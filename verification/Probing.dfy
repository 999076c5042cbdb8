/** Double hashing: for a prime table size the probe sequence visits every slot exactly once. */
module Probing {
  import opened Layout
  import opened FreeLists

  function HashPrimary(key: nat, capacity: nat): nat
    requires capacity > 0
  {
    key % capacity
  }

  function HashSecondary(key: nat, capacity: nat): nat
    requires capacity > 1
  {
    1 + key % (capacity - 1)
  }

  /** The slot of attempt `i`. */
  function Probe(key: nat, i: nat, capacity: nat): (slot: nat)
    requires capacity > 1
    ensures slot < capacity
  {
    (HashPrimary(key, capacity) + i * HashSecondary(key, capacity)) % capacity
  }

  ghost predicate Prime(p: nat) {
    p > 1 && forall a, b :: 1 < a && 1 < b ==> a * b != p
  }

  lemma MulAtLeast(p: int, k: int)
    requires p > 0 && k >= 1
    ensures p * k >= p
  {
    assert p * k == p * (k - 1) + p;
    assert p * (k - 1) >= 0;
  }

  lemma RemainderStep(p: int, a: int, b: int, q: int, r: int, m: int)
    requires p == q * a + r && a * b == p * m
    ensures r * b == p * (b - q * m)
  {
    calc {
      r * b;
      (p - q * a) * b;
      p * b - q * (a * b);
      p * b - q * (p * m);
      p * (b - q * m);
    }
  }

  /** A prime divides no product of two numbers below it. */
  lemma {:induction false} NoZeroDivisors(p: nat, a: nat, b: nat, m: int)
    requires Prime(p) && 0 < a < p && 0 < b < p
    ensures a * b != p * m
    decreases a
  {
    if a == 1 {
      if m >= 1 { MulAtLeast(p, m); } else { MulAtLeast(p, 1 - m); }
    } else {
      var q, r := p / a, p % a;
      QuotientAboveOne(p, a, q, r);
      assert q * a != p;
      if a * b == p * m {
        RemainderStep(p, a, b, q, r, m);
        NoZeroDivisors(p, r, b, b - q * m);
      }
    }
  }

  lemma QuotientAboveOne(p: nat, a: nat, q: nat, r: nat)
    requires 0 < a < p && q == p / a && r == p % a
    ensures p == q * a + r && (r == 0 ==> q > 1)
  {
    if q <= 1 {
      assert q * a <= a;
    }
  }

  lemma {:induction false} ProbesDistinct(key: nat, i: nat, j: nat, capacity: nat)
    requires Prime(capacity) && capacity > 2 && i < j < capacity
    ensures Probe(key, i, capacity) != Probe(key, j, capacity)
  {
    var h1, h2 := HashPrimary(key, capacity), HashSecondary(key, capacity);
    var x, y := h1 + i * h2, h1 + j * h2;
    if x % capacity == y % capacity {
      var u, v := x / capacity, y / capacity;
      Difference(x, y, capacity, u, v, x % capacity);
      assert (j - i) * h2 == y - x by { assert (j - i) * h2 == j * h2 - i * h2; }
      NoZeroDivisors(capacity, j - i, h2, v - u);
    }
  }

  lemma Difference(x: int, y: int, c: int, u: int, v: int, r: int)
    requires x == c * u + r && y == c * v + r
    ensures y - x == c * (v - u)
  {
  }

  function ProbeSeq(key: nat, n: nat, capacity: nat): (s: seq<nat>)
    requires capacity > 1
    ensures |s| == n && forall i :: 0 <= i < n ==> s[i] == Probe(key, i, capacity)
  {
    seq(n, i requires 0 <= i => Probe(key, i, capacity))
  }

  /** Every slot is reached by exactly one attempt below the table size. */
  lemma ProbesCover(key: nat, capacity: nat, slot: nat)
    requires Prime(capacity) && capacity > 2 && slot < capacity
    ensures exists i :: 0 <= i < capacity && Probe(key, i, capacity) == slot
    ensures forall i, j :: 0 <= i < j < capacity ==> Probe(key, i, capacity) != Probe(key, j, capacity)
  {
    var s := ProbeSeq(key, capacity, capacity);
    forall i, j | 0 <= i < j < capacity
      ensures Probe(key, i, capacity) != Probe(key, j, capacity) && s[i] != s[j]
    {
      ProbesDistinct(key, i, j, capacity);
    }
    if slot !in s {
      assert forall x <- s + [slot] :: x < capacity;
      Pigeonhole(s + [slot], capacity);
    }
    var i :| 0 <= i < capacity && s[i] == slot;
    assert Probe(key, i, capacity) == slot;
  }

  /** The index arithmetic of the table stays within a 32-bit int. */
  lemma ProbeFits(key: nat, i: nat)
    requires i < HASH_TABLE_SIZE
    ensures HashPrimary(key, HASH_TABLE_SIZE) + i * HashSecondary(key, HASH_TABLE_SIZE) < 0x8000_0000
  {
    var h2 := HashSecondary(key, HASH_TABLE_SIZE);
    assert h2 < HASH_TABLE_SIZE;
    assert i * h2 <= HASH_TABLE_SIZE * h2 <= HASH_TABLE_SIZE * HASH_TABLE_SIZE;
  }

  predicate NoDivisor(n: nat, lo: nat, hi: nat)
    requires 0 < lo <= hi
    decreases hi - lo
  {
    if lo == hi then true else if n % lo == 0 then false else NoDivisor(n, lo + 1, hi)
  }

  lemma {:induction false} NoDivisorAt(n: nat, lo: nat, hi: nat, a: nat)
    requires 0 < lo <= a < hi && NoDivisor(n, lo, hi)
    ensures n % a != 0
    decreases a - lo
  {
    if lo < a { NoDivisorAt(n, lo + 1, hi, a); }
  }

  lemma ProductRemainder(a: nat, b: nat)
    requires a > 0
    ensures (a * b) % a == 0
  {
    var x := a * b;
    var q, r := x / a, x % a;
    assert x == a * q + r;
    assert r == a * (b - q);
    if b - q >= 1 { MulAtLeast(a, b - q); } else if b - q <= -1 { MulAtLeast(a, q - b); }
  }

  lemma NoDivisorFrom57()
    ensures NoDivisor(14293, 57, 120)
  {
    assert NoDivisor(14293, 113, 120) && NoDivisor(14293, 106, 120) && NoDivisor(14293, 99, 120);
    assert NoDivisor(14293, 92, 120) && NoDivisor(14293, 85, 120) && NoDivisor(14293, 78, 120);
    assert NoDivisor(14293, 71, 120) && NoDivisor(14293, 64, 120);
  }

  lemma NoDivisorBelow120()
    ensures NoDivisor(14293, 2, 120)
  {
    NoDivisorFrom57();
    assert NoDivisor(14293, 50, 120) && NoDivisor(14293, 43, 120) && NoDivisor(14293, 36, 120);
    assert NoDivisor(14293, 29, 120) && NoDivisor(14293, 22, 120) && NoDivisor(14293, 15, 120);
    assert NoDivisor(14293, 12, 120) && NoDivisor(14293, 8, 120) && NoDivisor(14293, 5, 120);
  }

  lemma TableSizePrime()
    ensures Prime(HASH_TABLE_SIZE)
  {
    NoDivisorBelow120();
    forall a, b | 1 < a && 1 < b
      ensures a * b != HASH_TABLE_SIZE
    {
      if a < 120 {
        ProductRemainder(a, b);
        NoDivisorAt(14293, 2, 120, a);
      } else if b < 120 {
        ProductRemainder(b, a);
        NoDivisorAt(14293, 2, 120, b);
      } else {
        assert a * b >= 120 * b >= 120 * 120;
      }
    }
  }
}
