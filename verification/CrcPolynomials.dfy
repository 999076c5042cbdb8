/** What the CRC is: the remainder of a payload, taken as a polynomial over the integers modulo 2,
    by the generator polynomial of CRC-32. */
module CrcPolynomials {
  import opened Crc

  /** The coefficients of a polynomial, highest power first. */
  type Poly = seq<bool>

  /** x^32 + x^26 + x^23 + x^22 + x^16 + x^12 + x^11 + x^10 + x^8 + x^7 + x^5 + x^4 + x^2 + x + 1 */
  const EXPONENTS: set<nat> := {32, 26, 23, 22, 16, 12, 11, 10, 8, 7, 5, 4, 2, 1, 0}

  function Generator(): (g: Poly)
    ensures |g| == 33
  {
    seq(33, i requires 0 <= i < 33 => 32 - i in EXPONENTS)
  }

  function Zeros(n: nat): (p: Poly)
    ensures |p| == n && forall i :: 0 <= i < n ==> !p[i]
  {
    seq(n, _ => false)
  }

  function Plus(p: Poly, q: Poly): (r: Poly)
    requires |p| == |q|
    ensures |r| == |p| && forall i :: 0 <= i < |r| ==> (r[i] <==> p[i] != q[i])
  {
    seq(|p|, i requires 0 <= i < |p| => p[i] != q[i])
  }

  /** The generator times one more coefficient, that of the lowest power. */
  function Last(n: nat, c: bool): (p: Poly)
    ensures |p| == n + 33
  {
    Zeros(n) + if c then Generator() else Zeros(33)
  }

  /** The product with the generator. */
  function Times(q: Poly): (p: Poly)
    ensures |p| == |q| + 32
    decreases |q|
  {
    if q == [] then Zeros(32) else Plus(Times(q[..|q| - 1]) + [false], Last(|q| - 1, q[|q| - 1]))
  }

  /** `r` is what the division of `p` by the generator leaves. */
  ghost predicate IsRemainder(p: Poly, r: Poly) {
    |p| >= 32 && |r| == 32 && exists q: Poly :: Leaves(p, q, r)
  }

  predicate Leaves(p: Poly, q: Poly, r: Poly)
    requires |r| == 32
  {
    |p| == |q| + 32 && p == Plus(Times(q), Zeros(|q|) + r)
  }

  /** The payload times x^32, with its 32 highest coefficients complemented. */
  function Dividend(s: Poly): (p: Poly)
    ensures |p| == |s| + 32
  {
    seq(|s| + 32, i requires 0 <= i < |s| + 32 => (i < |s| && s[i]) != (i < 32))
  }

  // ----- bytes and registers as coefficients -----

  /** The lowest bits of a number, least significant bit first. */
  function LowBits(w: bv32, n: nat): (s: Poly)
    ensures |s| == n
    decreases n
  {
    if n == 0 then [] else [Odd(w)] + LowBits(Half(w), n - 1)
  }

  /** The bits of a payload in the order of transmission. */
  function BitsOf(data: Bytes): (s: Poly)
    ensures |s| == 8 * |data|
  {
    if data == [] then [] else BitsOf(data[..|data| - 1]) + LowBits(data[|data| - 1] as bv32, 8)
  }

  /** A register as a polynomial of degree 31: the least significant bit belongs to x^31. */
  function RegBits(x: bv32): (s: Poly)
    ensures |s| == 32
  {
    LowBits(x, 32)
  }

  // ----- division has one remainder -----

  lemma LastAt(n: nat, c: bool, i: nat)
    requires i < n + 33
    ensures Last(n, c)[i] <==> i >= n && c && Generator()[i - n]
  {
  }

  lemma TimesMore(q: Poly, t: bool)
    ensures Times(q + [t]) == Plus(Times(q) + [false], Last(|q|, t))
  {
    var longer := q + [t];
    TimesLast(longer);
    hide *;
    assert longer[..|q|] == q && longer[|q|] == t;
  }

  lemma TimesLast(q: Poly)
    requires q != []
    ensures Times(q) == Plus(Times(q[..|q| - 1]) + [false], Last(|q| - 1, q[|q| - 1]))
  {
  }

  lemma Leading()
    ensures Generator()[0]
  {
  }

  /** One more coefficient of a factor adds the generator from its own power on. */
  lemma TimesAt(q: Poly, t: bool, i: nat)
    requires i < |q| + 33
    ensures Times(q + [t])[i] == ((i < |q| + 32 && Times(q)[i]) != (i >= |q| && t && Generator()[i - |q|]))
  {
    hide Times, Last, Generator;
    TimesMore(q, t);
    LastAt(|q|, t, i);
  }

  lemma TimesFirst(q: Poly, t: bool, i: nat)
    requires i <= |q|
    ensures Times(q + [t])[i] == (Times(q)[i] != (i == |q| && t))
  {
    hide *;
    TimesAt(q, t, i);
    Leading();
  }

  lemma {:induction false} QuotientUnique(p: Poly, q: Poly)
    requires |p| == |q| && forall i :: 0 <= i < |p| ==> Times(p)[i] == Times(q)[i]
    ensures p == q
    decreases |p|
  {
    hide Times;
    if p != [] {
      var n := |p| - 1;
      var a, b := p[..n], q[..n];
      assert p == a + [p[n]] && q == b + [q[n]];
      forall i | 0 <= i <= n
        ensures Times(p)[i] == (Times(a)[i] != (i == n && p[n])) && Times(q)[i] == (Times(b)[i] != (i == n && q[n]))
      {
        TimesFirst(a, p[n], i);
        TimesFirst(b, q[n], i);
      }
      QuotientUnique(a, b);
      assert Times(p)[n] == Times(q)[n];
    }
  }

  lemma SumAt(q: Poly, r: Poly, i: nat)
    requires |r| == 32 && i < |q| + 32
    ensures Plus(Times(q), Zeros(|q|) + r)[i] == (Times(q)[i] != (i >= |q| && r[i - |q|]))
  {
    hide Times;
  }

  lemma LeavesAt(p: Poly, q: Poly, r: Poly, i: nat)
    requires |r| == 32 && Leaves(p, q, r) && i < |p|
    ensures |p| == |q| + 32 && p[i] == (Times(q)[i] != (i >= |q| && r[i - |q|]))
  {
    hide Times;
    SumAt(q, r, i);
  }

  /** There is only one remainder. */
  lemma RemainderUnique(p: Poly, r: Poly, s: Poly)
    requires IsRemainder(p, r) && IsRemainder(p, s)
    ensures r == s
  {
    var a: Poly :| Leaves(p, a, r);
    var b: Poly :| Leaves(p, b, s);
    hide Leaves, Times;
    forall i | 0 <= i < |p|
      ensures |p| == |a| + 32 == |b| + 32
      ensures p[i] == (Times(a)[i] != (i >= |a| && r[i - |a|])) && p[i] == (Times(b)[i] != (i >= |b| && s[i - |b|]))
    {
      LeavesAt(p, a, r, i);
      LeavesAt(p, b, s, i);
    }
    LeavesAt(p, a, r, 0);
    QuotientUnique(a, b);
    forall i | 0 <= i < 32
      ensures r[i] == s[i]
    {
      assert p[|a| + i] == (Times(a)[|a| + i] != r[i]) && p[|a| + i] == (Times(a)[|a| + i] != s[i]);
    }
  }

  // ----- one more coefficient of the dividend -----

  /** The remainder when the payload goes on with `b`. */
  function NextRemainder(r: Poly, b: bool): (n: Poly)
    requires |r| == 32
    ensures |n| == 32
  {
    var n := r[1..] + [false];
    if r[0] != b then Plus(n, Generator()[1..]) else n
  }

  lemma NextAt(r: Poly, b: bool, i: nat)
    requires |r| == 32 && i < 32
    ensures NextRemainder(r, b)[i] <==> (i < 31 && r[i + 1]) != (r[0] != b && Generator()[i + 1])
  {
    assert Generator()[1..][i] == Generator()[i + 1];
  }

  lemma DividendAt(s: Poly, b: bool, i: nat)
    requires i < |s| + 33
    ensures Dividend(s + [b])[i] == ((i < |s| + 32 && Dividend(s)[i]) != (i == |s| && b))
  {
  }

  /** The coefficients agree one by one. */
  lemma MoreAt(s: Poly, q: Poly, r: Poly, b: bool, i: nat)
    requires |r| == 32 && |q| == |s| && Leaves(Dividend(s), q, r) && i < |s| + 33
    ensures Dividend(s + [b])[i] == Plus(Times(q + [r[0] != b]), Zeros(|s| + 1) + NextRemainder(r, b))[i]
  {
    hide *;
    DividendAt(s, b, i);
    TimesAt(q, r[0] != b, i);
    SumAt(q + [r[0] != b], NextRemainder(r, b), i);
    if i < |s| + 32 { LeavesAt(Dividend(s), q, r, i); }
    if i > |s| { NextAt(r, b, i - |s| - 1); } else { Leading(); }
  }

  lemma RemainderMore(s: Poly, q: Poly, r: Poly, b: bool)
    requires |r| == 32 && |q| == |s| && Leaves(Dividend(s), q, r)
    ensures Leaves(Dividend(s + [b]), q + [r[0] != b], NextRemainder(r, b))
  {
    var left, right := Dividend(s + [b]), Plus(Times(q + [r[0] != b]), Zeros(|s| + 1) + NextRemainder(r, b));
    forall i | 0 <= i < |s| + 33
      ensures left[i] == right[i]
    {
      MoreAt(s, q, r, b, i);
    }
    assert left == right;
    hide Times, Dividend, NextRemainder;
  }

  // ----- the register holds the remainder -----

  /** The register after one more bit. */
  function BitStep(x: bv32, b: bool): bv32 { Shift(Xor(x, if b then 1 else 0)) }

  function BitSteps(x: bv32, s: Poly): bv32
    decreases |s|
  {
    if s == [] then x else BitStep(BitSteps(x, s[..|s| - 1]), s[|s| - 1])
  }

  lemma {:induction false} LowXor(x: bv32, y: bv32, n: nat)
    ensures LowBits(Xor(x, y), n) == Plus(LowBits(x, n), LowBits(y, n))
    decreases n
  {
    hide Xor, Odd, Half;
    if n > 0 {
      XorHalf(x, y);
      LowXor(Half(x), Half(y), n - 1);
    }
  }

  function Halves(w: bv32, n: nat): bv32
    decreases n
  {
    if n == 0 then w else Halves(Half(w), n - 1)
  }

  function Down(w: bv32): bv32 { w >> 8 }

  lemma HalfSteps(w: bv32)
    ensures Half(w) == w >> 1 && Half(w >> 1) == w >> 2 && Half(w >> 2) == w >> 3 && Half(w >> 3) == w >> 4
    ensures Half(w >> 4) == w >> 5 && Half(w >> 5) == w >> 6 && Half(w >> 6) == w >> 7 && Half(w >> 7) == Down(w)
  {
  }

  lemma {:induction false} HalvesJoin(w: bv32, a: nat, b: nat)
    ensures Halves(w, a + b) == Halves(Halves(w, a), b)
    decreases a
  {
    hide Half;
    if a > 0 { HalvesJoin(Half(w), a - 1, b); }
  }

  lemma {:induction false} LowJoin(w: bv32, a: nat, b: nat)
    ensures LowBits(w, a + b) == LowBits(w, a) + LowBits(Halves(w, a), b)
    decreases a
  {
    hide Half, Odd;
    if a > 0 { LowJoin(Half(w), a - 1, b); }
  }

  lemma BitsTwo(w0: bv32, w1: bv32, w2: bv32)
    requires Half(w0) == w1 && Half(w1) == w2
    ensures Halves(w0, 2) == w2 && LowBits(w0, 2) == [Odd(w0), Odd(w1)]
  {
    hide Half, Odd;
    assert Halves(w1, 1) == w2 && LowBits(w1, 1) == [Odd(w1)];
  }

  lemma BitsFour(w0: bv32, w1: bv32, w2: bv32, w3: bv32, w4: bv32)
    requires Half(w0) == w1 && Half(w1) == w2 && Half(w2) == w3 && Half(w3) == w4
    ensures Halves(w0, 4) == w4 && LowBits(w0, 4) == [Odd(w0), Odd(w1), Odd(w2), Odd(w3)]
  {
    hide Half, Odd, Halves, LowBits;
    BitsTwo(w0, w1, w2);
    BitsTwo(w2, w3, w4);
    HalvesJoin(w0, 2, 2);
    LowJoin(w0, 2, 2);
  }

  lemma BitsEight(w0: bv32, w1: bv32, w2: bv32, w3: bv32, w4: bv32, w5: bv32, w6: bv32, w7: bv32, w8: bv32)
    requires Half(w0) == w1 && Half(w1) == w2 && Half(w2) == w3 && Half(w3) == w4
    requires Half(w4) == w5 && Half(w5) == w6 && Half(w6) == w7 && Half(w7) == w8
    ensures Halves(w0, 8) == w8 && LowBits(w0, 8) == [Odd(w0), Odd(w1), Odd(w2), Odd(w3), Odd(w4), Odd(w5), Odd(w6), Odd(w7)]
  {
    hide Half, Odd, Halves, LowBits;
    BitsFour(w0, w1, w2, w3, w4);
    BitsFour(w4, w5, w6, w7, w8);
    HalvesJoin(w0, 4, 4);
    LowJoin(w0, 4, 4);
  }

  lemma HalfEight(w: bv32)
    ensures Halves(w, 8) == Down(w)
  {
    HalfSteps(w);
    hide Half, Odd, Halves, LowBits;
    BitsEight(w, w >> 1, w >> 2, w >> 3, w >> 4, w >> 5, w >> 6, w >> 7, Down(w));
  }

  lemma DownFour(w: bv32)
    ensures Down(Down(Down(Down(w)))) == 0
  {
    ShiftedTwice(w);
  }

  lemma HalvesAll(w: bv32)
    ensures Halves(w, 32) == 0
  {
    DownFour(w);
    hide Halves, Down;
    HalfEight(w);
    HalfEight(Down(w));
    HalfEight(Down(Down(w)));
    HalfEight(Down(Down(Down(w))));
    HalvesJoin(w, 8, 24);
    HalvesJoin(Down(w), 8, 16);
    HalvesJoin(Down(Down(w)), 8, 8);
  }

  lemma {:induction false} LowMore(w: bv32, n: nat)
    ensures LowBits(w, n + 1) == LowBits(w, n) + [Odd(Halves(w, n))]
    decreases n
  {
    hide Odd, Half;
    if n > 0 { LowMore(Half(w), n - 1); }
  }

  lemma BitsHalf(x: bv32)
    ensures RegBits(Half(x)) == RegBits(x)[1..] + [false] && RegBits(x)[0] == Odd(x)
  {
    hide Odd, Half, Halves, LowBits;
    LowMore(x, 32);
    HalvesAll(x);
    LowFirst(x);
    ZeroEven();
    assert LowBits(Half(x), 32) == ([Odd(x)] + LowBits(Half(x), 32))[1..];
  }

  lemma LowFirst(x: bv32)
    ensures LowBits(x, 33) == [Odd(x)] + LowBits(Half(x), 32) && LowBits(x, 32)[0] == Odd(x)
  {
  }

  lemma ZeroEven()
    ensures !Odd(0) && Half(0) == 0
  {
  }

  lemma BitsLow(x: bv32, b: bool)
    ensures Odd(Xor(x, if b then 1 else 0)) == (Odd(x) != b) && Half(Xor(x, if b then 1 else 0)) == Half(x)
  {
  }

  lemma PolynomialByte0()
    ensures Halves(0xEDB8_8320, 8) == 0xED_B883
    ensures LowBits(0xEDB8_8320, 8) == [false, false, false, false, false, true, false, false]
  {
    BitsEight(0xEDB8_8320, 0x76DC_4190, 0x3B6E_20C8, 0x1DB7_1064, 0xEDB_8832, 0x76D_C419, 0x3B6_E20C, 0x1DB_7106, 0xED_B883);
  }

  lemma PolynomialByte1()
    ensures Halves(0xED_B883, 8) == 0xEDB8
    ensures LowBits(0xED_B883, 8) == [true, true, false, false, false, false, false, true]
  {
    BitsEight(0xED_B883, 0x76_DC41, 0x3B_6E20, 0x1D_B710, 0xE_DB88, 0x7_6DC4, 0x3_B6E2, 0x1_DB71, 0xEDB8);
  }

  lemma PolynomialByte2()
    ensures Halves(0xEDB8, 8) == 0xED
    ensures LowBits(0xEDB8, 8) == [false, false, false, true, true, true, false, true]
  {
    BitsEight(0xEDB8, 0x76DC, 0x3B6E, 0x1DB7, 0xEDB, 0x76D, 0x3B6, 0x1DB, 0xED);
  }

  lemma PolynomialByte3()
    ensures Halves(0xED, 8) == 0x0
    ensures LowBits(0xED, 8) == [true, false, true, true, false, true, true, true]
  {
    BitsEight(0xED, 0x76, 0x3B, 0x1D, 0xE, 0x7, 0x3, 0x1, 0x0);
  }

  /** The constant of the program is the generator without its highest power. */
  lemma PolynomialBits()
    ensures RegBits(CRC32_POLYNOMIAL) == Generator()[1..]
  {
    PolynomialByte0();
    PolynomialByte1();
    PolynomialByte2();
    PolynomialByte3();
    hide Halves, LowBits;
    LowJoin(0xEDB8_8320, 8, 24);
    LowJoin(0xED_B883, 8, 16);
    LowJoin(0xEDB8, 8, 8);
  }

  /** One bit through the register is one more coefficient of the payload. */
  lemma BitStepIs(x: bv32, b: bool)
    ensures RegBits(BitStep(x, b)) == NextRemainder(RegBits(x), b)
  {
    BitsLow(x, b);
    BitsHalf(x);
    PolynomialBits();
    LowXor(Half(x), CRC32_POLYNOMIAL, 32);
    hide LowBits, Odd, Half, Xor, Generator;
  }

  lemma RemainderGrows(s: Poly, r: Poly, b: bool)
    requires IsRemainder(Dividend(s), r)
    ensures IsRemainder(Dividend(s + [b]), NextRemainder(r, b))
  {
    var q: Poly :| Leaves(Dividend(s), q, r);
    hide Leaves, NextRemainder;
    QuotientSize(s, q, r);
    RemainderMore(s, q, r, b);
  }

  lemma QuotientSize(s: Poly, q: Poly, r: Poly)
    requires |r| == 32 && Leaves(Dividend(s), q, r)
    ensures |q| == |s|
  {
  }

  lemma {:induction false} RegisterRemainder(s: Poly)
    ensures IsRemainder(Dividend(s), RegBits(BitSteps(CRC32_INITIAL_VALUE, s)))
    decreases |s|
  {
    hide RegBits, BitStep, IsRemainder, NextRemainder, Dividend;
    if s == [] {
      InitialBits();
    } else {
      var n := |s| - 1;
      RegisterRemainder(s[..n]);
      var x := BitSteps(CRC32_INITIAL_VALUE, s[..n]);
      RemainderGrows(s[..n], RegBits(x), s[n]);
      BitStepIs(x, s[n]);
      assert s[..n] + [s[n]] == s;
    }
  }

  lemma InitialByte0()
    ensures Halves(0xFFFF_FFFF, 8) == 0xFF_FFFF
    ensures LowBits(0xFFFF_FFFF, 8) == [true, true, true, true, true, true, true, true]
  {
    BitsEight(0xFFFF_FFFF, 0x7FFF_FFFF, 0x3FFF_FFFF, 0x1FFF_FFFF, 0xFFF_FFFF, 0x7FF_FFFF, 0x3FF_FFFF, 0x1FF_FFFF, 0xFF_FFFF);
  }

  lemma InitialByte1()
    ensures Halves(0xFF_FFFF, 8) == 0xFFFF
    ensures LowBits(0xFF_FFFF, 8) == [true, true, true, true, true, true, true, true]
  {
    BitsEight(0xFF_FFFF, 0x7F_FFFF, 0x3F_FFFF, 0x1F_FFFF, 0xF_FFFF, 0x7_FFFF, 0x3_FFFF, 0x1_FFFF, 0xFFFF);
  }

  lemma InitialByte2()
    ensures Halves(0xFFFF, 8) == 0xFF
    ensures LowBits(0xFFFF, 8) == [true, true, true, true, true, true, true, true]
  {
    BitsEight(0xFFFF, 0x7FFF, 0x3FFF, 0x1FFF, 0xFFF, 0x7FF, 0x3FF, 0x1FF, 0xFF);
  }

  lemma InitialByte3()
    ensures Halves(0xFF, 8) == 0x0
    ensures LowBits(0xFF, 8) == [true, true, true, true, true, true, true, true]
  {
    BitsEight(0xFF, 0x7F, 0x3F, 0x1F, 0xF, 0x7, 0x3, 0x1, 0x0);
  }

  lemma InitialOnes()
    ensures RegBits(CRC32_INITIAL_VALUE) == Dividend([])
  {
    InitialByte0();
    InitialByte1();
    InitialByte2();
    InitialByte3();
    hide Halves, LowBits;
    LowJoin(0xFFFF_FFFF, 8, 24);
    LowJoin(0xFF_FFFF, 8, 16);
    LowJoin(0xFFFF, 8, 8);
  }

  lemma InitialBits()
    ensures IsRemainder(Dividend([]), RegBits(CRC32_INITIAL_VALUE))
  {
    InitialOnes();
    hide RegBits;
    assert Leaves(Dividend([]), [], RegBits(CRC32_INITIAL_VALUE));
  }

  // ----- eight bits are one byte -----

  lemma {:induction false} BitStepsJoin(x: bv32, s: Poly, t: Poly)
    ensures BitSteps(x, s + t) == BitSteps(BitSteps(x, s), t)
    decreases |t|
  {
    hide BitStep;
    if t == [] {
      assert s + t == s;
    } else {
      var n := |t| - 1;
      assert (s + t)[..|s + t| - 1] == s + t[..n];
      BitStepsJoin(x, s, t[..n]);
    }
  }

  lemma {:induction false} ShiftsFirst(x: bv32, n: nat)
    ensures Shifts(x, n + 1) == Shifts(Shift(x), n)
  {
    hide Shift;
    if n > 0 {
      ShiftsFirst(x, n - 1);
    } else {
      assert Shifts(x, 0) == x;
    }
  }

  lemma HalfParts(w: bv32)
    ensures w == Xor(if Odd(w) then 1 else 0, Twice(Half(w))) && Small(Half(w))
  {
  }

  /** Bits mixed in together and shifted are the bits one after the other. */
  lemma {:induction false} ShiftsBits(x: bv32, w: bv32, n: nat)
    requires Halves(w, n) == 0
    ensures Shifts(Xor(x, w), n) == BitSteps(x, LowBits(w, n))
    decreases n
  {
    hide Shift, Xor, Half, Odd, Twice, Small;
    if n == 0 {
      XorSelf(x);
    } else {
      var c: bv32 := if Odd(w) then 1 else 0;
      HalfParts(w);
      XorGroup(x, c, Twice(Half(w)));
      ShiftLinear(Xor(x, c), Twice(Half(w)));
      ShiftTwice(Half(w));
      ShiftsFirst(Xor(x, w), n - 1);
      ShiftsBits(Shift(Xor(x, c)), Half(w), n - 1);
      BitStepsJoin(x, [Odd(w)], LowBits(Half(w), n - 1));
      BitStepsOne(x, Odd(w));
    }
  }

  lemma BitStepsOne(x: bv32, b: bool)
    ensures BitSteps(x, [b]) == BitStep(x, b)
  {
    hide BitStep;
    assert [b][..0] == [];
  }

  lemma ByteDown(b: bv8)
    ensures Down(b as bv32) == 0
  {
  }

  lemma ByteLow(b: bv8)
    ensures Halves(b as bv32, 8) == 0
  {
    HalfEight(b as bv32);
    ByteDown(b);
    hide Down;
  }

  lemma StepBits(x: bv32, b: bv8)
    ensures Step(x, b) == BitSteps(x, LowBits(b as bv32, 8))
  {
    hide Xor, Shifts, LowBits, Halves, BitSteps;
    ByteLow(b);
    ShiftsBits(x, b as bv32, 8);
  }

  lemma {:induction false} StepsBits(x: bv32, data: Bytes)
    ensures Steps(x, data) == BitSteps(x, BitsOf(data))
    decreases |data|
  {
    if data != [] {
      var n := |data| - 1;
      StepsBits(x, data[..n]);
      StepBits(BitSteps(x, BitsOf(data[..n])), data[n]);
      BitStepsJoin(x, BitsOf(data[..n]), LowBits(data[n] as bv32, 8));
    }
    hide Step, BitSteps, LowBits;
  }

  /** The CRC of a payload is the number whose complement holds the remainder of the payload by the
      generator, and no other number is. */
  lemma CrcRemainder(data: Bytes, x: bv32)
    ensures x == Crc32(data) <==> IsRemainder(Dividend(BitsOf(data)), RegBits(Final(x)))
  {
    hide RegBits, Xor, IsRemainder, Dividend, BitSteps, Steps, BitsOf;
    var y := Steps(CRC32_INITIAL_VALUE, data);
    StepsBits(CRC32_INITIAL_VALUE, data);
    RegisterRemainder(BitsOf(data));
    XorTwice(y);
    XorTwice(x);
    if IsRemainder(Dividend(BitsOf(data)), RegBits(Final(x))) {
      RemainderUnique(Dividend(BitsOf(data)), RegBits(Final(x)), RegBits(y));
      BitsDetermine(Final(x), y);
    }
  }

  lemma XorTwice(x: bv32)
    ensures Final(Final(x)) == x
  {
  }

  /** The 32 coefficients determine the register. */
  lemma BitsDetermine(x: bv32, y: bv32)
    requires RegBits(x) == RegBits(y)
    ensures x == y
  {
    HalvesAll(x);
    HalvesAll(y);
    LowDetermine(x, y, 32);
  }

  lemma {:induction false} LowDetermine(x: bv32, y: bv32, n: nat)
    requires LowBits(x, n) == LowBits(y, n) && Halves(x, n) == Halves(y, n)
    ensures x == y
    decreases n
  {
    hide Half, Odd, Xor, Twice, Small;
    if n > 0 {
      assert LowBits(x, n)[0] == LowBits(y, n)[0] && LowBits(x, n)[1..] == LowBits(y, n)[1..];
      LowDetermine(Half(x), Half(y), n - 1);
      HalfParts(x);
      HalfParts(y);
    }
  }

  // ----- the published check value -----

  lemma EightShifts(x: bv32, b: bv8, y0: bv32, y1: bv32, y2: bv32, y3: bv32, y4: bv32, y5: bv32, y6: bv32, y7: bv32, y8: bv32)
    requires Mix(x, b) == y0 && Shift(y0) == y1 && Shift(y1) == y2 && Shift(y2) == y3 && Shift(y3) == y4
    requires Shift(y4) == y5 && Shift(y5) == y6 && Shift(y6) == y7 && Shift(y7) == y8
    ensures Step(x, b) == y8
  {
    hide Mix, Shift;
    assert Shifts(y0, 1) == y1 && Shifts(y0, 2) == y2 && Shifts(y0, 3) == y3 && Shifts(y0, 4) == y4;
    assert Shifts(y0, 5) == y5 && Shifts(y0, 6) == y6 && Shifts(y0, 7) == y7;
  }

  lemma StepsThree(x: bv32, a: bv8, b: bv8, c: bv8)
    ensures Steps(x, [a, b, c]) == Step(Step(Step(x, a), b), c)
  {
    hide Step;
    assert [a, b, c][..2] == [a, b] && [a, b][..1] == [a];
    StepsOne(x, [a]);
  }

  lemma CheckByte1()
    ensures Step(0xFFFF_FFFF, 0x31) == 0x7C23_1048
  {
    EightShifts(0xFFFF_FFFF, 0x31, 0xFFFF_FFCE, 0x7FFF_FFE7, 0xD247_7CD3, 0x849B_3D49, 0xAFF5_1D84, 0x57FA_8EC2, 0x2BFD_4761, 0xF846_2090, 0x7C23_1048);
  }

  lemma CheckByte2()
    ensures Step(0x7C23_1048, 0x32) == 0xB0AC_BB32
  {
    EightShifts(0x7C23_1048, 0x32, 0x7C23_107A, 0x3E11_883D, 0xF2B0_473E, 0x7958_239F, 0xD114_92EF, 0x8532_CA57, 0xAF21_E60B, 0xBA28_7025, 0xB0AC_BB32);
  }

  lemma CheckByte3()
    ensures Step(0xB0AC_BB32, 0x33) == 0x77B7_9C2D
  {
    EightShifts(0xB0AC_BB32, 0x33, 0xB0AC_BB01, 0xB5EE_DEA0, 0x5AF7_6F50, 0x2D7B_B7A8, 0x16BD_DBD4, 0xB5E_EDEA, 0x5AF_76F5, 0xEF6F_385A, 0x77B7_9C2D);
  }

  lemma CheckByte4()
    ensures Step(0x77B7_9C2D, 0x34) == 0x641C_1F5C
  {
    EightShifts(0x77B7_9C2D, 0x34, 0x77B7_9C19, 0xD663_4D2C, 0x6B31_A696, 0x3598_D34B, 0xF774_EA85, 0x9602_F662, 0x4B01_7B31, 0xC838_3EB8, 0x641C_1F5C);
  }

  lemma CheckByte5()
    ensures Step(0x641C_1F5C, 0x35) == 0x340A_C5E3
  {
    EightShifts(0x641C_1F5C, 0x35, 0x641C_1F69, 0xDFB6_8C94, 0x6FDB_464A, 0x37ED_A325, 0xF64E_52B2, 0x7B27_2959, 0xD02B_178C, 0x6815_8BC6, 0x340A_C5E3);
  }

  lemma CheckByte6()
    ensures Step(0x340A_C5E3, 0x36) == 0xF68D_2C9E
  {
    EightShifts(0x340A_C5E3, 0x36, 0x340A_C5D5, 0xF7BD_E1CA, 0x7BDE_F0E5, 0xD057_FB52, 0x682B_FDA9, 0xD9AD_7DF4, 0x6CD6_BEFA, 0x366B_5F7D, 0xF68D_2C9E);
  }

  lemma CheckByte7()
    ensures Step(0xF68D_2C9E, 0x37) == 0xAFFC_9660
  {
    EightShifts(0xF68D_2C9E, 0x37, 0xF68D_2CA9, 0x96FE_1574, 0x4B7F_0ABA, 0x25BF_855D, 0xFF67_418E, 0x7FB3_A0C7, 0xD261_5343, 0x8488_2A81, 0xAFFC_9660);
  }

  lemma CheckByte8()
    ensures Step(0xAFFC_9660, 0x38) == 0x651F_2550
  {
    EightShifts(0xAFFC_9660, 0x38, 0xAFFC_9658, 0x57FE_4B2C, 0x2BFF_2596, 0x15FF_92CB, 0xE747_4A45, 0x9E1B_2602, 0x4F0D_9301, 0xCA3E_4AA0, 0x651F_2550);
  }

  lemma CheckByte9()
    ensures Step(0x651F_2550, 0x39) == 0x340B_C6D9
  {
    EightShifts(0x651F_2550, 0x39, 0x651F_2569, 0xDF37_1194, 0x6F9B_88CA, 0x37CD_C465, 0xF65E_6112, 0x7B2F_3089, 0xD02F_1B64, 0x6817_8DB2, 0x340B_C6D9);
  }

  lemma CheckFirst()
    ensures Steps(0xFFFF_FFFF, [0x31, 0x32, 0x33]) == 0x77B7_9C2D
  {
    hide Step, Steps;
    CheckByte1();
    CheckByte2();
    CheckByte3();
    StepsThree(0xFFFF_FFFF, 0x31, 0x32, 0x33);
  }

  lemma CheckSecond()
    ensures Steps(0x77B7_9C2D, [0x34, 0x35, 0x36]) == 0xF68D_2C9E
  {
    hide Step, Steps;
    CheckByte4();
    CheckByte5();
    CheckByte6();
    StepsThree(0x77B7_9C2D, 0x34, 0x35, 0x36);
  }

  lemma CheckThird()
    ensures Steps(0xF68D_2C9E, [0x37, 0x38, 0x39]) == 0x340B_C6D9
  {
    hide Step, Steps;
    CheckByte7();
    CheckByte8();
    CheckByte9();
    StepsThree(0xF68D_2C9E, 0x37, 0x38, 0x39);
  }

  lemma CheckFinal(data: Bytes)
    requires Steps(0xFFFF_FFFF, data) == 0x340B_C6D9
    ensures Crc32(data) == 0xCBF4_3926
  {
    hide Steps;
  }

  /** The CRC of the digits 1 to 9. */
  lemma CheckValue()
    ensures Crc32([0x31, 0x32, 0x33, 0x34, 0x35, 0x36, 0x37, 0x38, 0x39]) == 0xCBF4_3926
  {
    hide *;
    CheckFirst();
    CheckSecond();
    CheckThird();
    var a: Bytes, b: Bytes, c: Bytes := [0x31, 0x32, 0x33], [0x34, 0x35, 0x36], [0x37, 0x38, 0x39];
    StepsJoin(0xFFFF_FFFF, a, b);
    StepsJoin(0xFFFF_FFFF, a + b, c);
    assert a + b + c == [0x31, 0x32, 0x33, 0x34, 0x35, 0x36, 0x37, 0x38, 0x39];
    CheckFinal(a + b + c);
  }
}
