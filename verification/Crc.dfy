/** The CRC-32 trailer of a sector.  A torn or damaged sector counts as garbage in the rest of
    the model; here is what the trailer does detect, over bytes. */
module Crc {
  const CRC32_POLYNOMIAL: bv32 := 0xEDB8_8320
  const CRC32_INITIAL_VALUE: bv32 := 0xFFFF_FFFF
  const CRC32_FINAL_XOR: bv32 := 0xFFFF_FFFF
  const SECTOR_SIZE: nat := 512
  const SECTOR_PAYLOAD_BYTES: nat := 508

  type Bytes = seq<bv8>

  function Xor(x: bv32, y: bv32): bv32 { x ^ y }

  function Half(x: bv32): bv32 { x >> 1 }

  predicate Odd(x: bv32) { x & 1 != 0 }

  /** One bit. */
  function Shift(x: bv32): bv32 {
    if Odd(x) then Xor(Half(x), CRC32_POLYNOMIAL) else Half(x)
  }

  function Shifts(x: bv32, n: nat): bv32 {
    if n == 0 then x else Shift(Shifts(x, n - 1))
  }

  function Mix(x: bv32, b: bv8): bv32 { Xor(x, b as bv32) }

  /** One byte. */
  function Step(x: bv32, b: bv8): bv32 { Shifts(Mix(x, b), 8) }

  function Steps(x: bv32, data: Bytes): bv32 {
    if data == [] then x else Step(Steps(x, data[..|data| - 1]), data[|data| - 1])
  }

  function Final(x: bv32): bv32 { Xor(x, CRC32_FINAL_XOR) }

  function Crc32(data: Bytes): bv32 { Final(Steps(CRC32_INITIAL_VALUE, data)) }

  /** Computes the CRC of the first `length` bytes. */
  method Calculate(data: array<bv8>, length: nat) returns (crc: bv32)
    requires length <= data.Length
    ensures crc == Crc32(data[..length])
  {
    hide Shift, Mix, Final;
    crc := CRC32_INITIAL_VALUE;
    for i := 0 to length
      invariant crc == Steps(CRC32_INITIAL_VALUE, data[..i])
    {
      crc := Mix(crc, data[i]);
      ghost var start := crc;
      for bit := 0 to 8
        invariant crc == Shifts(start, bit)
      {
        crc := ShiftBit(crc);
      }
      assert data[..i + 1][..i] == data[..i];
    }
    crc := Final(crc);
  }

  method ShiftBit(x: bv32) returns (r: bv32)
    ensures r == Shift(x)
  {
    if x & 1 != 0 {
      r := (x >> 1) ^ CRC32_POLYNOMIAL;
    } else {
      r := x >> 1;
    }
  }

  // ----- shifting is linear and loses nothing -----

  lemma XorHalf(x: bv32, y: bv32)
    ensures Half(Xor(x, y)) == Xor(Half(x), Half(y)) && (Odd(Xor(x, y)) <==> Odd(x) != Odd(y))
  {
  }

  lemma XorGroup(x: bv32, y: bv32, z: bv32)
    ensures Xor(Xor(x, y), z) == Xor(x, Xor(y, z))
  {
    assert (x ^ y) ^ z == x ^ (y ^ z);
  }

  lemma XorSwap(x: bv32, y: bv32)
    ensures Xor(x, y) == Xor(y, x)
  {
  }

  lemma XorSelf(x: bv32)
    ensures Xor(x, x) == 0 && Xor(x, 0) == x
  {
  }

  lemma XorLaws(x: bv32, y: bv32, p: bv32)
    ensures Xor(Xor(x, p), Xor(y, p)) == Xor(x, y)
    ensures Xor(Xor(x, p), y) == Xor(Xor(x, y), p) == Xor(x, Xor(y, p))
  {
    XorGroup(x, p, Xor(y, p));
    XorSwap(p, Xor(y, p));
    XorGroup(y, p, p);
    XorSelf(p);
    XorSelf(y);
    XorGroup(x, p, y);
    XorSwap(p, y);
    XorGroup(x, y, p);
    hide Xor;
  }

  lemma XorCancels(x: bv32, y: bv32, p: bv32)
    requires Xor(x, p) == Xor(y, p)
    ensures x == y
  {
  }

  lemma ShiftInjective(x: bv32, y: bv32)
    requires Shift(x) == Shift(y)
    ensures x == y
  {
  }

  lemma ShiftLinear(x: bv32, y: bv32)
    ensures Shift(Xor(x, y)) == Xor(Shift(x), Shift(y))
  {
    XorHalf(x, y);
    XorLaws(Half(x), Half(y), CRC32_POLYNOMIAL);
    hide Xor, Half, Odd;
  }

  lemma {:induction false} ShiftsInjective(x: bv32, y: bv32, n: nat)
    requires Shifts(x, n) == Shifts(y, n)
    ensures x == y
  {
    hide Shift;
    if n > 0 {
      ShiftInjective(Shifts(x, n - 1), Shifts(y, n - 1));
      ShiftsInjective(x, y, n - 1);
    }
  }

  lemma {:induction false} ShiftsLinear(x: bv32, y: bv32, n: nat)
    ensures Shifts(Xor(x, y), n) == Xor(Shifts(x, n), Shifts(y, n))
  {
    if n > 0 {
      ShiftsLinear(x, y, n - 1);
      ShiftLinear(Shifts(x, n - 1), Shifts(y, n - 1));
    }
    hide Shift, Xor;
  }

  lemma {:induction false} StepsInjective(x: bv32, y: bv32, data: Bytes)
    requires Steps(x, data) == Steps(y, data)
    ensures x == y
  {
    if data != [] {
      var n := |data| - 1;
      StepInjective(Steps(x, data[..n]), Steps(y, data[..n]), data[n]);
      StepsInjective(x, y, data[..n]);
    }
  }

  lemma StepInjective(x: bv32, y: bv32, b: bv8)
    requires Step(x, b) == Step(y, b)
    ensures x == y
  {
    ShiftsInjective(Mix(x, b), Mix(y, b), 8);
    XorCancels(x, y, b as bv32);
    hide Shifts, Xor;
  }

  lemma {:induction false} StepsJoin(x: bv32, a: Bytes, b: Bytes)
    ensures Steps(x, a + b) == Steps(Steps(x, a), b)
  {
    hide Step;
    if b == [] {
      assert a + b == a;
    } else {
      var n := |b| - 1;
      assert (a + b)[..|a + b| - 1] == a + b[..n];
      StepsJoin(x, a, b[..n]);
    }
  }

  // ----- up to four bytes at once -----

  function Up(x: bv32): bv32 { x << 8 }

  /** Bytes as a number, least significant byte first. */
  function WordOf(data: Bytes): bv32 {
    if data == [] then 0 else Mix(Up(WordOf(data[1..])), data[0])
  }

  function ShiftBytes(x: bv32, n: nat): bv32
    decreases n
  {
    if n == 0 then x else ShiftBytes(Shifts(x, 8), n - 1)
  }

  lemma {:induction false} ShiftBytesInjective(x: bv32, y: bv32, n: nat)
    requires ShiftBytes(x, n) == ShiftBytes(y, n)
    ensures x == y
    decreases n
  {
    if n > 0 {
      ShiftBytesInjective(Shifts(x, 8), Shifts(y, 8), n - 1);
      ShiftsInjective(x, y, 8);
    }
    hide Shifts;
  }

  function Twice(x: bv32): bv32 { x << 1 }

  predicate Small(x: bv32) { x < 0x8000_0000 }

  lemma ShiftTwice(x: bv32)
    requires Small(x)
    ensures Shift(Twice(x)) == x
  {
  }

  lemma UpIsTwice(x: bv32)
    requires x < 0x100_0000
    ensures Small(x) && Small(x << 1) && Small(x << 2) && Small(x << 3) && Small(x << 4) && Small(x << 5) && Small(x << 6) && Small(x << 7)
    ensures Twice(x) == x << 1 && Twice(x << 1) == x << 2 && Twice(x << 2) == x << 3 && Twice(x << 3) == x << 4
    ensures Twice(x << 4) == x << 5 && Twice(x << 5) == x << 6 && Twice(x << 6) == x << 7 && Twice(x << 7) == Up(x)
  {
  }

  lemma ShiftUp(x: bv32)
    requires x < 0x100_0000
    ensures Shifts(Up(x), 8) == x
  {
    UpIsTwice(x);
    TwiceEight(x, Twice(x), x << 2, x << 3, x << 4, x << 5, x << 6, x << 7, Up(x));
  }

  lemma TwiceEight(x0: bv32, x1: bv32, x2: bv32, x3: bv32, x4: bv32, x5: bv32, x6: bv32, x7: bv32, x8: bv32)
    requires Small(x0) && Small(x1) && Small(x2) && Small(x3) && Small(x4) && Small(x5) && Small(x6) && Small(x7)
    requires Twice(x0) == x1 && Twice(x1) == x2 && Twice(x2) == x3 && Twice(x3) == x4
    requires Twice(x4) == x5 && Twice(x5) == x6 && Twice(x6) == x7 && Twice(x7) == x8
    ensures Shifts(x8, 8) == x0
  {
    hide Twice, Small, Shift;
    ShiftTwice(x7);
    ShiftTwice(x6);
    ShiftTwice(x5);
    ShiftTwice(x4);
    ShiftTwice(x3);
    ShiftTwice(x2);
    ShiftTwice(x1);
    ShiftTwice(x0);
    assert Shifts(x8, 1) == x7 && Shifts(x8, 2) == x6 && Shifts(x8, 3) == x5 && Shifts(x8, 4) == x4;
    assert Shifts(x8, 5) == x3 && Shifts(x8, 6) == x2 && Shifts(x8, 7) == x1;
  }

  /** Below 256 to the power `k`. */
  predicate Fits(w: bv32, k: nat) {
    match k
    case 0 => w == 0
    case 1 => w < 0x100
    case 2 => w < 0x1_0000
    case 3 => w < 0x100_0000
    case _ => true
  }

  lemma FitsMore(w: bv32, k: nat, b: bv8)
    requires Fits(w, k) && k < 4
    ensures Fits(Mix(Up(w), b), k + 1) && w < 0x100_0000
  {
  }

  lemma {:induction false} WordFits(data: Bytes)
    requires |data| <= 4
    ensures Fits(WordOf(data), |data|)
  {
    if data != [] {
      WordFits(data[1..]);
      FitsMore(WordOf(data[1..]), |data| - 1, data[0]);
    }
    hide Fits, Mix, Up;
  }

  lemma SplitWord(v: bv32, w: bv32, p: bv8, q: bv8)
    requires v < 0x100_0000 && w < 0x100_0000 && Mix(Up(v), p) == Mix(Up(w), q)
    ensures v == w && p == q
  {
  }

  lemma {:induction false} WordInjective(a: Bytes, b: Bytes)
    requires |a| == |b| <= 4 && WordOf(a) == WordOf(b)
    ensures a == b
  {
    hide Fits, Mix, Up;
    if a != [] {
      WordFits(a[1..]);
      WordFits(b[1..]);
      FitsMore(WordOf(a[1..]), |a| - 1, a[0]);
      FitsMore(WordOf(b[1..]), |b| - 1, b[0]);
      SplitWord(WordOf(a[1..]), WordOf(b[1..]), a[0], b[0]);
      WordInjective(a[1..], b[1..]);
      assert a == [a[0]] + a[1..] && b == [b[0]] + b[1..];
    }
  }

  /** One byte of several mixed in together: the others are shifted into place. */
  lemma StepWord(x: bv32, w: bv32, b: bv8)
    requires w < 0x100_0000
    ensures Shifts(Xor(x, Mix(Up(w), b)), 8) == Xor(Step(x, b), w)
  {
    XorSwap(Up(w), b as bv32);
    XorGroup(x, b as bv32, Up(w));
    ShiftsLinear(Mix(x, b), Up(w), 8);
    ShiftUp(w);
    hide Xor, Up, Shifts;
  }

  /** Up to four bytes go in as one number. */
  lemma {:induction false} StepsAtOnce(x: bv32, data: Bytes)
    requires |data| <= 4
    ensures Steps(x, data) == ShiftBytes(Xor(x, WordOf(data)), |data|)
    decreases |data|
  {
    if data == [] {
      XorSelf(x);
    } else {
      WordFits(data[1..]);
      FitsMore(WordOf(data[1..]), |data| - 1, data[0]);
      StepWord(x, WordOf(data[1..]), data[0]);
      StepsAtOnce(Step(x, data[0]), data[1..]);
      assert data == data[..1] + data[1..];
      StepsJoin(x, data[..1], data[1..]);
      StepsOne(x, data[..1]);
    }
    hide Xor, Fits, Mix, Up, Step, Shifts;
  }

  lemma StepsOne(x: bv32, data: Bytes)
    requires |data| == 1
    ensures Steps(x, data) == Step(x, data[0])
  {
    hide Step;
    assert data[..0] == [];
  }

  /** A change of up to four consecutive bytes, and of nothing else, changes what comes out. */
  lemma BurstChanges(x: bv32, a: Bytes, b: Bytes, i: nat, k: nat)
    requires |a| == |b| && k <= 4 && i + k <= |a| && a[..i] == b[..i] && a[i + k..] == b[i + k..]
    ensures Steps(x, a) == Steps(x, b) ==> a == b
  {
    if Steps(x, a) == Steps(x, b) {
      InThree(x, a, i, k);
      InThree(x, b, i, k);
      var y := Steps(x, a[..i]);
      StepsInjective(Steps(y, a[i..i + k]), Steps(y, b[i..i + k]), a[i + k..]);
      SameBytes(y, a[i..i + k], b[i..i + k]);
      assert a == a[..i] + a[i..i + k] + a[i + k..];
      assert b == b[..i] + b[i..i + k] + b[i + k..];
    }
    hide Step, Steps;
  }

  lemma InThree(x: bv32, a: Bytes, i: nat, k: nat)
    requires i + k <= |a|
    ensures Steps(x, a) == Steps(Steps(Steps(x, a[..i]), a[i..i + k]), a[i + k..])
  {
    hide *;
    assert a == a[..i] + a[i..i + k] + a[i + k..];
    StepsJoin(x, a[..i] + a[i..i + k], a[i + k..]);
    StepsJoin(x, a[..i], a[i..i + k]);
  }

  lemma SameBytes(x: bv32, a: Bytes, b: Bytes)
    requires |a| == |b| <= 4 && Steps(x, a) == Steps(x, b)
    ensures a == b
  {
    hide *;
    StepsAtOnce(x, a);
    StepsAtOnce(x, b);
    ShiftBytesInjective(Xor(x, WordOf(a)), Xor(x, WordOf(b)), |a|);
    XorSwap(x, WordOf(a));
    XorSwap(x, WordOf(b));
    XorCancels(WordOf(a), WordOf(b), x);
    WordInjective(a, b);
  }

  /** The CRC of a payload of any length tells it from every other that differs in up to four
      consecutive bytes only. */
  lemma BurstDetected(a: Bytes, b: Bytes, i: nat, k: nat)
    requires |a| == |b| && k <= 4 && i + k <= |a| && a[..i] == b[..i] && a[i + k..] == b[i + k..]
    ensures Crc32(a) == Crc32(b) <==> a == b
  {
    hide Steps, Xor;
    BurstChanges(CRC32_INITIAL_VALUE, a, b, i, k);
    if Crc32(a) == Crc32(b) { XorCancels(Steps(CRC32_INITIAL_VALUE, a), Steps(CRC32_INITIAL_VALUE, b), CRC32_FINAL_XOR); }
  }

  // ----- sectors -----

  /** The trailer is the CRC of the payload, least significant byte first. */
  predicate ValidSector(s: Bytes) {
    |s| == SECTOR_SIZE && WordOf(s[SECTOR_PAYLOAD_BYTES..]) == Crc32(s[..SECTOR_PAYLOAD_BYTES])
  }

  /** A sector is valid exactly if running on through the trailer ends in one fixed value. */
  lemma Residue(s: Bytes)
    requires |s| == SECTOR_SIZE
    ensures ValidSector(s) <==> Steps(CRC32_INITIAL_VALUE, s) == ShiftBytes(CRC32_FINAL_XOR, 4)
  {
    var n := SECTOR_PAYLOAD_BYTES;
    var x := Steps(CRC32_INITIAL_VALUE, s[..n]);
    assert s == s[..n] + s[n..];
    StepsJoin(CRC32_INITIAL_VALUE, s[..n], s[n..]);
    StepsAtOnce(x, s[n..]);
    TrailerWord(x, WordOf(s[n..]));
    hide Steps, Xor, WordOf, ShiftBytes;
    if Steps(CRC32_INITIAL_VALUE, s) == ShiftBytes(CRC32_FINAL_XOR, 4) {
      ShiftBytesInjective(Xor(x, WordOf(s[n..])), CRC32_FINAL_XOR, 4);
    }
  }

  lemma TrailerWord(x: bv32, w: bv32)
    ensures w == Xor(x, CRC32_FINAL_XOR) <==> Xor(x, w) == CRC32_FINAL_XOR
  {
    XorBack(x, w);
    XorBack(x, CRC32_FINAL_XOR);
    hide Xor;
  }

  lemma XorBack(x: bv32, y: bv32)
    ensures Xor(x, Xor(x, y)) == y
  {
    XorGroup(x, x, y);
    XorSelf(x);
    XorSwap(0, y);
    XorSelf(y);
    hide Xor;
  }

  /** No change of up to four consecutive bytes of a valid sector, in the payload, in the trailer
      or across both, gives another valid sector. */
  lemma SectorBurst(s: Bytes, now: Bytes, i: nat, k: nat)
    requires ValidSector(s) && |s| == |now| == SECTOR_SIZE && k <= 4 && i + k <= SECTOR_SIZE
    requires now[..i] == s[..i] && now[i + k..] == s[i + k..]
    ensures ValidSector(now) <==> now == s
  {
    hide *;
    BurstChanges(CRC32_INITIAL_VALUE, s, now, i, k);
    Residue(s);
    Residue(now);
  }

  /** Byte `k` of a number. */
  function ByteOf(x: bv32, k: nat): bv8
    requires k < 4
  {
    match k
    case 0 => (x & 0xFF) as bv8
    case 1 => ((x >> 8) & 0xFF) as bv8
    case 2 => ((x >> 16) & 0xFF) as bv8
    case 3 => ((x >> 24) & 0xFF) as bv8
  }

  lemma LowByte(x: bv32)
    ensures Mix(Up(x >> 8), (x & 0xFF) as bv8) == x
  {
  }

  lemma ShiftedTwice(x: bv32)
    ensures (x >> 8) >> 8 == x >> 16 && (x >> 16) >> 8 == x >> 24 && (x >> 24) >> 8 == 0
  {
  }

  lemma WordMore(b: bv8, data: Bytes)
    ensures WordOf([b] + data) == Mix(Up(WordOf(data)), b)
  {
    assert ([b] + data)[1..] == data;
  }

  lemma BytesOf(x: bv32)
    ensures WordOf([ByteOf(x, 0), ByteOf(x, 1), ByteOf(x, 2), ByteOf(x, 3)]) == x
  {
    LowByte(x);
    LowByte(x >> 8);
    LowByte(x >> 16);
    LowByte(x >> 24);
    ShiftedTwice(x);
    assert WordOf([]) == 0;
    hide Mix, Up, WordOf;
    WordMore(ByteOf(x, 3), []);
    WordMore(ByteOf(x, 2), [ByteOf(x, 3)]);
    WordMore(ByteOf(x, 1), [ByteOf(x, 2), ByteOf(x, 3)]);
    WordMore(ByteOf(x, 0), [ByteOf(x, 1), ByteOf(x, 2), ByteOf(x, 3)]);
    assert [ByteOf(x, 3)] + [] == [ByteOf(x, 3)];
    assert [ByteOf(x, 2)] + [ByteOf(x, 3)] == [ByteOf(x, 2), ByteOf(x, 3)];
    assert [ByteOf(x, 1)] + [ByteOf(x, 2), ByteOf(x, 3)] == [ByteOf(x, 1), ByteOf(x, 2), ByteOf(x, 3)];
    assert [ByteOf(x, 0)] + [ByteOf(x, 1), ByteOf(x, 2), ByteOf(x, 3)] == [ByteOf(x, 0), ByteOf(x, 1), ByteOf(x, 2), ByteOf(x, 3)];
  }

  /** Computes the trailer of a sector and puts it in place. */
  method SectorStamp(sector: array<bv8>)
    requires sector.Length == SECTOR_SIZE
    modifies sector
    ensures ValidSector(sector[..]) && sector[..SECTOR_PAYLOAD_BYTES] == old(sector[..SECTOR_PAYLOAD_BYTES])
  {
    hide Crc32, WordOf, ByteOf;
    var crc := Calculate(sector, SECTOR_PAYLOAD_BYTES);
    ghost var payload := sector[..SECTOR_PAYLOAD_BYTES];
    for k := 0 to 4
      invariant sector[..SECTOR_PAYLOAD_BYTES] == payload
      invariant forall j :: 0 <= j < k ==> sector[SECTOR_PAYLOAD_BYTES + j] == ByteOf(crc, j)
    {
      sector[SECTOR_PAYLOAD_BYTES + k] := ByteOf(crc, k);
    }
    BytesOf(crc);
    assert sector[..][..SECTOR_PAYLOAD_BYTES] == payload;
    assert sector[..][SECTOR_PAYLOAD_BYTES..] == [ByteOf(crc, 0), ByteOf(crc, 1), ByteOf(crc, 2), ByteOf(crc, 3)];
  }

  /** Checks the trailer of a sector. */
  method SectorCheck(sector: array<bv8>) returns (ok: bool)
    requires sector.Length == SECTOR_SIZE
    ensures ok <==> ValidSector(sector[..])
  {
    hide Crc32, WordOf;
    var crc := Calculate(sector, SECTOR_PAYLOAD_BYTES);
    assert sector[..][..SECTOR_PAYLOAD_BYTES] == sector[..SECTOR_PAYLOAD_BYTES];
    assert sector[..][SECTOR_PAYLOAD_BYTES..] == sector[SECTOR_PAYLOAD_BYTES..];
    ok := WordOf(sector[SECTOR_PAYLOAD_BYTES..]) == crc;
  }
}
