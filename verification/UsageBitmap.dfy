/** The usage bitmap: 32-bit words in RAM, the last word of every sector being the sector's CRC
    trailer, and a copy of the same bits on the card. */
module UsageBitmaps {
  import opened Layout
  import opened StorageCard

  /** A 32-bit word as its bits, lowest first. */
  type Word = w: seq<bool> | |w| == BITS_PER_WORD
    witness seq(BITS_PER_WORD, _ => false)

  // Data sector -> word of the flat RAM array, and bit within that word.
  function FindIndex(d: nat): nat {
    d / USAGE_BITS_PER_SECTOR * WORDS_PER_SECTOR + d % USAGE_BITS_PER_SECTOR / BITS_PER_WORD
  }

  function FindBit(d: nat): nat { d % BITS_PER_WORD }

  // Word of the flat RAM array -> data sector of its bit 0.
  function WordStart(word: nat): nat {
    word / WORDS_PER_SECTOR * USAGE_BITS_PER_SECTOR + word % WORDS_PER_SECTOR * BITS_PER_WORD
  }

  predicate IsCrcWord(word: nat) {
    word % WORDS_PER_SECTOR >= USAGE_WORDS_PER_SECTOR
  }

  /** The two address maps are inverse to each other, and no data sector lands on a CRC word. */
  lemma AddressInverse(d: nat)
    requires d < TOTAL_BITS
    ensures FindIndex(d) < BITMAP_SECTORS * WORDS_PER_SECTOR && !IsCrcWord(FindIndex(d))
    ensures WordStart(FindIndex(d)) + FindBit(d) == d
  {
  }

  /** Bit `i` of bitmap sector `k`, as a data sector and as a word and bit in RAM. */
  lemma SectorAddress(k: nat, i: nat)
    requires i < USAGE_BITS_PER_SECTOR && k < BITMAP_SECTORS
    ensures k * USAGE_BITS_PER_SECTOR + i < TOTAL_BITS
    ensures (k * USAGE_BITS_PER_SECTOR + i) / USAGE_BITS_PER_SECTOR == k
    ensures (k * USAGE_BITS_PER_SECTOR + i) % USAGE_BITS_PER_SECTOR == i
    ensures FindIndex(k * USAGE_BITS_PER_SECTOR + i) == k * WORDS_PER_SECTOR + i / BITS_PER_WORD
    ensures FindBit(k * USAGE_BITS_PER_SECTOR + i) == i % BITS_PER_WORD
  {
  }

  lemma WordSlice(d: nat)
    ensures FindIndex(d) / WORDS_PER_SECTOR == d / USAGE_BITS_PER_SECTOR
    ensures d % USAGE_BITS_PER_SECTOR == FindIndex(d) % WORDS_PER_SECTOR * BITS_PER_WORD + FindBit(d)
    ensures !IsCrcWord(FindIndex(d))
  {
    var k, e := d / USAGE_BITS_PER_SECTOR, d % USAGE_BITS_PER_SECTOR / BITS_PER_WORD;
    assert FindIndex(d) == k * WORDS_PER_SECTOR + e && e < USAGE_WORDS_PER_SECTOR;
  }

  lemma WordInverse(word: nat, bit: nat)
    requires word < BITMAP_SECTORS * WORDS_PER_SECTOR && !IsCrcWord(word) && bit < BITS_PER_WORD
    ensures WordStart(word) + bit < TOTAL_BITS
    ensures FindIndex(WordStart(word) + bit) == word && FindBit(WordStart(word) + bit) == bit
  {
    var k, e := word / WORDS_PER_SECTOR, word % WORDS_PER_SECTOR;
    var d := WordStart(word) + bit;
    assert d / USAGE_BITS_PER_SECTOR == k && d % USAGE_BITS_PER_SECTOR == e * BITS_PER_WORD + bit;
  }

  /** The words of a bitmap sector follow each other, and the CRC word takes no data sectors. */
  lemma NextWord(word: nat)
    ensures WordStart(word + 1) == if IsCrcWord(word) then WordStart(word) else WordStart(word) + BITS_PER_WORD
  {
    var k, e := word / WORDS_PER_SECTOR, word % WORDS_PER_SECTOR;
    if e == WORDS_PER_SECTOR - 1 {
      assert word + 1 == (k + 1) * WORDS_PER_SECTOR;
      assert (word + 1) / WORDS_PER_SECTOR == k + 1 && (word + 1) % WORDS_PER_SECTOR == 0;
    } else {
      assert word + 1 == k * WORDS_PER_SECTOR + (e + 1);
      assert (word + 1) / WORDS_PER_SECTOR == k && (word + 1) % WORDS_PER_SECTOR == e + 1;
    }
  }

  /** The bits of one bitmap sector. */
  function SectorBits(bits: seq<bool>, k: nat): seq<bool>
    requires |bits| == TOTAL_BITS && k < BITMAP_SECTORS
  {
    bits[k * USAGE_BITS_PER_SECTOR..(k + 1) * USAGE_BITS_PER_SECTOR]
  }

  predicate BitmapShaped(s: Sector) {
    s.Garbage? || (s.BitmapSector? && |s.bits| == USAGE_BITS_PER_SECTOR)
  }

  /** The card's bitmap sectors hold exactly `bits`. */
  predicate BitmapOnCard(card: Card, bits: seq<bool>) {
    && |bits| == TOTAL_BITS
    && forall k :: 0 <= k < BITMAP_SECTORS ==> card[BITMAP_START + k] == BitmapSector(SectorBits(bits, k))
  }

  // A word without its lowest bits, and its lowest set bit.
  function ClearBelow(w: Word, n: nat): Word {
    seq(BITS_PER_WORD, i requires 0 <= i < BITS_PER_WORD => i >= n && w[i])
  }

  method LowestSet(w: Word) returns (bit: nat)
    requires true in w
    ensures bit < BITS_PER_WORD && w[bit] && forall j :: 0 <= j < bit ==> !w[j]
  {
    bit := 0;
    while !w[bit]
      invariant bit < BITS_PER_WORD && forall j :: 0 <= j < bit ==> !w[j]
      decreases BITS_PER_WORD - bit
    {
      if bit == BITS_PER_WORD - 1 { assert false; }
      bit := bit + 1;
    }
  }

  class UsageBitmap {
    const words: array<Word>
    ghost var bits: seq<bool>

    ghost predicate Valid()
      reads this, words
    {
      && words.Length == BITMAP_SECTORS * WORDS_PER_SECTOR
      && |bits| == TOTAL_BITS
      && forall d :: 0 <= d < TOTAL_BITS ==> bits[d] == words[FindIndex(d)][FindBit(d)]
    }

    constructor ()
      ensures Valid() && fresh(words)
      ensures bits == seq(TOTAL_BITS, _ => false)
    {
      words := new Word[BITMAP_SECTORS * WORDS_PER_SECTOR](_ => seq(BITS_PER_WORD, _ => false));
      bits := seq(TOTAL_BITS, _ => false);
    }

    /** The usage bits of one sector, as its words hold them. */
    function SectorInRam(k: nat): seq<bool>
      requires words.Length == BITMAP_SECTORS * WORDS_PER_SECTOR && k < BITMAP_SECTORS
      reads words
    {
      seq(USAGE_BITS_PER_SECTOR, i requires 0 <= i < USAGE_BITS_PER_SECTOR reads words =>
          words[k * WORDS_PER_SECTOR + i / BITS_PER_WORD][i % BITS_PER_WORD])
    }

    lemma SectorIsBits(k: nat)
      requires Valid() && k < BITMAP_SECTORS
      ensures SectorInRam(k) == SectorBits(bits, k)
    {
      forall i | 0 <= i < USAGE_BITS_PER_SECTOR
        ensures SectorInRam(k)[i] == SectorBits(bits, k)[i]
      {
        SectorAddress(k, i);
        assert SectorBits(bits, k)[i] == bits[k * USAGE_BITS_PER_SECTOR + i];
      }
    }

    method CheckUsageBit(d: nat) returns (used: bool)
      requires Valid() && d < TOTAL_BITS
      ensures used == bits[d]
    {
      AddressInverse(d);
      used := words[FindIndex(d)][FindBit(d)];
    }

    /** Sets one bit in RAM, restamps the sector's CRC word and writes the sector out. */
    method UpdateUsageBit(storage: Storage, d: nat, used: bool)
      requires Valid() && d < TOTAL_BITS && BitmapOnCard(storage.sectors, bits)
      modifies this, words, storage
      ensures Valid() && bits == old(bits)[d := used] && BitmapOnCard(storage.sectors, bits)
      ensures var w := Write(RawBitmap(d), BitmapSector(SectorBits(bits, d / USAGE_BITS_PER_SECTOR)));
              storage.log == old(storage.log) + [w] && storage.sectors == old(storage.sectors)[w.index := w.sector]
    {
      var k := d / USAGE_BITS_PER_SECTOR;
      SetBit(d, used);
      SectorIsBits(k);
      storage.WriteSector(RawBitmap(d), BitmapSector(SectorInRam(k)));
      hide Valid, SectorInRam;
      forall j | 0 <= j < BITMAP_SECTORS && j != k
        ensures SectorBits(bits, j) == SectorBits(old(bits), j)
      {
      }
    }

    /** Sets one bit in RAM; the sector's CRC word changes with it. */
    method SetBit(d: nat, used: bool)
      requires Valid() && d < TOTAL_BITS
      modifies this, words
      ensures Valid() && bits == old(bits)[d := used]
    {
      AddressInverse(d);
      BitPlaces(d);
      hide FindIndex, FindBit, WordStart, IsCrcWord;
      var crc: Word := *;
      words[d / USAGE_BITS_PER_SECTOR * WORDS_PER_SECTOR + USAGE_WORDS_PER_SECTOR] := crc;
      words[FindIndex(d)] := words[FindIndex(d)][FindBit(d) := used];
      bits := bits[d := used];
      forall e | 0 <= e < TOTAL_BITS
        ensures bits[e] == words[FindIndex(e)][FindBit(e)]
      {
        AddressInverse(e);
        BitPlaces(e);
      }
    }

    /** Reads the whole bitmap into RAM; fails if a sector's CRC does not match. */
    method ReadUsageBitmap(storage: Storage) returns (ok: bool)
      requires words.Length == BITMAP_SECTORS * WORDS_PER_SECTOR
      requires forall a :: BITMAP_START <= a < DATA_START ==> BitmapShaped(storage.sectors[a])
      modifies this, words
      ensures ok <==> forall a :: BITMAP_START <= a < DATA_START ==> !storage.sectors[a].Garbage?
      ensures ok ==> Valid() && BitmapOnCard(storage.sectors, bits)
    {
      var s := storage.sectors[BITMAP_START..DATA_START];
      for a := BITMAP_START to DATA_START
        invariant forall b :: BITMAP_START <= b < a ==> !storage.sectors[b].Garbage?
      {
        if storage.sectors[a].Garbage? {
          return false;
        }
      }
      assert forall k :: 0 <= k < BITMAP_SECTORS ==> s[k] == storage.sectors[BITMAP_START + k];
      bits := seq(TOTAL_BITS, d requires 0 <= d < TOTAL_BITS => s[d / USAGE_BITS_PER_SECTOR].bits[d % USAGE_BITS_PER_SECTOR]);
      LoadWords(s);
      hide SectorBits;
      SectorsToBits(s, bits);
      return true;
    }

    /** Copies the words of the bitmap sectors; what comes in for their CRC words does not matter. */
    method LoadWords(s: seq<Sector>)
      requires words.Length == BITMAP_SECTORS * WORDS_PER_SECTOR && |bits| == TOTAL_BITS
      requires |s| == BITMAP_SECTORS && forall k :: 0 <= k < BITMAP_SECTORS ==> s[k].BitmapSector? && |s[k].bits| == USAGE_BITS_PER_SECTOR
      requires forall d :: 0 <= d < TOTAL_BITS ==> bits[d] == s[d / USAGE_BITS_PER_SECTOR].bits[d % USAGE_BITS_PER_SECTOR]
      modifies words
      ensures Valid()
    {
      for word := 0 to BITMAP_SECTORS * WORDS_PER_SECTOR
        invariant forall d :: 0 <= d < TOTAL_BITS && FindIndex(d) < word ==> bits[d] == words[FindIndex(d)][FindBit(d)]
      {
        var k, e := word / WORDS_PER_SECTOR, word % WORDS_PER_SECTOR;
        if IsCrcWord(word) {
          words[word] := *;
        } else {
          words[word] := s[k].bits[e * BITS_PER_WORD..(e + 1) * BITS_PER_WORD];
        }
        forall d | 0 <= d < TOTAL_BITS && FindIndex(d) == word
          ensures bits[d] == words[word][FindBit(d)]
        {
          WordSlice(d);
        }
      }
      forall d | 0 <= d < TOTAL_BITS
        ensures bits[d] == words[FindIndex(d)][FindBit(d)]
      {
        AddressInverse(d);
      }
    }

    /** Every set bit of word `word` from bit `lo` on is at or past bit `hi`. */
    lemma WordClear(word: nat, lo: nat, hi: nat)
      requires Valid() && word < BITMAP_SECTORS * WORDS_PER_SECTOR && !IsCrcWord(word) && hi <= BITS_PER_WORD
      requires forall j :: lo <= j < hi ==> !words[word][j]
      ensures WordStart(word) + hi <= TOTAL_BITS
      ensures forall d :: WordStart(word) + lo <= d < WordStart(word) + hi ==> !bits[d]
    {
      WordInverse(word, BITS_PER_WORD - 1);
      forall d | WordStart(word) + lo <= d < WordStart(word) + hi
        ensures !bits[d]
      {
        WordInverse(word, d - WordStart(word));
      }
    }

    /** The first set bit of word `word` from bit `lo` on. */
    method FirstInWord(word: nat, lo: nat) returns (hit: bool, bit: nat)
      requires Valid() && word < BITMAP_SECTORS * WORDS_PER_SECTOR && !IsCrcWord(word) && lo < BITS_PER_WORD
      ensures WordStart(word) + BITS_PER_WORD <= TOTAL_BITS
      ensures hit ==> lo <= bit < BITS_PER_WORD && bits[WordStart(word) + bit]
                      && forall d :: WordStart(word) + lo <= d < WordStart(word) + bit ==> !bits[d]
      ensures !hit ==> forall d :: WordStart(word) + lo <= d < WordStart(word) + BITS_PER_WORD ==> !bits[d]
    {
      var w := words[word];
      if lo > 0 {
        w := ClearBelow(w, lo);
      }
      assert forall j :: lo <= j < BITS_PER_WORD ==> w[j] == words[word][j];
      hide WordStart, IsCrcWord, ClearBelow;
      WordInverse(word, BITS_PER_WORD - 1);
      hit, bit := true in w, 0;
      if hit {
        bit := LowestSet(w);
        WordClear(word, lo, bit);
        WordInverse(word, bit);
      } else {
        assert forall j :: lo <= j < BITS_PER_WORD ==> w[j] in w;
        WordClear(word, lo, BITS_PER_WORD);
      }
    }

    lemma BitsSize()
      requires Valid()
      ensures |bits| == TOTAL_BITS
    {
    }

    /** The first set bit from `cur` on, looking no further than the word that holds `lim`. */
    method GetNextBit(cur: nat, lim: nat) returns (found: nat)
      requires Valid() && cur <= lim < TOTAL_BITS
      ensures found == NIL ==> forall d :: cur <= d <= lim ==> !bits[d]
      ensures found != NIL ==> cur <= found < TOTAL_BITS && bits[found] && forall d :: cur <= d < found ==> !bits[d]
    {
      ScanEnds(cur, lim);
      BitsSize();
      hide Valid, FindIndex, FindBit, WordStart, IsCrcWord;
      var first, last := FindIndex(cur), FindIndex(lim);
      var word := first;
      ghost var start := WordStart(word);
      while word <= last
        invariant first <= word <= last + 1
        invariant start == WordStart(word) && (word == first ==> start + FindBit(cur) == cur)
        invariant word > first ==> cur <= start && start <= TOTAL_BITS
        invariant word > first ==> forall d :: cur <= d < start ==> !bits[d]
      {
        NextWord(word);
        if !IsCrcWord(word) {
          var hit, bit := FirstInWord(word, if word == first then FindBit(cur) else 0);
          if hit {
            return WordStart(word) + bit;
          }
        }
        word := word + 1;
        start := WordStart(word);
      }
      EndOfScan(lim);
      return NIL;
    }
  }

  /** The CRC word of a bit's sector is none of the words that hold bits. */
  lemma BitPlaces(d: nat)
    requires d < TOTAL_BITS
    ensures FindBit(d) < BITS_PER_WORD
    ensures var crc := d / USAGE_BITS_PER_SECTOR * WORDS_PER_SECTOR + USAGE_WORDS_PER_SECTOR;
      crc < BITMAP_SECTORS * WORDS_PER_SECTOR && IsCrcWord(crc)
  {
  }

  lemma SectorsToBits(s: seq<Sector>, bits: seq<bool>)
    requires |s| == BITMAP_SECTORS && forall k :: 0 <= k < BITMAP_SECTORS ==> s[k].BitmapSector? && |s[k].bits| == USAGE_BITS_PER_SECTOR
    requires |bits| == TOTAL_BITS
    requires forall d :: 0 <= d < TOTAL_BITS ==> bits[d] == s[d / USAGE_BITS_PER_SECTOR].bits[d % USAGE_BITS_PER_SECTOR]
    ensures forall k :: 0 <= k < BITMAP_SECTORS ==> s[k] == BitmapSector(SectorBits(bits, k))
  {
    forall k | 0 <= k < BITMAP_SECTORS
      ensures s[k] == BitmapSector(SectorBits(bits, k))
    {
      forall i | 0 <= i < USAGE_BITS_PER_SECTOR
        ensures s[k].bits[i] == SectorBits(bits, k)[i]
      {
        SectorAddress(k, i);
        assert SectorBits(bits, k)[i] == bits[k * USAGE_BITS_PER_SECTOR + i];
      }
      assert s[k].bits == SectorBits(bits, k);
    }
  }

  lemma ScanEnds(cur: nat, lim: nat)
    requires cur <= lim < TOTAL_BITS
    ensures FindIndex(cur) <= FindIndex(lim) < BITMAP_SECTORS * WORDS_PER_SECTOR && FindBit(cur) < BITS_PER_WORD
    ensures WordStart(FindIndex(cur)) + FindBit(cur) == cur && !IsCrcWord(FindIndex(cur))
  {
    AddressInverse(cur);
    AddressInverse(lim);
  }

  lemma EndOfScan(lim: nat)
    requires lim < TOTAL_BITS
    ensures lim < WordStart(FindIndex(lim) + 1)
  {
    AddressInverse(lim);
    NextWord(FindIndex(lim));
  }
}
