/** What every operation that goes through the journal needs and does. */
module Transactions {
  import opened Layout
  import opened StorageCard
  import opened JournalLog
  import opened UsageBitmaps
  import opened Journals
  import opened CrashSafety

  /** Between operations: RAM and card hold the same bitmap, no entry is armed, and the card
      has received the session's transactions and nothing else. */
  ghost predicate Ready(storage: Storage, journal: Journal, bitmap: UsageBitmap)
    reads storage, journal, journal.storage, bitmap, bitmap.words
  {
    && journal.storage == storage
    && bitmap.Valid()
    && BitmapOnCard(storage.sectors, bitmap.bits)
    && Clean(storage.sectors)
    && journal.Session()
  }

  lemma ReadyFacts(storage: Storage, journal: Journal, bitmap: UsageBitmap)
    requires Ready(storage, journal, bitmap)
    ensures bitmap.Valid() && |bitmap.bits| == TOTAL_BITS
  {
  }

  lemma ReadyClean(storage: Storage, journal: Journal, bitmap: UsageBitmap)
    requires Ready(storage, journal, bitmap)
    ensures Clean(storage.sectors) && BitmapOnCard(storage.sectors, bitmap.bits)
  {
  }

  /** Every other data sector, and every other bit, is as it was. */
  predicate OnlySector(was: Card, wasBits: seq<bool>, now: Card, nowBits: seq<bool>, d: nat) {
    && |wasBits| == TOTAL_BITS && |nowBits| == TOTAL_BITS
    && (forall a :: DATA_START <= a < CARD_SECTORS && a != RawData(d) ==> now[a] == was[a])
    && (forall e :: 0 <= e < TOTAL_BITS && e != d ==> nowBits[e] == wasBits[e])
  }

  /** The sectors of the history rings are as they were. */
  predicate RingsSame(was: Card, now: Card) {
    forall a :: RawData(MESSAGE_HISTORY_START) <= a < CARD_SECTORS ==> now[a] == was[a]
  }

  lemma RingsKept(card: Card)
    ensures RingsSame(card, card)
  {
  }

  /** An operation on sectors in front of the rings. */
  lemma RingsBehind(was: Card, now: Card, a: nat, b: nat)
    requires a < RawData(MESSAGE_HISTORY_START) && b < RawData(MESSAGE_HISTORY_START)
    requires forall x :: DATA_START <= x < CARD_SECTORS && x != a && x != b ==> now[x] == was[x]
    ensures RingsSame(was, now)
  {
  }

  lemma RingsTwice(was: Card, mid: Card, now: Card)
    requires RingsSame(was, mid) && RingsSame(mid, now)
    ensures RingsSame(was, now)
  {
  }

  lemma Composed(was: Card, armed: Card, changed: Card, now: Card, log: seq<Write>, tx: Tx)
    requires TxOk(was, tx)
    requires var add := AddWrites(tx.kind, tx.sector, tx.content, tx.usage); InRange(add) && armed == Apply(was, add)
    requires InRange(tx.body) && changed == Apply(armed, tx.body)
    requires var commit := CommitWrites(tx.kind, tx.sector, tx.twice); InRange(commit) && now == Apply(changed, commit)
    ensures InRange(TxWrites(tx)) && now == Apply(was, TxWrites(tx))
    ensures log + AddWrites(tx.kind, tx.sector, tx.content, tx.usage) + tx.body
            + CommitWrites(tx.kind, tx.sector, tx.twice) == log + TxWrites(tx)
  {
    var add := AddWrites(tx.kind, tx.sector, tx.content, tx.usage);
    var commit := CommitWrites(tx.kind, tx.sector, tx.twice);
    BodyTouches(tx);
    ApplyAppend(was, add, tx.body);
    ApplyAppend(was, add + tx.body, commit);
  }

  /** The bitmap sector that holds the bit of data sector `d`. */
  function UsageSector(bits: seq<bool>, d: nat): Sector
    requires |bits| == TOTAL_BITS && d < TOTAL_BITS
  {
    BitmapSector(SectorBits(bits, d / USAGE_BITS_PER_SECTOR))
  }

  lemma UsedIsBit(card: Card, bits: seq<bool>, d: nat)
    requires BitmapOnCard(card, bits) && d < MESSAGE_HISTORY_START
    ensures UsedBit(card, d) == InView(card, d) == bits[d]
  {
    var k := d / USAGE_BITS_PER_SECTOR;
    assert card[BITMAP_START + k] == BitmapSector(SectorBits(bits, k));
    assert SectorBits(bits, k)[d % USAGE_BITS_PER_SECTOR] == bits[d];
  }

  lemma FlipIsOneBit(bits: seq<bool>, d: nat, used: bool)
    requires |bits| == TOTAL_BITS && d < TOTAL_BITS
    ensures OneBit(UsageSector(bits, d), UsageSector(bits[d := used], d), d % USAGE_BITS_PER_SECTOR)
  {
    var k := d / USAGE_BITS_PER_SECTOR;
    var b, a := SectorBits(bits, k), SectorBits(bits[d := used], k);
    forall i | 0 <= i < USAGE_BITS_PER_SECTOR && i != d % USAGE_BITS_PER_SECTOR
      ensures b[i] == a[i]
    {
      assert k * USAGE_BITS_PER_SECTOR + i != d;
    }
  }

  lemma BitmapUpdated(card: Card, bits: seq<bool>, d: nat, used: bool)
    requires BitmapOnCard(card, bits) && d < TOTAL_BITS
    ensures BitmapOnCard(card[RawBitmap(d) := UsageSector(bits[d := used], d)], bits[d := used])
  {
    var now, nowBits := card[RawBitmap(d) := UsageSector(bits[d := used], d)], bits[d := used];
    forall k | 0 <= k < BITMAP_SECTORS
      ensures now[BITMAP_START + k] == BitmapSector(SectorBits(nowBits, k))
    {
      if k != d / USAGE_BITS_PER_SECTOR {
        var lo, hi := k * USAGE_BITS_PER_SECTOR, (k + 1) * USAGE_BITS_PER_SECTOR;
        assert d < lo || d >= hi;
        assert nowBits[lo..hi] == bits[lo..hi];
        assert card[BITMAP_START + k] == BitmapSector(SectorBits(bits, k));
      }
    }
  }

  lemma BitmapKept(card: Card, now: Card, bits: seq<bool>)
    requires BitmapOnCard(card, bits)
    requires forall a :: BITMAP_START <= a < DATA_START ==> now[a] == card[a]
    ensures BitmapOnCard(now, bits)
  {
    forall k | 0 <= k < BITMAP_SECTORS
      ensures now[BITMAP_START + k] == BitmapSector(SectorBits(bits, k))
    {
      assert card[BITMAP_START + k] == BitmapSector(SectorBits(bits, k));
    }
  }

  /** The shape every transaction of the database has: after the save, set or clear the bit of
      sector `d`, or leave the bitmap alone; then rewrite the sector, or leave it alone. */
  function OpTx(kind: SectorKind, bits: seq<bool>, d: nat, content: Sector,
                bit: Option<bool>, rewrite: Option<Sector>, twice: bool): Tx
    requires |bits| == TOTAL_BITS && KindInRange(kind, d) && (IsHistory(kind) ==> bit.None?)
  {
    Tx(kind, d, content, UsageOf(bits, kind, d), OpBody(bits, d, bit, rewrite), twice)
  }

  function OpBody(bits: seq<bool>, d: nat, bit: Option<bool>, rewrite: Option<Sector>): seq<Write>
    requires |bits| == TOTAL_BITS && (bit.Some? ==> d < TOTAL_BITS)
  {
    (match bit case None => [] case Some(used) => [Write(RawBitmap(d), UsageSector(bits[d := used], d))]) +
    (match rewrite case None => [] case Some(s) => [Write(RawData(d), s)])
  }

  /** What an operation must know about its sector before it starts such a transaction. */
  predicate OpOk(card: Card, kind: SectorKind, bits: seq<bool>, d: nat, content: Sector,
                 bit: Option<bool>, rewrite: Option<Sector>) {
    && Clean(card) && BitmapOnCard(card, bits) && KindInRange(kind, d)
    && (IsHistory(kind) ==> bit.None?)
    && (kind == RemoveKind ==> rewrite.None?)
    && (kind != RemoveKind ==> !content.Garbage?)
    && (kind != RemoveKind && (IsHistory(kind) || bits[d]) ==> content == card[RawData(d)])
    && (bit == Some(true) && !bits[d] ==> rewrite.Some?)
  }

  lemma OpTxOk(card: Card, kind: SectorKind, bits: seq<bool>, d: nat, content: Sector,
               bit: Option<bool>, rewrite: Option<Sector>, twice: bool)
    requires OpOk(card, kind, bits, d, content, bit, rewrite)
    ensures TxOk(card, OpTx(kind, bits, d, content, bit, rewrite, twice))
  {
    OpBodyOk(card, kind, bits, d, content, bit, rewrite, twice);
    BodyTouches(OpTx(kind, bits, d, content, bit, rewrite, twice));
    ComesIntoUse(card, kind, bits, d, content, bit, rewrite, twice);
    OpSaved(card, kind, bits, d, content, bit, rewrite);
    hide BodyOk, OpBody, BitmapOnCard, UsedBit, OpOk, Clean, InView;
  }

  lemma OpBodyOk(card: Card, kind: SectorKind, bits: seq<bool>, d: nat, content: Sector,
                 bit: Option<bool>, rewrite: Option<Sector>, twice: bool)
    requires OpOk(card, kind, bits, d, content, bit, rewrite)
    ensures BodyOk(OpTx(kind, bits, d, content, bit, rewrite, twice))
  {
    if bit.Some? { FlipIsOneBit(bits, d, bit.value); }
    hide OneBit, BitmapOnCard, UsageSector;
  }

  /** The journal saves what the card holds. */
  lemma OpSaved(card: Card, kind: SectorKind, bits: seq<bool>, d: nat, content: Sector, bit: Option<bool>, rewrite: Option<Sector>)
    requires OpOk(card, kind, bits, d, content, bit, rewrite)
    ensures Clean(card) && (kind != RemoveKind ==> !content.Garbage?)
    ensures !IsHistory(kind) ==> UsageOf(bits, kind, d) == card[RawBitmap(d)] && !UsageOf(bits, kind, d).Garbage?
    ensures kind != RemoveKind && InView(card, d) ==> content == card[RawData(d)]
  {
    if !IsHistory(kind) {
      UsedIsBit(card, bits, d);
      assert card[BITMAP_START + d / USAGE_BITS_PER_SECTOR] == BitmapSector(SectorBits(bits, d / USAGE_BITS_PER_SECTOR));
    }
  }

  /** Only a sector that is rewritten comes into use. */
  lemma ComesIntoUse(card: Card, kind: SectorKind, bits: seq<bool>, d: nat, content: Sector,
                     bit: Option<bool>, rewrite: Option<Sector>, twice: bool)
    requires OpOk(card, kind, bits, d, content, bit, rewrite)
    requires InRange(OpBody(bits, d, bit, rewrite))
    ensures InView(Apply(card, OpBody(bits, d, bit, rewrite)), d) && !InView(card, d) ==>
      exists w <- OpBody(bits, d, bit, rewrite) :: w.index == RawData(d)
  {
    var body := OpBody(bits, d, bit, rewrite);
    if rewrite.Some? {
      assert Write(RawData(d), rewrite.value) in body;
    } else if bit.Some? {
      ApplyOne(card, body[0]);
      BitmapUpdated(card, bits, d, bit.value);
      hide BitmapOnCard, UsageSector, UsedBit, OneBit;
      UsedIsBit(Apply(card, body), bits[d := bit.value], d);
      UsedIsBit(card, bits, d);
    }
  }

  lemma BodyApplies(card: Card, bits: seq<bool>, d: nat, bit: Option<bool>, rewrite: Option<Sector>)
    requires |bits| == TOTAL_BITS && (bit.Some? ==> d < TOTAL_BITS) && d < DATA_SECTORS
    ensures InRange(OpBody(bits, d, bit, rewrite))
    ensures Apply(card, OpBody(bits, d, bit, rewrite)) ==
            var flipped := if bit.None? then card else card[RawBitmap(d) := UsageSector(bits[d := bit.value], d)];
            if rewrite.None? then flipped else flipped[RawData(d) := rewrite.value]
  {
    var first := if bit.None? then [] else [Write(RawBitmap(d), UsageSector(bits[d := bit.value], d))];
    var second := if rewrite.None? then [] else [Write(RawData(d), rewrite.value)];
    assert OpBody(bits, d, bit, rewrite) == first + second;
    ApplyAppend(card, first, second);
  }

  method InPlace(storage: Storage, bitmap: UsageBitmap, d: nat, bit: Option<bool>, rewrite: Option<Sector>)
    requires bitmap.Valid() && BitmapOnCard(storage.sectors, bitmap.bits)
    requires d < DATA_SECTORS && (bit.Some? ==> d < TOTAL_BITS)
    modifies storage, bitmap, bitmap.words
    ensures bitmap.Valid() && BitmapOnCard(storage.sectors, bitmap.bits)
    ensures bitmap.bits == if bit.Some? then old(bitmap.bits)[d := bit.value] else old(bitmap.bits)
    ensures storage.log == old(storage.log) + OpBody(old(bitmap.bits), d, bit, rewrite)
    ensures InRange(OpBody(old(bitmap.bits), d, bit, rewrite))
    ensures storage.sectors == Apply(old(storage.sectors), OpBody(old(bitmap.bits), d, bit, rewrite))
    ensures forall a :: DATA_START <= a < CARD_SECTORS && a != RawData(d) ==> storage.sectors[a] == old(storage.sectors)[a]
    ensures storage.sectors[RawData(d)] == if rewrite.Some? then rewrite.value else old(storage.sectors)[RawData(d)]
    ensures storage.sectors[JOURNAL_HEADER] == old(storage.sectors)[JOURNAL_HEADER]
  {
    BodyApplies(storage.sectors, bitmap.bits, d, bit, rewrite);
    if bit.Some? {
      bitmap.UpdateUsageBit(storage, d, bit.value);
    }
    if rewrite.Some? {
      BitmapKept(storage.sectors, storage.sectors[RawData(d) := rewrite.value], bitmap.bits);
      storage.WriteSector(RawData(d), rewrite.value);
    }
  }

  method Commit(storage: Storage, journal: Journal, ghost kind: SectorKind, ghost d: nat, twice: bool)
    requires journal.storage == storage && journal.header == Header(Active, kind, d)
    modifies storage, journal`header
    ensures storage.log == old(storage.log) + CommitWrites(kind, d, twice)
    ensures InRange(CommitWrites(kind, d, twice))
    ensures storage.sectors == Apply(old(storage.sectors), CommitWrites(kind, d, twice))
    ensures storage.sectors == old(storage.sectors)[JOURNAL_HEADER := Header(Committed, kind, d)]
  {
    ghost var commit := Write(JOURNAL_HEADER, Header(Committed, kind, d));
    ApplyOne(storage.sectors, commit);
    journal.Free();
    if twice {
      ApplyAppend(old(storage.sectors), [commit], [commit]);
      ApplyOne(storage.sectors, commit);
      journal.Free();
      assert CommitWrites(kind, d, twice) == [commit] + [commit];
    }
  }

  method Perform(storage: Storage, journal: Journal, bitmap: UsageBitmap, kind: SectorKind, d: nat,
                 content: Sector, bit: Option<bool>, rewrite: Option<Sector>, twice: bool)
    requires journal.storage == storage && bitmap.Valid() && BitmapOnCard(storage.sectors, bitmap.bits)
    requires OpOk(storage.sectors, kind, bitmap.bits, d, content, bit, rewrite)
    modifies storage, journal`header, bitmap, bitmap.words
    ensures bitmap.Valid() && BitmapOnCard(storage.sectors, bitmap.bits) && Clean(storage.sectors)
    ensures var tx := OpTx(kind, old(bitmap.bits), d, content, bit, rewrite, twice);
            TxOk(old(storage.sectors), tx) && InRange(TxWrites(tx)) &&
            storage.sectors == Apply(old(storage.sectors), TxWrites(tx)) &&
            storage.log == old(storage.log) + TxWrites(tx)
    ensures bitmap.bits == if bit.Some? then old(bitmap.bits)[d := bit.value] else old(bitmap.bits)
    ensures forall a :: DATA_START <= a < CARD_SECTORS && a != RawData(d) ==> storage.sectors[a] == old(storage.sectors)[a]
    ensures storage.sectors[RawData(d)] == if rewrite.Some? then rewrite.value else old(storage.sectors)[RawData(d)]
  {
    hide TxOk, UsageBitmap.Valid, TxWrites, AddWrites, CommitWrites, OpBody, UsageSector;
    ghost var tx := OpTx(kind, bitmap.bits, d, content, bit, rewrite, twice);
    OpTxOk(storage.sectors, kind, bitmap.bits, d, content, bit, rewrite, twice);
    journal.Add(kind, d, content, bitmap);
    ghost var armed := storage.sectors;
    BitmapKept(old(storage.sectors), armed, bitmap.bits);
    InPlace(storage, bitmap, d, bit, rewrite);
    ghost var changed := storage.sectors;
    Commit(storage, journal, kind, d, twice);
    BitmapKept(changed, storage.sectors, bitmap.bits);
    Composed(old(storage.sectors), armed, changed, storage.sectors, old(storage.log), tx);
  }

  /** Runs one such transaction: save, arm, change in place, commit. */
  method Transact(storage: Storage, journal: Journal, bitmap: UsageBitmap, kind: SectorKind, d: nat,
                  content: Sector, bit: Option<bool>, rewrite: Option<Sector>, twice: bool)
    requires Ready(storage, journal, bitmap)
    requires OpOk(storage.sectors, kind, bitmap.bits, d, content, bit, rewrite)
    modifies storage, journal, bitmap, bitmap.words
    ensures Ready(storage, journal, bitmap)
    ensures journal.done == old(journal.done) + [OpTx(kind, old(bitmap.bits), d, content, bit, rewrite, twice)]
    ensures journal.cards == old(journal.cards) + [storage.sectors]
    ensures bitmap.bits == if bit.Some? then old(bitmap.bits)[d := bit.value] else old(bitmap.bits)
    ensures forall a :: DATA_START <= a < CARD_SECTORS && a != RawData(d) ==> storage.sectors[a] == old(storage.sectors)[a]
    ensures storage.sectors[RawData(d)] == if rewrite.Some? then rewrite.value else old(storage.sectors)[RawData(d)]
  {
    hide TxOk, TxWrites, BitmapOnCard, Clean, Chain, AllWrites;
    ghost var tx := OpTx(kind, bitmap.bits, d, content, bit, rewrite, twice);
    Perform(storage, journal, bitmap, kind, d, content, bit, rewrite, twice);
    journal.Record(tx, old(storage.sectors), old(storage.log));
  }
}
