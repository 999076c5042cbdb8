/** The rollback journal: a header sector, a saved data sector and a saved bitmap sector. */
module Journals {
  import opened Layout
  import opened StorageCard
  import opened JournalLog
  import opened UsageBitmaps
  import CrashSafety

  /** The bitmap sector saved with an entry; ring sectors have none. */
  function UsageOf(bits: seq<bool>, kind: SectorKind, sector: nat): Sector
    requires |bits| == TOTAL_BITS && KindInRange(kind, sector)
  {
    if IsHistory(kind) then Garbage(0) else BitmapSector(SectorBits(bits, sector / USAGE_BITS_PER_SECTOR))
  }

  class Journal {
    const storage: Storage
    // the header of the entry being written, kept so that `Free` can commit it
    var header: Sector
    // the session so far: the cards from the one the mount left to the present one, the
    // transactions between them, and what had been written before
    ghost var cards: seq<Card>
    ghost var done: seq<Tx>
    ghost var before: seq<Write>

    /** The session started from a clean card, its transactions led to the present one, and the
        card received exactly their writes: `SessionCut` covers a power cut at any of them. */
    ghost predicate Session()
      reads this, storage
    {
      && CrashSafety.Chain(cards, done)
      && CrashSafety.Clean(cards[0])
      && storage.sectors == cards[|done|]
      && storage.log == before + CrashSafety.AllWrites(done)
    }

    lemma SessionCut(n: nat, torn: Sector, mounts: seq<CrashSafety.CutMount>) returns (kept: nat)
      requires Session() && n <= |CrashSafety.AllWrites(done)|
      ensures InRange(CrashSafety.AllWrites(done))
      ensures var found := CrashSafety.Recover(CrashSafety.CutAt(cards[0], CrashSafety.AllWrites(done), n, torn), mounts);
              CrashSafety.Clean(found) && CrashSafety.KeptAt(cards[0], done, n, found, kept)
    {
      CrashSafety.ChainRan(cards, done);
      kept := CrashSafety.CutAnywhere(cards[0], storage.sectors, done, n, torn, mounts);
    }

    constructor (storage: Storage)
      ensures this.storage == storage && header == Header(Idle, ContactKind, 0)
    {
      this.storage := storage;
      header := Header(Idle, ContactKind, 0);
    }

    ghost method StartSession()
      requires CrashSafety.Clean(storage.sectors)
      modifies this`cards, this`before, this`done
      ensures Session() && cards == [storage.sectors] && done == []
    {
      cards, before, done := [storage.sectors], storage.log, [];
    }

    ghost method Record(tx: Tx, was: Card, wasLog: seq<Write>)
      requires CrashSafety.Chain(cards, done) && CrashSafety.Clean(cards[0])
      requires was == cards[|done|] && wasLog == before + CrashSafety.AllWrites(done)
      requires CrashSafety.TxOk(was, tx) && InRange(TxWrites(tx))
      requires storage.sectors == Apply(was, TxWrites(tx)) && storage.log == wasLog + TxWrites(tx)
      modifies this`cards, this`done
      ensures Session() && done == old(done) + [tx] && cards == old(cards) + [storage.sectors]
    {
      CrashSafety.ChainSize(cards, done);
      hide CrashSafety.Chain, CrashSafety.Clean, CrashSafety.TxOk, CrashSafety.TxStep, CrashSafety.AllWrites, TxWrites;
      CrashSafety.StepOf(was, tx, storage.sectors);
      CrashSafety.ChainAppend(cards, done, tx, storage.sectors);
      JoinLog(before, CrashSafety.AllWrites(done), TxWrites(tx));
      FirstKept(cards, storage.sectors);
      cards, done := cards + [storage.sectors], done + [tx];
    }

    /** Saves the old sector contents, then arms the journal. */
    method Add(kind: SectorKind, sector: nat, content: Sector, bitmap: UsageBitmap)
      requires bitmap.Valid() && KindInRange(kind, sector)
      modifies this`header, storage
      ensures header == Header(Active, kind, sector)
      ensures var ws := AddWrites(kind, sector, content, UsageOf(bitmap.bits, kind, sector));
              InRange(ws) && storage.log == old(storage.log) + ws && storage.sectors == Apply(old(storage.sectors), ws)
      ensures forall a :: BITMAP_START <= a < CARD_SECTORS ==> storage.sectors[a] == old(storage.sectors)[a]
    {
      ghost var was := storage.sectors;
      header := Header(Active, kind, sector);
      if !IsHistory(kind) {
        bitmap.SectorIsBits(sector / USAGE_BITS_PER_SECTOR);
        storage.WriteSector(JOURNAL_USAGE, BitmapSector(bitmap.SectorInRam(sector / USAGE_BITS_PER_SECTOR)));
      }
      if kind != RemoveKind {
        storage.WriteSector(JOURNAL_CONTENT, content);
      }
      storage.WriteSector(JOURNAL_HEADER, header);
      AddApplies(was, kind, sector, content, UsageOf(bitmap.bits, kind, sector));
    }

    /** Commits the entry. */
    method Free()
      requires header.HeaderSector?
      modifies this`header, storage
      ensures header == old(header).(state := Committed)
      ensures storage.log == old(storage.log) + [Write(JOURNAL_HEADER, header)]
      ensures storage.sectors == old(storage.sectors)[JOURNAL_HEADER := header]
    {
      header := header.(state := Committed);
      storage.WriteSector(JOURNAL_HEADER, header);
    }

    method HeaderInit()
      modifies storage
      ensures var w := Write(JOURNAL_HEADER, Header(Idle, ContactKind, 0));
              storage.log == old(storage.log) + [w] && storage.sectors == old(storage.sectors)[w.index := w.sector]
    {
      storage.WriteSector(JOURNAL_HEADER, Header(Idle, ContactKind, 0));
    }

    method GetStatus() returns (status: HeaderStatus)
      modifies this`header
      ensures status == Status(storage.sectors[JOURNAL_HEADER])
      ensures status in {HeaderValid, HeaderRollback} ==> header == storage.sectors[JOURNAL_HEADER]
      ensures status !in {HeaderValid, HeaderRollback} ==> header == old(header)
    {
      var read := storage.sectors[JOURNAL_HEADER];
      if read.Garbage? {
        return if read.firstWord == MAGIC_ZEROED || read.firstWord == MAGIC_ERASED then HeaderUninitialised else HeaderCorrupted;
      }
      if !read.HeaderSector? || read.magic != JOURNAL_MAGIC {
        return HeaderUninitialised;
      }
      header := read;
      return if read.state == Active then HeaderRollback else HeaderValid;
    }

    /** Writes the saved sectors back and commits; stops at a saved sector it cannot read. */
    method Rollback() returns (ok: bool)
      requires header == storage.sectors[JOURNAL_HEADER] && header.HeaderSector? && KindInRange(header.kind, header.sector)
      modifies this, storage
      ensures ok == RollbackReadable(old(storage.sectors))
      ensures ok ==> storage.log == old(storage.log) + RollbackWrites(old(storage.sectors))
      ensures ok ==> storage.sectors == Apply(old(storage.sectors), RollbackWrites(old(storage.sectors)))
      ensures ok ==> header == old(header).(state := Committed)
    {
      ghost var was := storage.sectors;
      RollbackApplies(was);
      if header.kind != RemoveKind {
        var content := storage.sectors[JOURNAL_CONTENT];
        if content.Garbage? {
          return false;
        }
        storage.WriteSector(RawData(header.sector), content);
      }
      if IsHistory(header.kind) {
        Free();
        return true;
      }
      var usage := storage.sectors[JOURNAL_USAGE];
      if usage.Garbage? {
        return false;
      }
      storage.WriteSector(RawBitmap(header.sector), usage);
      Free();
      return true;
    }

    /** What every mount does first. */
    method Init() returns (ok: bool)
      requires HeaderInRange(storage.sectors)
      modifies this, storage
      ensures ok == (match Status(old(storage.sectors)[JOURNAL_HEADER])
                     case HeaderCorrupted => false
                     case HeaderRollback => RollbackReadable(old(storage.sectors))
                     case _ => true)
      ensures ok ==> InRange(MountWrites(old(storage.sectors)))
      ensures ok ==> storage.log == old(storage.log) + MountWrites(old(storage.sectors))
      ensures ok ==> storage.sectors == Apply(old(storage.sectors), MountWrites(old(storage.sectors)))
      ensures ok ==> CrashSafety.Clean(storage.sectors) && Session() && done == []
    {
      MountInRange(storage.sectors);
      var status := GetStatus();
      match status {
        case HeaderCorrupted =>
          ok := false;
        case HeaderUninitialised =>
          HeaderInit();
          ok := true;
        case HeaderRollback =>
          RollbackApplies(storage.sectors);
          ok := Rollback();
        case HeaderValid =>
          ok := true;
      }
      if ok {
        StartSession();
      }
    }
  }

  lemma JoinLog(a: seq<Write>, b: seq<Write>, c: seq<Write>)
    ensures a + b + c == a + (b + c)
  {
  }

  lemma FirstKept(cards: seq<Card>, now: Card)
    ensures cards != [] ==> (cards + [now])[0] == cards[0]
    ensures (cards + [now])[|cards|] == now
  {
  }

  lemma AddApplies(card: Card, kind: SectorKind, sector: nat, content: Sector, usage: Sector)
    ensures InRange(AddWrites(kind, sector, content, usage))
    ensures Apply(card, AddWrites(kind, sector, content, usage)) ==
            var saved := if IsHistory(kind) then card else card[JOURNAL_USAGE := usage];
            var both := if kind == RemoveKind then saved else saved[JOURNAL_CONTENT := content];
            both[JOURNAL_HEADER := Header(Active, kind, sector)]
  {
    var save := SaveWrites(kind, content, usage);
    var arm := Write(JOURNAL_HEADER, Header(Active, kind, sector));
    ApplyAppend(card, save, [arm]);
    if !IsHistory(kind) && kind != RemoveKind {
      assert save == [save[0]] + [save[1]];
      ApplyAppend(card, [save[0]], [save[1]]);
    }
  }

  lemma RollbackApplies(card: Card)
    requires card[JOURNAL_HEADER].HeaderSector? && KindInRange(card[JOURNAL_HEADER].kind, card[JOURNAL_HEADER].sector)
    ensures InRange(RollbackWrites(card))
    ensures var h := card[JOURNAL_HEADER];
            Apply(card, RollbackWrites(card)) ==
            var data := if h.kind == RemoveKind then card else card[RawData(h.sector) := card[JOURNAL_CONTENT]];
            var both := if IsHistory(h.kind) then data else data[RawBitmap(h.sector) := card[JOURNAL_USAGE]];
            both[JOURNAL_HEADER := h.(state := Committed)]
  {
    var c, u := RollbackContent(card), RollbackUsage(card);
    var end := Write(JOURNAL_HEADER, card[JOURNAL_HEADER].(state := Committed));
    ApplyAppend(card, c + u, [end]);
    ApplyAppend(card, c, u);
  }
}
