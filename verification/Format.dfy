/** Formatting a card to an empty database: where every run starts. */
module Format {
  import opened Layout
  import opened StorageCard
  import opened JournalLog
  import opened UsageBitmaps
  import opened Journals
  import opened CrashSafety
  import opened Transactions
  import opened FreeLists
  import opened Contacts
  import opened Messages
  import opened Probing
  import opened HashTables
  import opened Agreement
  import opened Contents
  import opened HashOperations
  import opened Rings
  import opened Histories
  import opened IndexOrder
  import opened NameOrder
  import opened Heaps
  import opened SortedArrays
  import opened ChatOrders
  import opened CrossIndex
  import opened DatabaseFacts
  import opened Databases
  import opened Mount

  function EmptyRam(): Ram {
    Ram(seq(HASH_TABLE_SIZE, _ => BLANK_ENTRY), 0, Range(0, MAX_CONTACTS), 0, Range(0, MESSAGE_SECTORS), map[], map[])
  }

  predicate NoneSet(bits: seq<bool>) {
    |bits| == TOTAL_BITS && forall d :: 0 <= d < TOTAL_BITS ==> !bits[d]
  }

  lemma NothingUsed(card: Card, bits: seq<bool>)
    requires NoneSet(bits)
    ensures ContactMap(card, bits) == map[] && UsedSectors(bits) == {}
  {
  }

  lemma EmptyStore(card: Card, bits: seq<bool>)
    requires NoneSet(bits)
    ensures StoreOk(card, bits, map[])
  {
    NothingUsed(card, bits);
  }

  lemma EmptyIndex()
    ensures IndexOk(map[], EmptyRam())
  {
    TableSizePrime();
  }

  lemma RangePartition(n: nat)
    ensures Partition(Range(0, n), {}, n)
  {
    var free := Range(0, n);
    forall x | 0 <= x < n
      ensures x in free
    {
      assert free[x] == x;
    }
  }

  /** With no bit set, empty structures in RAM stand for no contacts and no messages. */
  lemma EmptyHolds(card: Card, bits: seq<bool>)
    requires NoneSet(bits)
    ensures Holds(card, bits, EmptyRam(), map[], map[])
  {
    NothingUsed(card, bits);
    EmptyStore(card, bits);
    EmptyIndex();
    RangePartition(MAX_CONTACTS);
    RangePartition(MESSAGE_SECTORS);
    hide StoreOk, IndexOk, Partition, ContactMap, UsedSectors;
    assert AllMessages(card, map[]) == map[];
  }

  lemma EmptyCrossed()
    ensures Crossed([], [], EmptyRam(), map[], map[])
  {
    assert IndexSet(map[], {}) == {};
    assert Mapped(SlotOf, []) == [];
  }

  // ----- writing the regions -----

  /** An empty sector of a history. */
  function EmptySector(kind: SectorKind, capacity: nat): Sector {
    RingSector(0, 0, RingEmpty,
               seq(capacity, _ => if kind == MessageHistoryKind then MessageEntry(0, Message(0, false, [])) else CallEntry(0, Contact([], []))))
  }

  /** Writes the zeroed bitmap, in RAM and to the card. */
  method InitUsageBitmap(storage: Storage) returns (bitmap: UsageBitmap)
    modifies storage
    ensures fresh(bitmap) && fresh(bitmap.words) && bitmap.Valid() && NoneSet(bitmap.bits) && BitmapOnCard(storage.sectors, bitmap.bits)
    ensures forall a :: 0 <= a < CARD_SECTORS && !(BITMAP_START <= a < DATA_START) ==> storage.sectors[a] == old(storage.sectors)[a]
  {
    bitmap := new UsageBitmap();
    for k := 0 to BITMAP_SECTORS
      invariant bitmap.Valid() && bitmap.bits == seq(TOTAL_BITS, _ => false) && fresh(bitmap)
      invariant forall j :: 0 <= j < k ==> storage.sectors[BITMAP_START + j] == BitmapSector(SectorBits(bitmap.bits, j))
      invariant forall a :: 0 <= a < CARD_SECTORS && !(BITMAP_START <= a < DATA_START) ==> storage.sectors[a] == old(storage.sectors)[a]
    {
      bitmap.SectorIsBits(k);
      storage.WriteSector(BITMAP_START + k, BitmapSector(bitmap.SectorInRam(k)));
    }
  }

  lemma OneWritten(card: Card, now: Card, start: nat, p: nat, s: Sector)
    requires start + p < DATA_SECTORS && now == card[RawData(start + p) := s]
    ensures RingAt(now, start, p) == s
    ensures forall q: nat :: q != p ==> RingAt(now, start, q) == RingAt(card, start, q)
  {
  }

  /** Writes every sector of a history as empty. */
  method ClearRing(storage: Storage, kind: SectorKind, start: nat, size: nat, capacity: nat)
    requires start + size <= DATA_SECTORS
    modifies storage
    ensures forall p :: 0 <= p < size ==> RingAt(storage.sectors, start, p) == EmptySector(kind, capacity)
    ensures RingBlank(storage.sectors, start, size, capacity)
    ensures forall a :: 0 <= a < CARD_SECTORS && !(RawData(start) <= a < RawData(start + size)) ==> storage.sectors[a] == old(storage.sectors)[a]
  {
    var empty := EmptySector(kind, capacity);
    assert empty.fill == RingEmpty && |empty.entries| == capacity;
    hide EmptySector;
    for p := 0 to size
      invariant forall q :: 0 <= q < p ==> RingAt(storage.sectors, start, q) == empty
      invariant forall a :: 0 <= a < CARD_SECTORS && !(RawData(start) <= a < RawData(start + size)) ==> storage.sectors[a] == old(storage.sectors)[a]
    {
      ghost var was := storage.sectors;
      storage.WriteSector(RawData(start + p), empty);
      OneWritten(was, storage.sectors, start, p, empty);
    }
  }

  /** Writes the journal header, the bitmap and both histories.  The other sectors stay as they
      are: with no bit set nothing will read them before it has written them. */
  method FormatCard(storage: Storage, journal: Journal) returns (bitmap: UsageBitmap)
    requires journal.storage == storage
    modifies storage, journal
    ensures fresh(bitmap) && fresh(bitmap.words) && Ready(storage, journal, bitmap)
    ensures NoneSet(bitmap.bits)
    ensures RingBlank(storage.sectors, MESSAGE_HISTORY_START, MESSAGE_HISTORY_SECTORS, MESSAGE_HISTORY_CAPACITY)
    ensures RingBlank(storage.sectors, CALL_HISTORY_START, CALL_HISTORY_SECTORS, CALL_HISTORY_CAPACITY)
  {
    hide BitmapOnCard, RingBlank, NoneSet, UsageBitmap.Valid, Journal.Session;
    storage.WriteSector(JOURNAL_HEADER, Header(Idle, ContactKind, 0));
    bitmap := InitUsageBitmap(storage);
    ghost var blank := storage.sectors;
    ClearRing(storage, MessageHistoryKind, MESSAGE_HISTORY_START, MESSAGE_HISTORY_SECTORS, MESSAGE_HISTORY_CAPACITY);
    ghost var half := storage.sectors;
    ClearRing(storage, CallHistoryKind, CALL_HISTORY_START, CALL_HISTORY_SECTORS, CALL_HISTORY_CAPACITY);
    Elsewhere(blank, half, storage.sectors, bitmap.bits);
    journal.StartSession();
  }

  lemma Elsewhere(blank: Card, half: Card, now: Card, bits: seq<bool>)
    requires BitmapOnCard(blank, bits) && blank[JOURNAL_HEADER] == Header(Idle, ContactKind, 0)
    requires forall a :: 0 <= a < CARD_SECTORS && !(RawData(MESSAGE_HISTORY_START) <= a < RawData(MESSAGE_HISTORY_START + MESSAGE_HISTORY_SECTORS)) ==> half[a] == blank[a]
    requires forall a :: 0 <= a < CARD_SECTORS && !(RawData(CALL_HISTORY_START) <= a < RawData(CALL_HISTORY_START + CALL_HISTORY_SECTORS)) ==> now[a] == half[a]
    ensures BitmapOnCard(now, bits) && Clean(now)
    ensures RingBlank(half, MESSAGE_HISTORY_START, MESSAGE_HISTORY_SECTORS, MESSAGE_HISTORY_CAPACITY) ==>
      RingBlank(now, MESSAGE_HISTORY_START, MESSAGE_HISTORY_SECTORS, MESSAGE_HISTORY_CAPACITY)
  {
    forall p | 0 <= p < MESSAGE_HISTORY_SECTORS
      ensures RingAt(now, MESSAGE_HISTORY_START, p) == RingAt(half, MESSAGE_HISTORY_START, p)
    {
    }
    assert now[JOURNAL_HEADER] == Header(Idle, ContactKind, 0);
  }

  /** A hash table and allocators for an empty card. */
  method FreshTables(storage: Storage, journal: Journal, bitmap: UsageBitmap) returns (t: HashTable)
    requires Ready(storage, journal, bitmap) && NoneSet(bitmap.bits)
    ensures t.Valid() && t.storage == storage && t.journal == journal && t.bitmap == bitmap
    ensures t.ram == EmptyRam() && t.contacts == map[] && t.messages == map[]
    ensures fresh(t.Repr() - {storage, journal, bitmap, bitmap.words})
  {
    hide Ready, Holds, NoneSet;
    var contactAllocator := new FreeList.AllFree(MAX_CONTACTS);
    var messageAllocator := new FreeList.AllFree(MESSAGE_SECTORS);
    var htable := new HashEntry[HASH_TABLE_SIZE](_ => BLANK_ENTRY);
    t := new HashTable(storage, journal, bitmap, contactAllocator, messageAllocator, htable);
    t.ram, t.contacts, t.messages := EmptyRam(), map[], map[];
    ReadyAs(storage, journal, bitmap);
    EmptyHolds(storage.sectors, bitmap.bits);
    assert htable[..] == EmptyRam().table;
  }

  lemma ReadyAs(storage: Storage, journal: Journal, bitmap: UsageBitmap)
    requires Ready(storage, journal, bitmap)
    ensures journal.storage == storage
  {
  }

  /** A history on its empty sectors. */
  method BlankHistory(storage: Storage, journal: Journal, bitmap: UsageBitmap, kind: SectorKind) returns (ok: bool, h: History)
    requires journal.storage == storage && kind in {MessageHistoryKind, CallHistoryKind}
    requires kind == MessageHistoryKind ==> RingBlank(storage.sectors, MESSAGE_HISTORY_START, MESSAGE_HISTORY_SECTORS, MESSAGE_HISTORY_CAPACITY)
    requires kind == CallHistoryKind ==> RingBlank(storage.sectors, CALL_HISTORY_START, CALL_HISTORY_SECTORS, CALL_HISTORY_CAPACITY)
    ensures ok && fresh(h) && h.Valid() && h.pages == [] && h.storage == storage && h.journal == journal && h.bitmap == bitmap && h.kind == kind
    ensures h.start == if kind == MessageHistoryKind then MESSAGE_HISTORY_START else CALL_HISTORY_START
    ensures h.capacity == if kind == MessageHistoryKind then MESSAGE_HISTORY_CAPACITY else CALL_HISTORY_CAPACITY
    ensures h.size == if kind == MessageHistoryKind then MESSAGE_HISTORY_SECTORS else CALL_HISTORY_SECTORS
  {
    hide RingBlank, RingOk, RingMarked;
    h := new History(storage, journal, bitmap, kind);
    ok := h.Reconstruct([], 0, 0);
  }

  /** Everything after the hash table: empty indexes and empty histories. */
  method BlankRest(t: HashTable) returns (ok: bool, db: Database)
    requires t.Valid() && t.ram == EmptyRam() && t.contacts == map[] && t.messages == map[] && t.journal.storage == t.storage
    requires RingBlank(t.storage.sectors, MESSAGE_HISTORY_START, MESSAGE_HISTORY_SECTORS, MESSAGE_HISTORY_CAPACITY)
    requires RingBlank(t.storage.sectors, CALL_HISTORY_START, CALL_HISTORY_SECTORS, CALL_HISTORY_CAPACITY)
    ensures ok && db.Valid() && db.t == t && db.Chats() == [] && db.messageHistory.pages == db.callHistory.pages == []
    ensures fresh({db.names, db.names.mem, db.order, db.order.mem, db.messageHistory, db.callHistory})
  {
    hide HashTable.Shape, HashTable.InRam, Ready, Holds, RingBlank, RingOk, Crossed, FreeLists.Distinct, Mapped, EmptyRam;
    var names := new SortedArray();
    var order := new ChatOrder();
    var found, messageHistory := BlankHistory(t.storage, t.journal, t.bitmap, MessageHistoryKind);
    var foundToo, callHistory := BlankHistory(t.storage, t.journal, t.bitmap, CallHistoryKind);
    db := new Database(t, names, order, messageHistory, callHistory);
    EmptyCrossed();
    ok := found && foundToo;
  }

  /** Formats a card: an orderly, empty database. */
  method FormatDatabase(storage: Storage) returns (ok: bool, db: Database)
    modifies storage
    ensures ok && db.Valid() && db.t.storage == storage && fresh(db.Parts() - {storage})
    ensures db.t.contacts == map[] && db.t.messages == map[] && db.Chats() == []
    ensures db.messageHistory.pages == db.callHistory.pages == []
  {
    hide HashTable.Valid, Ready, NoneSet, RingBlank, Database.Valid, Database.Chats, EmptyRam;
    var journal := new Journal(storage);
    var bitmap := FormatCard(storage, journal);
    ReadyAs(storage, journal, bitmap);
    var t := FreshTables(storage, journal, bitmap);
    ok, db := BlankRest(t);
  }
}
