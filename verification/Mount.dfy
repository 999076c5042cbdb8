/** Restarting the whole database: everything in RAM is rebuilt from the card, and comes back. */
module Mount {
  import opened Layout
  import opened StorageCard
  import opened JournalLog
  import opened UsageBitmaps
  import opened Journals
  import opened CrashSafety
  import opened Transactions
  import opened FreeLists
  import opened Contacts
  import opened Messages
  import opened HashTables
  import opened Agreement
  import opened Contents
  import opened HashOperations
  import opened Rebuild
  import opened Reboot
  import opened Rings
  import opened Histories
  import opened IndexOrder
  import opened NameOrder
  import opened Heaps
  import opened SortedArrays
  import opened ChatOrders
  import opened CrossIndex
  import opened DatabaseFacts
  import opened Databases

  // ----- an index that lists everything lists what the maintained one does -----

  lemma SlotsForAll(slots: seq<nat>, places: map<nat, Place>, s: set<nat>)
    requires s <= places.Keys && FreeLists.Distinct(slots) && forall j :: j in slots <==> j in IndexSet(places, s)
    ensures SlotsFor(slots, places, s)
  {
    forall x
      ensures multiset(slots)[x] == multiset(IndexSet(places, s))[x]
    {
      CountsOne(slots, x);
      assert x in multiset(slots) <==> x in slots;
    }
  }

  /** The occupied hash slots are those of the contacts. */
  lemma OccupiedAre(card: Card, bits: seq<bool>, ram: Ram, contacts: map<nat, Contact>, messages: map<nat, seq<Message>>)
    requires Holds(card, bits, ram, contacts, messages)
    ensures forall j :: j in IndexSet(ram.places, contacts.Keys) <==> 0 <= j < |ram.table| && ram.table[j].state == EntryOccupied
  {
    TableFacts(card, bits, ram, contacts, messages);
    hide Holds;
    forall j | 0 <= j < |ram.table| && ram.table[j].state == EntryOccupied
      ensures j in IndexSet(ram.places, contacts.Keys)
    {
      OccupiedContact(card, bits, ram, contacts, messages, j);
    }
  }

  /** The hash slots with a chat are those of the contacts with messages. */
  lemma ChatsAre(card: Card, bits: seq<bool>, ram: Ram, contacts: map<nat, Contact>, messages: map<nat, seq<Message>>)
    requires Holds(card, bits, ram, contacts, messages)
    ensures forall j :: 0 <= j ==> (j in IndexSet(ram.places, messages.Keys) <==> HasChat(ram.table, j))
  {
    TableFacts(card, bits, ram, contacts, messages);
    hide Holds;
    forall j: nat | HasChat(ram.table, j)
      ensures j in IndexSet(ram.places, messages.Keys)
    {
      OccupiedContact(card, bits, ram, contacts, messages, j);
      LatestFacts(card, bits, ram, contacts, messages, ram.table[j].sector);
    }
    forall x | x in messages
      ensures HasChat(ram.table, ram.places[x].index)
    {
      LatestFacts(card, bits, ram, contacts, messages, x);
    }
  }

  lemma AllListed(card: Card, bits: seq<bool>, ram: Ram, contacts: map<nat, Contact>, messages: map<nat, seq<Message>>, entries: seq<NameEntry>)
    requires Holds(card, bits, ram, contacts, messages) && NamesOk(entries, ram.table, contacts)
    ensures SlotsFor(Mapped(SlotOf, entries), ram.places, contacts.Keys) <==> ListsAll(entries, ram.table)
  {
    hide Holds;
    TableFacts(card, bits, ram, contacts, messages);
    OccupiedAre(card, bits, ram, contacts, messages);
    EntrySlots(entries, ram.table, contacts);
    var slots := Mapped(SlotOf, entries);
    hide IndexSet, Mapped, NamesOk;
    if SlotsFor(slots, ram.places, contacts.Keys) { SlotsHas(slots, ram.places, contacts.Keys); }
    if ListsAll(entries, ram.table) { SlotsForAll(slots, ram.places, contacts.Keys); }
  }

  lemma EntrySlots(entries: seq<NameEntry>, table: seq<HashEntry>, contacts: map<nat, Contact>)
    requires NamesOk(entries, table, contacts)
    ensures forall j: nat :: j in Mapped(SlotOf, entries) ==> j < |table| && table[j].state == EntryOccupied
  {
    hide NamesSorted;
    var slots := Mapped(SlotOf, entries);
    forall i | 0 <= i < |slots|
      ensures slots[i] < |table| && table[slots[i]].state == EntryOccupied
    {
      assert EntryOk(table, contacts, entries[i]);
    }
  }

  lemma ChatsListed(card: Card, bits: seq<bool>, ram: Ram, contacts: map<nat, Contact>, messages: map<nat, seq<Message>>, order: seq<nat>)
    requires Holds(card, bits, ram, contacts, messages)
    ensures SlotsFor(order, ram.places, messages.Keys) <==> ListsChats(order, ram.table)
  {
    hide Holds;
    TableFacts(card, bits, ram, contacts, messages);
    ChatsAre(card, bits, ram, contacts, messages);
    hide IndexSet, HasChat;
    if SlotsFor(order, ram.places, messages.Keys) { SlotsHas(order, ram.places, messages.Keys); }
    if ListsChats(order, ram.table) { SlotsForAll(order, ram.places, messages.Keys); }
  }

  // ----- the whole database -----

  /** A history found again on the card it was left on. */
  method FindHistory(storage: Storage, journal: Journal, bitmap: UsageBitmap, kind: SectorKind, ghost was: History) returns (ok: bool, again: History)
    requires was.Valid() && was.storage == storage && journal.storage == storage
    requires was.kind == kind && kind in {MessageHistoryKind, CallHistoryKind}
    requires was.start == (if was.kind == MessageHistoryKind then MESSAGE_HISTORY_START else CALL_HISTORY_START)
    requires was.size == (if was.kind == MessageHistoryKind then MESSAGE_HISTORY_SECTORS else CALL_HISTORY_SECTORS)
    requires was.capacity == (if was.kind == MessageHistoryKind then MESSAGE_HISTORY_CAPACITY else CALL_HISTORY_CAPACITY)
    ensures ok && fresh(again) && again.Valid() && again.storage == storage && again.journal == journal && again.bitmap == bitmap
    ensures again.kind == was.kind && again.start == was.start && again.size == was.size && again.capacity == was.capacity
    ensures again.pages == was.pages && again.Log() == was.Log()
    ensures again.seqno == was.seqno && again.currentIndex == was.currentIndex && again.occupancy == was.occupancy
  {
    hide RingOk, RingBlank, RingMarked, Retained;
    again := new History(storage, journal, bitmap, kind);
    ok := again.Reconstruct(was.pages, was.lap, was.currentIndex);
  }

  /** The chat order and the name index, from the hash table. */
  method MountIndexes(t: HashTable) returns (ok: bool, names: SortedArray, order: ChatOrder)
    requires t.Valid()
    ensures ok && fresh(names) && fresh(names.mem) && fresh(order) && fresh(order.mem) && t.Valid() && t.journal.storage == t.storage
    ensures names.mem.Length == MAX_CONTACTS && names.occupancy <= names.mem.Length && order.Valid()
    ensures Crossed(names.Entries(), order.Order(), t.ram, t.contacts, t.messages)
    ensures LatestFirst(order.Order(), t.ram.table, t.messages)
  {
    hide HashTable.InRam, Ready, Holds, NamesOk, ListsChats, LatestFirst, ListsAll, SlotsFor, Mapped, FreeLists.Distinct;
    var ret;
    ret, order := ChatOrders.Build(t);
    names := new SortedArray();
    ret := names.Build(t);
    ok := ret == Ok;
    TableHolds(t);
    AllListed(t.storage.sectors, t.bitmap.bits, t.ram, t.contacts, t.messages, names.Entries());
    ChatsListed(t.storage.sectors, t.bitmap.bits, t.ram, t.contacts, t.messages, order.Order());
  }

  /** Everything after the journal is recovered and the hash table rebuilt: the chat order, the name
      index and the histories. */
  method MountRest(t: HashTable, ghost was: Database) returns (ok: bool, again: Database)
    requires t.Valid() && was.messageHistory.Valid() && was.callHistory.Valid() && was.Apart()
    requires was.t.storage == t.storage
    ensures ok && fresh(again) && again.t == t && again.Valid()
    ensures LatestFirst(again.order.Order(), t.ram.table, t.messages)
    ensures SameHistory(again.messageHistory, was.messageHistory) && SameHistory(again.callHistory, was.callHistory)
  {
    hide HashTable.Shape, HashTable.InRam, Ready, Holds, LatestFirst, Crossed, RingOk, RingBlank, FreeLists.Distinct, Retained;
    var listed, names, order := MountIndexes(t);
    var found, messageHistory := FindHistory(t.storage, t.journal, t.bitmap, MessageHistoryKind, was.messageHistory);
    var foundToo, callHistory := FindHistory(t.storage, t.journal, t.bitmap, CallHistoryKind, was.callHistory);
    again := new Database(t, names, order, messageHistory, callHistory);
    ok := listed && found && foundToo;
  }

  /** The same history: what was ever added, what can be read, and where the next entry goes. */
  ghost predicate SameHistory(again: History, was: History)
    reads again, was
  {
    && again.pages == was.pages && again.Log() == was.Log()
    && again.seqno == was.seqno && again.currentIndex == was.currentIndex && again.occupancy == was.occupancy
  }

  /** The rebuilt indexes list what the maintained ones did, in the same order: names because the
      order of names is total, chats if every chat got its latest message at a time of its own. */
  lemma SameIndexes(card: Card, bits: seq<bool>, ram: Ram, entries: seq<NameEntry>, order: seq<nat>,
                    card2: Card, bits2: seq<bool>, ram2: Ram, entries2: seq<NameEntry>, order2: seq<nat>,
                    contacts: map<nat, Contact>, messages: map<nat, seq<Message>>)
    requires Holds(card, bits, ram, contacts, messages) && Crossed(entries, order, ram, contacts, messages)
    requires Holds(card2, bits2, ram2, contacts, messages) && Crossed(entries2, order2, ram2, contacts, messages)
    requires LatestFirst(order2, ram2.table, messages)
    ensures Names(entries, ram.table, contacts) == Names(entries2, ram2.table, contacts)
    ensures Recent(Owners(order, ram.table), messages) ==> Owners(order, ram.table) == Owners(order2, ram2.table)
  {
    hide *;
    CrossedParts(entries, order, ram, contacts, messages);
    CrossedParts(entries2, order2, ram2, contacts, messages);
    AllListed(card, bits, ram, contacts, messages, entries);
    AllListed(card2, bits2, ram2, contacts, messages, entries2);
    NamesDetermined(card, bits, ram, messages, entries, card2, bits2, ram2, messages, entries2, contacts);
    ChatsListed(card, bits, ram, contacts, messages, order);
    ChatsListed(card2, bits2, ram2, contacts, messages, order2);
    if Recent(Owners(order, ram.table), messages) {
      OrderDetermined(card, bits, ram, order, card2, bits2, ram2, order2, contacts, messages);
    }
  }

  /** Restarting an orderly database, all RAM forgotten: contacts, messages, both orders and both
      histories come back exactly, and nothing on the card changes. */
  method RebootDatabase(db: Database) returns (ok: bool, again: Database)
    requires db.Valid()
    modifies db.t.storage
    ensures ok && again.Valid() && again.t.storage == db.t.storage && again.t.storage.sectors == old(db.t.storage.sectors)
    ensures again.t.contacts == old(db.t.contacts) && again.t.messages == old(db.t.messages)
    ensures Names(again.names.Entries(), again.t.ram.table, again.t.contacts) == old(Names(db.names.Entries(), db.t.ram.table, db.t.contacts))
    ensures Recent(old(db.Chats()), old(db.t.messages)) ==> again.Chats() == old(db.Chats())
    ensures SameHistory(again.messageHistory, db.messageHistory) && SameHistory(again.callHistory, db.callHistory)
  {
    hide HashTable.Valid, Ready, Holds, LatestFirst, Crossed, RingOk, RingBlank, RingAt, Recent, Owners, Names, FreeLists.Distinct, History.Log, SameHistory;
    db.SteadyHolds();
    var t;
    ok, t := Restart(db.t);
    HistoryKept(db.messageHistory);
    HistoryKept(db.callHistory);
    ok, again := MountRest(t, db);
    again.SteadyHolds();
    SameIndexes(old(db.t.storage.sectors), old(db.t.bitmap.bits), old(db.t.ram), old(db.names.Entries()), old(db.order.Order()),
                t.storage.sectors, t.bitmap.bits, t.ram, again.names.Entries(), again.order.Order(), t.contacts, t.messages);
  }
}
