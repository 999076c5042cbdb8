/** How the name index, the chat order and the histories stay in step with the hash table: what
    each database operation does to them, as statements about their values. */
module DatabaseFacts {
  import opened Layout
  import opened StorageCard
  import opened UsageBitmaps
  import opened Journals
  import opened CrashSafety
  import opened Transactions
  import opened FreeLists
  import opened Contacts
  import opened Messages
  import opened Backwards
  import opened HashTables
  import opened Agreement
  import opened Contents
  import opened HashOperations
  import opened Rings
  import opened Histories
  import opened IndexOrder
  import opened NameOrder
  import opened Heaps
  import opened SortedArrays
  import opened ChatOrders
  import opened CrossIndex

  const MAX_NAME_LEN: nat := 64
  const MAX_PHONE_LEN: nat := 15

  predicate ValidStr(s: Text, max: nat) { |s| <= max }

  /** Not empty, and short enough to stay terminated where it is stored. */
  predicate ValidPhone(phone: Text) { ValidStr(phone, MAX_PHONE_LEN - 1) && phone != [] }

  // ----- the rings and the other regions do not touch each other -----

  lemma RingFrame(card: Card, now: Card, start: nat, size: nat, capacity: nat, pages: seq<Entries>, lap: nat, cur: nat)
    requires forall p :: 0 <= p < size ==> RingAt(now, start, p) == RingAt(card, start, p)
    ensures RingOk(card, start, size, capacity, pages, lap, cur) ==> RingOk(now, start, size, capacity, pages, lap, cur)
    ensures RingBlank(card, start, size, capacity) ==> RingBlank(now, start, size, capacity)
  {
    if RingOk(card, start, size, capacity, pages, lap, cur) {
      forall p | 0 <= p < cur
        ensures ThisLap(now, start, capacity, pages, lap, p, false)
      {
        assert ThisLap(card, start, capacity, pages, lap, p, false);
      }
      forall p | cur < p < size
        ensures LastLap(now, start, size, capacity, pages, lap, p)
      {
        assert LastLap(card, start, size, capacity, pages, lap, p);
      }
    }
  }

  /** A history whose sectors have not been touched. */
  twostate lemma HistoryKept(h: History)
    requires old(h.Valid()) && unchanged(h)
    requires forall p :: 0 <= p < h.size ==> RingAt(h.storage.sectors, h.start, p) == RingAt(old(h.storage.sectors), h.start, p)
    ensures h.Valid() && h.Log() == old(h.Log())
  {
    RingFrame(old(h.storage.sectors), h.storage.sectors, h.start, h.size, h.capacity, h.pages, h.lap, h.currentIndex);
  }

  lemma RingsFrame(card: Card, now: Card, start: nat, size: nat)
    requires RingsSame(card, now) && MESSAGE_HISTORY_START <= start
    ensures forall p :: 0 <= p < size ==> RingAt(now, start, p) == RingAt(card, start, p)
  {
  }

  lemma OutsideFrame(card: Card, now: Card, start: nat, size: nat, other: nat, otherSize: nat)
    requires OutsideSame(card, now, start, size) && MESSAGE_HISTORY_START <= start
    requires other + otherSize <= start || start + size <= other
    ensures forall p :: 0 <= p < otherSize ==> RingAt(now, other, p) == RingAt(card, other, p)
  {
  }

  /** What contacts and chats are read from has not been touched. */
  lemma HoldsFrame(card: Card, bits: seq<bool>, ram: Ram, contacts: map<nat, Contact>, messages: map<nat, seq<Message>>, now: Card, start: nat, size: nat)
    requires Holds(card, bits, ram, contacts, messages) && OutsideSame(card, now, start, size) && MESSAGE_HISTORY_START <= start
    ensures Holds(now, bits, ram, contacts, messages)
  {
    FrontSame(card, bits, now, start, size, ram.chats);
    hide *;
    HoldsParts(card, bits, ram, contacts, messages);
    StoreParts(card, bits, ram.chats);
    ContactsFrame(card, bits, now, bits);
    ChatsFrame(card, bits, now, bits, ram.chats);
    MessagesKept(card, now, ram.chats);
    StoreSame(card, bits, now, contacts, ram.chats);
    HoldsParts(now, bits, ram, contacts, messages);
  }

  lemma FrontSame(card: Card, bits: seq<bool>, now: Card, start: nat, size: nat, chats: map<nat, seq<nat>>)
    requires OutsideSame(card, now, start, size) && MESSAGE_HISTORY_START <= start
    ensures |bits| == TOTAL_BITS ==> ContactsSame(card, bits, now, bits) && MessagesSame(card, bits, now, bits)
    ensures StoreOk(card, bits, chats) ==> |bits| == TOTAL_BITS
  {
  }

  lemma StoreSame(card: Card, bits: seq<bool>, now: Card, contacts: map<nat, Contact>, chats: map<nat, seq<nat>>)
    requires StoreOk(card, bits, chats) && contacts == ContactMap(card, bits) == ContactMap(now, bits)
    requires ContactRegionOk(now, bits) && ChatsOk(now, bits, chats)
    ensures StoreOk(now, bits, chats)
  {
  }

  // ----- entering a contact into the name index, and taking it out -----

  lemma ContactCount(card: Card, bits: seq<bool>, ram: Ram, contacts: map<nat, Contact>, messages: map<nat, seq<Message>>)
    requires Holds(card, bits, ram, contacts, messages)
    ensures |contacts.Keys| <= MAX_CONTACTS
  {
    HoldsFacts(card, bits, ram, contacts, messages);
    hide Holds;
    SubsetSize(contacts.Keys, Below(MAX_CONTACTS));
  }

  lemma NewEntryOk(table: seq<HashEntry>, contacts: map<nat, Contact>, slot: nat, j: nat, c: Contact)
    requires slot in contacts && contacts[slot] == c && j < |table| && table[j].state == EntryOccupied && table[j].sector == slot
    ensures EntryOk(table, contacts, NameEntry(MakeKey(c.name), j)) && Named(table, contacts, j) == c
  {
  }

  lemma MappedSize(entries: seq<NameEntry>)
    ensures |Mapped(SlotOf, entries)| == |entries|
  {
  }

  /** The index lists every contact but one, so it has room for that one and does not have it. */
  lemma Unlisted(card: Card, bits: seq<bool>, ram: Ram, contacts: map<nat, Contact>, messages: map<nat, seq<Message>>, entries: seq<NameEntry>, slot: nat)
    requires Holds(card, bits, ram, contacts, messages) && slot in contacts
    requires SlotsFor(Mapped(SlotOf, entries), ram.places, contacts.Keys - {slot})
    ensures slot in ram.places && |entries| < MAX_CONTACTS && contacts[slot] !in Names(entries, ram.table, contacts)
    ensures EntryOk(ram.table, contacts, NameEntry(MakeKey(contacts[slot].name), ram.places[slot].index))
    ensures Named(ram.table, contacts, ram.places[slot].index) == contacts[slot]
  {
    hide *;
    TableFacts(card, bits, ram, contacts, messages);
    ContactFacts(card, bits, ram, contacts, messages, slot);
    NamesHas(card, bits, ram, contacts, messages, entries, contacts.Keys - {slot}, contacts[slot]);
    NewEntryOk(ram.table, contacts, slot, ram.places[slot].index, contacts[slot]);
    ContactCount(card, bits, ram, contacts, messages);
    SlotsSize(Mapped(SlotOf, entries), ram.places, contacts.Keys - {slot});
    MappedSize(entries);
  }

  lemma Enlisted(card: Card, bits: seq<bool>, ram: Ram, contacts: map<nat, Contact>, messages: map<nat, seq<Message>>,
                 entries: seq<NameEntry>, now: seq<NameEntry>, slot: nat)
    requires Holds(card, bits, ram, contacts, messages) && slot in contacts && slot in ram.places
    requires SlotsFor(Mapped(SlotOf, entries), ram.places, contacts.Keys - {slot})
    requires multiset(now) == multiset(entries) + multiset{NameEntry(MakeKey(contacts[slot].name), ram.places[slot].index)}
    ensures SlotsFor(Mapped(SlotOf, now), ram.places, contacts.Keys)
  {
    hide *;
    EntriesAdd(entries, now, NameEntry(MakeKey(contacts[slot].name), ram.places[slot].index));
    TableFacts(card, bits, ram, contacts, messages);
    SlotsAdd(Mapped(SlotOf, entries), Mapped(SlotOf, now), ram.places, ram.places, contacts.Keys - {slot}, slot);
    assert contacts.Keys - {slot} + {slot} == contacts.Keys;
  }

  /** The entry found for a contact is the one of its hash slot. */
  lemma Delisted(card: Card, bits: seq<bool>, ram: Ram, contacts: map<nat, Contact>, messages: map<nat, seq<Message>>,
                 entries: seq<NameEntry>, now: seq<NameEntry>, slot: nat, e: NameEntry)
    requires Holds(card, bits, ram, contacts, messages) && slot in contacts
    requires SlotsFor(Mapped(SlotOf, entries), ram.places, contacts.Keys)
    requires multiset(entries) == multiset(now) + multiset{e} && Named(ram.table, contacts, e.hashSlot) == contacts[slot]
    ensures SlotsFor(Mapped(SlotOf, now), ram.places, contacts.Keys - {slot})
  {
    hide Holds, SlotsFor, NameCmp, Injective;
    TableFacts(card, bits, ram, contacts, messages);
    ContactFacts(card, bits, ram, contacts, messages, slot);
    assert e in multiset(entries);
    var i :| 0 <= i < |entries| && entries[i] == e;
    var x := SlotOwner(entries, ram.places, contacts.Keys, i);
    EntriesAdd(now, entries, e);
    SlotsDrop(Mapped(SlotOf, entries), Mapped(SlotOf, now), ram.places, contacts.Keys, slot);
  }

  lemma IsListed(card: Card, bits: seq<bool>, ram: Ram, contacts: map<nat, Contact>, messages: map<nat, seq<Message>>, entries: seq<NameEntry>, slot: nat)
    requires Holds(card, bits, ram, contacts, messages) && slot in contacts && SlotsFor(Mapped(SlotOf, entries), ram.places, contacts.Keys)
    ensures contacts[slot] in Names(entries, ram.table, contacts) && entries != []
  {
    NamesHas(card, bits, ram, contacts, messages, entries, contacts.Keys, contacts[slot]);
  }

  // ----- the chat order -----

  /** A chat moves to the front, or is new there. */
  lemma Touched(order: seq<nat>, places: map<nat, Place>, s: set<nat>, slot: nat)
    requires SlotsFor(order, places, s) && slot in places && Injective(places)
    ensures SlotsFor([places[slot].index] + Without(order, places[slot].index), places, s + {slot})
  {
    SlotsHas(order, places, s);
    WithoutMultiset(order, places[slot].index);
    var j := places[slot].index;
    hide Without;
    if slot in s {
      assert s + {slot} == s && j in IndexSet(places, s);
    } else {
      assert j !in IndexSet(places, s);
      SlotsAdd(order, [j] + Without(order, j), places, places, s, slot);
    }
  }

  /** A chat is taken out, if it was there. */
  lemma Untouch(order: seq<nat>, places: map<nat, Place>, s: set<nat>, slot: nat)
    requires SlotsFor(order, places, s) && slot in places && Injective(places)
    ensures SlotsFor(Without(order, places[slot].index), places, s - {slot})
  {
    SlotsHas(order, places, s);
    WithoutMultiset(order, places[slot].index);
    var j := places[slot].index;
    hide Without;
    if slot in s {
      assert j in IndexSet(places, s);
      SlotsDrop(order, Without(order, j), places, s, slot);
    } else {
      assert j !in IndexSet(places, s) && s - {slot} == s;
    }
  }

  /** Name index, chat order and hash table agree: the index lists every contact in order, the
      chat order every contact with a chat, both by the hash slots the contacts are in. */
  ghost predicate Crossed(entries: seq<NameEntry>, order: seq<nat>, ram: Ram, contacts: map<nat, Contact>, messages: map<nat, seq<Message>>) {
    && NamesOk(entries, ram.table, contacts) && SlotsFor(Mapped(SlotOf, entries), ram.places, contacts.Keys)
    && SlotsFor(order, ram.places, messages.Keys)
  }

  lemma CrossedParts(entries: seq<NameEntry>, order: seq<nat>, ram: Ram, contacts: map<nat, Contact>, messages: map<nat, seq<Message>>)
    ensures Crossed(entries, order, ram, contacts, messages) <==>
      && NamesOk(entries, ram.table, contacts) && SlotsFor(Mapped(SlotOf, entries), ram.places, contacts.Keys)
      && SlotsFor(order, ram.places, messages.Keys)
  {
  }

  lemma RankOk(entries: seq<NameEntry>, order: seq<nat>, ram: Ram, contacts: map<nat, Contact>, messages: map<nat, seq<Message>>, rank: nat)
    requires Crossed(entries, order, ram, contacts, messages) && rank < |entries|
    ensures entries[rank].hashSlot < |ram.table| && ram.table[entries[rank].hashSlot].state == EntryOccupied
    ensures rank < |Names(entries, ram.table, contacts)|
    ensures Names(entries, ram.table, contacts)[rank] == Named(ram.table, contacts, entries[rank].hashSlot)
  {
  }

  lemma TableHolds(t: HashTable)
    requires t.Valid()
    ensures Holds(t.storage.sectors, t.bitmap.bits, t.ram, t.contacts, t.messages)
  {
  }

  lemma SameOwners(card: Card, bits: seq<bool>, ram: Ram, contacts: map<nat, Contact>,
                   now: Card, nowBits: seq<bool>, nowRam: Ram, nowContacts: map<nat, Contact>, messages: map<nat, seq<Message>>, order: seq<nat>)
    requires Holds(card, bits, ram, contacts, messages) && Holds(now, nowBits, nowRam, nowContacts, messages)
    requires SlotsFor(order, ram.places, messages.Keys)
    requires forall x <- messages :: x in ram.places && x in nowRam.places && nowRam.places[x] == ram.places[x]
    ensures Owners(order, nowRam.table) == Owners(order, ram.table)
  {
    hide *;
    TableFacts(card, bits, ram, contacts, messages);
    TableFacts(now, nowBits, nowRam, nowContacts, messages);
    BackedPart(ram.table, ram.places, contacts.Keys, messages.Keys);
    BackedPart(nowRam.table, nowRam.places, nowContacts.Keys, messages.Keys);
    OwnersFrame(order, ram.table, ram.places, nowRam.table, nowRam.places, messages.Keys);
  }

  /** A contact that the hash table has just taken in is the one that is not listed yet. */
  lemma AfterInsert(card: Card, bits: seq<bool>, ram: Ram, contacts: map<nat, Contact>,
                    now: Card, nowBits: seq<bool>, nowRam: Ram, nowContacts: map<nat, Contact>, messages: map<nat, seq<Message>>,
                    entries: seq<NameEntry>, order: seq<nat>, slot: nat)
    requires Holds(card, bits, ram, contacts, messages) && Holds(now, nowBits, nowRam, nowContacts, messages)
    requires Crossed(entries, order, ram, contacts, messages) && slot !in contacts && slot in nowContacts && slot in nowRam.places
    requires nowContacts == contacts[slot := nowContacts[slot]] && nowRam.places == ram.places[slot := nowRam.places[slot]]
    ensures NamesOk(entries, nowRam.table, nowContacts) && SlotsFor(Mapped(SlotOf, entries), nowRam.places, nowContacts.Keys - {slot})
    ensures SlotsFor(order, nowRam.places, messages.Keys) && Owners(order, nowRam.table) == Owners(order, ram.table)
  {
    hide *;
    CrossedParts(entries, order, ram, contacts, messages);
    TableFacts(card, bits, ram, contacts, messages);
    SameOwners(card, bits, ram, contacts, now, nowBits, nowRam, nowContacts, messages, order);
    assert nowContacts.Keys - {slot} == contacts.Keys;
    NamesFrame(entries, ram, contacts, nowRam, nowContacts, contacts.Keys, card, bits, messages, now, nowBits, messages);
    SlotsFrame(order, ram.places, nowRam.places, messages.Keys);
  }

  lemma PhoneOwner(card: Card, bits: seq<bool>, ram: Ram, contacts: map<nat, Contact>, messages: map<nat, seq<Message>>, phone: Text, slot: nat)
    requires Holds(card, bits, ram, contacts, messages) && slot in contacts && contacts[slot].phone == phone
    ensures HasPhone(contacts, phone) && forall s <- contacts :: contacts[s].phone == phone ==> s == slot
  {
    ContactFacts(card, bits, ram, contacts, messages, slot);
  }

  /** A chat that is removed is taken out of the chat order. */
  lemma OrderAfterDrop(card: Card, bits: seq<bool>, ram: Ram, contacts: map<nat, Contact>, messages: map<nat, seq<Message>>,
                       now: Card, nowBits: seq<bool>, nowRam: Ram, nowContacts: map<nat, Contact>, nowMessages: map<nat, seq<Message>>,
                       order: seq<nat>, slot: nat)
    requires Holds(card, bits, ram, contacts, messages) && Holds(now, nowBits, nowRam, nowContacts, nowMessages)
    requires SlotsFor(order, ram.places, messages.Keys) && slot in contacts && slot in ram.places && nowMessages == messages - {slot}
    requires forall x <- nowMessages :: x in nowContacts && x in nowRam.places && x in ram.places && nowRam.places[x] == ram.places[x]
    ensures SlotsFor(Without(order, ram.places[slot].index), nowRam.places, nowMessages.Keys)
    ensures Owners(Without(order, ram.places[slot].index), nowRam.table) == Without(Owners(order, ram.table), slot)
  {
    hide *;
    TableFacts(card, bits, ram, contacts, messages);
    TableFacts(now, nowBits, nowRam, nowContacts, nowMessages);
    assert nowMessages.Keys == messages.Keys - {slot};
    BackedPart(ram.table, ram.places, contacts.Keys, messages.Keys + {slot});
    BackedPart(ram.table, ram.places, contacts.Keys, nowMessages.Keys);
    BackedPart(nowRam.table, nowRam.places, nowContacts.Keys, nowMessages.Keys);
    OwnersWithout(order, ram.table, ram.places, messages.Keys, slot);
    Untouch(order, ram.places, messages.Keys, slot);
    OwnersFrame(Without(order, ram.places[slot].index), ram.table, ram.places, nowRam.table, nowRam.places, nowMessages.Keys);
    SlotsFrame(Without(order, ram.places[slot].index), ram.places, nowRam.places, nowMessages.Keys);
  }

  /** A contact that the hash table has just removed was no longer listed. */
  lemma AfterRemove(card: Card, bits: seq<bool>, ram: Ram, contacts: map<nat, Contact>, messages: map<nat, seq<Message>>,
                    now: Card, nowBits: seq<bool>, nowRam: Ram, nowContacts: map<nat, Contact>, nowMessages: map<nat, seq<Message>>,
                    entries: seq<NameEntry>, order: seq<nat>, slot: nat)
    requires Holds(card, bits, ram, contacts, messages) && Holds(now, nowBits, nowRam, nowContacts, nowMessages)
    requires NamesOk(entries, ram.table, contacts) && SlotsFor(Mapped(SlotOf, entries), ram.places, contacts.Keys - {slot})
    requires SlotsFor(order, ram.places, messages.Keys) && slot in contacts && slot in ram.places
    requires nowContacts == contacts - {slot} && nowMessages == messages - {slot} && nowRam.places == ram.places - {slot}
    ensures Crossed(entries, Without(order, ram.places[slot].index), nowRam, nowContacts, nowMessages)
    ensures Owners(Without(order, ram.places[slot].index), nowRam.table) == Without(Owners(order, ram.table), slot)
  {
    hide *;
    TableFacts(card, bits, ram, contacts, messages);
    assert nowContacts.Keys == contacts.Keys - {slot};
    NamesFrame(entries, ram, contacts, nowRam, nowContacts, nowContacts.Keys, card, bits, messages, now, nowBits, nowMessages);
    OrderAfterDrop(card, bits, ram, contacts, messages, now, nowBits, nowRam, nowContacts, nowMessages, order, slot);
    CrossedParts(entries, Without(order, ram.places[slot].index), nowRam, nowContacts, nowMessages);
  }

  /** A chat has been removed; its contact is still listed. */
  lemma AfterUnchat(card: Card, bits: seq<bool>, ram: Ram, contacts: map<nat, Contact>, messages: map<nat, seq<Message>>,
                    now: Card, nowBits: seq<bool>, nowRam: Ram, nowContacts: map<nat, Contact>, nowMessages: map<nat, seq<Message>>,
                    entries: seq<NameEntry>, order: seq<nat>, slot: nat)
    requires Holds(card, bits, ram, contacts, messages) && Holds(now, nowBits, nowRam, nowContacts, nowMessages)
    requires Crossed(entries, order, ram, contacts, messages) && slot in contacts && slot in ram.places
    requires nowContacts == contacts && nowMessages == messages - {slot} && nowRam.places == ram.places
    ensures Crossed(entries, Without(order, ram.places[slot].index), nowRam, nowContacts, nowMessages)
    ensures Owners(Without(order, ram.places[slot].index), nowRam.table) == Without(Owners(order, ram.table), slot)
  {
    hide *;
    CrossedParts(entries, order, ram, contacts, messages);
    TableFacts(card, bits, ram, contacts, messages);
    NamesFrame(entries, ram, contacts, nowRam, nowContacts, nowContacts.Keys, card, bits, messages, now, nowBits, nowMessages);
    OrderAfterDrop(card, bits, ram, contacts, messages, now, nowBits, nowRam, nowContacts, nowMessages, order, slot);
    CrossedParts(entries, Without(order, ram.places[slot].index), nowRam, nowContacts, nowMessages);
  }

  /** A contact that is not listed has been rewritten, perhaps in another hash slot. */
  lemma AfterChange(card: Card, bits: seq<bool>, ram: Ram, contacts: map<nat, Contact>, messages: map<nat, seq<Message>>,
                    now: Card, nowBits: seq<bool>, nowRam: Ram, nowContacts: map<nat, Contact>,
                    entries: seq<NameEntry>, order: seq<nat>, slot: nat)
    requires Holds(card, bits, ram, contacts, messages) && Holds(now, nowBits, nowRam, nowContacts, messages)
    requires NamesOk(entries, ram.table, contacts) && SlotsFor(Mapped(SlotOf, entries), ram.places, contacts.Keys - {slot})
    requires SlotsFor(order, ram.places, messages.Keys) && slot in contacts && slot in ram.places && slot in nowRam.places && slot in nowContacts
    requires nowContacts == contacts[slot := nowContacts[slot]] && nowRam.places == ram.places[slot := nowRam.places[slot]]
    ensures NamesOk(entries, nowRam.table, nowContacts) && SlotsFor(Mapped(SlotOf, entries), nowRam.places, nowContacts.Keys - {slot})
    ensures ChatMoved(order, ram, nowRam, messages.Keys, slot)
  {
    hide *;
    TableFacts(card, bits, ram, contacts, messages);
    TableFacts(now, nowBits, nowRam, nowContacts, messages);
    assert nowContacts.Keys == contacts.Keys;
    NamesFrame(entries, ram, contacts, nowRam, nowContacts, contacts.Keys - {slot}, card, bits, messages, now, nowBits, messages);
    BackedPart(ram.table, ram.places, contacts.Keys, messages.Keys + {slot});
    BackedPart(nowRam.table, nowRam.places, contacts.Keys, messages.Keys + {slot});
    OwnersReplaced(order, ram.table, ram.places, nowRam.table, nowRam.places, messages.Keys, slot);
    MovedAs(order, ram, nowRam, messages.Keys, slot);
  }

  /** The chat order once a contact's hash slot is replaced by its new one. */
  ghost predicate ChatMoved(order: seq<nat>, ram: Ram, nowRam: Ram, chats: set<nat>, slot: nat) {
    && slot in ram.places && slot in nowRam.places
    && var j, k := ram.places[slot].index, nowRam.places[slot].index;
       && (k in order ==> k == j) && SlotsFor(Replaced(order, j, k), nowRam.places, chats)
       && Owners(Replaced(order, j, k), nowRam.table) == Owners(order, ram.table)
  }

  lemma MovedAs(order: seq<nat>, ram: Ram, nowRam: Ram, chats: set<nat>, slot: nat)
    ensures ChatMoved(order, ram, nowRam, chats, slot) <==>
      && slot in ram.places && slot in nowRam.places
      && (nowRam.places[slot].index in order ==> nowRam.places[slot].index == ram.places[slot].index)
      && SlotsFor(Replaced(order, ram.places[slot].index, nowRam.places[slot].index), nowRam.places, chats)
      && Owners(Replaced(order, ram.places[slot].index, nowRam.places[slot].index), nowRam.table) == Owners(order, ram.table)
  {
  }

  lemma BackedPart(table: seq<HashEntry>, places: map<nat, Place>, all: set<nat>, s: set<nat>)
    requires Backed(table, places, all) && s <= all
    ensures Backed(table, places, s)
  {
  }

  lemma MovePlaces(ram: Ram, slot: nat, phone: Text, p: Place)
    requires slot in ram.places
    ensures p.index < |ram.table| && ram.places[slot].index < |ram.table| ==>
      RamMove(ram, slot, ram.places[slot].index, phone, p).places == ram.places[slot := p]
    ensures ram.places == ram.places[slot := ram.places[slot]]
  {
  }

  lemma MessageSlot(was: map<nat, Contact>, contacts: map<nat, Contact>, phone: Text, slot: nat)
    requires WithPhone(was, contacts, phone, slot)
    ensures slot in contacts && contacts[slot].phone == phone
    ensures contacts == if HasPhone(was, phone) then was else was[slot := Contact([], phone)]
    ensures slot in was <==> HasPhone(was, phone)
  {
  }

  /** A message has been added to the chat of `slot`, which may be new, and so may its contact. */
  lemma AfterMessage(card: Card, bits: seq<bool>, ram: Ram, contacts: map<nat, Contact>, messages: map<nat, seq<Message>>,
                     now: Card, nowBits: seq<bool>, nowRam: Ram, nowContacts: map<nat, Contact>, nowMessages: map<nat, seq<Message>>,
                     entries: seq<NameEntry>, order: seq<nat>, slot: nat)
    requires Holds(card, bits, ram, contacts, messages) && Holds(now, nowBits, nowRam, nowContacts, nowMessages)
    requires slot in nowContacts && slot in nowRam.places
    requires if slot in contacts then nowContacts == contacts && nowRam.places == ram.places
             else nowContacts == contacts[slot := nowContacts[slot]] && nowRam.places == ram.places[slot := nowRam.places[slot]]
    requires Crossed(entries, order, ram, contacts, messages) && nowMessages.Keys == messages.Keys + {slot}
    ensures NamesOk(entries, nowRam.table, nowContacts)
    ensures SlotsFor(Mapped(SlotOf, entries), nowRam.places, if slot in contacts then nowContacts.Keys else nowContacts.Keys - {slot})
    ensures ChatFront(order, ram, nowRam, nowMessages.Keys, slot)
  {
    hide *;
    CrossedParts(entries, order, ram, contacts, messages);
    TableFacts(card, bits, ram, contacts, messages);
    NamesFrame(entries, ram, contacts, nowRam, nowContacts, contacts.Keys, card, bits, messages, now, nowBits, nowMessages);
    assert slot !in contacts ==> contacts.Keys == nowContacts.Keys - {slot};
    OrderAfterMessage(card, bits, ram, contacts, messages, now, nowBits, nowRam, nowContacts, nowMessages, order, slot);
  }

  lemma OrderAfterMessage(card: Card, bits: seq<bool>, ram: Ram, contacts: map<nat, Contact>, messages: map<nat, seq<Message>>,
                          now: Card, nowBits: seq<bool>, nowRam: Ram, nowContacts: map<nat, Contact>, nowMessages: map<nat, seq<Message>>,
                          order: seq<nat>, slot: nat)
    requires Holds(card, bits, ram, contacts, messages) && Holds(now, nowBits, nowRam, nowContacts, nowMessages)
    requires slot in nowContacts && slot in nowRam.places
    requires if slot in contacts then nowContacts == contacts && nowRam.places == ram.places
             else nowContacts == contacts[slot := nowContacts[slot]] && nowRam.places == ram.places[slot := nowRam.places[slot]]
    requires SlotsFor(order, ram.places, messages.Keys) && nowMessages.Keys == messages.Keys + {slot}
    ensures ChatFront(order, ram, nowRam, nowMessages.Keys, slot)
  {
    hide *;
    TableFacts(card, bits, ram, contacts, messages);
    TableFacts(now, nowBits, nowRam, nowContacts, nowMessages);
    ContactCount(now, nowBits, nowRam, nowContacts, nowMessages);
    BackedPart(ram.table, ram.places, contacts.Keys, messages.Keys);
    BackedPart(nowRam.table, nowRam.places, nowContacts.Keys, messages.Keys + {slot});
    OrderToFront(order, ram, nowRam, messages.Keys, nowContacts.Keys, slot);
  }

  lemma OrderToFront(order: seq<nat>, ram: Ram, now: Ram, s: set<nat>, all: set<nat>, slot: nat)
    requires SlotsFor(order, ram.places, s) && slot in now.places && Injective(now.places)
    requires forall x <- s :: x in now.places && now.places[x] == ram.places[x]
    requires Backed(ram.table, ram.places, s) && Backed(now.table, now.places, s + {slot}) && s + {slot} <= all && |all| <= MAX_CONTACTS
    ensures ChatFront(order, ram, now, s + {slot}, slot)
  {
    hide *;
    var j := now.places[slot].index;
    SlotsFrame(order, ram.places, now.places, s);
    BackedPart(now.table, now.places, s + {slot}, s);
    BackedAt(now.table, now.places, s + {slot}, slot);
    OwnersFrame(order, ram.table, ram.places, now.table, now.places, s);
    OwnersWithout(order, now.table, now.places, s, slot);
    Touched(order, now.places, s, slot);
    OwnersFirst(Without(order, j), now.table, j);
    RoomToTouch(order, now.places, s, all, slot);
    FrontAs(order, ram, now, s + {slot}, slot);
  }

  lemma BackedAt(table: seq<HashEntry>, places: map<nat, Place>, s: set<nat>, slot: nat)
    requires Backed(table, places, s) && slot in s
    ensures slot in places && places[slot].index < |table| && table[places[slot].index].sector == slot
  {
  }

  lemma OwnersFirst(order: seq<nat>, table: seq<HashEntry>, j: nat)
    requires j < |table|
    ensures Owners([j] + order, table) == [table[j].sector] + Owners(order, table)
  {
  }

  lemma RoomToTouch(order: seq<nat>, places: map<nat, Place>, s: set<nat>, all: set<nat>, slot: nat)
    requires SlotsFor(order, places, s) && slot in places && s + {slot} <= all && |all| <= MAX_CONTACTS
    ensures places[slot].index !in order ==> |order| < MAX_CONTACTS
  {
    SlotsHas(order, places, s);
    SlotsSize(order, places, s);
    if places[slot].index !in order {
      assert slot !in s;
      SubsetSize(s + {slot}, all);
    }
  }

  /** The chat order once the chat of `slot` is moved to the front, or put there. */
  ghost predicate ChatFront(order: seq<nat>, ram: Ram, nowRam: Ram, chats: set<nat>, slot: nat) {
    && slot in nowRam.places
    && var j := nowRam.places[slot].index;
       && (j !in order ==> |order| < MAX_CONTACTS) && SlotsFor([j] + Without(order, j), nowRam.places, chats)
       && Owners([j] + Without(order, j), nowRam.table) == [slot] + Without(Owners(order, ram.table), slot)
  }

  lemma FrontAs(order: seq<nat>, ram: Ram, nowRam: Ram, chats: set<nat>, slot: nat)
    requires slot in nowRam.places
    ensures ChatFront(order, ram, nowRam, chats, slot) <==>
      && (nowRam.places[slot].index !in order ==> |order| < MAX_CONTACTS)
      && SlotsFor([nowRam.places[slot].index] + Without(order, nowRam.places[slot].index), nowRam.places, chats)
      && Owners([nowRam.places[slot].index] + Without(order, nowRam.places[slot].index), nowRam.table) == [slot] + Without(Owners(order, ram.table), slot)
  {
  }

  const SMS_MAX_MESSAGE_LENGTH: nat := 160

  /** A message as it is stored: the text is cut to what fits with a terminator. */
  function CreateMessage(timestamp: nat, outgoing: bool, text: Text): Message {
    Message(timestamp, outgoing, if |text| >= SMS_MAX_MESSAGE_LENGTH then text[..SMS_MAX_MESSAGE_LENGTH - 1] else text)
  }

  /** When a message is stored: never for want of message sectors, of which there is one. */
  ghost predicate MessageAccepted(ram: Ram, contacts: map<nat, Contact>, phone: Text, timestamp: nat) {
    ValidPhone(phone) && timestamp != 0 && (HasPhone(contacts, phone) || ram.contactFree != [])
  }

  lemma AcceptedAs(ram: Ram, contacts: map<nat, Contact>, phone: Text, timestamp: nat)
    ensures MessageAccepted(ram, contacts, phone, timestamp) <==>
      ValidPhone(phone) && timestamp != 0 && (HasPhone(contacts, phone) || ram.contactFree != [])
  {
  }

  lemma LatestFacts(card: Card, bits: seq<bool>, ram: Ram, contacts: map<nat, Contact>, messages: map<nat, seq<Message>>, slot: nat)
    requires Holds(card, bits, ram, contacts, messages) && slot in contacts
    ensures slot in ram.places && ram.places[slot].index < |ram.table|
    ensures ram.table[ram.places[slot].index].latest == LastOr(ChainOf(ram.chats, slot))
    ensures LastOr(ChainOf(ram.chats, slot)) != NIL <==> slot in messages
  {
    ChatFacts(card, bits, ram, contacts, messages, slot);
  }

  /** Only the card has changed. */
  twostate lemma RamKept(t: HashTable)
    requires old(t.Shape() && t.InRam())
    requires unchanged(t, t.htable, t.contactAllocator, t.contactAllocator.stack, t.messageAllocator, t.messageAllocator.stack)
    requires Ready(t.storage, t.journal, t.bitmap) && Holds(t.storage.sectors, t.bitmap.bits, t.ram, t.contacts, t.messages)
    ensures t.Valid()
  {
  }

  lemma InsertPlaces(ram: Ram, slot: nat, phone: Text, p: Place, free: seq<nat>)
    requires p.index < |ram.table|
    ensures RamInsert(ram, slot, phone, p, free).places == ram.places[slot := p]
  {
  }

  /** What removing a chat does: the contact stays. */
  ghost predicate ChatRemoved(contacts: map<nat, Contact>, messages: map<nat, seq<Message>>, phone: Text, slot: nat, ret: Ret,
                              nowMessages: map<nat, seq<Message>>) {
    if !ValidPhone(phone) then ret == Fail && nowMessages == messages
    else if !HasPhone(contacts, phone) then ret == Empty && nowMessages == messages
    else
      && slot in contacts && contacts[slot].phone == phone
      && ret == (if slot in messages then Ok else Empty) && nowMessages == messages - {slot}
  }

  lemma ChatRemovedAs(contacts: map<nat, Contact>, messages: map<nat, seq<Message>>, phone: Text)
    ensures !ValidPhone(phone) ==> forall slot: nat :: ChatRemoved(contacts, messages, phone, slot, Fail, messages)
    ensures ValidPhone(phone) && !HasPhone(contacts, phone) ==> forall slot: nat :: ChatRemoved(contacts, messages, phone, slot, Empty, messages)
    ensures ValidPhone(phone) ==> forall slot <- contacts :: contacts[slot].phone == phone ==>
      && (slot !in messages ==> ChatRemoved(contacts, messages, phone, slot, Empty, messages))
      && (slot in messages ==> ChatRemoved(contacts, messages, phone, slot, Ok, messages - {slot}))
  {
    forall slot | slot in contacts && slot !in messages
      ensures messages - {slot} == messages
    {
    }
  }

  /** What reading a chat gives: at most `n` messages, newest first, from the one `start` places
      back. */
  ghost predicate ChatRead(contacts: map<nat, Contact>, messages: map<nat, seq<Message>>, phone: Text, start: nat, n: nat,
                           slot: nat, ret: Ret, out: seq<Message>) {
    if !ValidPhone(phone) then ret == Fail && out == []
    else if !HasPhone(contacts, phone) then ret == Empty && out == []
    else
      && slot in contacts && contacts[slot].phone == phone
      && if slot !in messages then ret == Empty && out == []
         else if n == 0 then ret == Ok && out == []
         else if start < |messages[slot]| then
           ret == Ok && out == Reversed(messages[slot])[start..if start + n < |messages[slot]| then start + n else |messages[slot]|]
         else ret == Fail && out == []
  }

  lemma AddedOk(ram: Ram, contacts: map<nat, Contact>, c: Contact, now: map<nat, Contact>)
    requires ContactAdded(ram, contacts, c, Ok, now)
    ensures !HasPhone(contacts, c.phone) && ram.contactFree != [] && now == contacts[Top(ram.contactFree) := c]
  {
  }

  lemma AddedAs(ram: Ram, contacts: map<nat, Contact>, c: Contact)
    ensures HasPhone(contacts, c.phone) ==> ContactAdded(ram, contacts, c, Exists, contacts)
    ensures !HasPhone(contacts, c.phone) && ram.contactFree == [] ==> ContactAdded(ram, contacts, c, Full, contacts)
    ensures !HasPhone(contacts, c.phone) && ram.contactFree != [] && Top(ram.contactFree) !in contacts ==>
      ContactAdded(ram, contacts, c, Ok, contacts[Top(ram.contactFree) := c])
  {
  }

  /** What adding a contact does to the contacts. */
  ghost predicate ContactAdded(ram: Ram, contacts: map<nat, Contact>, c: Contact, ret: Ret, now: map<nat, Contact>) {
    && ret == (if HasPhone(contacts, c.phone) then Exists else if ram.contactFree == [] then Full else Ok)
    && if ret == Ok then Top(ram.contactFree) !in contacts && now == contacts[Top(ram.contactFree) := c] else now == contacts
  }

  /** What removing a contact does: its messages go with it. */
  ghost predicate ContactRemoved(contacts: map<nat, Contact>, messages: map<nat, seq<Message>>, phone: Text, slot: nat, ret: Ret,
                                 now: map<nat, Contact>, nowMessages: map<nat, seq<Message>>) {
    if !ValidPhone(phone) || !HasPhone(contacts, phone) then
      ret == (if ValidPhone(phone) then Empty else Fail) && now == contacts && nowMessages == messages
    else
      && ret == Ok && slot in contacts && contacts[slot].phone == phone
      && now == contacts - {slot} && nowMessages == messages - {slot}
  }

  /** What changing a contact does. */
  ghost predicate ContactUpdated(contacts: map<nat, Contact>, phone: Text, c: Contact, slot: nat, ret: Ret, now: map<nat, Contact>) {
    if !ValidPhone(phone) || !ValidStr(c.name, MAX_NAME_LEN) || !ValidPhone(c.phone) then ret == Fail && now == contacts
    else if !HasPhone(contacts, phone) then ret == Empty && now == contacts
    else if c.phone != phone && HasPhone(contacts, c.phone) then ret == Exists && now == contacts
    else ret == Ok && slot in contacts && contacts[slot].phone == phone && now == contacts[slot := c]
  }

  lemma UpdatedAs(contacts: map<nat, Contact>, phone: Text, c: Contact)
    ensures !(ValidPhone(phone) && ValidStr(c.name, MAX_NAME_LEN) && ValidPhone(c.phone)) ==>
      forall slot: nat :: ContactUpdated(contacts, phone, c, slot, Fail, contacts)
    ensures ValidPhone(phone) && ValidStr(c.name, MAX_NAME_LEN) && ValidPhone(c.phone) ==>
      && (!HasPhone(contacts, phone) ==> forall slot: nat :: ContactUpdated(contacts, phone, c, slot, Empty, contacts))
      && (HasPhone(contacts, phone) && c.phone != phone && HasPhone(contacts, c.phone) ==>
           forall slot: nat :: ContactUpdated(contacts, phone, c, slot, Exists, contacts))
      && (HasPhone(contacts, phone) && !(c.phone != phone && HasPhone(contacts, c.phone)) ==>
           forall slot <- contacts :: contacts[slot].phone == phone ==> ContactUpdated(contacts, phone, c, slot, Ok, contacts[slot := c]))
  {
  }

  lemma RemovedAs(contacts: map<nat, Contact>, messages: map<nat, seq<Message>>, phone: Text)
    ensures !ValidPhone(phone) ==> forall slot: nat :: ContactRemoved(contacts, messages, phone, slot, Fail, contacts, messages)
    ensures ValidPhone(phone) && !HasPhone(contacts, phone) ==> forall slot: nat :: ContactRemoved(contacts, messages, phone, slot, Empty, contacts, messages)
    ensures ValidPhone(phone) ==> forall slot <- contacts :: contacts[slot].phone == phone ==>
      ContactRemoved(contacts, messages, phone, slot, Ok, contacts - {slot}, messages - {slot})
  {
  }
}
