/** The phone database as a value: the contacts and the messages that card and RAM together
    stand for, and what each operation does to them. */
module Contents {
  import opened Layout
  import opened StorageCard
  import opened FreeLists
  import opened Contacts
  import opened Messages
  import opened HashTables
  import opened Agreement
  import opened Transactions

  /** The messages of every chat, by contact slot, oldest message first. */
  ghost function AllMessages(card: Card, chats: map<nat, seq<nat>>): map<nat, seq<Message>> {
    map s <- chats :: ChatMessages(card, chats[s])
  }

  function MessagesOf(messages: map<nat, seq<Message>>, slot: nat): seq<Message> {
    if slot in messages then messages[slot] else []
  }

  /** Card and RAM agree, and stand for these contacts and messages. */
  ghost predicate Holds(card: Card, bits: seq<bool>, ram: Ram, contacts: map<nat, Contact>, messages: map<nat, seq<Message>>) {
    Agree(card, bits, ram) && contacts == ContactMap(card, bits) && messages == AllMessages(card, ram.chats)
  }

  ghost predicate HasPhone(contacts: map<nat, Contact>, phone: Text) {
    exists s :: s in contacts && contacts[s].phone == phone
  }

  /** Entry `p` of the table belongs to `phone`: its contact's, or one that a new contact takes. */
  ghost predicate EntryFor(ram: Ram, contacts: map<nat, Contact>, phone: Text, p: Place) {
    && p.index < |ram.table|
    && (ram.table[p.index].state == EntryOccupied ==> OwnEntry(ram, contacts, phone, p))
    && (ram.table[p.index].state != EntryOccupied ==>
          |ram.table| > 1 && Vacant(ram.table, HashPhone(phone), p) && !HasPhone(contacts, phone))
  }

  predicate OwnEntry(ram: Ram, contacts: map<nat, Contact>, phone: Text, p: Place)
    requires p.index < |ram.table|
  {
    var s := ram.table[p.index].sector;
    && s in contacts && contacts[s].phone == phone && s in ram.places && ram.places[s].index == p.index
    && s < MAX_CONTACTS && ram.table[p.index].latest == LastOr(ChainOf(ram.chats, s))
  }

  // ----- what operations do to the values in RAM -----

  function RamInsert(ram: Ram, slot: nat, phone: Text, p: Place, free: seq<nat>): Ram
    requires p.index < |ram.table|
  {
    ram.(table := ram.table[p.index := NewEntry(slot, phone)], num := ram.num + 1,
         contactFree := free, contactUsed := ram.contactUsed + 1, places := ram.places[slot := p])
  }

  function RamMove(ram: Ram, slot: nat, was: nat, phone: Text, p: Place): Ram
    requires p.index < |ram.table| && was < |ram.table|
  {
    ram.(table := ram.table[p.index := ram.table[was].(id := HashPhone(phone))][was := ram.table[was].(state := EntryDeleted)],
         places := ram.places[slot := p])
  }

  /** The chat of the contact at `index` is now `chain`. */
  function RamChat(ram: Ram, slot: nat, index: nat, chain: seq<nat>, free: seq<nat>): Ram
    requires index < |ram.table|
  {
    ram.(table := ram.table[index := ram.table[index].(latest := LastOr(chain))],
         messageFree := free, chats := if chain == [] then ram.chats - {slot} else ram.chats[slot := chain])
  }

  function RamRemove(ram: Ram, slot: nat, index: nat, free: seq<nat>): Ram
    requires index < |ram.table| && ram.num > 0 && ram.contactUsed > 0
  {
    ram.(table := ram.table[index := ram.table[index].(state := EntryDeleted)], num := ram.num - 1,
         contactFree := free, contactUsed := ram.contactUsed - 1, places := ram.places - {slot})
  }

  // ----- and that card and RAM still agree -----

  lemma HoldsFacts(card: Card, bits: seq<bool>, ram: Ram, contacts: map<nat, Contact>, messages: map<nat, seq<Message>>)
    requires Holds(card, bits, ram, contacts, messages)
    ensures ContactRegionOk(card, bits) && |ram.table| == HASH_TABLE_SIZE
    ensures forall x <- ram.contactFree :: x < MAX_CONTACTS
    ensures forall x <- ram.messageFree :: x < MESSAGE_SECTORS
    ensures Partition(ram.messageFree, UsedSectors(bits), MESSAGE_SECTORS)
    ensures messages.Keys == ram.chats.Keys <= contacts.Keys
    ensures ram.num == ram.contactUsed == |contacts|
    ensures forall s <- contacts :: s < MAX_CONTACTS && ContactAt(card, bits, s) == Some(contacts[s])
    ensures PhonesDistinct(contacts)
  {
  }

  lemma RegionFacts(card: Card, bits: seq<bool>, ram: Ram, contacts: map<nat, Contact>, messages: map<nat, seq<Message>>)
    requires Holds(card, bits, ram, contacts, messages)
    ensures ContactRegionOk(card, bits)
  {
  }

  lemma SlotsFacts(card: Card, bits: seq<bool>, ram: Ram, contacts: map<nat, Contact>, messages: map<nat, seq<Message>>)
    requires Holds(card, bits, ram, contacts, messages)
    ensures forall x <- ram.contactFree :: x < MAX_CONTACTS
  {
  }

  lemma KeysFacts(card: Card, bits: seq<bool>, ram: Ram, contacts: map<nat, Contact>, messages: map<nat, seq<Message>>)
    requires Holds(card, bits, ram, contacts, messages)
    ensures messages.Keys <= contacts.Keys == ram.places.Keys
  {
  }

  lemma LinkFacts(card: Card, bits: seq<bool>, ram: Ram, contacts: map<nat, Contact>, messages: map<nat, seq<Message>>)
    requires Holds(card, bits, ram, contacts, messages)
    ensures LinksInRange(card, bits) && Partition(ram.messageFree, UsedSectors(bits), MESSAGE_SECTORS)
  {
    hide ChatsOk, ContactRegionOk, LinksInRange, UsedSectors, Partition, IndexOk;
    ChatsLinks(card, bits, ram.chats);
  }

  lemma SlotWidth(card: Card, bits: seq<bool>, ram: Ram, contacts: map<nat, Contact>, messages: map<nat, seq<Message>>, slot: nat)
    requires Holds(card, bits, ram, contacts, messages) && slot in contacts
    ensures slot <= 0xFFFF
  {
    ContactFacts(card, bits, ram, contacts, messages, slot);
  }

  lemma SlotFacts(card: Card, bits: seq<bool>, ram: Ram, contacts: map<nat, Contact>, messages: map<nat, seq<Message>>, slot: nat)
    requires Holds(card, bits, ram, contacts, messages) && slot in contacts
    ensures ContactRegionOk(card, bits) && slot < MAX_CONTACTS && ContactAt(card, bits, slot) == Some(contacts[slot])
    ensures |ram.contactFree| < MAX_CONTACTS && ram.contactUsed > 0 && ram.num > 0
  {
    PartitionRoom(ram.contactFree, contacts.Keys, MAX_CONTACTS, slot);
  }

  lemma AllocatorFacts(card: Card, bits: seq<bool>, ram: Ram, contacts: map<nat, Contact>, messages: map<nat, seq<Message>>)
    requires Holds(card, bits, ram, contacts, messages)
    ensures forall x <- ram.messageFree :: x < MESSAGE_SECTORS
  {
  }

  /** The sector on top of the allocator is not in use. */
  lemma FreshSector(card: Card, bits: seq<bool>, ram: Ram, contacts: map<nat, Contact>, messages: map<nat, seq<Message>>, free: seq<nat>, m: nat)
    requires Holds(card, bits, ram, contacts, messages) && ram.messageFree == free + [m]
    ensures |bits| == TOTAL_BITS && m < MESSAGE_SECTORS && !InUse(bits, m)
  {
    PartitionAllocate(free, UsedSectors(bits), MESSAGE_SECTORS, m);
  }

  lemma EntryIs(card: Card, bits: seq<bool>, ram: Ram, contacts: map<nat, Contact>, messages: map<nat, seq<Message>>, phone: Text, p: Place)
    requires Holds(card, bits, ram, contacts, messages)
    requires FoundOk(ram.table, contacts, ram.places, phone, true, p)
    ensures EntryFor(ram, contacts, phone, p)
  {
    FoundCases(ram.table, contacts, ram.places, phone, p);
  }

  lemma HoldsParts(card: Card, bits: seq<bool>, ram: Ram, contacts: map<nat, Contact>, messages: map<nat, seq<Message>>)
    ensures Holds(card, bits, ram, contacts, messages) <==>
      && StoreOk(card, bits, ram.chats) && IndexOk(contacts, ram) && FreeOk(contacts.Keys, UsedSectors(bits), ram)
      && contacts == ContactMap(card, bits) && messages == AllMessages(card, ram.chats)
  {
  }

  lemma HoldsInsert(card: Card, bits: seq<bool>, ram: Ram, contacts: map<nat, Contact>, messages: map<nat, seq<Message>>,
                    now: Card, nowBits: seq<bool>, slot: nat, c: Contact, p: Place, free: seq<nat>)
    requires Holds(card, bits, ram, contacts, messages) && ram.contactFree == free + [slot]
    requires ContactChanged(card, bits, now, nowBits, slot, Some(c)) && ContactRegionOk(now, nowBits)
    requires EntryFor(ram, contacts, c.phone, p) && ram.table[p.index].state != EntryOccupied
    ensures slot !in contacts && Holds(now, nowBits, RamInsert(ram, slot, c.phone, p, free), contacts[slot := c], messages)
  {
    hide ContactMap, Agree, ContactRegionOk, ContactChanged, ChatMessages, Vacant;
    forall s | s in contacts
      ensures contacts[s].phone != c.phone
    {
      assert !HasPhone(contacts, c.phone);
    }
    AgreeInsert(card, bits, ram, now, nowBits, slot, c, p, free);
  }

  lemma ContactFacts(card: Card, bits: seq<bool>, ram: Ram, contacts: map<nat, Contact>, messages: map<nat, seq<Message>>, slot: nat)
    requires Holds(card, bits, ram, contacts, messages) && slot in contacts
    ensures slot < MAX_CONTACTS && (slot in messages <==> slot in ram.chats)
    ensures forall s <- contacts :: s != slot ==> contacts[s].phone != contacts[slot].phone
  {
  }

  lemma MessagesKept(card: Card, now: Card, chats: map<nat, seq<nat>>)
    requires forall e <- chats :: ChatMessages(now, chats[e]) == ChatMessages(card, chats[e])
    ensures AllMessages(now, chats) == AllMessages(card, chats)
  {
  }

  lemma HoldsRename(card: Card, bits: seq<bool>, ram: Ram, contacts: map<nat, Contact>, messages: map<nat, seq<Message>>,
                    now: Card, nowBits: seq<bool>, slot: nat, c: Contact)
    requires Holds(card, bits, ram, contacts, messages) && slot in contacts && contacts[slot].phone == c.phone
    requires ContactChanged(card, bits, now, nowBits, slot, Some(c)) && ContactRegionOk(now, nowBits)
    ensures Holds(now, nowBits, ram, contacts[slot := c], messages)
  {
    hide *;
    ContactFacts(card, bits, ram, contacts, messages, slot);
    HoldsParts(card, bits, ram, contacts, messages);
    StoreContact(card, bits, now, nowBits, ram.chats, slot, c);
    MessagesKept(card, now, ram.chats);
    IndexRename(contacts, ram, slot, c);
    assert contacts[slot := c].Keys == contacts.Keys;
    HoldsParts(now, nowBits, ram, contacts[slot := c], messages);
  }

  lemma HoldsMove(card: Card, bits: seq<bool>, ram: Ram, contacts: map<nat, Contact>, messages: map<nat, seq<Message>>,
                  now: Card, nowBits: seq<bool>, slot: nat, was: nat, c: Contact, p: Place)
    requires Holds(card, bits, ram, contacts, messages) && slot in contacts
    requires slot in ram.places && was == ram.places[slot].index
    requires ContactChanged(card, bits, now, nowBits, slot, Some(c)) && ContactRegionOk(now, nowBits)
    requires EntryFor(ram, contacts, c.phone, p) && ram.table[p.index].state != EntryOccupied
    ensures was < |ram.table| && was != p.index
    ensures Holds(now, nowBits, RamMove(ram, slot, was, c.phone, p), contacts[slot := c], messages)
  {
    hide ContactMap, ContactAt, TableOk, LatestOk, StoreOk, ContactRegionOk, ContactChanged, Partition, UsedSectors, ChatMessages, Vacant;
    IndexMove(contacts, ram, slot, c, p, MovedTomb(ram, contacts, slot));
    StoreContact(card, bits, now, nowBits, ram.chats, slot, c);
    assert contacts[slot := c].Keys == contacts.Keys;
  }

  /** The tombstone that a moved contact leaves. */
  function MovedTomb(ram: Ram, contacts: map<nat, Contact>, slot: nat): HashEntry {
    if slot in ram.places && ram.places[slot].index < |ram.table| then ram.table[ram.places[slot].index].(state := EntryDeleted)
    else HashEntry(0, 0, 0, EntryDeleted)
  }

  lemma FreeReleased(contacts: set<nat>, used: set<nat>, ram: Ram, slot: nat, index: nat)
    requires FreeOk(contacts, used, ram) && slot in contacts && slot < MAX_CONTACTS && index < |ram.table| && ram.num > 0
    ensures ram.contactUsed > 0
    ensures FreeOk(contacts - {slot}, used, RamRemove(ram, slot, index, ram.contactFree + [slot]))
  {
    PartitionRelease(ram.contactFree, contacts, MAX_CONTACTS, slot);
  }

  lemma HoldsRemove(card: Card, bits: seq<bool>, ram: Ram, contacts: map<nat, Contact>, messages: map<nat, seq<Message>>,
                    now: Card, nowBits: seq<bool>, slot: nat)
    requires Holds(card, bits, ram, contacts, messages) && slot in contacts && slot !in messages && slot in ram.places
    requires ContactChanged(card, bits, now, nowBits, slot, None) && ContactRegionOk(now, nowBits)
    ensures ram.places[slot].index < |ram.table| && ram.num > 0 && ram.contactUsed > 0
    ensures Holds(now, nowBits, RamRemove(ram, slot, ram.places[slot].index, ram.contactFree + [slot]), contacts - {slot}, messages)
  {
    hide *;
    ContactFacts(card, bits, ram, contacts, messages, slot);
    HoldsParts(card, bits, ram, contacts, messages);
    RemovedIndex(contacts, ram, slot);
    StoreWithout(card, bits, now, nowBits, ram.chats, slot);
    MessagesKept(card, now, ram.chats);
    FreeReleased(contacts.Keys, UsedSectors(bits), ram, slot, ram.places[slot].index);
    assert (contacts - {slot}).Keys == contacts.Keys - {slot};
    var after := RamRemove(ram, slot, ram.places[slot].index, ram.contactFree + [slot]);
    RemovedChats(ram, slot, ram.places[slot].index, ram.contactFree + [slot]);
    HoldsParts(now, nowBits, after, contacts - {slot}, messages);
  }

  lemma RemovedChats(ram: Ram, slot: nat, index: nat, free: seq<nat>)
    requires index < |ram.table| && ram.num > 0 && ram.contactUsed > 0
    ensures RamRemove(ram, slot, index, free).chats == ram.chats
  {
  }

  lemma RemovedIndex(contacts: map<nat, Contact>, ram: Ram, slot: nat)
    requires IndexOk(contacts, ram) && slot in contacts && slot in ram.places
    ensures ram.places[slot].index < |ram.table| && ram.num > 0
    ensures ram.contactUsed > 0 ==>
      IndexOk(contacts - {slot}, RamRemove(ram, slot, ram.places[slot].index, ram.contactFree + [slot]))
  {
    IndexDelete(contacts, ram, slot, MovedTomb(ram, contacts, slot));
  }

  lemma FreeTaken(contacts: set<nat>, used: set<nat>, ram: Ram, free: seq<nat>, m: nat, index: nat, chain: seq<nat>, slot: nat)
    requires FreeOk(contacts, used, ram) && ram.messageFree == free + [m] && index < |ram.table|
    ensures m < MESSAGE_SECTORS && m !in used && FreeOk(contacts, used + {m}, RamChat(ram, slot, index, chain, free))
  {
    PartitionAllocate(free, used, MESSAGE_SECTORS, m);
  }

  /** The chat of a contact is now `chain`, and holds one message more. */
  lemma HoldsChat(card: Card, bits: seq<bool>, ram: Ram, contacts: map<nat, Contact>, messages: map<nat, seq<Message>>,
                  now: Card, nowBits: seq<bool>, slot: nat, index: nat, chain: seq<nat>, free: seq<nat>, all: seq<Message>)
    requires Holds(card, bits, ram, contacts, messages) && slot in contacts && slot in ram.places && index == ram.places[slot].index
    requires index < |ram.table| && ContactsSame(card, bits, now, nowBits)
    requires chain != [] && ChatOk(now, nowBits, slot, chain) && ChatMessages(now, chain) == all
    requires forall m <- ChainOf(ram.chats, slot) :: m in chain
    requires forall m :: 0 <= m < MESSAGE_SECTORS && m !in chain ==> SectorOf(now, m) == SectorOf(card, m) && InUse(nowBits, m) == InUse(bits, m)
    requires forall m <- chain :: m in ChainOf(ram.chats, slot) || !InUse(bits, m)
    requires FreeOk(contacts.Keys, UsedSectors(bits) + Elems(chain), RamChat(ram, slot, index, chain, free))
    ensures Holds(now, nowBits, RamChat(ram, slot, index, chain, free), contacts, messages[slot := all])
  {
    hide *;
    HoldsParts(card, bits, ram, contacts, messages);
    StoreParts(card, bits, ram.chats);
    ContactsFrame(card, bits, now, nowBits);
    ChatsReplace(card, bits, now, nowBits, ram.chats, slot, chain);
    MessagesReplaced(card, now, ram.chats, slot, chain);
    RelinkedIndex(contacts, ram, slot, chain, free);
    var after := RamChat(ram, slot, index, chain, free);
    StoreChat(card, bits, now, nowBits, contacts, ram.chats, slot, chain);
    RelinkedChats(ram, slot, index, chain, free);
    HoldsParts(now, nowBits, after, contacts, messages[slot := all]);
  }

  lemma StoreParts(card: Card, bits: seq<bool>, chats: map<nat, seq<nat>>)
    requires StoreOk(card, bits, chats)
    ensures ContactRegionOk(card, bits) && ChatsOk(card, bits, chats)
  {
  }

  lemma RelinkedChats(ram: Ram, slot: nat, index: nat, chain: seq<nat>, free: seq<nat>)
    requires index < |ram.table|
    ensures RamChat(ram, slot, index, chain, free).chats == if chain == [] then ram.chats - {slot} else ram.chats[slot := chain]
  {
  }

  lemma RelinkedIndex(contacts: map<nat, Contact>, ram: Ram, slot: nat, chain: seq<nat>, free: seq<nat>)
    requires IndexOk(contacts, ram) && slot in contacts && slot in ram.places
    ensures ram.places[slot].index < |ram.table|
    ensures IndexOk(contacts, RamChat(ram, slot, ram.places[slot].index, chain, free))
  {
    IndexLatest(contacts, ram, slot, LastOr(chain), if chain == [] then ram.chats - {slot} else ram.chats[slot := chain]);
  }

  lemma MessagesReplaced(card: Card, now: Card, chats: map<nat, seq<nat>>, slot: nat, chain: seq<nat>)
    requires forall e <- chats :: e != slot ==> ChatMessages(now, chats[e]) == ChatMessages(card, chats[e])
    ensures AllMessages(now, chats[slot := chain]) == AllMessages(card, chats)[slot := ChatMessages(now, chain)]
  {
  }

  lemma StoreChat(card: Card, bits: seq<bool>, now: Card, nowBits: seq<bool>, contacts: map<nat, Contact>,
                  chats: map<nat, seq<nat>>, slot: nat, chain: seq<nat>)
    requires StoreOk(card, bits, chats) && contacts == ContactMap(card, bits) == ContactMap(now, nowBits)
    requires ContactRegionOk(now, nowBits) && ChatsOk(now, nowBits, chats[slot := chain]) && slot in contacts
    ensures StoreOk(now, nowBits, chats[slot := chain])
  {
  }

  // ----- messages -----

  /** What the entry of a contact with a chat says, and where the chat is. */
  lemma ChatFacts(card: Card, bits: seq<bool>, ram: Ram, contacts: map<nat, Contact>, messages: map<nat, seq<Message>>, slot: nat)
    requires Holds(card, bits, ram, contacts, messages) && slot in contacts
    ensures slot in ram.places && ram.places[slot].index < |ram.table|
    ensures ram.table[ram.places[slot].index].latest == LastOr(ChainOf(ram.chats, slot))
    ensures slot in messages <==> ChainOf(ram.chats, slot) != []
    ensures slot in messages ==> ChatOk(card, bits, slot, ChainOf(ram.chats, slot))
    ensures slot in messages ==> slot in ram.chats && messages[slot] == ChatMessages(card, ram.chats[slot])
    ensures FreeOk(contacts.Keys, UsedSectors(bits), ram)
    ensures forall m <- ChainOf(ram.chats, slot) :: m < MESSAGE_SECTORS && InUse(bits, m)
    ensures slot in messages ==> LastOr(ChainOf(ram.chats, slot)) < MESSAGE_SECTORS
  {
    hide *;
    HoldsParts(card, bits, ram, contacts, messages);
    IndexEntry(contacts, ram, slot);
    StoreChats(card, bits, contacts, ram.chats, slot);
    assert messages == AllMessages(card, ram.chats);
    MessagesAt(card, ram.chats, slot);
    if slot in ram.chats {
      ChatInRange(card, bits, slot, ram.chats[slot]);
      LastInChain(ram.chats[slot]);
    }
    ChainAt(ram.chats, slot);
  }

  lemma ChainAt(chats: map<nat, seq<nat>>, slot: nat)
    ensures ChainOf(chats, slot) == if slot in chats then chats[slot] else []
  {
  }

  lemma IndexEntry(contacts: map<nat, Contact>, ram: Ram, slot: nat)
    requires IndexOk(contacts, ram) && slot in contacts
    ensures slot in ram.places && ram.places[slot].index < |ram.table|
    ensures ram.table[ram.places[slot].index].latest == LastOr(ChainOf(ram.chats, slot))
  {
  }

  lemma StoreChats(card: Card, bits: seq<bool>, contacts: map<nat, Contact>, chats: map<nat, seq<nat>>, slot: nat)
    requires StoreOk(card, bits, chats) && contacts == ContactMap(card, bits)
    ensures slot in chats ==> chats[slot] != [] && ChatOk(card, bits, slot, chats[slot])
  {
  }

  lemma MessagesAt(card: Card, chats: map<nat, seq<nat>>, slot: nat)
    ensures AllMessages(card, chats).Keys == chats.Keys
    ensures slot in chats ==> AllMessages(card, chats)[slot] == ChatMessages(card, chats[slot])
  {
  }

  /** The last sector of a chat is full exactly when its messages fill all its sectors. */
  lemma LastSectorFull(card: Card, bits: seq<bool>, contact: nat, chain: seq<nat>)
    requires ChatOk(card, bits, contact, chain)
    ensures var s := SectorOf(card, LastOr(chain));
            && InUse(bits, LastOr(chain)) && IsMessageSector(s) && 0 < s.count <= MESSAGE_CAPACITY
            && (s.count == MESSAGE_CAPACITY <==> |ChatMessages(card, chain)| % MESSAGE_CAPACITY == 0)
    ensures |ChatMessages(card, chain)| > 0
  {
    var k := |chain| - 1;
    FullSectors(card, bits, contact, chain, k);
    assert LinkOk(card, bits, contact, chain, k);
    hide ChatOk, LinkOk, SectorOf, InUse;
    assert ChatMessages(card, chain) == ChatMessages(card, chain[..k]) + SectorMessages(SectorOf(card, chain[k]));
  }

  lemma {:induction false} FullSectors(card: Card, bits: seq<bool>, contact: nat, chain: seq<nat>, k: nat)
    requires ChatOk(card, bits, contact, chain) && k < |chain|
    ensures |ChatMessages(card, chain[..k])| == k * MESSAGE_CAPACITY
  {
    if k > 0 {
      FullSectors(card, bits, contact, chain, k - 1);
      assert LinkOk(card, bits, contact, chain, k - 1);
      assert chain[..k][..k - 1] == chain[..k - 1];
    }
  }

  lemma OnlySectorFrame(was: Card, wasBits: seq<bool>, now: Card, nowBits: seq<bool>, m: nat)
    requires m < MESSAGE_SECTORS && OnlySector(was, wasBits, now, nowBits, MessageDataSector(m))
    ensures ContactsSame(was, wasBits, now, nowBits)
    ensures forall x :: 0 <= x < MESSAGE_SECTORS && x != m ==> SectorOf(now, x) == SectorOf(was, x) && InUse(nowBits, x) == InUse(wasBits, x)
  {
  }

  lemma RamUnchanged(ram: Ram, slot: nat, index: nat)
    requires index < |ram.table| && slot in ram.chats && ram.chats[slot] != []
    requires ram.table[index].latest == LastOr(ram.chats[slot])
    ensures RamChat(ram, slot, index, ram.chats[slot], ram.messageFree) == ram
    ensures RamChat(ram, slot, index, ram.chats[slot], ram.messageFree).chats == ram.chats
  {
    assert ram.chats[slot := ram.chats[slot]] == ram.chats;
  }

  lemma HoldsAppend(card: Card, bits: seq<bool>, ram: Ram, contacts: map<nat, Contact>, messages: map<nat, seq<Message>>,
                    now: Card, slot: nat, m: nat, msg: Message)
    requires Holds(card, bits, ram, contacts, messages) && slot in contacts && slot in messages
    requires m == LastOr(ChainOf(ram.chats, slot)) && m < MESSAGE_SECTORS && InUse(bits, m)
    requires IsMessageSector(SectorOf(card, m)) && SectorOf(card, m).count < MESSAGE_CAPACITY
    requires SectorOf(now, m) == WithMessage(SectorOf(card, m), msg)
    requires OnlySector(card, bits, now, bits, MessageDataSector(m))
    ensures Holds(now, bits, ram, contacts, messages[slot := messages[slot] + [msg]])
  {
    hide Holds, ChatOk, SectorOf, OnlySector, Partition, UsedSectors, ChatMessages, InUse, IsMessageSector, WithMessage, MessageDataSector,
      ContactsSame, FreeOk, LastOr;
    ChatFacts(card, bits, ram, contacts, messages, slot);
    OnlySectorFrame(card, bits, now, bits, m);
    var chain := ram.chats[slot];
    LastInChain(chain);
    AppendInPlace(card, bits, now, bits, slot, chain, msg);
    RamUnchanged(ram, slot, ram.places[slot].index);
    UsedAlready(contacts.Keys, bits, ram, chain);
    HoldsChat(card, bits, ram, contacts, messages, now, bits, slot, ram.places[slot].index, chain, ram.messageFree, messages[slot] + [msg]);
  }

  lemma LastInChain(chain: seq<nat>)
    requires chain != []
    ensures LastOr(chain) in chain
  {
  }

  lemma UsedAlready(contacts: set<nat>, bits: seq<bool>, ram: Ram, chain: seq<nat>)
    requires FreeOk(contacts, UsedSectors(bits), ram)
    requires forall m <- chain :: m < MESSAGE_SECTORS && InUse(bits, m)
    ensures FreeOk(contacts, UsedSectors(bits) + Elems(chain), ram)
  {
    assert UsedSectors(bits) + Elems(chain) == UsedSectors(bits);
  }

  /** A chat that now goes on in, or starts with, the sector on top of the allocator. */
  lemma HoldsLonger(card: Card, bits: seq<bool>, ram: Ram, contacts: map<nat, Contact>, messages: map<nat, seq<Message>>,
                    now: Card, nowBits: seq<bool>, slot: nat, m: nat, free: seq<nat>, msg: Message)
    requires Holds(card, bits, ram, contacts, messages) && slot in contacts && ram.messageFree == free + [m]
    requires ContactsSame(card, bits, now, nowBits)
    requires var chain := ChainOf(ram.chats, slot) + [m];
      && ChatOk(now, nowBits, slot, chain) && ChatMessages(now, chain) == MessagesOf(messages, slot) + [msg]
      && forall x :: 0 <= x < MESSAGE_SECTORS && x !in chain ==> SectorOf(now, x) == SectorOf(card, x) && InUse(nowBits, x) == InUse(bits, x)
    ensures slot in ram.places && ram.places[slot].index < |ram.table|
    ensures Holds(now, nowBits, RamChat(ram, slot, ram.places[slot].index, ChainOf(ram.chats, slot) + [m], free), contacts,
                  messages[slot := MessagesOf(messages, slot) + [msg]])
  {
    hide *;
    ChatFacts(card, bits, ram, contacts, messages, slot);
    var chain := ChainOf(ram.chats, slot) + [m];
    FreeTaken(contacts.Keys, UsedSectors(bits), ram, free, m, ram.places[slot].index, chain, slot);
    UsedOnce(bits, ChainOf(ram.chats, slot), m);
    HoldsChat(card, bits, ram, contacts, messages, now, nowBits, slot, ram.places[slot].index, chain, free, MessagesOf(messages, slot) + [msg]);
  }

  lemma UsedOnce(bits: seq<bool>, chain: seq<nat>, m: nat)
    requires forall x <- chain :: x < MESSAGE_SECTORS && InUse(bits, x)
    requires m < MESSAGE_SECTORS && m !in UsedSectors(bits)
    ensures !InUse(bits, m) && m !in chain
    ensures UsedSectors(bits) + Elems(chain + [m]) == UsedSectors(bits) + {m}
    ensures forall x <- chain + [m] :: x in chain || !InUse(bits, x)
    ensures forall x <- chain :: x in chain + [m]
  {
  }

  lemma HoldsFirst(card: Card, bits: seq<bool>, ram: Ram, contacts: map<nat, Contact>, messages: map<nat, seq<Message>>,
                   now: Card, nowBits: seq<bool>, slot: nat, m: nat, free: seq<nat>, msg: Message)
    requires Holds(card, bits, ram, contacts, messages) && slot in contacts && slot !in messages && ram.messageFree == free + [m]
    requires m < MESSAGE_SECTORS && InUse(nowBits, m) && SectorOf(now, m) == NewSector(slot, NIL, msg)
    requires |nowBits| == TOTAL_BITS && OnlySector(card, bits, now, nowBits, MessageDataSector(m))
    ensures slot in ram.places && ram.places[slot].index < |ram.table|
    ensures Holds(now, nowBits, RamChat(ram, slot, ram.places[slot].index, [m], free), contacts, messages[slot := [msg]])
  {
    hide *;
    ChatFacts(card, bits, ram, contacts, messages, slot);
    OnlySectorFrame(card, bits, now, nowBits, m);
    SlotWidth(card, bits, ram, contacts, messages, slot);
    FirstMessage(now, nowBits, slot, m, msg);
    NoMessages(messages, slot);
    assert [] + [m] == [m] && [] + [msg] == [msg];
    HoldsLonger(card, bits, ram, contacts, messages, now, nowBits, slot, m, free, msg);
  }

  lemma HoldsRolled(card: Card, bits: seq<bool>, ram: Ram, contacts: map<nat, Contact>, messages: map<nat, seq<Message>>,
                    now: Card, nowBits: seq<bool>, slot: nat, prev: nat, m: nat, free: seq<nat>, msg: Message)
    requires Holds(card, bits, ram, contacts, messages) && slot in contacts && slot in messages && ram.messageFree == free + [m]
    requires prev == LastOr(ChainOf(ram.chats, slot)) && m < MESSAGE_SECTORS && prev < MESSAGE_SECTORS
    requires IsMessageSector(SectorOf(card, prev)) && SectorOf(card, prev).count == MESSAGE_CAPACITY
    requires |bits| == TOTAL_BITS && nowBits == bits[MessageDataSector(m) := true]
    requires SectorOf(now, m) == NewSector(slot, prev, msg) && SectorOf(now, prev) == SectorOf(card, prev).(next := m)
    requires forall a :: DATA_START <= a < CARD_SECTORS && a != RawData(MessageDataSector(m)) && a != RawData(MessageDataSector(prev)) ==>
      now[a] == card[a]
    ensures slot in ram.places && ram.places[slot].index < |ram.table|
    ensures Holds(now, nowBits, RamChat(ram, slot, ram.places[slot].index, ChainOf(ram.chats, slot) + [m], free), contacts,
                  messages[slot := MessagesOf(messages, slot) + [msg]])
  {
    hide *;
    ChatFacts(card, bits, ram, contacts, messages, slot);
    var chain := ChainOf(ram.chats, slot);
    FreeTaken(contacts.Keys, UsedSectors(bits), ram, free, m, ram.places[slot].index, chain, slot);
    UsedOnce(bits, chain, m);
    LastInChain(chain);
    ChainAt(ram.chats, slot);
    MessagesAtSlot(messages, slot);
    Rolled(card, bits, now, nowBits, slot, chain, prev, m, msg);
    HoldsLonger(card, bits, ram, contacts, messages, now, nowBits, slot, m, free, msg);
  }

  lemma Rolled(card: Card, bits: seq<bool>, now: Card, nowBits: seq<bool>, slot: nat, chain: seq<nat>, prev: nat, m: nat, msg: Message)
    requires ChatOk(card, bits, slot, chain) && prev == LastOr(chain) && prev in chain && m !in chain
    requires m < MESSAGE_SECTORS && prev < MESSAGE_SECTORS && forall x <- chain :: x < MESSAGE_SECTORS && InUse(bits, x)
    requires IsMessageSector(SectorOf(card, prev)) && SectorOf(card, prev).count == MESSAGE_CAPACITY
    requires |bits| == TOTAL_BITS && nowBits == bits[MessageDataSector(m) := true]
    requires SectorOf(now, m) == NewSector(slot, prev, msg) && SectorOf(now, prev) == SectorOf(card, prev).(next := m)
    requires forall a :: DATA_START <= a < CARD_SECTORS && a != RawData(MessageDataSector(m)) && a != RawData(MessageDataSector(prev)) ==>
      now[a] == card[a]
    ensures ContactsSame(card, bits, now, nowBits)
    ensures ChatOk(now, nowBits, slot, chain + [m]) && ChatMessages(now, chain + [m]) == ChatMessages(card, chain) + [msg]
    ensures forall x :: 0 <= x < MESSAGE_SECTORS && x !in chain + [m] ==> SectorOf(now, x) == SectorOf(card, x) && InUse(nowBits, x) == InUse(bits, x)
  {
    TwoSectorsFrame(card, bits, now, nowBits, m, prev);
    assert LinkedBehind(card, now, nowBits, slot, chain, m, msg);
    hide *;
    RollOver(card, bits, now, nowBits, slot, chain, m, msg);
  }

  lemma NoMessages(messages: map<nat, seq<Message>>, slot: nat)
    requires slot !in messages
    ensures MessagesOf(messages, slot) == []
  {
  }

  lemma MessagesAtSlot(messages: map<nat, seq<Message>>, slot: nat)
    requires slot in messages
    ensures MessagesOf(messages, slot) == messages[slot]
  {
  }

  lemma TwoSectorsFrame(card: Card, bits: seq<bool>, now: Card, nowBits: seq<bool>, m: nat, prev: nat)
    requires m < MESSAGE_SECTORS && prev < MESSAGE_SECTORS
    requires |bits| == TOTAL_BITS && nowBits == bits[MessageDataSector(m) := true]
    requires forall a :: DATA_START <= a < CARD_SECTORS && a != RawData(MessageDataSector(m)) && a != RawData(MessageDataSector(prev)) ==>
      now[a] == card[a]
    ensures ContactsSame(card, bits, now, nowBits) && |nowBits| == TOTAL_BITS && InUse(nowBits, m)
    ensures forall x :: 0 <= x < MESSAGE_SECTORS && x != m ==> InUse(nowBits, x) == InUse(bits, x)
    ensures forall x :: 0 <= x < MESSAGE_SECTORS && x != m && x != prev ==> SectorOf(now, x) == SectorOf(card, x)
  {
  }

  // ----- removing a chat -----

  lemma HoldsNoChat(card: Card, bits: seq<bool>, ram: Ram, contacts: map<nat, Contact>, messages: map<nat, seq<Message>>,
                    now: Card, nowBits: seq<bool>, slot: nat, free: seq<nat>)
    requires Holds(card, bits, ram, contacts, messages) && slot in contacts && slot in messages
    requires nowBits == ClearAll(bits, ChainOf(ram.chats, slot)) && Partition(free, UsedSectors(nowBits), MESSAGE_SECTORS)
    requires forall a :: DATA_START <= a < CARD_SECTORS ==> now[a] == card[a]
    ensures slot in ram.places && ram.places[slot].index < |ram.table|
    ensures Holds(now, nowBits, RamChat(ram, slot, ram.places[slot].index, [], free), contacts, messages - {slot})
  {
    var chain := ChainOf(ram.chats, slot);
    SameDataFrame(card, bits, now, chain);
    hide *;
    HoldsParts(card, bits, ram, contacts, messages);
    ChatFacts(card, bits, ram, contacts, messages, slot);
    ChainAt(ram.chats, slot);
    StoreParts(card, bits, ram.chats);
    ContactsFrame(card, bits, now, nowBits);
    ChatsRemove(card, bits, now, ram.chats, slot);
    MessagesRemoved(card, now, ram.chats, slot);
    RelinkedIndex(contacts, ram, slot, [], free);
    RelinkedChats(ram, slot, ram.places[slot].index, [], free);
    StoreNoChat(card, bits, now, nowBits, contacts, ram.chats, slot);
    FreeGiven(contacts.Keys, UsedSectors(bits), UsedSectors(nowBits), ram, slot, ram.places[slot].index, free);
    HoldsParts(now, nowBits, RamChat(ram, slot, ram.places[slot].index, [], free), contacts, messages - {slot});
  }

  lemma SameDataFrame(card: Card, bits: seq<bool>, now: Card, chain: seq<nat>)
    requires forall a :: DATA_START <= a < CARD_SECTORS ==> now[a] == card[a]
    ensures |bits| == TOTAL_BITS ==> ContactsSame(card, bits, now, ClearAll(bits, chain))
    ensures forall m :: 0 <= m < MESSAGE_SECTORS ==> SectorOf(now, m) == SectorOf(card, m)
  {
  }

  lemma MessagesRemoved(card: Card, now: Card, chats: map<nat, seq<nat>>, slot: nat)
    requires forall e <- chats - {slot} :: ChatMessages(now, chats[e]) == ChatMessages(card, chats[e])
    ensures AllMessages(now, chats - {slot}) == AllMessages(card, chats) - {slot}
  {
  }

  lemma StoreNoChat(card: Card, bits: seq<bool>, now: Card, nowBits: seq<bool>, contacts: map<nat, Contact>,
                    chats: map<nat, seq<nat>>, slot: nat)
    requires StoreOk(card, bits, chats) && contacts == ContactMap(card, bits) == ContactMap(now, nowBits)
    requires ContactRegionOk(now, nowBits) && ChatsOk(now, nowBits, chats - {slot})
    ensures StoreOk(now, nowBits, chats - {slot})
  {
  }

  lemma FreeGiven(contacts: set<nat>, used: set<nat>, now: set<nat>, ram: Ram, slot: nat, index: nat, free: seq<nat>)
    requires FreeOk(contacts, used, ram) && Partition(free, now, MESSAGE_SECTORS) && index < |ram.table|
    ensures FreeOk(contacts, now, RamChat(ram, slot, index, [], free))
  {
  }

  /** The newest sector of a chat, as an append finds it. */
  lemma TailFacts(card: Card, bits: seq<bool>, ram: Ram, contacts: map<nat, Contact>, messages: map<nat, seq<Message>>, slot: nat)
    requires Holds(card, bits, ram, contacts, messages) && slot in contacts && slot in messages
    ensures var m := LastOr(ChainOf(ram.chats, slot));
      && m < MESSAGE_SECTORS && InUse(bits, m) && IsMessageSector(SectorOf(card, m)) && SectorOf(card, m).count <= MESSAGE_CAPACITY
      && (SectorOf(card, m).count == MESSAGE_CAPACITY <==> |messages[slot]| % MESSAGE_CAPACITY == 0)
  {
    hide *;
    ChatFacts(card, bits, ram, contacts, messages, slot);
    ChainAt(ram.chats, slot);
    LastSectorFull(card, bits, slot, ChainOf(ram.chats, slot));
  }

  // ----- the rings are elsewhere -----

  lemma ContactRings(was: Card, wasBits: seq<bool>, now: Card, nowBits: seq<bool>, slot: nat, c: Option<Contact>)
    requires ContactChanged(was, wasBits, now, nowBits, slot, c)
    ensures RingsSame(was, now)
  {
  }

  lemma MessageRings(was: Card, wasBits: seq<bool>, now: Card, nowBits: seq<bool>, m: nat)
    requires OnlySector(was, wasBits, now, nowBits, MessageDataSector(m)) && m < MESSAGE_SECTORS
    ensures RingsSame(was, now)
  {
  }
}
