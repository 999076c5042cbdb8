/** The operations on the hash table: each changes the table, the allocators, the bitmap and
    the card together. */
module HashOperations {
  import opened Layout
  import opened StorageCard
  import opened JournalLog
  import opened UsageBitmaps
  import opened Journals
  import opened CrashSafety
  import opened Transactions
  import opened FreeLists
  import opened Contacts
  import opened Messages
  import opened Probing
  import opened HashTables
  import opened Agreement
  import opened Contents

  class HashTable {
    const storage: Storage
    const journal: Journal
    const bitmap: UsageBitmap
    const contactAllocator: FreeList
    const messageAllocator: FreeList
    const htable: array<HashEntry>
    var numElems: nat
    // what card and RAM stand for
    ghost var ram: Ram
    ghost var contacts: map<nat, Contact>
    ghost var messages: map<nat, seq<Message>>

    constructor (storage: Storage, journal: Journal, bitmap: UsageBitmap, contactAllocator: FreeList, messageAllocator: FreeList,
                 htable: array<HashEntry>)
      ensures this.storage == storage && this.journal == journal && this.bitmap == bitmap && this.htable == htable
      ensures this.contactAllocator == contactAllocator && this.messageAllocator == messageAllocator
      ensures numElems == 0
    {
      this.storage, this.journal, this.bitmap, this.htable := storage, journal, bitmap, htable;
      this.contactAllocator, this.messageAllocator := contactAllocator, messageAllocator;
      numElems := 0;
    }

    ghost function Repr(): set<object> {
      {this, storage, journal, bitmap, bitmap.words, contactAllocator, contactAllocator.stack,
       messageAllocator, messageAllocator.stack, htable}
    }

    ghost predicate Shape()
      reads contactAllocator, messageAllocator
    {
      && journal.storage == storage && htable.Length == HASH_TABLE_SIZE
      && contactAllocator != messageAllocator && contactAllocator.stack != messageAllocator.stack
      && contactAllocator.Valid() && contactAllocator.stack.Length == MAX_CONTACTS
      && messageAllocator.Valid() && messageAllocator.stack.Length == MESSAGE_SECTORS
    }

    ghost predicate InRam()
      reads this, htable, contactAllocator, contactAllocator.stack, messageAllocator, messageAllocator.stack
    {
      && htable[..] == ram.table && numElems == ram.num
      && contactAllocator.Free() == ram.contactFree && contactAllocator.used == ram.contactUsed
      && messageAllocator.Free() == ram.messageFree
    }

    ghost predicate Valid()
      reads Repr(), journal.storage
    {
      && Shape() && InRam() && Ready(storage, journal, bitmap)
      && Holds(storage.sectors, bitmap.bits, ram, contacts, messages)
    }

    /** Nothing that lasts has changed. */
    twostate predicate Same()
      reads this, storage, journal, bitmap
    {
      Untouched(storage, journal, bitmap) && ram == old(ram) && contacts == old(contacts) && messages == old(messages)
    }

    lemma EntryInRam(index: nat)
      requires Valid() && (index < htable.Length || index < |ram.table|)
      ensures |ram.table| == htable.Length && htable[index] == ram.table[index] && |ram.table| == HASH_TABLE_SIZE
      ensures Holds(storage.sectors, bitmap.bits, ram, contacts, messages)
    {
    }

    /** The entry a phone number belongs to.  There always is one, since there are more entries
        than contacts: the branches of the callers that report a full table are never taken. */
    method FindEntryFor(phone: Text) returns (place: Place)
      requires Valid()
      ensures Valid() && EntryFor(ram, contacts, phone, place) && place.index < htable.Length
      ensures htable[place.index].state == EntryOccupied <==> HasPhone(contacts, phone)
    {
      hide Holds, EntryFor, HasPhone;
      place := LookUp(phone);
    }

    method LookUp(phone: Text) returns (place: Place)
      requires Valid()
      ensures EntryFor(ram, contacts, phone, place) && place.index < htable.Length
      ensures htable[place.index].state == EntryOccupied <==> HasPhone(contacts, phone)
    {
      assert bitmap.Valid();
      hide Ready, UsageBitmap.Valid;
      HoldsFacts(storage.sectors, bitmap.bits, ram, contacts, messages);
      RoomInTable(storage.sectors, bitmap.bits, ram, contacts, messages);
      hide Holds, TableOk, PhonesDistinct;
      var found;
      found, place := FindEntry(storage, bitmap, htable, phone, contacts, ram.places);
      if !found {
        assert false;
      }
      EntryIs(storage.sectors, bitmap.bits, ram, contacts, messages, phone, place);
    }

    /** Writes a contact to its slot: with a readable contact region this cannot fail, so the
        callers' undo of the entry is never needed. */
    method Store(slot: nat, c: Contact)
      requires Ready(storage, journal, bitmap) && ContactRegionOk(storage.sectors, bitmap.bits) && slot < MAX_CONTACTS
      modifies storage, journal, bitmap, bitmap.words
      ensures Ready(storage, journal, bitmap) && ContactRegionOk(storage.sectors, bitmap.bits)
      ensures ContactChanged(old(storage.sectors), old(bitmap.bits), storage.sectors, bitmap.bits, slot, Some(c))
      ensures RingsSame(old(storage.sectors), storage.sectors)
    {
      hide RingsSame, Ready, ContactChanged, ContactRegionOk;
      var ret := WriteContact(storage, journal, bitmap, slot, c);
      ContactRings(old(storage.sectors), old(bitmap.bits), storage.sectors, bitmap.bits, slot, Some(c));
    }

    /** Writes a contact to a slot fresh from the allocator and puts it into its entry. */
    method Fill(c: Contact, place: Place, slot: nat, ghost free: seq<nat>)
      requires Shape() && Ready(storage, journal, bitmap) && Holds(storage.sectors, bitmap.bits, ram, contacts, messages)
      requires EntryFor(ram, contacts, c.phone, place) && ram.table[place.index].state != EntryOccupied
      requires ram.contactFree == free + [slot] && slot < MAX_CONTACTS && ram.table == htable[..] && place.index < htable.Length
      modifies this, htable, storage, journal, bitmap, bitmap.words
      ensures Ready(storage, journal, bitmap) && Holds(storage.sectors, bitmap.bits, ram, contacts, messages)
      ensures ram == RamInsert(old(ram), slot, c.phone, place, free) && numElems == old(numElems) + 1
      ensures htable[..] == ram.table && slot !in old(contacts) && contacts == old(contacts)[slot := c] && messages == old(messages)
      ensures RingsSame(old(storage.sectors), storage.sectors)
    {
      hide RingsSame, Shape, Ready, Holds, EntryFor, ContactChanged, ContactRegionOk;
      RegionFacts(storage.sectors, bitmap.bits, ram, contacts, messages);
      htable[place.index] := HashEntry(HashPhone(c.phone), slot, NIL, EntryOccupied);
      numElems := numElems + 1;
      Store(slot, c);
      HoldsInsert(old(storage.sectors), old(bitmap.bits), ram, contacts, messages, storage.sectors, bitmap.bits, slot, c, place, free);
      ram, contacts := RamInsert(ram, slot, c.phone, place, free), contacts[slot := c];
    }

    /** Adds a contact to a vacant entry, unless there are no slots left. */
    method Add(c: Contact, place: Place) returns (ok: bool)
      requires Valid() && place.index < htable.Length
      requires EntryFor(ram, contacts, c.phone, place) && ram.table[place.index].state != EntryOccupied
      modifies Repr()
      ensures Valid() && (ok <==> old(ram).contactFree != [])
      ensures !ok ==> Same()
      ensures ok ==> var slot := Top(old(ram).contactFree);
        && slot !in old(contacts) && contacts == old(contacts)[slot := c] && messages == old(messages)
        && ram == RamInsert(old(ram), slot, c.phone, place, contactAllocator.Free())
        && ram.contactFree == old(ram).contactFree[..|old(ram).contactFree| - 1]
      ensures RingsSame(old(storage.sectors), storage.sectors)
    {
      hide RingsSame, Ready, Holds, EntryFor;
      RingsKept(storage.sectors);
      SlotsFacts(storage.sectors, bitmap.bits, ram, contacts, messages);
      var slot := contactAllocator.Allocate();
      AllocatedBelow(ram.contactFree, contactAllocator.Free(), slot, MAX_CONTACTS);
      ok := slot != NIL;
      if ok {
        Fill(c, place, slot, contactAllocator.Free());
      }
    }

    /** Adds a contact under a new phone number. */
    method InsertContact(c: Contact) returns (ret: Ret, index: nat, ghost place: Place)
      requires Valid()
      modifies Repr()
      ensures Valid()
      ensures ret == if HasPhone(old(contacts), c.phone) then Exists else if old(ram).contactFree == [] then Full else Ok
      ensures ret != Ok ==> Same()
      ensures index == place.index < |old(ram).table|
      ensures ret == Ok ==> var slot := Top(old(ram).contactFree);
        && slot !in old(contacts) && contacts == old(contacts)[slot := c] && messages == old(messages)
        && ram == RamInsert(old(ram), slot, c.phone, place, ram.contactFree)
        && ram.contactFree == old(ram).contactFree[..|old(ram).contactFree| - 1]
      ensures RingsSame(old(storage.sectors), storage.sectors)
    {
      hide RingsSame, Ready, Holds;
      RingsKept(storage.sectors);
      var entry := FindEntryFor(c.phone);
      hide EntryFor;
      index, place := entry.index, entry;
      if htable[index].state == EntryOccupied {
        ret := Exists;
      } else {
        var ok := Add(c, entry);
        ret := if ok then Ok else Full;
      }
    }

    /** Rewrites a contact under the phone number it has. */
    method Rewrite(c: Contact, slot: nat)
      requires Valid() && slot in contacts && contacts[slot].phone == c.phone
      modifies this`contacts, storage, journal, bitmap, bitmap.words
      ensures Valid() && ram == old(ram) && contacts == old(contacts)[slot := c] && messages == old(messages)
      ensures RingsSame(old(storage.sectors), storage.sectors)
    {
      hide RingsSame, Ready, Holds, ContactChanged, ContactRegionOk;
      RegionFacts(storage.sectors, bitmap.bits, ram, contacts, messages);
      ContactFacts(storage.sectors, bitmap.bits, ram, contacts, messages, slot);
      Store(slot, c);
      HoldsRename(old(storage.sectors), old(bitmap.bits), ram, contacts, messages, storage.sectors, bitmap.bits, slot, c);
      contacts := contacts[slot := c];
    }

    /** Moves a contact to the vacant entry of its new phone number. */
    method Move(c: Contact, was: nat, place: Place, ghost slot: nat)
      requires Shape() && Ready(storage, journal, bitmap) && Holds(storage.sectors, bitmap.bits, ram, contacts, messages)
      requires slot in contacts && slot in ram.places && was == ram.places[slot].index < htable.Length
      requires htable[was].sector == slot && ram.table == htable[..]
      requires EntryFor(ram, contacts, c.phone, place) && place.index < htable.Length && ram.table[place.index].state != EntryOccupied
      modifies this`ram, this`contacts, htable, storage, journal, bitmap, bitmap.words
      ensures Ready(storage, journal, bitmap) && Holds(storage.sectors, bitmap.bits, ram, contacts, messages)
      ensures contacts == old(contacts)[slot := c] && htable[..] == ram.table
      ensures was < |old(ram).table| && ram == RamMove(old(ram), slot, was, c.phone, place)
      ensures RingsSame(old(storage.sectors), storage.sectors)
    {
      hide RingsSame, Shape, Ready, Holds, ContactChanged, EntryFor, ContactRegionOk;
      RegionFacts(storage.sectors, bitmap.bits, ram, contacts, messages);
      ContactFacts(storage.sectors, bitmap.bits, ram, contacts, messages, slot);
      htable[place.index] := htable[was];
      htable[place.index] := htable[place.index].(id := HashPhone(c.phone));
      Store(htable[place.index].sector, c);
      HoldsMove(old(storage.sectors), old(bitmap.bits), ram, contacts, messages, storage.sectors, bitmap.bits, slot, was, c, place);
      htable[was] := htable[was].(state := EntryDeleted);
      ram, contacts := RamMove(ram, slot, was, c.phone, place), contacts[slot := c];
    }

    /** Gives a contact a new phone number, unless another contact has it. */
    method UpdatePhone(oldPhone: Text, c: Contact) returns (ret: Ret, ghost slot: nat, ghost place: Place)
      requires Valid()
      modifies Repr()
      ensures Valid()
      ensures ret == if !HasPhone(old(contacts), oldPhone) then Empty else if HasPhone(old(contacts), c.phone) then Exists else Ok
      ensures ret != Ok ==> Same()
      ensures ret == Ok ==>
        && slot in old(contacts) && old(contacts)[slot].phone == oldPhone && slot in old(ram).places
        && contacts == old(contacts)[slot := c] && messages == old(messages)
        && var was := old(ram).places[slot].index;
           was < |old(ram).table| && place.index < |old(ram).table| && ram == RamMove(old(ram), slot, was, c.phone, place)
      ensures RingsSame(old(storage.sectors), storage.sectors)
    {
      hide RingsSame, Valid, Repr, HasPhone, EntryFor, Holds, RamMove;
      RingsKept(storage.sectors);
      var entry := FindEntryFor(oldPhone);
      EntryInRam(entry.index);
      MessageEntryFacts(ram, contacts, oldPhone, entry);
      var vacant := Place(0, 0);
      slot, place := htable[entry.index].sector, vacant;
      if htable[entry.index].state != EntryOccupied {
        ret := Empty;
      } else {
        vacant := FindEntryFor(c.phone);
        EntryInRam(vacant.index);
        EntryInRam(entry.index);
        place := vacant;
        if htable[vacant.index].state == EntryOccupied {
          ret := Exists;
        } else {
          MoveTo(c, entry.index, vacant, htable[entry.index].sector);
          ret := Ok;
        }
      }
    }

    method MoveTo(c: Contact, was: nat, place: Place, ghost slot: nat)
      requires Valid() && slot in contacts && slot in ram.places && was == ram.places[slot].index < htable.Length
      requires htable[was].sector == slot
      requires EntryFor(ram, contacts, c.phone, place) && place.index < htable.Length && ram.table[place.index].state != EntryOccupied
      modifies Repr()
      ensures Valid() && contacts == old(contacts)[slot := c] && messages == old(messages)
      ensures was < |old(ram).table| && ram == RamMove(old(ram), slot, was, c.phone, place)
      ensures RingsSame(old(storage.sectors), storage.sectors)
    {
      hide RingsSame, Ready, Holds, EntryFor;
      Move(c, was, place, slot);
    }

    /** Rewrites a contact, under the same phone number or a new one. */
    method UpdateContact(oldPhone: Text, c: Contact) returns (ret: Ret, ghost slot: nat, ghost place: Place)
      requires Valid()
      modifies Repr()
      ensures Valid()
      ensures ret == if !HasPhone(old(contacts), oldPhone) then Empty
                     else if c.phone != oldPhone && HasPhone(old(contacts), c.phone) then Exists else Ok
      ensures ret != Ok ==> Same()
      ensures ret == Ok ==>
        && slot in old(contacts) && old(contacts)[slot].phone == oldPhone && slot in old(ram).places
        && contacts == old(contacts)[slot := c] && messages == old(messages)
        && var was := old(ram).places[slot].index;
           was < |old(ram).table| && place.index < |old(ram).table|
           && ram == if oldPhone == c.phone then old(ram) else RamMove(old(ram), slot, was, c.phone, place)
      ensures RingsSame(old(storage.sectors), storage.sectors)
    {
      hide RingsSame, Ready, Holds;
      RingsKept(storage.sectors);
      place := Place(0, 0);
      if oldPhone != c.phone {
        ret, slot, place := UpdatePhone(oldPhone, c);
      } else {
        var entry := FindEntryFor(c.phone);
        slot := htable[entry.index].sector;
        if htable[entry.index].state != EntryOccupied {
          ret := Empty;
        } else {
          Rewrite(c, htable[entry.index].sector);
          ret := Ok;
        }
      }
    }

    /** Starts the chat of a contact in a new sector, unless there are none left. */
    method StartChat(index: nat, slot: nat, msg: Message) returns (ok: bool)
      requires Valid() && slot in contacts && slot !in messages && slot in ram.places && index == ram.places[slot].index < htable.Length
      modifies Repr()
      ensures Valid() && contacts == old(contacts) && ram.places == old(ram).places && ram.contactFree == old(ram).contactFree
      ensures ok <==> old(ram).messageFree != []
      ensures if ok then messages == old(messages)[slot := [msg]] else Same()
      ensures RingsSame(old(storage.sectors), storage.sectors)
    {
      hide RingsSame, Ready, Holds;
      RingsKept(storage.sectors);
      AllocatorFacts(storage.sectors, bitmap.bits, ram, contacts, messages);
      var m := messageAllocator.Allocate();
      AllocatedBelow(ram.messageFree, messageAllocator.Free(), m, MESSAGE_SECTORS);
      ok := m != NIL;
      if ok {
        ghost var free := messageAllocator.Free();
        assert m == ram.messageFree[|ram.messageFree| - 1];
        WriteFirst(index, slot, m, free, msg);
      }
    }

    method WriteFirst(index: nat, slot: nat, m: nat, ghost free: seq<nat>, msg: Message)
      requires Shape() && Ready(storage, journal, bitmap) && Holds(storage.sectors, bitmap.bits, ram, contacts, messages)
      requires slot in contacts && slot !in messages && slot in ram.places && index == ram.places[slot].index < htable.Length
      requires ram.messageFree == free + [m] && m < MESSAGE_SECTORS && ram.table == htable[..]
      modifies this`ram, this`messages, htable, storage, journal, bitmap, bitmap.words
      ensures Ready(storage, journal, bitmap) && Holds(storage.sectors, bitmap.bits, ram, contacts, messages)
      ensures messages == old(messages)[slot := [msg]] && htable[..] == ram.table
      ensures index < |old(ram).table| && ram == RamChat(old(ram), slot, index, [m], free)
      ensures RingsSame(old(storage.sectors), storage.sectors)
    {
      hide RingsSame, Shape, Ready, Holds, OnlySector, InUse, SectorOf, NewSector;
      FreshSector(storage.sectors, bitmap.bits, ram, contacts, messages, free, m);
      var ret := WriteNewSector(storage, journal, bitmap, slot, NIL, m, msg);
      InUseSet(old(bitmap.bits), bitmap.bits, m);
      HoldsFirst(old(storage.sectors), old(bitmap.bits), ram, contacts, messages, storage.sectors, bitmap.bits, slot, m, free, msg);
      MessageRings(old(storage.sectors), old(bitmap.bits), storage.sectors, bitmap.bits, m);
      htable[index] := htable[index].(latest := m);
      ram, messages := RamChat(ram, slot, index, [m], free), messages[slot := [msg]];
    }

    /** Adds a message to the chat of a contact. */
    method ContinueChat(index: nat, slot: nat, msg: Message) returns (ok: bool)
      requires Valid() && slot in contacts && slot in messages && slot in ram.places && index == ram.places[slot].index < htable.Length
      requires ram.messageFree == [] ==> |messages[slot]| % MESSAGE_CAPACITY != 0
      modifies Repr()
      ensures Valid() && ok && contacts == old(contacts) && ram.places == old(ram).places && ram.contactFree == old(ram).contactFree
      ensures messages == old(messages)[slot := old(messages)[slot] + [msg]]
      ensures RingsSame(old(storage.sectors), storage.sectors)
    {
      hide RingsSame, Ready, Holds, OnlySector, InUse, SectorOf, WithMessage, IsMessageSector;
      ChatFacts(storage.sectors, bitmap.bits, ram, contacts, messages, slot);
      TailFacts(storage.sectors, bitmap.bits, ram, contacts, messages, slot);
      hide ChatOk, FreeOk;
      var latest := htable[index].latest;
      var ret := WriteMessage(storage, journal, bitmap, latest, msg);
      if ret == Full {
        ok := RollChat(index, slot, latest, msg);
      } else {
        MessageRings(old(storage.sectors), old(bitmap.bits), storage.sectors, bitmap.bits, latest);
        HoldsAppend(old(storage.sectors), old(bitmap.bits), ram, contacts, messages, storage.sectors, slot, latest, msg);
        messages := messages[slot := messages[slot] + [msg]];
        ok := ret == Ok;
      }
    }

    /** The newest sector of a chat is full: takes a new one.  The allocator must not be empty,
        which is not checked here. */
    method RollChat(index: nat, slot: nat, latest: nat, msg: Message) returns (ok: bool)
      requires Valid() && slot in contacts && slot in messages && slot in ram.places && index == ram.places[slot].index < htable.Length
      requires ram.messageFree != [] && latest == LastOr(ChainOf(ram.chats, slot)) && latest < MESSAGE_SECTORS && InUse(bitmap.bits, latest)
      requires IsMessageSector(SectorOf(storage.sectors, latest)) && SectorOf(storage.sectors, latest).count == MESSAGE_CAPACITY
      modifies Repr()
      ensures Valid() && ok && contacts == old(contacts) && ram.places == old(ram).places && ram.contactFree == old(ram).contactFree
      ensures messages == old(messages)[slot := old(messages)[slot] + [msg]]
      ensures RingsSame(old(storage.sectors), storage.sectors)
    {
      hide RingsSame, Ready, Holds, OnlySector, InUse, SectorOf, IsMessageSector, NewSector;
      AllocatorFacts(storage.sectors, bitmap.bits, ram, contacts, messages);
      var next := messageAllocator.Allocate();
      AllocatedBelow(ram.messageFree, messageAllocator.Free(), next, MESSAGE_SECTORS);
      WriteRolled(index, slot, latest, next, messageAllocator.Free(), msg);
      ok := true;
    }

    method WriteRolled(index: nat, slot: nat, latest: nat, next: nat, ghost free: seq<nat>, msg: Message)
      requires Shape() && Ready(storage, journal, bitmap) && Holds(storage.sectors, bitmap.bits, ram, contacts, messages)
      requires slot in contacts && slot in messages && slot in ram.places && index == ram.places[slot].index < htable.Length
      requires ram.messageFree == free + [next] && next < MESSAGE_SECTORS && ram.table == htable[..]
      requires latest == LastOr(ChainOf(ram.chats, slot)) && latest < MESSAGE_SECTORS && InUse(bitmap.bits, latest)
      requires IsMessageSector(SectorOf(storage.sectors, latest)) && SectorOf(storage.sectors, latest).count == MESSAGE_CAPACITY
      modifies this`ram, this`messages, htable, storage, journal, bitmap, bitmap.words
      ensures Ready(storage, journal, bitmap) && Holds(storage.sectors, bitmap.bits, ram, contacts, messages)
      ensures messages == old(messages)[slot := old(messages)[slot] + [msg]] && htable[..] == ram.table
      ensures index < |old(ram).table| && ram == RamChat(old(ram), slot, index, ChainOf(old(ram).chats, slot) + [next], free)
      ensures RingsSame(old(storage.sectors), storage.sectors)
    {
      hide RingsSame, Shape, Ready, Holds, OnlySector, InUse, SectorOf, NewSector, IsMessageSector;
      FreshSector(storage.sectors, bitmap.bits, ram, contacts, messages, free, next);
      ghost var mid;
      var ret;
      ret, mid := WriteNextSector(storage, journal, bitmap, slot, latest, next, msg);
      HoldsRolled(old(storage.sectors), old(bitmap.bits), ram, contacts, messages, storage.sectors, bitmap.bits, slot, latest, next, free, msg);
      RingsBehind(old(storage.sectors), storage.sectors, RawData(MessageDataSector(next)), RawData(MessageDataSector(latest)));
      MessagesAtSlot(messages, slot);
      htable[index] := htable[index].(latest := next);
      ram := RamChat(ram, slot, index, ChainOf(ram.chats, slot) + [next], free);
      messages := messages[slot := messages[slot] + [msg]];
    }

    /** Adds a message to the chat of a phone number, which becomes an unnamed contact if it is
        not one yet.  Without a free message sector a chat cannot start: the contact that was
        just made for it stays behind. */
    method InsertMessage(phone: Text, msg: Message) returns (ok: bool, ghost slot: nat, ghost place: Place)
      requires Valid()
      requires ram.messageFree == [] ==> !ChatFull(contacts, messages, phone)
      modifies Repr()
      ensures Valid()
      ensures !HasPhone(old(contacts), phone) && old(ram).contactFree == [] ==> !ok && Same()
      ensures HasPhone(old(contacts), phone) || old(ram).contactFree != [] ==>
        && WithPhone(old(contacts), contacts, phone, slot)
        && (ok <==> slot in old(messages) || old(ram).messageFree != [])
        && messages == (if ok then old(messages)[slot := MessagesOf(old(messages), slot) + [msg]] else old(messages))
      ensures HasPhone(old(contacts), phone) ==> slot in old(ram).places && ram.places == old(ram).places && ram.contactFree == old(ram).contactFree
      ensures !HasPhone(old(contacts), phone) && old(ram).contactFree != [] ==>
        && slot == Top(old(ram).contactFree) && ram.places == old(ram).places[slot := place]
        && ram.contactFree == old(ram).contactFree[..|old(ram).contactFree| - 1]
      ensures RingsSame(old(storage.sectors), storage.sectors)
    {
      hide RingsSame, Valid, Repr, Holds, ChatFull, MessagesOf, HasPhone, Top;
      RingsKept(storage.sectors);
      var entry := FindEntryFor(phone);
      EntryInRam(entry.index);
      place := entry;
      ok := true;
      var isNew := htable[entry.index].state != EntryOccupied;
      MessageEntryFacts(old(ram), old(contacts), phone, entry);
      hide EntryFor;
      if isNew {
        KeysFacts(storage.sectors, bitmap.bits, ram, contacts, messages);
        ok := Add(Contact([], phone), entry);
        EntryInRam(entry.index);
        if ok { RamInsertFacts(old(ram), Top(old(ram).contactFree), phone, entry, ram.contactFree); }
      }
      slot := htable[entry.index].sector;
      if ok {
        ghost var mid := storage.sectors;
        assert slot in contacts && contacts[slot].phone == phone;
        if !isNew && ram.messageFree == [] { NotFull(contacts, messages, phone, slot); }
        ok := PutMessage(entry.index, htable[entry.index].sector, msg);
        RingsTwice(old(storage.sectors), mid, storage.sectors);
      }
    }

    method PutMessage(index: nat, slot: nat, msg: Message) returns (ok: bool)
      requires Valid() && slot in contacts && slot in ram.places && index == ram.places[slot].index < htable.Length
      requires ram.messageFree == [] && slot in messages ==> |messages[slot]| % MESSAGE_CAPACITY != 0
      modifies Repr()
      ensures Valid() && contacts == old(contacts) && ram.places == old(ram).places && ram.contactFree == old(ram).contactFree
      ensures ok <==> slot in old(messages) || old(ram).messageFree != []
      ensures messages == if ok then old(messages)[slot := MessagesOf(old(messages), slot) + [msg]] else old(messages)
      ensures RingsSame(old(storage.sectors), storage.sectors)
    {
      hide RingsSame, Ready, Holds;
      ChatFacts(storage.sectors, bitmap.bits, ram, contacts, messages, slot);
      hide ChatOk, FreeOk, ChatMessages;
      if htable[index].latest == NIL {
        ok := StartChat(index, slot, msg);
        assert [] + [msg] == [msg];
      } else {
        ok := ContinueChat(index, slot, msg);
      }
    }

    /** Takes the chat of a contact out of use, each sector once. */
    method DropChat(index: nat, slot: nat)
      requires Valid() && slot in contacts && slot in ram.places && index == ram.places[slot].index < htable.Length
      modifies Repr()
      ensures Valid() && contacts == old(contacts) && ram.places == old(ram).places && ram.contactFree == old(ram).contactFree
      ensures messages == old(messages) - {slot} && htable[index].sector == old(htable[index].sector)
      ensures RingsSame(old(storage.sectors), storage.sectors)
    {
      hide RingsSame, Ready, Holds;
      ChatFacts(storage.sectors, bitmap.bits, ram, contacts, messages, slot);
      LinkFacts(storage.sectors, bitmap.bits, ram, contacts, messages);
      hide ChatOk, FreeOk, LinksInRange, ChatMessages, InUse, Partition, UsedSectors, Removals, ClearAll;
      ghost var chain, card, bits := ChainOf(ram.chats, slot), storage.sectors, bitmap.bits;
      var ok := RemoveChat(storage, journal, bitmap, messageAllocator, htable[index].latest, slot, chain);
      RingsBehind(card, storage.sectors, 0, 0);
      Unchain(index, slot, card, bits);
    }

    /** Forgets a chat whose sectors have just been taken out of use. */
    method Unchain(index: nat, slot: nat, ghost card: Card, ghost bits: seq<bool>)
      requires Shape() && Ready(storage, journal, bitmap) && Holds(card, bits, ram, contacts, messages)
      requires htable[..] == ram.table && numElems == ram.num && contactAllocator.Free() == ram.contactFree && contactAllocator.used == ram.contactUsed
      requires slot in contacts && slot in ram.places && index == ram.places[slot].index < htable.Length
      requires if slot in messages then
                 && bitmap.bits == ClearAll(bits, ChainOf(ram.chats, slot))
                 && Partition(messageAllocator.Free(), UsedSectors(bitmap.bits), MESSAGE_SECTORS)
                 && forall a :: DATA_START <= a < CARD_SECTORS ==> storage.sectors[a] == card[a]
               else storage.sectors == card && bitmap.bits == bits && messageAllocator.Free() == ram.messageFree && ram.table[index].latest == NIL
      modifies this`ram, this`messages, htable
      ensures Valid() && ram.places == old(ram).places && ram.contactFree == old(ram).contactFree
      ensures messages == old(messages) - {slot} && htable[index].sector == old(htable[index].sector)
    {
      hide Shape, Ready, Holds, ClearAll, Partition, UsedSectors;
      htable[index] := htable[index].(latest := NIL);
      if slot in messages {
        HoldsNoChat(card, bits, ram, contacts, messages, storage.sectors, bitmap.bits, slot, messageAllocator.Free());
        ram := RamChat(ram, slot, index, [], messageAllocator.Free());
      } else {
        assert htable[..] == ram.table;
        assert messages - {slot} == messages;
      }
      messages := messages - {slot};
    }

    /** Removes the chat of a phone number; the contact stays. */
    method RemoveMessage(phone: Text) returns (ok: bool, ghost slot: nat)
      requires Valid()
      modifies Repr()
      ensures Valid() && contacts == old(contacts) && ram.places == old(ram).places && ram.contactFree == old(ram).contactFree
      ensures ok <==> HasPhone(contacts, phone)
      ensures !ok ==> Same()
      ensures ok ==> slot in contacts && contacts[slot].phone == phone && messages == old(messages) - {slot}
      ensures RingsSame(old(storage.sectors), storage.sectors)
    {
      hide RingsSame, Ready, Holds;
      RingsKept(storage.sectors);
      var entry := FindEntryFor(phone);
      slot := htable[entry.index].sector;
      ok := htable[entry.index].state == EntryOccupied;
      if ok {
        DropChat(entry.index, htable[entry.index].sector);
      }
    }

    /** Removes a phone number's chat and contact. */
    method Remove(phone: Text) returns (ok: bool, ghost slot: nat)
      requires Valid()
      modifies Repr()
      ensures Valid()
      ensures ok <==> HasPhone(old(contacts), phone)
      ensures !ok ==> Same()
      ensures ok ==> slot in old(contacts) && old(contacts)[slot].phone == phone
      ensures ok ==> contacts == old(contacts) - {slot} && messages == old(messages) - {slot}
      ensures ok ==> ram.contactFree == old(ram).contactFree + [slot] && ram.places == old(ram).places - {slot}
      ensures RingsSame(old(storage.sectors), storage.sectors)
    {
      hide RingsSame, Ready, Holds;
      RingsKept(storage.sectors);
      var entry := FindEntryFor(phone);
      slot := htable[entry.index].sector;
      ok := htable[entry.index].state == EntryOccupied;
      if ok {
        DropChat(entry.index, htable[entry.index].sector);
        ghost var mid := storage.sectors;
        DropContact(entry.index, htable[entry.index].sector);
        RingsTwice(old(storage.sectors), mid, storage.sectors);
      }
    }

    method DropContact(index: nat, slot: nat)
      requires Valid() && slot in contacts && slot !in messages && slot in ram.places && index == ram.places[slot].index < htable.Length
      modifies Repr()
      ensures Valid() && contacts == old(contacts) - {slot} && messages == old(messages)
      ensures ram.contactFree == old(ram).contactFree + [slot] && ram.places == old(ram).places - {slot}
      ensures RingsSame(old(storage.sectors), storage.sectors)
    {
      hide RingsSame, Ready, Holds, ContactChanged, ContactRegionOk;
      SlotFacts(storage.sectors, bitmap.bits, ram, contacts, messages, slot);
      var ok, removed := RemoveContact(storage, journal, bitmap, contactAllocator, slot);
      HoldsRemove(old(storage.sectors), old(bitmap.bits), ram, contacts, messages, storage.sectors, bitmap.bits, slot);
      ContactRings(old(storage.sectors), old(bitmap.bits), storage.sectors, bitmap.bits, slot, None);
      htable[index] := htable[index].(state := EntryDeleted);
      numElems := numElems - 1;
      ram := RamRemove(ram, slot, index, ram.contactFree + [slot]);
      contacts := contacts - {slot};
    }
  }

  /** The contact of `phone` is in `slot`: it was there, or has just been made, unnamed. */
  ghost predicate WithPhone(was: map<nat, Contact>, contacts: map<nat, Contact>, phone: Text, slot: nat) {
    && slot in contacts && contacts[slot].phone == phone
    && contacts == (if HasPhone(was, phone) then was else was[slot := Contact([], phone)])
    && (!HasPhone(was, phone) ==> slot !in was)
  }

  /** The chat of `phone` ends in a full sector. */
  ghost predicate ChatFull(contacts: map<nat, Contact>, messages: map<nat, seq<Message>>, phone: Text) {
    exists s :: s in messages && s in contacts && contacts[s].phone == phone && |messages[s]| % MESSAGE_CAPACITY == 0
  }

  /** What an entry found for a phone number means. */
  lemma MessageEntryFacts(ram: Ram, contacts: map<nat, Contact>, phone: Text, p: Place)
    requires EntryFor(ram, contacts, phone, p)
    ensures p.index < |ram.table|
    ensures ram.table[p.index].state == EntryOccupied ==>
      var s := ram.table[p.index].sector;
      s in contacts && contacts[s].phone == phone && s in ram.places && ram.places[s].index == p.index && HasPhone(contacts, phone)
    ensures ram.table[p.index].state != EntryOccupied ==> !HasPhone(contacts, phone)
  {
  }

  lemma RamInsertFacts(ram: Ram, slot: nat, phone: Text, p: Place, free: seq<nat>)
    requires p.index < |ram.table|
    ensures var now := RamInsert(ram, slot, phone, p, free);
      && now.places == ram.places[slot := p] && |now.table| == |ram.table|
      && now.table[p.index].state == EntryOccupied && now.table[p.index].sector == slot && now.messageFree == ram.messageFree
  {
  }

  lemma NotFull(contacts: map<nat, Contact>, messages: map<nat, seq<Message>>, phone: Text, slot: nat)
    requires slot in contacts && contacts[slot].phone == phone && !ChatFull(contacts, messages, phone)
    ensures slot in messages ==> |messages[slot]| % MESSAGE_CAPACITY != 0
  {
  }

  lemma InUseSet(bits: seq<bool>, nowBits: seq<bool>, m: nat)
    requires |bits| == TOTAL_BITS && m < MESSAGE_SECTORS && nowBits == bits[MessageDataSector(m) := true]
    ensures |nowBits| == TOTAL_BITS && InUse(nowBits, m)
  {
  }

  /** The slot on top of a stack of free ones. */
  function Top(free: seq<nat>): nat {
    if free == [] then NIL else free[|free| - 1]
  }

  /** A lookup cannot come back without an entry. */
  lemma RoomInTable(card: Card, bits: seq<bool>, ram: Ram, contacts: map<nat, Contact>, messages: map<nat, seq<Message>>)
    requires Holds(card, bits, ram, contacts, messages)
    ensures TableOk(ram.table, contacts, ram.places)
    ensures exists j :: 0 <= j < |ram.table| && ram.table[j].state != EntryOccupied
    ensures forall j :: 0 <= j < |ram.table| && ram.table[j].state == EntryOccupied ==> ram.table[j].sector < MAX_CONTACTS
    ensures forall phone, p :: !FoundOk(ram.table, contacts, ram.places, phone, false, p)
  {
    TableHasRoom(ram.table, contacts, ram.places);
    EntriesInRange(ram.table, contacts, ram.places);
  }

  /** The allocator hands out an index below its capacity, or NIL when it has none left. */
  lemma AllocatedBelow(was: seq<nat>, now: seq<nat>, index: nat, capacity: nat)
    requires forall x <- was :: x < capacity
    requires if was == [] then index == NIL else was == now + [index]
    requires capacity <= NIL
    ensures was == [] <==> index == NIL
    ensures index < capacity || index == NIL
  {
    if was != [] { assert was[|was| - 1] == index; assert index in was; }
  }

  lemma EntriesInRange(table: seq<HashEntry>, contacts: map<nat, Contact>, places: map<nat, Place>)
    requires TableOk(table, contacts, places)
    requires forall s <- contacts :: s < MAX_CONTACTS
    ensures forall j :: 0 <= j < |table| && table[j].state == EntryOccupied ==> table[j].sector < MAX_CONTACTS
  {
    forall j | 0 <= j < |table| && table[j].state == EntryOccupied
      ensures table[j].sector < MAX_CONTACTS
    {
      assert table[j].sector in places;
    }
  }
}
