/** The phone database: the hash table with the contacts and chats, the name index, the chat order
    and the two histories, kept in step by every operation. */
module Databases {
  import opened Layout
  import opened StorageCard
  import opened UsageBitmaps
  import opened Journals
  import opened CrashSafety
  import opened Transactions
  import opened FreeLists
  import opened Contacts
  import opened Messages
  import opened Backwards
  import opened HashTables
  import opened Agreement
  import opened Contents
  import opened HashOperations
  import opened Rings
  import opened Histories
  import opened IndexOrder
  import opened NameOrder
  import opened Heaps
  import opened SortedArrays
  import opened ChatOrders
  import opened CrossIndex
  import opened DatabaseFacts

  class Database {
    const t: HashTable
    const names: SortedArray
    const order: ChatOrder
    const messageHistory: History
    const callHistory: History

    constructor (t: HashTable, names: SortedArray, order: ChatOrder, messageHistory: History, callHistory: History)
      ensures this.t == t && this.names == names && this.order == order
      ensures this.messageHistory == messageHistory && this.callHistory == callHistory
    {
      this.t, this.names, this.order, this.messageHistory, this.callHistory := t, names, order, messageHistory, callHistory;
    }

    // ----- what holds between operations -----

    ghost predicate Apart() {
      && order.mem != t.contactAllocator.stack && order.mem != t.messageAllocator.stack
      && HistoryApart(messageHistory) && HistoryApart(callHistory) && messageHistory != callHistory
      && messageHistory.start == MESSAGE_HISTORY_START && messageHistory.size == MESSAGE_HISTORY_SECTORS
      && messageHistory.kind == MessageHistoryKind && messageHistory.capacity == MESSAGE_HISTORY_CAPACITY
      && callHistory.start == CALL_HISTORY_START && callHistory.size == CALL_HISTORY_SECTORS
      && callHistory.kind == CallHistoryKind && callHistory.capacity == CALL_HISTORY_CAPACITY
    }

    ghost predicate HistoryApart(h: History) {
      h.storage == t.storage && h.journal == t.journal && h.bitmap == t.bitmap
    }

    ghost predicate Fitting()
      reads names, order, order.mem
    {
      names.mem.Length == MAX_CONTACTS && names.occupancy <= names.mem.Length && order.Valid()
    }

    ghost function State(): set<object> {
      t.Repr() + {t.journal.storage, names, names.mem, order, order.mem, messageHistory, messageHistory.storage, callHistory, callHistory.storage}
    }

    /** What operations change. */
    ghost function Parts(): set<object> {
      t.Repr() + {names, names.mem, order, order.mem, messageHistory, callHistory}
    }

    /** Every part is in order by itself. */
    ghost predicate Steady()
      reads State()
    {
      Apart() && t.Valid() && Fitting() && messageHistory.Valid() && callHistory.Valid()
    }

    /** Name index and chat order are in step with the hash table. */
    ghost predicate InStep()
      reads t, names, names.mem, order, order.mem
    {
      Crossed(names.Entries(), order.Order(), t.ram, t.contacts, t.messages)
    }

    ghost predicate Valid()
      reads State()
    {
      Steady() && InStep()
    }

    /** The contacts with a chat, most recent chat first. */
    ghost function Chats(): seq<nat>
      reads t, order, order.mem
    {
      Owners(order.Order(), t.ram.table)
    }

    // ----- what an operation leaves alone -----

    twostate predicate TableSame()
      reads t
    {
      t.ram == old(t.ram) && t.contacts == old(t.contacts) && t.messages == old(t.messages)
    }

    twostate predicate NamesSame()
      reads names, names.mem
    {
      names.Entries() == old(names.Entries())
    }

    twostate predicate OrderSame()
      reads order, order.mem
    {
      order.Order() == old(order.Order())
    }

    twostate predicate HistorySame(h: History)
      reads h
    {
      h.pages == old(h.pages) && h.Log() == old(h.Log())
    }

    twostate predicate HistoriesSame()
      reads messageHistory, callHistory
    {
      HistorySame(messageHistory) && HistorySame(callHistory)
    }

    /** Only the name index and the chat order have been at work. */
    twostate lemma OnlyIndexes()
      requires old(Steady()) && Fitting()
      requires unchanged(t, t.storage, t.journal, t.bitmap, t.bitmap.words, t.contactAllocator, t.contactAllocator.stack)
      requires unchanged(t.messageAllocator, t.messageAllocator.stack, t.htable, messageHistory, callHistory)
      ensures Steady() && TableSame() && HistoriesSame()
    {
      hide Ready, Holds, HashTable.Shape, HashTable.InRam;
    }

    /** Only the hash table has been at work. */
    twostate lemma OnlyTable()
      requires old(Steady()) && t.Valid() && RingsSame(old(t.storage.sectors), t.storage.sectors)
      requires unchanged(names, names.mem, order, order.mem, messageHistory, callHistory)
      ensures Steady() && NamesSame() && OrderSame() && HistoriesSame()
    {
      RingsFrame(old(t.storage.sectors), t.storage.sectors, messageHistory.start, messageHistory.size);
      RingsFrame(old(t.storage.sectors), t.storage.sectors, callHistory.start, callHistory.size);
      HistoryKept(messageHistory);
      HistoryKept(callHistory);
    }

    lemma SteadyTable()
      requires Steady()
      ensures t.Valid() && order.mem != t.contactAllocator.stack && order.mem != t.messageAllocator.stack
    {
      hide Ready, Holds, HashTable.Shape, HashTable.InRam;
    }

    lemma SteadyHolds()
      requires Steady()
      ensures Holds(t.storage.sectors, t.bitmap.bits, t.ram, t.contacts, t.messages)
    {
      hide Ready, Holds, HashTable.Shape, HashTable.InRam;
    }

    // ----- the name index -----

    /** Enters a contact of the hash table into the name index.  It always fits, so the callers'
        undo is never needed. */
    method Enlist(c: Contact, index: nat, ghost slot: nat) returns (ret: Ret)
      requires Steady() && slot in t.contacts && slot in t.ram.places
      requires c == t.contacts[slot] && index == t.ram.places[slot].index
      requires NamesOk(names.Entries(), t.ram.table, t.contacts) && SlotsFor(Mapped(SlotOf, names.Entries()), t.ram.places, t.contacts.Keys - {slot})
      modifies names, names.mem
      ensures ret == Ok && Steady() && TableSame() && OrderSame() && HistoriesSame()
      ensures NamesOk(names.Entries(), t.ram.table, t.contacts) && SlotsFor(Mapped(SlotOf, names.Entries()), t.ram.places, t.contacts.Keys)
    {
      hide HashTable.Valid, History.Valid, Holds, NamesOk, SlotsFor, Names, EntryOk, Named, FreeLists.Distinct, Mapped, History.Log;
      ghost var entries := names.Entries();
      SteadyHolds();
      Unlisted(t.storage.sectors, t.bitmap.bits, t.ram, t.contacts, t.messages, entries, slot);
      ret := names.Insert(t, c, index);
      OnlyIndexes();
      Enlisted(t.storage.sectors, t.bitmap.bits, t.ram, t.contacts, t.messages, entries, names.Entries(), slot);
    }

    /** Takes a contact out of the name index. */
    method Delist(c: Contact, ghost slot: nat) returns (ret: Ret)
      requires Steady() && slot in t.contacts && c == t.contacts[slot]
      requires NamesOk(names.Entries(), t.ram.table, t.contacts) && SlotsFor(Mapped(SlotOf, names.Entries()), t.ram.places, t.contacts.Keys)
      modifies names, names.mem
      ensures ret == Ok && Steady() && TableSame() && OrderSame() && HistoriesSame()
      ensures NamesOk(names.Entries(), t.ram.table, t.contacts) && SlotsFor(Mapped(SlotOf, names.Entries()), t.ram.places, t.contacts.Keys - {slot})
    {
      hide HashTable.Valid, History.Valid, Holds, NamesOk, SlotsFor, Names, EntryOk, Named, FreeLists.Distinct, Mapped, History.Log;
      ghost var entries := names.Entries();
      SteadyHolds();
      IsListed(t.storage.sectors, t.bitmap.bits, t.ram, t.contacts, t.messages, entries, slot);
      ghost var e;
      ret, e := names.Remove(t, c);
      OnlyIndexes();
      Delisted(t.storage.sectors, t.bitmap.bits, t.ram, t.contacts, t.messages, entries, names.Entries(), slot, e);
    }

    // ----- reading the hash table -----

    /** The hash slot of a phone number's contact. */
    method FindOccupied(phone: Text) returns (found: bool, index: nat, ghost slot: nat)
      requires Steady()
      ensures Steady() && (found <==> HasPhone(t.contacts, phone))
      ensures found ==> At(phone, index, slot)
    {
      hide Ready, Holds, History.Valid, HasPhone;
      var place := t.FindEntryFor(phone);
      found, index, slot := t.htable[place.index].state == EntryOccupied, place.index, t.htable[place.index].sector;
    }

    /** The contact of `phone` is contact `slot`, in hash slot `index`. */
    ghost predicate At(phone: Text, index: nat, slot: nat)
      reads t
    {
      slot in t.contacts && t.contacts[slot].phone == phone && slot in t.ram.places && index == t.ram.places[slot].index
    }

    lemma AtFacts(phone: Text, index: nat, slot: nat)
      requires Steady() && At(phone, index, slot)
      ensures |t.ram.table| == t.htable.Length && index < t.htable.Length && t.htable[index] == t.ram.table[index]
      ensures t.ram.table[index].sector == slot && t.ram.table[index].state == EntryOccupied
      ensures t.ram.table[index].latest == LastOr(ChainOf(t.ram.chats, slot))
      ensures LastOr(ChainOf(t.ram.chats, slot)) != NIL <==> slot in t.messages
    {
      hide Ready, Holds, History.Valid;
      TableFacts(t.storage.sectors, t.bitmap.bits, t.ram, t.contacts, t.messages);
      LatestFacts(t.storage.sectors, t.bitmap.bits, t.ram, t.contacts, t.messages, slot);
    }

    /** The hash slot of a contact that is there. */
    method FindAgain(phone: Text, ghost slot: nat) returns (index: nat)
      requires Steady() && slot in t.contacts && t.contacts[slot].phone == phone
      ensures Steady() && At(phone, index, slot)
    {
      hide Steady;
      var found;
      ghost var owner;
      SteadyHolds();
      PhoneOwner(t.storage.sectors, t.bitmap.bits, t.ram, t.contacts, t.messages, phone, slot);
      found, index, owner := FindOccupied(phone);
    }

    /** Reads the contact of an occupied hash slot. */
    method ReadFound(phone: Text, index: nat, ghost slot: nat) returns (ret: Ret, c: Contact)
      requires Steady() && At(phone, index, slot)
      ensures Steady() && ret == Ok && c == t.contacts[slot]
    {
      hide Ready, Holds, History.Valid;
      AtFacts(phone, index, slot);
      ret, c := ReadOccupied(t, index);
    }

    /** The newest sector of a contact's chat. */
    method Latest(phone: Text, index: nat, ghost slot: nat) returns (latest: nat)
      requires Steady() && At(phone, index, slot)
      ensures Steady() && latest == LastOr(ChainOf(t.ram.chats, slot)) && (latest != NIL <==> slot in t.messages)
    {
      hide Steady;
      AtFacts(phone, index, slot);
      latest := t.htable[index].latest;
    }

    // ----- changing the hash table and the card -----

    /** Adds a contact that the name index does not list yet. */
    method AddStored(c: Contact) returns (ret: Ret, index: nat, ghost slot: nat)
      requires Valid()
      modifies t.Repr()
      ensures Steady() && NamesSame() && OrderSame() && HistoriesSame()
      ensures ContactAdded(old(t.ram), old(t.contacts), c, ret, t.contacts) && t.messages == old(t.messages)
      ensures ret != Ok ==> TableSame()
      ensures ret == Ok ==>
        && slot in t.contacts && t.contacts[slot] == c && At(c.phone, index, slot)
        && NamesOk(names.Entries(), t.ram.table, t.contacts) && SlotsFor(Mapped(SlotOf, names.Entries()), t.ram.places, t.contacts.Keys - {slot})
        && SlotsFor(order.Order(), t.ram.places, t.messages.Keys) && Owners(order.Order(), t.ram.table) == Owners(order.Order(), old(t.ram).table)
    {
      hide HashTable.Valid, History.Valid, Crossed, FreeLists.Distinct, HasPhone, RingsSame, Holds, RamInsert, Top, ContactAdded, Owners, NamesOk, SlotsFor, Mapped, History.Log;
      SteadyHolds();
      AddedAs(t.ram, t.contacts, c);
      ghost var place;
      ret, index, place := t.InsertContact(c);
      OnlyTable();
      slot := Top(old(t.ram).contactFree);
      if ret == Ok {
        InsertPlaces(old(t.ram), slot, c.phone, place, t.ram.contactFree);
        SteadyHolds();
        AfterInsert(old(t.storage.sectors), old(t.bitmap.bits), old(t.ram), old(t.contacts), t.storage.sectors, t.bitmap.bits, t.ram, t.contacts,
                    t.messages, names.Entries(), order.Order(), slot);
      }
    }

    /** Removes a contact that is no longer listed by name. */
    method DropStored(phone: Text, index: nat, ghost slot: nat) returns (ret: Ret)
      requires Steady() && At(phone, index, slot)
      requires NamesOk(names.Entries(), t.ram.table, t.contacts) && SlotsFor(Mapped(SlotOf, names.Entries()), t.ram.places, t.contacts.Keys - {slot})
      requires SlotsFor(order.Order(), t.ram.places, t.messages.Keys)
      modifies t.Repr()
      ensures ret == Ok && Steady() && NamesSame() && OrderSame() && HistoriesSame()
      ensures t.contacts == old(t.contacts) - {slot} && t.messages == old(t.messages) - {slot}
      ensures Crossed(names.Entries(), Without(order.Order(), index), t.ram, t.contacts, t.messages)
      ensures Owners(Without(order.Order(), index), t.ram.table) == Without(Owners(order.Order(), old(t.ram).table), slot)
    {
      hide HashTable.Valid, History.Valid, Crossed, FreeLists.Distinct, HasPhone, RingsSame, Holds, Owners, NamesOk, SlotsFor, Mapped, History.Log, Without;
      SteadyHolds();
      PhoneOwner(t.storage.sectors, t.bitmap.bits, t.ram, t.contacts, t.messages, phone, slot);
      var ok;
      ghost var removed;
      ok, removed := t.Remove(phone);
      ret := if ok then Ok else Fail;
      OnlyTable();
      SteadyHolds();
      AfterRemove(old(t.storage.sectors), old(t.bitmap.bits), old(t.ram), old(t.contacts), old(t.messages),
                  t.storage.sectors, t.bitmap.bits, t.ram, t.contacts, t.messages, names.Entries(), order.Order(), slot);
    }

    /** Rewrites a contact that is not listed by name. */
    method ChangeStored(phone: Text, c: Contact, index: nat, ghost slot: nat) returns (ret: Ret)
      requires Steady() && At(phone, index, slot)
      requires NamesOk(names.Entries(), t.ram.table, t.contacts) && SlotsFor(Mapped(SlotOf, names.Entries()), t.ram.places, t.contacts.Keys - {slot})
      requires SlotsFor(order.Order(), t.ram.places, t.messages.Keys)
      modifies t.Repr()
      ensures Steady() && NamesSame() && OrderSame() && HistoriesSame() && t.messages == old(t.messages)
      ensures ret == if c.phone != phone && HasPhone(old(t.contacts), c.phone) then Exists else Ok
      ensures ret != Ok ==> TableSame()
      ensures ret == Ok ==>
        && t.contacts == old(t.contacts)[slot := c]
        && NamesOk(names.Entries(), t.ram.table, t.contacts) && SlotsFor(Mapped(SlotOf, names.Entries()), t.ram.places, t.contacts.Keys - {slot})
        && ChatMoved(order.Order(), old(t.ram), t.ram, t.messages.Keys, slot)
    {
      hide HashTable.Valid, History.Valid, Crossed, FreeLists.Distinct, HasPhone, RingsSame, Holds, NamesOk, SlotsFor, Mapped, History.Log, RamMove, ChatMoved;
      SteadyHolds();
      PhoneOwner(t.storage.sectors, t.bitmap.bits, t.ram, t.contacts, t.messages, phone, slot);
      ghost var owner, place;
      ret, owner, place := t.UpdateContact(phone, c);
      OnlyTable();
      if ret == Ok {
        SteadyHolds();
        MovePlaces(old(t.ram), slot, c.phone, place);
        AfterChange(old(t.storage.sectors), old(t.bitmap.bits), old(t.ram), old(t.contacts), old(t.messages),
                    t.storage.sectors, t.bitmap.bits, t.ram, t.contacts, names.Entries(), order.Order(), slot);
      }
    }

    /** Adds a message to the hash table and the card. */
    method SayStored(phone: Text, msg: Message, isNew: bool) returns (ok: bool, ghost slot: nat)
      requires Valid() && t.ram.messageFree != []
      requires isNew <==> !HasPhone(t.contacts, phone)
      modifies t.Repr()
      ensures Steady() && NamesSame() && OrderSame() && HistoriesSame()
      ensures ok <==> !isNew || old(t.ram).contactFree != []
      ensures !ok ==> TableSame()
      ensures ok ==>
        && WithPhone(old(t.contacts), t.contacts, phone, slot) && slot in t.contacts && t.contacts[slot].phone == phone
        && (isNew ==> t.contacts[slot] == Contact([], phone))
        && t.messages == old(t.messages)[slot := MessagesOf(old(t.messages), slot) + [msg]]
        && NamesOk(names.Entries(), t.ram.table, t.contacts)
        && SlotsFor(Mapped(SlotOf, names.Entries()), t.ram.places, if isNew then t.contacts.Keys - {slot} else t.contacts.Keys)
        && ChatFront(order.Order(), old(t.ram), t.ram, t.messages.Keys, slot)
    {
      hide Steady, Crossed, HasPhone, Holds, NamesOk, SlotsFor, Mapped, History.Log, ChatFront, WithPhone, MessagesOf, HashTable.Repr, SortedArray.Entries, ChatOrder.Order;
      SteadyHolds();
      ghost var place;
      ok, slot, place := SayInTable(phone, msg);
      SteadyHolds();
      if ok {
        MessageSlot(old(t.contacts), t.contacts, phone, slot);
        AfterMessage(old(t.storage.sectors), old(t.bitmap.bits), old(t.ram), old(t.contacts), old(t.messages),
                     t.storage.sectors, t.bitmap.bits, t.ram, t.contacts, t.messages, names.Entries(), order.Order(), slot);
      }
    }

    method SayInTable(phone: Text, msg: Message) returns (ok: bool, ghost slot: nat, ghost place: Place)
      requires Steady() && t.ram.messageFree != []
      modifies t.Repr()
      ensures Steady() && NamesSame() && OrderSame() && HistoriesSame()
      ensures ok <==> HasPhone(old(t.contacts), phone) || old(t.ram).contactFree != []
      ensures !ok ==> TableSame()
      ensures ok ==> WithPhone(old(t.contacts), t.contacts, phone, slot)
      ensures ok ==> t.messages == old(t.messages)[slot := MessagesOf(old(t.messages), slot) + [msg]]
      ensures ok && HasPhone(old(t.contacts), phone) ==> slot in old(t.ram).places && t.ram.places == old(t.ram).places
      ensures ok && !HasPhone(old(t.contacts), phone) ==> t.ram.places == old(t.ram).places[slot := place]
    {
      hide Steady, HashTable.Valid, HasPhone, RingsSame, History.Log, ChatFull, Top, WithPhone, MessagesOf, SortedArray.Entries, ChatOrder.Order;
      SteadyTable();
      ok, slot, place := t.InsertMessage(phone, msg);
      OnlyTable();
    }

    // ----- the chat order -----

    /** Moves a chat to the front of the chat order. */
    method Front(index: nat, ghost slot: nat, ghost was: Ram) returns (ret: Ret)
      requires Steady() && slot in t.ram.places && index == t.ram.places[slot].index
      requires ChatFront(order.Order(), was, t.ram, t.messages.Keys, slot)
      modifies order, order.mem
      ensures ret == Ok && Steady() && TableSame() && NamesSame() && HistoriesSame()
      ensures SlotsFor(order.Order(), t.ram.places, t.messages.Keys)
      ensures Owners(order.Order(), t.ram.table) == [slot] + Without(Owners(old(order.Order()), was.table), slot)
    {
      hide HashTable.Valid, History.Valid, SlotsFor, FreeLists.Distinct, Owners, ChatFront, Without, History.Log;
      FrontAs(order.Order(), was, t.ram, t.messages.Keys, slot);
      ret := order.Touch(index);
      OnlyIndexes();
    }

    /** Takes a chat out of the chat order. */
    method Unchat(index: nat)
      requires Steady()
      modifies order, order.mem
      ensures Steady() && TableSame() && NamesSame() && HistoriesSame()
      ensures order.Order() == Without(old(order.Order()), index)
    {
      hide HashTable.Valid, History.Valid, FreeLists.Distinct, Without, History.Log;
      var ret := order.Remove(index);
      OnlyIndexes();
    }

    /** A chat keeps its place when its contact has moved to another hash slot. */
    method Reslot(index: nat, now: nat, ghost slot: nat, ghost was: Ram)
      requires Steady() && ChatMoved(order.Order(), was, t.ram, t.messages.Keys, slot)
      requires slot in was.places && index == was.places[slot].index && slot in t.ram.places && now == t.ram.places[slot].index
      modifies order, order.mem
      ensures Steady() && TableSame() && NamesSame() && HistoriesSame()
      ensures SlotsFor(order.Order(), t.ram.places, t.messages.Keys)
      ensures Owners(order.Order(), t.ram.table) == Owners(old(order.Order()), was.table)
    {
      hide HashTable.Valid, History.Valid, SlotsFor, FreeLists.Distinct, Owners, ChatMoved, Replaced, History.Log;
      MovedAs(order.Order(), was, t.ram, t.messages.Keys, slot);
      var ret := order.Replace(index, now);
      OnlyIndexes();
    }

    // ----- the histories -----

    /** Adds an entry to a history: contacts and chats are not touched by it. */
    method Note(h: History, ghost other: History, e: HistoryEntry) returns (ret: Ret)
      requires Steady()
      requires (h == messageHistory && other == callHistory) || (h == callHistory && other == messageHistory)
      modifies h, t.storage, t.journal, t.bitmap, t.bitmap.words
      ensures ret == Ok && Steady() && TableSame() && NamesSame() && OrderSame() && HistorySame(other)
      ensures Flatten(h.pages) == Flatten(old(h.pages)) + [e]
    {
      hide HashTable.InRam, FreeList.Valid, Ready, Holds, RingOk, RingBlank, Flatten, Retained, OutsideSame;
      SteadyHolds();
      ghost var mid;
      ret, mid := h.Add(e, false);
      HoldsFrame(old(t.storage.sectors), t.bitmap.bits, t.ram, t.contacts, t.messages, t.storage.sectors, h.start, h.size);
      OutsideFrame(old(t.storage.sectors), t.storage.sectors, h.start, h.size, other.start, other.size);
      HistoryKept(other);
      RamKept(t);
    }

    // ----- the operations -----

    /** Adds a contact, unless its phone number is taken or there is no slot left. */
    method ContactAdd(name: Text, phone: Text) returns (ret: Ret)
      requires Valid()
      modifies t.Repr(), names, names.mem
      ensures Valid() && HistoriesSame() && t.messages == old(t.messages) && Chats() == old(Chats())
      ensures if ValidStr(name, MAX_NAME_LEN) && ValidPhone(phone) then
                ContactAdded(old(t.ram), old(t.contacts), Contact(name, phone), ret, t.contacts)
              else ret == Fail && t.contacts == old(t.contacts)
    {
      hide Steady, Crossed, NamesOk, SlotsFor, Mapped, Owners, HasPhone, HashTable.Repr, SortedArray.Entries, ChatOrder.Order, History.Log, ContactAdded;
      ret := Fail;
      if ValidStr(name, MAX_NAME_LEN) && ValidPhone(phone) {
        ret := AddNew(Contact(name, phone));
      }
    }

    method AddNew(c: Contact) returns (ret: Ret)
      requires Valid()
      modifies t.Repr(), names, names.mem
      ensures Valid() && HistoriesSame() && t.messages == old(t.messages) && Chats() == old(Chats())
      ensures ContactAdded(old(t.ram), old(t.contacts), c, ret, t.contacts)
    {
      hide Steady, Crossed, NamesOk, SlotsFor, Mapped, Owners, HasPhone, HashTable.Repr, SortedArray.Entries, ChatOrder.Order, History.Log, ContactAdded;
      var index: nat;
      ghost var slot;
      ret, index, slot := AddStored(c);
      if ret == Ok {
        AddedOk(old(t.ram), old(t.contacts), c, t.contacts);
        ret := Enlist(c, index, slot);
        CrossedParts(names.Entries(), order.Order(), t.ram, t.contacts, t.messages);
      }
    }

    /** Removes a contact and its chat. */
    method ContactRemove(phone: Text) returns (ret: Ret, ghost slot: nat)
      requires Valid()
      modifies t.Repr(), names, names.mem, order, order.mem
      ensures Valid() && HistoriesSame()
      ensures ContactRemoved(old(t.contacts), old(t.messages), phone, slot, ret, t.contacts, t.messages)
      ensures Chats() == if ret == Ok then Without(old(Chats()), slot) else old(Chats())
    {
      hide Steady, Crossed, NamesOk, SlotsFor, Mapped, Owners, HasPhone, HashTable.Repr, SortedArray.Entries, ChatOrder.Order, History.Log, ContactRemoved, Without;
      RemovedAs(t.contacts, t.messages, phone);
      ret, slot := Fail, 0;
      if ValidPhone(phone) {
        var found, index;
        found, index, slot := FindOccupied(phone);
        ret := Empty;
        if found {
          ret := DropFound(phone, index, slot);
        }
      }
    }

    method DropFound(phone: Text, index: nat, ghost slot: nat) returns (ret: Ret)
      requires Valid() && At(phone, index, slot)
      modifies t.Repr(), names, names.mem, order, order.mem
      ensures ret == Ok && Valid() && HistoriesSame()
      ensures t.contacts == old(t.contacts) - {slot} && t.messages == old(t.messages) - {slot}
      ensures Chats() == Without(old(Chats()), slot)
    {
      hide Steady, Crossed, NamesOk, SlotsFor, Mapped, Owners, HasPhone, HashTable.Repr, SortedArray.Entries, ChatOrder.Order, History.Log, Without;
      CrossedParts(names.Entries(), order.Order(), t.ram, t.contacts, t.messages);
      var c;
      ret, c := ReadFound(phone, index, slot);
      ret := Delist(c, slot);
      ret := DropStored(phone, index, slot);
      Unchat(index);
    }

    /** Gives a contact a new name, a new phone number, or both. */
    method ContactUpdate(phone: Text, newName: Text, newPhone: Text) returns (ret: Ret, ghost slot: nat)
      requires Valid()
      modifies t.Repr(), names, names.mem, order, order.mem
      ensures Valid() && HistoriesSame() && t.messages == old(t.messages) && Chats() == old(Chats())
      ensures ContactUpdated(old(t.contacts), phone, Contact(newName, newPhone), slot, ret, t.contacts)
    {
      hide Steady, Crossed, NamesOk, SlotsFor, Mapped, Owners, HasPhone, HashTable.Repr, SortedArray.Entries, ChatOrder.Order, History.Log, ContactUpdated;
      UpdatedAs(t.contacts, phone, Contact(newName, newPhone));
      ret, slot := Fail, 0;
      if ValidPhone(phone) && ValidStr(newName, MAX_NAME_LEN) && ValidPhone(newPhone) {
        var found, index;
        found, index, slot := FindOccupied(phone);
        ret := Empty;
        if found {
          ret := ChangeFound(phone, Contact(newName, newPhone), index, slot);
        }
      }
    }

    method ChangeFound(phone: Text, c: Contact, index: nat, ghost slot: nat) returns (ret: Ret)
      requires Valid() && At(phone, index, slot)
      modifies t.Repr(), names, names.mem, order, order.mem
      ensures Valid() && HistoriesSame() && t.messages == old(t.messages) && Chats() == old(Chats())
      ensures ret == if c.phone != phone && HasPhone(old(t.contacts), c.phone) then Exists else Ok
      ensures t.contacts == if ret == Ok then old(t.contacts)[slot := c] else old(t.contacts)
    {
      hide Steady, Crossed, NamesOk, SlotsFor, Mapped, Owners, HasPhone, HashTable.Repr, SortedArray.Entries, ChatOrder.Order, History.Log, ChatMoved;
      CrossedParts(names.Entries(), order.Order(), t.ram, t.contacts, t.messages);
      var was;
      ret, was := ReadFound(phone, index, slot);
      ret := Delist(was, slot);
      ret := ChangeStored(phone, c, index, slot);
      if ret != Ok {
        var undone := Enlist(was, index, slot);
        CrossedParts(names.Entries(), order.Order(), t.ram, t.contacts, t.messages);
      } else {
        var now := FindAgain(c.phone, slot);
        Reslot(index, now, slot, old(t.ram));
        ret := Enlist(c, now, slot);
        CrossedParts(names.Entries(), order.Order(), t.ram, t.contacts, t.messages);
      }
    }

    /** Adds a message to a chat, the chat order and the message history.  An unknown phone number
        becomes an unnamed contact. */
    method MessageAdd(phone: Text, timestamp: nat, outgoing: bool, text: Text) returns (ret: Ret, ghost slot: nat)
      requires Valid() && t.ram.messageFree != []
      modifies t.Repr(), names, names.mem, order, order.mem, messageHistory
      ensures Valid() && HistorySame(callHistory)
      ensures ret == if MessageAccepted(old(t.ram), old(t.contacts), phone, timestamp) then Ok else Fail
      ensures ret == Fail ==> TableSame() && Chats() == old(Chats()) && HistorySame(messageHistory)
      ensures ret == Ok ==>
        var msg := CreateMessage(timestamp, outgoing, text);
        && WithPhone(old(t.contacts), t.contacts, phone, slot)
        && t.messages == old(t.messages)[slot := MessagesOf(old(t.messages), slot) + [msg]]
        && Chats() == [slot] + Without(old(Chats()), slot)
        && Flatten(messageHistory.pages) == Flatten(old(messageHistory.pages)) + [MessageEntry(LastOr(ChainOf(t.ram.chats, slot)), msg)]
      ensures ret == Ok ==>
        && slot in t.messages && t.messages[slot] != []
        && var stored := t.messages[slot][|t.messages[slot]| - 1];
           && stored.timestamp == timestamp && stored.outgoing == outgoing
           && stored.text <= text && |stored.text| == (if |text| < 160 then |text| else 159)
           && MessageEntry(LastOr(ChainOf(t.ram.chats, slot)), stored) in Flatten(messageHistory.pages)
    {
      hide Steady, Crossed, NamesOk, SlotsFor, Mapped, Owners, HasPhone, SortedArray.Entries, ChatOrder.Order, History.Log, Without, WithPhone, Flatten;
      AcceptedAs(t.ram, t.contacts, phone, timestamp);
      ret, slot := Fail, 0;
      if ValidPhone(phone) && timestamp != 0 {
        var msg := CreateMessage(timestamp, outgoing, text);
        var found, ok, index;
        found, index, slot := FindOccupied(phone);
        ok, index, slot := Say(phone, msg, !found);
        if ok {
          var latest := Latest(phone, index, slot);
          ret := Note(messageHistory, callHistory, MessageEntry(latest, msg));
          assert t.messages[slot][|t.messages[slot]| - 1] == msg;
        }
      }
    }

    /** Adds a message to a chat, and enters the chat in the name index and the chat order. */
    method Say(phone: Text, msg: Message, isNew: bool) returns (ok: bool, index: nat, ghost slot: nat)
      requires Valid() && t.ram.messageFree != []
      requires isNew <==> !HasPhone(t.contacts, phone)
      modifies t.Repr(), names, names.mem, order, order.mem
      ensures Valid() && HistoriesSame()
      ensures ok <==> !isNew || old(t.ram).contactFree != []
      ensures !ok ==> TableSame() && Chats() == old(Chats())
      ensures ok ==>
        && WithPhone(old(t.contacts), t.contacts, phone, slot) && At(phone, index, slot)
        && t.messages == old(t.messages)[slot := MessagesOf(old(t.messages), slot) + [msg]]
        && Chats() == [slot] + Without(old(Chats()), slot)
    {
      hide Steady, Crossed, NamesOk, SlotsFor, Mapped, Owners, HasPhone, HashTable.Repr, SortedArray.Entries, ChatOrder.Order, History.Log, Without, WithPhone, ChatFront;
      index := 0;
      ok, slot := SayStored(phone, msg, isNew);
      if ok {
        index := FindAgain(phone, slot);
        if isNew {
          var listed := Enlist(Contact([], phone), index, slot);
        }
        var touched := Front(index, slot, old(t.ram));
        CrossedParts(names.Entries(), order.Order(), t.ram, t.contacts, t.messages);
      }
    }

    /** Removes the chat of a phone number; the contact stays. */
    method MessageRemoveChat(phone: Text) returns (ret: Ret, ghost slot: nat)
      requires Valid()
      modifies t.Repr(), names, names.mem, order, order.mem
      ensures Valid() && HistoriesSame() && t.contacts == old(t.contacts)
      ensures ChatRemoved(old(t.contacts), old(t.messages), phone, slot, ret, t.messages)
      ensures Chats() == if ret == Ok then Without(old(Chats()), slot) else old(Chats())
    {
      hide Steady, Crossed, NamesOk, SlotsFor, Mapped, Owners, HasPhone, HashTable.Repr, SortedArray.Entries, ChatOrder.Order, History.Log, ChatRemoved, Without;
      ChatRemovedAs(t.contacts, t.messages, phone);
      ret, slot := Fail, 0;
      if ValidPhone(phone) {
        var found, index;
        found, index, slot := FindOccupied(phone);
        ret := Empty;
        if found {
          var latest := Latest(phone, index, slot);
          if latest != NIL {
            ret := UnchatStored(phone, index, slot);
            Unchat(index);
          }
        }
      }
    }

    /** Removes a chat from the hash table and the card. */
    method UnchatStored(phone: Text, index: nat, ghost slot: nat) returns (ret: Ret)
      requires Valid() && At(phone, index, slot)
      modifies t.Repr()
      ensures ret == Ok && Steady() && NamesSame() && OrderSame() && HistoriesSame()
      ensures t.contacts == old(t.contacts) && t.messages == old(t.messages) - {slot}
      ensures Crossed(names.Entries(), Without(order.Order(), index), t.ram, t.contacts, t.messages)
      ensures Owners(Without(order.Order(), index), t.ram.table) == Without(old(Chats()), slot)
    {
      hide HashTable.Valid, History.Valid, Crossed, FreeLists.Distinct, HasPhone, RingsSame, Holds, Owners, Mapped, History.Log, Without;
      SteadyHolds();
      PhoneOwner(t.storage.sectors, t.bitmap.bits, t.ram, t.contacts, t.messages, phone, slot);
      var ok;
      ghost var removed;
      ok, removed := t.RemoveMessage(phone);
      ret := if ok then Ok else Fail;
      OnlyTable();
      SteadyHolds();
      AfterUnchat(old(t.storage.sectors), old(t.bitmap.bits), old(t.ram), old(t.contacts), old(t.messages),
                  t.storage.sectors, t.bitmap.bits, t.ram, t.contacts, t.messages, names.Entries(), order.Order(), slot);
    }

    /** Reads a chat, newest message first. */
    method MessageGetChat(phone: Text, start: nat, n: nat) returns (ret: Ret, out: seq<Message>, ghost slot: nat)
      requires Valid()
      ensures ChatRead(t.contacts, t.messages, phone, start, n, slot, ret, out)
    {
      hide Steady, InStep, HasPhone, Reversed;
      ret, out, slot := Fail, [], 0;
      if ValidPhone(phone) {
        var found, index;
        found, index, slot := FindOccupied(phone);
        ret := Empty;
        if found {
          var latest := Latest(phone, index, slot);
          if latest != NIL {
            ret, out := ReadChat(latest, slot, start, n);
          }
        }
      }
    }

    method ReadChat(latest: nat, ghost slot: nat, start: nat, n: nat) returns (ret: Ret, out: seq<Message>)
      requires Steady() && slot in t.contacts && slot in t.messages && latest == LastOr(ChainOf(t.ram.chats, slot)) && latest != NIL
      ensures if n == 0 then ret == Ok && out == []
              else if start < |t.messages[slot]| then
                ret == Ok && out == Reversed(t.messages[slot])[start..if start + n < |t.messages[slot]| then start + n else |t.messages[slot]|]
              else ret == Fail && out == []
    {
      hide Holds, Ready, History.Valid, UsageBitmap.Valid, LinksInRange, Partition, UsedSectors, InUse, ChatOk, FreeOk, ChatMessages, Reversed;
      ReadyFacts(t.storage, t.journal, t.bitmap);
      LinkFacts(t.storage.sectors, t.bitmap.bits, t.ram, t.contacts, t.messages);
      ChatFacts(t.storage.sectors, t.bitmap.bits, t.ram, t.contacts, t.messages, slot);
      ret, out := ReadNMessages(t.storage, t.bitmap, latest, start, n, slot, ChainOf(t.ram.chats, slot));
    }

    /** Adds a call to the call history, with its contact if the phone number has one. */
    method CallAdd(phone: Text) returns (ret: Ret, ghost slot: nat)
      requires Valid()
      modifies callHistory, t.storage, t.journal, t.bitmap, t.bitmap.words
      ensures Valid() && TableSame() && NamesSame() && Chats() == old(Chats()) && HistorySame(messageHistory)
      ensures ret == if ValidPhone(phone) then Ok else Fail
      ensures ret == Ok && HasPhone(t.contacts, phone) ==>
        && slot in t.contacts && t.contacts[slot].phone == phone
        && Flatten(callHistory.pages) == Flatten(old(callHistory.pages)) + [CallEntry(slot, t.contacts[slot])]
      ensures ret == Ok && !HasPhone(t.contacts, phone) ==>
        Flatten(callHistory.pages) == Flatten(old(callHistory.pages)) + [CallEntry(NIL, Contact([], phone))]
      ensures ret != Ok ==> HistorySame(callHistory)
    {
      hide Steady, Crossed, NamesOk, SlotsFor, Mapped, Owners, HasPhone, HashTable.Repr, SortedArray.Entries, ChatOrder.Order, History.Log, Flatten;
      ret, slot := Fail, 0;
      if ValidPhone(phone) {
        var call := CallEntry(NIL, Contact([], phone));
        var found, index;
        found, index, slot := FindOccupied(phone);
        if found {
          AtFacts(phone, index, slot);
          var read, c := ReadFound(phone, index, slot);
          call := CallEntry(t.htable[index].sector, c);
        }
        ret := Note(callHistory, messageHistory, call);
      }
    }

    /** Reads a contact. */
    method ContactGet(phone: Text) returns (ret: Ret, c: Contact)
      requires Valid()
      ensures ret == if !ValidPhone(phone) then Fail else if HasPhone(t.contacts, phone) then Ok else Empty
      ensures ret == Ok ==> c.phone == phone && exists slot :: slot in t.contacts && t.contacts[slot] == c
    {
      hide Steady, InStep;
      ret, c := Fail, Contact([], []);
      if ValidPhone(phone) {
        var found, index;
        ghost var slot;
        found, index, slot := FindOccupied(phone);
        ret := Empty;
        if found {
          ret, c := ReadFound(phone, index, slot);
        }
      }
    }

    /** At most `n` contacts in the order of their names, from the one of rank `start` on; names
        are ordered without regard to case first. */
    method ContactList(start: nat, n: nat) returns (ret: Ret, out: seq<Contact>)
      requires Valid()
      ensures var all := Names(names.Entries(), t.ram.table, t.contacts);
        if start < |all| then ret == Ok && out == all[start..if start + n < |all| then start + n else |all|]
        else ret == Empty && out == []
      ensures forall i, j :: 0 <= i < j < |out| ==> Alphabetical(out[i], out[j])
      ensures forall c <- out :: c in t.contacts.Values
      ensures start == 0 && |out| < n ==> forall c <- t.contacts.Values :: c in out
    {
      hide Valid, Names, Alphabetical;
      out := [];
      ghost var all := Names(names.Entries(), t.ram.table, t.contacts);
      ListSize();
      ListOrder(all);
      if start >= names.occupancy {
        return Empty, out;
      }
      for i := 0 to n
        invariant Valid() && start + i <= |all| && out == all[start..start + i]
      {
        if start + i >= names.occupancy {
          break;
        }
        var c := ReadRank(start + i);
        out := out + [c];
      }
      ret := Ok;
    }

    lemma ListOrder(all: seq<Contact>)
      requires Valid() && all == Names(names.Entries(), t.ram.table, t.contacts)
      ensures forall i, j :: 0 <= i < j < |all| ==> Alphabetical(all[i], all[j])
      ensures forall c: Contact :: c in all <==> c in t.contacts.Values
    {
      hide HashTable.Valid, History.Valid, Steady, Alphabetical, NameCmp, NamesOk, Names, SlotsFor, Mapped;
      NamesInOrder(names.Entries(), t.ram.table, t.contacts);
      forall i, j | 0 <= i < j < |all|
        ensures Alphabetical(all[i], all[j])
      {
        NameAlphabetical(all[i], all[j]);
      }
      forall c: Contact
        ensures c in all <==> c in t.contacts.Values
      {
        ListHas(c);
      }
    }

    lemma ListHas(c: Contact)
      requires Valid()
      ensures c in Names(names.Entries(), t.ram.table, t.contacts) <==> c in t.contacts.Values
    {
      hide Ready, Holds, History.Valid, NamesOk, Names, SlotsFor, Mapped;
      NamesHas(t.storage.sectors, t.bitmap.bits, t.ram, t.contacts, t.messages, names.Entries(), t.contacts.Keys, c);
    }

    lemma ListSize()
      requires Valid()
      ensures |Names(names.Entries(), t.ram.table, t.contacts)| == names.occupancy
    {
      hide Steady, InStep, HashTable.Valid, History.Valid;
      FitsLength();
    }

    lemma FitsLength()
      requires Valid()
      ensures |names.Entries()| == names.occupancy <= names.mem.Length
    {
      hide HashTable.Valid, History.Valid, InStep;
    }

    /** Reads the contact at a rank of the name index. */
    method ReadRank(rank: nat) returns (c: Contact)
      requires Valid() && rank < names.occupancy
      ensures Valid() && rank < |Names(names.Entries(), t.ram.table, t.contacts)| && c == Names(names.Entries(), t.ram.table, t.contacts)[rank]
    {
      hide Ready, Holds, History.Valid, NamesSorted, NameCmp, SlotsFor, Mapped, FreeLists.Distinct, Names;
      FitsLength();
      RankOk(names.Entries(), order.Order(), t.ram, t.contacts, t.messages, rank);
      assert names.mem[rank] == names.Entries()[rank];
      var ret;
      ret, c := ReadOccupied(t, names.mem[rank].hashSlot);
    }
  }
}
