/** Whole runs of database operations, and the restart after one. */
module Runs {
  import opened Layout
  import opened StorageCard
  import opened JournalLog
  import opened UsageBitmaps
  import opened Journals
  import opened CrashSafety
  import opened Transactions
  import opened FreeLists
  import opened Contacts
  import opened Messages
  import opened HashTables
  import opened Agreement
  import opened Contents
  import opened HashOperations
  import opened Rebuild
  import opened Reboot
  import opened Rings
  import opened Histories
  import opened SortedArrays
  import opened ChatOrders
  import opened CrossIndex
  import opened DatabaseFacts
  import opened Databases
  import opened Mount
  import opened Format
  import opened PhoneBooks

  /** The database is the phone book. */
  ghost predicate Mirrors(b: PhoneBook, db: Database)
    reads db, db.t, db.messageHistory, db.callHistory
  {
    && Shows(b, db.t.contacts, db.t.messages)
    && Notes(b, Flatten(db.messageHistory.pages), Flatten(db.callHistory.pages))
  }

  /** The chats are listed by the times of their latest messages, all before `clock`. */
  ghost predicate Timely(chats: seq<nat>, messages: map<nat, seq<Message>>, clock: nat) {
    Recent(chats, messages) && forall c <- chats :: TimeOf(messages, c) < clock
  }

  /** The time after an operation, if its message is not from before `clock`. */
  function Clock(op: Operation, clock: nat): nat {
    if op.AddMessage? then op.timestamp + 1 else clock
  }

  lemma NothingTimely()
    ensures Timely([], map[], 0)
  {
  }

  lemma TimelySay(chats: seq<nat>, messages: map<nat, seq<Message>>, c: nat, msg: Message, clock: nat)
    requires Timely(chats, messages, clock) && FreeLists.Distinct(chats) && clock <= msg.timestamp
    ensures Timely([c] + Without(chats, c), messages[c := MessagesOf(messages, c) + [msg]], msg.timestamp + 1)
  {
    hide TimeOf, Without;
    TouchRecent(chats, messages, c, msg);
    TimesNow(messages, c, msg);
    WithoutHas(chats, c);
  }

  lemma TimelyLater(chats: seq<nat>, messages: map<nat, seq<Message>>, clock: nat, later: nat)
    requires Timely(chats, messages, clock) && clock <= later
    ensures Timely(chats, messages, later)
  {
  }

  lemma TimelyDrop(chats: seq<nat>, messages: map<nat, seq<Message>>, c: nat, clock: nat)
    requires Timely(chats, messages, clock) && FreeLists.Distinct(chats)
    ensures Timely(Without(chats, c), messages - {c}, clock)
  {
    hide TimeOf, Without;
    WithoutRecent(chats, messages, c);
    WithoutHas(chats, c);
    TimesWithout(messages, c);
    OthersSame(Without(chats, c), messages, messages - {c});
  }

  lemma TimesWithout(messages: map<nat, seq<Message>>, c: nat)
    ensures forall x: nat :: x != c ==> TimeOf(messages - {c}, x) == TimeOf(messages, x)
  {
  }

  lemma OthersSame(chats: seq<nat>, messages: map<nat, seq<Message>>, now: map<nat, seq<Message>>)
    requires Recent(chats, messages) && forall x: nat :: x in chats ==> TimeOf(now, x) == TimeOf(messages, x)
    ensures Recent(chats, now)
  {
    hide TimeOf;
    forall i | 0 <= i < |chats|
      ensures TimeOf(now, chats[i]) == TimeOf(messages, chats[i])
    {
      assert chats[i] in chats;
    }
  }

  lemma ChatsDistinct(db: Database)
    requires db.Valid()
    ensures FreeLists.Distinct(db.Chats())
  {
    hide HashTable.Valid, Holds, Crossed, Owners, History.Valid;
    db.SteadyHolds();
    OrderDistinct(db.t.storage.sectors, db.t.bitmap.bits, db.names.Entries(), db.order.Order(), db.t.ram, db.t.contacts, db.t.messages);
  }

  lemma OrderDistinct(card: Card, bits: seq<bool>, entries: seq<NameEntry>, order: seq<nat>, ram: Ram, contacts: map<nat, Contact>, messages: map<nat, seq<Message>>)
    requires Holds(card, bits, ram, contacts, messages) && Crossed(entries, order, ram, contacts, messages)
    ensures FreeLists.Distinct(Owners(order, ram.table))
  {
    hide *;
    CrossedParts(entries, order, ram, contacts, messages);
    TableFacts(card, bits, ram, contacts, messages);
    BackedPart(ram.table, ram.places, contacts.Keys, messages.Keys);
    OwnersOf(order, ram.table, ram.places, messages.Keys);
  }

  /** One operation does to the database what it does to the phone book.  A message is only added
      while a message sector is free, since adding does not check for itself. */
  method Do(db: Database, op: Operation, ghost clock: nat, ghost book: PhoneBook) returns (ghost room: bool)
    requires db.Valid() && Timely(db.Chats(), db.t.messages, clock) && (op.AddMessage? ==> clock <= op.timestamp)
    requires Mirrors(book, db)
    modifies db.Parts()
    ensures db.Valid() && Timely(db.Chats(), db.t.messages, Clock(op, clock))
    ensures Mirrors(Applied(book, op, room), db) && (room <==> old(db.t.ram.messageFree) != [])
  {
    hide Database.Valid, Database.Chats, Timely, Without, ContactAdded, ContactUpdated, ContactRemoved, ChatRemoved, MessageAccepted, WithPhone,
      Shows, Notes, Applied, Flatten, CreateMessage, HasPhone, ValidPhone;
    ChatsDistinct(db);
    SlotsLeft(db);
    ghost var chats, contacts, messages, ram := db.Chats(), db.t.contacts, db.t.messages, db.t.ram;
    ghost var messageLog, callLog := Flatten(db.messageHistory.pages), Flatten(db.callHistory.pages);
    room := db.t.ram.messageFree != [];
    var ret;
    ghost var slot;
    match op
    case AddContact(name, phone) =>
      ret := db.ContactAdd(name, phone);
      AddShows(book, contacts, messages, ram, name, phone, ret, db.t.contacts, room);
      NotesStay(book, op, room, messageLog, callLog);
    case UpdateContact(phone, name, newPhone) =>
      ret, slot := db.ContactUpdate(phone, name, newPhone);
      UpdateShows(book, contacts, messages, phone, name, newPhone, slot, ret, db.t.contacts, room);
      NotesStay(book, op, room, messageLog, callLog);
    case RemoveContact(phone) =>
      ret, slot := db.ContactRemove(phone);
      RemovedTimely(old(db.t.contacts), messages, phone, slot, ret, db.t.contacts, db.t.messages, chats, clock);
      RemoveShows(book, contacts, messages, phone, slot, ret, db.t.contacts, db.t.messages, room);
      NotesStay(book, op, room, messageLog, callLog);
    case AddMessage(phone, timestamp, outgoing, text) =>
      TimelyLater(chats, messages, clock, timestamp + 1);
      SectorFree(db);
      if db.t.messageAllocator.top > 0 {
        ret, slot := db.MessageAdd(phone, timestamp, outgoing, text);
        Stamp(timestamp, outgoing, text);
        TimelySay(chats, messages, slot, CreateMessage(timestamp, outgoing, text), clock);
        MessageShows(book, contacts, messages, ram, phone, timestamp, outgoing, text, slot, db.t.contacts, db.t.messages);
        MessageNotes(book, contacts, messages, ram, phone, timestamp, outgoing, text, messageLog, callLog, Flatten(db.messageHistory.pages),
                     LastOr(ChainOf(db.t.ram.chats, slot)));
      } else {
        NoRoom(book, op);
      }
    case RemoveChat(phone) =>
      ret, slot := db.MessageRemoveChat(phone);
      UnchatTimely(old(db.t.contacts), messages, phone, slot, ret, db.t.messages, chats, clock);
      UnchatShows(book, contacts, messages, phone, slot, ret, db.t.messages, room);
      NotesStay(book, op, room, messageLog, callLog);
    case AddCall(phone) =>
      ret, slot := db.CallAdd(phone);
      CallNotes(book, contacts, messages, phone, slot, messageLog, callLog, Flatten(db.callHistory.pages), room);
  }

  lemma Stamp(timestamp: nat, outgoing: bool, text: Text)
    ensures CreateMessage(timestamp, outgoing, text).timestamp == timestamp
  {
  }

  lemma SlotsLeft(db: Database)
    requires db.Valid()
    ensures db.t.ram.contactFree == [] <==> |db.t.contacts| >= MAX_CONTACTS
  {
    hide HashTable.Valid, Holds, Crossed, History.Valid;
    db.SteadyHolds();
    SlotFull(db.t.storage.sectors, db.t.bitmap.bits, db.t.ram, db.t.contacts, db.t.messages);
  }

  lemma SectorFree(db: Database)
    requires db.Valid()
    ensures db.t.messageAllocator.top > 0 <==> db.t.ram.messageFree != []
  {
    hide Holds, Ready, History.Valid, Crossed;
  }

  lemma RemovedTimely(contacts: map<nat, Contact>, messages: map<nat, seq<Message>>, phone: Text, slot: nat, ret: Ret,
                      now: map<nat, Contact>, nowMessages: map<nat, seq<Message>>, chats: seq<nat>, clock: nat)
    requires ContactRemoved(contacts, messages, phone, slot, ret, now, nowMessages)
    requires Timely(chats, messages, clock) && FreeLists.Distinct(chats)
    ensures Timely(if ret == Ok then Without(chats, slot) else chats, nowMessages, clock)
  {
    TimelyDrop(chats, messages, slot, clock);
    hide Timely, Without;
  }

  lemma UnchatTimely(contacts: map<nat, Contact>, messages: map<nat, seq<Message>>, phone: Text, slot: nat, ret: Ret,
                     nowMessages: map<nat, seq<Message>>, chats: seq<nat>, clock: nat)
    requires ChatRemoved(contacts, messages, phone, slot, ret, nowMessages)
    requires Timely(chats, messages, clock) && FreeLists.Distinct(chats)
    ensures Timely(if ret == Ok then Without(chats, slot) else chats, nowMessages, clock)
  {
    TimelyDrop(chats, messages, slot, clock);
    if ret != Ok && slot !in messages {
      assert messages - {slot} == messages;
    }
    hide Timely, Without;
  }

  /** Every message is later than those before it, from `clock` on. */
  predicate Increasing(ops: seq<Operation>, clock: nat)
    decreases |ops|
  {
    ops == [] || ((ops[0].AddMessage? ==> clock <= ops[0].timestamp) && Increasing(ops[1..], Clock(ops[0], clock)))
  }

  /** A run of operations does to the database what it does to the phone book. */
  method Run(db: Database, ops: seq<Operation>, clock: nat, ghost book: PhoneBook) returns (ghost rooms: seq<bool>)
    requires db.Valid() && Timely(db.Chats(), db.t.messages, clock) && Increasing(ops, clock) && Mirrors(book, db)
    modifies db.Parts()
    ensures db.Valid() && Recent(db.Chats(), db.t.messages)
    ensures |rooms| == |ops| && Mirrors(AppliedAll(book, ops, rooms), db)
  {
    hide Database.Valid, Database.Chats, HashTable.Repr, TimeOf, Recent, Mirrors, AppliedAll, Applied;
    var time := clock;
    rooms := [];
    RanNone(book, ops);
    for i := 0 to |ops|
      invariant db.Valid() && Timely(db.Chats(), db.t.messages, time) && Increasing(ops[i..], time)
      invariant |rooms| == i && Mirrors(AppliedAll(book, ops[..i], rooms), db)
    {
      assert ops[i..][0] == ops[i] && ops[i..][1..] == ops[i + 1..];
      ghost var room := Do(db, ops[i], time, AppliedAll(book, ops[..i], rooms));
      RanMore(book, ops, rooms, i, room);
      rooms := rooms + [room];
      time := Clock(ops[i], time);
    }
    assert ops[..|ops|] == ops;
  }

  lemma RanNone(b: PhoneBook, ops: seq<Operation>)
    ensures AppliedAll(b, ops[..0], []) == b
  {
  }

  /** Any run of operations keeps everything in order; a restart after it gives back exactly what
      was there, with both orders and both histories.  A message for which no sector is free is
      skipped, as `Do` says. */
  method RunAndReboot(db: Database, ops: seq<Operation>, clock: nat, ghost book: PhoneBook)
    returns (ok: bool, again: Database, ghost rooms: seq<bool>)
    requires db.Valid() && Timely(db.Chats(), db.t.messages, clock) && Increasing(ops, clock) && Mirrors(book, db)
    modifies db.Parts()
    ensures ok && again.Valid() && again.t.storage == db.t.storage
    ensures again.t.contacts == db.t.contacts && again.t.messages == db.t.messages
    ensures Names(again.names.Entries(), again.t.ram.table, again.t.contacts) == Names(db.names.Entries(), db.t.ram.table, db.t.contacts)
    ensures again.Chats() == db.Chats()
    ensures SameHistory(again.messageHistory, db.messageHistory) && SameHistory(again.callHistory, db.callHistory)
    ensures |rooms| == |ops| && Mirrors(AppliedAll(book, ops, rooms), again)
  {
    hide Database.Valid, Names, Recent, Shows, Notes, AppliedAll, History.Log, Flatten;
    rooms := Run(db, ops, clock, book);
    ok, again := RebootDatabase(db);
  }

  /** The life of a card: it is formatted, whatever was on it, then used, and after a restart
      everything is as it was: the phone book that the operations have made of an empty one.
      Nothing is assumed about the card. */
  method FormatRunReboot(storage: Storage, ops: seq<Operation>) returns (ok: bool, db: Database, again: Database, ghost rooms: seq<bool>)
    requires Increasing(ops, 0)
    modifies storage
    ensures ok && again.Valid() && again.t.storage == db.t.storage == storage
    ensures again.t.contacts == db.t.contacts && again.t.messages == db.t.messages
    ensures Names(again.names.Entries(), again.t.ram.table, again.t.contacts) == Names(db.names.Entries(), db.t.ram.table, db.t.contacts)
    ensures again.Chats() == db.Chats()
    ensures SameHistory(again.messageHistory, db.messageHistory) && SameHistory(again.callHistory, db.callHistory)
    ensures |rooms| == |ops| && Mirrors(AppliedAll(EMPTY_BOOK, ops, rooms), again)
  {
    hide Names, SameHistory, Database.Valid, Database.Chats, Database.Parts, HashTable.Repr, Timely, Shows, Notes, AppliedAll;
    ok, db := FormatDatabase(storage);
    NothingTimely();
    EmptyShows();
    assert Flatten([]) == [];
    var rebooted;
    rebooted, again, rooms := RunAndReboot(db, ops, 0, EMPTY_BOOK);
    ok := ok && rebooted;
  }
}
