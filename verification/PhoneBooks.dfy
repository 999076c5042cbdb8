/** What the database is for a caller: a book of names and chats by phone number, and what each
    operation does to it.  Slots, sectors and indexes do not occur here. */
module PhoneBooks {
  import opened Layout
  import opened StorageCard
  import opened FreeLists
  import opened Contacts
  import opened HashTables
  import opened Agreement
  import opened Contents
  import opened HashOperations
  import opened Rings
  import opened DatabaseFacts

  datatype Operation =
    | AddContact(name: Text, phone: Text)
    | UpdateContact(phone: Text, name: Text, newPhone: Text)
    | RemoveContact(phone: Text)
    | AddMessage(phone: Text, timestamp: nat, outgoing: bool, text: Text)
    | RemoveChat(phone: Text)
    | AddCall(phone: Text)

  /** Names and chats by phone number, and all messages and calls there have been. */
  datatype PhoneBook = PhoneBook(names: map<Text, Text>, chats: map<Text, seq<Message>>, said: seq<Message>, calls: seq<Contact>)

  const EMPTY_BOOK := PhoneBook(map[], map[], [], [])

  function NameOf(b: PhoneBook, phone: Text): Text { if phone in b.names then b.names[phone] else [] }

  function ChatOf(b: PhoneBook, phone: Text): seq<Message> { if phone in b.chats then b.chats[phone] else [] }

  /** The text that is kept: it ends before the 160th byte. */
  function Kept(text: Text): Text { text[..if |text| < 160 then |text| else 159] }

  function WithMessage(b: PhoneBook, phone: Text, msg: Message): PhoneBook {
    PhoneBook(b.names[phone := NameOf(b, phone)], b.chats[phone := ChatOf(b, phone) + [msg]], b.said + [msg], b.calls)
  }

  /** The phone number `phone` becomes `newPhone`, and its chat goes with it. */
  function Changed(b: PhoneBook, phone: Text, name: Text, newPhone: Text): PhoneBook
    requires phone in b.names
  {
    b.(names := (b.names - {phone})[newPhone := name],
       chats := if phone in b.chats then (b.chats - {phone})[newPhone := b.chats[phone]] else b.chats - {phone})
  }

  function Removed(b: PhoneBook, phone: Text): PhoneBook { b.(names := b.names - {phone}, chats := b.chats - {phone}) }

  /** A phone number has 1 to 14 bytes. */
  predicate Dialable(phone: Text) { 1 <= |phone| <= 14 }

  /** The book after an operation; `room` says whether a message sector was free. */
  function Applied(b: PhoneBook, op: Operation, room: bool): PhoneBook {
    match op
    case AddContact(name, phone) =>
      if |name| > 64 || !Dialable(phone) || phone in b.names || |b.names| >= MAX_CONTACTS then b
      else b.(names := b.names[phone := name])
    case UpdateContact(phone, name, newPhone) =>
      if |name| > 64 || !Dialable(phone) || !Dialable(newPhone) || phone !in b.names || (newPhone != phone && newPhone in b.names) then b
      else Changed(b, phone, name, newPhone)
    case RemoveContact(phone) =>
      if !Dialable(phone) then b else Removed(b, phone)
    case AddMessage(phone, timestamp, outgoing, text) =>
      if !room || !Dialable(phone) || timestamp == 0 || (phone !in b.names && |b.names| >= MAX_CONTACTS) then b
      else WithMessage(b, phone, Message(timestamp, outgoing, Kept(text)))
    case RemoveChat(phone) =>
      if !Dialable(phone) then b else b.(chats := b.chats - {phone})
    case AddCall(phone) =>
      if !Dialable(phone) then b else b.(calls := b.calls + [Contact(NameOf(b, phone), phone)])
  }

  /** The book after a run. */
  function AppliedAll(b: PhoneBook, ops: seq<Operation>, rooms: seq<bool>): PhoneBook
    requires |rooms| == |ops|
    decreases |ops|
  {
    if ops == [] then b else Applied(AppliedAll(b, ops[..|ops| - 1], rooms[..|ops| - 1]), ops[|ops| - 1], rooms[|ops| - 1])
  }

  ghost predicate HasChat(contacts: map<nat, Contact>, messages: map<nat, seq<Message>>, phone: Text) {
    exists s :: s in messages && s in contacts && contacts[s].phone == phone
  }

  /** The names of the contacts, each under its phone number. */
  ghost predicate ShowsNames(names: map<Text, Text>, contacts: map<nat, Contact>) {
    && PhonesDistinct(contacts) && |names| == |contacts|
    && (forall p <- names :: HasPhone(contacts, p))
    && (forall s <- contacts :: contacts[s].phone in names && names[contacts[s].phone] == contacts[s].name)
  }

  /** The messages of the contacts, each chat under its contact's phone number. */
  ghost predicate ShowsChats(chats: map<Text, seq<Message>>, contacts: map<nat, Contact>, messages: map<nat, seq<Message>>) {
    && (forall p <- chats :: HasChat(contacts, messages, p))
    && (forall s <- messages :: s in contacts && contacts[s].phone in chats && chats[contacts[s].phone] == messages[s])
  }

  /** The contacts and messages in their slots are those of the book. */
  ghost predicate Shows(b: PhoneBook, contacts: map<nat, Contact>, messages: map<nat, seq<Message>>) {
    ShowsNames(b.names, contacts) && ShowsChats(b.chats, contacts, messages)
  }

  /** The histories hold the messages and calls of the book. */
  ghost predicate Notes(b: PhoneBook, messageLog: Entries, callLog: Entries) {
    && |messageLog| == |b.said| && (forall i :: 0 <= i < |b.said| ==> messageLog[i].MessageEntry? && messageLog[i].message == b.said[i])
    && |callLog| == |b.calls| && (forall i :: 0 <= i < |b.calls| ==> callLog[i].CallEntry? && callLog[i].contact == b.calls[i])
  }

  // ----- what the operations do, by phone number -----

  lemma SlotFull(card: Card, bits: seq<bool>, ram: Ram, contacts: map<nat, Contact>, messages: map<nat, seq<Message>>)
    requires Holds(card, bits, ram, contacts, messages)
    ensures PhonesDistinct(contacts) && (ram.contactFree == [] <==> |contacts| >= MAX_CONTACTS)
  {
    PartitionSize(ram.contactFree, contacts.Keys, MAX_CONTACTS);
  }

  lemma NamesHavePhones(names: map<Text, Text>, contacts: map<nat, Contact>, phone: Text)
    requires ShowsNames(names, contacts)
    ensures phone in names <==> HasPhone(contacts, phone)
  {
    if HasPhone(contacts, phone) {
      var s :| s in contacts && contacts[s].phone == phone;
    }
  }

  lemma DropSize<K, V>(m: map<K, V>, k: K)
    requires k in m
    ensures |m - {k}| + 1 == |m|
  {
    assert m == (m - {k})[k := m[k]];
  }

  /** A name is given up together with its slot. */
  lemma DropName(names: map<Text, Text>, contacts: map<nat, Contact>, slot: nat)
    requires ShowsNames(names, contacts) && slot in contacts
    ensures ShowsNames(names - {contacts[slot].phone}, contacts - {slot})
  {
    var phone := contacts[slot].phone;
    DropSize(names, phone);
    DropSize(contacts, slot);
    forall p | p in names && p != phone
      ensures HasPhone(contacts - {slot}, p)
    {
      var s :| s in contacts && contacts[s].phone == p;
      assert s in contacts - {slot};
    }
  }

  /** A new phone number comes with a new slot. */
  lemma PutName(names: map<Text, Text>, contacts: map<nat, Contact>, slot: nat, c: Contact)
    requires ShowsNames(names, contacts) && slot !in contacts && !HasPhone(contacts, c.phone)
    ensures ShowsNames(names[c.phone := c.name], contacts[slot := c])
  {
    var now := contacts[slot := c];
    NamesHavePhones(names, contacts, c.phone);
    NewDistinct(contacts, slot, c);
    forall p | p in names || p == c.phone
      ensures HasPhone(now, p)
    {
      var s :| if p == c.phone then s == slot else s in contacts && contacts[s].phone == p;
      assert s in now && now[s].phone == p;
    }
    hide HasPhone, PhonesDistinct;
  }

  lemma NewDistinct(contacts: map<nat, Contact>, slot: nat, c: Contact)
    requires PhonesDistinct(contacts) && slot !in contacts && !HasPhone(contacts, c.phone)
    ensures PhonesDistinct(contacts[slot := c]) && forall s <- contacts :: contacts[s].phone != c.phone
  {
    forall s | s in contacts
      ensures contacts[s].phone != c.phone
    {
    }
  }

  /** The chats do not change when contacts without messages do. */
  lemma ChatsStay(chats: map<Text, seq<Message>>, contacts: map<nat, Contact>, now: map<nat, Contact>, messages: map<nat, seq<Message>>)
    requires ShowsChats(chats, contacts, messages) && forall s <- messages :: s in now && s in contacts && now[s] == contacts[s]
    ensures ShowsChats(chats, now, messages)
  {
    forall p | p in chats
      ensures HasChat(now, messages, p)
    {
      var s :| s in messages && s in contacts && contacts[s].phone == p;
      assert now[s].phone == p;
    }
  }

  lemma PutChat(chats: map<Text, seq<Message>>, contacts: map<nat, Contact>, messages: map<nat, seq<Message>>, slot: nat, chat: seq<Message>)
    requires ShowsChats(chats, contacts, messages) && PhonesDistinct(contacts) && slot in contacts
    ensures ShowsChats(chats[contacts[slot].phone := chat], contacts, messages[slot := chat])
  {
    var now, phone := messages[slot := chat], contacts[slot].phone;
    forall p | p in chats || p == phone
      ensures HasChat(contacts, now, p)
    {
      if p == phone {
        assert slot in now;
      } else {
        var s :| s in messages && s in contacts && contacts[s].phone == p;
        assert s in now;
      }
    }
  }

  lemma DropChat(chats: map<Text, seq<Message>>, contacts: map<nat, Contact>, messages: map<nat, seq<Message>>, slot: nat)
    requires ShowsChats(chats, contacts, messages) && PhonesDistinct(contacts) && slot in contacts
    ensures ShowsChats(chats - {contacts[slot].phone}, contacts, messages - {slot})
  {
    var now, phone := messages - {slot}, contacts[slot].phone;
    forall p | p in chats && p != phone
      ensures HasChat(contacts, now, p)
    {
      var s :| s in messages && s in contacts && contacts[s].phone == p;
      assert s in now;
    }
  }

  lemma ChatHere(chats: map<Text, seq<Message>>, contacts: map<nat, Contact>, messages: map<nat, seq<Message>>, slot: nat)
    requires ShowsChats(chats, contacts, messages) && PhonesDistinct(contacts) && slot in contacts
    ensures contacts[slot].phone in chats <==> slot in messages
    ensures slot in messages ==> chats[contacts[slot].phone] == messages[slot]
  {
    if contacts[slot].phone in chats {
      var s :| s in messages && s in contacts && contacts[s].phone == contacts[slot].phone;
    }
  }

  lemma BookParts(b: PhoneBook, contacts: map<nat, Contact>, messages: map<nat, seq<Message>>)
    ensures Shows(b, contacts, messages) <==> ShowsNames(b.names, contacts) && ShowsChats(b.chats, contacts, messages)
    ensures ShowsNames(b.names, contacts) ==> PhonesDistinct(contacts) && |b.names| == |contacts|
    ensures ShowsChats(b.chats, contacts, messages) ==> messages.Keys <= contacts.Keys
  {
  }

  lemma AddedAs(b: PhoneBook, ram: Ram, contacts: map<nat, Contact>, name: Text, phone: Text, ret: Ret, now: map<nat, Contact>, room: bool)
    requires if ValidStr(name, MAX_NAME_LEN) && ValidPhone(phone) then ContactAdded(ram, contacts, Contact(name, phone), ret, now) else now == contacts
    requires phone in b.names <==> HasPhone(contacts, phone)
    requires ram.contactFree == [] <==> |b.names| >= MAX_CONTACTS
    ensures (Applied(b, AddContact(name, phone), room) == b && now == contacts)
            || (Applied(b, AddContact(name, phone), room) == b.(names := b.names[phone := name]) && !HasPhone(contacts, phone)
                && Top(ram.contactFree) !in contacts && now == contacts[Top(ram.contactFree) := Contact(name, phone)])
  {
  }

  lemma AddShows(b: PhoneBook, contacts: map<nat, Contact>, messages: map<nat, seq<Message>>, ram: Ram, name: Text, phone: Text, ret: Ret,
                 now: map<nat, Contact>, room: bool)
    requires Shows(b, contacts, messages) && (ram.contactFree == [] <==> |contacts| >= MAX_CONTACTS)
    requires if ValidStr(name, MAX_NAME_LEN) && ValidPhone(phone) then ContactAdded(ram, contacts, Contact(name, phone), ret, now) else now == contacts
    ensures Shows(Applied(b, AddContact(name, phone), room), now, messages)
  {
    hide *;
    BookParts(b, contacts, messages);
    NamesHavePhones(b.names, contacts, phone);
    AddedAs(b, ram, contacts, name, phone, ret, now, room);
    if now != contacts {
      PutName(b.names, contacts, Top(ram.contactFree), Contact(name, phone));
      ChatsStay(b.chats, contacts, now, messages);
      BookParts(b.(names := b.names[phone := name]), now, messages);
    }
  }

  /** A contact in its slot gets a new name or phone number. */
  lemma ChangeNames(names: map<Text, Text>, contacts: map<nat, Contact>, slot: nat, c: Contact)
    requires ShowsNames(names, contacts) && slot in contacts && (c.phone == contacts[slot].phone || !HasPhone(contacts, c.phone))
    ensures ShowsNames((names - {contacts[slot].phone})[c.phone := c.name], contacts[slot := c])
  {
    NoPhone(contacts, slot, c);
    hide *;
    DropName(names, contacts, slot);
    PutName(names - {contacts[slot].phone}, contacts - {slot}, slot, c);
    assert contacts[slot := c] == (contacts - {slot})[slot := c];
  }

  lemma NoPhone(contacts: map<nat, Contact>, slot: nat, c: Contact)
    requires PhonesDistinct(contacts) && slot in contacts && (c.phone == contacts[slot].phone || !HasPhone(contacts, c.phone))
    ensures !HasPhone(contacts - {slot}, c.phone)
  {
    forall s | s in contacts && s != slot
      ensures contacts[s].phone != c.phone
    {
    }
  }

  /** Its chat stays with it. */
  lemma ChangeChats(chats: map<Text, seq<Message>>, contacts: map<nat, Contact>, messages: map<nat, seq<Message>>, slot: nat, c: Contact)
    requires ShowsChats(chats, contacts, messages) && PhonesDistinct(contacts) && PhonesDistinct(contacts[slot := c])
    requires slot in contacts && messages.Keys <= contacts.Keys
    ensures ShowsChats(if contacts[slot].phone in chats then (chats - {contacts[slot].phone})[c.phone := chats[contacts[slot].phone]]
                       else chats - {contacts[slot].phone}, contacts[slot := c], messages)
  {
    hide *;
    var rest, others := chats - {contacts[slot].phone}, messages - {slot};
    ChatHere(chats, contacts, messages, slot);
    DropChat(chats, contacts, messages, slot);
    ChatsStay(rest, contacts, contacts[slot := c], others);
    if slot in messages {
      PutChat(rest, contacts[slot := c], others, slot, messages[slot]);
      assert others[slot := messages[slot]] == messages;
    } else {
      assert others == messages;
    }
  }

  lemma UpdatedBook(b: PhoneBook, contacts: map<nat, Contact>, phone: Text, name: Text, newPhone: Text, slot: nat, ret: Ret, now: map<nat, Contact>,
                    room: bool)
    requires ContactUpdated(contacts, phone, Contact(name, newPhone), slot, ret, now)
    requires (phone in b.names <==> HasPhone(contacts, phone)) && (newPhone in b.names <==> HasPhone(contacts, newPhone))
    ensures (Applied(b, UpdateContact(phone, name, newPhone), room) == b && now == contacts)
            || (phone in b.names && Applied(b, UpdateContact(phone, name, newPhone), room) == Changed(b, phone, name, newPhone)
                && slot in contacts && contacts[slot].phone == phone && now == contacts[slot := Contact(name, newPhone)]
                && (newPhone == phone || !HasPhone(contacts, newPhone)))
  {
    hide HasPhone;
  }

  lemma ChangedParts(b: PhoneBook, phone: Text, name: Text, newPhone: Text)
    requires phone in b.names
    ensures Changed(b, phone, name, newPhone).names == (b.names - {phone})[newPhone := name]
    ensures Changed(b, phone, name, newPhone).chats ==
            if phone in b.chats then (b.chats - {phone})[newPhone := b.chats[phone]] else b.chats - {phone}
  {
  }

  lemma UpdateShows(b: PhoneBook, contacts: map<nat, Contact>, messages: map<nat, seq<Message>>, phone: Text, name: Text, newPhone: Text, slot: nat,
                    ret: Ret, now: map<nat, Contact>, room: bool)
    requires Shows(b, contacts, messages) && ContactUpdated(contacts, phone, Contact(name, newPhone), slot, ret, now)
    ensures Shows(Applied(b, UpdateContact(phone, name, newPhone), room), now, messages)
  {
    hide *;
    var c := Contact(name, newPhone);
    BookParts(b, contacts, messages);
    NamesHavePhones(b.names, contacts, phone);
    NamesHavePhones(b.names, contacts, newPhone);
    UpdatedBook(b, contacts, phone, name, newPhone, slot, ret, now, room);
    if Applied(b, UpdateContact(phone, name, newPhone), room) != b || now != contacts {
      ChangedParts(b, phone, name, newPhone);
      ChangeNames(b.names, contacts, slot, c);
      BookParts(Changed(b, phone, name, newPhone), now, messages);
      ChangeChats(b.chats, contacts, messages, slot, c);
    }
  }

  lemma RemovedAs(b: PhoneBook, contacts: map<nat, Contact>, messages: map<nat, seq<Message>>, phone: Text, slot: nat, ret: Ret,
                  now: map<nat, Contact>, nowMessages: map<nat, seq<Message>>, room: bool)
    requires ContactRemoved(contacts, messages, phone, slot, ret, now, nowMessages)
    requires (phone in b.names <==> HasPhone(contacts, phone)) && (phone in b.chats ==> phone in b.names)
    ensures (Applied(b, RemoveContact(phone), room) == b && now == contacts && nowMessages == messages)
            || (Applied(b, RemoveContact(phone), room).names == b.names - {phone}
                && Applied(b, RemoveContact(phone), room).chats == b.chats - {phone} && slot in contacts && contacts[slot].phone == phone
                && now == contacts - {slot} && nowMessages == messages - {slot})
  {
    hide HasPhone;
    if phone !in b.names { assert b.names - {phone} == b.names && b.chats - {phone} == b.chats; }
  }

  lemma RemoveShows(b: PhoneBook, contacts: map<nat, Contact>, messages: map<nat, seq<Message>>, phone: Text, slot: nat, ret: Ret,
                    now: map<nat, Contact>, nowMessages: map<nat, seq<Message>>, room: bool)
    requires Shows(b, contacts, messages) && ContactRemoved(contacts, messages, phone, slot, ret, now, nowMessages)
    ensures Shows(Applied(b, RemoveContact(phone), room), now, nowMessages)
  {
    hide *;
    BookParts(b, contacts, messages);
    NamesHavePhones(b.names, contacts, phone);
    ChatsHavePhones(b.chats, contacts, messages, phone);
    RemovedAs(b, contacts, messages, phone, slot, ret, now, nowMessages, room);
    if Applied(b, RemoveContact(phone), room) != b || now != contacts || nowMessages != messages {
      DropName(b.names, contacts, slot);
      DropChat(b.chats, contacts, messages, slot);
      ChatsStay(b.chats - {phone}, contacts, now, nowMessages);
      BookParts(Applied(b, RemoveContact(phone), room), now, nowMessages);
    }
  }

  lemma ChatsHavePhones(chats: map<Text, seq<Message>>, contacts: map<nat, Contact>, messages: map<nat, seq<Message>>, phone: Text)
    requires ShowsChats(chats, contacts, messages)
    ensures phone in chats ==> HasPhone(contacts, phone)
  {
  }

  lemma SaidParts(b: PhoneBook, contacts: map<nat, Contact>, messages: map<nat, seq<Message>>, phone: Text, slot: nat, msg: Message)
    requires phone in b.chats <==> slot in messages
    requires slot in messages ==> b.chats[phone] == messages[slot]
    ensures ChatOf(b, phone) == MessagesOf(messages, slot)
    ensures WithMessage(b, phone, msg).names == b.names[phone := NameOf(b, phone)]
    ensures WithMessage(b, phone, msg).chats == b.chats[phone := ChatOf(b, phone) + [msg]]
    ensures phone in b.names ==> b.names[phone := NameOf(b, phone)] == b.names
    ensures phone !in b.names ==> NameOf(b, phone) == []
  {
    if phone in b.names { assert b.names[phone := NameOf(b, phone)] == b.names; }
  }

  lemma PhoneThere(contacts: map<nat, Contact>, now: map<nat, Contact>, phone: Text, slot: nat)
    requires WithPhone(contacts, now, phone, slot)
    ensures slot in now && now[slot].phone == phone
    ensures HasPhone(contacts, phone) ==> now == contacts
    ensures !HasPhone(contacts, phone) ==> slot !in contacts && now == contacts[slot := Contact([], phone)]
  {
  }

  lemma SayShows(b: PhoneBook, contacts: map<nat, Contact>, messages: map<nat, seq<Message>>, phone: Text, slot: nat, msg: Message,
                 now: map<nat, Contact>)
    requires Shows(b, contacts, messages) && WithPhone(contacts, now, phone, slot)
    ensures Shows(WithMessage(b, phone, msg), now, messages[slot := MessagesOf(messages, slot) + [msg]])
  {
    hide *;
    BookParts(b, contacts, messages);
    NamesHavePhones(b.names, contacts, phone);
    PhoneThere(contacts, now, phone, slot);
    if !HasPhone(contacts, phone) { PutName(b.names, contacts, slot, Contact([], phone)); }
    ChatsStay(b.chats, contacts, now, messages);
    NowDistinct(b.names, contacts, now, phone, slot);
    ChatHere(b.chats, now, messages, slot);
    SaidParts(b, now, messages, phone, slot, msg);
    PutChat(b.chats, now, messages, slot, MessagesOf(messages, slot) + [msg]);
    BookParts(WithMessage(b, phone, msg), now, messages[slot := MessagesOf(messages, slot) + [msg]]);
  }

  lemma NowDistinct(names: map<Text, Text>, contacts: map<nat, Contact>, now: map<nat, Contact>, phone: Text, slot: nat)
    requires ShowsNames(names, contacts) && WithPhone(contacts, now, phone, slot)
    ensures PhonesDistinct(now)
  {
    if !HasPhone(contacts, phone) { PutName(names, contacts, slot, Contact([], phone)); }
  }

  lemma UnchatAs(b: PhoneBook, contacts: map<nat, Contact>, messages: map<nat, seq<Message>>, phone: Text, slot: nat, ret: Ret,
                 nowMessages: map<nat, seq<Message>>, room: bool)
    requires ChatRemoved(contacts, messages, phone, slot, ret, nowMessages) && (phone in b.chats ==> HasPhone(contacts, phone))
    ensures Applied(b, RemoveChat(phone), room).names == b.names
    ensures (Applied(b, RemoveChat(phone), room) == b && nowMessages == messages)
            || (Applied(b, RemoveChat(phone), room).chats == b.chats - {phone}
                && slot in contacts && contacts[slot].phone == phone && nowMessages == messages - {slot})
  {
    hide HasPhone;
    if phone !in b.chats { assert b.chats - {phone} == b.chats; }
  }

  lemma UnchatShows(b: PhoneBook, contacts: map<nat, Contact>, messages: map<nat, seq<Message>>, phone: Text, slot: nat, ret: Ret,
                    nowMessages: map<nat, seq<Message>>, room: bool)
    requires Shows(b, contacts, messages) && ChatRemoved(contacts, messages, phone, slot, ret, nowMessages)
    ensures Shows(Applied(b, RemoveChat(phone), room), contacts, nowMessages)
  {
    hide *;
    BookParts(b, contacts, messages);
    ChatsHavePhones(b.chats, contacts, messages, phone);
    UnchatAs(b, contacts, messages, phone, slot, ret, nowMessages, room);
    if Applied(b, RemoveChat(phone), room) != b || nowMessages != messages {
      DropChat(b.chats, contacts, messages, slot);
      BookParts(Applied(b, RemoveChat(phone), room), contacts, nowMessages);
    }
  }

  /** A message that is accepted, if there is room for it. */
  lemma SaidBook(b: PhoneBook, ram: Ram, contacts: map<nat, Contact>, phone: Text, timestamp: nat, outgoing: bool, text: Text, room: bool)
    requires phone in b.names <==> HasPhone(contacts, phone)
    requires ram.contactFree == [] <==> |b.names| >= MAX_CONTACTS
    ensures CreateMessage(timestamp, outgoing, text) == Message(timestamp, outgoing, Kept(text))
    ensures Applied(b, AddMessage(phone, timestamp, outgoing, text), room) ==
            if room && MessageAccepted(ram, contacts, phone, timestamp)
            then WithMessage(b, phone, Message(timestamp, outgoing, Kept(text))) else b
  {
    hide HasPhone, WithMessage;
    assert text[..|text|] == text;
  }

  lemma MessageShows(b: PhoneBook, contacts: map<nat, Contact>, messages: map<nat, seq<Message>>, ram: Ram, phone: Text, timestamp: nat,
                     outgoing: bool, text: Text, slot: nat, now: map<nat, Contact>, nowMessages: map<nat, seq<Message>>)
    requires Shows(b, contacts, messages) && (ram.contactFree == [] <==> |contacts| >= MAX_CONTACTS)
    requires if MessageAccepted(ram, contacts, phone, timestamp) then
               && WithPhone(contacts, now, phone, slot)
               && nowMessages == messages[slot := MessagesOf(messages, slot) + [CreateMessage(timestamp, outgoing, text)]]
             else now == contacts && nowMessages == messages
    ensures Shows(Applied(b, AddMessage(phone, timestamp, outgoing, text), true), now, nowMessages)
  {
    hide *;
    BookParts(b, contacts, messages);
    NamesHavePhones(b.names, contacts, phone);
    SaidBook(b, ram, contacts, phone, timestamp, outgoing, text, true);
    if MessageAccepted(ram, contacts, phone, timestamp) {
      SayShows(b, contacts, messages, phone, slot, CreateMessage(timestamp, outgoing, text), now);
    }
  }

  /** Only a message that is accepted is noted. */
  lemma MessageNotes(b: PhoneBook, contacts: map<nat, Contact>, messages: map<nat, seq<Message>>, ram: Ram, phone: Text, timestamp: nat,
                     outgoing: bool, text: Text, messageLog: Entries, callLog: Entries, now: Entries, sector: nat)
    requires Shows(b, contacts, messages) && (ram.contactFree == [] <==> |contacts| >= MAX_CONTACTS) && Notes(b, messageLog, callLog)
    requires if MessageAccepted(ram, contacts, phone, timestamp) then
               now == messageLog + [MessageEntry(sector, CreateMessage(timestamp, outgoing, text))]
             else now == messageLog
    ensures Notes(Applied(b, AddMessage(phone, timestamp, outgoing, text), true), now, callLog)
  {
    hide *;
    BookParts(b, contacts, messages);
    NamesHavePhones(b.names, contacts, phone);
    SaidBook(b, ram, contacts, phone, timestamp, outgoing, text, true);
    NotedMessage(b, phone, CreateMessage(timestamp, outgoing, text), sector, messageLog, callLog);
  }

  lemma NotedMessage(b: PhoneBook, phone: Text, msg: Message, sector: nat, messageLog: Entries, callLog: Entries)
    requires Notes(b, messageLog, callLog)
    ensures Notes(WithMessage(b, phone, msg), messageLog + [MessageEntry(sector, msg)], callLog)
  {
  }

  lemma CallNotes(b: PhoneBook, contacts: map<nat, Contact>, messages: map<nat, seq<Message>>, phone: Text, slot: nat, messageLog: Entries,
                  callLog: Entries, now: Entries, room: bool)
    requires Shows(b, contacts, messages) && Notes(b, messageLog, callLog)
    requires if !ValidPhone(phone) then now == callLog
             else if HasPhone(contacts, phone) then
               slot in contacts && contacts[slot].phone == phone && now == callLog + [CallEntry(slot, contacts[slot])]
             else now == callLog + [CallEntry(NIL, Contact([], phone))]
    ensures Notes(Applied(b, AddCall(phone), room), messageLog, now) && Shows(Applied(b, AddCall(phone), room), contacts, messages)
  {
    BookParts(b, contacts, messages);
    NamesHavePhones(b.names, contacts, phone);
    if ValidPhone(phone) && HasPhone(contacts, phone) {
      NameHere(b.names, contacts, slot);
      assert contacts[slot] == Contact(NameOf(b, phone), phone);
    }
    hide HasPhone, ShowsNames, ShowsChats;
  }

  lemma NameHere(names: map<Text, Text>, contacts: map<nat, Contact>, slot: nat)
    requires ShowsNames(names, contacts) && slot in contacts
    ensures contacts[slot].phone in names && names[contacts[slot].phone] == contacts[slot].name
  {
  }

  /** Operations on contacts and chats leave the histories alone. */
  lemma NotesStay(b: PhoneBook, op: Operation, room: bool, messageLog: Entries, callLog: Entries)
    requires Notes(b, messageLog, callLog) && !op.AddCall? && !(op.AddMessage? && room)
    ensures Notes(Applied(b, op, room), messageLog, callLog)
  {
  }

  lemma NoRoom(b: PhoneBook, op: Operation)
    requires op.AddMessage?
    ensures Applied(b, op, false) == b
  {
  }

  lemma EmptyShows()
    ensures Shows(EMPTY_BOOK, map[], map[]) && Notes(EMPTY_BOOK, [], [])
  {
  }

  lemma RanMore(b: PhoneBook, ops: seq<Operation>, rooms: seq<bool>, i: nat, room: bool)
    requires i < |ops| && |rooms| == i
    ensures AppliedAll(b, ops[..i + 1], rooms + [room]) == Applied(AppliedAll(b, ops[..i], rooms), ops[i], room)
  {
    hide Applied;
    assert ops[..i + 1][..i] == ops[..i] && (rooms + [room])[..i] == rooms;
  }
}
