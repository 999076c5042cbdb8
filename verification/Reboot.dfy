/** Restarts: what a rebuild gives back after an orderly run, and after a power cut. */
module Reboot {
  import opened Layout
  import opened StorageCard
  import opened JournalLog
  import opened UsageBitmaps
  import opened Journals
  import opened CrashSafety
  import opened Transactions
  import opened FreeLists
  import opened Contacts
  import opened Messages
  import opened HashTables
  import opened Agreement
  import opened Contents
  import opened HashOperations
  import opened Rebuild

  // ----- the card determines everything but the places in the table -----

  /** The sectors of a chat are determined by the card: they follow from its end by the links
      backwards, and its end is the one sector without a link forwards. */
  lemma ChainDetermined(card: Card, bits: seq<bool>, a: map<nat, seq<nat>>, b: map<nat, seq<nat>>, slot: nat)
    requires ChatsOk(card, bits, a) && ChatsOk(card, bits, b) && slot in a
    ensures slot in b && a[slot] == b[slot]
  {
    ChatInRange(card, bits, slot, a[slot]);
    var m := LastOr(a[slot]);
    assert m in a[slot];
    HeadIsLast(card, bits, a, slot, m);
    HeadIsLast(card, bits, b, slot, m);
    LengthsAgree(card, bits, slot, a[slot], b[slot]);
  }

  /** Two chats with the same end agree as far back as both go. */
  lemma {:induction false} SameAt(card: Card, bits: seq<bool>, slot: nat, a: seq<nat>, b: seq<nat>, i: nat)
    requires ChatOk(card, bits, slot, a) && ChatOk(card, bits, slot, b) && LastOr(a) == LastOr(b)
    requires i < |a| && i < |b|
    ensures a[|a| - 1 - i] == b[|b| - 1 - i]
  {
    if i > 0 {
      SameAt(card, bits, slot, a, b, i - 1);
      assert LinkOk(card, bits, slot, a, |a| - i) && LinkOk(card, bits, slot, b, |b| - i);
      assert a[..|a| - i][|a| - i - 1] == a[|a| - 1 - i] && b[..|b| - i][|b| - i - 1] == b[|b| - 1 - i];
    }
  }

  /** A chat starts at the sector without a link backwards, so neither can go on further. */
  lemma LengthsAgree(card: Card, bits: seq<bool>, slot: nat, a: seq<nat>, b: seq<nat>)
    requires ChatOk(card, bits, slot, a) && ChatOk(card, bits, slot, b) && LastOr(a) == LastOr(b)
    ensures a == b
  {
    if |a| < |b| {
      StartsLonger(card, bits, slot, a, b);
    } else if |b| < |a| {
      StartsLonger(card, bits, slot, b, a);
    } else {
      forall j | 0 <= j < |a|
        ensures a[j] == b[j]
      {
        SameAt(card, bits, slot, a, b, |a| - 1 - j);
      }
    }
  }

  lemma StartsLonger(card: Card, bits: seq<bool>, slot: nat, a: seq<nat>, b: seq<nat>)
    requires ChatOk(card, bits, slot, a) && ChatOk(card, bits, slot, b) && LastOr(a) == LastOr(b)
    ensures |a| >= |b|
  {
    if |a| < |b| {
      var j := |b| - |a|;
      ChatInRange(card, bits, slot, b);
      assert b[j - 1] in b && b[..j][j - 1] == b[j - 1] && a[..0] == [];
      assert LinkOk(card, bits, slot, b, j) && LinkOk(card, bits, slot, a, 0);
      SameAt(card, bits, slot, a, b, |a| - 1);
    }
  }

  lemma ChatsDetermined(card: Card, bits: seq<bool>, a: map<nat, seq<nat>>, b: map<nat, seq<nat>>)
    requires ChatsOk(card, bits, a) && ChatsOk(card, bits, b)
    ensures a == b
  {
    forall slot | slot in a
      ensures slot in b && a[slot] == b[slot]
    {
      ChainDetermined(card, bits, a, b, slot);
    }
    forall slot | slot in b
      ensures slot in a
    {
      ChainDetermined(card, bits, b, a, slot);
    }
  }

  lemma PartitionElems(free: seq<nat>, used: set<nat>, capacity: nat)
    requires Partition(free, used, capacity)
    ensures Elems(free) == Below(capacity) - used
  {
  }

  /** Whatever two runs led to the same card, what they hold in RAM stands for the same: only
      the places in the table and the order of the free stacks can differ. */
  lemma RamDetermined(card: Card, bits: seq<bool>, a: Ram, b: Ram, contacts: map<nat, Contact>, messages: map<nat, seq<Message>>,
                      contactsB: map<nat, Contact>, messagesB: map<nat, seq<Message>>)
    requires Holds(card, bits, a, contacts, messages) && Holds(card, bits, b, contactsB, messagesB)
    ensures contacts == contactsB && messages == messagesB && a.chats == b.chats
    ensures a.num == b.num && a.contactUsed == b.contactUsed
    ensures Elems(a.contactFree) == Elems(b.contactFree) && Elems(a.messageFree) == Elems(b.messageFree)
    ensures forall s <- contacts ::
      && s in a.places && a.places[s].index < |a.table| && s in b.places && b.places[s].index < |b.table|
      && a.table[a.places[s].index].latest == b.table[b.places[s].index].latest
  {
    hide *;
    HoldsParts(card, bits, a, contacts, messages);
    HoldsParts(card, bits, b, contactsB, messagesB);
    StoreParts(card, bits, a.chats);
    StoreParts(card, bits, b.chats);
    ChatsDetermined(card, bits, a.chats, b.chats);
    FreeDetermined(contacts.Keys, UsedSectors(bits), a, b);
    IndexNum(contacts, a);
    IndexNum(contacts, b);
    forall s | s in contacts
      ensures s in a.places && a.places[s].index < |a.table| && s in b.places && b.places[s].index < |b.table|
      ensures a.table[a.places[s].index].latest == b.table[b.places[s].index].latest
    {
      IndexEntry(contacts, a, s);
      IndexEntry(contacts, b, s);
    }
  }

  lemma IndexNum(contacts: map<nat, Contact>, ram: Ram)
    requires IndexOk(contacts, ram)
    ensures ram.num == |contacts|
  {
  }

  lemma FreeDetermined(contacts: set<nat>, used: set<nat>, a: Ram, b: Ram)
    requires FreeOk(contacts, used, a) && FreeOk(contacts, used, b)
    ensures a.contactUsed == b.contactUsed
    ensures Elems(a.contactFree) == Elems(b.contactFree) && Elems(a.messageFree) == Elems(b.messageFree)
  {
    PartitionElems(a.contactFree, contacts, MAX_CONTACTS);
    PartitionElems(b.contactFree, contacts, MAX_CONTACTS);
    PartitionElems(a.messageFree, used, MESSAGE_SECTORS);
    PartitionElems(b.messageFree, used, MESSAGE_SECTORS);
  }

  // ----- an orderly restart -----

  /** Restarts on the card that a run of operations has left: every contact, every chat, every
      count and the free sets come back, and nothing is written. */
  method Restart(t: HashTable) returns (ok: bool, again: HashTable)
    requires t.Valid()
    modifies t.storage
    ensures ok && again.Valid() && again.storage == t.storage && again.storage.sectors == old(t.storage.sectors)
    ensures again.contacts == old(t.contacts) && again.messages == old(t.messages)
    ensures again.ram.chats == old(t.ram).chats && again.numElems == old(t.numElems)
    ensures Elems(again.ram.contactFree) == Elems(old(t.ram).contactFree) && Elems(again.ram.messageFree) == Elems(old(t.ram).messageFree)
  {
    hide Ready, Holds, Stored, LinksInRange, HeaderInRange, Clean, BitmapShaped, HashTable.Repr;
    ValidStored(t);
    ghost var card, bits, ram, contacts, messages := t.storage.sectors, t.bitmap.bits, t.ram, t.contacts, t.messages;
    var journal := new Journal(t.storage);
    CleanWrites(card);
    ok := journal.Init();
    again := NewTables(t.storage, journal);
    ok := MountTables(again, bits, ram.chats, []);
    RebuiltAgain(again, card, bits, ram, contacts, messages);
  }

  lemma CleanWrites(card: Card)
    requires Clean(card)
    ensures HeaderInRange(card) && MountWrites(card) == [] && Status(card[JOURNAL_HEADER]) == HeaderValid
  {
  }

  lemma ValidStored(t: HashTable)
    requires t.Valid()
    ensures Stored(t.storage.sectors, t.bitmap.bits, t.ram.chats) && Clean(t.storage.sectors)
    ensures forall bits :: BitmapOnCard(t.storage.sectors, bits) ==> LinksInRange(t.storage.sectors, bits)
    ensures forall a :: BITMAP_START <= a < DATA_START ==> BitmapShaped(t.storage.sectors[a])
    ensures Holds(t.storage.sectors, t.bitmap.bits, t.ram, t.contacts, t.messages)
  {
    BitmapHasShape(t.storage.sectors, t.bitmap.bits);
    ChatsLinks(t.storage.sectors, t.bitmap.bits, t.ram.chats);
    forall bits | BitmapOnCard(t.storage.sectors, bits)
      ensures bits == t.bitmap.bits
    {
      BitmapDetermined(t.storage.sectors, bits, t.bitmap.bits);
    }
  }

  lemma BitmapHasShape(card: Card, bits: seq<bool>)
    requires BitmapOnCard(card, bits)
    ensures forall a :: BITMAP_START <= a < DATA_START ==> BitmapShaped(card[a])
  {
    forall a | BITMAP_START <= a < DATA_START
      ensures BitmapShaped(card[a])
    {
      assert card[BITMAP_START + (a - BITMAP_START)] == BitmapSector(SectorBits(bits, a - BITMAP_START));
    }
  }

  lemma RebuiltAgain(again: HashTable, card: Card, bits: seq<bool>, ram: Ram, contacts: map<nat, Contact>, messages: map<nat, seq<Message>>)
    requires Holds(card, bits, ram, contacts, messages)
    requires again.Valid() && Rebuilt(again, card, bits, ram.chats)
    ensures again.contacts == contacts && again.messages == messages && again.ram.chats == ram.chats && again.numElems == ram.num
    ensures Elems(again.ram.contactFree) == Elems(ram.contactFree) && Elems(again.ram.messageFree) == Elems(ram.messageFree)
  {
    hide Holds, Ready;
    RamDetermined(card, bits, ram, again.ram, contacts, messages, again.contacts, again.messages);
  }
}
