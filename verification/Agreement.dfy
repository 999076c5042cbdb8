/** What the structures in RAM must agree on with the card between operations, and how each
    operation keeps that agreement. */
module Agreement {
  import opened Layout
  import opened StorageCard
  import opened FreeLists
  import opened Contacts
  import opened Messages
  import opened HashTables
  import opened Transactions
  import opened Probing

  /** The values held in RAM, with the ghost maps that explain them. */
  datatype Ram = Ram(table: seq<HashEntry>, num: nat, contactFree: seq<nat>, contactUsed: nat, messageFree: seq<nat>,
                     places: map<nat, Place>, chats: map<nat, seq<nat>>)

  /** Every entry points at the newest sector of its contact's chat. */
  ghost predicate LatestOk(table: seq<HashEntry>, places: map<nat, Place>, chats: map<nat, seq<nat>>) {
    forall s <- places :: places[s].index < |table| && table[places[s].index].latest == LastOr(ChainOf(chats, s))
  }

  /** The card by itself: readable contacts with distinct phone numbers, and their chats. */
  ghost predicate StoreOk(card: Card, bits: seq<bool>, chats: map<nat, seq<nat>>) {
    && ContactRegionOk(card, bits) && ChatsOk(card, bits, chats)
    && chats.Keys <= ContactMap(card, bits).Keys && PhonesDistinct(ContactMap(card, bits))
  }

  /** The hash table holds the contacts and the newest sector of each chat. */
  ghost predicate IndexOk(contacts: map<nat, Contact>, ram: Ram) {
    && |ram.table| == HASH_TABLE_SIZE && TableOk(ram.table, contacts, ram.places)
    && LatestOk(ram.table, ram.places, ram.chats)
    && ram.num == |contacts|
  }

  /** The allocators hold what neither a contact nor a chat uses. */
  ghost predicate FreeOk(contacts: set<nat>, used: set<nat>, ram: Ram) {
    && ram.contactUsed == |contacts|
    && Partition(ram.contactFree, contacts, MAX_CONTACTS)
    && Partition(ram.messageFree, used, MESSAGE_SECTORS)
  }

  ghost predicate Agree(card: Card, bits: seq<bool>, ram: Ram) {
    match ram
    case Ram(_, _, _, _, _, _, chats) =>
      && StoreOk(card, bits, chats)
      && IndexOk(ContactMap(card, bits), ram)
      && FreeOk(ContactMap(card, bits).Keys, UsedSectors(bits), ram)
  }

  /** There are never more contacts than slots, so the table always has a free entry. */
  lemma TableHasRoom(table: seq<HashEntry>, contacts: map<nat, Contact>, places: map<nat, Place>)
    requires TableOk(table, contacts, places) && |table| > MAX_CONTACTS
    requires forall s <- contacts :: s < MAX_CONTACTS
    ensures exists j :: 0 <= j < |table| && table[j].state != EntryOccupied
  {
    if forall j :: 0 <= j < |table| ==> table[j].state == EntryOccupied {
      var sectors := seq(|table|, j requires 0 <= j < |table| => table[j].sector);
      forall x | x in sectors
        ensures x < MAX_CONTACTS
      {
        var j :| 0 <= j < |table| && sectors[j] == x;
        assert table[j].sector in places;
      }
      forall i, j | 0 <= i < j < |table|
        ensures sectors[i] != sectors[j]
      {
        assert places[table[i].sector].index == i && places[table[j].sector].index == j;
      }
      Pigeonhole(sectors, MAX_CONTACTS);
    }
  }

  lemma ContactFrame(was: Card, wasBits: seq<bool>, now: Card, nowBits: seq<bool>, slot: nat, c: Option<Contact>)
    requires ContactChanged(was, wasBits, now, nowBits, slot, c)
    ensures MessagesSame(was, wasBits, now, nowBits)
  {
  }

  // ----- the card -----

  lemma StoreContact(card: Card, bits: seq<bool>, now: Card, nowBits: seq<bool>, chats: map<nat, seq<nat>>, slot: nat, c: Contact)
    requires StoreOk(card, bits, chats)
    requires ContactChanged(card, bits, now, nowBits, slot, Some(c)) && ContactRegionOk(now, nowBits)
    requires forall s <- ContactMap(card, bits) :: s != slot ==> ContactMap(card, bits)[s].phone != c.phone
    ensures StoreOk(now, nowBits, chats) && ContactMap(now, nowBits) == ContactMap(card, bits)[slot := c]
    ensures UsedSectors(nowBits) == UsedSectors(bits)
    ensures forall e <- chats :: ChatMessages(now, chats[e]) == ChatMessages(card, chats[e])
  {
    ContactFrame(card, bits, now, nowBits, slot, Some(c));
    ContactMapChanged(card, bits, now, nowBits, slot, Some(c));
    ChatsFrame(card, bits, now, nowBits, chats);
  }

  lemma StoreWithout(card: Card, bits: seq<bool>, now: Card, nowBits: seq<bool>, chats: map<nat, seq<nat>>, slot: nat)
    requires StoreOk(card, bits, chats) && slot !in chats
    requires ContactChanged(card, bits, now, nowBits, slot, None) && ContactRegionOk(now, nowBits)
    ensures StoreOk(now, nowBits, chats) && ContactMap(now, nowBits) == ContactMap(card, bits) - {slot}
    ensures UsedSectors(nowBits) == UsedSectors(bits)
    ensures forall e <- chats :: ChatMessages(now, chats[e]) == ChatMessages(card, chats[e])
  {
    ContactFrame(card, bits, now, nowBits, slot, None);
    ContactMapChanged(card, bits, now, nowBits, slot, None);
    ChatsFrame(card, bits, now, nowBits, chats);
  }

  /** Nothing in the contact region has changed. */
  predicate ContactsSame(card: Card, bits: seq<bool>, now: Card, nowBits: seq<bool>) {
    && |bits| == TOTAL_BITS && |nowBits| == TOTAL_BITS
    && forall d :: 0 <= d < CONTACT_SECTORS ==> now[RawData(d)] == card[RawData(d)] && nowBits[d] == bits[d]
  }

  lemma ContactsFrame(card: Card, bits: seq<bool>, now: Card, nowBits: seq<bool>)
    requires ContactsSame(card, bits, now, nowBits)
    ensures ContactMap(now, nowBits) == ContactMap(card, bits)
    ensures ContactRegionOk(card, bits) ==> ContactRegionOk(now, nowBits)
  {
    forall s | 0 <= s < MAX_CONTACTS
      ensures ContactAt(now, nowBits, s) == ContactAt(card, bits, s)
    {
      assert ContactDataSector(s) < CONTACT_SECTORS;
    }
  }

  // ----- the hash table -----

  /** Different contacts have different entries. */
  lemma PlacesApart(table: seq<HashEntry>, contacts: map<nat, Contact>, places: map<nat, Place>)
    requires TableOk(table, contacts, places)
    ensures forall s <- places :: places[s].index < |table| && table[places[s].index].state == EntryOccupied
                                  && table[places[s].index].sector == s
    ensures forall s, t :: s in places && t in places && s != t ==> places[s].index != places[t].index
  {
    forall s | s in places
      ensures places[s].index < |table| && table[places[s].index].state == EntryOccupied && table[places[s].index].sector == s
    {
      assert PlaceOk(table, s, contacts[s], places[s]);
    }
  }

  lemma LatestInsert(table: seq<HashEntry>, contacts: map<nat, Contact>, places: map<nat, Place>, chats: map<nat, seq<nat>>,
                     slot: nat, p: Place, e: HashEntry)
    requires TableOk(table, contacts, places) && LatestOk(table, places, chats) && slot !in places
    requires p.index < |table| && table[p.index].state != EntryOccupied && e.latest == LastOr(ChainOf(chats, slot))
    ensures LatestOk(table[p.index := e], places[slot := p], chats)
  {
    PlacesApart(table, contacts, places);
    hide TableOk;
  }

  lemma LatestDelete(table: seq<HashEntry>, contacts: map<nat, Contact>, places: map<nat, Place>, chats: map<nat, seq<nat>>,
                     slot: nat, tomb: HashEntry)
    requires TableOk(table, contacts, places) && LatestOk(table, places, chats) && slot in places
    ensures places[slot].index < |table| && LatestOk(table[places[slot].index := tomb], places - {slot}, chats)
  {
    PlacesApart(table, contacts, places);
  }

  lemma LatestMove(table: seq<HashEntry>, contacts: map<nat, Contact>, places: map<nat, Place>, chats: map<nat, seq<nat>>,
                   slot: nat, p: Place, id: nat, tomb: HashEntry)
    requires TableOk(table, contacts, places) && LatestOk(table, places, chats) && slot in places
    requires p.index < |table| && table[p.index].state != EntryOccupied
    ensures places[slot].index < |table| && places[slot].index != p.index
    ensures LatestOk(table[p.index := table[places[slot].index].(id := id)][places[slot].index := tomb], places[slot := p], chats)
  {
    PlacesApart(table, contacts, places);
    hide TableOk, ChainOf, LastOr;
  }

  lemma MapGrows<K, V>(m: map<K, V>, k: K, v: V)
    requires k !in m
    ensures m[k := v].Keys == m.Keys + {k} && |m[k := v]| == |m| + 1
  {
  }

  lemma IndexInsert(contacts: map<nat, Contact>, ram: Ram, slot: nat, c: Contact, p: Place)
    requires IndexOk(contacts, ram) && slot !in contacts && slot !in ram.chats
    requires Vacant(ram.table, HashPhone(c.phone), p)
    ensures IndexOk(contacts[slot := c], ram.(table := ram.table[p.index := NewEntry(slot, c.phone)], num := ram.num + 1,
                                              places := ram.places[slot := p]))
  {
    var e := NewEntry(slot, c.phone);
    TableInsert(ram.table, contacts, ram.places, slot, c, p, e);
    LatestInsert(ram.table, contacts, ram.places, ram.chats, slot, p, e);
    MapGrows(contacts, slot, c);
  }

  lemma IndexDelete(contacts: map<nat, Contact>, ram: Ram, slot: nat, tomb: HashEntry)
    requires IndexOk(contacts, ram) && slot in contacts && tomb.state == EntryDeleted
    ensures slot in ram.places && ram.places[slot].index < |ram.table| && ram.num > 0
    ensures IndexOk(contacts - {slot}, ram.(table := ram.table[ram.places[slot].index := tomb], num := ram.num - 1,
                                            places := ram.places - {slot}))
  {
    TableDelete(ram.table, contacts, ram.places, slot, tomb);
    LatestDelete(ram.table, contacts, ram.places, ram.chats, slot, tomb);
    assert (contacts - {slot}).Keys == contacts.Keys - {slot};
  }

  lemma TableKeys(table: seq<HashEntry>, contacts: map<nat, Contact>, places: map<nat, Place>)
    requires TableOk(table, contacts, places)
    ensures places.Keys == contacts.Keys
  {
  }

  lemma VacantFree(table: seq<HashEntry>, hash: nat, p: Place)
    requires |table| > 1 && Vacant(table, hash, p)
    ensures p.index < |table| && table[p.index].state != EntryOccupied
  {
  }

  lemma IndexMove(contacts: map<nat, Contact>, ram: Ram, slot: nat, c: Contact, p: Place, tomb: HashEntry)
    requires IndexOk(contacts, ram) && slot in contacts && tomb.state == EntryDeleted
    requires Vacant(ram.table, HashPhone(c.phone), p)
    ensures slot in ram.places && ram.places[slot].index < |ram.table| && ram.places[slot].index != p.index
    ensures var was := ram.places[slot].index;
            IndexOk(contacts[slot := c],
                    ram.(table := ram.table[p.index := ram.table[was].(id := HashPhone(c.phone))][was := tomb],
                         places := ram.places[slot := p]))
  {
    hide *;
    IndexIs(contacts, ram);
    TableKeys(ram.table, contacts, ram.places);
    VacantFree(ram.table, HashPhone(c.phone), p);
    LatestMove(ram.table, contacts, ram.places, ram.chats, slot, p, HashPhone(c.phone), tomb);
    TableMove(ram.table, contacts, ram.places, slot, c, p, tomb);
    assert contacts[slot := c].Keys == contacts.Keys;
    IndexIs(contacts[slot := c],
            ram.(table := ram.table[p.index := ram.table[ram.places[slot].index].(id := HashPhone(c.phone))][ram.places[slot].index := tomb],
                 places := ram.places[slot := p]));
  }

  lemma IndexIs(contacts: map<nat, Contact>, ram: Ram)
    ensures IndexOk(contacts, ram) <==>
      && |ram.table| == HASH_TABLE_SIZE && TableOk(ram.table, contacts, ram.places)
      && LatestOk(ram.table, ram.places, ram.chats) && ram.num == |contacts|
    ensures HASH_TABLE_SIZE > 1
  {
  }

  lemma IndexRename(contacts: map<nat, Contact>, ram: Ram, slot: nat, c: Contact)
    requires IndexOk(contacts, ram) && slot in contacts && c.phone == contacts[slot].phone
    ensures IndexOk(contacts[slot := c], ram)
  {
    TableRename(ram.table, contacts, ram.places, slot, c);
    assert contacts[slot := c].Keys == contacts.Keys;
  }

  /** The chat of a contact now ends at `latest`. */
  lemma IndexLatest(contacts: map<nat, Contact>, ram: Ram, slot: nat, latest: nat, chats: map<nat, seq<nat>>)
    requires IndexOk(contacts, ram) && slot in contacts
    requires LastOr(ChainOf(chats, slot)) == latest
    requires forall s <- contacts :: s != slot ==> ChainOf(chats, s) == ChainOf(ram.chats, s)
    ensures slot in ram.places && ram.places[slot].index < |ram.table|
    ensures var j := ram.places[slot].index;
            IndexOk(contacts, ram.(table := ram.table[j := ram.table[j].(latest := latest)], chats := chats))
  {
    TableRelatest(ram.table, contacts, ram.places, slot, latest);
    assert PlaceOk(ram.table, slot, contacts[slot], ram.places[slot]);
    forall s | s in ram.places && s != slot
      ensures ram.places[s].index != ram.places[slot].index
    {
      assert PlaceOk(ram.table, s, contacts[s], ram.places[s]);
    }
  }

  /** The entry that a lookup gives is occupied exactly when the phone number has a contact,
      and then it is that contact's. */
  lemma FoundCases(table: seq<HashEntry>, contacts: map<nat, Contact>, places: map<nat, Place>, phone: Text, p: Place)
    requires TableOk(table, contacts, places) && FoundOk(table, contacts, places, phone, true, p)
    ensures p.index < |table|
    ensures var e := table[p.index];
            if e.state == EntryOccupied then e.sector in contacts && contacts[e.sector].phone == phone && places[e.sector].index == p.index
            else Vacant(table, HashPhone(phone), p) && forall s <- contacts :: contacts[s].phone != phone
  {
    PlacesApart(table, contacts, places);
  }

  // ----- everything together -----

  lemma AgreeInsert(card: Card, bits: seq<bool>, ram: Ram, now: Card, nowBits: seq<bool>, slot: nat, c: Contact, p: Place, free: seq<nat>)
    requires Agree(card, bits, ram) && ram.contactFree == free + [slot]
    requires ContactChanged(card, bits, now, nowBits, slot, Some(c)) && ContactRegionOk(now, nowBits)
    requires Vacant(ram.table, HashPhone(c.phone), p)
    requires forall s <- ContactMap(card, bits) :: ContactMap(card, bits)[s].phone != c.phone
    ensures slot !in ContactMap(card, bits) && ContactMap(now, nowBits) == ContactMap(card, bits)[slot := c]
    ensures Agree(now, nowBits, ram.(table := ram.table[p.index := NewEntry(slot, c.phone)], num := ram.num + 1,
                                     contactFree := free, contactUsed := ram.contactUsed + 1, places := ram.places[slot := p]))
    ensures forall e <- ram.chats :: ChatMessages(now, ram.chats[e]) == ChatMessages(card, ram.chats[e])
  {
    hide ContactMap, TableOk, LatestOk, Vacant, ContactRegionOk, ContactChanged, ChatsOk, UsedSectors, ChatMessages;
    var contacts := ContactMap(card, bits);
    PartitionAllocate(free, contacts.Keys, MAX_CONTACTS, slot);
    StoreContact(card, bits, now, nowBits, ram.chats, slot, c);
    IndexInsert(contacts, ram, slot, c, p);
    MapGrows(contacts, slot, c);
  }
}
