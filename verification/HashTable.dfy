/** The hash table in RAM: phone numbers to contact slots, by double hashing with tombstones. */
module HashTables {
  import opened Layout
  import opened StorageCard
  import opened UsageBitmaps
  import opened Journals
  import opened Transactions
  import opened FreeLists
  import opened Contacts
  import opened Probing

  datatype EntryState = EntryEmpty | EntryOccupied | EntryDeleted

  datatype HashEntry = HashEntry(id: nat, sector: nat, latest: nat, state: EntryState)

  const BLANK_ENTRY := HashEntry(0, 0, 0, EntryEmpty)

  // ----- the hash of a phone number -----

  /** DJB2 over the digits, in 32-bit arithmetic. */
  function Djb2(phone: Text, hash: nat): (h: nat)
    requires hash < 0x1_0000_0000
    ensures h < 0x1_0000_0000
  {
    if phone == [] then hash
    else
      var c := phone[0] as nat;
      Djb2(phone[1..], if '0' as nat <= c <= '9' as nat then (hash * 33 + c) % 0x1_0000_0000 else hash)
  }

  function Pow2(n: nat): nat { if n == 0 then 1 else 2 * Pow2(n - 1) }

  /** Exclusive or of the lowest `n` bits. */
  function Xor(a: nat, b: nat, n: nat): (x: nat)
    ensures x < Pow2(n)
  {
    if n == 0 then 0 else 2 * Xor(a / 2, b / 2, n - 1) + if a % 2 != b % 2 then 1 else 0
  }

  /** Both halves of the hash folded into 16 bits. */
  function HashPhone(phone: Text): (h: nat)
    ensures h <= NIL
  {
    assert Pow2(6) == 64 && Pow2(11) == 2048 && Pow2(16) == 0x1_0000;
    var h := Djb2(phone, 5381);
    Xor(h % 0x1_0000, h / 0x1_0000, 16)
  }

  // ----- what the table represents -----

  /** Where a contact's entry is: its index in the table, and how many probes lead to it. */
  datatype Place = Place(index: nat, probes: nat)

  predicate PathOpen(table: seq<HashEntry>, hash: nat, probes: nat)
    requires |table| > 1
  {
    forall i :: 0 <= i < probes ==> table[Probe(hash, i, |table|)].state != EntryEmpty
  }

  predicate PlaceOk(table: seq<HashEntry>, slot: nat, c: Contact, p: Place)
    requires |table| > 1
  {
    var hash := HashPhone(c.phone);
    && p.index < |table| && p.probes < |table|
    && table[p.index].state == EntryOccupied && table[p.index].sector == slot && table[p.index].id == hash
    && Probe(hash, p.probes, |table|) == p.index && PathOpen(table, hash, p.probes)
  }

  /** The table holds exactly the contacts: each has one occupied entry, reachable along its
      probe path without crossing an empty one, and there are no others. */
  ghost predicate TableOk(table: seq<HashEntry>, contacts: map<nat, Contact>, places: map<nat, Place>) {
    && |table| > 2 && Prime(|table|)
    && places.Keys == contacts.Keys
    && (forall s <- contacts :: PlaceOk(table, s, contacts[s], places[s]))
    && (forall j :: 0 <= j < |table| && table[j].state == EntryOccupied ==>
          table[j].sector in places && places[table[j].sector].index == j)
  }

  /** No phone number belongs to two contacts. */
  ghost predicate PhonesDistinct(contacts: map<nat, Contact>) {
    forall s, t :: s in contacts && t in contacts && contacts[s].phone == contacts[t].phone ==> s == t
  }

  /** Entry `p` is where a new contact with this hash can go. */
  predicate Vacant(table: seq<HashEntry>, hash: nat, p: Place)
    requires |table| > 1
  {
    && p.index < |table| && p.probes < |table| && Probe(hash, p.probes, |table|) == p.index
    && table[p.index].state != EntryOccupied && PathOpen(table, hash, p.probes)
  }

  function NewEntry(slot: nat, phone: Text): HashEntry {
    HashEntry(HashPhone(phone), slot, NIL, EntryOccupied)
  }

  /** A new contact in a vacant entry. */
  lemma TableInsert(table: seq<HashEntry>, contacts: map<nat, Contact>, places: map<nat, Place>,
                    slot: nat, c: Contact, p: Place, e: HashEntry)
    requires TableOk(table, contacts, places) && slot !in contacts
    requires Vacant(table, HashPhone(c.phone), p)
    requires e.state == EntryOccupied && e.sector == slot && e.id == HashPhone(c.phone)
    ensures TableOk(table[p.index := e], contacts[slot := c], places[slot := p])
  {
    var now := table[p.index := e];
    forall s | s in contacts
      ensures PlaceOk(now, s, contacts[s], places[s])
    {
      assert PlaceOk(table, s, contacts[s], places[s]);
    }
  }

  /** A removed contact leaves a tombstone, so the probe paths of the others stay open. */
  lemma TableDelete(table: seq<HashEntry>, contacts: map<nat, Contact>, places: map<nat, Place>, slot: nat, tomb: HashEntry)
    requires TableOk(table, contacts, places) && slot in contacts && tomb.state == EntryDeleted
    ensures TableOk(table[places[slot].index := tomb], contacts - {slot}, places - {slot})
  {
    var now := table[places[slot].index := tomb];
    forall s | s in contacts - {slot}
      ensures PlaceOk(now, s, contacts[s], places[s])
    {
      assert PlaceOk(table, s, contacts[s], places[s]);
      assert places[s].index != places[slot].index;
    }
  }

  /** A contact rewritten under the same phone number keeps its entry. */
  lemma TableRename(table: seq<HashEntry>, contacts: map<nat, Contact>, places: map<nat, Place>, slot: nat, c: Contact)
    requires TableOk(table, contacts, places) && slot in contacts && c.phone == contacts[slot].phone
    ensures TableOk(table, contacts[slot := c], places)
  {
  }

  /** The entry that a contact moves to is vacant, and still is once its old one is a tombstone. */
  lemma MoveFrees(table: seq<HashEntry>, contacts: map<nat, Contact>, places: map<nat, Place>, slot: nat, hash: nat, p: Place, tomb: HashEntry)
    requires TableOk(table, contacts, places) && slot in contacts && tomb.state == EntryDeleted && Vacant(table, hash, p)
    ensures slot in places && places[slot].index < |table| && p.index < |table| && p.index != places[slot].index
    ensures table[places[slot].index].state == EntryOccupied && table[places[slot].index].sector == slot
    ensures Vacant(table[places[slot].index := tomb], hash, p)
  {
    assert PlaceOk(table, slot, contacts[slot], places[slot]);
    hide TableOk;
  }

  /** A changed phone number moves the entry: copied to a vacant one, the old one deleted. */
  lemma TableMove(table: seq<HashEntry>, contacts: map<nat, Contact>, places: map<nat, Place>, slot: nat, c: Contact, p: Place, tomb: HashEntry)
    requires TableOk(table, contacts, places) && slot in contacts && tomb.state == EntryDeleted
    requires Vacant(table, HashPhone(c.phone), p)
    ensures var from := places[slot].index;
            p.index != from &&
            TableOk(table[p.index := table[from].(id := HashPhone(c.phone))][from := tomb], contacts[slot := c], places[slot := p])
  {
    hide *;
    MoveFrees(table, contacts, places, slot, HashPhone(c.phone), p, tomb);
    var was := places[slot].index;
    var e := table[was].(id := HashPhone(c.phone));
    TableDelete(table, contacts, places, slot, tomb);
    TableInsert(table[was := tomb], contacts - {slot}, places - {slot}, slot, c, p, e);
    assert table[p.index := e][was := tomb] == table[was := tomb][p.index := e];
    assert (contacts - {slot})[slot := c] == contacts[slot := c];
    assert (places - {slot})[slot := p] == places[slot := p];
  }

  lemma TableRelatest(table: seq<HashEntry>, contacts: map<nat, Contact>, places: map<nat, Place>, slot: nat, latest: nat)
    requires TableOk(table, contacts, places) && slot in contacts
    ensures TableOk(table[places[slot].index := table[places[slot].index].(latest := latest)], contacts, places)
  {
    var j := places[slot].index;
    var now := table[j := table[j].(latest := latest)];
    assert PlaceOk(table, slot, contacts[slot], places[slot]);
    forall s | s in contacts
      ensures PlaceOk(now, s, contacts[s], places[s])
    {
      assert PlaceOk(table, s, contacts[s], places[s]);
    }
  }

  /** A probe that meets an empty entry has passed every contact of that hash. */
  lemma PathEnds(table: seq<HashEntry>, contacts: map<nat, Contact>, places: map<nat, Place>, slot: nat, i: nat)
    requires TableOk(table, contacts, places) && slot in contacts
    requires i < |table| && table[Probe(HashPhone(contacts[slot].phone), i, |table|)].state == EntryEmpty
    ensures places[slot].probes < i
  {
    assert PlaceOk(table, slot, contacts[slot], places[slot]);
  }

  /** After a full probe sequence without a free entry, the table has none. */
  lemma NoneFree(table: seq<HashEntry>, hash: nat)
    requires |table| > 2 && Prime(|table|)
    requires forall i :: 0 <= i < |table| ==> table[Probe(hash, i, |table|)].state == EntryOccupied
    ensures forall j :: 0 <= j < |table| ==> table[j].state == EntryOccupied
  {
    forall j | 0 <= j < |table|
      ensures table[j].state == EntryOccupied
    {
      ProbesCover(hash, |table|, j);
    }
  }

  /** What a lookup promises when the table represents `contacts`: a phone number's own entry if
      it has a contact; else an entry that a new contact can take, if there is any. */
  ghost predicate FoundOk(table: seq<HashEntry>, contacts: map<nat, Contact>, places: map<nat, Place>, phone: Text,
                          found: bool, p: Place) {
    && |table| > 2
    && (forall s <- contacts :: contacts[s].phone == phone ==> found && s in places && p.index == places[s].index)
    && ((forall s <- contacts :: contacts[s].phone != phone) ==>
          if found then Vacant(table, HashPhone(phone), p) else forall j :: 0 <= j < |table| ==> table[j].state == EntryOccupied)
  }

  /** The probe loop has looked at `i` entries: it passed neither an empty entry nor the
      phone's own, and remembers the first tombstone. */
  ghost predicate Probed(table: seq<HashEntry>, contacts: map<nat, Contact>, places: map<nat, Place>, phone: Text,
                         i: nat, free: Option<Place>) {
    && |table| > 2 && i <= |table| && PathOpen(table, HashPhone(phone), i)
    && (forall s <- contacts :: contacts[s].phone == phone ==> s in places && places[s].probes >= i)
    && match free
       case Some(p) => p.probes < i && Vacant(table, HashPhone(phone), p)
       case None => forall k :: 0 <= k < i ==> table[Probe(HashPhone(phone), k, |table|)].state == EntryOccupied
  }

  lemma ProbedStart(table: seq<HashEntry>, contacts: map<nat, Contact>, places: map<nat, Place>, phone: Text)
    requires TableOk(table, contacts, places)
    ensures Probed(table, contacts, places, phone, 0, None)
  {
  }

  lemma EntryOfContact(table: seq<HashEntry>, contacts: map<nat, Contact>, places: map<nat, Place>, j: nat)
    requires TableOk(table, contacts, places) && j < |table| && table[j].state == EntryOccupied
    ensures table[j].sector in contacts
  {
  }

  lemma ProbedEmpty(table: seq<HashEntry>, contacts: map<nat, Contact>, places: map<nat, Place>, phone: Text, i: nat, free: Option<Place>)
    requires TableOk(table, contacts, places) && Probed(table, contacts, places, phone, i, free) && i < |table|
    requires table[Probe(HashPhone(phone), i, |table|)].state == EntryEmpty
    ensures forall s <- contacts :: contacts[s].phone != phone
    ensures FoundOk(table, contacts, places, phone, true,
                    if free.Some? then free.value else Place(Probe(HashPhone(phone), i, |table|), i))
  {
    forall s | s in contacts
      ensures contacts[s].phone != phone
    {
      if contacts[s].phone == phone {
        PathEnds(table, contacts, places, s, i);
      }
    }
  }

  lemma ProbedMatch(table: seq<HashEntry>, contacts: map<nat, Contact>, places: map<nat, Place>, phone: Text, i: nat, slot: nat)
    requires TableOk(table, contacts, places) && PhonesDistinct(contacts) && i < |table|
    requires slot in contacts && contacts[slot].phone == phone
    requires var e := table[Probe(HashPhone(phone), i, |table|)]; e.state == EntryOccupied && e.sector == slot
    ensures FoundOk(table, contacts, places, phone, true, Place(Probe(HashPhone(phone), i, |table|), i))
  {
  }

  lemma ProbedNext(table: seq<HashEntry>, contacts: map<nat, Contact>, places: map<nat, Place>, phone: Text, i: nat, free: Option<Place>)
    requires TableOk(table, contacts, places) && Probed(table, contacts, places, phone, i, free) && i < |table|
    requires var e := table[Probe(HashPhone(phone), i, |table|)];
             e.state != EntryEmpty &&
             (e.state == EntryOccupied && e.id == HashPhone(phone) ==> e.sector in contacts && contacts[e.sector].phone != phone)
    ensures var j := Probe(HashPhone(phone), i, |table|);
            Probed(table, contacts, places, phone, i + 1,
                   if table[j].state == EntryDeleted && free.None? then Some(Place(j, i)) else free)
  {
    forall s | s in contacts && contacts[s].phone == phone
      ensures places[s].probes >= i + 1
    {
      assert PlaceOk(table, s, contacts[s], places[s]);
    }
  }

  lemma ProbedAll(table: seq<HashEntry>, contacts: map<nat, Contact>, places: map<nat, Place>, phone: Text, free: Option<Place>)
    requires TableOk(table, contacts, places) && Probed(table, contacts, places, phone, |table|, free)
    ensures FoundOk(table, contacts, places, phone, free.Some?, if free.Some? then free.value else Place(0, 0))
  {
    forall s | s in contacts
      ensures contacts[s].phone != phone
    {
      assert PlaceOk(table, s, contacts[s], places[s]);
    }
    if free.None? { NoneFree(table, HashPhone(phone)); }
  }

  /** A table in which not every entry is occupied. */
  ghost predicate HasRoom(table: seq<HashEntry>) {
    |table| > 2 && Prime(|table|) && exists j :: 0 <= j < |table| && table[j].state != EntryOccupied
  }

  /** The first `n` entries on a probe path are occupied. */
  predicate AllTaken(table: seq<HashEntry>, hash: nat, n: nat) {
    |table| > 1 && forall i :: 0 <= i < n ==> table[Probe(hash, i, |table|)].state == EntryOccupied
  }

  lemma NoneTaken(table: seq<HashEntry>, hash: nat)
    requires |table| > 1
    ensures AllTaken(table, hash, 0)
  {
  }

  lemma ProbeBelow(hash: nat, i: nat, capacity: nat)
    requires capacity > 1
    ensures Probe(hash, i, capacity) < capacity
  {
  }

  lemma TakenNext(table: seq<HashEntry>, hash: nat, i: nat)
    requires |table| > 1
    ensures AllTaken(table, hash, i) && table[Probe(hash, i, |table|)].state == EntryOccupied ==> AllTaken(table, hash, i + 1)
  {
  }

  lemma TakenAll(table: seq<HashEntry>, hash: nat)
    requires AllTaken(table, hash, |table|)
    ensures !HasRoom(table)
  {
    if |table| > 2 && Prime(|table|) { NoneFree(table, hash); }
  }

  /** Whether the contact in `slot` has this phone number; when there is none, the contact that was
      read last is compared. */
  method HasPhoneNumber(storage: Storage, bitmap: UsageBitmap, slot: nat, phone: Text, last: Contact) returns (same: bool, contact: Contact)
    requires bitmap.Valid() && slot <= NIL
    ensures var c := ContactAt(storage.sectors, bitmap.bits, slot);
      c.Some? ==> contact == c.value && (same <==> c.value.phone == phone)
  {
    contact := last;
    var ret, read := ReadContact(storage, bitmap, slot);
    if ret == Ok {
      contact := read;
    }
    same := ret != Corrupt && contact.phone == phone;
  }

  /** Looks a phone number up.  `place.index` is the entry it belongs to: its own, or the first
      tombstone or the empty entry at the end of its probe path.  Whatever the table holds, the
      lookup only fails if every entry is occupied. */
  method FindEntry(storage: Storage, bitmap: UsageBitmap, htable: array<HashEntry>, phone: Text,
                   ghost contacts: map<nat, Contact>, ghost places: map<nat, Place>)
    returns (found: bool, place: Place)
    requires bitmap.Valid() && htable.Length > 2
    requires forall j :: 0 <= j < htable.Length && htable[j].state == EntryOccupied ==> htable[j].sector <= NIL
    ensures found ==> place.index < htable.Length
    ensures HasRoom(htable[..]) ==> found
    ensures TableOk(htable[..], contacts, places) && PhonesDistinct(contacts)
            && (forall s <- contacts :: s <= NIL && ContactAt(storage.sectors, bitmap.bits, s) == Some(contacts[s])) ==>
      FoundOk(htable[..], contacts, places, phone, found, place)
  {
    hide AllTaken, Probe, TableOk, PhonesDistinct, Probed, FoundOk, HasRoom, ContactAt, UsageBitmap.Valid, IsContactSector, ContactDataSector;
    ghost var good := TableOk(htable[..], contacts, places) && PhonesDistinct(contacts)
      && forall s <- contacts :: s <= NIL && ContactAt(storage.sectors, bitmap.bits, s) == Some(contacts[s]);
    var size := htable.Length;
    var hash := HashPhone(phone);
    var firstFree: Option<Place> := None;
    var contact: Contact := *;
    if good { ProbedStart(htable[..], contacts, places, phone); }
    NoneTaken(htable[..], hash);
    for i := 0 to size
      invariant if firstFree.Some? then firstFree.value.index < size else AllTaken(htable[..], hash, i)
      invariant good ==> Probed(htable[..], contacts, places, phone, i, firstFree)
    {
      ProbeBelow(hash, i, size);
      TakenNext(htable[..], hash, i);
      var index := Probe(hash, i, size);
      var entry := htable[index];
      if entry.state == EntryEmpty {
        if good { ProbedEmpty(htable[..], contacts, places, phone, i, firstFree); }
        return true, if firstFree.Some? then firstFree.value else Place(index, i);
      }
      if entry.state == EntryOccupied && entry.id == hash {
        if good { EntryOfContact(htable[..], contacts, places, index); }
        var same;
        same, contact := HasPhoneNumber(storage, bitmap, entry.sector, phone, contact);
        if same {
          if good { ProbedMatch(htable[..], contacts, places, phone, i, entry.sector); }
          return true, Place(index, i);
        }
      }
      if good { ProbedNext(htable[..], contacts, places, phone, i, firstFree); }
      if entry.state == EntryDeleted && firstFree.None? {
        firstFree := Some(Place(index, i));
      }
    }
    if good { ProbedAll(htable[..], contacts, places, phone, firstFree); }
    if firstFree.None? { TakenAll(htable[..], hash); }
    return firstFree.Some?, if firstFree.Some? then firstFree.value else Place(0, 0);
  }
}
