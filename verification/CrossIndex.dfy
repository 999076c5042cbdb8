/** What the name index and the chat order have to do with the hash table, and how each operation
    keeps them in step. */
module CrossIndex {
  import opened Layout
  import opened StorageCard
  import opened FreeLists
  import opened Contacts
  import opened Messages
  import opened HashTables
  import opened Agreement
  import opened Contents
  import opened IndexOrder
  import opened NameOrder
  import opened Heaps
  import opened SortedArrays
  import opened ChatOrders

  /** The hash slots of the contacts in `s`. */
  ghost function IndexSet(places: map<nat, Place>, s: set<nat>): set<nat> {
    set x | x in s && x in places :: places[x].index
  }

  /** Exactly the hash slots of the contacts in `s`, each once. */
  ghost predicate SlotsFor(slots: seq<nat>, places: map<nat, Place>, s: set<nat>) {
    s <= places.Keys && multiset(slots) == multiset(IndexSet(places, s))
  }

  ghost predicate Injective(places: map<nat, Place>) {
    forall x, y :: x in places && y in places && x != y ==> places[x].index != places[y].index
  }

  lemma SlotsHas(slots: seq<nat>, places: map<nat, Place>, s: set<nat>)
    requires SlotsFor(slots, places, s)
    ensures forall j :: j in slots <==> j in IndexSet(places, s)
    ensures FreeLists.Distinct(slots)
  {
    forall j
      ensures j in slots <==> j in IndexSet(places, s)
    {
      assert j in slots <==> j in multiset(slots);
    }
    forall i, j | 0 <= i < j < |slots|
      ensures slots[i] != slots[j]
    {
      if slots[i] == slots[j] {
        CountsTwo(slots, i, j);
      }
    }
  }

  lemma SlotsSize(slots: seq<nat>, places: map<nat, Place>, s: set<nat>)
    requires SlotsFor(slots, places, s)
    ensures |slots| <= |s|
  {
    assert |slots| == |multiset(slots)| == |IndexSet(places, s)|;
    IndexSize(places, s);
  }

  lemma {:induction false} IndexSize(places: map<nat, Place>, s: set<nat>)
    ensures |IndexSet(places, s)| <= |s|
    decreases |s|
  {
    if s == {} {
      assert IndexSet(places, s) == {};
    } else {
      var x :| x in s;
      IndexSize(places, s - {x});
      var rest := IndexSet(places, s - {x});
      assert IndexSet(places, s) == if x in places then rest + {places[x].index} else rest;
    }
  }

  /** One contact more. */
  lemma SlotsAdd(slots: seq<nat>, now: seq<nat>, places: map<nat, Place>, nowPlaces: map<nat, Place>, s: set<nat>, x: nat)
    requires SlotsFor(slots, places, s) && x !in s && x in nowPlaces && Injective(nowPlaces)
    requires forall y <- s :: y in nowPlaces && nowPlaces[y] == places[y]
    requires multiset(now) == multiset(slots) + multiset{nowPlaces[x].index}
    ensures SlotsFor(now, nowPlaces, s + {x})
  {
    var j := nowPlaces[x].index;
    assert IndexSet(nowPlaces, s + {x}) == IndexSet(places, s) + {j};
    assert j !in IndexSet(places, s);
  }

  /** One contact less. */
  lemma SlotsDrop(slots: seq<nat>, now: seq<nat>, places: map<nat, Place>, s: set<nat>, x: nat)
    requires SlotsFor(slots, places, s) && x in s && Injective(places)
    requires multiset(slots) == multiset(now) + multiset{places[x].index}
    ensures SlotsFor(now, places, s - {x})
  {
    var j := places[x].index;
    assert IndexSet(places, s) == IndexSet(places, s - {x}) + {j};
    assert j !in IndexSet(places, s - {x});
    var rest := IndexSet(places, s - {x});
    assert multiset(rest + {j}) == multiset(rest) + multiset{j};
    assert multiset(now) == multiset(slots) - multiset{j};
  }

  lemma SlotsFrame(slots: seq<nat>, places: map<nat, Place>, nowPlaces: map<nat, Place>, s: set<nat>)
    requires SlotsFor(slots, places, s) && forall y <- s :: y in nowPlaces && nowPlaces[y] == places[y]
    ensures SlotsFor(slots, nowPlaces, s)
  {
    assert IndexSet(nowPlaces, s) == IndexSet(places, s);
  }

  // ----- the contacts behind the chat order -----

  /** Hash slots `slots` of contacts in `s`, each naming its contact in the table. */
  ghost predicate Backed(table: seq<HashEntry>, places: map<nat, Place>, s: set<nat>) {
    forall x <- s :: x in places && places[x].index < |table| && table[places[x].index].sector == x
  }

  lemma OwnerAt(order: seq<nat>, table: seq<HashEntry>, places: map<nat, Place>, s: set<nat>, i: nat)
    requires SlotsFor(order, places, s) && Backed(table, places, s) && i < |order|
    ensures Owners(order, table)[i] in s && Owners(order, table)[i] in places && places[Owners(order, table)[i]].index == order[i]
  {
    SlotsHas(order, places, s);
    assert order[i] in order;
    var x :| x in s && x in places && places[x].index == order[i];
  }

  /** The contacts listed are those of `s`. */
  lemma OwnersOf(order: seq<nat>, table: seq<HashEntry>, places: map<nat, Place>, s: set<nat>)
    requires SlotsFor(order, places, s) && Backed(table, places, s)
    ensures FreeLists.Distinct(Owners(order, table)) && forall x :: x in Owners(order, table) <==> x in s
  {
    SlotsHas(order, places, s);
    var owners := Owners(order, table);
    forall i | 0 <= i < |order|
      ensures owners[i] in s && owners[i] in places && places[owners[i]].index == order[i]
    {
      OwnerAt(order, table, places, s, i);
    }
    forall x | x in s
      ensures x in owners
    {
      assert places[x].index in order;
      var i :| 0 <= i < |order| && order[i] == places[x].index;
      assert owners[i] == x;
    }
  }

  lemma OwnersFrame(order: seq<nat>, table: seq<HashEntry>, places: map<nat, Place>, now: seq<HashEntry>, nowPlaces: map<nat, Place>, s: set<nat>)
    requires SlotsFor(order, places, s) && Backed(table, places, s) && Backed(now, nowPlaces, s)
    requires forall y <- s :: nowPlaces[y].index == places[y].index
    ensures Owners(order, now) == Owners(order, table)
  {
    forall i | 0 <= i < |order|
      ensures Owners(order, now)[i] == Owners(order, table)[i]
    {
      OwnerAt(order, table, places, s, i);
    }
  }

  /** A chat that is taken out of the order is taken out of the list of contacts. */
  lemma OwnersWithout(order: seq<nat>, table: seq<HashEntry>, places: map<nat, Place>, s: set<nat>, x: nat)
    requires SlotsFor(order, places, s) && Backed(table, places, s + {x}) && s <= places.Keys
    ensures Owners(Without(order, places[x].index), table) == Without(Owners(order, table), x)
  {
    SlotsHas(order, places, s);
    OwnersOf(order, table, places, s);
    var j, owners := places[x].index, Owners(order, table);
    hide Without, SlotsFor, Injective, Backed, FreeLists.Distinct;
    if j in order {
      var rank :| 0 <= rank < |order| && order[rank] == j;
      assert owners[rank] == x;
      WithoutAt(order, rank);
      WithoutAt(owners, rank);
      OwnersSkip(order, table, rank);
    } else {
      assert x !in s;
      WithoutNone(order, j);
      WithoutNone(owners, x);
    }
  }

  lemma OwnersSkip(order: seq<nat>, table: seq<HashEntry>, rank: nat)
    requires rank < |order|
    ensures Owners(order[..rank] + order[rank + 1..], table) == Owners(order, table)[..rank] + Owners(order, table)[rank + 1..]
  {
  }

  /** A contact gets another hash slot: its chat, if it has one, keeps its place. */
  lemma OwnersReplaced(order: seq<nat>, table: seq<HashEntry>, places: map<nat, Place>, now: seq<HashEntry>, nowPlaces: map<nat, Place>, s: set<nat>, x: nat)
    requires SlotsFor(order, places, s) && Backed(table, places, s + {x}) && Backed(now, nowPlaces, s + {x})
    requires Injective(places) && Injective(nowPlaces) && nowPlaces == places[x := nowPlaces[x]]
    ensures var j, k := places[x].index, nowPlaces[x].index;
      && (k in order ==> k == j) && SlotsFor(Replaced(order, j, k), nowPlaces, s)
      && Owners(Replaced(order, j, k), now) == Owners(order, table)
  {
    SlotsHas(order, places, s);
    var j, k := places[x].index, nowPlaces[x].index;
    var swapped := Replaced(order, j, k);
    ReplacedSlots(order, places, nowPlaces, s, x);
    forall i | 0 <= i < |order|
      ensures Owners(swapped, now)[i] == Owners(order, table)[i]
    {
      OwnerAt(order, table, places, s, i);
      var y := Owners(order, table)[i];
      assert swapped[i] == nowPlaces[y].index;
    }
  }

  lemma ReplacedSlots(order: seq<nat>, places: map<nat, Place>, nowPlaces: map<nat, Place>, s: set<nat>, x: nat)
    requires SlotsFor(order, places, s) && x in places && x in nowPlaces
    requires Injective(places) && Injective(nowPlaces) && nowPlaces == places[x := nowPlaces[x]]
    ensures var j, k := places[x].index, nowPlaces[x].index;
      (k in order ==> k == j) && SlotsFor(Replaced(order, j, k), nowPlaces, s)
  {
    SlotsHas(order, places, s);
    var j, k := places[x].index, nowPlaces[x].index;
    if k in order {
      var y :| y in s && y in places && places[y].index == k;
      assert y in nowPlaces && nowPlaces[y].index == k;
    }
    if x in s {
      assert j in order;
      var rank :| 0 <= rank < |order| && order[rank] == j;
      ReplacedAt(order, rank, k);
      WithoutMultiset(order, j);
      SlotsSwap(order, Without(order, j), order[rank := k], places, nowPlaces, s, x);
    } else {
      assert j !in IndexSet(places, s);
      ReplacedNone(order, j, k);
      SlotsFrame(order, places, nowPlaces, s);
    }
  }

  lemma SlotsSwap(order: seq<nat>, less: seq<nat>, now: seq<nat>, places: map<nat, Place>, nowPlaces: map<nat, Place>, s: set<nat>, x: nat)
    requires SlotsFor(order, places, s) && x in s && x in nowPlaces
    requires Injective(places) && Injective(nowPlaces) && nowPlaces == places[x := nowPlaces[x]]
    requires multiset(order) == multiset(less) + multiset{places[x].index}
    requires exists rank: nat :: rank < |order| && order[rank] == places[x].index && now == order[rank := nowPlaces[x].index]
    ensures SlotsFor(now, nowPlaces, s)
  {
    SlotsDrop(order, less, places, s, x);
    assert multiset(now) == multiset(less) + multiset{nowPlaces[x].index};
    SlotsAdd(less, now, places, nowPlaces, s - {x}, x);
    assert s - {x} + {x} == s;
  }

  // ----- as multisets -----

  lemma WithoutMultiset(s: seq<nat>, x: nat)
    requires FreeLists.Distinct(s)
    ensures x in s ==> multiset(s) == multiset(Without(s, x)) + multiset{x}
    ensures x !in s ==> Without(s, x) == s
  {
    if x in s {
      var rank :| 0 <= rank < |s| && s[rank] == x;
      WithoutAt(s, rank);
      SplitAt(s, rank);
    } else {
      WithoutNone(s, x);
    }
  }

  lemma EntriesAdd(entries: seq<NameEntry>, now: seq<NameEntry>, e: NameEntry)
    requires multiset(now) == multiset(entries) + multiset{e}
    ensures multiset(Mapped(SlotOf, now)) == multiset(Mapped(SlotOf, entries)) + multiset{e.hashSlot}
  {
    assert multiset(now) == multiset(entries + [e]);
    MappedPermuted(SlotOf, now, entries + [e]);
    MappedJoin(SlotOf, entries, [e]);
    assert Mapped(SlotOf, [e]) == [e.hashSlot];
  }

  // ----- the hash table behind it -----

  /** Contacts have hash slots of their own, and those are the occupied ones. */
  lemma TableFacts(card: Card, bits: seq<bool>, ram: Ram, contacts: map<nat, Contact>, messages: map<nat, seq<Message>>)
    requires Holds(card, bits, ram, contacts, messages)
    ensures ram.places.Keys == contacts.Keys && Injective(ram.places) && messages.Keys <= contacts.Keys
    ensures Backed(ram.table, ram.places, contacts.Keys)
    ensures forall s <- contacts :: ram.places[s].index < |ram.table| && ram.table[ram.places[s].index].state == EntryOccupied
                                    && ram.table[ram.places[s].index].sector == s
  {
    KeysFacts(card, bits, ram, contacts, messages);
    forall s | s in contacts
      ensures ram.places[s].index < |ram.table| && ram.table[ram.places[s].index].state == EntryOccupied && ram.table[ram.places[s].index].sector == s
    {
      PlaceFacts(card, bits, ram, contacts, messages, s);
    }
  }

  /** The entries of contacts that have not been touched stay as they are. */
  lemma NamesFrame(entries: seq<NameEntry>, ram: Ram, contacts: map<nat, Contact>, now: Ram, nowContacts: map<nat, Contact>, s: set<nat>,
                   card: Card, bits: seq<bool>, messages: map<nat, seq<Message>>,
                   nowCard: Card, nowBits: seq<bool>, nowMessages: map<nat, seq<Message>>)
    requires Holds(card, bits, ram, contacts, messages) && Holds(nowCard, nowBits, now, nowContacts, nowMessages)
    requires NamesOk(entries, ram.table, contacts) && SlotsFor(Mapped(SlotOf, entries), ram.places, s) && s <= contacts.Keys
    requires forall x <- s :: x in nowContacts && nowContacts[x] == contacts[x] && x in now.places && now.places[x] == ram.places[x]
    ensures NamesOk(entries, now.table, nowContacts) && Names(entries, now.table, nowContacts) == Names(entries, ram.table, contacts)
    ensures SlotsFor(Mapped(SlotOf, entries), now.places, s)
  {
    hide Holds, NameCmp, NamesSorted, Names, SlotsFor, IndexSet, EntryOk;
    TableFacts(card, bits, ram, contacts, messages);
    TableFacts(nowCard, nowBits, now, nowContacts, nowMessages);
    SlotsFrame(Mapped(SlotOf, entries), ram.places, now.places, s);
    forall i | 0 <= i < |entries|
      ensures EntryOk(now.table, nowContacts, entries[i]) && Named(now.table, nowContacts, entries[i].hashSlot) == Named(ram.table, contacts, entries[i].hashSlot)
    {
      var x := SlotOwner(entries, ram.places, s, i);
      EntryFrame(ram.table, contacts, now.table, nowContacts, entries[i], x);
    }
    NamesSame(entries, ram.table, contacts, now.table, nowContacts);
  }

  lemma SlotOwner(entries: seq<NameEntry>, places: map<nat, Place>, s: set<nat>, i: nat) returns (x: nat)
    requires SlotsFor(Mapped(SlotOf, entries), places, s) && i < |entries|
    ensures x in s && x in places && places[x].index == entries[i].hashSlot
  {
    SlotsHas(Mapped(SlotOf, entries), places, s);
    assert Mapped(SlotOf, entries)[i] in Mapped(SlotOf, entries);
    x :| x in s && x in places && places[x].index == entries[i].hashSlot;
  }

  lemma EntryFrame(table: seq<HashEntry>, contacts: map<nat, Contact>, now: seq<HashEntry>, nowContacts: map<nat, Contact>, e: NameEntry, x: nat)
    requires EntryOk(table, contacts, e) && table[e.hashSlot].sector == x && x in contacts
    requires e.hashSlot < |now| && now[e.hashSlot].state == EntryOccupied && now[e.hashSlot].sector == x
    requires x in nowContacts && nowContacts[x] == contacts[x]
    ensures EntryOk(now, nowContacts, e) && Named(now, nowContacts, e.hashSlot) == Named(table, contacts, e.hashSlot)
  {
  }

  lemma NamesSame(entries: seq<NameEntry>, table: seq<HashEntry>, contacts: map<nat, Contact>, now: seq<HashEntry>, nowContacts: map<nat, Contact>)
    requires NamesOk(entries, table, contacts)
    requires forall i :: 0 <= i < |entries| ==>
      EntryOk(now, nowContacts, entries[i]) && Named(now, nowContacts, entries[i].hashSlot) == Named(table, contacts, entries[i].hashSlot)
    ensures NamesOk(entries, now, nowContacts) && Names(entries, now, nowContacts) == Names(entries, table, contacts)
  {
    hide NameCmp, EntryOk;
    assert Names(entries, now, nowContacts) == Names(entries, table, contacts);
  }

  /** The names in the index are those of the contacts in `s`. */
  lemma NamesHas(card: Card, bits: seq<bool>, ram: Ram, contacts: map<nat, Contact>, messages: map<nat, seq<Message>>, entries: seq<NameEntry>, s: set<nat>, c: Contact)
    requires Holds(card, bits, ram, contacts, messages) && SlotsFor(Mapped(SlotOf, entries), ram.places, s) && s <= contacts.Keys
    ensures c in Names(entries, ram.table, contacts) <==> exists x :: x in s && contacts[x] == c
  {
    TableFacts(card, bits, ram, contacts, messages);
    SlotsHas(Mapped(SlotOf, entries), ram.places, s);
    hide Holds;
    var names := Names(entries, ram.table, contacts);
    if c in names {
      var i :| 0 <= i < |names| && names[i] == c;
      assert Mapped(SlotOf, entries)[i] in Mapped(SlotOf, entries);
      var x :| x in s && x in ram.places && ram.places[x].index == entries[i].hashSlot;
      assert contacts[x] == c;
    }
    if x :| x in s && contacts[x] == c {
      assert ram.places[x].index in IndexSet(ram.places, s);
      var i :| 0 <= i < |entries| && Mapped(SlotOf, entries)[i] == ram.places[x].index;
      assert names[i] == c;
    }
  }
}
