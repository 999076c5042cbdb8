/** The chat order: the hash slots of all contacts with a chat, most recent chat first. */
module ChatOrders {
  import opened Layout
  import opened StorageCard
  import opened UsageBitmaps
  import opened Transactions
  import opened FreeLists
  import opened Contacts
  import opened Messages
  import opened Backwards
  import opened HashTables
  import opened Agreement
  import opened Contents
  import opened HashOperations
  import opened Heaps
  import opened ArrayMoves
  import opened SortedArrays

  function Without(s: seq<nat>, x: nat): seq<nat> {
    if s == [] then [] else if s[0] == x then s[1..] else [s[0]] + Without(s[1..], x)
  }

  lemma {:induction false} WithoutAt(s: seq<nat>, rank: nat)
    requires FreeLists.Distinct(s) && rank < |s|
    ensures Without(s, s[rank]) == s[..rank] + s[rank + 1..]
  {
    if rank > 0 {
      var tail := s[1..];
      forall i, j | 0 <= i < j < |tail|
        ensures tail[i] != tail[j]
      {
        assert tail[i] == s[i + 1] && tail[j] == s[j + 1];
      }
      WithoutAt(tail, rank - 1);
      assert Without(s, s[rank]) == [s[0]] + Without(tail, s[rank]);
      hide Without, FreeLists.Distinct;
      assert s[1..][rank - 1] == s[rank];
      assert s[..rank] == [s[0]] + s[1..][..rank - 1] && s[rank + 1..] == s[1..][rank..];
    }
  }

  lemma {:induction false} WithoutNone(s: seq<nat>, x: nat)
    requires x !in s
    ensures Without(s, x) == s
  {
    if s != [] { WithoutNone(s[1..], x); }
  }

  lemma WithoutHas(s: seq<nat>, x: nat)
    requires FreeLists.Distinct(s)
    ensures FreeLists.Distinct(Without(s, x)) && forall y :: y in Without(s, x) <==> y in s && y != x
  {
    if x in s {
      var rank :| 0 <= rank < |s| && s[rank] == x;
      WithoutAt(s, rank);
      DistinctWithout(s, rank);
    } else {
      WithoutNone(s, x);
    }
  }

  class ChatOrder {
    const mem: array<nat>
    var occupancy: nat

    constructor ()
      ensures Valid() && fresh(mem) && Order() == []
    {
      mem := new nat[MAX_CONTACTS](_ => 0);
      occupancy := 0;
    }

    ghost function Order(): seq<nat>
      reads this, mem
    {
      if occupancy <= mem.Length then mem[..occupancy] else []
    }

    ghost predicate Valid()
      reads this, mem
    {
      mem.Length == MAX_CONTACTS && occupancy <= mem.Length && FreeLists.Distinct(mem[..occupancy])
    }

    method Find(slot: nat) returns (found: bool, rank: nat)
      requires Valid()
      ensures found <==> slot in Order()
      ensures found ==> rank < |Order()| && Order()[rank] == slot
    {
      for i := 0 to occupancy
        invariant slot !in mem[..i]
      {
        if mem[i] == slot {
          assert mem[..occupancy][i] == slot;
          return true, i;
        }
      }
      return false, 0;
    }

    /** Moves a chat to the front, or puts a new one there. */
    method Touch(slot: nat) returns (ret: Ret)
      requires Valid()
      modifies this, mem
      ensures Valid()
      ensures ret == if slot !in old(Order()) && |old(Order())| >= MAX_CONTACTS then Full else Ok
      ensures Order() == if ret == Ok then [slot] + Without(old(Order()), slot) else old(Order())
    {
      hide FreeLists.Distinct, Without;
      ghost var was := mem[..occupancy];
      TouchDistinct(was, slot);
      var found, rank := Find(slot);
      if !found {
        WithoutNone(was, slot);
        if occupancy >= MAX_CONTACTS {
          return Full;
        }
        rank := occupancy;
        occupancy := occupancy + 1;
      } else {
        WithoutAt(was, rank);
      }
      Front(slot, rank, was);
      assert mem[..occupancy] == [slot] + Without(was, slot);
      return Ok;
    }

    method Front(slot: nat, rank: nat, ghost was: seq<nat>)
      requires rank < occupancy <= mem.Length && rank <= |was| <= occupancy && mem[..|was|] == was && (|was| < occupancy ==> rank == |was| == occupancy - 1)
      modifies mem
      ensures mem[..occupancy] == [slot] + (was[..rank] + if rank < |was| then was[rank + 1..] else [])
    {
      ghost var all := mem[..];
      Move(mem, 1, 0, rank);
      ghost var moved := mem[..];
      mem[0] := slot;
      ToFront(all, moved, mem[..], slot, rank, occupancy, was);
    }

    /** Takes a chat out. */
    method Remove(slot: nat) returns (ret: Ret)
      requires Valid()
      modifies this, mem
      ensures Valid()
      ensures ret == if slot in old(Order()) then Ok else Empty
      ensures Order() == Without(old(Order()), slot)
    {
      ghost var was := mem[..occupancy];
      WithoutHas(was, slot);
      var found, rank := Find(slot);
      if !found {
        WithoutNone(was, slot);
        return Empty;
      }
      WithoutAt(was, rank);
      RemoveAt(mem, occupancy, rank);
      occupancy := occupancy - 1;
      return Ok;
    }

    /** Gives a chat another hash slot; it keeps its place. */
    method Replace(oldSlot: nat, newSlot: nat) returns (ret: Ret)
      requires Valid() && (newSlot in Order() ==> newSlot == oldSlot)
      modifies this, mem
      ensures Valid()
      ensures ret == if oldSlot in old(Order()) then Ok else Empty
      ensures Order() == Replaced(old(Order()), oldSlot, newSlot)
    {
      ghost var was := mem[..occupancy];
      var found, rank := Find(oldSlot);
      if !found {
        ReplacedNone(was, oldSlot, newSlot);
        return Empty;
      }
      mem[rank] := newSlot;
      ReplacedAt(was, rank, newSlot);
      assert mem[..occupancy] == was[rank := newSlot];
      return Ok;
    }

    /** At most `n` hash slots from rank `start` on. */
    method GetRange(start: nat, n: nat) returns (ok: bool, out: seq<nat>)
      requires Valid()
      ensures ok <==> start < |Order()|
      ensures out == if ok then Order()[start..if n < |Order()| - start then start + n else |Order()|] else []
    {
      if start >= occupancy {
        return false, [];
      }
      var count := if n > occupancy - start then occupancy - start else n;
      return true, mem[start..start + count];
    }
  }

  lemma ToFront(all: seq<nat>, moved: seq<nat>, now: seq<nat>, slot: nat, rank: nat, occupancy: nat, was: seq<nat>)
    requires rank < occupancy <= |all| && rank <= |was| <= occupancy && all[..|was|] == was && (|was| < occupancy ==> rank == |was| == occupancy - 1)
    requires moved == all[..1] + all[..rank] + all[1 + rank..] && now == moved[0 := slot]
    ensures now[..occupancy] == [slot] + (was[..rank] + if rank < |was| then was[rank + 1..] else [])
  {
    assert was[..rank] == all[..rank];
    assert rank < |was| ==> was[rank + 1..] == all[rank + 1..occupancy];
    assert now == [slot] + all[..rank] + all[1 + rank..];
  }

  lemma TouchDistinct(s: seq<nat>, slot: nat)
    requires FreeLists.Distinct(s)
    ensures FreeLists.Distinct([slot] + Without(s, slot))
  {
    WithoutHas(s, slot);
    hide Without;
    var now := [slot] + Without(s, slot);
    forall i, j | 0 <= i < j < |now|
      ensures now[i] != now[j]
    {
      assert now[j] == Without(s, slot)[j - 1] && now[j] in Without(s, slot);
    }
  }

  function Replaced(s: seq<nat>, x: nat, y: nat): (r: seq<nat>)
    ensures |r| == |s|
    ensures forall i :: 0 <= i < |s| ==> r[i] == if s[i] == x then y else s[i]
  {
    seq(|s|, i requires 0 <= i < |s| => if s[i] == x then y else s[i])
  }

  lemma ReplacedNone(s: seq<nat>, x: nat, y: nat)
    requires x !in s
    ensures Replaced(s, x, y) == s
  {
  }

  lemma ReplacedAt(s: seq<nat>, rank: nat, y: nat)
    requires FreeLists.Distinct(s) && rank < |s|
    ensures Replaced(s, s[rank], y) == s[rank := y]
  {
  }

  // ----- rebuilding -----

  datatype ChatScratch = ChatScratch(timestamp: nat, hashSlot: nat)

  /** Latest message first, then hash slot. */
  function ScratchCmp(): (ChatScratch, ChatScratch) -> int {
    (a: ChatScratch, b: ChatScratch) =>
      if a.timestamp != b.timestamp then (if a.timestamp > b.timestamp then -1 else 1) else a.hashSlot - b.hashSlot
  }

  ghost function AnyScratch(): iset<ChatScratch> { iset x: ChatScratch | x.timestamp >= 0 }

  lemma ScratchOrders()
    ensures Orders(ScratchCmp(), AnyScratch())
  {
  }

  /** The timestamp of the latest message of the chat in a hash slot. */
  function LatestTime(table: seq<HashEntry>, messages: map<nat, seq<Message>>, slot: nat): nat {
    if slot < |table| then TimeOf(messages, table[slot].sector) else 0
  }

  function TimeOf(messages: map<nat, seq<Message>>, contact: nat): nat {
    var all := MessagesOf(messages, contact);
    if all == [] then 0 else all[|all| - 1].timestamp
  }

  predicate HasChat(table: seq<HashEntry>, slot: nat) {
    slot < |table| && table[slot].state == EntryOccupied && table[slot].latest != NIL
  }

  /** The chats below `upto`, in increasing order, with the times of their latest messages. */
  ghost predicate Scanned(s: seq<ChatScratch>, table: seq<HashEntry>, messages: map<nat, seq<Message>>, upto: nat) {
    && (forall i :: 0 <= i < |s| ==> HasChat(table, s[i].hashSlot) && s[i].hashSlot < upto && s[i].timestamp == LatestTime(table, messages, s[i].hashSlot))
    && (forall i, j :: 0 <= i < j < |s| ==> s[i].hashSlot < s[j].hashSlot)
    && (forall j :: 0 <= j < upto && HasChat(table, j) ==> j in Mapped(ScratchSlot, s))
  }

  function ScratchSlot(x: ChatScratch): nat { x.hashSlot }

  /** Exactly the slots with a chat, each once. */
  ghost predicate ListsChats(order: seq<nat>, table: seq<HashEntry>) {
    FreeLists.Distinct(order) && forall j :: 0 <= j ==> (HasChat(table, j) <==> j in order)
  }

  /** Later messages come first; of equal times, the lower slot. */
  ghost predicate LatestFirst(order: seq<nat>, table: seq<HashEntry>, messages: map<nat, seq<Message>>) {
    forall i, j :: 0 <= i < j < |order| ==>
      LatestTime(table, messages, order[i]) > LatestTime(table, messages, order[j])
      || (LatestTime(table, messages, order[i]) == LatestTime(table, messages, order[j]) && order[i] < order[j])
  }

  lemma ScannedSlots(was: seq<ChatScratch>, now: seq<ChatScratch>, table: seq<HashEntry>, messages: map<nat, seq<Message>>)
    requires Scanned(was, table, messages, |table|) && multiset(now) == multiset(was)
    ensures ListsChats(Mapped(ScratchSlot, now), table) && FreeLists.Distinct(Mapped(ScratchSlot, now))
  {
    var a, b := Mapped(ScratchSlot, was), Mapped(ScratchSlot, now);
    MappedPermuted(ScratchSlot, was, now);
    PermutedDistinct(a, b);
    forall j
      ensures j in a <==> j in b
    {
      assert j in a <==> j in multiset(a);
      assert j in b <==> j in multiset(b);
    }
    forall j | j in a
      ensures HasChat(table, j)
    {
      var i :| 0 <= i < |a| && a[i] == j;
    }
  }

  lemma ScannedTimes(was: seq<ChatScratch>, now: seq<ChatScratch>, table: seq<HashEntry>, messages: map<nat, seq<Message>>)
    requires Scanned(was, table, messages, |table|) && multiset(now) == multiset(was) && Ascending(now, ScratchCmp())
    requires FreeLists.Distinct(Mapped(ScratchSlot, now))
    ensures LatestFirst(Mapped(ScratchSlot, now), table, messages)
  {
    forall i | 0 <= i < |now|
      ensures now[i].timestamp == LatestTime(table, messages, now[i].hashSlot)
    {
      assert now[i] in multiset(was);
      var k :| 0 <= k < |was| && was[k] == now[i];
    }
    hide LatestTime;
    var b := Mapped(ScratchSlot, now);
    forall i, j | 0 <= i < j < |b|
      ensures LatestTime(table, messages, b[i]) > LatestTime(table, messages, b[j])
              || (LatestTime(table, messages, b[i]) == LatestTime(table, messages, b[j]) && b[i] < b[j])
    {
      assert ScratchCmp()(now[i], now[j]) <= 0;
    }
  }

  lemma NothingScanned(table: seq<HashEntry>, messages: map<nat, seq<Message>>)
    ensures Scanned([], table, messages, 0)
  {
  }

  lemma ScanPassed(s: seq<ChatScratch>, table: seq<HashEntry>, messages: map<nat, seq<Message>>, slot: nat)
    requires Scanned(s, table, messages, slot)
    ensures !HasChat(table, slot) ==> Scanned(s, table, messages, slot + 1)
    ensures HasChat(table, slot) ==> Scanned(s + [ChatScratch(LatestTime(table, messages, slot), slot)], table, messages, slot + 1)
  {
    hide LatestTime;
    var x := ChatScratch(LatestTime(table, messages, slot), slot);
    MappedJoin(ScratchSlot, s, [x]);
    assert Mapped(ScratchSlot, [x])[0] == slot;
    assert slot in Mapped(ScratchSlot, [x]);
  }

  /** The scratch array never runs out: a chat belongs to a contact, and contacts have slots of
      their own. */
  lemma ScanRoom(card: Card, bits: seq<bool>, ram: Ram, contacts: map<nat, Contact>, messages: map<nat, seq<Message>>, s: seq<ChatScratch>, slot: nat)
    requires Holds(card, bits, ram, contacts, messages) && Scanned(s, ram.table, messages, slot) && HasChat(ram.table, slot)
    ensures |s| < MAX_CONTACTS
  {
    hide Holds, LatestTime;
    var sectors := seq(|s| + 1, i requires 0 <= i <= |s| =>
                       if i < |s| then (if s[i].hashSlot < |ram.table| then ram.table[s[i].hashSlot].sector else 0) else ram.table[slot].sector);
    OccupiedContact(card, bits, ram, contacts, messages, slot);
    forall i | 0 <= i < |s|
      ensures s[i].hashSlot < slot && ram.table[s[i].hashSlot].sector in ram.places
      ensures ram.places[sectors[i]].index == s[i].hashSlot && sectors[i] < MAX_CONTACTS
    {
      OccupiedContact(card, bits, ram, contacts, messages, s[i].hashSlot);
    }
    Pigeonhole(sectors, MAX_CONTACTS);
  }

  /** Reads the time of the latest message of a chat. */
  method ReadLatest(t: HashTable, slot: nat) returns (ret: Ret, time: nat)
    requires t.Valid() && HasChat(t.ram.table, slot)
    ensures ret == Ok && time == LatestTime(t.ram.table, t.messages, slot)
  {
    hide Ready, Holds, UsageBitmap.Valid, ChatOk, FreeOk, ChatMessages, LinksInRange, InUse;
    ReadyFacts(t.storage, t.journal, t.bitmap);
    LinkFacts(t.storage.sectors, t.bitmap.bits, t.ram, t.contacts, t.messages);
    OccupiedContact(t.storage.sectors, t.bitmap.bits, t.ram, t.contacts, t.messages, slot);
    ghost var contact := t.ram.table[slot].sector;
    ChatFacts(t.storage.sectors, t.bitmap.bits, t.ram, t.contacts, t.messages, contact);
    ghost var chain := ChainOf(t.ram.chats, contact);
    LastSectorFull(t.storage.sectors, t.bitmap.bits, contact, chain);
    var out;
    ret, out := ReadNMessages(t.storage, t.bitmap, t.htable[slot].latest, 0, 1, contact, chain);
    time := out[0].timestamp;
  }

  lemma TableSize(t: HashTable)
    requires t.Valid()
    ensures |t.ram.table| == HASH_TABLE_SIZE
  {
    hide Ready, Holds;
  }

  /** Rebuilds the order: the latest message of every chat is read, and the chats are sorted. */
  method Build(t: HashTable) returns (ret: Ret, co: ChatOrder)
    requires t.Valid()
    ensures fresh(co) && fresh(co.mem)
    ensures ret == Ok && co.Valid() && ListsChats(co.Order(), t.ram.table) && LatestFirst(co.Order(), t.ram.table, t.messages)
  {
    hide HashTable.Shape, HashTable.InRam, Ready, Holds, Scanned, ListsChats, LatestFirst, Ascending, Mapped, Orders, Within;
    co := new ChatOrder();
    var scratch := new ChatScratch[MAX_CONTACTS](_ => ChatScratch(0, 0));
    var chats;
    ret, chats := Scan(t, scratch);
    ghost var was := scratch[..chats];
    ScratchOrders();
    EveryScratch(was);
    HeapSort(scratch, chats, ScratchCmp(), AnyScratch());
    ghost var now := scratch[..chats];
    TableSize(t);
    ScannedSlots(was, now, t.ram.table, t.messages);
    ScannedTimes(was, now, t.ram.table, t.messages);
    FillOrder(co, scratch, chats);
  }

  lemma EveryScratch(s: seq<ChatScratch>)
    ensures Within(s, AnyScratch())
  {
  }

  method Scan(t: HashTable, scratch: array<ChatScratch>) returns (ret: Ret, chats: nat)
    requires t.Valid() && scratch.Length == MAX_CONTACTS
    modifies scratch
    ensures ret == Ok && chats <= scratch.Length && Scanned(scratch[..chats], t.ram.table, t.messages, HASH_TABLE_SIZE)
  {
    hide Ready, Holds, Scanned, LatestTime;
    chats, ret := 0, Ok;
    NothingScanned(t.ram.table, t.messages);
    assert scratch[..0] == [];
    for slot := 0 to HASH_TABLE_SIZE
      invariant t.Valid() && ret == Ok && chats <= scratch.Length && Scanned(scratch[..chats], t.ram.table, t.messages, slot)
    {
      ghost var was := scratch[..chats];
      ScanPassed(was, t.ram.table, t.messages, slot);
      if t.htable[slot].state == EntryOccupied && t.htable[slot].latest != NIL {
        ScanRoom(t.storage.sectors, t.bitmap.bits, t.ram, t.contacts, t.messages, was, slot);
        var time;
        ret, time := ReadLatest(t, slot);
        scratch[chats] := ChatScratch(time, slot);
        chats := chats + 1;
        assert scratch[..chats] == was + [ChatScratch(time, slot)];
      }
    }
  }

  method FillOrder(co: ChatOrder, scratch: array<ChatScratch>, chats: nat)
    requires chats <= scratch.Length && co.mem.Length == MAX_CONTACTS && chats <= MAX_CONTACTS
    requires FreeLists.Distinct(Mapped(ScratchSlot, scratch[..chats])) && co.Valid() && co.occupancy == 0
    modifies co, co.mem
    ensures co.Valid() && co.Order() == Mapped(ScratchSlot, scratch[..chats])
  {
    for i := 0 to chats
      invariant co.occupancy == i
      invariant forall k :: 0 <= k < i ==> co.mem[k] == scratch[k].hashSlot
    {
      co.mem[co.occupancy] := scratch[i].hashSlot;
      co.occupancy := co.occupancy + 1;
    }
    assert co.mem[..chats] == Mapped(ScratchSlot, scratch[..chats]);
  }

  // ----- the maintained order and the rebuilt one -----

  /** The contacts whose chats are in the order. */
  function Owners(order: seq<nat>, table: seq<HashEntry>): (r: seq<nat>)
    ensures |r| == |order|
    ensures forall i :: 0 <= i < |order| ==> r[i] == if order[i] < |table| then table[order[i]].sector else NIL
  {
    seq(|order|, i requires 0 <= i < |order| => if order[i] < |table| then table[order[i]].sector else NIL)
  }

  /** Every chat has a later message than those behind it. */
  ghost predicate Recent(owners: seq<nat>, messages: map<nat, seq<Message>>) {
    forall i, j :: 0 <= i < j < |owners| ==> TimeOf(messages, owners[i]) > TimeOf(messages, owners[j])
  }

  /** Moving a chat with a new latest message to the front keeps it so. */
  lemma TouchRecent(owners: seq<nat>, messages: map<nat, seq<Message>>, c: nat, msg: Message)
    requires Recent(owners, messages) && FreeLists.Distinct(owners)
    requires forall s <- owners :: TimeOf(messages, s) < msg.timestamp
    ensures Recent([c] + Without(owners, c), messages[c := MessagesOf(messages, c) + [msg]])
  {
    hide Without, TimeOf, FreeLists.Distinct;
    WithoutHas(owners, c);
    WithoutRecent(owners, messages, c);
    TimesNow(messages, c, msg);
    var rest := Without(owners, c);
    forall i | 0 <= i < |rest|
      ensures rest[i] in owners && rest[i] != c
    {
      assert rest[i] in rest;
    }
  }

  lemma TimesNow(messages: map<nat, seq<Message>>, c: nat, msg: Message)
    ensures var now := messages[c := MessagesOf(messages, c) + [msg]];
      TimeOf(now, c) == msg.timestamp && forall s: nat :: s != c ==> TimeOf(now, s) == TimeOf(messages, s)
  {
  }

  lemma {:induction false} WithoutRecent(owners: seq<nat>, messages: map<nat, seq<Message>>, c: nat)
    requires Recent(owners, messages) && FreeLists.Distinct(owners)
    ensures Recent(Without(owners, c), messages)
  {
    hide Without, TimeOf, FreeLists.Distinct;
    if c in owners {
      var rank :| 0 <= rank < |owners| && owners[rank] == c;
      WithoutAt(owners, rank);
      var rest := Without(owners, c);
      forall i, j | 0 <= i < j < |rest|
        ensures TimeOf(messages, rest[i]) > TimeOf(messages, rest[j])
      {
        assert rest[i] == owners[if i < rank then i else i + 1] && rest[j] == owners[if j < rank then j else j + 1];
      }
    } else {
      WithoutNone(owners, c);
    }
  }

  /** There is only one such order of the same chats. */
  lemma {:induction false} RecentUnique(a: seq<nat>, b: seq<nat>, messages: map<nat, seq<Message>>)
    requires Recent(a, messages) && Recent(b, messages) && forall c :: c in a <==> c in b
    ensures a == b
    decreases |a|
  {
    if a != [] { assert a[0] in a; }
    if b != [] { assert b[0] in b; }
    if a != [] && b != [] {
      LatestSame(a, b, messages);
      RecentTail(a, messages);
      RecentTail(b, messages);
      RecentUnique(a[1..], b[1..], messages);
    }
  }

  lemma LatestSame(a: seq<nat>, b: seq<nat>, messages: map<nat, seq<Message>>)
    requires Recent(a, messages) && Recent(b, messages) && a != [] && b != [] && forall c :: c in a <==> c in b
    ensures a[0] == b[0]
  {
    assert a[0] in b && b[0] in a;
    var i :| 0 <= i < |a| && a[i] == b[0];
    var j :| 0 <= j < |b| && b[j] == a[0];
  }

  lemma RecentTail(s: seq<nat>, messages: map<nat, seq<Message>>)
    requires Recent(s, messages) && s != []
    ensures Recent(s[1..], messages) && forall c :: c in s[1..] <==> c in s && c != s[0]
  {
    forall c | c in s && c != s[0]
      ensures c in s[1..]
    {
      var i :| 0 <= i < |s| && s[i] == c;
      assert s[1..][i - 1] == c;
    }
  }

  /** The owners of the chats listed are exactly the contacts with messages. */
  lemma OwnersAre(card: Card, bits: seq<bool>, ram: Ram, contacts: map<nat, Contact>, messages: map<nat, seq<Message>>, order: seq<nat>)
    requires Holds(card, bits, ram, contacts, messages) && ListsChats(order, ram.table)
    ensures forall c :: c in Owners(order, ram.table) <==> c in messages
    ensures FreeLists.Distinct(Owners(order, ram.table))
  {
    hide Holds, ChatMessages, FreeOk;
    var owners := Owners(order, ram.table);
    KeysFacts(card, bits, ram, contacts, messages);
    forall c | c in messages
      ensures c in owners
    {
      PlaceFacts(card, bits, ram, contacts, messages, c);
      ChatFacts(card, bits, ram, contacts, messages, c);
      var j := ram.places[c].index;
      assert HasChat(ram.table, j);
      var i :| 0 <= i < |order| && order[i] == j;
      assert owners[i] == c;
    }
    forall i | 0 <= i < |owners|
      ensures owners[i] in messages && owners[i] in ram.places && ram.places[owners[i]].index == order[i]
    {
      assert order[i] in order && HasChat(ram.table, order[i]);
      OccupiedContact(card, bits, ram, contacts, messages, order[i]);
      ChatFacts(card, bits, ram, contacts, messages, owners[i]);
    }
  }

  /** If every chat got its latest message at a time of its own, the order that is rebuilt after
      a restart is the one that was maintained, contact by contact: also when the hash slots
      differ. */
  lemma OrderDetermined(card: Card, bits: seq<bool>, ram: Ram, order: seq<nat>, card2: Card, bits2: seq<bool>, ram2: Ram, order2: seq<nat>,
                        contacts: map<nat, Contact>, messages: map<nat, seq<Message>>)
    requires Holds(card, bits, ram, contacts, messages) && ListsChats(order, ram.table) && Recent(Owners(order, ram.table), messages)
    requires Holds(card2, bits2, ram2, contacts, messages) && ListsChats(order2, ram2.table) && LatestFirst(order2, ram2.table, messages)
    ensures Owners(order, ram.table) == Owners(order2, ram2.table)
  {
    OwnersAre(card, bits, ram, contacts, messages, order);
    OwnersAre(card2, bits2, ram2, contacts, messages, order2);
    LatestOwners(order2, ram2.table, messages, Owners(order, ram.table));
    RecentUnique(Owners(order, ram.table), Owners(order2, ram2.table), messages);
  }

  lemma LatestOwners(order2: seq<nat>, table: seq<HashEntry>, messages: map<nat, seq<Message>>, a: seq<nat>)
    requires LatestFirst(order2, table, messages) && (forall x <- order2 :: x < |table|) && Recent(a, messages)
    requires FreeLists.Distinct(Owners(order2, table)) && forall c :: c in a <==> c in Owners(order2, table)
    ensures Recent(Owners(order2, table), messages)
  {
    hide TimeOf;
    var b := Owners(order2, table);
    forall i, j | 0 <= i < j < |b|
      ensures TimeOf(messages, b[i]) > TimeOf(messages, b[j])
    {
      assert b[i] != b[j] && b[i] in b && b[j] in b && b[i] in a && b[j] in a;
      var k :| 0 <= k < |a| && a[k] == b[i];
      var l :| 0 <= l < |a| && a[l] == b[j];
      assert k < l || l < k;
      assert order2[i] in order2 && order2[j] in order2;
    }
  }
}
