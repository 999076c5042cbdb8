/** What a rebuild finds after a power cut, between and inside operations. */
module CutStores {
  import opened Layout
  import opened StorageCard
  import opened JournalLog
  import opened UsageBitmaps
  import opened Journals
  import opened CrashSafety
  import opened Transactions
  import opened FreeLists
  import opened Contacts
  import opened Messages
  import opened HashTables
  import opened Agreement
  import opened Contents
  import opened HashOperations
  import opened Orphans
  import opened Rebuild
  import opened Reboot
  import opened Rings
  import opened Histories

  // ----- a cut between operations, or in an operation of one transaction -----

  lemma ViewSector(card: Card, found: Card, bits: seq<bool>, d: nat)
    requires BitmapOnCard(card, bits) && ViewOf(card) == ViewOf(found) && d < MESSAGE_HISTORY_START && bits[d]
    ensures found[RawData(d)] == card[RawData(d)]
  {
    UsedIsBit(card, bits, d);
    ViewAgrees(card, found);
  }

  lemma ViewBitmap(card: Card, found: Card, bits: seq<bool>)
    requires BitmapOnCard(card, bits) && ViewOf(card) == ViewOf(found)
    ensures BitmapOnCard(found, bits)
  {
    ViewAgrees(card, found);
    BitmapKept(card, found, bits);
  }

  lemma ViewContacts(card: Card, found: Card, bits: seq<bool>)
    requires BitmapOnCard(card, bits) && ViewOf(card) == ViewOf(found)
    ensures ContactMap(found, bits) == ContactMap(card, bits)
    ensures ContactRegionOk(card, bits) ==> ContactRegionOk(found, bits)
  {
    forall d | 0 <= d < CONTACT_SECTORS && bits[d]
      ensures found[RawData(d)] == card[RawData(d)]
    {
      ViewSector(card, found, bits, d);
    }
    forall s | 0 <= s < MAX_CONTACTS
      ensures ContactAt(found, bits, s) == ContactAt(card, bits, s)
    {
      assert ContactDataSector(s) < CONTACT_SECTORS;
    }
  }

  lemma ViewChats(card: Card, found: Card, bits: seq<bool>, chats: map<nat, seq<nat>>)
    requires BitmapOnCard(card, bits) && ViewOf(card) == ViewOf(found)
    requires ChatsOk(card, bits, chats)
    ensures ChatsOk(found, bits, chats) && AllMessages(found, chats) == AllMessages(card, chats)
  {
    forall m | 0 <= m < MESSAGE_SECTORS && InUse(bits, m)
      ensures SectorOf(found, m) == SectorOf(card, m)
    {
      ViewSector(card, found, bits, MessageDataSector(m));
    }
    forall c | c in chats
      ensures ChatOk(found, bits, c, chats[c]) && ChatMessages(found, chats[c]) == ChatMessages(card, chats[c])
    {
      ChatInRange(card, bits, c, chats[c]);
      ChatFrame(card, bits, found, bits, c, chats[c]);
    }
  }

  /** A card with the same view holds the same contacts and messages. */
  lemma ViewStored(card: Card, found: Card, bits: seq<bool>, chats: map<nat, seq<nat>>)
    requires Stored(card, bits, chats) && ViewOf(card) == ViewOf(found)
    ensures Stored(found, bits, chats)
    ensures ContactMap(found, bits) == ContactMap(card, bits) && AllMessages(found, chats) == AllMessages(card, chats)
  {
    hide ChatsOk, ContactRegionOk, ContactMap, AllMessages, ViewOf, PhonesDistinct;
    ViewBitmap(card, found, bits);
    ViewContacts(card, found, bits);
    ViewChats(card, found, bits, chats);
  }

  /** The card after the first `kept` transactions of a session, and the card that only their
      in-place writes would give, have the same view. */
  lemma KeptView(cards: seq<Card>, txs: seq<Tx>, n: nat, found: Card, kept: nat)
    requires Chain(cards, txs) && KeptAt(cards[0], txs, n, found, kept)
    ensures ViewOf(found) == ViewOf(cards[kept])
  {
    assert Chain(cards[..kept + 1], txs[..kept]) by {
      forall i {:trigger txs[i]} | 0 <= i < kept
        ensures TxStep(cards[..kept + 1][i], txs[..kept][i], cards[..kept + 1][i + 1])
      {
        assert TxStep(cards[i], txs[i], cards[i + 1]);
      }
    }
    ChainRan(cards[..kept + 1], txs[..kept]);
    RanView(cards[0], cards[kept], txs[..kept]);
  }

  /** Cut the power anywhere in a session, and recovery as often as you like.  If the last
      transaction that is kept ended an operation, the rebuild finds what that operation left:
      its contacts, its chats, its messages. */
  lemma CutFindsStored(journal: Journal, n: nat, torn: Sector, mounts: seq<CutMount>, bits: seq<bool>, chats: map<nat, seq<nat>>)
    returns (kept: nat)
    requires journal.Session() && n <= |AllWrites(journal.done)|
    ensures kept <= |journal.done| && InRange(AllWrites(journal.done))
    ensures var found := Recover(CutAt(journal.cards[0], AllWrites(journal.done), n, torn), mounts);
      && Clean(found) && KeptAt(journal.cards[0], journal.done, n, found, kept)
      && (Stored(journal.cards[kept], bits, chats) ==>
           && Stored(found, bits, chats)
           && ContactMap(found, bits) == ContactMap(journal.cards[kept], bits)
           && AllMessages(found, chats) == AllMessages(journal.cards[kept], chats))
  {
    kept := journal.SessionCut(n, torn, mounts);
    var found := Recover(CutAt(journal.cards[0], AllWrites(journal.done), n, torn), mounts);
    KeptView(journal.cards, journal.done, n, found, kept);
    if Stored(journal.cards[kept], bits, chats) {
      ViewStored(journal.cards[kept], found, bits, chats);
    }
  }

  /** The restart after such a cut, when every operation of the session was one transaction: the
      tables are rebuilt, and hold the contacts and messages that the operations had left up to the
      cut, or with the one that was cut. */
  method RestartAfterCut(storage: Storage, ghost journal: Journal, ghost n: nat, ghost torn: Sector, ghost mounts: seq<CutMount>,
                         ghost allBits: seq<seq<bool>>, ghost allChats: seq<map<nat, seq<nat>>>)
    returns (ok: bool, t: HashTable, ghost kept: nat)
    requires journal.Session() && n <= |AllWrites(journal.done)| && InRange(AllWrites(journal.done))
    requires |allBits| == |allChats| == |journal.cards| == |journal.done| + 1
    requires forall k :: 0 <= k <= |journal.done| ==> Stored(journal.cards[k], allBits[k], allChats[k])
    requires storage.sectors == Recover(CutAt(journal.cards[0], AllWrites(journal.done), n, torn), mounts)
    modifies storage
    ensures ok && t.Valid() && t.storage == storage && storage.sectors == old(storage.sectors)
    ensures kept <= |journal.done| && KeptAt(journal.cards[0], journal.done, n, storage.sectors, kept)
    ensures t.contacts == ContactMap(journal.cards[kept], allBits[kept]) && t.messages == AllMessages(journal.cards[kept], allChats[kept])
  {
    kept := KeptStored(journal, n, torn, mounts, allBits, allChats);
    hide *;
    var again := new Journal(storage);
    CleanWrites(storage.sectors);
    NoWrites(storage.sectors);
    ok := again.Init();
    t := NewTables(storage, again);
    FoundReady(storage.sectors, allBits[kept], allChats[kept]);
    ok := MountTables(t, allBits[kept], allChats[kept], []);
    RebuiltParts(t, storage.sectors, allBits[kept], allChats[kept]);
  }

  lemma NoWrites(card: Card)
    requires MountWrites(card) == []
    ensures InRange(MountWrites(card)) && Apply(card, MountWrites(card)) == card
  {
  }

  lemma FoundReady(card: Card, bits: seq<bool>, chats: map<nat, seq<nat>>)
    requires Stored(card, bits, chats)
    ensures forall b :: BitmapOnCard(card, b) ==> LinksInRange(card, b)
    ensures forall a :: BITMAP_START <= a < DATA_START ==> BitmapShaped(card[a])
  {
    BitmapHasShape(card, bits);
    ChatsLinks(card, bits, chats);
    forall b | BitmapOnCard(card, b)
      ensures b == bits
    {
      BitmapDetermined(card, b, bits);
    }
  }

  lemma RebuiltParts(t: HashTable, card: Card, bits: seq<bool>, chats: map<nat, seq<nat>>)
    requires Rebuilt(t, card, bits, chats)
    ensures t.storage.sectors == card && t.contacts == ContactMap(card, bits) && t.messages == AllMessages(card, chats)
  {
  }

  lemma KeptStored(journal: Journal, n: nat, torn: Sector, mounts: seq<CutMount>, allBits: seq<seq<bool>>, allChats: seq<map<nat, seq<nat>>>)
    returns (kept: nat)
    requires journal.Session() && n <= |AllWrites(journal.done)| && InRange(AllWrites(journal.done))
    requires |allBits| == |allChats| == |journal.cards| == |journal.done| + 1
    requires forall k :: 0 <= k <= |journal.done| ==> Stored(journal.cards[k], allBits[k], allChats[k])
    ensures kept <= |journal.done|
    ensures var found := Recover(CutAt(journal.cards[0], AllWrites(journal.done), n, torn), mounts);
      && Clean(found) && KeptAt(journal.cards[0], journal.done, n, found, kept) && Stored(found, allBits[kept], allChats[kept])
      && ContactMap(found, allBits[kept]) == ContactMap(journal.cards[kept], allBits[kept])
      && AllMessages(found, allChats[kept]) == AllMessages(journal.cards[kept], allChats[kept])
  {
    hide Stored, ViewOf, Chain, KeptAt, AllWrites, Recover, CutAt, Clean, ContactMap, AllMessages;
    kept := journal.SessionCut(n, torn, mounts);
    var found := Recover(CutAt(journal.cards[0], AllWrites(journal.done), n, torn), mounts);
    SessionChain(journal);
    KeptBound(journal.cards[0], journal.done, n, found, kept);
    KeptView(journal.cards, journal.done, n, found, kept);
    ViewStored(journal.cards[kept], found, allBits[kept], allChats[kept]);
  }

  lemma SessionChain(journal: Journal)
    requires journal.Session()
    ensures Chain(journal.cards, journal.done) && |journal.cards| == |journal.done| + 1
  {
  }

  lemma KeptBound(was: Card, txs: seq<Tx>, n: nat, card: Card, kept: nat)
    requires KeptAt(was, txs, n, card, kept)
    ensures kept <= |txs|
  {
  }

  /** The card that is found when the power is cut at the first write of a transaction: it shows
      exactly what the transactions before it have left. */
  lemma CutBetween(journal: Journal, k: nat, torn: Sector, mounts: seq<CutMount>) returns (n: nat, found: Card)
    requires journal.Session() && k <= |journal.done|
    ensures InRange(AllWrites(journal.done)) && n <= |AllWrites(journal.done)|
    ensures found == Recover(CutAt(journal.cards[0], AllWrites(journal.done), n, torn), mounts)
    ensures Clean(found) && k < |journal.cards| && ViewOf(found) == ViewOf(journal.cards[k])
  {
    var txs := journal.done;
    n := |AllWrites(txs[..k])|;
    assert txs[..|txs|] == txs;
    WritesGrow(txs, k, |txs|);
    var kept := journal.SessionCut(n, torn, mounts);
    found := Recover(CutAt(journal.cards[0], AllWrites(txs), n, torn), mounts);
    KeptExactly(journal.cards[0], txs, k, found, kept);
    KeptView(journal.cards, txs, n, found, kept);
  }

  // ----- a cut between the two transactions of a chat's roll-over -----

  /** Such a cut does leave this: the two transactions are those of the real roll-over. */
  method RollOverCut(storage: Storage, journal: Journal, bitmap: UsageBitmap, slot: nat, prev: nat, m: nat, msg: Message,
                     ghost chats: map<nat, seq<nat>>, ghost torn: Sector, ghost mounts: seq<CutMount>)
    returns (ret: Ret, ghost n: nat, ghost found: Card)
    requires Ready(storage, journal, bitmap) && ChatsOk(storage.sectors, bitmap.bits, chats)
    requires slot in chats && prev == LastOr(chats[slot]) && m < MESSAGE_SECTORS && !InUse(bitmap.bits, m)
    modifies storage, journal, bitmap, bitmap.words
    ensures ret == Ok && Ready(storage, journal, bitmap)
    ensures InRange(AllWrites(journal.done)) && n <= |AllWrites(journal.done)|
    ensures found == Recover(CutAt(journal.cards[0], AllWrites(journal.done), n, torn), mounts)
    ensures Clean(found) && BitmapOnCard(found, bitmap.bits)
    ensures HalfRolled(old(storage.sectors), old(bitmap.bits), found, bitmap.bits, slot, prev, m, msg)
    ensures NewestHead(found, bitmap.bits, slot, MESSAGE_SECTORS) == m <==> m > prev
  {
    hide Ready, Clean, BitmapOnCard, ViewOf, Chain, AllWrites, HalfRolled, ChatsOk, NewestHead, NewSector, Recover, CutAt;
    ghost var card, bits, k := storage.sectors, bitmap.bits, |journal.cards|;
    LastReadable(card, bits, chats, slot);
    ghost var mid;
    ret, mid := WriteNextSector(storage, journal, bitmap, slot, prev, m, msg);
    SessionOf(storage, journal, bitmap);
    n, found := CutBetween(journal, k, torn, mounts);
    ViewBitmap(mid, found, bitmap.bits);
    MidRolled(card, bits, mid, found, bitmap.bits, slot, prev, m, msg);
    HalfRolledKept(card, bits, found, bitmap.bits, chats, slot, m, msg);
  }

  lemma SessionOf(storage: Storage, journal: Journal, bitmap: UsageBitmap)
    requires Ready(storage, journal, bitmap)
    ensures journal.Session() && |journal.cards| == |journal.done| + 1
  {
  }

  lemma LastReadable(card: Card, bits: seq<bool>, chats: map<nat, seq<nat>>, slot: nat)
    requires ChatsOk(card, bits, chats) && slot in chats
    ensures var prev := LastOr(chats[slot]); prev < MESSAGE_SECTORS && InUse(bits, prev) && IsMessageSector(SectorOf(card, prev))
  {
    assert LinkOk(card, bits, slot, chats[slot], |chats[slot]| - 1);
  }

  lemma MidRolled(card: Card, bits: seq<bool>, mid: Card, found: Card, nowBits: seq<bool>, slot: nat, prev: nat, m: nat, msg: Message)
    requires m < MESSAGE_SECTORS && !InUse(bits, m) && |bits| == TOTAL_BITS && nowBits == bits[MessageDataSector(m) := true]
    requires OnlySector(card, bits, mid, nowBits, MessageDataSector(m)) && SectorOf(mid, m) == NewSector(slot, prev, msg)
    requires BitmapOnCard(mid, nowBits) && ViewOf(mid) == ViewOf(found)
    ensures HalfRolled(card, bits, found, nowBits, slot, prev, m, msg)
  {
    hide BitmapOnCard, ViewOf;
    forall x | 0 <= x < MESSAGE_SECTORS && InUse(nowBits, x)
      ensures SectorOf(found, x) == SectorOf(mid, x)
    {
      ViewSector(mid, found, nowBits, MessageDataSector(x));
    }
    assert InUse(nowBits, m);
  }

  /** The new sector has been written, the old one does not point at it yet. */
  predicate HalfRolled(card: Card, bits: seq<bool>, now: Card, nowBits: seq<bool>, slot: nat, prev: nat, m: nat, msg: Message) {
    && |bits| == TOTAL_BITS && m < MESSAGE_SECTORS && !InUse(bits, m)
    && nowBits == bits[MessageDataSector(m) := true]
    && SectorOf(now, m) == NewSector(slot, prev, msg)
    && forall x :: 0 <= x < MESSAGE_SECTORS && x != m && InUse(bits, x) ==> SectorOf(now, x) == SectorOf(card, x)
  }

  lemma HalfRolledHeads(card: Card, bits: seq<bool>, now: Card, nowBits: seq<bool>, chats: map<nat, seq<nat>>, slot: nat, m: nat, msg: Message,
                        s: nat, x: nat)
    requires ChatsOk(card, bits, chats) && slot in chats && x < MESSAGE_SECTORS
    requires HalfRolled(card, bits, now, nowBits, slot, LastOr(chats[slot]), m, msg)
    ensures HeadOf(now, nowBits, s, x) <==> (s in chats && x == LastOr(chats[s])) || (s == slot && x == m)
  {
    HeadIsLast(card, bits, chats, s, x);
    assert LinkOk(card, bits, slot, chats[slot], 0);
    assert InUse(nowBits, x) <==> InUse(bits, x) || x == m;
    if x != m && InUse(bits, x) {
      var owner := SectorOf(card, x).contactIndex;
      ChatInRange(card, bits, owner, chats[owner]);
      var i :| 0 <= i < |chats[owner]| && chats[owner][i] == x;
      assert LinkOk(card, bits, owner, chats[owner], i);
      if i < |chats[owner]| - 1 { assert chats[owner][i + 1] in chats[owner]; }
    }
  }

  lemma {:induction false} HalfRolledNewest(card: Card, bits: seq<bool>, now: Card, nowBits: seq<bool>, chats: map<nat, seq<nat>>, slot: nat, m: nat,
                                            msg: Message, pos: nat)
    requires ChatsOk(card, bits, chats) && slot in chats && pos <= MESSAGE_SECTORS
    requires HalfRolled(card, bits, now, nowBits, slot, LastOr(chats[slot]), m, msg)
    ensures var prev := LastOr(chats[slot]);
            NewestHead(now, nowBits, slot, pos) ==
            if m < pos && (prev < m || prev >= pos) then m else if prev < pos then prev else NIL
  {
    if pos > 0 {
      HalfRolledNewest(card, bits, now, nowBits, chats, slot, m, msg, pos - 1);
      HalfRolledHeads(card, bits, now, nowBits, chats, slot, m, msg, slot, pos - 1);
    }
  }

  /** A restart after such a cut keeps the message if and only if the new sector has the higher
      index.  Otherwise the chat ends at the old sector again, and the new one stays in use
      without belonging to any chat. */
  lemma HalfRolledKept(card: Card, bits: seq<bool>, now: Card, nowBits: seq<bool>, chats: map<nat, seq<nat>>, slot: nat, m: nat, msg: Message)
    requires ChatsOk(card, bits, chats) && slot in chats
    requires HalfRolled(card, bits, now, nowBits, slot, LastOr(chats[slot]), m, msg)
    ensures NewestHead(now, nowBits, slot, MESSAGE_SECTORS) == m <==> m > LastOr(chats[slot])
    ensures m <= LastOr(chats[slot]) ==>
      NewestHead(now, nowBits, slot, MESSAGE_SECTORS) == LastOr(chats[slot]) && InUse(nowBits, m) && m !in chats[slot]
  {
    ChatInRange(card, bits, slot, chats[slot]);
    assert chats[slot][|chats[slot]| - 1] in chats[slot];
    HalfRolledNewest(card, bits, now, nowBits, chats, slot, m, msg, MESSAGE_SECTORS);
  }

  // ----- a cut between the transactions of a chat's removal -----

  /** A cut after all but `k` sectors of a chat have been removed, by the transactions of the real
      removal: the rebuild finds the older sectors that are left as the chat of the same contact,
      and every other chat as it was. */
  method RemovalCut(storage: Storage, journal: Journal, bitmap: UsageBitmap, allocator: FreeList, startIndex: nat, ghost slot: nat, ghost k: nat,
                    ghost chats: map<nat, seq<nat>>, ghost torn: Sector, ghost mounts: seq<CutMount>)
    returns (ok: bool, ghost n: nat, ghost found: Card, ghost nowBits: seq<bool>)
    requires Ready(storage, journal, bitmap) && AllocatorOk(allocator, bitmap.bits) && ChatsOk(storage.sectors, bitmap.bits, chats)
    requires slot in chats && startIndex == LastOr(chats[slot]) && k <= |chats[slot]|
    modifies storage, journal, bitmap, bitmap.words, allocator, allocator.stack
    ensures ok && Ready(storage, journal, bitmap)
    ensures InRange(AllWrites(journal.done)) && n <= |AllWrites(journal.done)|
    ensures found == Recover(CutAt(journal.cards[0], AllWrites(journal.done), n, torn), mounts)
    ensures Clean(found) && BitmapOnCard(found, nowBits) && nowBits == ClearAll(old(bitmap.bits), chats[slot][k..])
    ensures forall m :: 0 <= m < MESSAGE_SECTORS && InUse(nowBits, m) ==> SectorOf(found, m) == SectorOf(old(storage.sectors), m)
    ensures forall s: nat ::
      NewestHead(found, nowBits, s, MESSAGE_SECTORS) == (if s == slot then LastOr(chats[slot][..k]) else LastOr(ChainOf(chats, s)))
  {
    hide Ready, Clean, BitmapOnCard, ViewOf, Chain, AllWrites, ChatsOk, AllocatorOk, NewestHead, Recover, CutAt, ClearAll, LinksInRange, InUse;
    ghost var card, bits, chain, base := storage.sectors, bitmap.bits, chats[slot], |journal.cards| - 1;
    LastReadable(card, bits, chats, slot);
    ChatsLinks(card, bits, chats);
    ChatOfOk(card, bits, chats, slot);
    ok := RemoveChat(storage, journal, bitmap, allocator, startIndex, slot, chain);
    SessionOf(storage, journal, bitmap);
    n, found := CutBetween(journal, base + |chain| - k, torn, mounts);
    nowBits := ClearAll(bits, chain[k..]);
    assert RemovedAt(journal.cards[base + |chain| - k], card, bits, chain, |chain| - k);
    ViewBitmap(journal.cards[base + |chain| - k], found, nowBits);
    ViewMessages(journal.cards[base + |chain| - k], found, card, nowBits);
    forall s: nat
      ensures NewestHead(found, nowBits, s, MESSAGE_SECTORS) == if s == slot then LastOr(chain[..k]) else LastOr(ChainOf(chats, s))
    {
      HeadsFrame(card, found, nowBits, s, MESSAGE_SECTORS);
      HalfRemovedFound(card, bits, chats, slot, k, s);
    }
  }

  lemma ChatOfOk(card: Card, bits: seq<bool>, chats: map<nat, seq<nat>>, slot: nat)
    requires ChatsOk(card, bits, chats) && slot in chats
    ensures ChatOk(card, bits, slot, chats[slot])
  {
  }

  lemma ViewMessages(mid: Card, found: Card, card: Card, bits: seq<bool>)
    requires BitmapOnCard(mid, bits) && ViewOf(mid) == ViewOf(found)
    requires forall a :: DATA_START <= a < CARD_SECTORS ==> mid[a] == card[a]
    ensures forall m :: 0 <= m < MESSAGE_SECTORS && InUse(bits, m) ==> SectorOf(found, m) == SectorOf(card, m)
  {
    hide BitmapOnCard, ViewOf;
    forall m | 0 <= m < MESSAGE_SECTORS && InUse(bits, m)
      ensures SectorOf(found, m) == SectorOf(card, m)
    {
      ViewSector(mid, found, bits, MessageDataSector(m));
    }
  }

  lemma HalfRemovedHeads(card: Card, bits: seq<bool>, chats: map<nat, seq<nat>>, slot: nat, k: nat, s: nat, x: nat)
    requires ChatsOk(card, bits, chats) && slot in chats && k <= |chats[slot]| && x < MESSAGE_SECTORS
    ensures HeadOf(card, ClearAll(bits, chats[slot][k..]), s, x) <==>
            if s == slot then k > 0 && x == chats[slot][k - 1] else s in chats && x == LastOr(chats[s])
  {
    var nowBits := ClearAll(bits, chats[slot][k..]);
    HeadIsLast(card, bits, chats, s, x);
    if InUse(bits, x) {
      var owner := SectorOf(card, x).contactIndex;
      var chain := chats[owner];
      ChatInRange(card, bits, owner, chain);
      var i :| 0 <= i < |chain| && chain[i] == x;
      assert LinkOk(card, bits, owner, chain, i);
      StillInUse(card, bits, chats, slot, k, owner, i);
      if i < |chain| - 1 { StillInUse(card, bits, chats, slot, k, owner, i + 1); assert chain[i + 1] in chain; }
    }
    if s == slot && k > 0 { assert LinkOk(card, bits, slot, chats[slot], k - 1); }
    if s in chats && s != slot { assert LinkOk(card, bits, s, chats[s], |chats[s]| - 1); }
  }

  lemma StillInUse(card: Card, bits: seq<bool>, chats: map<nat, seq<nat>>, slot: nat, k: nat, owner: nat, i: nat)
    requires ChatsOk(card, bits, chats) && slot in chats && k <= |chats[slot]| && owner in chats && i < |chats[owner]|
    ensures InUse(ClearAll(bits, chats[slot][k..]), chats[owner][i]) <==> owner != slot || i < k
  {
    var chain, m := chats[owner], chats[owner][i];
    ChatInRange(card, bits, owner, chain);
    assert m in chain;
    if owner != slot {
      if m in chats[slot][k..] { ChatsApart(card, bits, chats, owner, slot, m); }
    } else if i >= k {
      assert chats[slot][k..][i - k] == m;
    }
  }

  lemma {:induction false} HalfRemovedNewest(card: Card, bits: seq<bool>, chats: map<nat, seq<nat>>, slot: nat, k: nat, s: nat, pos: nat)
    requires ChatsOk(card, bits, chats) && slot in chats && k <= |chats[slot]| && pos <= MESSAGE_SECTORS
    ensures var last := if s == slot then LastOr(chats[slot][..k]) else LastOr(ChainOf(chats, s));
            NewestHead(card, ClearAll(bits, chats[slot][k..]), s, pos) == if last < pos then last else NIL
  {
    if pos > 0 {
      HalfRemovedNewest(card, bits, chats, slot, k, s, pos - 1);
      HalfRemovedHeads(card, bits, chats, slot, k, s, pos - 1);
    }
  }

  /** A restart after a removal was cut short finds the older sectors that are left, as the chat
      of the same contact, and every other chat as it was. */
  lemma HalfRemovedFound(card: Card, bits: seq<bool>, chats: map<nat, seq<nat>>, slot: nat, k: nat, s: nat)
    requires ChatsOk(card, bits, chats) && slot in chats && k <= |chats[slot]|
    ensures NewestHead(card, ClearAll(bits, chats[slot][k..]), s, MESSAGE_SECTORS) ==
            if s == slot then LastOr(chats[slot][..k]) else LastOr(ChainOf(chats, s))
  {
    HalfRemovedNewest(card, bits, chats, slot, k, s, MESSAGE_SECTORS);
    ChatInRange(card, bits, slot, chats[slot]);
    if k > 0 { assert chats[slot][k - 1] in chats[slot]; }
    if s in chats {
      ChatInRange(card, bits, s, chats[s]);
      assert chats[s][|chats[s]| - 1] in chats[s];
    }
  }

  /** But the last of them still points at the sector that followed it: as soon as that one is
      in use again, for whatever chat, the next restart no longer takes it for the end of its
      chat. */
  lemma HalfRemovedLater(card: Card, bits: seq<bool>, chats: map<nat, seq<nat>>, slot: nat, k: nat, later: Card, laterBits: seq<bool>)
    requires ChatsOk(card, bits, chats) && slot in chats && 0 < k < |chats[slot]|
    requires InUse(laterBits, chats[slot][k - 1]) && SectorOf(later, chats[slot][k - 1]) == SectorOf(card, chats[slot][k - 1])
    ensures HeadOf(later, laterBits, slot, chats[slot][k - 1]) <==> !InUse(laterBits, chats[slot][k])
  {
    ChatInRange(card, bits, slot, chats[slot]);
    assert LinkOk(card, bits, slot, chats[slot], k - 1);
    assert chats[slot][k] in chats[slot];
  }

  /** What that costs: once the sector behind the ones that were left is in use again, for another
      chat, a restart finds no chat at all for the contact; the messages left are out of
      reach, in sectors that stay in use. */
  lemma {:induction false} HalfRemovedLost(card: Card, bits: seq<bool>, chats: map<nat, seq<nat>>, slot: nat, k: nat, later: Card, laterBits: seq<bool>, pos: nat)
    requires ChatsOk(card, bits, chats) && slot in chats && 0 < k < |chats[slot]| && pos <= MESSAGE_SECTORS
    requires forall i :: 0 <= i < k ==> InUse(laterBits, chats[slot][i]) && SectorOf(later, chats[slot][i]) == SectorOf(card, chats[slot][i])
    requires forall m :: 0 <= m < MESSAGE_SECTORS && InUse(laterBits, m) && SectorOf(later, m).MessageSector? && SectorOf(later, m).contactIndex == slot ==>
      m in chats[slot][..k]
    ensures InUse(laterBits, chats[slot][k]) ==> NewestHead(later, laterBits, slot, pos) == NIL
    ensures !InUse(laterBits, chats[slot][k]) ==>
      NewestHead(later, laterBits, slot, pos) == if chats[slot][k - 1] < pos then chats[slot][k - 1] else NIL
  {
    if pos > 0 {
      HalfRemovedLost(card, bits, chats, slot, k, later, laterBits, pos - 1);
      LeftHeads(card, bits, chats, slot, k, later, laterBits, pos - 1);
    }
  }

  lemma LeftHeads(card: Card, bits: seq<bool>, chats: map<nat, seq<nat>>, slot: nat, k: nat, later: Card, laterBits: seq<bool>, m: nat)
    requires ChatsOk(card, bits, chats) && slot in chats && 0 < k < |chats[slot]| && m < MESSAGE_SECTORS
    requires forall i :: 0 <= i < k ==> InUse(laterBits, chats[slot][i]) && SectorOf(later, chats[slot][i]) == SectorOf(card, chats[slot][i])
    requires InUse(laterBits, m) && SectorOf(later, m).MessageSector? && SectorOf(later, m).contactIndex == slot ==> m in chats[slot][..k]
    ensures HeadOf(later, laterBits, slot, m) <==> m == chats[slot][k - 1] && !InUse(laterBits, chats[slot][k])
  {
    HalfRemovedLater(card, bits, chats, slot, k, later, laterBits);
    var chain := chats[slot];
    if m in chain[..k] {
      var i :| 0 <= i < k && chain[..k][i] == m;
      assert LinkOk(card, bits, slot, chain, i);
      ChatInRange(card, bits, slot, chain);
      assert chain[i + 1] in chain;
      assert SectorOf(later, m).next == chain[i + 1];
      assert i < k - 1 ==> InUse(laterBits, SectorOf(later, m).next);
    }
  }

  // ----- a cut between the two transactions of a ring's roll-over -----

  lemma ViewRing(card: Card, found: Card, start: nat, size: nat)
    requires ViewOf(card) == ViewOf(found) && MESSAGE_HISTORY_START <= start && start + size <= DATA_SECTORS
    ensures forall p :: 0 <= p < size ==> RingAt(found, start, p) == RingAt(card, start, p)
  {
    ViewAgrees(card, found);
  }

  /** A cut between the two transactions of the real addition that turns a page: the newest page is
      marked full and nothing else has happened, which is where `AddAfterHalfTurn` starts. */
  method TurnCut(h: History, e: HistoryEntry, ghost torn: Sector, ghost mounts: seq<CutMount>)
    returns (ret: Ret, ghost n: nat, ghost found: Card)
    requires Ready(h.storage, h.journal, h.bitmap) && h.Valid() && h.FullPage()
    modifies h`occupancy, h`currentIndex, h`seqno, h`pages, h`lap, h.storage, h.journal, h.bitmap, h.bitmap.words
    ensures ret == Ok && Ready(h.storage, h.journal, h.bitmap)
    ensures InRange(AllWrites(h.journal.done)) && n <= |AllWrites(h.journal.done)|
    ensures found == Recover(CutAt(h.journal.cards[0], AllWrites(h.journal.done), n, torn), mounts)
    ensures Clean(found) && RingMarked(found, h.start, h.size, h.capacity, old(h.pages), old(h.lap), old(h.currentIndex))
  {
    hide Ready, Clean, ViewOf, Chain, AllWrites, Recover, CutAt, RingMarked, RingOk, RingBlank, Flatten;
    ghost var k := |h.journal.cards|;
    ghost var mid;
    ret, mid := h.Add(e, false);
    SessionOf(h.storage, h.journal, h.bitmap);
    n, found := CutBetween(h.journal, k, torn, mounts);
    ViewRing(mid, found, h.start, h.size);
    MarkedFrame(mid, found, h.start, h.size, h.capacity, old(h.pages), old(h.lap), old(h.currentIndex));
  }
}
