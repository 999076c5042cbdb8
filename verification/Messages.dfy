/** Chats on the card: doubly linked message sectors, three messages to a sector. */
module Messages {
  import opened Layout
  import opened StorageCard
  import opened JournalLog
  import opened UsageBitmaps
  import opened Journals
  import opened CrashSafety
  import opened Transactions
  import opened FreeLists
  import opened Backwards

  function MessageDataSector(m: nat): nat { MESSAGE_START + m }

  /** The sector read back as a message sector; anything else fails its checks. */
  predicate IsMessageSector(s: Sector) {
    s.MessageSector? && |s.messages| == MESSAGE_CAPACITY
  }

  function SectorOf(card: Card, m: nat): Sector {
    if m < MESSAGE_SECTORS then card[RawData(MessageDataSector(m))] else Garbage(0)
  }

  predicate InUse(bits: seq<bool>, m: nat) {
    |bits| == TOTAL_BITS && m < MESSAGE_SECTORS && bits[MessageDataSector(m)]
  }

  /** No `prev` link of a sector in use leaves the message region. */
  predicate LinksInRange(card: Card, bits: seq<bool>) {
    forall m :: 0 <= m < MESSAGE_SECTORS && InUse(bits, m) && IsMessageSector(SectorOf(card, m)) ==>
      SectorOf(card, m).prev == NIL || SectorOf(card, m).prev < MESSAGE_SECTORS
  }

  lemma LinkAt(card: Card, bits: seq<bool>, m: nat)
    requires LinksInRange(card, bits) && InUse(bits, m) && IsMessageSector(SectorOf(card, m))
    ensures SectorOf(card, m).prev == NIL || SectorOf(card, m).prev < MESSAGE_SECTORS
  {
  }

  function LastOr(chain: seq<nat>): nat {
    if chain == [] then NIL else chain[|chain| - 1]
  }

  // ----- chats as sequences -----

  /** Sector `i` of a chat, oldest sector first. */
  predicate LinkOk(card: Card, bits: seq<bool>, contact: nat, chain: seq<nat>, i: nat)
    requires i < |chain|
  {
    InUse(bits, chain[i]) &&
    var s := SectorOf(card, chain[i]);
    && IsMessageSector(s)
    && s.contactIndex == contact
    && s.prev == LastOr(chain[..i])
    && s.next == (if i == |chain| - 1 then NIL else chain[i + 1])
    && 0 < s.count <= MESSAGE_CAPACITY
    && (i < |chain| - 1 ==> s.count == MESSAGE_CAPACITY)
  }

  /** `chain` lists the sectors of one contact's chat, oldest first. */
  predicate ChatOk(card: Card, bits: seq<bool>, contact: nat, chain: seq<nat>) {
    && |bits| == TOTAL_BITS
    && chain != [] && Distinct(chain)
    && forall i :: 0 <= i < |chain| ==> LinkOk(card, bits, contact, chain, i)
  }

  function SectorMessages(s: Sector): seq<Message> {
    if IsMessageSector(s) && s.count <= MESSAGE_CAPACITY then s.messages[..s.count] else []
  }

  /** The messages of a chat, oldest first. */
  function ChatMessages(card: Card, chain: seq<nat>): seq<Message>
  {
    if chain == [] then []
    else ChatMessages(card, chain[..|chain| - 1]) + SectorMessages(SectorOf(card, chain[|chain| - 1]))
  }

  /** A chat depends only on its own sectors and their bits. */
  lemma {:induction false} ChatFrame(card: Card, bits: seq<bool>, now: Card, nowBits: seq<bool>, contact: nat, chain: seq<nat>)
    requires ChatOk(card, bits, contact, chain) && |nowBits| == TOTAL_BITS
    requires forall m <- chain :: SectorOf(now, m) == SectorOf(card, m) && InUse(nowBits, m)
    ensures ChatOk(now, nowBits, contact, chain)
    ensures ChatMessages(now, chain) == ChatMessages(card, chain)
  {
    forall i | 0 <= i < |chain|
      ensures LinkOk(now, nowBits, contact, chain, i)
    {
      assert LinkOk(card, bits, contact, chain, i);
      assert chain[i] in chain;
    }
    MessagesFrame(card, now, chain);
  }

  lemma {:induction false} MessagesFrame(card: Card, now: Card, chain: seq<nat>)
    requires forall m <- chain :: SectorOf(now, m) == SectorOf(card, m)
    ensures ChatMessages(now, chain) == ChatMessages(card, chain)
  {
    if chain != [] {
      assert chain[|chain| - 1] in chain;
      MessagesFrame(card, now, chain[..|chain| - 1]);
    }
  }

  lemma ChatInRange(card: Card, bits: seq<bool>, contact: nat, chain: seq<nat>)
    requires ChatOk(card, bits, contact, chain)
    ensures forall m <- chain :: m < MESSAGE_SECTORS && InUse(bits, m)
    ensures |chain| <= MESSAGE_SECTORS
  {
    forall m | m in chain
      ensures m < MESSAGE_SECTORS && InUse(bits, m)
    {
      var i :| 0 <= i < |chain| && chain[i] == m;
      assert LinkOk(card, bits, contact, chain, i);
    }
    Pigeonhole(chain, MESSAGE_SECTORS);
  }

  // ----- appending -----

  function WithMessage(s: Sector, msg: Message): Sector
    requires IsMessageSector(s) && s.count < MESSAGE_CAPACITY
  {
    s.(messages := s.messages[s.count := msg], count := s.count + 1)
  }

  /** A message added to the newest sector. */
  lemma AppendInPlace(card: Card, bits: seq<bool>, now: Card, nowBits: seq<bool>, contact: nat, chain: seq<nat>, msg: Message)
    requires ChatOk(card, bits, contact, chain) && |nowBits| == TOTAL_BITS
    requires var s := SectorOf(card, LastOr(chain));
             IsMessageSector(s) && s.count < MESSAGE_CAPACITY && SectorOf(now, LastOr(chain)) == WithMessage(s, msg)
    requires forall m <- chain :: InUse(nowBits, m) && (m != LastOr(chain) ==> SectorOf(now, m) == SectorOf(card, m))
    ensures ChatOk(now, nowBits, contact, chain)
    ensures ChatMessages(now, chain) == ChatMessages(card, chain) + [msg]
  {
    AppendedMessages(card, bits, now, contact, chain, msg);
    forall i | 0 <= i < |chain|
      ensures LinkOk(now, nowBits, contact, chain, i)
    {
      assert LinkOk(card, bits, contact, chain, i);
      assert chain[i] in chain;
    }
    hide LinkOk, ChatMessages, WithMessage;
  }

  lemma AppendedMessages(card: Card, bits: seq<bool>, now: Card, contact: nat, chain: seq<nat>, msg: Message)
    requires ChatOk(card, bits, contact, chain)
    requires var s := SectorOf(card, LastOr(chain));
             IsMessageSector(s) && s.count < MESSAGE_CAPACITY && SectorOf(now, LastOr(chain)) == WithMessage(s, msg)
    requires forall m <- chain :: m != LastOr(chain) ==> SectorOf(now, m) == SectorOf(card, m)
    ensures ChatMessages(now, chain) == ChatMessages(card, chain) + [msg]
  {
    var k := |chain| - 1;
    var s := SectorOf(card, chain[k]);
    assert SectorMessages(WithMessage(s, msg)) == SectorMessages(s) + [msg];
    ChatLast(card, chain);
    ChatLast(now, chain);
    hide LinkOk, ChatMessages, WithMessage, SectorMessages, SectorOf;
    forall x | x in chain[..k]
      ensures SectorOf(now, x) == SectorOf(card, x)
    {
      assert x in chain;
    }
    MessagesFrame(card, now, chain[..k]);
  }

  function NewSector(contact: nat, prev: nat, msg: Message): Sector {
    MessageSector(NIL, prev, Truncate16(contact), 1, [msg, Message(0, false, []), Message(0, false, [])])
  }

  lemma FirstMessage(now: Card, nowBits: seq<bool>, contact: nat, m: nat, msg: Message)
    requires |nowBits| == TOTAL_BITS && m < MESSAGE_SECTORS && InUse(nowBits, m) && contact <= 0xFFFF
    requires SectorOf(now, m) == NewSector(contact, NIL, msg)
    ensures ChatOk(now, nowBits, contact, [m])
    ensures ChatMessages(now, [m]) == [msg]
  {
    assert LinkOk(now, nowBits, contact, [m], 0);
    assert [m][..0] == [];
  }

  /** Sector `m` has been linked behind the newest sector of a chat, which was full. */
  predicate LinkedBehind(card: Card, now: Card, nowBits: seq<bool>, contact: nat, chain: seq<nat>, m: nat, msg: Message) {
    && |nowBits| == TOTAL_BITS && m < MESSAGE_SECTORS && m !in chain && InUse(nowBits, m)
    && IsMessageSector(SectorOf(card, LastOr(chain))) && SectorOf(card, LastOr(chain)).count == MESSAGE_CAPACITY
    && SectorOf(now, LastOr(chain)) == SectorOf(card, LastOr(chain)).(next := m)
    && SectorOf(now, m) == NewSector(contact, LastOr(chain), msg)
    && forall x <- chain :: InUse(nowBits, x) && (x != LastOr(chain) ==> SectorOf(now, x) == SectorOf(card, x))
  }

  lemma RolledLink(card: Card, bits: seq<bool>, now: Card, nowBits: seq<bool>, contact: nat, chain: seq<nat>, m: nat, msg: Message, i: nat)
    requires ChatOk(card, bits, contact, chain) && LinkedBehind(card, now, nowBits, contact, chain, m, msg) && i <= |chain|
    ensures LinkOk(now, nowBits, contact, chain + [m], i)
  {
    assert LinkOk(card, bits, contact, chain, 0);
    var longer := chain + [m];
    if i < |chain| {
      assert LinkOk(card, bits, contact, chain, i);
      assert chain[i] in chain && longer[..i] == chain[..i] && longer[i] == chain[i];
      assert chain[i] == LastOr(chain) ==> i == |chain| - 1;
    } else {
      assert longer[..i] == chain && longer[i] == m;
    }
  }

  lemma RolledMessages(card: Card, bits: seq<bool>, now: Card, nowBits: seq<bool>, contact: nat, chain: seq<nat>, m: nat, msg: Message)
    requires ChatOk(card, bits, contact, chain) && LinkedBehind(card, now, nowBits, contact, chain, m, msg)
    ensures ChatMessages(now, chain + [m]) == ChatMessages(card, chain) + [msg]
  {
    var k := |chain| - 1;
    forall x | x in chain[..k]
      ensures SectorOf(now, x) == SectorOf(card, x)
    {
      var i :| 0 <= i < k && chain[i] == x;
      assert x in chain;
    }
    OwnMessages(contact, LastOr(chain), msg, SectorOf(card, chain[k]), m);
    ChatLast(card, chain);
    ChatLast(now, chain);
    ChatLast(now, chain + [m]);
    assert (chain + [m])[..|chain|] == chain;
    hide ChatOk, LinkOk, ChatMessages, SectorMessages, NewSector, SectorOf, LinkedBehind;
    MessagesFrame(card, now, chain[..k]);
  }

  lemma ChatLast(card: Card, chain: seq<nat>)
    requires chain != []
    ensures ChatMessages(card, chain) == ChatMessages(card, chain[..|chain| - 1]) + SectorMessages(SectorOf(card, chain[|chain| - 1]))
  {
  }

  lemma OwnMessages(contact: nat, prev: nat, msg: Message, s: Sector, m: nat)
    ensures SectorMessages(NewSector(contact, prev, msg)) == [msg]
    ensures IsMessageSector(s) ==> SectorMessages(s.(next := m)) == SectorMessages(s)
  {
  }

  /** The newest sector was full: a new one is linked behind it. */
  lemma RollOver(card: Card, bits: seq<bool>, now: Card, nowBits: seq<bool>, contact: nat, chain: seq<nat>, m: nat, msg: Message)
    requires ChatOk(card, bits, contact, chain) && LinkedBehind(card, now, nowBits, contact, chain, m, msg)
    ensures ChatOk(now, nowBits, contact, chain + [m])
    ensures ChatMessages(now, chain + [m]) == ChatMessages(card, chain) + [msg]
  {
    RolledMessages(card, bits, now, nowBits, contact, chain, m, msg);
    forall i | 0 <= i < |chain + [m]|
      ensures LinkOk(now, nowBits, contact, chain + [m], i)
    {
      RolledLink(card, bits, now, nowBits, contact, chain, m, msg, i);
    }
    hide LinkOk, ChatMessages;
  }

  // ----- reading -----

  lemma {:induction false} ChatPrefix(card: Card, chain: seq<nat>, k: nat)
    requires k <= |chain|
    ensures ChatMessages(card, chain[..k]) <= ChatMessages(card, chain)
    decreases |chain|
  {
    if k < |chain| {
      ChatPrefix(card, chain[..|chain| - 1], k);
      assert chain[..|chain| - 1][..k] == chain[..k];
    } else {
      assert chain[..k] == chain;
    }
  }

  /** Sector `k` of a chat holds the messages right after those of the sectors before it. */
  lemma ChatSlice(card: Card, bits: seq<bool>, contact: nat, chain: seq<nat>, k: nat)
    requires ChatOk(card, bits, contact, chain) && k < |chain|
    ensures IsMessageSector(SectorOf(card, chain[k])) && InUse(bits, chain[k])
    ensures var s := SectorOf(card, chain[k]);
            var before := |ChatMessages(card, chain[..k])|;
            && 0 < s.count <= MESSAGE_CAPACITY && s.prev == LastOr(chain[..k])
            && |ChatMessages(card, chain[..k + 1])| == before + s.count
            && SliceAt(ChatMessages(card, chain), before, s.messages, s.count)
  {
    assert LinkOk(card, bits, contact, chain, k);
    var upto := chain[..k + 1];
    assert upto[..k] == chain[..k] && upto[k] == chain[k];
    ChatPrefix(card, chain, k + 1);
    var all, part := ChatMessages(card, chain), ChatMessages(card, upto);
    assert part == ChatMessages(card, chain[..k]) + SectorMessages(SectorOf(card, chain[k]));
    forall j | 0 <= j < SectorOf(card, chain[k]).count
      ensures all[|ChatMessages(card, chain[..k])| + j] == SectorOf(card, chain[k]).messages[j]
    {
      assert all[|ChatMessages(card, chain[..k])| + j] == part[|ChatMessages(card, chain[..k])| + j];
    }
  }

  /** A walk over a chat from its newest sector: `hops` sectors with `passed` messages are
      behind, `k` sectors are ahead, and `prev` is the next one. */
  predicate Walk(card: Card, chain: seq<nat>, k: nat, hops: nat, prev: nat, passed: nat) {
    && k <= |chain| && hops == |chain| - k && prev == LastOr(chain[..k])
    && passed == |ChatMessages(card, chain)| - |ChatMessages(card, chain[..k])|
  }

  lemma WalkStart(card: Card, bits: seq<bool>, contact: nat, chain: seq<nat>)
    requires ChatOk(card, bits, contact, chain)
    ensures Walk(card, chain, |chain|, 0, LastOr(chain), 0) && |chain| <= MESSAGE_SECTORS
  {
    assert chain[..|chain|] == chain;
    ChatInRange(card, bits, contact, chain);
  }

  lemma WalkBound(card: Card, chain: seq<nat>, k: nat, hops: nat, prev: nat, passed: nat)
    requires Walk(card, chain, k, hops, prev, passed)
    ensures passed <= |ChatMessages(card, chain)|
  {
  }

  lemma WalkStep(card: Card, bits: seq<bool>, contact: nat, chain: seq<nat>, k: nat, hops: nat, prev: nat, passed: nat)
    requires ChatOk(card, bits, contact, chain) && Walk(card, chain, k, hops, prev, passed)
    ensures prev == NIL <==> k == 0
    ensures prev == NIL ==> passed == |ChatMessages(card, chain)|
    ensures hops <= MESSAGE_SECTORS && (prev != NIL ==> hops < MESSAGE_SECTORS)
    ensures prev != NIL ==> prev == chain[k - 1] && InUse(bits, prev) && IsMessageSector(SectorOf(card, prev))
    ensures prev != NIL ==> var s := SectorOf(card, prev);
      0 < s.count <= MESSAGE_CAPACITY && Walk(card, chain, k - 1, hops + 1, s.prev, passed + s.count)
    ensures prev != NIL ==> var s := SectorOf(card, prev); var all := ChatMessages(card, chain);
      SliceAt(all, |all| - passed - s.count, s.messages, s.count)
  {
    ChatInRange(card, bits, contact, chain);
    if k == 0 {
      assert chain[..k] == [];
    } else {
      assert chain[k - 1] in chain;
      ChatSlice(card, bits, contact, chain, k - 1);
    }
  }

  /** Reads a message sector that the bitmap says is in use. */
  method Fetch(storage: Storage, bitmap: UsageBitmap, m: nat) returns (ret: Ret, sector: Sector)
    requires bitmap.Valid() && m < MESSAGE_SECTORS
    ensures sector == SectorOf(storage.sectors, m)
    ensures ret == if !InUse(bitmap.bits, m) then Empty else if !IsMessageSector(sector) then Corrupt else Ok
  {
    sector := SectorOf(storage.sectors, m);
    var inUse := bitmap.CheckUsageBit(MessageDataSector(m));
    return if !inUse then Empty else if !IsMessageSector(sector) then Corrupt else Ok, sector;
  }

  /** Walks back to the sector that holds message `start` and the slot it is in.  The number of
      hops is bounded, so the walk ends on any card, cyclic links included. */
  method FindMessageN(storage: Storage, bitmap: UsageBitmap, startIndex: nat, start: nat,
                      ghost contact: nat, ghost chain: seq<nat>)
    returns (ret: Ret, hops: nat, offset: nat, sector: Sector, ghost k: nat, ghost passed: nat)
    requires bitmap.Valid() && LinksInRange(storage.sectors, bitmap.bits) && startIndex < MESSAGE_SECTORS
    ensures hops <= MESSAGE_SECTORS
    ensures ret == Ok ==> IsMessageSector(sector) && (sector.prev == NIL || sector.prev < MESSAGE_SECTORS)
    ensures ChatOk(storage.sectors, bitmap.bits, contact, chain) && startIndex == LastOr(chain) ==>
      var all := ChatMessages(storage.sectors, chain);
      && (ret == Ok <==> start < |all|) && (ret == Ok || ret == Fail)
      && (ret == Ok ==> Walk(storage.sectors, chain, k, hops, sector.prev, passed))
      && (ret == Ok ==> offset < sector.count <= MESSAGE_CAPACITY && passed - 1 - start == offset)
      && (ret == Ok ==> SliceAt(all, |all| - passed, sector.messages, sector.count))
  {
    hide UsageBitmap.Valid, LinksInRange, ChatOk, Walk, SliceAt, ChatMessages, InUse;
    hops, offset, sector := 0, 0, Garbage(0);
    var msgPassed: nat, prev: nat := 0, startIndex;
    ghost var good := ChatOk(storage.sectors, bitmap.bits, contact, chain) && startIndex == LastOr(chain);
    ghost var all := ChatMessages(storage.sectors, chain);
    k, passed := |chain|, 0;
    if good { WalkStart(storage.sectors, bitmap.bits, contact, chain); }
    while msgPassed <= start
      invariant hops <= MESSAGE_SECTORS && (prev == NIL || prev < MESSAGE_SECTORS) && passed == msgPassed
      invariant if hops > 0 then IsMessageSector(sector) && prev == sector.prev else msgPassed == 0
      invariant good ==> Walk(storage.sectors, chain, k, hops, prev, msgPassed)
      invariant good && hops > 0 ==> 0 < sector.count <= MESSAGE_CAPACITY && msgPassed - sector.count <= start
      invariant good && hops > 0 ==> SliceAt(all, |all| - msgPassed, sector.messages, sector.count)
      decreases MESSAGE_SECTORS - hops
    {
      if good { WalkStep(storage.sectors, bitmap.bits, contact, chain, k, hops, prev, msgPassed); }
      if prev == NIL || hops >= MESSAGE_SECTORS {
        return Fail, hops, offset, sector, k, passed;
      }
      ret, sector := Fetch(storage, bitmap, prev);
      if ret != Ok {
        return ret, hops, offset, sector, k, passed;
      }
      LinkAt(storage.sectors, bitmap.bits, prev);
      msgPassed := msgPassed + sector.count;
      hops := hops + 1;
      prev := sector.prev;
      k := if k > 0 then k - 1 else 0;
      passed := msgPassed;
    }
    if good { WalkBound(storage.sectors, chain, k, hops, prev, msgPassed); }
    offset := (msgPassed - 1 - start) % 0x100;
    return Ok, hops, offset, sector, k, passed;
  }

  /** Reads on from sector `first` to older ones, until `n` messages are read or the chat ends. */
  method ReadOlder(storage: Storage, bitmap: UsageBitmap, first: nat, hopsSoFar: nat, start: nat, n: nat, soFar: seq<Message>,
                   ghost contact: nat, ghost chain: seq<nat>, ghost k0: nat, ghost passed0: nat)
    returns (ret: Ret, out: seq<Message>)
    requires bitmap.Valid() && LinksInRange(storage.sectors, bitmap.bits) && (first == NIL || first < MESSAGE_SECTORS)
    requires |soFar| <= n && hopsSoFar <= MESSAGE_SECTORS
    ensures |out| <= n
    ensures var all := ChatMessages(storage.sectors, chain);
      ChatOk(storage.sectors, bitmap.bits, contact, chain) &&
      Walk(storage.sectors, chain, k0, hopsSoFar, first, passed0) && ReadsBack(all, start, soFar) &&
      (|soFar| < n ==> start + |soFar| == passed0) ==>
        ret == Ok && ReadsBack(all, start, out) && (|out| == n || start + |out| == |all|)
  {
    hide UsageBitmap.Valid, LinksInRange, ChatOk, Walk, ReadsBack, SliceAt, ChatMessages, InUse;
    out := soFar;
    var prev: nat, hops: nat := first, hopsSoFar;
    ghost var k: nat, passed: nat := k0, passed0;
    ghost var all := ChatMessages(storage.sectors, chain);
    ghost var good := ChatOk(storage.sectors, bitmap.bits, contact, chain) && Walk(storage.sectors, chain, k, hops, prev, passed)
      && ReadsBack(all, start, out) && (|out| < n ==> start + |out| == passed);
    while |out| < n
      invariant |out| <= n && hops <= MESSAGE_SECTORS && (prev == NIL || prev < MESSAGE_SECTORS)
      invariant good ==> Walk(storage.sectors, chain, k, hops, prev, passed)
      invariant good ==> ReadsBack(all, start, out) && (|out| < n ==> start + |out| == passed)
      decreases MESSAGE_SECTORS - hops
    {
      if good {
        WalkStep(storage.sectors, bitmap.bits, contact, chain, k, hops, prev, passed);
      }
      if prev == NIL {
        return Ok, out;
      }
      if hops >= MESSAGE_SECTORS {
        return Fail, out;
      }
      var got, sector := Fetch(storage, bitmap, prev);
      if got != Ok {
        return got, out;
      }
      LinkAt(storage.sectors, bitmap.bits, prev);
      if sector.count > MESSAGE_CAPACITY {
        return Fail, out;
      }
      var more := CopyDown(sector.messages, sector.count - 1, n, out);
      if good { ReadsOn(all, start, out, more, sector.messages, sector.count - 1, |all| - passed - sector.count); }
      out := more;
      prev := sector.prev;
      hops := hops + 1;
      k, passed := if k > 0 then k - 1 else 0, passed + sector.count;
    }
    return Ok, out;
  }

  /** Reads at most `n` messages of a chat, newest first, from the one `start` places back. */
  method ReadNMessages(storage: Storage, bitmap: UsageBitmap, startIndex: nat, start: nat, n: nat,
                       ghost contact: nat, ghost chain: seq<nat>)
    returns (ret: Ret, out: seq<Message>)
    requires bitmap.Valid() && LinksInRange(storage.sectors, bitmap.bits) && (startIndex == NIL || startIndex < MESSAGE_SECTORS)
    ensures |out| <= n
    ensures n == 0 || startIndex == NIL ==> ret == Ok && out == []
    ensures n > 0 && startIndex != NIL && ChatOk(storage.sectors, bitmap.bits, contact, chain) && startIndex == LastOr(chain) ==>
      var all := ChatMessages(storage.sectors, chain);
      if start < |all| then ret == Ok && out == Reversed(all)[start..if start + n < |all| then start + n else |all|]
      else ret == Fail && out == []
  {
    out := [];
    if n == 0 || startIndex == NIL {
      return Ok, out;
    }
    ghost var all := ChatMessages(storage.sectors, chain);
    ghost var good := ChatOk(storage.sectors, bitmap.bits, contact, chain) && startIndex == LastOr(chain);
    var found, hops: nat, pos: nat, sector, k: nat, passed: nat := FindMessageN(storage, bitmap, startIndex, start, contact, chain);
    if found != Ok {
      return found, out;
    }
    if pos >= sector.count || sector.count > MESSAGE_CAPACITY {
      return Fail, out;
    }
    out := CopyDown(sector.messages, pos, n, []);
    if good { ReadsOn(all, start, [], out, sector.messages, pos, |all| - passed); }
    ret, out := ReadOlder(storage, bitmap, sector.prev, hops, start, n, out, contact, chain, k, passed);
    if good { ReadsBackIsSlice(all, start, out); }
  }

  // ----- writing -----

  function BlankSector(contact: nat, prev: nat): Sector {
    var blank := Message(0, false, []);
    MessageSector(NIL, prev, Truncate16(contact), 0, [blank, blank, blank])
  }

  function AppendTx(bits: seq<bool>, m: nat, s: Sector, msg: Message): Tx
    requires |bits| == TOTAL_BITS && m < MESSAGE_SECTORS && IsMessageSector(s) && s.count < MESSAGE_CAPACITY
  {
    OpTx(MessageKind, bits, MessageDataSector(m), s, Some(true), Some(WithMessage(s, msg)), false)
  }

  function NewSectorTx(bits: seq<bool>, m: nat, contact: nat, prev: nat, msg: Message): Tx
    requires |bits| == TOTAL_BITS && m < MESSAGE_SECTORS
  {
    OpTx(MessageKind, bits, MessageDataSector(m), BlankSector(contact, prev), Some(true), Some(NewSector(contact, prev, msg)), false)
  }

  function LinkTx(bits: seq<bool>, m: nat, s: Sector, next: nat): Tx
    requires |bits| == TOTAL_BITS && m < MESSAGE_SECTORS && s.MessageSector?
  {
    OpTx(MessageKind, bits, MessageDataSector(m), s, None, Some(s.(next := next)), false)
  }

  /** Nothing has happened. */
  twostate predicate Untouched(storage: Storage, journal: Journal, bitmap: UsageBitmap)
    reads storage, journal, bitmap
  {
    storage.sectors == old(storage.sectors) && journal.done == old(journal.done) && bitmap.bits == old(bitmap.bits)
  }

  /** Adds a message to a sector with room for it. */
  method WriteMessage(storage: Storage, journal: Journal, bitmap: UsageBitmap, m: nat, msg: Message) returns (ret: Ret)
    requires Ready(storage, journal, bitmap) && m < MESSAGE_SECTORS
    modifies storage, journal, bitmap, bitmap.words
    ensures Ready(storage, journal, bitmap)
    ensures var s := SectorOf(old(storage.sectors), m);
            ret == if !InUse(old(bitmap.bits), m) then Empty else if !IsMessageSector(s) then Corrupt
                   else if s.count >= MESSAGE_CAPACITY then Full else Ok
    ensures ret != Ok ==> Untouched(storage, journal, bitmap)
    ensures ret == Ok ==> journal.done == old(journal.done) + [AppendTx(old(bitmap.bits), m, SectorOf(old(storage.sectors), m), msg)]
    ensures ret == Ok ==> bitmap.bits == old(bitmap.bits)
    ensures ret == Ok ==> SectorOf(storage.sectors, m) == WithMessage(SectorOf(old(storage.sectors), m), msg)
    ensures ret == Ok ==> OnlySector(old(storage.sectors), old(bitmap.bits), storage.sectors, bitmap.bits, MessageDataSector(m))
  {
    ReadyFacts(storage, journal, bitmap);
    ReadyClean(storage, journal, bitmap);
    hide Ready, BitmapOnCard, Clean, UsageBitmap.Valid, WithMessage, OnlySector;
    var s;
    ret, s := Fetch(storage, bitmap, m);
    if ret != Ok {
      return ret;
    }
    if s.count >= MESSAGE_CAPACITY {
      return Full;
    }
    Transact(storage, journal, bitmap, MessageKind, MessageDataSector(m), s, Some(true), Some(WithMessage(s, msg)), false);
    SetAgain(old(bitmap.bits), m);
    OnlyOne(old(storage.sectors), old(bitmap.bits), storage.sectors, bitmap.bits, MessageDataSector(m));
    return Ok;
  }

  lemma SetAgain(bits: seq<bool>, m: nat)
    requires InUse(bits, m)
    ensures bits[MessageDataSector(m) := true] == bits
  {
  }

  lemma OnlyOne(was: Card, wasBits: seq<bool>, now: Card, nowBits: seq<bool>, d: nat)
    requires |wasBits| == TOTAL_BITS && wasBits == nowBits
    requires forall a :: DATA_START <= a < CARD_SECTORS && a != RawData(d) ==> now[a] == was[a]
    ensures OnlySector(was, wasBits, now, nowBits, d)
  {
  }

  /** Writes the first message of a sector that starts a chat, or continues the one that ends
      at `prev`. */
  method WriteNewSector(storage: Storage, journal: Journal, bitmap: UsageBitmap, contact: nat, prev: nat, m: nat, msg: Message)
    returns (ret: Ret)
    requires Ready(storage, journal, bitmap) && m < MESSAGE_SECTORS
    modifies storage, journal, bitmap, bitmap.words
    ensures Ready(storage, journal, bitmap)
    ensures ret == if InUse(old(bitmap.bits), m) then Full else Ok
    ensures ret != Ok ==> Untouched(storage, journal, bitmap)
    ensures ret == Ok ==> journal.done == old(journal.done) + [NewSectorTx(old(bitmap.bits), m, contact, prev, msg)]
    ensures ret == Ok ==> journal.cards == old(journal.cards) + [storage.sectors]
    ensures ret == Ok ==> bitmap.bits == old(bitmap.bits)[MessageDataSector(m) := true]
    ensures ret == Ok ==> SectorOf(storage.sectors, m) == NewSector(contact, prev, msg)
    ensures ret == Ok ==> OnlySector(old(storage.sectors), old(bitmap.bits), storage.sectors, bitmap.bits, MessageDataSector(m))
  {
    var inUse := bitmap.CheckUsageBit(MessageDataSector(m));
    if inUse {
      return Full;
    }
    Transact(storage, journal, bitmap, MessageKind, MessageDataSector(m), BlankSector(contact, prev),
             Some(true), Some(NewSector(contact, prev, msg)), false);
    return Ok;
  }

  method PointToNext(storage: Storage, journal: Journal, bitmap: UsageBitmap, next: nat, prev: nat) returns (ret: Ret)
    requires Ready(storage, journal, bitmap) && prev < MESSAGE_SECTORS
    modifies storage, journal, bitmap, bitmap.words
    ensures Ready(storage, journal, bitmap)
    ensures ret == if IsMessageSector(SectorOf(old(storage.sectors), prev)) then Ok else Fail
    ensures ret != Ok ==> Untouched(storage, journal, bitmap)
    ensures ret == Ok ==> journal.done == old(journal.done) + [LinkTx(old(bitmap.bits), prev, SectorOf(old(storage.sectors), prev), next)]
    ensures ret == Ok ==> journal.cards == old(journal.cards) + [storage.sectors]
    ensures ret == Ok ==> bitmap.bits == old(bitmap.bits)
    ensures ret == Ok ==> SectorOf(storage.sectors, prev) == SectorOf(old(storage.sectors), prev).(next := next)
    ensures ret == Ok ==> OnlySector(old(storage.sectors), old(bitmap.bits), storage.sectors, bitmap.bits, MessageDataSector(prev))
  {
    var s := SectorOf(storage.sectors, prev);
    if !IsMessageSector(s) {
      return Fail;
    }
    Transact(storage, journal, bitmap, MessageKind, MessageDataSector(prev), s, None, Some(s.(next := next)), false);
    return Ok;
  }

  /** Rolls a chat over to a new sector, in two transactions: first the new sector with its
      link back, then the old one's link forward. */
  method WriteNextSector(storage: Storage, journal: Journal, bitmap: UsageBitmap, contact: nat, prev: nat, m: nat, msg: Message)
    returns (ret: Ret, ghost mid: Card)
    requires Ready(storage, journal, bitmap) && m < MESSAGE_SECTORS && prev < MESSAGE_SECTORS
    modifies storage, journal, bitmap, bitmap.words
    ensures Ready(storage, journal, bitmap)
    ensures ret == if InUse(old(bitmap.bits), m) then Full else if !InUse(old(bitmap.bits), prev) then Empty
                   else if !IsMessageSector(SectorOf(old(storage.sectors), prev)) then Fail else Ok
    ensures ret in {Full, Empty} ==> Untouched(storage, journal, bitmap)
    ensures ret == Ok ==> var bits := old(bitmap.bits)[MessageDataSector(m) := true];
      && journal.done == old(journal.done) + [NewSectorTx(old(bitmap.bits), m, contact, prev, msg)]
                         + [LinkTx(bits, prev, SectorOf(old(storage.sectors), prev), m)]
      && bitmap.bits == bits
    ensures ret == Ok ==>
      && journal.cards == old(journal.cards) + [mid] + [storage.sectors]
      && BitmapOnCard(mid, bitmap.bits) && SectorOf(mid, m) == NewSector(contact, prev, msg)
      && OnlySector(old(storage.sectors), old(bitmap.bits), mid, bitmap.bits, MessageDataSector(m))
    ensures ret == Ok ==> SectorOf(storage.sectors, m) == NewSector(contact, prev, msg)
    ensures ret == Ok ==> SectorOf(storage.sectors, prev) == SectorOf(old(storage.sectors), prev).(next := m)
    ensures ret == Ok ==> forall a :: DATA_START <= a < CARD_SECTORS && a != RawData(MessageDataSector(m)) && a != RawData(MessageDataSector(prev)) ==>
      storage.sectors[a] == old(storage.sectors)[a]
  {
    mid := storage.sectors;
    var inUse := bitmap.CheckUsageBit(MessageDataSector(m));
    if inUse {
      return Full, mid;
    }
    inUse := bitmap.CheckUsageBit(MessageDataSector(prev));
    if !inUse {
      return Empty, mid;
    }
    ret := WriteNewSector(storage, journal, bitmap, contact, prev, m, msg);
    mid := storage.sectors;
    ReadyClean(storage, journal, bitmap);
    ret := PointToNext(storage, journal, bitmap, m, prev);
  }

  // ----- removing -----

  ghost function UsedSectors(bits: seq<bool>): set<nat>
  {
    set m: nat | m < MESSAGE_SECTORS && InUse(bits, m)
  }

  /** The allocator has exactly the unused message sectors. */
  ghost predicate AllocatorOk(allocator: FreeList, bits: seq<bool>)
    reads allocator, allocator.stack
  {
    && allocator.Valid() && allocator.stack.Length == MESSAGE_SECTORS
    && Partition(allocator.Free(), UsedSectors(bits), MESSAGE_SECTORS)
  }

  function ClearTx(kind: SectorKind, bits: seq<bool>, m: nat, s: Sector): Tx
    requires |bits| == TOTAL_BITS && m < MESSAGE_SECTORS && !IsHistory(kind)
  {
    OpTx(kind, bits, MessageDataSector(m), s, Some(false), None, false)
  }

  lemma ClearOne(bits: seq<bool>, m: nat)
    requires InUse(bits, m)
    ensures UsedSectors(bits[MessageDataSector(m) := false]) == UsedSectors(bits) - {m}
    ensures UsedSectors(bits[MessageDataSector(m) := false]) < UsedSectors(bits)
  {
    assert m in UsedSectors(bits);
  }

  /** Takes one sector out of use and gives it back to the allocator. */
  method RemoveSector(storage: Storage, journal: Journal, bitmap: UsageBitmap, allocator: FreeList, m: nat)
    returns (ret: Ret, removed: Sector)
    requires Ready(storage, journal, bitmap) && m < MESSAGE_SECTORS && AllocatorOk(allocator, bitmap.bits)
    modifies storage, journal, bitmap, bitmap.words, allocator, allocator.stack
    ensures Ready(storage, journal, bitmap) && AllocatorOk(allocator, bitmap.bits)
    ensures removed == SectorOf(old(storage.sectors), m)
    ensures LinksInRange(old(storage.sectors), old(bitmap.bits)) ==>
      LinksInRange(storage.sectors, bitmap.bits) && (ret == Ok ==> removed.MessageSector? && (removed.prev == NIL || removed.prev < MESSAGE_SECTORS))
    ensures ret == if !InUse(old(bitmap.bits), m) then Empty else if !IsMessageSector(removed) then Corrupt else Ok
    ensures ret != Ok ==> Untouched(storage, journal, bitmap) && allocator.Free() == old(allocator.Free())
    ensures ret == Ok ==> journal.done == old(journal.done) + [ClearTx(MessageKind, old(bitmap.bits), m, removed)]
    ensures ret == Ok ==> journal.cards == old(journal.cards) + [storage.sectors]
    ensures ret == Ok ==> bitmap.bits == old(bitmap.bits)[MessageDataSector(m) := false]
    ensures ret == Ok ==> allocator.Free() == old(allocator.Free()) + [m]
    ensures forall a :: DATA_START <= a < CARD_SECTORS ==> storage.sectors[a] == old(storage.sectors)[a]
  {
    hide Partition, UsedSectors, Ready, LinksInRange, UsageBitmap.Valid;
    ReadyFacts(storage, journal, bitmap);
    ghost var card, bits := storage.sectors, bitmap.bits;
    ret, removed := Fetch(storage, bitmap, m);
    if ret != Ok {
      return;
    }
    if LinksInRange(card, bits) { LinksLess(card, bits, m); }
    ClearSector(storage, journal, bitmap, m);
    ClearOne(bits, m);
    PartitionRoom(allocator.Free(), UsedSectors(bits), MESSAGE_SECTORS, m);
    PartitionRelease(allocator.Free(), UsedSectors(bits), MESSAGE_SECTORS, m);
    allocator.Release(m);
    if LinksInRange(card, bits) { LinksSame(card, storage.sectors, bitmap.bits); }
  }

  /** Takes one sector out of use, in a transaction that saves it. */
  method ClearSector(storage: Storage, journal: Journal, bitmap: UsageBitmap, m: nat)
    requires Ready(storage, journal, bitmap) && InUse(bitmap.bits, m) && IsMessageSector(SectorOf(storage.sectors, m))
    modifies storage, journal, bitmap, bitmap.words
    ensures Ready(storage, journal, bitmap)
    ensures journal.done == old(journal.done) + [ClearTx(MessageKind, old(bitmap.bits), m, SectorOf(old(storage.sectors), m))]
    ensures journal.cards == old(journal.cards) + [storage.sectors]
    ensures bitmap.bits == old(bitmap.bits)[MessageDataSector(m) := false]
    ensures forall a :: DATA_START <= a < CARD_SECTORS ==> storage.sectors[a] == old(storage.sectors)[a]
  {
    ReadyClean(storage, journal, bitmap);
    hide Ready, BitmapOnCard, Clean;
    Transact(storage, journal, bitmap, MessageKind, MessageDataSector(m), SectorOf(storage.sectors, m), Some(false), None, false);
  }

  lemma LinksLess(card: Card, bits: seq<bool>, m: nat)
    requires LinksInRange(card, bits) && InUse(bits, m)
    ensures LinksInRange(card, bits[MessageDataSector(m) := false])
    ensures IsMessageSector(SectorOf(card, m)) ==> SectorOf(card, m).prev == NIL || SectorOf(card, m).prev < MESSAGE_SECTORS
  {
  }

  lemma LinksSame(card: Card, now: Card, bits: seq<bool>)
    requires LinksInRange(card, bits) && forall a :: DATA_START <= a < CARD_SECTORS ==> now[a] == card[a]
    ensures LinksInRange(now, bits)
  {
    assert forall m :: 0 <= m < MESSAGE_SECTORS ==> SectorOf(now, m) == SectorOf(card, m);
  }

  /** The bits without those of the sectors in `chain`. */
  function ClearAll(bits: seq<bool>, chain: seq<nat>): (r: seq<bool>)
    ensures |r| == |bits|
  {
    seq(|bits|, d requires 0 <= d < |bits| => bits[d] && !(d >= MESSAGE_START && d - MESSAGE_START in chain))
  }

  method RemoveNewest(storage: Storage, journal: Journal, bitmap: UsageBitmap, allocator: FreeList, cur: nat,
                      ghost card: Card, ghost bits: seq<bool>, ghost contact: nat, ghost chain: seq<nat>, ghost k: nat,
                      ghost was: seq<nat>, ghost count: nat)
    returns (ret: Ret, prev: nat)
    requires Ready(storage, journal, bitmap) && AllocatorOk(allocator, bitmap.bits)
    requires LinksInRange(storage.sectors, bitmap.bits) && cur < MESSAGE_SECTORS
    requires forall a :: DATA_START <= a < CARD_SECTORS ==> storage.sectors[a] == card[a]
    modifies storage, journal, bitmap, bitmap.words, allocator, allocator.stack
    ensures Ready(storage, journal, bitmap) && AllocatorOk(allocator, bitmap.bits)
    ensures forall a :: DATA_START <= a < CARD_SECTORS ==> storage.sectors[a] == card[a]
    ensures (prev == NIL || prev < MESSAGE_SECTORS) && LinksInRange(storage.sectors, bitmap.bits)
    ensures ret == Ok ==> UsedSectors(bitmap.bits) < UsedSectors(old(bitmap.bits))
    ensures ret == Ok ==> journal.cards == old(journal.cards) + [storage.sectors]
    ensures ChatOk(card, bits, contact, chain)
            && Remaining(bits, chain, k, cur, old(bitmap.bits), was, old(allocator.Free()), count, |old(journal.done)|) ==>
      ret == Ok && k > 0 && Remaining(bits, chain, k - 1, prev, bitmap.bits, was, allocator.Free(), count, |journal.done|)
  {
    hide Ready, LinksInRange, AllocatorOk;
    ghost var good := ChatOk(card, bits, contact, chain)
      && Remaining(bits, chain, k, cur, bitmap.bits, was, allocator.Free(), count, |journal.done|);
    assert SectorOf(storage.sectors, cur) == SectorOf(card, cur);
    if good { ChatTail(card, bits, contact, chain, k); }
    if InUse(bitmap.bits, cur) { ClearOne(bitmap.bits, cur); }
    var removed;
    ret, removed := RemoveSector(storage, journal, bitmap, allocator, cur);
    prev := if ret == Ok then removed.prev else NIL;
    if good {
      RemainingStep(card, bits, contact, chain, k, cur, old(bitmap.bits), bitmap.bits, was,
                    old(allocator.Free()), allocator.Free(), count, old(|journal.done|), |journal.done|);
    }
  }

  /** Removes a chat sector by sector, newest first, each in its own transaction. */
  method RemoveChat(storage: Storage, journal: Journal, bitmap: UsageBitmap, allocator: FreeList, startIndex: nat,
                    ghost contact: nat, ghost chain: seq<nat>)
    returns (ok: bool)
    requires Ready(storage, journal, bitmap) && AllocatorOk(allocator, bitmap.bits)
    requires LinksInRange(storage.sectors, bitmap.bits) && (startIndex == NIL || startIndex < MESSAGE_SECTORS)
    modifies storage, journal, bitmap, bitmap.words, allocator, allocator.stack
    ensures Ready(storage, journal, bitmap) && AllocatorOk(allocator, bitmap.bits)
    ensures forall a :: DATA_START <= a < CARD_SECTORS ==> storage.sectors[a] == old(storage.sectors)[a]
    ensures startIndex == NIL ==> ok && Untouched(storage, journal, bitmap) && allocator.Free() == old(allocator.Free())
    ensures startIndex != NIL && ChatOk(old(storage.sectors), old(bitmap.bits), contact, chain) && startIndex == LastOr(chain) ==>
      && ok && bitmap.bits == ClearAll(old(bitmap.bits), chain)
      && allocator.Free() == old(allocator.Free()) + Reversed(chain)
      && |journal.done| == |old(journal.done)| + |chain|
      && Removals(journal.cards, |old(journal.cards)| - 1, old(storage.sectors), old(bitmap.bits), chain, |chain|)
  {
    hide LinksInRange, Remaining, Removals, Ready, AllocatorOk, ChatOk, ClearAll, RemovedAt, InUse, UsedSectors;
    if startIndex == NIL {
      return true;
    }
    ghost var card, bits, was, count := storage.sectors, bitmap.bits, allocator.Free(), |journal.done|;
    ghost var good := ChatOk(card, bits, contact, chain) && startIndex == LastOr(chain);
    ghost var k: nat := |chain|;
    RemainingStart(bits, chain, was, count);
    ghost var base := |journal.cards| - 1;
    RemovalsStart(storage, journal, bitmap, chain);
    var cur: nat := startIndex;
    while cur != NIL
      invariant (cur == NIL || cur < MESSAGE_SECTORS) && LinksInRange(storage.sectors, bitmap.bits)
      invariant Ready(storage, journal, bitmap) && AllocatorOk(allocator, bitmap.bits)
      invariant forall a :: DATA_START <= a < CARD_SECTORS ==> storage.sectors[a] == card[a]
      invariant good ==> Remaining(bits, chain, k, cur, bitmap.bits, was, allocator.Free(), count, |journal.done|)
      invariant good ==> k <= |chain| && Removals(journal.cards, base, card, bits, chain, |chain| - k)
      decreases UsedSectors(bitmap.bits)
    {
      ghost var cards := journal.cards;
      var ret, prev := RemoveNewest(storage, journal, bitmap, allocator, cur, card, bits, contact, chain, k, was, count);
      if ret != Ok {
        return false;
      }
      if good {
        ReadyClean(storage, journal, bitmap);
        RemainingBits(bits, chain, k - 1, prev, bitmap.bits, was, allocator.Free(), count, |journal.done|);
        RemovalsNext(cards, storage.sectors, base, card, bits, chain, k);
      }
      cur := prev;
      k := if k > 0 then k - 1 else 0;
    }
    if good {
      RemainingBits(bits, chain, k, cur, bitmap.bits, was, allocator.Free(), count, |journal.done|);
      ChatTail(card, bits, contact, chain, k);
      assert chain[k..] == chain;
    }
    return true;
  }

  /** The card after the newest `j` sectors of a chat have been taken out of use. */
  predicate RemovedAt(now: Card, card: Card, bits: seq<bool>, chain: seq<nat>, j: int) {
    && 0 <= j <= |chain| && BitmapOnCard(now, ClearAll(bits, chain[|chain| - j..]))
    && forall a :: DATA_START <= a < CARD_SECTORS ==> now[a] == card[a]
  }

  /** The cards between the transactions of a removal, from the one before the first. */
  predicate Removals(cards: seq<Card>, base: int, card: Card, bits: seq<bool>, chain: seq<nat>, gone: nat) {
    && 0 <= base && |cards| == base + gone + 1
    && forall x :: base <= x < |cards| ==> RemovedAt(cards[x], card, bits, chain, x - base)
  }

  lemma RemovalsStart(storage: Storage, journal: Journal, bitmap: UsageBitmap, chain: seq<nat>)
    requires Ready(storage, journal, bitmap)
    ensures Removals(journal.cards, |journal.cards| - 1, storage.sectors, bitmap.bits, chain, 0)
  {
    assert chain[|chain|..] == [];
    assert ClearAll(bitmap.bits, []) == bitmap.bits;
    assert storage.sectors == journal.cards[|journal.done|] && |journal.cards| == |journal.done| + 1;
    hide BitmapOnCard;
  }

  lemma RemovalsNext(cards: seq<Card>, now: Card, base: int, card: Card, bits: seq<bool>, chain: seq<nat>, k: nat)
    requires 0 < k <= |chain| && Removals(cards, base, card, bits, chain, |chain| - k)
    requires BitmapOnCard(now, ClearAll(bits, chain[k - 1..])) && forall a :: DATA_START <= a < CARD_SECTORS ==> now[a] == card[a]
    ensures Removals(cards + [now], base, card, bits, chain, |chain| - (k - 1))
  {
    hide BitmapOnCard;
    assert |chain| - (|chain| - (k - 1)) == k - 1;
    assert RemovedAt(now, card, bits, chain, |chain| - (k - 1));
    var all := cards + [now];
    forall x | base <= x < |all|
      ensures RemovedAt(all[x], card, bits, chain, x - base)
    {
      if x < |cards| { assert all[x] == cards[x]; } else { assert all[x] == now; }
    }
  }

  lemma RemainingBits(bits: seq<bool>, chain: seq<nat>, k: nat, cur: nat, nowBits: seq<bool>, wasFree: seq<nat>, free: seq<nat>, wasDone: nat, done: nat)
    requires Remaining(bits, chain, k, cur, nowBits, wasFree, free, wasDone, done)
    ensures k <= |chain| && cur == LastOr(chain[..k]) && nowBits == ClearAll(bits, chain[k..])
    ensures free == wasFree + Reversed(chain[k..]) && done == wasDone + (|chain| - k)
  {
  }

  lemma RemainingStart(bits: seq<bool>, chain: seq<nat>, free: seq<nat>, done: nat)
    ensures Remaining(bits, chain, |chain|, LastOr(chain), bits, free, free, done, done)
  {
    assert chain[..|chain|] == chain && chain[|chain|..] == [];
  }

  /** While a chat is removed: the oldest `k` sectors are still there, the others are free. */
  predicate Remaining(bits: seq<bool>, chain: seq<nat>, k: nat, cur: nat, nowBits: seq<bool>,
                      wasFree: seq<nat>, free: seq<nat>, wasDone: nat, done: nat) {
    && k <= |chain| && cur == LastOr(chain[..k])
    && nowBits == ClearAll(bits, chain[k..])
    && free == wasFree + Reversed(chain[k..])
    && done == wasDone + (|chain| - k)
  }

  lemma RemainingStep(card: Card, bits: seq<bool>, contact: nat, chain: seq<nat>, k: nat, cur: nat, midBits: seq<bool>, nowBits: seq<bool>,
                      wasFree: seq<nat>, midFree: seq<nat>, free: seq<nat>, wasDone: nat, midDone: nat, done: nat)
    requires ChatOk(card, bits, contact, chain) && cur != NIL
    requires Remaining(bits, chain, k, cur, midBits, wasFree, midFree, wasDone, midDone)
    requires cur < MESSAGE_SECTORS && nowBits == midBits[MessageDataSector(cur) := false]
    requires free == midFree + [cur] && done == midDone + 1
    ensures IsMessageSector(SectorOf(card, cur))
    ensures k > 0 && Remaining(bits, chain, k - 1, SectorOf(card, cur).prev, nowBits, wasFree, free, wasDone, done)
  {
    ChatTail(card, bits, contact, chain, k);
  }

  /** Taking the newest remaining sector out of a chat. */
  lemma ChatTail(card: Card, bits: seq<bool>, contact: nat, chain: seq<nat>, k: nat)
    requires ChatOk(card, bits, contact, chain) && k <= |chain|
    ensures LastOr(chain[..k]) == NIL <==> k == 0
    ensures k > 0 ==> var m := chain[k - 1];
      && LastOr(chain[..k]) == m && InUse(ClearAll(bits, chain[k..]), m)
      && IsMessageSector(SectorOf(card, m)) && SectorOf(card, m).prev == LastOr(chain[..k - 1])
      && ClearAll(bits, chain[k..])[MessageDataSector(m) := false] == ClearAll(bits, chain[k - 1..])
      && Reversed(chain[k - 1..]) == Reversed(chain[k..]) + [m]
  {
    ChatInRange(card, bits, contact, chain);
    if k > 0 {
      assert LinkOk(card, bits, contact, chain, k - 1);
      assert chain[k - 1] !in chain[k..];
      assert chain[k - 1..] == [chain[k - 1]] + chain[k..];
    }
  }

  // ----- all chats -----

  /** The chats, by contact slot: every message sector in use belongs to exactly one. */
  ghost predicate ChatsOk(card: Card, bits: seq<bool>, chats: map<nat, seq<nat>>) {
    && |bits| == TOTAL_BITS
    && (forall c <- chats :: ChatOk(card, bits, c, chats[c]))
    && (forall m :: 0 <= m < MESSAGE_SECTORS && InUse(bits, m) ==>
          SectorOf(card, m).MessageSector? && SectorOf(card, m).contactIndex in chats && m in chats[SectorOf(card, m).contactIndex])
  }

  /** The links of chats stay in the message region. */
  lemma ChatsLinks(card: Card, bits: seq<bool>, chats: map<nat, seq<nat>>)
    requires ChatsOk(card, bits, chats)
    ensures LinksInRange(card, bits)
  {
    forall m | 0 <= m < MESSAGE_SECTORS && InUse(bits, m)
      ensures SectorOf(card, m).MessageSector? && (SectorOf(card, m).prev == NIL || SectorOf(card, m).prev < MESSAGE_SECTORS)
    {
      var chain := chats[SectorOf(card, m).contactIndex];
      ChatInRange(card, bits, SectorOf(card, m).contactIndex, chain);
      var i :| 0 <= i < |chain| && chain[i] == m;
      assert LinkOk(card, bits, SectorOf(card, m).contactIndex, chain, i);
      if i > 0 { assert chain[..i][i - 1] in chain; }
    }
  }

  /** The chat of a contact, empty if it has none. */
  function ChainOf(chats: map<nat, seq<nat>>, c: nat): seq<nat> {
    if c in chats then chats[c] else []
  }

  /** Nothing in the message region has changed. */
  predicate MessagesSame(card: Card, bits: seq<bool>, now: Card, nowBits: seq<bool>) {
    && |bits| == TOTAL_BITS && |nowBits| == TOTAL_BITS
    && forall m :: 0 <= m < MESSAGE_SECTORS ==> SectorOf(now, m) == SectorOf(card, m) && InUse(nowBits, m) == InUse(bits, m)
  }

  lemma ChatsFrame(card: Card, bits: seq<bool>, now: Card, nowBits: seq<bool>, chats: map<nat, seq<nat>>)
    requires ChatsOk(card, bits, chats) && MessagesSame(card, bits, now, nowBits)
    ensures ChatsOk(now, nowBits, chats)
    ensures forall c <- chats :: ChatMessages(now, chats[c]) == ChatMessages(card, chats[c])
    ensures UsedSectors(nowBits) == UsedSectors(bits)
  {
    forall c | c in chats
      ensures ChatOk(now, nowBits, c, chats[c]) && ChatMessages(now, chats[c]) == ChatMessages(card, chats[c])
    {
      ChatInRange(card, bits, c, chats[c]);
      ChatFrame(card, bits, now, nowBits, c, chats[c]);
    }
  }

  /** A sector of one chat is in no other. */
  lemma ChatsApart(card: Card, bits: seq<bool>, chats: map<nat, seq<nat>>, c: nat, e: nat, m: nat)
    requires ChatsOk(card, bits, chats) && c in chats && e in chats && m in chats[c] && m in chats[e]
    ensures c == e
  {
    ChatInRange(card, bits, c, chats[c]);
    var i :| 0 <= i < |chats[c]| && chats[c][i] == m;
    var j :| 0 <= j < |chats[e]| && chats[e][j] == m;
    assert LinkOk(card, bits, c, chats[c], i) && LinkOk(card, bits, e, chats[e], j);
  }

  /** One chat has changed to `chain`, in sectors of its own or out of use before; the others
      are as they were. */
  lemma ChatsReplace(card: Card, bits: seq<bool>, now: Card, nowBits: seq<bool>, chats: map<nat, seq<nat>>, c: nat, chain: seq<nat>)
    requires ChatsOk(card, bits, chats) && ChatOk(now, nowBits, c, chain)
    requires forall m <- ChainOf(chats, c) :: m in chain
    requires forall m :: 0 <= m < MESSAGE_SECTORS && m !in chain ==> SectorOf(now, m) == SectorOf(card, m) && InUse(nowBits, m) == InUse(bits, m)
    requires forall m <- chain :: m in ChainOf(chats, c) || !InUse(bits, m)
    ensures ChatsOk(now, nowBits, chats[c := chain])
    ensures forall e <- chats :: e != c ==> ChatMessages(now, chats[e]) == ChatMessages(card, chats[e])
    ensures UsedSectors(nowBits) == UsedSectors(bits) + Elems(chain)
  {
    ChatInRange(now, nowBits, c, chain);
    forall e | e in chats && e != c
      ensures ChatOk(now, nowBits, e, chats[e]) && ChatMessages(now, chats[e]) == ChatMessages(card, chats[e])
    {
      ChatInRange(card, bits, e, chats[e]);
      forall m | m in chats[e]
        ensures m !in chain
      {
        if m in chain { ChatsApart(card, bits, chats, c, e, m); }
      }
      ChatFrame(card, bits, now, nowBits, e, chats[e]);
    }
    ReplacedOwners(card, bits, now, nowBits, chats, c, chain);
  }

  lemma ReplacedOwners(card: Card, bits: seq<bool>, now: Card, nowBits: seq<bool>, chats: map<nat, seq<nat>>, c: nat, chain: seq<nat>)
    requires ChatsOk(card, bits, chats) && ChatOk(now, nowBits, c, chain)
    requires forall m <- ChainOf(chats, c) :: m in chain
    requires forall m :: 0 <= m < MESSAGE_SECTORS && m !in chain ==> SectorOf(now, m) == SectorOf(card, m) && InUse(nowBits, m) == InUse(bits, m)
    ensures forall m :: 0 <= m < MESSAGE_SECTORS && InUse(nowBits, m) ==>
      var s := SectorOf(now, m); s.MessageSector? && s.contactIndex in chats[c := chain] && m in chats[c := chain][s.contactIndex]
  {
    ChatInRange(now, nowBits, c, chain);
    forall m | m in chain
      ensures SectorOf(now, m).MessageSector? && SectorOf(now, m).contactIndex == c
    {
      var i :| 0 <= i < |chain| && chain[i] == m;
      assert LinkOk(now, nowBits, c, chain, i);
    }
  }

  /** One chat has been taken out of use. */
  lemma ChatsRemove(card: Card, bits: seq<bool>, now: Card, chats: map<nat, seq<nat>>, c: nat)
    requires ChatsOk(card, bits, chats) && c in chats
    requires forall m :: 0 <= m < MESSAGE_SECTORS ==> SectorOf(now, m) == SectorOf(card, m)
    ensures ChatsOk(now, ClearAll(bits, chats[c]), chats - {c})
    ensures forall e <- chats - {c} :: ChatMessages(now, chats[e]) == ChatMessages(card, chats[e])
  {
    var nowBits := ClearAll(bits, chats[c]);
    forall e | e in chats && e != c
      ensures ChatOk(now, nowBits, e, chats[e]) && ChatMessages(now, chats[e]) == ChatMessages(card, chats[e])
    {
      ChatInRange(card, bits, e, chats[e]);
      forall m | m in chats[e]
        ensures m !in chats[c]
      {
        if m in chats[c] { ChatsApart(card, bits, chats, c, e, m); }
      }
      ChatFrame(card, bits, now, nowBits, e, chats[e]);
    }
  }
}
