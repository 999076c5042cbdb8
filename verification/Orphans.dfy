/** Chats whose contact is gone: what their removal takes out of use while a rebuild scans the
    message sectors, and when it leaves the other chats alone. */
module Orphans {
  import opened Layout
  import opened StorageCard
  import opened FreeLists
  import opened Contacts
  import opened Messages

  // ----- the newest sectors of chats -----

  /** A sector that the rebuild takes for the newest of its chat: nothing in use comes after it. */
  predicate IsHead(bits: seq<bool>, s: Sector)
    requires s.MessageSector?
  {
    s.next == NIL || s.next >= MESSAGE_SECTORS || !InUse(bits, s.next)
  }

  predicate HeadOf(card: Card, bits: seq<bool>, slot: nat, m: nat) {
    InUse(bits, m) && var s := SectorOf(card, m); IsMessageSector(s) && s.contactIndex == slot && IsHead(bits, s)
  }

  /** The highest of a contact's heads below `pos`. */
  function NewestHead(card: Card, bits: seq<bool>, slot: nat, pos: nat): nat {
    if pos == 0 then NIL else if HeadOf(card, bits, slot, pos - 1) then pos - 1 else NewestHead(card, bits, slot, pos - 1)
  }

  // ----- one removal -----

  predicate Readable(card: Card, bits: seq<bool>, m: nat) { InUse(bits, m) && IsMessageSector(SectorOf(card, m)) }

  function PrevOf(card: Card, m: nat): nat {
    var s := SectorOf(card, m); if s.MessageSector? then s.prev else NIL
  }

  /** Where a walk along the `prev` links from `start` is after the sectors in `run`. */
  function After(card: Card, start: nat, run: seq<nat>): nat {
    if run == [] then start else PrevOf(card, run[|run| - 1])
  }

  /** The walk from `start` has come along `run`, through readable sectors in use, none twice. */
  predicate Walking(card: Card, bits: seq<bool>, start: nat, run: seq<nat>) {
    && Distinct(run)
    && forall i :: 0 <= i < |run| ==> Readable(card, bits, run[i]) && run[i] == After(card, start, run[..i])
  }

  /** All of the walk: it ends at the first sector that is unused or unreadable, or was passed. */
  predicate OrphanRun(card: Card, bits: seq<bool>, start: nat, run: seq<nat>) {
    && Walking(card, bits, start, run)
    && var end := After(card, start, run); end == NIL || !Readable(card, bits, end) || end in run
  }

  lemma RunStep(card: Card, bits: seq<bool>, start: nat, run: seq<nat>, k: nat)
    requires Walking(card, bits, start, run) && k < |run|
    ensures run[k] == After(card, start, run[..k])
  {
  }

  lemma TakeOne(s: seq<nat>, k: nat)
    requires k < |s|
    ensures s[..k + 1] == s[..k] + [s[k]]
  {
  }

  lemma {:induction false} RunPrefix(card: Card, bits: seq<bool>, start: nat, a: seq<nat>, b: seq<nat>, k: nat)
    requires Walking(card, bits, start, a) && Walking(card, bits, start, b) && k <= |a| && k <= |b|
    ensures a[..k] == b[..k]
  {
    hide *;
    if k > 0 {
      RunStep(card, bits, start, a, k - 1);
      RunStep(card, bits, start, b, k - 1);
      TakeOne(a, k - 1);
      TakeOne(b, k - 1);
      RunPrefix(card, bits, start, a, b, k - 1);
    }
  }

  lemma RunOpen(card: Card, bits: seq<bool>, start: nat, run: seq<nat>, k: nat)
    requires Walking(card, bits, start, run) && k < |run|
    ensures !OrphanRun(card, bits, start, run[..k])
  {
    assert run[k] == After(card, start, run[..k]) && Readable(card, bits, run[k]);
    assert forall i :: 0 <= i < k ==> run[..k][i] == run[i] != run[k];
  }

  /** There is only one such walk. */
  lemma RunUnique(card: Card, bits: seq<bool>, start: nat, a: seq<nat>, b: seq<nat>)
    requires OrphanRun(card, bits, start, a) && OrphanRun(card, bits, start, b)
    ensures a == b
  {
    var k := if |a| < |b| then |a| else |b|;
    RunPrefix(card, bits, start, a, b, k);
    if k < |b| { RunOpen(card, bits, start, b, k); }
    if k < |a| { RunOpen(card, bits, start, a, k); }
    assert a[..|a|] == a && b[..|b|] == b;
  }

  lemma ClearedUse(bits: seq<bool>, run: seq<nat>, m: nat)
    ensures InUse(ClearAll(bits, run), m) <==> InUse(bits, m) && m !in run
  {
  }

  lemma ClearNext(bits: seq<bool>, run: seq<nat>, m: nat)
    requires InUse(bits, m)
    ensures ClearAll(bits, run)[MessageDataSector(m) := false] == ClearAll(bits, run + [m])
  {
  }

  /** One step of the removal: the sector the walk has come to is taken out of use, if it can be. */
  lemma WalkOn(card: Card, bits: seq<bool>, start: nat, run: seq<nat>, cur: nat)
    requires Walking(card, bits, start, run) && cur == After(card, start, run) && Readable(card, ClearAll(bits, run), cur)
    ensures Walking(card, bits, start, run + [cur]) && After(card, start, run + [cur]) == PrevOf(card, cur)
    ensures ClearAll(bits, run)[MessageDataSector(cur) := false] == ClearAll(bits, run + [cur])
  {
    ClearedUse(bits, run, cur);
    ClearNext(bits, run, cur);
    hide ClearAll, InUse;
    var longer := run + [cur];
    forall i | 0 <= i < |longer|
      ensures Readable(card, bits, longer[i]) && longer[i] == After(card, start, longer[..i])
    {
      assert longer[..i] == run[..i];
    }
  }

  lemma WalkOver(card: Card, bits: seq<bool>, start: nat, run: seq<nat>)
    requires Walking(card, bits, start, run)
    requires var cur := After(card, start, run); cur == NIL || !Readable(card, ClearAll(bits, run), cur)
    ensures OrphanRun(card, bits, start, run)
  {
  }

  lemma NoWalk(card: Card, bits: seq<bool>, start: nat)
    ensures Walking(card, bits, start, []) && After(card, start, []) == start && ClearAll(bits, []) == bits
  {
  }

  /** A readable sector in use is the first of the walk from there. */
  lemma RunStarts(card: Card, bits: seq<bool>, start: nat, run: seq<nat>)
    requires OrphanRun(card, bits, start, run) && Readable(card, bits, start)
    ensures start in run
  {
    if run != [] { assert run[0] == After(card, start, run[..0]); }
  }

  lemma RunUse(card: Card, bits: seq<bool>, start: nat, run: seq<nat>)
    requires OrphanRun(card, bits, start, run)
    ensures forall m :: 0 <= m < MESSAGE_SECTORS ==> (InUse(ClearAll(bits, run), m) <==> InUse(bits, m) && m !in run)
    ensures Readable(card, bits, start) ==> start in run
  {
    if Readable(card, bits, start) { RunStarts(card, bits, start, run); }
  }

  // ----- what the removals of a scan add up to -----

  /** A sector of a contact's. */
  predicate Ours(card: Card, bits: seq<bool>, contacts: set<nat>, m: nat) {
    Readable(card, bits, m) && SectorOf(card, m).contactIndex in contacts
  }

  /** The newest sector of a chat without a contact. */
  predicate OrphanHead(card: Card, bits: seq<bool>, contacts: set<nat>, m: nat) {
    Readable(card, bits, m) && IsHead(bits, SectorOf(card, m)) && SectorOf(card, m).contactIndex !in contacts
  }

  /** What comes before a sector that has been taken out of use is not in use either. */
  ghost predicate Closed(card: Card, was: seq<bool>, now: seq<bool>) {
    && |was| == |now| == TOTAL_BITS
    && (forall m :: 0 <= m < MESSAGE_SECTORS && InUse(now, m) ==> InUse(was, m))
    && forall m :: 0 <= m < MESSAGE_SECTORS && InUse(was, m) && !InUse(now, m) ==>
         IsMessageSector(SectorOf(card, m)) && !Readable(card, now, PrevOf(card, m))
  }

  ghost predicate HeadsGone(card: Card, was: seq<bool>, now: seq<bool>, contacts: set<nat>, pos: nat) {
    forall m :: 0 <= m < pos && OrphanHead(card, was, contacts, m) ==> !InUse(now, m)
  }

  /** No link leads from a contact's chat forwards to an orphan. */
  ghost predicate OwnLinks(card: Card, bits: seq<bool>, contacts: set<nat>) {
    forall m :: 0 <= m < MESSAGE_SECTORS && Ours(card, bits, contacts, m) ==>
      !InUse(bits, SectorOf(card, m).next) || Ours(card, bits, contacts, SectorOf(card, m).next)
  }

  /** No link leads from a contact's chat forwards to an orphan, or from an orphan back into a
      contact's chat. */
  ghost predicate Separate(card: Card, bits: seq<bool>, contacts: set<nat>) {
    && OwnLinks(card, bits, contacts)
    && forall m :: 0 <= m < MESSAGE_SECTORS && Readable(card, bits, m) && !Ours(card, bits, contacts, m) ==>
         !Ours(card, bits, contacts, PrevOf(card, m))
  }

  ghost predicate OursKept(card: Card, was: seq<bool>, now: seq<bool>, contacts: set<nat>) {
    forall m :: 0 <= m < MESSAGE_SECTORS && Ours(card, was, contacts, m) ==> InUse(now, m)
  }

  /** What the scan has done below `pos`. */
  ghost predicate Cleaning(card: Card, was: seq<bool>, now: seq<bool>, contacts: set<nat>, pos: nat) {
    && Closed(card, was, now) && HeadsGone(card, was, now, contacts, pos)
    && (Separate(card, was, contacts) ==> OursKept(card, was, now, contacts))
  }

  lemma NothingCleaned(card: Card, bits: seq<bool>, contacts: set<nat>)
    requires |bits| == TOTAL_BITS
    ensures Cleaning(card, bits, bits, contacts, 0)
  {
  }

  /** Before a sector of the walk comes one of the walk, or one that cannot be removed. */
  lemma BeforeRun(card: Card, bits: seq<bool>, start: nat, run: seq<nat>, m: nat)
    requires OrphanRun(card, bits, start, run) && m in run
    ensures PrevOf(card, m) in run || !Readable(card, bits, PrevOf(card, m))
  {
    var i :| 0 <= i < |run| && run[i] == m;
    if i + 1 < |run| {
      assert run[i + 1] == After(card, start, run[..i + 1]) == PrevOf(card, m);
    }
  }

  lemma RunClosed(card: Card, was: seq<bool>, mid: seq<bool>, start: nat, run: seq<nat>)
    requires Closed(card, was, mid) && OrphanRun(card, mid, start, run)
    ensures Closed(card, was, ClearAll(mid, run))
  {
    var now := ClearAll(mid, run);
    forall m: nat | 0 <= m < MESSAGE_SECTORS
      ensures (InUse(now, m) <==> InUse(mid, m) && m !in run) && (InUse(now, m) ==> InUse(was, m))
      ensures InUse(mid, m) && !InUse(now, m) ==> IsMessageSector(SectorOf(card, m)) && !Readable(card, now, PrevOf(card, m))
    {
      ClearedUse(mid, run, m);
      if m in run {
        BeforeRun(card, mid, start, run, m);
        ClearedUse(mid, run, PrevOf(card, m));
      }
    }
    hide ClearAll;
  }

  /** A walk that starts on an orphan meets no contact's sectors. */
  lemma {:induction false} RunApart(card: Card, was: seq<bool>, mid: seq<bool>, contacts: set<nat>, start: nat, run: seq<nat>, i: nat)
    requires Closed(card, was, mid) && Separate(card, was, contacts) && OrphanRun(card, mid, start, run) && i < |run|
    requires InUse(was, start) && !Ours(card, was, contacts, start)
    ensures !Ours(card, was, contacts, run[i])
  {
    assert run[i] == After(card, start, run[..i]);
    if i > 0 {
      RunApart(card, was, mid, contacts, start, run, i - 1);
      assert Readable(card, was, run[i - 1]);
      assert run[..i][|run[..i]| - 1] == run[i - 1];
    }
  }

  lemma RunKeeps(card: Card, was: seq<bool>, mid: seq<bool>, contacts: set<nat>, start: nat, run: seq<nat>)
    requires Closed(card, was, mid) && Separate(card, was, contacts) && OrphanRun(card, mid, start, run)
    requires InUse(was, start) && !Ours(card, was, contacts, start) && OursKept(card, was, mid, contacts)
    ensures OursKept(card, was, ClearAll(mid, run), contacts)
  {
    forall m | 0 <= m < MESSAGE_SECTORS && Ours(card, was, contacts, m)
      ensures m !in run
    {
      if m in run {
        var i :| 0 <= i < |run| && run[i] == m;
        RunApart(card, was, mid, contacts, start, run, i);
      }
    }
  }

  lemma HeadStill(card: Card, was: seq<bool>, now: seq<bool>, m: nat)
    requires Closed(card, was, now) && m < MESSAGE_SECTORS && InUse(now, m) && SectorOf(card, m).MessageSector?
    ensures IsHead(was, SectorOf(card, m)) ==> IsHead(now, SectorOf(card, m))
  {
  }

  /** The scan passes a sector that is not in use, or is no orphaned head. */
  lemma CleaningPass(card: Card, was: seq<bool>, now: seq<bool>, contacts: set<nat>, m: nat)
    requires Cleaning(card, was, now, contacts, m) && m < MESSAGE_SECTORS && !OrphanHead(card, now, contacts, m)
    ensures Cleaning(card, was, now, contacts, m + 1)
  {
    if InUse(now, m) && SectorOf(card, m).MessageSector? { HeadStill(card, was, now, m); }
    hide Separate, OursKept, Closed;
  }

  /** The scan removes an orphaned chat. */
  lemma CleaningRun(card: Card, was: seq<bool>, mid: seq<bool>, contacts: set<nat>, m: nat, run: seq<nat>)
    requires Cleaning(card, was, mid, contacts, m) && m < MESSAGE_SECTORS && OrphanHead(card, mid, contacts, m) && OrphanRun(card, mid, m, run)
    ensures Cleaning(card, was, ClearAll(mid, run), contacts, m + 1)
  {
    RunClosed(card, was, mid, m, run);
    if Separate(card, was, contacts) { RunKeeps(card, was, mid, contacts, m, run); }
    RunStarts(card, mid, m, run);
    hide Separate, OursKept, Closed, OrphanRun;
  }

  /** With the links apart, a contact's heads are the same before and during the scan. */
  lemma HeadsSame(card: Card, was: seq<bool>, now: seq<bool>, contacts: set<nat>, slot: nat, m: nat)
    requires Closed(card, was, now) && Separate(card, was, contacts) && OursKept(card, was, now, contacts) && slot in contacts
    ensures HeadOf(card, now, slot, m) <==> HeadOf(card, was, slot, m)
  {
    if InUse(was, m) && IsMessageSector(SectorOf(card, m)) && SectorOf(card, m).contactIndex == slot {
      assert Ours(card, was, contacts, m);
      var next := SectorOf(card, m).next;
      assert InUse(was, next) ==> Ours(card, was, contacts, next);
    }
  }

  lemma {:induction false} NewestSame(card: Card, was: seq<bool>, now: seq<bool>, contacts: set<nat>, slot: nat, pos: nat)
    requires Closed(card, was, now) && Separate(card, was, contacts) && OursKept(card, was, now, contacts) && slot in contacts
    ensures NewestHead(card, now, slot, pos) == NewestHead(card, was, slot, pos)
  {
    if pos > 0 {
      NewestSame(card, was, now, contacts, slot, pos - 1);
      HeadsSame(card, was, now, contacts, slot, pos - 1);
    }
    hide Closed, Separate, OursKept, HeadOf;
  }

  // ----- chats, and orphaned chats beside them -----

  /** A chat without a contact, oldest sector first. */
  ghost predicate OrphanChat(card: Card, bits: seq<bool>, contacts: set<nat>, chain: seq<nat>) {
    && chain != []
    && (forall i :: 0 <= i < |chain| ==> Readable(card, bits, chain[i]) && SectorOf(card, chain[i]).contactIndex !in contacts)
    && (forall i :: 0 < i < |chain| ==> PrevOf(card, chain[i]) == chain[i - 1])
    && IsHead(bits, SectorOf(card, chain[|chain| - 1]))
  }

  /** The oldest sector of the chat has no link into a contact's chat. */
  predicate Detached(card: Card, bits: seq<bool>, contacts: set<nat>, chain: seq<nat>) {
    chain == [] || !Ours(card, bits, contacts, PrevOf(card, chain[0]))
  }

  /** What is in use belongs to a contact or to an orphaned chat. */
  ghost predicate Beside(card: Card, bits: seq<bool>, contacts: set<nat>, orphans: seq<seq<nat>>) {
    && |bits| == TOTAL_BITS
    && (forall o <- orphans :: OrphanChat(card, bits, contacts, o))
    && (forall m :: 0 <= m < MESSAGE_SECTORS && InUse(bits, m) ==> IsMessageSector(SectorOf(card, m)))
    && (forall m :: 0 <= m < MESSAGE_SECTORS && InUse(bits, m) && !Ours(card, bits, contacts, m) ==> InSome(orphans, m))
  }

  ghost predicate InSome(orphans: seq<seq<nat>>, m: nat) { exists o :: o in orphans && m in o }

  lemma {:induction false} ChatGone(card: Card, was: seq<bool>, now: seq<bool>, contacts: set<nat>, chain: seq<nat>, i: nat)
    requires Closed(card, was, now) && HeadsGone(card, was, now, contacts, MESSAGE_SECTORS) && OrphanChat(card, was, contacts, chain) && i < |chain|
    ensures !InUse(now, chain[i])
    decreases |chain| - i
  {
    if i == |chain| - 1 {
      assert OrphanHead(card, was, contacts, chain[i]);
    } else {
      ChatGone(card, was, now, contacts, chain, i + 1);
      assert PrevOf(card, chain[i + 1]) == chain[i];
    }
  }

  lemma OrphanSectors(card: Card, bits: seq<bool>, contacts: set<nat>, orphans: seq<seq<nat>>)
    requires Beside(card, bits, contacts, orphans)
    ensures forall o, m :: o in orphans && m in o ==> m < MESSAGE_SECTORS && InUse(bits, m) && !Ours(card, bits, contacts, m)
  {
    forall o, m | o in orphans && m in o
      ensures m < MESSAGE_SECTORS && InUse(bits, m) && !Ours(card, bits, contacts, m)
    {
      assert OrphanChat(card, bits, contacts, o);
      var i :| 0 <= i < |o| && o[i] == m;
    }
  }

  lemma BesideSeparate(card: Card, bits: seq<bool>, contacts: set<nat>, orphans: seq<seq<nat>>)
    requires Beside(card, bits, contacts, orphans) && OwnLinks(card, bits, contacts)
    requires forall o <- orphans :: Detached(card, bits, contacts, o)
    ensures Separate(card, bits, contacts)
  {
    forall m | 0 <= m < MESSAGE_SECTORS && Readable(card, bits, m) && !Ours(card, bits, contacts, m)
      ensures !Ours(card, bits, contacts, PrevOf(card, m))
    {
      var o :| o in orphans && m in o;
      var i :| 0 <= i < |o| && o[i] == m;
      assert OrphanChat(card, bits, contacts, o) && Detached(card, bits, contacts, o);
      if i > 0 { assert PrevOf(card, o[i]) == o[i - 1]; }
    }
  }

  lemma OrphanGone(card: Card, was: seq<bool>, now: seq<bool>, contacts: set<nat>, orphans: seq<seq<nat>>, m: nat)
    requires Closed(card, was, now) && HeadsGone(card, was, now, contacts, MESSAGE_SECTORS) && Beside(card, was, contacts, orphans)
    requires m < MESSAGE_SECTORS && InUse(was, m) && !Ours(card, was, contacts, m)
    ensures !InUse(now, m)
  {
    var o :| o in orphans && m in o;
    var i :| 0 <= i < |o| && o[i] == m;
    hide Closed, HeadsGone, OrphanChat;
    ChatGone(card, was, now, contacts, o, i);
  }

  /** The removal follows a link from an orphaned chat into a contact's chat. */
  lemma LinkFollowed(card: Card, was: seq<bool>, now: seq<bool>, contacts: set<nat>, chain: seq<nat>)
    requires Closed(card, was, now) && HeadsGone(card, was, now, contacts, MESSAGE_SECTORS)
    requires OrphanChat(card, was, contacts, chain) && !Detached(card, was, contacts, chain)
    ensures !OursKept(card, was, now, contacts)
  {
    ChatGone(card, was, now, contacts, chain, 0);
    assert !Readable(card, now, PrevOf(card, chain[0]));
    assert !InUse(now, PrevOf(card, chain[0]));
  }

  /** A scan takes every orphaned chat out of use.  It keeps the contacts' chats exactly if no
      orphaned chat's oldest sector links back into one of them: the removal follows that link. */
  lemma OrphansEnd(card: Card, was: seq<bool>, now: seq<bool>, contacts: set<nat>, orphans: seq<seq<nat>>)
    requires Cleaning(card, was, now, contacts, MESSAGE_SECTORS) && Beside(card, was, contacts, orphans) && OwnLinks(card, was, contacts)
    ensures forall m :: 0 <= m < MESSAGE_SECTORS && InUse(was, m) && !Ours(card, was, contacts, m) ==> !InUse(now, m)
    ensures OursKept(card, was, now, contacts) <==> forall o <- orphans :: Detached(card, was, contacts, o)
  {
    assert forall o <- orphans :: OrphanChat(card, was, contacts, o);
    hide Closed, HeadsGone, OrphanChat, Beside, Detached, OursKept, Ours, InUse, OwnLinks;
    forall m | 0 <= m < MESSAGE_SECTORS && InUse(was, m) && !Ours(card, was, contacts, m)
      ensures !InUse(now, m)
    {
      OrphanGone(card, was, now, contacts, orphans, m);
    }
    if forall o <- orphans :: Detached(card, was, contacts, o) {
      BesideSeparate(card, was, contacts, orphans);
    } else {
      var o :| o in orphans && !Detached(card, was, contacts, o);
      LinkFollowed(card, was, now, contacts, o);
    }
  }
  // ----- the database's chats, and orphaned chats beside them -----

  /** The contacts' sectors make up these chats. */
  ghost predicate OwnChats(card: Card, bits: seq<bool>, contacts: set<nat>, chats: map<nat, seq<nat>>) {
    && chats.Keys <= contacts && (forall c <- chats :: ChatOk(card, bits, c, chats[c]))
    && forall m :: 0 <= m < MESSAGE_SECTORS && Ours(card, bits, contacts, m) ==>
         SectorOf(card, m).contactIndex in chats && m in chats[SectorOf(card, m).contactIndex]
  }

  lemma ChatLinks(card: Card, bits: seq<bool>, contacts: set<nat>, chats: map<nat, seq<nat>>)
    requires OwnChats(card, bits, contacts, chats)
    ensures OwnLinks(card, bits, contacts)
  {
    forall m | 0 <= m < MESSAGE_SECTORS && Ours(card, bits, contacts, m)
      ensures !InUse(bits, SectorOf(card, m).next) || Ours(card, bits, contacts, SectorOf(card, m).next)
    {
      var c := SectorOf(card, m).contactIndex;
      assert ChatOk(card, bits, c, chats[c]);
      NextInChat(card, bits, c, chats[c], m);
    }
  }

  lemma NextInChat(card: Card, bits: seq<bool>, contact: nat, chain: seq<nat>, m: nat)
    requires ChatOk(card, bits, contact, chain) && m in chain
    ensures IsMessageSector(SectorOf(card, m))
    ensures var next := SectorOf(card, m).next;
            next == NIL || (InUse(bits, next) && IsMessageSector(SectorOf(card, next)) && SectorOf(card, next).contactIndex == contact)
  {
    var i :| 0 <= i < |chain| && chain[i] == m;
    assert LinkOk(card, bits, contact, chain, i);
    if i + 1 < |chain| { assert LinkOk(card, bits, contact, chain, i + 1); }
  }

  lemma OwnInUse(card: Card, was: seq<bool>, now: seq<bool>, contacts: set<nat>, chats: map<nat, seq<nat>>, c: nat)
    requires OwnChats(card, was, contacts, chats) && OursKept(card, was, now, contacts) && c in chats
    ensures forall m <- chats[c] :: m < MESSAGE_SECTORS && InUse(now, m)
  {
    forall m | m in chats[c]
      ensures m < MESSAGE_SECTORS && InUse(now, m)
    {
      var i :| 0 <= i < |chats[c]| && chats[c][i] == m;
      assert LinkOk(card, was, c, chats[c], i);
      assert Ours(card, was, contacts, m);
    }
  }

  /** Once the orphans are gone and the contacts' sectors kept, what is left is the contacts' chats. */
  lemma ChatsLeft(card: Card, was: seq<bool>, nowCard: Card, now: seq<bool>, contacts: set<nat>, chats: map<nat, seq<nat>>)
    requires OwnChats(card, was, contacts, chats) && OursKept(card, was, now, contacts) && Closed(card, was, now)
    requires forall m :: 0 <= m < MESSAGE_SECTORS && InUse(was, m) && !Ours(card, was, contacts, m) ==> !InUse(now, m)
    requires forall m :: 0 <= m < MESSAGE_SECTORS ==> SectorOf(nowCard, m) == SectorOf(card, m)
    ensures ChatsOk(nowCard, now, chats)
    ensures forall c <- chats :: ChatMessages(nowCard, chats[c]) == ChatMessages(card, chats[c])
  {
    forall c | c in chats
      ensures ChatOk(nowCard, now, c, chats[c]) && ChatMessages(nowCard, chats[c]) == ChatMessages(card, chats[c])
    {
      OwnInUse(card, was, now, contacts, chats, c);
      ChatFrame(card, was, nowCard, now, c, chats[c]);
    }
    forall m | 0 <= m < MESSAGE_SECTORS && InUse(now, m)
      ensures Ours(card, was, contacts, m)
    {
      assert InUse(was, m);
    }
  }

  lemma {:induction false} HeadsFrame(card: Card, now: Card, bits: seq<bool>, s: nat, pos: nat)
    requires pos <= MESSAGE_SECTORS && forall m :: 0 <= m < MESSAGE_SECTORS && InUse(bits, m) ==> SectorOf(now, m) == SectorOf(card, m)
    ensures NewestHead(now, bits, s, pos) == NewestHead(card, bits, s, pos)
  {
    if pos > 0 { HeadsFrame(card, now, bits, s, pos - 1); }
  }
}
