/** The message history and the call history: rings of sectors, two respectively five entries to
    a sector, read newest first. */
module Histories {
  import opened Layout
  import opened StorageCard
  import opened JournalLog
  import opened UsageBitmaps
  import opened Journals
  import opened CrashSafety
  import opened Transactions
  import opened Backwards
  import opened Rings

  /** The sectors outside a ring are as they were. */
  predicate OutsideSame(card: Card, now: Card, start: nat, size: nat) {
    forall a :: DATA_START <= a < CARD_SECTORS && !(RawData(start) <= a < RawData(start + size)) ==> now[a] == card[a]
  }

  lemma OutsideTwice(card: Card, mid: Card, now: Card, start: nat, size: nat)
    requires OutsideSame(card, mid, start, size) && OutsideSame(mid, now, start, size)
    ensures OutsideSame(card, now, start, size)
  {
  }

  class History {
    const storage: Storage
    const journal: Journal
    const bitmap: UsageBitmap
    const kind: SectorKind
    const start: nat
    const size: nat
    const capacity: nat
    var seqno: nat
    var currentIndex: nat
    var occupancy: nat
    // everything ever added, by page, and the number of the page at index 0
    ghost var pages: seq<Entries>
    ghost var lap: nat

    ghost predicate Shape() {
      && journal.storage == storage && IsHistory(kind)
      && MESSAGE_HISTORY_START <= start && start + size <= DATA_SECTORS && 0 < size <= NIL && 0 < capacity <= 0xFF
    }

    constructor (storage: Storage, journal: Journal, bitmap: UsageBitmap, kind: SectorKind)
      requires journal.storage == storage && IsHistory(kind)
      ensures Shape() && this.storage == storage && this.journal == journal && this.bitmap == bitmap && this.kind == kind
      ensures start == if kind == MessageHistoryKind then MESSAGE_HISTORY_START else CALL_HISTORY_START
      ensures capacity == if kind == MessageHistoryKind then MESSAGE_HISTORY_CAPACITY else CALL_HISTORY_CAPACITY
      ensures size == if kind == MessageHistoryKind then MESSAGE_HISTORY_SECTORS else CALL_HISTORY_SECTORS
    {
      this.storage, this.journal, this.bitmap, this.kind := storage, journal, bitmap, kind;
      start := if kind == MessageHistoryKind then MESSAGE_HISTORY_START else CALL_HISTORY_START;
      capacity := if kind == MessageHistoryKind then MESSAGE_HISTORY_CAPACITY else CALL_HISTORY_CAPACITY;
      size := if kind == MessageHistoryKind then MESSAGE_HISTORY_SECTORS else CALL_HISTORY_SECTORS;
      seqno, currentIndex, occupancy, pages, lap := 0, 0, 0, [], 0;
    }

    /** The fields in RAM point at the newest page. */
    ghost predicate Points()
      reads this
    {
      occupancy == Occupied(size, lap, currentIndex) && seqno == (lap + currentIndex) % SEQ_RANGE
    }

    /** Between operations. */
    ghost predicate Valid()
      reads this, storage
    {
      && Shape()
      && if pages == [] then RingBlank(storage.sectors, start, size, capacity) && occupancy == seqno == currentIndex == lap == 0
         else Points() && RingOk(storage.sectors, start, size, capacity, pages, lap, currentIndex)
    }

    /** About to start a page. */
    ghost predicate Turning()
      reads this, storage
    {
      Shape() && Points() && RingTurning(storage.sectors, start, size, capacity, pages, lap, currentIndex)
    }

    /** What can be read, oldest first. */
    ghost function Log(): Entries
      reads this
    {
      if pages == [] then [] else Retained(size, pages, lap, currentIndex)
    }

    lemma BlankTurning()
      requires Shape() && RingBlank(storage.sectors, start, size, capacity)
      ensures RingTurning(storage.sectors, start, size, capacity, [], 0, 0)
    {
      forall p | 0 < p < size
        ensures LastLap(storage.sectors, start, size, capacity, [], 0, p)
      {
      }
    }

    /** Rewrites the sector at the current index, in a transaction of its own. */
    method Put(was: Sector, s: Sector)
      requires Shape() && Ready(storage, journal, bitmap) && currentIndex < size
      requires was == RingAt(storage.sectors, start, currentIndex) && was.RingSector?
      modifies storage, journal, bitmap, bitmap.words
      ensures Ready(storage, journal, bitmap)
      ensures OnlyRingSector(old(storage.sectors), storage.sectors, start, size, currentIndex)
      ensures RingAt(storage.sectors, start, currentIndex) == s
      ensures OutsideSame(old(storage.sectors), storage.sectors, start, size) && bitmap.bits == old(bitmap.bits)
      ensures |journal.done| == |old(journal.done)| + 1 && journal.cards == old(journal.cards) + [storage.sectors]
    {
      assert Clean(storage.sectors) && BitmapOnCard(storage.sectors, bitmap.bits);
      hide Ready, Clean, BitmapOnCard;
      Transact(storage, journal, bitmap, kind, start + currentIndex, was, None, Some(s), false);
    }

    /** Moves on from a page that has been filled. */
    method MoveNext()
      requires Shape() && occupancy <= size && currentIndex < size
      modifies this`occupancy, this`currentIndex, this`seqno
      ensures occupancy == if old(occupancy) < size then old(occupancy) + 1 else size
      ensures currentIndex == if old(currentIndex) + 1 < occupancy then old(currentIndex) + 1 else 0
      ensures seqno == (old(seqno) + 1) % SEQ_RANGE
    {
      if occupancy < size {
        occupancy := occupancy + 1;
      }
      if currentIndex + 1 < occupancy {
        currentIndex := currentIndex + 1;
      } else {
        currentIndex := 0;
      }
      seqno := (seqno + 1) % SEQ_RANGE;
    }

    /** The sector that an addition starts from. */
    lemma Current(turning: bool)
      requires if turning then Turning() else Valid()
      ensures Shape() && currentIndex < size
      ensures var s := storage.sectors[RawData(start + currentIndex)];
        && s == RingAt(storage.sectors, start, currentIndex) && RingSectorOk(s, capacity)
        && if !turning && pages != [] then
             && s.fill == RingOccupied && lap + currentIndex == |pages| - 1 && s.head == |pages[lap + currentIndex]| - 1 < capacity
             && occupancy > 0
           else
             && s.fill != RingOccupied && RingTurning(storage.sectors, start, size, capacity, pages, lap, currentIndex)
             && seqno == (lap + currentIndex) % SEQ_RANGE
             && (if occupancy == 0 then 1 else occupancy) == Occupied(size, lap, currentIndex)
    {
      if !turning && pages == [] { BlankTurning(); }
    }

    method Advance()
      requires Shape() && Points() && Turned(size, pages, lap, currentIndex)
      requires currentIndex + 1 < size ==> RingTurning(storage.sectors, start, size, capacity, pages, lap, currentIndex + 1)
      requires currentIndex + 1 == size ==> RingTurning(storage.sectors, start, size, capacity, pages, lap + size, 0)
      modifies this`occupancy, this`currentIndex, this`seqno, this`lap
      ensures Turning() && pages == old(pages)
    {
      hide RingTurning, Turned;
      NextSeq(lap + currentIndex);
      TurnedSize(size, pages, lap, currentIndex);
      hide Occupied;
      MoveNext();
      if currentIndex == 0 {
        lap := lap + size;
      }
      assert Points() by { OccupiedIs(size, lap, currentIndex); }
    }

    lemma TurnedSize(size: nat, pages: seq<Entries>, lap: nat, cur: nat)
      requires Turned(size, pages, lap, cur)
      ensures cur < size && Occupied(size, lap, cur) <= size && (Occupied(size, lap, cur) < size ==> lap == 0 && Occupied(size, lap, cur) == cur + 1)
      ensures lap == 0 || Occupied(size, lap, cur) == size
    {
    }

    lemma OccupiedIs(size: nat, lap: nat, cur: nat)
      ensures Occupied(size, lap, cur) == if lap == 0 then cur + 1 else size
    {
    }

    lemma NextSeq(x: nat)
      ensures (x % SEQ_RANGE + 1) % SEQ_RANGE == (x + 1) % SEQ_RANGE
    {
    }

    /** Marks the current sector full and goes on in the next one. */
    method MarkFull(s: Sector, e: HistoryEntry) returns (ret: Ret, ghost mid: Card)
      requires Ready(storage, journal, bitmap) && Valid() && pages != []
      requires s == RingAt(storage.sectors, start, currentIndex) && s.RingSector? && s.head == capacity - 1
      modifies this`occupancy, this`currentIndex, this`seqno, this`pages, this`lap, storage, journal, bitmap, bitmap.words
      ensures ret == Ok && Ready(storage, journal, bitmap) && Valid()
      ensures pages != [] && Flatten(pages) == Flatten(old(pages)) + [e]
      ensures OutsideSame(old(storage.sectors), storage.sectors, start, size) && bitmap.bits == old(bitmap.bits)
      ensures |journal.done| == |old(journal.done)| + 2 && journal.cards == old(journal.cards) + [mid] + [storage.sectors]
      ensures RingMarked(mid, start, size, capacity, old(pages), old(lap), old(currentIndex))
      decreases 1
    {
      hide Ready, RingOk, RingTurning, RingBlank, RingMarked, OutsideSame, OnlyRingSector, Flatten, PagesOk, Turning, Turned;
      Current(false);
      Put(s, s.(fill := RingFull));
      Turns(old(storage.sectors), storage.sectors, start, size, capacity, pages, lap, currentIndex);
      OkTurned(old(storage.sectors), start, size, capacity, pages, lap, currentIndex);
      Marks(old(storage.sectors), storage.sectors, start, size, capacity, pages, lap, currentIndex);
      Advance();
      mid := storage.sectors;
      ghost var again;
      ret, again := Add(e, true);
      OutsideTwice(old(storage.sectors), mid, storage.sectors, start, size);
    }

    /** The newest page is full: the next addition turns to another. */
    ghost predicate FullPage()
      reads this
    {
      pages != [] && |pages[|pages| - 1]| == capacity
    }

    /** Adds an entry.  A full page is marked in one transaction and the entry starts the next
        page in another: `turning` says that this is that second call, so there is no third. */
    method Add(e: HistoryEntry, ghost turning: bool) returns (ret: Ret, ghost mid: Card)
      requires Ready(storage, journal, bitmap) && if turning then Turning() else Valid()
      modifies this`occupancy, this`currentIndex, this`seqno, this`pages, this`lap, storage, journal, bitmap, bitmap.words
      ensures ret == Ok && Ready(storage, journal, bitmap) && Valid()
      ensures pages != [] && Flatten(pages) == Flatten(old(pages)) + [e]
      ensures OutsideSame(old(storage.sectors), storage.sectors, start, size) && bitmap.bits == old(bitmap.bits)
      ensures |journal.done| == |old(journal.done)| + if !turning && old(FullPage()) then 2 else 1
      ensures if !turning && old(FullPage()) then
                && journal.cards == old(journal.cards) + [mid] + [storage.sectors]
                && RingMarked(mid, start, size, capacity, old(pages), old(lap), old(currentIndex))
              else journal.cards == old(journal.cards) + [storage.sectors]
      decreases if turning then 0 else 2
    {
      hide Ready, RingOk, RingTurning, RingBlank, RingMarked, OutsideSame, OnlyRingSector, Flatten, PagesOk, Turned, Turning, NextEntry;
      Current(turning);
      mid := storage.sectors;
      if occupancy == 0 {
        occupancy := 1;
      }
      var s := storage.sectors[RawData(start + currentIndex)];
      if s.fill == RingOccupied {
        if s.head == capacity - 1 {
          ret, mid := MarkFull(s, e);
        } else {
          ret := Append(s, e);
        }
      } else {
        ret := Begin(s, e);
      }
    }

    /** Adds an entry to the newest page. */
    method Append(s: Sector, e: HistoryEntry) returns (ret: Ret)
      requires Ready(storage, journal, bitmap) && Valid() && pages != [] && !FullPage()
      requires s == RingAt(storage.sectors, start, currentIndex)
      modifies this`pages, storage, journal, bitmap, bitmap.words
      ensures ret == Ok && Ready(storage, journal, bitmap) && Valid()
      ensures pages != [] && Flatten(pages) == Flatten(old(pages)) + [e]
      ensures OutsideSame(old(storage.sectors), storage.sectors, start, size) && bitmap.bits == old(bitmap.bits)
      ensures |journal.done| == |old(journal.done)| + 1 && journal.cards == old(journal.cards) + [storage.sectors]
    {
      hide Ready, RingOk, RingTurning, RingBlank, OutsideSame, OnlyRingSector, Flatten, PagesOk, Turned, NextEntry;
      Current(false);
      Put(s, NextEntry(s, e));
      AddsNext(old(storage.sectors), storage.sectors, start, size, capacity, pages, lap, currentIndex, e);
      pages := pages[..lap + currentIndex] + [pages[lap + currentIndex] + [e]];
      ret := Ok;
    }

    /** Starts a page. */
    method Begin(s: Sector, e: HistoryEntry) returns (ret: Ret)
      requires Ready(storage, journal, bitmap) && Shape() && Points()
      requires RingTurning(storage.sectors, start, size, capacity, pages, lap, currentIndex)
      requires currentIndex < size && s == RingAt(storage.sectors, start, currentIndex) && RingSectorOk(s, capacity)
      modifies this`pages, storage, journal, bitmap, bitmap.words
      ensures ret == Ok && Ready(storage, journal, bitmap) && Valid()
      ensures pages != [] && Flatten(pages) == Flatten(old(pages)) + [e]
      ensures OutsideSame(old(storage.sectors), storage.sectors, start, size) && bitmap.bits == old(bitmap.bits)
      ensures |journal.done| == |old(journal.done)| + 1 && journal.cards == old(journal.cards) + [storage.sectors]
    {
      hide Ready, RingOk, RingTurning, RingBlank, OutsideSame, OnlyRingSector, Flatten, PagesOk, Turned;
      Put(s, FirstEntry(s, seqno, e));
      AddsFirst(old(storage.sectors), storage.sectors, start, size, capacity, pages, lap, currentIndex, e);
      pages := pages + [[e]];
      ret := Ok;
    }

    // ----- after a restart -----

    /** Reads the sector at index `p`; fails if its CRC does not match. */
    method SeqAndStateAt(p: nat) returns (ok: bool, seq_: nat, fill: RingState)
      requires Shape() && p < size
      ensures var s := RingAt(storage.sectors, start, p);
              ok == s.RingSector? && (ok ==> seq_ == s.seqno && fill == s.fill)
    {
      var s := storage.sectors[RawData(start + p)];
      if !s.RingSector? {
        return false, 0, RingEmpty;
      }
      return true, s.seqno, s.fill;
    }

    /** Finds the newest page by binary search over the sequence numbers. */
    method BinarySearchHead(ghost turn: nat, ghost cur: nat) returns (ret: Ret, head: nat, number: nat)
      requires Shape()
      ensures ret in {Ok, Empty, Fail} && head < size
      ensures RingBlank(storage.sectors, start, size, capacity) ==> ret == Empty
      ensures Numbered(storage.sectors, start, size, turn, cur) ==>
        ret == Ok && head == cur && number == (turn + cur) % SEQ_RANGE
    {
      hide Numbered, RingBlank;
      ghost var card := storage.sectors;
      ghost var good := Numbered(card, start, size, turn, cur);
      NumberedEnds(card, start, size, capacity, turn, cur);
      var lo, hi, mid := 0, size, size / 2;
      var ok, first, fill := SeqAndStateAt(0);
      if !ok {
        return Fail, 0, 0;
      }
      if fill == RingEmpty {
        return Empty, 0, 0;
      }
      while hi - lo > 1
        invariant 0 <= lo < hi <= size && mid == lo + (hi - lo) / 2
        invariant good ==> lo <= cur < hi
      {
        if good { SearchStep(card, start, size, turn, cur, mid); }
        var seqI;
        ok, seqI, fill := SeqAndStateAt(mid);
        if !ok {
          return Fail, lo, 0;
        }
        if fill != RingEmpty && (seqI - first) % SEQ_RANGE == mid {
          lo := mid;
        } else {
          hi := mid;
        }
        mid := lo + (hi - lo) / 2;
      }
      ok, number, fill := SeqAndStateAt(lo);
      if !ok {
        return Fail, lo, 0;
      }
      return Ok, lo, number;
    }

    /** Restores the fields in RAM from the card: exactly what they were. */
    method Reconstruct(ghost all: seq<Entries>, ghost turn: nat, ghost cur: nat) returns (ok: bool)
      requires Shape()
      modifies this`occupancy, this`currentIndex, this`seqno, this`pages, this`lap
      ensures RingBlank(storage.sectors, start, size, capacity) && all == [] ==> ok && Valid() && pages == []
      ensures RingOk(storage.sectors, start, size, capacity, all, turn, cur) ==>
        ok && Valid() && pages == all && lap == turn && currentIndex == cur
      ensures RingMarked(storage.sectors, start, size, capacity, all, turn, cur) ==>
        ok && Points() && lap == turn && currentIndex == cur
    {
      hide RingBlank, RingOk, RingMarked, Numbered;
      ghost var card := storage.sectors;
      if RingOk(card, start, size, capacity, all, turn, cur) || RingMarked(card, start, size, capacity, all, turn, cur) {
        OkNumbered(card, start, size, capacity, all, turn, cur);
      }
      NumberedEnds(card, start, size, capacity, turn, cur);
      if RingOk(card, start, size, capacity, all, turn, cur) { OkSome(card, start, size, capacity, all, turn, cur); }
      pages, lap := all, turn;
      var ret, head, number := BinarySearchHead(turn, cur);
      if ret == Empty {
        currentIndex, seqno, occupancy := 0, 0, 0;
        lap := 0;
        return true;
      }
      if ret == Fail {
        return false;
      }
      seqno, currentIndex := number, head;
      if head == size - 1 {
        occupancy := size;
        return true;
      }
      var read, next, fill := SeqAndStateAt(head + 1);
      if !read {
        return false;
      }
      occupancy := if fill == RingEmpty then head + 1 else size;
      return true;
    }

    /** What a power cut between the two transactions of a roll-over costs: the sector at the
        newest index is marked full, and the first addition after the restart takes it for an old
        one and writes over it.  The page it held is lost. */
    method AddAfterHalfTurn(e: HistoryEntry, ghost all: seq<Entries>, ghost turn: nat, ghost cur: nat) returns (ok: bool)
      requires Shape() && Ready(storage, journal, bitmap)
      requires RingMarked(storage.sectors, start, size, capacity, all, turn, cur)
      modifies this`occupancy, this`currentIndex, this`seqno, this`pages, this`lap, storage, journal, bitmap, bitmap.words
      ensures ok && Valid() && all != [] && Flatten(pages) == Flatten(all[..|all| - 1]) + [e]
    {
      hide Ready, RingMarked, RingTurning, RingOk, RingBlank, Flatten;
      MarkedTurning(storage.sectors, start, size, capacity, all, turn, cur);
      ok := Reconstruct(all, turn, cur);
      pages := all[..|all| - 1];
      var ret;
      ghost var mid;
      ret, mid := Add(e, true);
    }

    // ----- reading -----

    /** Copies a sector's entries from slot `top` down, unless the sector is empty. */
    method ReadSector(p: nat, top: nat, n: nat, out: Entries) returns (ret: Ret, more: Entries)
      requires Shape() && p < size && top < capacity && |out| <= n
      requires RingAt(storage.sectors, start, p).RingSector? ==> |RingAt(storage.sectors, start, p).entries| == capacity
      ensures |more| <= n && (RingAt(storage.sectors, start, p).RingSector? ==> ret == Ok)
      ensures var s := RingAt(storage.sectors, start, p);
        s.RingSector? && s.fill != RingEmpty ==>
          && ret == Ok && out <= more && |more| == (if |out| + top + 1 < n then |out| + top + 1 else n)
          && forall j :: |out| <= j < |more| ==> more[j] == s.entries[top - (j - |out|)]
    {
      var s := storage.sectors[RawData(start + p)];
      if !s.RingSector? {
        return Fail, out;
      }
      if s.fill == RingEmpty {
        return Ok, out;
      }
      more := CopyDown(s.entries, top, n, out);
      ret := Ok;
    }

    lemma SectorsShaped()
      requires Valid()
      ensures forall p :: 0 <= p < size ==> RingSectorOk(RingAt(storage.sectors, start, p), capacity)
    {
      if pages != [] {
        forall p | 0 <= p < size
          ensures RingSectorOk(RingAt(storage.sectors, start, p), capacity)
        {
          if p < currentIndex {
            assert ThisLap(storage.sectors, start, capacity, pages, lap, p, false);
          } else if p > currentIndex {
            assert LastLap(storage.sectors, start, size, capacity, pages, lap, p);
          }
        }
      }
    }

    /** One more page, read from slot `top`. */
    method ReadPage(p: nat, top: nat, n: nat, out: Entries, ghost first: nat, ghost back: int) returns (ret: Ret, more: Entries)
      requires Valid() && p < size && top < capacity && |out| <= n
      ensures |more| <= n && ret == Ok
      ensures pages != [] && 0 <= back < Occupied(size, lap, currentIndex) && p == IndexBack(size, lap, currentIndex, back)
              && back < |pages| && top < |pages[|pages| - 1 - back]| && ReadsBack(Flatten(pages), first, out)
              && |Flatten(pages)| - 1 - first - |out| == (|pages| - 1 - back) * capacity + top ==>
        ret == Ok && Reading(pages, capacity, first, n, more, back + 1)
    {
      hide RingOk, RingBlank, ReadsBack, Reading, PagesOk;
      SectorsShaped();
      ret, more := ReadSector(p, top, n, out);
      if pages != [] && 0 <= back < Occupied(size, lap, currentIndex) && p == IndexBack(size, lap, currentIndex, back)
         && back < |pages| && top < |pages[|pages| - 1 - back]| && ReadsBack(Flatten(pages), first, out)
         && |Flatten(pages)| - 1 - first - |out| == (|pages| - 1 - back) * capacity + top {
        PageBack(storage.sectors, start, size, capacity, pages, lap, currentIndex, back);
        OkPages(storage.sectors, start, size, capacity, pages, lap, currentIndex);
        ReadsPage(pages, capacity, first, n, out, more, back, RingAt(storage.sectors, start, p).entries, top);
      }
    }

    /** How many entries the newest page has. */
    ghost function Count(): nat
      reads this
    {
      if pages == [] then 0 else |pages[|pages| - 1]|
    }

    /** Where reading starts is computed in 32-bit signed arithmetic: with enough entries to skip,
        the number of sectors to skip comes out wrong. */
    ghost predicate SkipFits(first: nat)
      reads this
    {
      capacity > 0 && Skip(Count(), capacity, first) < 0x8000_0000
    }

    /** How many sectors to skip, and the slot to start at. */
    method Locate(head: nat, first: nat) returns (skip: int, slot: nat)
      requires 0 <= head < capacity
      ensures slot < capacity && slot == StartSlot(head + 1, capacity, first)
      ensures skip == ToInt32(Skip(head + 1, capacity, first))
      ensures Skip(head + 1, capacity, first) < 0x8000_0000 ==> skip == Skip(head + 1, capacity, first)
    {
      var count := head + 1;
      if first < count {
        skip, slot := 0, head - first;
      } else {
        var rem := first - count;
        skip := ToInt32(1 + rem / capacity);
        slot := capacity - 1 - rem % capacity;
      }
    }

    /** The sector that reading starts at when `skip` sectors are to be skipped, as a 16-bit index. */
    ghost function StartIndex(skip: int): int
      reads this
    {
      var index := currentIndex - skip;
      (if index < 0 then occupancy + index else index) % 0x1_0000
    }

    /** The skip count is taken for one past the oldest sector, or leads outside the ring. */
    ghost predicate Refused(first: nat)
      reads this
    {
      capacity > 0 && var skip := ToInt32(Skip(Count(), capacity, first)); skip >= occupancy || StartIndex(skip) >= occupancy
    }

    /** Reads at most `n` entries, newest first, from the one `first` places back.  It does so
        exactly if the number of sectors to skip fits, or is refused although it has wrapped
        around; otherwise it reports success for a start past the end. */
    method GetRange(first: nat, n: nat) returns (ret: Ret, out: Entries)
      requires Valid()
      ensures |out| <= n
      ensures pages == [] ==> ret == Ok && out == []
      ensures pages != [] ==> (IsRange(Log(), first, n, ret, out) <==> SkipFits(first) || Refused(first))
      ensures pages != [] && !SkipFits(first) ==> if Refused(first) then ret == Fail && out == [] else ret == Ok
    {
      hide Valid, RingOk, RingBlank, IsRange, SkipFits, Refused;
      NewestSector();
      var s := storage.sectors[RawData(start + currentIndex)];
      if s.fill == RingEmpty {
        return Ok, [];
      }
      ret, out := GetFrom(s.head, first, n);
    }

    method GetFrom(head: nat, first: nat, n: nat) returns (ret: Ret, out: Entries)
      requires Valid() && pages != [] && head + 1 == Count() <= capacity
      ensures |out| <= n
      ensures IsRange(Log(), first, n, ret, out) <==> SkipFits(first) || Refused(first)
      ensures !SkipFits(first) ==> if Refused(first) then ret == Fail && out == [] else ret == Ok
    {
      hide Valid, RingOk, RingBlank, Log, Retained, IsRange, Skip, StartSlot, Count;
      var skip, slot := Locate(head, first);
      if !SkipFits(first) { WrappedStart(first); }
      RefusedPast(first);
      RangeKinds(Log(), first, n);
      if skip >= occupancy {
        return Fail, [];
      }
      var index := currentIndex - skip;
      if index < 0 {
        index := occupancy + index;
      }
      if SkipFits(first) { StartsThere(first, skip, slot); }
      ret, out := ReadRange(index % 0x1_0000, slot, skip, first, n);
    }

    /** A skip count that is not too large is one past the oldest sector exactly for a start past
        the end. */
    lemma RefusedPast(first: nat)
      requires Valid() && pages != []
      ensures capacity > 0 && (Skip(Count(), capacity, first) >= occupancy <==> first >= |Log()|)
    {
      NewestSector();
      AllOccupied();
      PastRetained(pages, capacity, size, lap, currentIndex, first);
    }

    lemma StartsThere(first: nat, skip: int, slot: nat)
      requires Valid() && pages != [] && capacity > 0 && skip == Skip(Count(), capacity, first) < occupancy
      requires slot == StartSlot(Count(), capacity, first)
      ensures StartIndex(skip) >= 0 && Starts(StartIndex(skip), slot, skip, first)
    {
      NewestSector();
      AllOccupied();
      BackInRange(skip);
    }

    /** A start whose skip count wraps around is far past the end. */
    lemma WrappedStart(first: nat)
      requires Valid() && pages != [] && !SkipFits(first)
      ensures first >= |Log()|
    {
      NewestSector();
      AllOccupied();
      PastRetained(pages, capacity, size, lap, currentIndex, first);
    }

    /** Where the C type of a start has 32 bits, the skip count fits, except for the very last
        start from a page of one entry in a ring of two to a page. */
    lemma FitsIn32(first: nat)
      requires Valid() && pages != [] && capacity >= 2 && first < 0x1_0000_0000
      ensures SkipFits(first) <==> !(first == 0xFFFF_FFFF && capacity == 2 && Count() == 1)
    {
      NewestSector();
      if first >= Count() {
        QuotientBound(first - Count(), capacity, 0x7FFF_FFFF);
        QuotientBound(first - Count(), 2, 0x7FFF_FFFF);
      }
    }

    /** With 64-bit starts, a start far past the end reads as the newest sector: the count of
        sectors to skip wraps around to zero. */
    method ReadWrapped(n: nat) returns (first: nat, ret: Ret, out: Entries)
      requires Valid() && pages != []
      ensures first >= |Log()| && ret == Ok && !IsRange(Log(), first, n, ret, out)
    {
      hide IsRange, Skip, Retained, RingOk;
      NewestSector();
      AllOccupied();
      var count := storage.sectors[RawData(start + currentIndex)].head + 1;
      first := count + (0x1_0000_0000 - 1) * capacity;
      SkipWraps(count, capacity);
      WrappedStart(first);
      ret, out := GetRange(first, n);
    }

    lemma NewestSector()
      requires Valid()
      ensures currentIndex < size
      ensures var s := RingAt(storage.sectors, start, currentIndex);
        && s == storage.sectors[RawData(start + currentIndex)] && s.RingSector?
        && (s.fill == RingEmpty <==> pages == [])
        && (pages != [] ==> s.head + 1 == Count() <= capacity && PagesOk(pages, capacity) && Turned(size, pages, lap, currentIndex))
    {
      if pages != [] { OkPages(storage.sectors, start, size, capacity, pages, lap, currentIndex); }
    }

    /** Reads on from slot `slot` of the sector at index `at`, wrapping around to the last
        occupied one, until `n` entries are read or every occupied sector has been visited. */
    method ReadRange(at: nat, slot: nat, skip: int, ghost first: nat, n: nat) returns (ret: Ret, out: Entries)
      requires Valid() && pages != [] && slot < capacity && skip < occupancy
      ensures |out| <= n && (if at < occupancy then ret == Ok else ret == Fail && out == [])
      ensures Starts(at, slot, skip, first) ==> IsRange(Log(), first, n, ret, out)
    {
      hide Valid, ReadsBack, Reading, PagesOk, Retained, Reversed, IsRange, Skip, StartSlot, Flatten, IndexBack;
      NewestSector();
      AllOccupied();
      PastRetained(pages, capacity, size, lap, currentIndex, first);
      var upper := occupancy - 1;
      if Starts(at, slot, skip, first) { BackInRange(skip); Begins(first, skip, slot); }
      if at > upper {
        return Fail, [];
      }
      ret, out := ReadPage(at, slot, n, [], first, skip);
      if ret == Ok {
        ret, out := ReadOlder(if at > 0 then at - 1 else upper, skip, out, first, n);
      }
    }

    ghost predicate Starts(at: nat, slot: nat, skip: int, first: nat)
      reads this
    {
      capacity > 0 && skip == Skip(Count(), capacity, first) && slot == StartSlot(Count(), capacity, first)
      && at == IndexBack(size, lap, currentIndex, skip)
    }

    method ReadOlder(at: nat, skip: int, soFar: Entries, ghost first: nat, n: nat) returns (ret: Ret, out: Entries)
      requires Valid() && pages != [] && skip < occupancy && |soFar| <= n && at < occupancy
      ensures |out| <= n && ret == Ok
      ensures skip >= 0 && Reading(pages, capacity, first, n, soFar, skip + 1) &&
              (skip + 1 < occupancy ==> at == IndexBack(size, lap, currentIndex, skip + 1)) && first < |Log()| ==>
        IsRange(Log(), first, n, ret, out)
    {
      hide Valid, ReadsBack, Reading, PagesOk, Retained, Reversed, IsRange, Flatten, IndexBack;
      NewestSector();
      AllOccupied();
      ghost var good := skip >= 0 && Reading(pages, capacity, first, n, soFar, skip + 1)
        && (skip + 1 < occupancy ==> at == IndexBack(size, lap, currentIndex, skip + 1)) && first < |Log()|;
      ret, out := Ok, soFar;
      var upper, index: nat, visited := occupancy - 1, at, 1;
      while |out| < n && visited < occupancy - skip
        invariant |out| <= n && 1 <= visited <= occupancy - skip
        invariant good ==> Reading(pages, capacity, first, n, out, skip + visited)
        invariant good && skip + visited < occupancy ==> index == IndexBack(size, lap, currentIndex, skip + visited)
        invariant ret == Ok && index <= upper
        decreases occupancy - skip - visited
      {
        if good { BackInRange(skip + visited); GoesOn(first, n, out, skip + visited); }
        if index > upper {
          return Fail, out;
        }
        ret, out := ReadPage(index, capacity - 1, n, out, first, skip + visited);
        if ret != Ok {
          return;
        }
        visited := visited + 1;
        index := if index > 0 then index - 1 else upper;
      }
      if good {
        ReadingDone(pages, capacity, size, lap, currentIndex, first, n, out, skip + visited);
        InRangeRead(Log(), first, n, out);
      }
    }

    lemma AllOccupied()
      requires Valid() && pages != []
      ensures occupancy == Occupied(size, lap, currentIndex) <= size && Log() == Retained(size, pages, lap, currentIndex)
    {
    }

    lemma BackInRange(back: int)
      requires Valid() && pages != [] && 0 <= back < occupancy
      ensures 0 <= IndexBack(size, lap, currentIndex, back) < occupancy <= size && occupancy == Occupied(size, lap, currentIndex) && back < |pages|
      ensures back + 1 < occupancy ==>
        var index := IndexBack(size, lap, currentIndex, back);
        IndexBack(size, lap, currentIndex, back + 1) == if index > 0 then index - 1 else occupancy - 1
    {
      NewestSector();
    }

    lemma Begins(first: nat, skip: int, slot: nat)
      requires Valid() && pages != [] && capacity > 0 && skip == Skip(Count(), capacity, first) && slot == StartSlot(Count(), capacity, first)
      ensures |Flatten(pages)| - 1 - first == (|pages| - 1 - skip) * capacity + slot
      ensures skip < |pages| ==> slot < |pages[|pages| - 1 - skip]|
      ensures skip < |pages| ==> ReadsBack(Flatten(pages), first, [])
    {
      NewestSector();
      StartPlace(pages, capacity, first);
      if skip < |pages| { Multiples(0, |pages| - 1 - skip, capacity); }
    }

    lemma GoesOn(first: nat, n: nat, out: Entries, back: int)
      requires Valid() && pages != [] && 0 < back < |pages| && |out| < n && Reading(pages, capacity, first, n, out, back)
      ensures |Flatten(pages)| - 1 - first - |out| == (|pages| - 1 - back) * capacity + (capacity - 1)
      ensures capacity - 1 < |pages[|pages| - 1 - back]| && ReadsBack(Flatten(pages), first, out)
    {
      NewestSector();
      assert (|pages| - back) * capacity == (|pages| - 1 - back) * capacity + capacity;
    }
  }

  /** What a range read of `all` gives: the slice of the entries read backwards, or a failure if
      it would start past the end. */
  ghost predicate IsRange(all: Entries, first: nat, n: nat, ret: Ret, out: Entries) {
    if first < |all| then ret == Ok && out == Reversed(all)[first..if first + n < |all| then first + n else |all|]
    else ret == Fail && out == []
  }

  lemma InRangeRead(all: Entries, first: nat, n: nat, out: Entries)
    requires first < |all| && out == Reversed(all)[first..if first + n < |all| then first + n else |all|]
    ensures IsRange(all, first, n, Ok, out)
  {
  }

  /** Conversion to a 32-bit signed integer. */
  function ToInt32(x: nat): int {
    var m := x % 0x1_0000_0000;
    if m < 0x8000_0000 then m else m - 0x1_0000_0000
  }

  lemma RangeKinds(all: Entries, first: nat, n: nat)
    ensures first >= |all| ==> forall ret, out :: IsRange(all, first, n, ret, out) <==> ret == Fail && out == []
  {
  }

  lemma SkipWraps(count: nat, capacity: nat)
    requires 0 < count <= capacity
    ensures var first := count + (0x1_0000_0000 - 1) * capacity;
            Skip(count, capacity, first) == 0x1_0000_0000 && ToInt32(Skip(count, capacity, first)) == 0
  {
    QuotientBound((0x1_0000_0000 - 1) * capacity, capacity, 0x1_0000_0000 - 1);
    QuotientBound((0x1_0000_0000 - 1) * capacity, capacity, 0x1_0000_0000);
  }
}
