/** What a history ring on the card holds: pages of entries, one to a sector, the newest pages
    of everything that was ever added. */
module Rings {
  import opened Layout
  import opened StorageCard
  import opened Backwards

  const SEQ_RANGE: nat := 0x1_0000_0000

  type Entries = seq<HistoryEntry>

  /** All entries, oldest first. */
  function Flatten(pages: seq<Entries>): Entries {
    if pages == [] then [] else Flatten(pages[..|pages| - 1]) + pages[|pages| - 1]
  }

  /** Every page is full, except that the last may be partly filled. */
  ghost predicate PagesOk(pages: seq<Entries>, capacity: nat) {
    forall i :: 0 <= i < |pages| ==> 0 < |pages[i]| <= capacity && (i < |pages| - 1 ==> |pages[i]| == capacity)
  }

  predicate RingSectorOk(s: Sector, capacity: nat) {
    s.RingSector? && |s.entries| == capacity
  }

  /** The sector holds page `number`; sequence numbers are 32 bits wide and wrap around. */
  predicate HoldsPage(s: Sector, capacity: nat, number: int, page: Entries) {
    && RingSectorOk(s, capacity) && 0 < |page| <= capacity
    && s.seqno == number % SEQ_RANGE && s.head == |page| - 1 && s.entries[..|page|] == page
  }

  /** The ring's sectors, by index. */
  function RingAt(card: Card, start: nat, p: nat): Sector {
    if start + p < DATA_SECTORS then card[RawData(start + p)] else Garbage(0)
  }

  /** A ring whose newest page is page `lap + cur`, in the sector at index `cur`: the sectors up
      to there hold the pages of this lap, those behind it the pages of the lap before, or
      nothing if this is the first lap (`lap` is the number of the page at index 0). */
  ghost predicate RingOk(card: Card, start: nat, size: nat, capacity: nat, pages: seq<Entries>, lap: nat, cur: nat) {
    && Turned(size, pages, lap, cur) && PagesOk(pages, capacity)
    && (forall p :: 0 <= p < cur ==> ThisLap(card, start, capacity, pages, lap, p, false))
    && ThisLap(card, start, capacity, pages, lap, cur, true)
    && (forall p :: cur < p < size ==> LastLap(card, start, size, capacity, pages, lap, p))
  }

  predicate Turned(size: nat, pages: seq<Entries>, lap: nat, cur: nat) {
    && cur < size && |pages| == lap + cur + 1 && (lap == 0 || lap >= size)
  }

  predicate ThisLap(card: Card, start: nat, capacity: nat, pages: seq<Entries>, lap: nat, p: nat, newest: bool) {
    var s := RingAt(card, start, p);
    && lap + p < |pages| && HoldsPage(s, capacity, lap + p, pages[lap + p])
    && s.fill == if newest then RingOccupied else RingFull
  }

  predicate LastLap(card: Card, start: nat, size: nat, capacity: nat, pages: seq<Entries>, lap: nat, p: nat) {
    var s := RingAt(card, start, p);
    if lap == 0 then RingSectorOk(s, capacity) && s.fill == RingEmpty
    else 0 <= lap - size + p < |pages| && HoldsPage(s, capacity, lap - size + p, pages[lap - size + p]) && s.fill == RingFull
  }

  /** A ring about to start the page after `pages`, in the sector at index `cur`: that sector is
      empty, or holds a page that is given up. */
  ghost predicate RingTurning(card: Card, start: nat, size: nat, capacity: nat, pages: seq<Entries>, lap: nat, cur: nat) {
    && cur < size && |pages| == lap + cur && (lap == 0 || lap >= size)
    && (forall i :: 0 <= i < |pages| ==> |pages[i]| == capacity)
    && RingSectorOk(RingAt(card, start, cur), capacity) && RingAt(card, start, cur).fill != RingOccupied
    && (forall p :: 0 <= p < cur ==> ThisLap(card, start, capacity, pages, lap, p, false))
    && (forall p :: cur < p < size ==> LastLap(card, start, size, capacity, pages, lap, p))
  }

  /** Nothing has been added yet. */
  predicate RingBlank(card: Card, start: nat, size: nat, capacity: nat) {
    forall p :: 0 <= p < size ==> RingSectorOk(RingAt(card, start, p), capacity) && RingAt(card, start, p).fill == RingEmpty
  }

  /** How many sectors hold entries. */
  function Occupied(size: nat, lap: nat, cur: nat): nat {
    if lap == 0 then cur + 1 else size
  }

  /** What can still be read: the pages in the last `Occupied` sectors. */
  function Retained(size: nat, pages: seq<Entries>, lap: nat, cur: nat): Entries {
    if Occupied(size, lap, cur) <= |pages| then Flatten(pages[|pages| - Occupied(size, lap, cur)..]) else []
  }

  lemma FlattenLast(pages: seq<Entries>, page: Entries)
    ensures Flatten(pages + [page]) == Flatten(pages) + page
  {
    assert (pages + [page])[..|pages|] == pages;
  }

  // ----- adding -----

  /** Only the sector at index `cur` has changed. */
  predicate OnlyRingSector(card: Card, now: Card, start: nat, size: nat, cur: nat) {
    forall p :: 0 <= p < size && p != cur ==> RingAt(now, start, p) == RingAt(card, start, p)
  }

  function FirstEntry(s: Sector, number: int, e: HistoryEntry): Sector
    requires s.RingSector? && |s.entries| > 0
  {
    RingSector(number % SEQ_RANGE, 0, RingOccupied, s.entries[0 := e])
  }

  function NextEntry(s: Sector, e: HistoryEntry): Sector
    requires s.RingSector? && s.head + 1 < |s.entries|
  {
    s.(head := s.head + 1, entries := s.entries[s.head + 1 := e])
  }

  lemma AddsFirst(card: Card, now: Card, start: nat, size: nat, capacity: nat, pages: seq<Entries>, lap: nat, cur: nat, e: HistoryEntry)
    requires RingTurning(card, start, size, capacity, pages, lap, cur) && capacity > 0
    requires OnlyRingSector(card, now, start, size, cur) && RingAt(now, start, cur) == FirstEntry(RingAt(card, start, cur), lap + cur, e)
    ensures RingOk(now, start, size, capacity, pages + [[e]], lap, cur) && Flatten(pages + [[e]]) == Flatten(pages) + [e]
  {
    FlattenLast(pages, [e]);
    var more := pages + [[e]];
    forall p | 0 <= p < cur
      ensures ThisLap(now, start, capacity, more, lap, p, false)
    {
      assert ThisLap(card, start, capacity, pages, lap, p, false);
    }
    forall p | cur < p < size
      ensures LastLap(now, start, size, capacity, more, lap, p)
    {
      assert LastLap(card, start, size, capacity, pages, lap, p);
    }
  }

  lemma AddsNext(card: Card, now: Card, start: nat, size: nat, capacity: nat, pages: seq<Entries>, lap: nat, cur: nat, e: HistoryEntry)
    requires RingOk(card, start, size, capacity, pages, lap, cur) && |pages[lap + cur]| < capacity
    requires OnlyRingSector(card, now, start, size, cur) && RingAt(now, start, cur) == NextEntry(RingAt(card, start, cur), e)
    ensures var more := pages[..lap + cur] + [pages[lap + cur] + [e]];
            RingOk(now, start, size, capacity, more, lap, cur) && Flatten(more) == Flatten(pages) + [e]
  {
    var page := pages[lap + cur] + [e];
    var more := pages[..lap + cur] + [page];
    FlattenLast(pages[..lap + cur], page);
    assert ThisLap(card, start, capacity, pages, lap, cur, true);
    assert RingAt(now, start, cur).entries[..|page|] == page;
    forall p | 0 <= p < cur
      ensures ThisLap(now, start, capacity, more, lap, p, false)
    {
      assert ThisLap(card, start, capacity, pages, lap, p, false);
    }
    forall p | cur < p < size
      ensures LastLap(now, start, size, capacity, more, lap, p)
    {
      assert LastLap(card, start, size, capacity, pages, lap, p);
    }
  }

  /** The newest page is full and has been marked so: on to the next sector. */
  lemma Turns(card: Card, now: Card, start: nat, size: nat, capacity: nat, pages: seq<Entries>, lap: nat, cur: nat)
    requires RingOk(card, start, size, capacity, pages, lap, cur) && |pages[lap + cur]| == capacity
    requires OnlyRingSector(card, now, start, size, cur) && RingAt(now, start, cur) == RingAt(card, start, cur).(fill := RingFull)
    ensures cur + 1 < size ==> RingTurning(now, start, size, capacity, pages, lap, cur + 1)
    ensures cur + 1 == size ==> RingTurning(now, start, size, capacity, pages, lap + size, 0)
  {
    forall p | 0 <= p <= cur
      ensures ThisLap(now, start, capacity, pages, lap, p, false)
    {
      assert ThisLap(card, start, capacity, pages, lap, p, p == cur) || p < cur;
    }
    forall p | cur < p < size
      ensures LastLap(now, start, size, capacity, pages, lap, p)
    {
      assert LastLap(card, start, size, capacity, pages, lap, p);
    }
    if cur + 1 < size {
      assert LastLap(now, start, size, capacity, pages, lap, cur + 1);
    } else {
      assert ThisLap(now, start, capacity, pages, lap, 0, false);
      var next := lap + size;
      forall p | 0 <= p < size
        ensures LastLap(now, start, size, capacity, pages, next, p)
      {
        assert ThisLap(now, start, capacity, pages, lap, p, false);
      }
    }
  }

  lemma OkTurned(card: Card, start: nat, size: nat, capacity: nat, pages: seq<Entries>, lap: nat, cur: nat)
    requires RingOk(card, start, size, capacity, pages, lap, cur)
    ensures Turned(size, pages, lap, cur)
  {
  }

  // ----- finding the newest page again -----

  /** The newest page is full and has been marked so, but the ring has not moved on: what a
      power cut between the two transactions of a roll-over leaves (`CutStores.TurnCut`). */
  ghost predicate RingMarked(card: Card, start: nat, size: nat, capacity: nat, pages: seq<Entries>, lap: nat, cur: nat) {
    && Turned(size, pages, lap, cur) && PagesOk(pages, capacity)
    && (forall p :: 0 <= p < cur ==> ThisLap(card, start, capacity, pages, lap, p, false))
    && ThisLap(card, start, capacity, pages, lap, cur, false) && |pages[lap + cur]| == capacity
    && (forall p :: cur < p < size ==> LastLap(card, start, size, capacity, pages, lap, p))
  }

  lemma Marks(card: Card, now: Card, start: nat, size: nat, capacity: nat, pages: seq<Entries>, lap: nat, cur: nat)
    requires RingOk(card, start, size, capacity, pages, lap, cur) && |pages[lap + cur]| == capacity
    requires OnlyRingSector(card, now, start, size, cur) && RingAt(now, start, cur) == RingAt(card, start, cur).(fill := RingFull)
    ensures RingMarked(now, start, size, capacity, pages, lap, cur)
  {
    forall p | 0 <= p <= cur
      ensures ThisLap(now, start, capacity, pages, lap, p, false)
    {
      assert ThisLap(card, start, capacity, pages, lap, p, p == cur) || p < cur;
    }
    forall p | cur < p < size
      ensures LastLap(now, start, size, capacity, pages, lap, p)
    {
      assert LastLap(card, start, size, capacity, pages, lap, p);
    }
  }

  /** It is a matter of the ring's own sectors. */
  lemma MarkedFrame(card: Card, now: Card, start: nat, size: nat, capacity: nat, pages: seq<Entries>, lap: nat, cur: nat)
    requires RingMarked(card, start, size, capacity, pages, lap, cur)
    requires forall p :: 0 <= p < size ==> RingAt(now, start, p) == RingAt(card, start, p)
    ensures RingMarked(now, start, size, capacity, pages, lap, cur)
  {
    forall p | 0 <= p < cur
      ensures ThisLap(now, start, capacity, pages, lap, p, false)
    {
      assert ThisLap(card, start, capacity, pages, lap, p, false);
    }
    forall p | cur < p < size
      ensures LastLap(now, start, size, capacity, pages, lap, p)
    {
      assert LastLap(card, start, size, capacity, pages, lap, p);
    }
  }

  lemma MarkedTurning(card: Card, start: nat, size: nat, capacity: nat, pages: seq<Entries>, lap: nat, cur: nat)
    requires RingMarked(card, start, size, capacity, pages, lap, cur)
    ensures pages != [] && RingTurning(card, start, size, capacity, pages[..|pages| - 1], lap, cur)
  {
    var rest := pages[..|pages| - 1];
    forall p | 0 <= p < cur
      ensures ThisLap(card, start, capacity, rest, lap, p, false)
    {
      assert ThisLap(card, start, capacity, pages, lap, p, false);
    }
    forall p | cur < p < size
      ensures LastLap(card, start, size, capacity, rest, lap, p)
    {
      assert LastLap(card, start, size, capacity, pages, lap, p);
    }
  }

  lemma OkPages(card: Card, start: nat, size: nat, capacity: nat, pages: seq<Entries>, lap: nat, cur: nat)
    requires RingOk(card, start, size, capacity, pages, lap, cur)
    ensures PagesOk(pages, capacity) && Turned(size, pages, lap, cur)
  {
  }

  /** What the search goes by: the sequence numbers run on without a gap up to index `cur`, and
      behind it come the numbers of the lap before, or empty sectors. */
  ghost predicate Numbered(card: Card, start: nat, size: nat, lap: nat, cur: nat) {
    && cur < size && (lap == 0 || lap >= size)
    && (forall p :: 0 <= p <= cur ==> NumberedAt(card, start, p, lap))
    && (forall p :: cur < p < size ==> BeforeAt(card, start, size, lap, p))
  }

  predicate NumberedAt(card: Card, start: nat, p: nat, lap: int) {
    var s := RingAt(card, start, p); s.RingSector? && s.fill != RingEmpty && s.seqno == (lap + p) % SEQ_RANGE
  }

  predicate EmptyAt(card: Card, start: nat, p: nat) {
    var s := RingAt(card, start, p); s.RingSector? && s.fill == RingEmpty
  }

  predicate BeforeAt(card: Card, start: nat, size: nat, lap: nat, p: nat) {
    if lap == 0 then EmptyAt(card, start, p) else NumberedAt(card, start, p, lap - size)
  }

  lemma OkNumbered(card: Card, start: nat, size: nat, capacity: nat, pages: seq<Entries>, lap: nat, cur: nat)
    requires RingOk(card, start, size, capacity, pages, lap, cur) || RingMarked(card, start, size, capacity, pages, lap, cur)
    ensures Numbered(card, start, size, lap, cur)
  {
    forall p | 0 <= p <= cur
      ensures NumberedAt(card, start, p, lap)
    {
      if p < cur { assert ThisLap(card, start, capacity, pages, lap, p, false); }
    }
    forall p | cur < p < size
      ensures BeforeAt(card, start, size, lap, p)
    {
      assert LastLap(card, start, size, capacity, pages, lap, p);
    }
  }

  /** The sectors that decide whether the ring is empty, and whether it has wrapped around. */
  lemma NumberedEnds(card: Card, start: nat, size: nat, capacity: nat, lap: nat, cur: nat)
    requires 0 < size
    ensures RingBlank(card, start, size, capacity) ==> RingAt(card, start, 0).RingSector? && RingAt(card, start, 0).fill == RingEmpty
    ensures RingBlank(card, start, size, capacity) ==> !Numbered(card, start, size, lap, cur)
    ensures Numbered(card, start, size, lap, cur) ==> cur < size && (lap == 0 || lap >= size)
    ensures Numbered(card, start, size, lap, cur) ==> NumberedAt(card, start, 0, lap) && NumberedAt(card, start, cur, lap)
    ensures Numbered(card, start, size, lap, cur) && cur + 1 < size ==>
      RingAt(card, start, cur + 1).RingSector? && (RingAt(card, start, cur + 1).fill == RingEmpty <==> lap == 0)
  {
    if Numbered(card, start, size, lap, cur) {
      assert NumberedAt(card, start, 0, lap);
      if cur + 1 < size { assert BeforeAt(card, start, size, lap, cur + 1); }
    }
  }

  lemma OkSome(card: Card, start: nat, size: nat, capacity: nat, pages: seq<Entries>, lap: nat, cur: nat)
    requires RingOk(card, start, size, capacity, pages, lap, cur) || RingMarked(card, start, size, capacity, pages, lap, cur)
    ensures pages != []
  {
  }

  /** The step of the binary search goes to the right exactly when the newest page is not to the
      left: also when the ring has wrapped around, and when the sequence numbers have. */
  lemma SearchStep(card: Card, start: nat, size: nat, lap: nat, cur: nat, mid: nat)
    requires Numbered(card, start, size, lap, cur) && 0 < mid < size < SEQ_RANGE
    ensures var s := RingAt(card, start, mid);
            s.RingSector? && RingAt(card, start, 0).RingSector? &&
            (s.fill != RingEmpty && (s.seqno - RingAt(card, start, 0).seqno) % SEQ_RANGE == mid <==> mid <= cur)
  {
    assert NumberedAt(card, start, 0, lap);
    if mid <= cur {
      assert NumberedAt(card, start, mid, lap);
      SeqDistance(lap, mid);
    } else {
      assert BeforeAt(card, start, size, lap, mid);
      SeqDistance(lap, mid - size);
    }
  }

  lemma SeqDistance(a: int, d: int)
    ensures ((a + d) % SEQ_RANGE - a % SEQ_RANGE) % SEQ_RANGE == d % SEQ_RANGE
  {
  }

  // ----- reading -----

  lemma {:induction false} FlattenSplit(a: seq<Entries>, b: seq<Entries>)
    ensures Flatten(a + b) == Flatten(a) + Flatten(b)
  {
    if b == [] {
      assert a + b == a;
    } else {
      assert (a + b)[..|a + b| - 1] == a + b[..|b| - 1];
      FlattenSplit(a, b[..|b| - 1]);
    }
  }

  lemma {:induction false} FullPages(pages: seq<Entries>, capacity: nat, k: nat)
    requires PagesOk(pages, capacity) && k < |pages|
    ensures |Flatten(pages[..k])| == k * capacity
  {
    if k > 0 {
      FullPages(pages, capacity, k - 1);
      assert pages[..k][..k - 1] == pages[..k - 1];
    }
  }

  lemma AllPages(pages: seq<Entries>, capacity: nat)
    requires PagesOk(pages, capacity) && pages != []
    ensures |Flatten(pages)| == (|pages| - 1) * capacity + |pages[|pages| - 1]|
  {
    FullPages(pages, capacity, |pages| - 1);
  }

  /** Page `k` stands in the whole sequence where its number says. */
  lemma PageSlice(pages: seq<Entries>, capacity: nat, k: nat)
    requires PagesOk(pages, capacity) && k < |pages|
    ensures SliceAt(Flatten(pages), k * capacity, pages[k], |pages[k]|)
  {
    FullPages(pages, capacity, k);
    var before, after := pages[..k], pages[k + 1..];
    assert pages == (before + [pages[k]]) + after;
    FlattenSplit(before + [pages[k]], after);
    FlattenLast(before, pages[k]);
    SliceOf(Flatten(before), pages[k], Flatten(after));
  }

  lemma SliceOf<T>(a: seq<T>, b: seq<T>, c: seq<T>)
    ensures SliceAt(a + b + c, |a|, b, |b|)
  {
  }

  /** Where the page that is `back` pages before the newest is. */
  function IndexBack(size: nat, lap: nat, cur: nat, back: nat): int {
    if back <= cur then cur - back else Occupied(size, lap, cur) + cur - back
  }

  lemma PageBack(card: Card, start: nat, size: nat, capacity: nat, pages: seq<Entries>, lap: nat, cur: nat, back: nat)
    requires RingOk(card, start, size, capacity, pages, lap, cur) && back < Occupied(size, lap, cur)
    ensures back < |pages| && 0 <= IndexBack(size, lap, cur, back) < Occupied(size, lap, cur) <= size
    ensures var s := RingAt(card, start, IndexBack(size, lap, cur, back)); var page := pages[|pages| - 1 - back];
      s.RingSector? && s.fill != RingEmpty && |s.entries| == capacity && |page| <= capacity && s.entries[..|page|] == page && s.head == |page| - 1
  {
    var p := IndexBack(size, lap, cur, back);
    if 0 < back <= cur {
      assert ThisLap(card, start, capacity, pages, lap, p, false);
    } else if back > cur {
      assert LastLap(card, start, size, capacity, pages, lap, p);
    }
  }

  /** The pages to skip and the slot to start at, for the entry `start` places before the newest. */
  function Skip(count: nat, capacity: nat, start: nat): nat
    requires capacity > 0
  {
    if start < count then 0 else 1 + (start - count) / capacity
  }

  function StartSlot(count: nat, capacity: nat, start: nat): int
    requires capacity > 0
  {
    if start < count then count - 1 - start else capacity - 1 - (start - count) % capacity
  }

  lemma StartPlace(pages: seq<Entries>, capacity: nat, start: nat)
    requires PagesOk(pages, capacity) && pages != [] && capacity > 0
    ensures var count := |pages[|pages| - 1]|; var back := Skip(count, capacity, start);
      && 0 <= StartSlot(count, capacity, start) < capacity
      && |Flatten(pages)| - 1 - start == (|pages| - 1 - back) * capacity + StartSlot(count, capacity, start)
      && (back < |pages| ==> StartSlot(count, capacity, start) < |pages[|pages| - 1 - back]|)
  {
    AllPages(pages, capacity);
    StartArithmetic(|pages| - 1, |pages[|pages| - 1]|, capacity, start);
  }

  lemma StartArithmetic(last: nat, count: nat, capacity: nat, start: nat)
    requires 0 < count <= capacity
    ensures 0 <= StartSlot(count, capacity, start) < capacity
    ensures last * capacity + count - 1 - start == (last - Skip(count, capacity, start)) * capacity + StartSlot(count, capacity, start)
  {
    if start >= count {
      var rem := start - count;
      var q := rem / capacity;
      assert rem == q * capacity + rem % capacity;
      assert (last - (1 + q)) * capacity == last * capacity - capacity - q * capacity;
    }
  }

  lemma RetainedLength(pages: seq<Entries>, capacity: nat, size: nat, lap: nat, cur: nat)
    requires PagesOk(pages, capacity) && Turned(size, pages, lap, cur)
    ensures Occupied(size, lap, cur) <= |pages|
    ensures |Retained(size, pages, lap, cur)| == (Occupied(size, lap, cur) - 1) * capacity + |pages[|pages| - 1]|
    ensures exists older :: Flatten(pages) == older + Retained(size, pages, lap, cur)
  {
    var first := |pages| - Occupied(size, lap, cur);
    assert pages == pages[..first] + pages[first..];
    FlattenSplit(pages[..first], pages[first..]);
    AllPages(pages[first..], capacity);
    hide Flatten, PagesOk;
  }

  /** The start lies past what is retained exactly when as many pages as are occupied would have
      to be skipped. */
  lemma PastRetained(pages: seq<Entries>, capacity: nat, size: nat, lap: nat, cur: nat, start: nat)
    requires PagesOk(pages, capacity) && Turned(size, pages, lap, cur) && capacity > 0
    ensures Skip(|pages[|pages| - 1]|, capacity, start) >= Occupied(size, lap, cur) <==> start >= |Retained(size, pages, lap, cur)|
  {
    RetainedLength(pages, capacity, size, lap, cur);
    var count, most := |pages[|pages| - 1]|, Occupied(size, lap, cur) - 1;
    if start >= count {
      QuotientBound(start - count, capacity, most);
    } else {
      assert most * capacity >= 0;
    }
  }

  lemma QuotientBound(a: nat, capacity: nat, b: nat)
    requires capacity > 0
    ensures a / capacity >= b <==> a >= b * capacity
  {
    var q := a / capacity;
    assert a == q * capacity + a % capacity;
    if q >= b { assert q * capacity >= b * capacity; } else { assert (q + 1) * capacity <= b * capacity; }
  }

  /** A read in progress: `out` is what was added, read backwards from `start`, and if more is
      wanted, it goes on with the whole of the page `back` pages before the newest. */
  ghost predicate Reading(pages: seq<Entries>, capacity: nat, start: nat, n: nat, out: Entries, back: nat) {
    && back <= |pages| && |out| <= n && ReadsBack(Flatten(pages), start, out)
    && |Flatten(pages)| - start - |out| >= (|pages| - back) * capacity
    && (|out| < n ==> |Flatten(pages)| - start - |out| == (|pages| - back) * capacity)
  }

  /** Copying a page downwards from slot `top`. */
  lemma ReadsPage(pages: seq<Entries>, capacity: nat, start: nat, n: nat, out: Entries, more: Entries, back: nat, entries: Entries, top: nat)
    requires PagesOk(pages, capacity) && back < |pages| && |out| <= n && ReadsBack(Flatten(pages), start, out)
    requires var page := pages[|pages| - 1 - back]; |page| <= |entries| && entries[..|page|] == page && top < |page|
    requires |Flatten(pages)| - 1 - start - |out| == (|pages| - 1 - back) * capacity + top
    requires out <= more && |more| == if |out| + top + 1 < n then |out| + top + 1 else n
    requires forall j :: |out| <= j < |more| ==> more[j] == entries[top - (j - |out|)]
    ensures Reading(pages, capacity, start, n, more, back + 1)
  {
    var k := |pages| - 1 - back;
    var page := pages[k];
    PageSlice(pages, capacity, k);
    forall j | |out| <= j < |more|
      ensures more[j] == page[top - (j - |out|)]
    {
      assert entries[..|page|][top - (j - |out|)] == entries[top - (j - |out|)];
    }
    ReadsOn(Flatten(pages), start, out, more, page, top, k * capacity);
    assert (|pages| - (back + 1)) * capacity == k * capacity;
  }

  /** When all occupied sectors are read, so is all that is retained. */
  lemma ReadingDone(pages: seq<Entries>, capacity: nat, size: nat, lap: nat, cur: nat, start: nat, n: nat, out: Entries, back: nat)
    requires PagesOk(pages, capacity) && Turned(size, pages, lap, cur) && Reading(pages, capacity, start, n, out, back)
    requires back <= Occupied(size, lap, cur) && (|out| == n || back == Occupied(size, lap, cur))
    ensures var all := Retained(size, pages, lap, cur);
      start + |out| <= |all| && out == Reversed(all)[start..if start + n < |all| then start + n else |all|]
  {
    var all, occupied := Retained(size, pages, lap, cur), Occupied(size, lap, cur);
    assert pages != [];
    hide *;
    RetainedLength(pages, capacity, size, lap, cur);
    AllPages(pages, capacity);
    ReadingParts(pages, capacity, start, n, out, back);
    Multiples(|pages| - occupied, |pages| - back, capacity);
    Distribute(|pages|, occupied, capacity);
    var older :| Flatten(pages) == older + all;
    assert start + |out| <= |all|;
    ReadsSuffix(older, all, start, out);
    ReadsBackIsSlice(all, start, out);
  }

  lemma ReadingParts(pages: seq<Entries>, capacity: nat, start: nat, n: nat, out: Entries, back: nat)
    requires Reading(pages, capacity, start, n, out, back)
    ensures back <= |pages| && |out| <= n && ReadsBack(Flatten(pages), start, out)
    ensures |Flatten(pages)| - start - |out| >= (|pages| - back) * capacity
    ensures |out| < n ==> |Flatten(pages)| - start - |out| == (|pages| - back) * capacity
  {
  }

  lemma Distribute(a: int, b: int, c: nat)
    ensures (a - b) * c == (a - 1) * c - (b - 1) * c
  {
  }

  lemma Multiples(a: int, b: int, c: nat)
    requires a <= b
    ensures a * c <= b * c
  {
  }

  lemma ReadsSuffix<T>(older: seq<T>, all: seq<T>, start: nat, out: seq<T>)
    requires ReadsBack(older + all, start, out) && start + |out| <= |all|
    ensures ReadsBack(all, start, out)
  {
  }
}
