/** Power cuts.  A cut stops a list of writes anywhere; the sector being written when the
    power fails is left holding anything at all, except that the one-sector journal header is
    written atomically.  Recovery can itself be cut, any number of times. */
module CrashSafety {
  import opened Layout
  import opened StorageCard
  import opened JournalLog

  // ----- views -----

  /** What the database can read: the usage bitmap, the sectors it marks used, and the rings. */
  datatype View = View(bitmap: seq<Sector>, data: map<nat, Sector>)

  predicate UsedBit(card: Card, d: nat)
    requires d < MESSAGE_HISTORY_START
  {
    var s := card[RawBitmap(d)];
    s.BitmapSector? && |s.bits| == USAGE_BITS_PER_SECTOR && s.bits[d % USAGE_BITS_PER_SECTOR]
  }

  predicate InView(card: Card, d: nat) {
    if d < MESSAGE_HISTORY_START then UsedBit(card, d) else d < DATA_SECTORS
  }

  ghost function ViewOf(card: Card): View {
    View(card[BITMAP_START..DATA_START],
         map d: nat | d < DATA_SECTORS && InView(card, d) :: card[RawData(d)])
  }

  lemma SameView(a: Card, b: Card)
    requires forall i :: BITMAP_START <= i < DATA_START ==> a[i] == b[i]
    requires forall d :: 0 <= d < DATA_SECTORS && InView(a, d) ==> a[RawData(d)] == b[RawData(d)]
    ensures ViewOf(a) == ViewOf(b)
  {
    forall d | 0 <= d < DATA_SECTORS
      ensures InView(a, d) == InView(b, d)
    {
      if d < MESSAGE_HISTORY_START {
        assert BITMAP_START <= RawBitmap(d) < DATA_START;
      }
    }
    assert a[BITMAP_START..DATA_START] == b[BITMAP_START..DATA_START];
    assert ViewOf(a).data == ViewOf(b).data;
  }

  lemma ViewAgrees(a: Card, b: Card)
    requires ViewOf(a) == ViewOf(b)
    ensures forall i :: BITMAP_START <= i < DATA_START ==> a[i] == b[i]
    ensures forall d :: 0 <= d < DATA_SECTORS && InView(a, d) ==> InView(b, d) && a[RawData(d)] == b[RawData(d)]
  {
    forall i | BITMAP_START <= i < DATA_START
      ensures a[i] == b[i]
    {
      assert a[i] == ViewOf(a).bitmap[i - BITMAP_START] == ViewOf(b).bitmap[i - BITMAP_START] == b[i];
    }
    forall d | 0 <= d < DATA_SECTORS && InView(a, d)
      ensures InView(b, d) && a[RawData(d)] == b[RawData(d)]
    {
      assert d in ViewOf(a).data && d in ViewOf(b).data;
      assert ViewOf(a).data[d] == ViewOf(b).data[d];
    }
  }

  // ----- cuts -----

  /** The card after a power cut during write `k` of `ws` (none is cut when `k == |ws|`). */
  function CutAt(card: Card, ws: seq<Write>, k: nat, torn: Sector): Card
    requires InRange(ws) && k <= |ws|
  {
    var done := Apply(card, ws[..k]);
    if k == |ws| || ws[k].index == JOURNAL_HEADER then done
    else done[ws[k].index := torn]
  }

  lemma CutSplit(card: Card, first: seq<Write>, second: seq<Write>, k: nat, torn: Sector)
    requires InRange(first) && InRange(second) && k <= |first| + |second|
    ensures InRange(first + second)
    ensures CutAt(card, first + second, k, torn) ==
            if k < |first| then CutAt(card, first, k, torn)
            else CutAt(Apply(card, first), second, k - |first|, torn)
  {
    if k < |first| {
      assert (first + second)[..k] == first[..k];
    } else {
      assert (first + second)[..k] == first + second[..k - |first|];
      ApplyAppend(card, first, second[..k - |first|]);
    }
  }

  lemma {:induction false} ApplyFrame(card: Card, ws: seq<Write>, touched: set<nat>)
    requires InRange(ws) && forall w <- ws :: w.index in touched
    ensures forall a :: 0 <= a < CARD_SECTORS && a !in touched ==> Apply(card, ws)[a] == card[a]
    decreases ws
  {
    if ws != [] {
      assert ws[0] in ws;
      ApplyFrame(card[ws[0].index := ws[0].sector], ws[1..], touched);
    }
  }

  lemma CutFrame(card: Card, ws: seq<Write>, k: nat, torn: Sector, touched: set<nat>)
    requires InRange(ws) && k <= |ws| && forall w <- ws :: w.index in touched
    ensures forall a :: 0 <= a < CARD_SECTORS && a !in touched ==> CutAt(card, ws, k, torn)[a] == card[a]
  {
    ApplyFrame(card, ws[..k], touched);
    if k < |ws| {
      assert ws[k] in ws;
    }
  }

  // ----- transactions -----

  predicate Clean(card: Card) {
    Status(card[JOURNAL_HEADER]) == HeaderValid
  }

  /** `after` is `before` with at most the bit at `bit` changed. */
  predicate OneBit(before: Sector, after: Sector, bit: nat) {
    && before.BitmapSector? && after.BitmapSector?
    && |before.bits| == |after.bits| == USAGE_BITS_PER_SECTOR
    && bit < USAGE_BITS_PER_SECTOR
    && forall i :: 0 <= i < USAGE_BITS_PER_SECTOR && i != bit ==> before.bits[i] == after.bits[i]
  }

  /** The in-place writes stay inside the two sectors the journal saved. */
  predicate BodyOk(tx: Tx) {
    && KindInRange(tx.kind, tx.sector)
    && forall w <- tx.body ::
      || (w.index == RawData(tx.sector) && tx.kind != RemoveKind)
      || (w.index == RawBitmap(tx.sector) && !IsHistory(tx.kind)
          && OneBit(tx.usage, w.sector, tx.sector % USAGE_BITS_PER_SECTOR))
  }

  lemma BodyTouches(tx: Tx)
    requires BodyOk(tx)
    ensures InRange(tx.body) && InRange(TxWrites(tx))
    ensures forall w <- tx.body :: w.index in Touched(tx.kind, tx.sector)
  {
  }

  /** What a transaction must respect of the card it starts from. */
  predicate TxOk(card: Card, tx: Tx) {
    && Clean(card)
    && BodyOk(tx)
    && (!IsHistory(tx.kind) ==> tx.usage == card[RawBitmap(tx.sector)] && !tx.usage.Garbage?)
    && (tx.kind != RemoveKind ==> !tx.content.Garbage?)
    && (tx.kind != RemoveKind && InView(card, tx.sector) ==> tx.content == card[RawData(tx.sector)])
    // a sector that comes into use has been written by this transaction
    && (BodyTouches(tx);
        InView(Apply(card, tx.body), tx.sector) && !InView(card, tx.sector) ==>
          exists w <- tx.body :: w.index == RawData(tx.sector))
  }

  /** The journal holds what it takes to restore `base`, and nothing outside the
      transaction's own sectors has changed since. */
  predicate Pending(card: Card, base: Card, tx: Tx) {
    && card[JOURNAL_HEADER] == Header(Active, tx.kind, tx.sector)
    && (tx.kind != RemoveKind ==> card[JOURNAL_CONTENT] == tx.content)
    && (!IsHistory(tx.kind) ==> card[JOURNAL_USAGE] == tx.usage)
    && forall a :: BITMAP_START <= a < CARD_SECTORS && a !in Touched(tx.kind, tx.sector) ==> card[a] == base[a]
  }

  /** After the save writes and the active header, the entry is pending. */
  lemma AddArms(base: Card, tx: Tx)
    requires TxOk(base, tx)
    ensures InRange(AddWrites(tx.kind, tx.sector, tx.content, tx.usage))
    ensures var armed := Apply(base, AddWrites(tx.kind, tx.sector, tx.content, tx.usage));
            && Pending(armed, base, tx)
            && forall a :: BITMAP_START <= a < CARD_SECTORS ==> armed[a] == base[a]
  {
    var save := SaveWrites(tx.kind, tx.content, tx.usage);
    var arm := [Write(JOURNAL_HEADER, Header(Active, tx.kind, tx.sector))];
    ApplyAppend(base, save, arm);
    ApplyFrame(base, save, {JOURNAL_USAGE, JOURNAL_CONTENT});
    assert Apply(base, save + arm) == Apply(base, save)[JOURNAL_HEADER := arm[0].sector];
    var saved := Apply(base, save);
    if !IsHistory(tx.kind) && tx.kind != RemoveKind {
      assert save == [Write(JOURNAL_USAGE, tx.usage)] + [Write(JOURNAL_CONTENT, tx.content)];
      ApplyAppend(base, [save[0]], [save[1]]);
    }
    assert tx.kind != RemoveKind ==> saved[JOURNAL_CONTENT] == tx.content;
    assert !IsHistory(tx.kind) ==> saved[JOURNAL_USAGE] == tx.usage;
  }

  /** A cut while the journal entry is being saved leaves the old view and a clean journal. */
  lemma CutInAdd(base: Card, tx: Tx, k: nat, torn: Sector)
    requires TxOk(base, tx)
    requires k < |AddWrites(tx.kind, tx.sector, tx.content, tx.usage)|
    ensures InRange(AddWrites(tx.kind, tx.sector, tx.content, tx.usage))
    ensures var card := CutAt(base, AddWrites(tx.kind, tx.sector, tx.content, tx.usage), k, torn);
            Clean(card) && ViewOf(card) == ViewOf(base)
  {
    var save := SaveWrites(tx.kind, tx.content, tx.usage);
    var arm := [Write(JOURNAL_HEADER, Header(Active, tx.kind, tx.sector))];
    CutSplit(base, save, arm, k, torn);
    if k < |save| {
      CutFrame(base, save, k, torn, {JOURNAL_USAGE, JOURNAL_CONTENT});
    } else {
      assert k - |save| == 0;
      ApplyFrame(base, save, {JOURNAL_USAGE, JOURNAL_CONTENT});
    }
    var card := CutAt(base, save + arm, k, torn);
    assert forall a :: BITMAP_START <= a < CARD_SECTORS ==> card[a] == base[a];
    SameView(base, card);
  }

  lemma PendingFrame(card: Card, later: Card, base: Card, tx: Tx)
    requires Pending(card, base, tx)
    requires forall a :: 0 <= a < CARD_SECTORS && a !in Touched(tx.kind, tx.sector) ==> later[a] == card[a]
    requires KindInRange(tx.kind, tx.sector)
    ensures Pending(later, base, tx)
  {
  }

  /** Two cards that agree where a list of writes does not reach, and wherever it does not
      write, agree after it. */
  lemma {:induction false} ApplyAgree(a: Card, b: Card, ws: seq<Write>, i: nat)
    requires InRange(ws) && i < CARD_SECTORS
    requires a[i] == b[i] || exists w <- ws :: w.index == i
    ensures Apply(a, ws)[i] == Apply(b, ws)[i]
    decreases ws
  {
    if ws != [] {
      var a', b' := a[ws[0].index := ws[0].sector], b[ws[0].index := ws[0].sector];
      if a[i] != b[i] && ws[0].index != i {
        var w :| w in ws && w.index == i;
        assert w in ws[1..];
      }
      ApplyAgree(a', b', ws[1..], i);
    }
  }

  lemma BodyBitmap(card: Card, tx: Tx, d: nat)
    requires TxOk(card, tx) && d < MESSAGE_HISTORY_START && d != tx.sector
    ensures InRange(tx.body) && UsedBit(Apply(card, tx.body), d) == UsedBit(card, d)
  {
    BodyTouches(tx);
    BodyBitmapAfter(card, tx, tx.body);
    if RawBitmap(d) == RawBitmap(tx.sector) && !IsHistory(tx.kind) {
      assert d % USAGE_BITS_PER_SECTOR != tx.sector % USAGE_BITS_PER_SECTOR;
    } else {
      ApplyFrame(card, tx.body, Touched(tx.kind, tx.sector));
    }
  }

  lemma {:induction false} BodyBitmapAfter(card: Card, tx: Tx, ws: seq<Write>)
    requires BodyOk(tx) && InRange(ws) && forall w <- ws :: w in tx.body
    requires !IsHistory(tx.kind) ==>
      card[RawBitmap(tx.sector)] == tx.usage || OneBit(tx.usage, card[RawBitmap(tx.sector)], tx.sector % USAGE_BITS_PER_SECTOR)
    ensures !IsHistory(tx.kind) ==>
      var after := Apply(card, ws)[RawBitmap(tx.sector)];
      after == tx.usage || OneBit(tx.usage, after, tx.sector % USAGE_BITS_PER_SECTOR)
    decreases ws
  {
    if ws != [] {
      assert ws[0] in ws && ws[0] in tx.body;
      BodyBitmapAfter(card[ws[0].index := ws[0].sector], tx, ws[1..]);
    }
  }

  /** The in-place writes have the same visible effect on cards with the same view. */
  lemma SameEffect(a: Card, b: Card, tx: Tx)
    requires TxOk(a, tx) && ViewOf(a) == ViewOf(b)
    ensures InRange(tx.body) && ViewOf(Apply(a, tx.body)) == ViewOf(Apply(b, tx.body))
  {
    BodyTouches(tx);
    ViewAgrees(a, b);
    var a', b' := Apply(a, tx.body), Apply(b, tx.body);
    forall i | BITMAP_START <= i < DATA_START
      ensures a'[i] == b'[i]
    {
      ApplyAgree(a, b, tx.body, i);
    }
    forall d | 0 <= d < DATA_SECTORS && InView(a', d)
      ensures a'[RawData(d)] == b'[RawData(d)]
    {
      if d != tx.sector && d < MESSAGE_HISTORY_START {
        BodyBitmap(a, tx, d);
      }
      ApplyAgree(a, b, tx.body, RawData(d));
    }
    SameView(a', b');
  }

  /** A cut after the journal entry is armed and before it is committed leaves it pending. */
  lemma CutInBody(base: Card, tx: Tx, k: nat, torn: Sector)
    requires TxOk(base, tx) && k <= |tx.body|
    ensures InRange(tx.body) && InRange(AddWrites(tx.kind, tx.sector, tx.content, tx.usage))
    ensures Pending(CutAt(Apply(base, AddWrites(tx.kind, tx.sector, tx.content, tx.usage)), tx.body, k, torn), base, tx)
  {
    BodyTouches(tx);
    AddArms(base, tx);
    var armed := Apply(base, AddWrites(tx.kind, tx.sector, tx.content, tx.usage));
    CutFrame(armed, tx.body, k, torn, Touched(tx.kind, tx.sector));
    PendingFrame(armed, CutAt(armed, tx.body, k, torn), base, tx);
  }

  lemma ApplyOne(card: Card, w: Write)
    requires w.index < CARD_SECTORS
    ensures Apply(card, [w]) == card[w.index := w.sector]
  {
    assert [w][1..] == [];
  }

  /** Once the committed header is on the card, the new view is what every mount reads. */
  lemma CutInCommit(base: Card, tx: Tx, k: nat, torn: Sector)
    requires TxOk(base, tx) && 0 < k <= |CommitWrites(tx.kind, tx.sector, tx.twice)|
    ensures InRange(tx.body) && InRange(AddWrites(tx.kind, tx.sector, tx.content, tx.usage)) && InRange(CommitWrites(tx.kind, tx.sector, tx.twice))
    ensures var body := Apply(Apply(base, AddWrites(tx.kind, tx.sector, tx.content, tx.usage)), tx.body);
            var card := CutAt(body, CommitWrites(tx.kind, tx.sector, tx.twice), k, torn);
            Clean(card) && ViewOf(card) == ViewOf(Apply(base, tx.body))
  {
    BodyTouches(tx);
    AddArms(base, tx);
    var armed := Apply(base, AddWrites(tx.kind, tx.sector, tx.content, tx.usage));
    var body := Apply(armed, tx.body);
    var commits := CommitWrites(tx.kind, tx.sector, tx.twice);
    CutFrame(body, commits, k, torn, {JOURNAL_HEADER});
    SameView(base, armed);
    SameEffect(base, armed, tx);
    var card := CutAt(body, commits, k, torn);
    SameView(body, card);
    var commit := Write(JOURNAL_HEADER, Header(Committed, tx.kind, tx.sector));
    if k == 1 {
      assert commits[..k] == [commit];
    } else {
      assert commits[..k] == [commit] + [commit];
      ApplyAppend(body, [commit], [commit]);
    }
    ApplyOne(body, commit);
    ApplyOne(Apply(body, [commit]), commit);
    assert card[JOURNAL_HEADER] == commit.sector;
  }

  /** Every state a cut transaction can leave: the old view with a clean journal, a pending
      entry, or the new view with a clean journal. */
  lemma CutStates(base: Card, tx: Tx, k: nat, torn: Sector)
    requires TxOk(base, tx) && k <= |TxWrites(tx)|
    ensures InRange(TxWrites(tx)) && InRange(tx.body)
    ensures var card := CutAt(base, TxWrites(tx), k, torn);
            || (Clean(card) && k < |TxWrites(tx)| && ViewOf(card) == ViewOf(base))
            || (Pending(card, base, tx) && k < |TxWrites(tx)|)
            || (Clean(card) && ViewOf(card) == ViewOf(Apply(base, tx.body)))
  {
    BodyTouches(tx);
    var add := AddWrites(tx.kind, tx.sector, tx.content, tx.usage);
    var commits := CommitWrites(tx.kind, tx.sector, tx.twice);
    CutSplit(base, add + tx.body, commits, k, torn);
    if k < |add + tx.body| {
      CutSplit(base, add, tx.body, k, torn);
      if k < |add| {
        CutInAdd(base, tx, k, torn);
      } else {
        CutInBody(base, tx, k - |add|, torn);
      }
    } else {
      ApplyAppend(base, add, tx.body);
      var j := k - |add + tx.body|;
      if j == 0 {
        CutInBody(base, tx, |tx.body|, torn);
        assert tx.body[..|tx.body|] == tx.body;
        assert commits[..0] == [];
      } else {
        CutInCommit(base, tx, j, torn);
      }
    }
  }

  // ----- recovery -----

  lemma PendingRolls(card: Card, base: Card, tx: Tx)
    requires TxOk(base, tx) && Pending(card, base, tx)
    ensures HeaderInRange(card) && RollbackReadable(card) && InRange(MountWrites(card))
    ensures MountWrites(card) == RollbackContent(card) + RollbackUsage(card) + [Write(JOURNAL_HEADER, Header(Committed, tx.kind, tx.sector))]
  {
  }

  /** A rollback that runs to its end restores the view the transaction started from. */
  lemma RollbackRestores(card: Card, base: Card, tx: Tx)
    requires TxOk(base, tx) && Pending(card, base, tx)
    ensures InRange(MountWrites(card))
    ensures var after := Apply(card, MountWrites(card));
            Clean(after) && ViewOf(after) == ViewOf(base)
  {
    PendingRolls(card, base, tx);
    var c, u := RollbackContent(card), RollbackUsage(card);
    var end := [Write(JOURNAL_HEADER, Header(Committed, tx.kind, tx.sector))];
    ApplyAppend(card, c + u, end);
    ApplyAppend(card, c, u);
    var undone := Apply(Apply(card, c), u);
    var after := undone[JOURNAL_HEADER := end[0].sector];
    assert Apply(card, MountWrites(card)) == after;
    assert Clean(after);
    RolledBack(card, base, tx, after);
  }

  lemma RolledBack(card: Card, base: Card, tx: Tx, after: Card)
    requires TxOk(base, tx) && Pending(card, base, tx)
    requires InRange(RollbackContent(card)) && InRange(RollbackUsage(card))
    requires after == Apply(Apply(card, RollbackContent(card)), RollbackUsage(card))[JOURNAL_HEADER := Header(Committed, tx.kind, tx.sector)]
    ensures ViewOf(after) == ViewOf(base)
  {
    hide ViewOf;
    SameView(base, after);
  }

  /** A rollback that is cut leaves the entry pending, so the next mount starts over. */
  lemma RollbackCut(card: Card, base: Card, tx: Tx, k: nat, torn: Sector)
    requires TxOk(base, tx) && Pending(card, base, tx)
    requires InRange(MountWrites(card)) && k < |MountWrites(card)|
    ensures Pending(CutAt(card, MountWrites(card), k, torn), base, tx)
  {
    PendingRolls(card, base, tx);
    var undo := RollbackContent(card) + RollbackUsage(card);
    var end := [Write(JOURNAL_HEADER, Header(Committed, tx.kind, tx.sector))];
    CutSplit(card, undo, end, k, torn);
    if k < |undo| {
      CutFrame(card, undo, k, torn, Touched(tx.kind, tx.sector));
    } else {
      ApplyFrame(card, undo, Touched(tx.kind, tx.sector));
      assert end[..0] == [];
    }
    PendingFrame(card, CutAt(card, MountWrites(card), k, torn), base, tx);
  }

  /** One mount that was cut: how many of its writes finished, and what the next one left. */
  datatype CutMount = CutMount(writes: nat, torn: Sector)

  /** The card after the cut mounts, and then after the first mount that completes. */
  function Recover(card: Card, mounts: seq<CutMount>): Card
    decreases mounts
  {
    if !InRange(MountWrites(card)) then card
    else if mounts == [] then Apply(card, MountWrites(card))
    else
      var k := if mounts[0].writes < |MountWrites(card)| then mounts[0].writes else |MountWrites(card)|;
      Recover(CutAt(card, MountWrites(card), k, mounts[0].torn), mounts[1..])
  }

  lemma {:induction false} RecoverClean(card: Card, mounts: seq<CutMount>)
    requires Clean(card)
    ensures Recover(card, mounts) == card
    decreases mounts
  {
    if mounts != [] {
      assert MountWrites(card)[..0] == [];
      RecoverClean(card, mounts[1..]);
    }
  }

  lemma {:induction false} RecoverPending(card: Card, base: Card, tx: Tx, mounts: seq<CutMount>)
    requires TxOk(base, tx) && Pending(card, base, tx)
    ensures Clean(Recover(card, mounts)) && ViewOf(Recover(card, mounts)) == ViewOf(base)
    decreases mounts
  {
    PendingRolls(card, base, tx);
    RollbackRestores(card, base, tx);
    if mounts != [] {
      var ws := MountWrites(card);
      if mounts[0].writes < |ws| {
        RollbackCut(card, base, tx, mounts[0].writes, mounts[0].torn);
        RecoverPending(CutAt(card, ws, mounts[0].writes, mounts[0].torn), base, tx, mounts[1..]);
      } else {
        assert ws[..|ws|] == ws;
        RecoverClean(Apply(card, ws), mounts[1..]);
      }
    }
  }

  /** Crash recovery: cut one transaction anywhere and cut its recovery any number of times;
      the first mount that completes finds exactly the old view or exactly the new one, and the
      new one if no write was cut. */
  lemma CrashAtomicity(base: Card, tx: Tx, k: nat, torn: Sector, mounts: seq<CutMount>)
    requires TxOk(base, tx) && k <= |TxWrites(tx)|
    ensures InRange(TxWrites(tx)) && InRange(tx.body)
    ensures var card := Recover(CutAt(base, TxWrites(tx), k, torn), mounts);
            && Clean(card)
            && (ViewOf(card) == ViewOf(base) || ViewOf(card) == ViewOf(Apply(base, tx.body)))
            && (k == |TxWrites(tx)| ==> ViewOf(card) == ViewOf(Apply(base, tx.body)))
  {
    CutStates(base, tx, k, torn);
    var card := CutAt(base, TxWrites(tx), k, torn);
    if Clean(card) {
      RecoverClean(card, mounts);
    } else {
      RecoverPending(card, base, tx, mounts);
    }
  }

  // ----- whole runs -----

  /** A transaction, and how it ended: completed, or cut and followed by a recovery. */
  datatype Event =
    | Completed(tx: Tx)
    | Crashed(tx: Tx, writes: nat, torn: Sector, mounts: seq<CutMount>)

  predicate EventOk(card: Card, e: Event) {
    && TxOk(card, e.tx)
    && (e.Crashed? ==> e.writes < |TxWrites(e.tx)|)
  }

  function Step(card: Card, e: Event): Card
    requires EventOk(card, e)
  {
    BodyTouches(e.tx);
    match e
    case Completed(tx) => Apply(card, TxWrites(tx))
    case Crashed(tx, k, torn, mounts) => Recover(CutAt(card, TxWrites(tx), k, torn), mounts)
  }

  predicate RunOk(card: Card, es: seq<Event>)
    decreases es
  {
    es == [] || (EventOk(card, es[0]) && RunOk(Step(card, es[0]), es[1..]))
  }

  function Run(card: Card, es: seq<Event>): Card
    requires RunOk(card, es)
    decreases es
  {
    if es == [] then card else Run(Step(card, es[0]), es[1..])
  }

  /** The same run without power cuts: only the kept transactions, and only their in-place
      writes. */
  function Ideal(card: Card, es: seq<Event>, kept: seq<bool>): Card
    requires |kept| == |es| && forall e <- es :: BodyOk(e.tx)
    decreases es
  {
    if es == [] then card
    else
      assert es[0] in es;
      BodyTouches(es[0].tx);
      Ideal(if kept[0] then Apply(card, es[0].tx.body) else card, es[1..], kept[1..])
  }

  /** After any run with any number of power cuts, in transactions and in recoveries, the view
      is the one left by performing some of the transactions entirely and the others not at all;
      every transaction that completed is among the performed ones. */
  lemma {:induction false} RunAtomicity(card: Card, ideal: Card, es: seq<Event>) returns (kept: seq<bool>)
    requires RunOk(card, es) && ViewOf(card) == ViewOf(ideal)
    ensures |kept| == |es| && forall e <- es :: BodyOk(e.tx)
    ensures forall i :: 0 <= i < |es| && es[i].Completed? ==> kept[i]
    ensures ViewOf(Run(card, es)) == ViewOf(Ideal(ideal, es, kept))
    decreases es
  {
    if es == [] {
      kept := [];
    } else {
      var e, next := es[0], Step(card, es[0]);
      var k := if e.Crashed? then e.writes else |TxWrites(e.tx)|;
      BodyTouches(e.tx);
      CrashAtomicity(card, e.tx, k, if e.Crashed? then e.torn else Garbage(0), if e.Crashed? then e.mounts else []);
      if e.Completed? {
        CompletedView(card, e.tx);
      }
      SameEffect(card, ideal, e.tx);
      var keep := ViewOf(next) == ViewOf(Apply(card, e.tx.body));
      var rest := RunAtomicity(next, if keep then Apply(ideal, e.tx.body) else ideal, es[1..]);
      kept := [keep] + rest;
      assert kept[1..] == rest;
      forall e' | e' in es ensures BodyOk(e'.tx) {
        if e' != e { assert e' in es[1..]; }
      }
    }
  }

  lemma CompletedView(card: Card, tx: Tx)
    requires TxOk(card, tx)
    ensures InRange(TxWrites(tx)) && InRange(tx.body)
    ensures Clean(Apply(card, TxWrites(tx))) && ViewOf(Apply(card, TxWrites(tx))) == ViewOf(Apply(card, tx.body))
  {
    BodyTouches(tx);
    var ws := TxWrites(tx);
    assert ws[..|ws|] == ws;
    CrashAtomicity(card, tx, |ws|, Garbage(0), []);
    var done := CutAt(card, ws, |ws|, Garbage(0));
    CutStates(card, tx, |ws|, Garbage(0));
    RecoverClean(done, []);
  }

  // ----- the write log of a session -----

  function AllWrites(txs: seq<Tx>): seq<Write> {
    if txs == [] then [] else AllWrites(txs[..|txs| - 1]) + TxWrites(txs[|txs| - 1])
  }

  /** Performing `txs` in order, each respecting the card it finds, leads from `was` to `now`. */
  predicate Ran(was: Card, now: Card, txs: seq<Tx>)
    decreases txs
  {
    if txs == [] then was == now
    else
      var last := txs[|txs| - 1];
      InRange(AllWrites(txs[..|txs| - 1])) &&
      var mid := Apply(was, AllWrites(txs[..|txs| - 1]));
      Ran(was, mid, txs[..|txs| - 1]) && TxOk(mid, last) &&
      (BodyTouches(last); now == Apply(mid, TxWrites(last)))
  }

  predicate TxStep(card: Card, tx: Tx, next: Card) {
    TxOk(card, tx) && (BodyTouches(tx); next == Apply(card, TxWrites(tx)))
  }

  /** The same, with every card in between kept. */
  predicate Chain(cards: seq<Card>, txs: seq<Tx>) {
    && |cards| == |txs| + 1
    && forall i {:trigger txs[i]} :: 0 <= i < |txs| ==> TxStep(cards[i], txs[i], cards[i + 1])
  }

  lemma {:induction false} ChainRan(cards: seq<Card>, txs: seq<Tx>)
    requires Chain(cards, txs)
    ensures Ran(cards[0], cards[|txs|], txs)
    decreases txs
  {
    if txs != [] {
      ChainRan(cards[..|txs|], txs[..|txs| - 1]);
      RanApplies(cards[0], cards[|txs| - 1], txs[..|txs| - 1]);
      assert TxStep(cards[|txs| - 1], txs[|txs| - 1], cards[|txs|]);
    }
  }

  lemma ChainSize(cards: seq<Card>, txs: seq<Tx>)
    requires Chain(cards, txs)
    ensures |cards| == |txs| + 1
  {
  }

  lemma StepOf(card: Card, tx: Tx, next: Card)
    requires TxOk(card, tx) && InRange(TxWrites(tx)) && next == Apply(card, TxWrites(tx))
    ensures TxStep(card, tx, next)
  {
  }

  lemma ChainAppend(cards: seq<Card>, txs: seq<Tx>, tx: Tx, next: Card)
    requires Chain(cards, txs) && TxStep(cards[|txs|], tx, next)
    ensures Chain(cards + [next], txs + [tx]) && AllWrites(txs + [tx]) == AllWrites(txs) + TxWrites(tx)
  {
    AllWritesLast(txs, tx);
    hide TxStep, AllWrites, TxWrites;
    var all, more := cards + [next], txs + [tx];
    forall i {:trigger more[i]} | 0 <= i < |more|
      ensures TxStep(all[i], more[i], all[i + 1])
    {
      if i < |txs| { assert more[i] == txs[i]; }
    }
  }

  lemma {:induction false} RanApplies(was: Card, now: Card, txs: seq<Tx>)
    requires Ran(was, now, txs)
    ensures InRange(AllWrites(txs)) && Apply(was, AllWrites(txs)) == now
  {
    if txs != [] {
      var last := txs[|txs| - 1];
      BodyTouches(last);
      ApplyAppend(was, AllWrites(txs[..|txs| - 1]), TxWrites(last));
    }
  }

  /** Only the in-place writes of `txs`. */
  function Bodies(card: Card, txs: seq<Tx>): Card
    requires forall tx <- txs :: BodyOk(tx)
  {
    if txs == [] then card
    else
      var last := txs[|txs| - 1];
      assert last in txs;
      BodyTouches(last);
      Apply(Bodies(card, txs[..|txs| - 1]), last.body)
  }

  lemma {:induction false} RanView(was: Card, now: Card, txs: seq<Tx>)
    requires Ran(was, now, txs)
    ensures forall tx <- txs :: BodyOk(tx)
    ensures ViewOf(now) == ViewOf(Bodies(was, txs))
    decreases txs
  {
    if txs != [] {
      var last, first := txs[|txs| - 1], txs[..|txs| - 1];
      var mid := Apply(was, AllWrites(first));
      RanView(was, mid, first);
      forall tx | tx in txs ensures BodyOk(tx) {
        if tx != last { assert tx in first; }
      }
      CompletedView(mid, last);
      SameEffect(mid, Bodies(was, first), last);
    }
  }

  lemma CutAtStart(base: Card, tx: Tx, torn: Sector, mounts: seq<CutMount>)
    requires TxOk(base, tx)
    ensures InRange(TxWrites(tx)) && Clean(Recover(CutAt(base, TxWrites(tx), 0, torn), mounts))
    ensures ViewOf(Recover(CutAt(base, TxWrites(tx), 0, torn), mounts)) == ViewOf(base)
  {
    BodyTouches(tx);
    var add := AddWrites(tx.kind, tx.sector, tx.content, tx.usage);
    CutSplit(base, add + tx.body, CommitWrites(tx.kind, tx.sector, tx.twice), 0, torn);
    CutSplit(base, add, tx.body, 0, torn);
    CutInAdd(base, tx, 0, torn);
    RecoverClean(CutAt(base, TxWrites(tx), 0, torn), mounts);
  }

  lemma TxBody(card: Card, tx: Tx)
    requires TxOk(card, tx)
    ensures BodyOk(tx)
  {
  }

  lemma BodiesLast(card: Card, first: seq<Tx>, last: Tx)
    requires forall tx <- first + [last] :: BodyOk(tx)
    ensures BodyOk(last) && (forall tx <- first :: BodyOk(tx)) && InRange(last.body)
    ensures Bodies(card, first + [last]) == Apply(Bodies(card, first), last.body)
  {
    assert last in first + [last];
    forall tx | tx in first
      ensures BodyOk(tx)
    {
      assert tx in first + [last];
    }
    BodyTouches(last);
    assert (first + [last])[..|first|] == first;
    hide BodyOk;
  }

  lemma CutInLast(was: Card, mid: Card, first: seq<Tx>, last: Tx, k: nat, torn: Sector, mounts: seq<CutMount>)
    returns (keep: bool)
    requires Ran(was, mid, first) && TxOk(mid, last) && k <= |TxWrites(last)|
    ensures InRange(TxWrites(last)) && forall tx <- first + [last] :: BodyOk(tx)
    ensures var card := Recover(CutAt(mid, TxWrites(last), k, torn), mounts);
            Clean(card) && ViewOf(card) == ViewOf(Bodies(was, if keep then first + [last] else first))
    ensures (k == |TxWrites(last)| ==> keep) && (k == 0 ==> !keep)
  {
    TxBody(mid, last);
    RanView(was, mid, first);
    SameEffect(mid, Bodies(was, first), last);
    BodiesLast(was, first, last);
    hide TxOk, Ran, TxWrites, CutAt, Recover, Clean, ViewOf, BodyOk, Bodies;
    BodyTouches(last);
    CrashAtomicity(mid, last, k, torn, mounts);
    CutAtStart(mid, last, torn, mounts);
    var card := Recover(CutAt(mid, TxWrites(last), k, torn), mounts);
    keep := k == |TxWrites(last)| || (k > 0 && ViewOf(card) != ViewOf(mid));
  }

  /** `card` shows exactly the first `kept` transactions, and those are the ones whose writes
      were all among the first `n`, or those and the next one. */
  ghost predicate KeptAt(was: Card, txs: seq<Tx>, n: nat, card: Card, kept: nat) {
    && kept <= |txs| && (forall tx <- txs :: BodyOk(tx))
    && ViewOf(card) == ViewOf(Bodies(was, txs[..kept]))
    && (kept < |txs| ==> n < |AllWrites(txs[..kept + 1])|)
    && (kept > 0 ==> |AllWrites(txs[..kept - 1])| < n)
  }

  lemma KeptEarlier(was: Card, first: seq<Tx>, last: Tx, n: nat, card: Card, kept: nat)
    requires KeptAt(was, first, n, card, kept) && BodyOk(last) && n < |AllWrites(first)|
    ensures KeptAt(was, first + [last], n, card, kept)
  {
    var txs := first + [last];
    assert txs[..kept] == first[..kept];
    if kept > 0 { assert txs[..kept - 1] == first[..kept - 1]; }
    if kept < |first| { assert txs[..kept + 1] == first[..kept + 1]; } else { assert txs[..kept + 1] == txs; }
  }

  lemma KeptHere(was: Card, first: seq<Tx>, last: Tx, n: nat, card: Card, keep: bool)
    requires forall tx <- first + [last] :: BodyOk(tx)
    requires ViewOf(card) == ViewOf(Bodies(was, if keep then first + [last] else first))
    requires |AllWrites(first)| <= n <= |AllWrites(first + [last])|
    requires n == |AllWrites(first + [last])| ==> keep
    requires n == |AllWrites(first)| ==> !keep
    ensures KeptAt(was, first + [last], n, card, if keep then |first| + 1 else |first|)
  {
    var txs := first + [last];
    assert txs[..|txs|] == txs && txs[..|first|] == first;
    if !keep && first != [] {
      var k := |first| - 1;
      assert txs[..k] == first[..k];
      assert AllWrites(first) == AllWrites(first[..k]) + TxWrites(first[k]);
    }
  }

  lemma AllWritesLast(first: seq<Tx>, last: Tx)
    ensures AllWrites(first + [last]) == AllWrites(first) + TxWrites(last)
  {
    assert (first + [last])[..|first|] == first;
  }

  lemma CutLate(was: Card, mid: Card, first: seq<Tx>, last: Tx, n: nat, torn: Sector, mounts: seq<CutMount>)
    returns (kept: nat)
    requires Ran(was, mid, first) && TxOk(mid, last)
    requires |AllWrites(first)| <= n <= |AllWrites(first + [last])|
    ensures InRange(AllWrites(first + [last]))
    ensures Clean(Recover(CutAt(was, AllWrites(first + [last]), n, torn), mounts))
    ensures KeptAt(was, first + [last], n, Recover(CutAt(was, AllWrites(first + [last]), n, torn), mounts), kept)
  {
    hide TxOk, Ran, AllWrites, TxWrites, CutAt, Recover, KeptAt, Clean, ViewOf, BodyOk, Bodies;
    AllWritesLast(first, last);
    TxBody(mid, last);
    BodyTouches(last);
    RanApplies(was, mid, first);
    CutSplit(was, AllWrites(first), TxWrites(last), n, torn);
    var keep := CutInLast(was, mid, first, last, n - |AllWrites(first)|, torn, mounts);
    kept := if keep then |first| + 1 else |first|;
    KeptHere(was, first, last, n, Recover(CutAt(was, AllWrites(first + [last]), n, torn), mounts), keep);
  }

  lemma CutEarly(was: Card, mid: Card, first: seq<Tx>, last: Tx, n: nat, torn: Sector)
    requires Ran(was, mid, first) && BodyOk(last) && n < |AllWrites(first)|
    ensures InRange(AllWrites(first)) && InRange(AllWrites(first + [last]))
    ensures CutAt(was, AllWrites(first + [last]), n, torn) == CutAt(was, AllWrites(first), n, torn)
  {
    AllWritesLast(first, last);
    BodyTouches(last);
    RanApplies(was, mid, first);
    CutSplit(was, AllWrites(first), TxWrites(last), n, torn);
  }

  /** Cut the power at any write of a whole session, and cut recovery any number of times: the
      view that the first completed mount finds is that of the first `kept` transactions, where
      every transaction whose writes were all done is kept and at most one more is. */
  lemma {:induction false} CutAnywhere(was: Card, now: Card, txs: seq<Tx>, n: nat, torn: Sector, mounts: seq<CutMount>)
    returns (kept: nat)
    requires Ran(was, now, txs) && n <= |AllWrites(txs)|
    requires Clean(was)
    ensures InRange(AllWrites(txs))
    ensures Clean(Recover(CutAt(was, AllWrites(txs), n, torn), mounts))
    ensures KeptAt(was, txs, n, Recover(CutAt(was, AllWrites(txs), n, torn), mounts), kept)
    decreases txs
  {
    if txs == [] {
      kept := 0;
      RecoverClean(was, mounts);
    } else {
      var last, first := txs[|txs| - 1], txs[..|txs| - 1];
      var mid := Apply(was, AllWrites(first));
      assert txs == first + [last];
      if n < |AllWrites(first)| {
        kept := CutAnywhere(was, mid, first, n, torn, mounts);
        CutEarly(was, mid, first, last, n, torn);
        KeptEarlier(was, first, last, n, Recover(CutAt(was, AllWrites(txs), n, torn), mounts), kept);
      } else {
        kept := CutLate(was, mid, first, last, n, torn, mounts);
      }
    }
  }

  lemma {:induction false} WritesGrow(txs: seq<Tx>, a: nat, b: nat)
    requires a <= b <= |txs|
    ensures |AllWrites(txs[..a])| <= |AllWrites(txs[..b])|
    decreases b
  {
    if a < b {
      assert txs[..b][..b - 1] == txs[..b - 1];
      WritesGrow(txs, a, b - 1);
    }
  }

  /** A cut at the first write of a transaction keeps exactly the transactions before it. */
  lemma KeptExactly(was: Card, txs: seq<Tx>, k: nat, card: Card, kept: nat)
    requires k <= |txs| && KeptAt(was, txs, |AllWrites(txs[..k])|, card, kept)
    ensures kept == k
  {
    if kept < k { WritesGrow(txs, kept + 1, k); }
    if kept > k { WritesGrow(txs, k, kept - 1); }
  }
}
