/** The order that both candidate name indexes share: an 8-byte key, then a callback that compares
    the contacts themselves. */
module IndexOrder {
  import opened StorageCard

  const KEY_LENGTH: nat := 8
  const NO_MESSAGE: nat := 0xFFFF
  const NOT_FOUND: nat := 0xFFFF
  const PROBE_SECTOR: nat := 0xFFFE
  const MAX_ENTRIES: nat := 10000

  type Key = k: seq<Byte> | |k| == KEY_LENGTH
    witness seq(KEY_LENGTH, _ => 0)

  datatype SortedEntry = SortedEntry(key: Key, contactIndex: nat, messageIndex: nat)

  /** Compares two contacts given by their sectors; the probe sector stands for the name that is
      searched for. */
  type TieBreak = (nat, nat) -> int

  function Lower(c: Byte): Byte {
    if 'A' as int <= c as int <= 'Z' as int then c + 32 else c
  }

  /** The first bytes of a name, in lower case, padded with zeros. */
  function MakeKey(name: Text): Key {
    seq(KEY_LENGTH, i requires 0 <= i < KEY_LENGTH => if i < |name| then Lower(name[i]) else 0)
  }

  /** Bytewise comparison, as memcmp does it. */
  function MemCmp(a: seq<Byte>, b: seq<Byte>): int
    requires |a| == |b|
  {
    if a == [] then 0 else if a[0] != b[0] then a[0] as int - b[0] as int else MemCmp(a[1..], b[1..])
  }

  /** At `k` the strings differ for the first time, and `a` has the smaller byte there, or ends. */
  predicate SplitsAt(a: seq<Byte>, b: seq<Byte>, k: nat) {
    k <= |a| && k < |b| && a[..k] == b[..k] && (k < |a| ==> a[k] < b[k])
  }

  /** `a` comes before `b` as in a dictionary. */
  ghost predicate Precedes(a: seq<Byte>, b: seq<Byte>) { exists k: nat :: SplitsAt(a, b, k) }

  lemma SplitsTail(a: seq<Byte>, b: seq<Byte>, k: nat)
    requires a != [] && b != [] && a[0] == b[0]
    ensures SplitsAt(a, b, k + 1) <==> SplitsAt(a[1..], b[1..], k)
  {
    if k + 1 <= |a| && k + 1 <= |b| {
      assert a[..k + 1] == [a[0]] + a[1..][..k] && b[..k + 1] == [b[0]] + b[1..][..k];
      assert a[1..][..k] == a[..k + 1][1..] && b[1..][..k] == b[..k + 1][1..];
    }
  }

  /** Behind a common first byte the rest decides. */
  lemma PrecedesTail(a: seq<Byte>, b: seq<Byte>)
    requires a != [] && b != [] && a[0] == b[0]
    ensures Precedes(a, b) <==> Precedes(a[1..], b[1..])
  {
    if Precedes(a, b) {
      var k: nat :| SplitsAt(a, b, k);
      SplitsTail(a, b, k - 1);
    }
    if Precedes(a[1..], b[1..]) {
      var k: nat :| SplitsAt(a[1..], b[1..], k);
      SplitsTail(a, b, k);
    }
  }

  lemma SplitsLater(a: seq<Byte>, b: seq<Byte>, k: nat)
    requires SplitsAt(a, b, k) && k > 0
    ensures a != [] && b != [] && a[0] == b[0]
  {
    assert a[..k][0] == b[..k][0];
  }

  /** Strings of which one is empty, or whose first bytes differ. */
  lemma PrecedesHead(a: seq<Byte>, b: seq<Byte>)
    requires a == [] || b == [] || a[0] != b[0]
    ensures Precedes(a, b) <==> b != [] && (a == [] || a[0] < b[0])
  {
    if Precedes(a, b) {
      var k: nat :| SplitsAt(a, b, k);
      if k > 0 { SplitsLater(a, b, k); }
    }
    if b != [] && (a == [] || a[0] < b[0]) { assert SplitsAt(a, b, 0); }
  }

  /** The comparison is negative exactly if the first string comes first. */
  lemma {:induction false} MemCmpPrecedes(a: seq<Byte>, b: seq<Byte>)
    requires |a| == |b|
    ensures MemCmp(a, b) < 0 <==> Precedes(a, b)
  {
    if a == [] || a[0] != b[0] {
      PrecedesHead(a, b);
    } else {
      PrecedesTail(a, b);
      MemCmpPrecedes(a[1..], b[1..]);
    }
  }

  function Cmp(keyA: Key, sectorA: nat, keyB: Key, sectorB: nat, tiebreak: TieBreak): int {
    var c := MemCmp(keyA, keyB);
    if c != 0 then c else tiebreak(sectorA, sectorB)
  }

  function EntryCmp(a: SortedEntry, b: SortedEntry, tiebreak: TieBreak): int {
    Cmp(a.key, a.contactIndex, b.key, b.contactIndex, tiebreak)
  }

  /** The keys decide, whatever the callback says; among equal keys the callback does. */
  lemma KeysFirst(a: SortedEntry, b: SortedEntry, tiebreak: TieBreak)
    ensures EntryCmp(a, b, tiebreak) < 0 <==>
            Precedes(a.key, b.key) || (a.key == b.key && tiebreak(a.contactIndex, b.contactIndex) < 0)
  {
    MemCmpPrecedes(a.key, b.key);
    MemCmpEqual(a.key, b.key);
  }

  /** The callback is a strict total order on the sectors of contacts, and sorts the probe in
      among them: smaller contacts never compare greater with it than larger ones. */
  ghost predicate Lawful(tiebreak: TieBreak) {
    && (forall a, b :: a != PROBE_SECTOR && b != PROBE_SECTOR ==> (tiebreak(a, b) == 0 <==> a == b))
    && (forall a, b :: tiebreak(a, b) < 0 <==> tiebreak(b, a) > 0)
    && (forall a, b, c :: a != PROBE_SECTOR && b != PROBE_SECTOR && tiebreak(a, b) < 0 && tiebreak(b, c) <= 0 ==>
          if c == PROBE_SECTOR then tiebreak(a, c) <= 0 else tiebreak(a, c) < 0)
    && (forall a, b :: a != PROBE_SECTOR && b != PROBE_SECTOR && tiebreak(a, b) < 0 && tiebreak(b, PROBE_SECTOR) < 0 ==>
          tiebreak(a, PROBE_SECTOR) < 0)
  }

  /** Two callbacks that compare contacts alike.  They may differ on the probe: the name that it
      stands for is set anew before each search. */
  ghost predicate SameContacts(a: TieBreak, b: TieBreak) {
    forall x, y :: x != PROBE_SECTOR && y != PROBE_SECTOR ==> a(x, y) == b(x, y)
  }

  /** The callback during a search, by the name that is searched for. */
  type Naming = Text -> TieBreak

  /** Whatever name is searched for, the callback is a total order, and always the same one on
      contacts. */
  ghost predicate LawfulNaming(naming: Naming, tiebreak: TieBreak) {
    forall name :: Lawful(naming(name)) && SameContacts(naming(name), tiebreak)
  }

  lemma {:induction false} MemCmpEqual(a: seq<Byte>, b: seq<Byte>)
    requires |a| == |b|
    ensures MemCmp(a, b) == 0 <==> a == b
  {
    if a != [] {
      MemCmpEqual(a[1..], b[1..]);
      assert a == [a[0]] + a[1..] && b == [b[0]] + b[1..];
    }
  }

  lemma {:induction false} MemCmpFlip(a: seq<Byte>, b: seq<Byte>)
    requires |a| == |b|
    ensures MemCmp(a, b) < 0 <==> MemCmp(b, a) > 0
  {
    if a != [] { MemCmpFlip(a[1..], b[1..]); }
  }

  lemma {:induction false} MemCmpTransitive(a: seq<Byte>, b: seq<Byte>, c: seq<Byte>)
    requires |a| == |b| == |c| && MemCmp(a, b) <= 0 && MemCmp(b, c) <= 0
    ensures MemCmp(a, c) <= 0 && (MemCmp(a, c) == 0 ==> MemCmp(a, b) == 0 && MemCmp(b, c) == 0)
  {
    if a != [] {
      if a[0] == b[0] == c[0] { MemCmpTransitive(a[1..], b[1..], c[1..]); }
    }
  }

  predicate Less(a: SortedEntry, b: SortedEntry, tiebreak: TieBreak) {
    EntryCmp(a, b, tiebreak) < 0
  }

  predicate SameSlot(a: SortedEntry, b: SortedEntry) {
    a.key == b.key && a.contactIndex == b.contactIndex
  }

  /** The combined order is total: key and sector identify an entry, and two entries compare the
      same way round from both sides. */
  lemma OrderTotal(a: SortedEntry, b: SortedEntry, tiebreak: TieBreak)
    requires Lawful(tiebreak)
    ensures Less(a, b, tiebreak) <==> EntryCmp(b, a, tiebreak) > 0
    ensures a.contactIndex != PROBE_SECTOR && b.contactIndex != PROBE_SECTOR ==>
      (EntryCmp(a, b, tiebreak) == 0 <==> SameSlot(a, b))
  {
    MemCmpEqual(a.key, b.key);
    MemCmpEqual(b.key, a.key);
    MemCmpFlip(a.key, b.key);
    MemCmpFlip(b.key, a.key);
  }

  lemma LessTransitive(a: SortedEntry, b: SortedEntry, c: SortedEntry, tiebreak: TieBreak)
    requires Lawful(tiebreak) && a.contactIndex != PROBE_SECTOR && b.contactIndex != PROBE_SECTOR
    requires Less(a, b, tiebreak) && EntryCmp(b, c, tiebreak) <= 0
    ensures if c.contactIndex == PROBE_SECTOR then EntryCmp(a, c, tiebreak) <= 0 else Less(a, c, tiebreak)
    ensures Less(b, c, tiebreak) ==> Less(a, c, tiebreak)
  {
    MemCmpTransitive(a.key, b.key, c.key);
    MemCmpEqual(a.key, b.key);
    MemCmpEqual(b.key, c.key);
    MemCmpEqual(a.key, c.key);
  }

  // ----- sorted sequences -----

  /** Entries are in order for any search if they are for one. */
  lemma SortedForAll(s: seq<SortedEntry>, a: TieBreak, b: TieBreak)
    requires Sorted(s, a) && SameContacts(a, b)
    ensures Sorted(s, b)
  {
    forall i, j | 0 <= i < j < |s|
      ensures Less(s[i], s[j], b)
    {
      assert Less(s[i], s[j], a);
    }
  }

  ghost predicate Sorted(s: seq<SortedEntry>, tiebreak: TieBreak) {
    && (forall i :: 0 <= i < |s| ==> s[i].contactIndex != PROBE_SECTOR)
    && forall i, j :: 0 <= i < j < |s| ==> Less(s[i], s[j], tiebreak)
  }

  /** Where `e` belongs in a sorted sequence: how many entries are smaller. */
  function Place(s: seq<SortedEntry>, e: SortedEntry, tiebreak: TieBreak): (p: nat)
    ensures p <= |s|
  {
    if s == [] || !Less(s[0], e, tiebreak) then 0 else 1 + Place(s[1..], e, tiebreak)
  }

  predicate PlaceAt(s: seq<SortedEntry>, e: SortedEntry, tiebreak: TieBreak, p: nat) {
    && p <= |s|
    && (forall i :: 0 <= i < p ==> Less(s[i], e, tiebreak))
    && (forall i :: p <= i < |s| ==> !Less(s[i], e, tiebreak))
  }

  lemma {:induction false} PlaceUnique(s: seq<SortedEntry>, e: SortedEntry, tiebreak: TieBreak, p: nat)
    requires PlaceAt(s, e, tiebreak, p)
    ensures Place(s, e, tiebreak) == p
  {
    if s != [] && p > 0 {
      assert PlaceAt(s[1..], e, tiebreak, p - 1);
      PlaceUnique(s[1..], e, tiebreak, p - 1);
    }
  }

  /** In a sorted sequence the smaller entries come first. */
  lemma {:induction false} PlaceSorted(s: seq<SortedEntry>, e: SortedEntry, tiebreak: TieBreak)
    requires Lawful(tiebreak) && Sorted(s, tiebreak)
    ensures PlaceAt(s, e, tiebreak, Place(s, e, tiebreak))
  {
    if s != [] {
      PlaceSorted(s[1..], e, tiebreak);
      if !Less(s[0], e, tiebreak) {
        forall i | 0 < i < |s|
          ensures !Less(s[i], e, tiebreak)
        {
          if Less(s[i], e, tiebreak) { LessTransitive(s[0], s[i], e, tiebreak); }
        }
      }
    }
  }

  function Present(s: seq<SortedEntry>, e: SortedEntry, tiebreak: TieBreak): bool {
    var p := Place(s, e, tiebreak);
    p < |s| && EntryCmp(s[p], e, tiebreak) == 0
  }

  /** The index with `e` added, unless its slot is there already. */
  function Added(s: seq<SortedEntry>, e: SortedEntry, tiebreak: TieBreak): seq<SortedEntry> {
    var p := Place(s, e, tiebreak);
    if Present(s, e, tiebreak) then s else s[..p] + [e] + s[p..]
  }

  /** The index without `e`'s slot. */
  function Taken(s: seq<SortedEntry>, e: SortedEntry, tiebreak: TieBreak): seq<SortedEntry> {
    var p := Place(s, e, tiebreak);
    if Present(s, e, tiebreak) then s[..p] + s[p + 1..] else s
  }

  /** The index with another message for `e`'s slot. */
  function Marked(s: seq<SortedEntry>, e: SortedEntry, messageIndex: nat, tiebreak: TieBreak): seq<SortedEntry> {
    var p := Place(s, e, tiebreak);
    if Present(s, e, tiebreak) then s[p := s[p].(messageIndex := messageIndex)] else s
  }

  /** How an entry of a sorted sequence compares with one whose place is `p`. */
  lemma AroundPlace(s: seq<SortedEntry>, e: SortedEntry, tiebreak: TieBreak, i: nat)
    requires Lawful(tiebreak) && Sorted(s, tiebreak) && e.contactIndex != PROBE_SECTOR && i < |s|
    ensures EntryCmp(s[i], e, tiebreak) == 0 <==> SameSlot(s[i], e)
    ensures i > Place(s, e, tiebreak) ==> Less(e, s[i], tiebreak)
    ensures EntryCmp(s[i], e, tiebreak) > 0 ==> Less(e, s[i], tiebreak)
  {
    var p := Place(s, e, tiebreak);
    PlaceSorted(s, e, tiebreak);
    OrderTotal(s[i], e, tiebreak);
    OrderTotal(e, s[i], tiebreak);
    if i > p {
      OrderTotal(s[p], e, tiebreak);
      OrderTotal(e, s[p], tiebreak);
      assert Less(s[p], s[i], tiebreak);
      hide Lawful, Sorted, Place;
      if Less(e, s[p], tiebreak) { LessTransitive(e, s[p], s[i], tiebreak); } else { MemCmpEqual(s[p].key, e.key); }
    }
  }

  lemma AddedSorted(s: seq<SortedEntry>, e: SortedEntry, tiebreak: TieBreak)
    requires Lawful(tiebreak) && Sorted(s, tiebreak) && e.contactIndex != PROBE_SECTOR
    ensures Sorted(Added(s, e, tiebreak), tiebreak)
    ensures Present(s, e, tiebreak) <==> exists i :: 0 <= i < |s| && SameSlot(s[i], e)
  {
    var p, now := Place(s, e, tiebreak), Added(s, e, tiebreak);
    PlaceSorted(s, e, tiebreak);
    forall i | 0 <= i < |s|
      ensures EntryCmp(s[i], e, tiebreak) == 0 <==> SameSlot(s[i], e)
      ensures i > p ==> Less(e, s[i], tiebreak)
      ensures EntryCmp(s[i], e, tiebreak) > 0 ==> Less(e, s[i], tiebreak)
    {
      AroundPlace(s, e, tiebreak, i);
    }
    hide Lawful, Place, EntryCmp, SameSlot;
    if !Present(s, e, tiebreak) {
      forall i, j | 0 <= i < j < |now|
        ensures Less(now[i], now[j], tiebreak)
      {
        if i != p && j != p {
          assert now[i] == s[if i < p then i else i - 1] && now[j] == s[if j < p then j else j - 1];
        }
      }
    }
  }
}
