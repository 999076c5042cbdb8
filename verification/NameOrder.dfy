/** The order of the name index: names without regard to case, then names, then phone numbers. */
module NameOrder {
  import opened StorageCard
  import opened IndexOrder

  /** Bytewise comparison; a proper prefix comes first. */
  function Lex(a: Text, b: Text): int {
    if a == [] || b == [] then |a| - |b|
    else if a[0] != b[0] then a[0] as int - b[0] as int
    else Lex(a[1..], b[1..])
  }

  function Fold(name: Text): (f: Text)
    ensures |f| == |name|
  {
    seq(|name|, i requires 0 <= i < |name| => Lower(name[i]))
  }

  // ----- what folding and comparing mean -----

  predicate IsCapital(c: Byte) { 65 <= c as int <= 90 }

  /** The same byte, or the same letter in the other case. */
  predicate SameLetter(x: Byte, y: Byte) {
    x == y || (IsCapital(x) && y as int == x as int + 32) || (IsCapital(y) && x as int == y as int + 32)
  }

  lemma FoldCapitals(name: Text)
    ensures forall i :: 0 <= i < |name| ==>
      !IsCapital(Fold(name)[i]) && SameLetter(name[i], Fold(name)[i]) && (!IsCapital(name[i]) ==> Fold(name)[i] == name[i])
  {
  }

  /** A folded name has no capitals, and is the name but for its capitals; names fold alike exactly
      if they differ in the case of letters only. */
  lemma FoldAlike(a: Text, b: Text)
    ensures forall i :: 0 <= i < |a| ==> !IsCapital(Fold(a)[i]) && (!IsCapital(a[i]) ==> Fold(a)[i] == a[i])
    ensures Fold(a) == Fold(b) <==> |a| == |b| && forall i :: 0 <= i < |a| ==> SameLetter(a[i], b[i])
  {
    FoldCapitals(a);
    FoldCapitals(b);
    if Fold(a) == Fold(b) {
      forall i | 0 <= i < |a|
        ensures SameLetter(a[i], b[i])
      {
        assert Fold(a)[i] == Fold(b)[i];
      }
    }
  }

  /** The comparison is negative exactly if the first string comes first in a dictionary. */
  lemma {:induction false} LexPrecedes(a: Text, b: Text)
    ensures Lex(a, b) < 0 <==> Precedes(a, b)
  {
    if a == [] || b == [] || a[0] != b[0] {
      PrecedesHead(a, b);
    } else {
      PrecedesTail(a, b);
      LexPrecedes(a[1..], b[1..]);
    }
  }

  /** By name without regard to case, then by name, then by phone number. */
  ghost predicate Alphabetical(a: Contact, b: Contact) {
    || Precedes(Fold(a.name), Fold(b.name))
    || (Fold(a.name) == Fold(b.name) && (Precedes(a.name, b.name) || (a.name == b.name && Precedes(a.phone, b.phone))))
  }

  lemma NameAlphabetical(a: Contact, b: Contact)
    ensures NameCmp(a, b) < 0 <==> Alphabetical(a, b)
  {
    LexPrecedes(Fold(a.name), Fold(b.name));
    LexEqual(Fold(a.name), Fold(b.name));
    LexPrecedes(a.name, b.name);
    LexEqual(a.name, b.name);
    LexPrecedes(a.phone, b.phone);
    hide Lex, Fold, Precedes;
  }

  /** Compares two strings byte by byte, with or without regard to case. */
  method BytesCmp(a: Text, b: Text, ignoreCase: bool) returns (c: int)
    ensures c == if ignoreCase then Lex(Fold(a), Fold(b)) else Lex(a, b)
  {
    ghost var x, y := if ignoreCase then Fold(a) else a, if ignoreCase then Fold(b) else b;
    var n := if |a| < |b| then |a| else |b|;
    for i := 0 to n
      invariant Lex(x, y) == Lex(x[i..], y[i..])
    {
      var ca := if ignoreCase then Lower(a[i]) else a[i];
      var cb := if ignoreCase then Lower(b[i]) else b[i];
      if ca != cb {
        return ca as int - cb as int;
      }
      assert x[i..][1..] == x[i + 1..] && y[i..][1..] == y[i + 1..];
    }
    return |a| - |b|;
  }

  /** The order of contacts. */
  function NameCmp(a: Contact, b: Contact): int {
    var folded := Lex(Fold(a.name), Fold(b.name));
    if folded != 0 then folded
    else
      var name := Lex(a.name, b.name);
      if name != 0 then name else Lex(a.phone, b.phone)
  }

  /** What the index compares: the keys first, and only if they are equal the contacts. */
  function KeyedCmp(a: Contact, b: Contact): int {
    var k := MemCmp(MakeKey(a.name), MakeKey(b.name));
    if k != 0 then k else NameCmp(a, b)
  }

  // ----- a total order -----

  lemma {:induction false} LexEqual(a: Text, b: Text)
    ensures Lex(a, b) == 0 <==> a == b
  {
    if a != [] && b != [] {
      LexEqual(a[1..], b[1..]);
      assert a == [a[0]] + a[1..] && b == [b[0]] + b[1..];
    }
  }

  lemma {:induction false} LexFlip(a: Text, b: Text)
    ensures Lex(a, b) < 0 <==> Lex(b, a) > 0
    decreases |a|
  {
    if a != [] && b != [] { LexFlip(a[1..], b[1..]); }
  }

  lemma {:induction false} LexTransitive(a: Text, b: Text, c: Text)
    requires Lex(a, b) <= 0 && Lex(b, c) <= 0
    ensures Lex(a, c) <= 0 && (Lex(a, c) == 0 ==> Lex(a, b) == 0 && Lex(b, c) == 0)
    decreases |a|
  {
    if a != [] && b != [] && c != [] && a[0] == b[0] == c[0] {
      LexTransitive(a[1..], b[1..], c[1..]);
    }
  }

  /** Equal only to itself, and the other way round from the other side. */
  lemma NameTotal(a: Contact, b: Contact)
    ensures NameCmp(a, b) == 0 <==> a == b
    ensures NameCmp(a, b) < 0 <==> NameCmp(b, a) > 0
  {
    LexEqual(Fold(a.name), Fold(b.name));
    LexEqual(Fold(b.name), Fold(a.name));
    LexFlip(Fold(a.name), Fold(b.name));
    LexFlip(Fold(b.name), Fold(a.name));
    LexEqual(a.name, b.name);
    LexEqual(b.name, a.name);
    LexFlip(a.name, b.name);
    LexFlip(b.name, a.name);
    LexEqual(a.phone, b.phone);
    LexFlip(a.phone, b.phone);
    LexFlip(b.phone, a.phone);
    LexEqual(b.phone, a.phone);
  }

  lemma NameTransitive(a: Contact, b: Contact, c: Contact)
    requires NameCmp(a, b) <= 0 && NameCmp(b, c) <= 0
    ensures NameCmp(a, c) <= 0 && (NameCmp(a, c) == 0 ==> NameCmp(a, b) == 0 && NameCmp(b, c) == 0)
  {
    LexTransitive(Fold(a.name), Fold(b.name), Fold(c.name));
    LexEqual(Fold(a.name), Fold(b.name));
    LexEqual(Fold(b.name), Fold(c.name));
    LexEqual(Fold(a.name), Fold(c.name));
    if Lex(Fold(a.name), Fold(c.name)) == 0 {
      LexTransitive(a.name, b.name, c.name);
      LexEqual(a.name, b.name);
      LexEqual(b.name, c.name);
      LexEqual(a.name, c.name);
      if Lex(a.name, c.name) == 0 { LexTransitive(a.phone, b.phone, c.phone); }
    }
  }

  // ----- the key is safe -----

  function Sign(x: int): int { if x < 0 then -1 else if x > 0 then 1 else 0 }

  /** The first `n` bytes of a folded name, padded with zeros. */
  function Padded(f: Text, n: nat): (k: Text)
    ensures |k| == n
  {
    seq(n, i requires 0 <= i < n => if i < |f| then f[i] else 0)
  }

  lemma KeyPadded(name: Text)
    ensures MakeKey(name) == Padded(Fold(name), KEY_LENGTH)
  {
  }

  lemma PaddedTail(f: Text, n: nat)
    requires n > 0
    ensures Padded(f, n)[1..] == Padded(if f == [] then [] else f[1..], n - 1)
  {
  }

  /** Padded prefixes that differ compare as the whole strings do. */
  lemma {:induction false} PrefixDecides(a: Text, b: Text, n: nat)
    requires MemCmp(Padded(a, n), Padded(b, n)) != 0
    ensures Sign(MemCmp(Padded(a, n), Padded(b, n))) == Sign(Lex(a, b))
    decreases n
  {
    if n > 0 {
      PaddedTail(a, n);
      PaddedTail(b, n);
      var x, y := Padded(a, n), Padded(b, n);
      if x[0] == y[0] {
        PrefixDecides(if a == [] then [] else a[1..], if b == [] then [] else b[1..], n - 1);
      }
    }
  }

  /** Comparing the keys first gives the order of the contacts: where the keys differ, they never
      decide differently from the whole names. */
  lemma KeySafe(a: Contact, b: Contact)
    ensures Sign(KeyedCmp(a, b)) == Sign(NameCmp(a, b))
  {
    if MemCmp(MakeKey(a.name), MakeKey(b.name)) != 0 {
      KeyPadded(a.name);
      KeyPadded(b.name);
      PrefixDecides(Fold(a.name), Fold(b.name), KEY_LENGTH);
    }
  }

  // ----- a callback for the candidate indexes -----

  /** Compares the full names of two contacts, first without regard to case, then their sectors;
      `probe` is the name that is searched for, and ties with every contact of that name. */
  function ByName(names: nat -> Text, probe: Text): TieBreak {
    (a: nat, b: nat) =>
      var c := NameCmp(Stands(names, probe, a), Stands(names, probe, b));
      if c != 0 then c else if a == PROBE_SECTOR || b == PROBE_SECTOR then 0 else a - b
  }

  function Stands(names: nat -> Text, probe: Text, a: nat): Contact {
    Contact(if a == PROBE_SECTOR then probe else names(a), [])
  }

  /** It respects what the indexes demand. */
  lemma ByNameLawful(names: nat -> Text, probe: Text)
    ensures Lawful(ByName(names, probe))
  {
    var t := ByName(names, probe);
    hide NameCmp;
    forall a, b
      ensures t(a, b) < 0 <==> t(b, a) > 0
    {
      NameTotal(Stands(names, probe, a), Stands(names, probe, b));
      NameTotal(Stands(names, probe, b), Stands(names, probe, a));
    }
    forall a, b, c | a != PROBE_SECTOR && b != PROBE_SECTOR && t(a, b) < 0 && t(b, c) <= 0
      ensures if c == PROBE_SECTOR then t(a, c) <= 0 else t(a, c) < 0
      ensures t(b, c) < 0 ==> t(a, c) < 0
    {
      NameTransitive(Stands(names, probe, a), Stands(names, probe, b), Stands(names, probe, c));
    }
    forall a | a != PROBE_SECTOR
      ensures t(a, a) == 0
    {
      NameTotal(Stands(names, probe, a), Stands(names, probe, a));
    }
  }

  /** Whatever name is searched for, contacts compare alike. */
  lemma ByNameNaming(names: nat -> Text)
    ensures LawfulNaming(probe => ByName(names, probe), ByName(names, []))
  {
    hide NameCmp, Lawful;
    forall probe
      ensures Lawful(ByName(names, probe)) && SameContacts(ByName(names, probe), ByName(names, []))
    {
      ByNameLawful(names, probe);
    }
  }
}
