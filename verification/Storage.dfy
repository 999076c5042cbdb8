/** The card as an array of sectors.  A sector is a typed record, or garbage: bytes whose
    CRC-32 trailer does not match. */
module StorageCard {
  import opened Layout

  newtype Byte = x: int | 0 <= x < 256

  type Text = seq<Byte>

  /** What a 16-bit field holds. */
  type Index16 = x: nat | x <= 0xFFFF

  function Truncate16(x: nat): Index16 { x % 0x1_0000 }

  datatype Contact = Contact(name: Text, phone: Text)

  datatype Message = Message(timestamp: nat, outgoing: bool, text: Text)

  datatype JournalState = Idle | Active | Committed

  datatype SectorKind = ContactKind | MessageKind | CallHistoryKind | MessageHistoryKind | RemoveKind

  datatype RingState = RingEmpty | RingOccupied | RingFull

  datatype HistoryEntry =
    | MessageEntry(sector: nat, message: Message)
    | CallEntry(contactIndex: nat, contact: Contact)

  datatype Sector =
    | Garbage(firstWord: nat)
    | HeaderSector(magic: nat, state: JournalState, kind: SectorKind, sector: nat)
    | BitmapSector(bits: seq<bool>)
    | ContactSector(used: seq<bool>, slots: seq<Contact>)
    | MessageSector(next: nat, prev: nat, contactIndex: Index16, count: nat, messages: seq<Message>)
    | RingSector(seqno: nat, head: nat, fill: RingState, entries: seq<HistoryEntry>)

  /** The return codes of the storage layer. */
  datatype Ret = Ok | Fail | Empty | Full | Corrupt | Exists

  datatype Option<T> = None | Some(value: T)

  datatype Write = Write(index: nat, sector: Sector)

  type Card = s: seq<Sector> | |s| == CARD_SECTORS
    witness seq(CARD_SECTORS, _ => Garbage(0))

  predicate InRange(ws: seq<Write>) {
    forall w <- ws :: w.index < CARD_SECTORS
  }

  /** The card after a list of complete writes. */
  function Apply(card: Card, ws: seq<Write>): Card
    requires InRange(ws)
    decreases ws
  {
    if ws == [] then card
    else Apply(card[ws[0].index := ws[0].sector], ws[1..])
  }

  lemma {:induction false} ApplyAppend(card: Card, ws: seq<Write>, more: seq<Write>)
    requires InRange(ws) && InRange(more)
    ensures InRange(ws + more)
    ensures Apply(card, ws + more) == Apply(Apply(card, ws), more)
    decreases ws
  {
    if ws == [] {
      assert ws + more == more;
    } else {
      assert (ws + more)[1..] == ws[1..] + more;
      ApplyAppend(card[ws[0].index := ws[0].sector], ws[1..], more);
    }
  }

  class Storage {
    var sectors: Card
    // every write this card has received, oldest first
    ghost var log: seq<Write>

    constructor (card: Card)
      ensures sectors == card && log == []
    {
      sectors := card;
      log := [];
    }

    method WriteSector(index: nat, sector: Sector)
      requires index < CARD_SECTORS
      modifies this
      ensures sectors == old(sectors)[index := sector]
      ensures log == old(log) + [Write(index, sector)]
    {
      sectors := sectors[index := sector];
      log := log + [Write(index, sector)];
    }
  }
}
