/** What the rollback journal writes, as lists of sector writes, and what a mount reads back. */
module JournalLog {
  import opened Layout
  import opened StorageCard

  const JOURNAL_MAGIC: nat := 0x4A524E5C
  const MAGIC_ZEROED: nat := 0
  const MAGIC_ERASED: nat := 0xFFFFFFFF

  /** One journalled transaction: the old content and old bitmap sector that are saved, the
      in-place writes, and how often the committed header is written at the end. */
  datatype Tx = Tx(kind: SectorKind, sector: nat, content: Sector, usage: Sector,
                   body: seq<Write>, twice: bool)

  predicate IsHistory(kind: SectorKind) {
    kind == CallHistoryKind || kind == MessageHistoryKind
  }

  /** The data sectors a journal entry of this kind can name. */
  predicate KindInRange(kind: SectorKind, sector: nat) {
    if IsHistory(kind) then MESSAGE_HISTORY_START <= sector < DATA_SECTORS
    else sector < MESSAGE_HISTORY_START
  }

  function Header(state: JournalState, kind: SectorKind, sector: nat): Sector {
    HeaderSector(JOURNAL_MAGIC, state, kind, sector)
  }

  function SaveWrites(kind: SectorKind, content: Sector, usage: Sector): (ws: seq<Write>) {
    (if IsHistory(kind) then [] else [Write(JOURNAL_USAGE, usage)]) +
    (if kind == RemoveKind then [] else [Write(JOURNAL_CONTENT, content)])
  }

  function AddWrites(kind: SectorKind, sector: nat, content: Sector, usage: Sector): (ws: seq<Write>) {
    SaveWrites(kind, content, usage) + [Write(JOURNAL_HEADER, Header(Active, kind, sector))]
  }

  function CommitWrites(kind: SectorKind, sector: nat, twice: bool): (ws: seq<Write>) {
    var commit := Write(JOURNAL_HEADER, Header(Committed, kind, sector));
    if twice then [commit, commit] else [commit]
  }

  function TxWrites(tx: Tx): (ws: seq<Write>) {
    AddWrites(tx.kind, tx.sector, tx.content, tx.usage) + tx.body + CommitWrites(tx.kind, tx.sector, tx.twice)
  }

  /** The sectors a rollback of this entry may write, apart from the header. */
  function Touched(kind: SectorKind, sector: nat): set<nat> {
    (if kind == RemoveKind then {} else {RawData(sector)}) +
    (if IsHistory(kind) then {} else {RawBitmap(sector)})
  }

  // ----- what a mount does -----

  datatype HeaderStatus = HeaderUninitialised | HeaderCorrupted | HeaderValid | HeaderRollback

  function Status(header: Sector): HeaderStatus {
    match header
    case Garbage(word) =>
      if word == MAGIC_ZEROED || word == MAGIC_ERASED then HeaderUninitialised else HeaderCorrupted
    case HeaderSector(magic, state, _, _) =>
      if magic != JOURNAL_MAGIC then HeaderUninitialised
      else if state == Active then HeaderRollback else HeaderValid
    case _ => HeaderUninitialised
  }

  function RollbackContent(card: Card): (ws: seq<Write>)
    requires card[JOURNAL_HEADER].HeaderSector?
  {
    var h := card[JOURNAL_HEADER];
    if h.kind == RemoveKind then [] else [Write(RawData(h.sector), card[JOURNAL_CONTENT])]
  }

  function RollbackUsage(card: Card): (ws: seq<Write>)
    requires card[JOURNAL_HEADER].HeaderSector?
  {
    var h := card[JOURNAL_HEADER];
    if IsHistory(h.kind) then [] else [Write(RawBitmap(h.sector), card[JOURNAL_USAGE])]
  }

  function RollbackWrites(card: Card): (ws: seq<Write>)
    requires card[JOURNAL_HEADER].HeaderSector?
  {
    RollbackContent(card) + RollbackUsage(card) +
    [Write(JOURNAL_HEADER, card[JOURNAL_HEADER].(state := Committed))]
  }

  /** Every saved sector that a rollback has to read passes its CRC. */
  predicate RollbackReadable(card: Card)
    requires card[JOURNAL_HEADER].HeaderSector?
  {
    var h := card[JOURNAL_HEADER];
    && (h.kind != RemoveKind ==> !card[JOURNAL_CONTENT].Garbage?)
    && (!IsHistory(h.kind) ==> !card[JOURNAL_USAGE].Garbage?)
  }

  /** An active header names a sector of the card, as every header that `Add` writes does. */
  predicate HeaderInRange(card: Card) {
    Status(card[JOURNAL_HEADER]) == HeaderRollback ==>
      KindInRange(card[JOURNAL_HEADER].kind, card[JOURNAL_HEADER].sector)
  }

  /** The writes of one mount's journal recovery, when all its reads succeed. */
  function MountWrites(card: Card): (ws: seq<Write>) {
    match Status(card[JOURNAL_HEADER])
    case HeaderUninitialised => [Write(JOURNAL_HEADER, Header(Idle, ContactKind, 0))]
    case HeaderCorrupted => []
    case HeaderValid => []
    case HeaderRollback => RollbackWrites(card)
  }

  lemma MountInRange(card: Card)
    requires HeaderInRange(card)
    ensures InRange(MountWrites(card))
  {
  }
}
