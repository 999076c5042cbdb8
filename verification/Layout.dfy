/** Sector addresses and bit addresses of the card.  Three index spaces exist: record
    indexes (contact slots, message sectors, ring sectors), data sectors (what the journal
    and the usage bitmap count) and raw sectors (what the card counts). */
module Layout {
  const NIL: nat := 0xFFFF

  const HASH_TABLE_SIZE: nat := 14293
  const MAX_CONTACTS: nat := 10000
  const CONTACT_CAPACITY: nat := 6
  const CONTACT_SECTORS: nat := 1667
  const MESSAGE_CAPACITY: nat := 3
  const MESSAGE_SECTORS: nat := 28586
  const MESSAGE_HISTORY_CAPACITY: nat := 2
  const MESSAGE_HISTORY_SECTORS: nat := 5000
  const CALL_HISTORY_CAPACITY: nat := 5
  const CALL_HISTORY_SECTORS: nat := 5000

  const BITS_PER_WORD: nat := 32
  const WORDS_PER_SECTOR: nat := 128
  const USAGE_WORDS_PER_SECTOR: nat := 127
  const USAGE_BITS_PER_SECTOR: nat := 4064
  const BITMAP_SECTORS: nat := 8
  const TOTAL_BITS: nat := 32512

  const JOURNAL_HEADER: nat := 1
  const JOURNAL_CONTENT: nat := 2
  const JOURNAL_USAGE: nat := 3
  const BITMAP_START: nat := 4
  const DATA_START: nat := 12

  const MESSAGE_START: nat := 1667
  const MESSAGE_HISTORY_START: nat := 30253
  const CALL_HISTORY_START: nat := 35253
  const DATA_SECTORS: nat := 40253
  const CARD_SECTORS: nat := 40265

  function RawData(d: nat): nat { DATA_START + d }

  function RawBitmap(d: nat): nat { BITMAP_START + d / USAGE_BITS_PER_SECTOR }

  /** The literals above are the ones the macros of the layout header evaluate to. */
  lemma DerivedSizes()
    ensures CONTACT_CAPACITY == (508 - 1 - 1) / 81
    ensures CONTACT_SECTORS == (MAX_CONTACTS + CONTACT_CAPACITY - 1) / CONTACT_CAPACITY
    ensures MESSAGE_CAPACITY == (508 - 8) / 166
    ensures MESSAGE_SECTORS == HASH_TABLE_SIZE * 2
    ensures MESSAGE_HISTORY_CAPACITY == (508 - 8) / (166 + 2)
    ensures MESSAGE_HISTORY_SECTORS == (MAX_CONTACTS + MESSAGE_HISTORY_CAPACITY - 1) / MESSAGE_HISTORY_CAPACITY
    ensures CALL_HISTORY_CAPACITY == (508 - 8) / 84
    ensures USAGE_BITS_PER_SECTOR == USAGE_WORDS_PER_SECTOR * BITS_PER_WORD
    ensures BITMAP_SECTORS == (CONTACT_SECTORS + MESSAGE_SECTORS + USAGE_BITS_PER_SECTOR - 1) / USAGE_BITS_PER_SECTOR
    ensures TOTAL_BITS == BITMAP_SECTORS * USAGE_BITS_PER_SECTOR
    ensures DATA_START == BITMAP_START + BITMAP_SECTORS
    ensures MESSAGE_START == CONTACT_SECTORS
    ensures MESSAGE_HISTORY_START == MESSAGE_START + MESSAGE_SECTORS
    ensures CALL_HISTORY_START == MESSAGE_HISTORY_START + MESSAGE_HISTORY_SECTORS
    ensures DATA_SECTORS == CALL_HISTORY_START + CALL_HISTORY_SECTORS
    ensures CARD_SECTORS == DATA_START + DATA_SECTORS < 0x1_0000
  {
  }
}
