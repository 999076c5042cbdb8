# A durable phone database, modelled and proved

The model covers a phone database that lives on an SD card behind a rollback journal, and the two
candidate name indexes that were compared for it. It is a state machine over the sectors of the card
and over the structures in RAM: contacts, chats and messages, the hash table, the allocators, the usage
bitmap, the name index, the chat order and two histories.

## How it is built

- `Storage`, `JournalLog`, `Journal`, `CrashSafety`, `Transactions`: the card is an array of sectors.
  Every write is a step that a power cut can hit; the sector that is being written is then left with
  anything in it, unless it is the journal header, which is written atomically. Recovery can be cut
  in the same way, any number of times. A journal carries the record of all transactions since the mount
  as ghost state, so every operation of the database is covered by the cut theorems.
- `UsageBitmap`, `FreeList`, `Contacts`, `Messages`: bitmap, allocators, contact slots and chats, as
  journalled operations.
- `Probing`, `HashTable`, `Agreement`, `Contents`, `HashOperations`: the double-hashed table, and the
  invariant that table, allocators, bitmap and card stand for one map of contacts and one of messages.
- `RebuildContacts`, `Orphans`, `Rebuild`, `Reboot`, `CutStores`: rebuilding RAM from the card, after an orderly
  run, on any card, beside chats whose contact is gone, and after a cut.
- `Rings`, `Histories`, `Backwards`: the history rings.
- `NameOrder`, `SortedArrays`, `ChatOrders`, `Heaps`, `ArrayMoves`: name index, chat order, heap sort.
- `CrossIndex`, `DatabaseFacts`, `Database`, `Mount`, `Format`: the whole database.
- `PhoneBooks`, `Runs`: a book of names and chats by phone number, and whole runs of operations against it.
- `IndexOrder`, `AvlTrees`, `AvlSearch`, `AvlPool`, `AvlIterators`, `AvlRebuild`, `NameArrays`, `SameIndex`: the two
  candidate indexes.
- `Crc`, `CrcPolynomials`: the sector trailer, over bytes, and the CRC as a remainder of polynomials.

Each part that the program changes in place is a class with methods proved against functions and
predicates over values; the lemmas are about those.

## What was found

Where the code does something other than one would expect, it is modelled as it is:

- A cut between the two transactions of a chat's roll-over keeps the new message exactly if the new
  sector has the higher index; otherwise a sector stays in use without a chat
  (`CutStores.RollOverCut`, `CutStores.HalfRolledKept`).
- A cut inside the removal of a chat leaves a link to a sector that is free. Once that sector is used for
  another chat, a restart loses the rest of the cut chat (`CutStores.HalfRemovedLost`).
- A restart removes a chat whose contact is gone along its `prev` links, and does not look whose sectors
  it meets. A sector that a cut roll-over left behind still names the sector before it; once that one has
  been given to another contact, the restart takes the other contact's sector out of use, and what
  comes before it. The exact condition is in `Orphans.OrphansEnd`, and for a stray sector in
  `Rebuild.StrayBeside`; if no orphan links back in this way, nothing but the orphans goes
  (`Rebuild.MountTables`).
- A cut between the two transactions of a page turn makes the next addition overwrite a full page
  (`CutStores.TurnCut`, `Histories.History.AddAfterHalfTurn`).
- History reads compute the sectors to skip in a signed 32-bit integer: with 64-bit starts a start far past the
  end can be answered with success. The exact condition is in `Histories.History.GetRange`;
  `Histories.History.ReadWrapped` is such a start.
- Removing a contact arms the journal before it looks at the slot, so an unused slot of a readable sector
  leaves an active entry behind (`Contacts.RemoveContact`).
- Adding a message to an unknown number without a free message sector leaves an unnamed contact without
  a chat, which the name index does not list (`HashOperations.HashTable.InsertMessage`).

## Model

| member | source | states |
|---|---|---|
| Layout.DerivedSizes | source/app/include/mem_layout.h:40-147 | the capacities and region starts used here are the values the macros evaluate to, and the whole card has less than 65536 sectors |
| Journals.Journal.Add | source/app/src/journal.c:99-181 | saving an entry writes the bitmap sector (not for histories), then the data sector (not for bare removals), then the active header, and nothing else |
| Journals.Journal.Rollback | source/app/src/journal.c:195-244 | a rollback succeeds exactly if every saved sector it needs is readable, and then the card is the saved sectors written back with a committed header |
| Journals.Journal.Init | source/app/src/journal.c:31-58 | what a mount does first: it writes a blank header, rolls back, does nothing or fails, by the status of the header; afterwards no entry is armed |
| Journals.Journal.GetStatus | source/app/src/journal.c:254-293 | the status is read off the header: garbage, foreign, active or at rest |
| CrashSafety.CrashAtomicity | source/app/src/journal.c:99-313 | cut one journalled transaction at any write, leaving anything in the sector being written unless it is the header, and cut recovery at any write any number of times: the first recovery that completes shows exactly the view from before or exactly the view from after |
| CrashSafety.RunAtomicity | source/app/src/journal.c:195-313 | over any run of completed and cut transactions, the card shows what exactly the completed ones and some of the cut ones give, in order |
| CrashSafety.CutAnywhere | source/app/src/journal.c:99-313 | cut a whole session at any write: recovery shows a prefix of its transactions, which has all that were completed and at most one more |
| CrashSafety.RollbackRestores | source/app/src/journal.c:195-244 | a rollback that runs to its end restores the view the transaction started from |
| Journals.Journal.SessionCut | source/app/src/journal.c:31-58 | the same for the write log of a live journal: everything the card has received since the mount is covered |
| Transactions.Transact | source/app/src/journal.c:151-313 | save, arm, change in place, commit: the card afterwards, the bitmap in RAM and on the card, and one more transaction on record |
| Transactions.OpTxOk | source/app/src/journal.c:99-181 | the transactions that the operations build keep every condition under which a cut is recoverable, whether they set a bit, clear one or rewrite a sector |
| UsageBitmaps.UsageBitmap.UpdateUsageBit | source/app/src/usage_bitmap.c:82-131 | one bit changes, in RAM and on the card, although CRC words are interleaved with the words of bits |
| UsageBitmaps.UsageBitmap.ReadUsageBitmap | source/app/src/usage_bitmap.c:43-61 | reading succeeds exactly if every sector is readable, and RAM then holds the card's bits |
| UsageBitmaps.UsageBitmap.GetNextBit | source/app/src/usage_bitmap.c:139-173 | the first set bit from a position on; with none up to the limit it may return one beyond, in the same word, but never skips one |
| UsageBitmaps.AddressInverse | source/app/include/mem_layout.h:193-201 | word and bit of an index lead back to the index and never to a CRC word |
| FreeLists.FreeList.Allocate | source/app/src/free_list_stack.c:56-68 | the index on top of the stack is handed out; an empty stack gives the none value and stays as it is |
| FreeLists.FreeList.Release | source/app/src/free_list_stack.c:75-88 | an index is pushed, if the stack has room |
| FreeLists.FreeList.ReleaseRange | source/app/src/free_list_stack.c:97-109 | a range of indexes is pushed in order, up to the capacity |
| Contacts.WriteContact | source/app/src/contact.c:77-134 | one transaction; afterwards the slot holds the contact and every other slot what it held |
| Contacts.ReadContact | source/app/src/contact.c:144-176 | the contact of a slot, or empty or corrupt |
| Contacts.RemoveContact | source/app/src/contact.c:220-279 | a slot in use is emptied in one transaction (clearing the sector's bit with its last contact) and goes to the allocator; an unused slot of a readable sector leaves the journal armed |
| Messages.WriteMessage | source/app/src/message.c:44-113 | a message goes into the first free place of a sector, in one transaction, or is refused as empty, corrupt or full |
| Messages.WriteNewSector | source/app/src/message.c:125-174 | a sector out of use comes into use with one message in it |
| Messages.WriteNextSector | source/app/src/message.c:228-295 | two transactions: the new sector with its link back, then the link forward; also what the card holds in between |
| Messages.AppendInPlace | source/app/src/message.c:44-113 | an addition to the newest sector appends one message to the chat |
| Messages.RollOver | source/app/src/message.c:228-295 | a new sector behind a full newest one appends one message to the chat, whose links and order stay right |
| Messages.FindMessageN | source/app/src/message.c:363-414 | the walk back ends on any card, cyclic links included; on a well-formed chat it finds the sector and the place of message `start`, or fails exactly if there is none |
| Messages.ReadNMessages | source/app/src/message.c:472-555 | at most n messages come back; on a well-formed chat they are the slice [start, start + n) of the chat read backwards, and it fails exactly if start is past the end. Links of sectors in use must be in range; of others nothing is assumed |
| Messages.RemoveChat | source/app/src/message.c:568-638 | every sector of a chat goes out of use and to the allocator exactly once, newest first, one transaction each; also what the card holds after each |
| Messages.ChatsReplace | source/app/src/message.c:44-295 | when one chat changes in sectors of its own, every other chat stays as it was and every sector in use belongs to exactly one chat |
| Probing.ProbesDistinct | source/app/src/hash_table.c:27-58 | for a prime size no two attempts visit the same slot |
| Probing.ProbesCover | source/app/src/hash_table.c:27-58 | for a prime size the probe sequence visits every slot exactly once |
| Probing.ProbeFits | source/app/src/hash_table.c:52-58 | the probe arithmetic stays within a 32-bit signed integer |
| Probing.TableSizePrime | source/app/include/mem_layout.h:40-41 | 14293 is prime |
| HashTables.FindEntry | source/app/src/hash_table.c:163-231 | on any table a lookup fails only if every entry is occupied; on a table that represents contacts it returns the phone number's own entry, or else the first tombstone or empty entry of its path |
| HashTables.TableInsert | source/app/src/hash_table.c:243-315 | putting a contact into the vacant entry of its path keeps every contact reachable and the table a map of the contacts |
| HashTables.TableMove | source/app/src/hash_table.c:329-387 | moving a contact to another entry and leaving a tombstone does, too |
| HashTables.TableDelete | source/app/src/hash_table.c:837-936 | turning an entry into a tombstone removes exactly that contact and keeps the others reachable |
| Agreement.TableHasRoom | source/app/include/mem_layout.h:40-41 | 10000 contacts never fill 14293 entries |
| HashOperations.HashTable.FindEntryFor | source/app/src/hash_table.c:163-231 | with the database's contacts a lookup never fails: the entry found is occupied exactly if the phone number has a contact, and is then its entry, else one a new contact can take |
| HashOperations.HashTable.InsertContact | source/app/src/hash_table.c:243-315 | exists, full or added, exactly when; afterwards table, count, allocator, bitmap and card agree on the contacts with the new one |
| HashOperations.HashTable.UpdatePhone | source/app/src/hash_table.c:329-387 | a contact gets a new phone number and entry unless another has it; its chat moves along |
| HashOperations.HashTable.UpdateContact | source/app/src/hash_table.c:401-440 | a contact is rewritten under the same or a new phone number |
| HashOperations.HashTable.InsertMessage | source/app/src/hash_table.c:451-551 | a message is added to the chat of a phone number, which becomes an unnamed contact if need be; without a free message sector the new contact stays behind without a chat |
| HashOperations.HashTable.RemoveMessage | source/app/src/hash_table.c:864-887 | the chat goes, the contact stays |
| HashOperations.HashTable.Remove | source/app/src/hash_table.c:897-936 | chat and contact go; slot and sectors return to the allocators |
| RebuildContacts.ReconstructContact | source/app/src/hash_table.c:977-1123 | on any card the rebuild succeeds, the table keeps a free entry and no slot is freed twice; on a card that the database has written it finds exactly the contacts and frees exactly the other slots |
| RebuildContacts.ClaimedRoom | source/app/src/hash_table.c:977-1018 | whatever the card holds, the entries claimed are for different slots, so the table does not fill up |
| Rebuild.RemoveOrphanedChat | source/app/src/message.c:671-723 | the removal takes out of use exactly the sectors that the walk along the `prev` links from the given one meets, up to the first that is unused or unreadable, and no other; a readable one in use is gone afterwards. It ends on any card with links in range, and gives back exactly those that the scan has passed |
| Orphans.RunUnique | source/app/src/message.c:671-723 | there is only one such walk |
| Orphans.RunClosed | source/app/src/message.c:671-723 | what comes before a removed sector cannot be removed any more: the removals of a scan add up |
| Orphans.OrphansEnd | source/app/src/hash_table.c:1126-1248 | whatever orphaned chats there are beside the contacts' chats, a scan takes every sector of theirs out of use, and keeps every sector of the contacts exactly if no orphaned chat's oldest sector links back into a contact's chat |
| Rebuild.InsertMessageFromSector | source/app/src/hash_table.c:1126-1174 | a head becomes the newest sector of its contact's chat; if its contact is not in the table, the table stays as it is and the walk from the head is removed |
| Rebuild.ReconstructMessage | source/app/src/hash_table.c:1176-1248 | on any card with links in range the rebuild succeeds, and every message sector is then in use or on the free stack exactly once; the removals on the way are exactly those of orphaned chats (`Scanning`); on a card without orphans it finds every chat's newest sector and writes nothing |
| Rebuild.FoundBesideOrphans | source/app/src/hash_table.c:1176-1248 | what that comes to with orphaned chats on the card: they are out of use, and if none links back into a contact's chat each contact's newest sector is the one it would be without them |
| Rebuild.HeadIsLast | source/app/src/hash_table.c:1224-1232 | on a card that the database has written, the sectors taken for heads are exactly the ends of the chats |
| Rebuild.MountTables | source/app/src/database.c:115-138 | the rebuild succeeds exactly if the bitmap is readable; on a stored card it restores the contacts, chats and free sets; with orphaned chats beside them, every sector of theirs is on the free stack afterwards, the contacts' chats are all kept exactly if no orphan links back into one, and then contacts and messages come back as without the orphans |
| Rebuild.StrayBeside | source/app/src/hash_table.c:1126-1174 | a stray sector beside any stored card is such an orphan, and links back into a contact's chat exactly if the sector it names as the one before it is in use |
| Reboot.ChainDetermined | source/app/src/hash_table.c:1191-1248 | the card determines the sectors of every chat |
| Reboot.RamDetermined | source/app/src/hash_table.c:977-1248 | two tables that agree with the same card differ at most in the places of contacts: same contacts, messages, chats, counts and free sets |
| Reboot.Restart | source/app/src/database.c:106-138 | a restart on the card of an orderly run restores contacts, messages, newest sectors, count and free sets, and writes nothing |
| CutStores.CutFindsStored | source/app/src/database.c:106-138 | after a cut anywhere and any number of cut recoveries, if the last transaction that is kept ended an operation, the card holds that operation's contacts, chats and messages |
| CutStores.RestartAfterCut | source/app/src/database.c:106-138 | for sessions of one-transaction operations: the restart after a cut and its recoveries rebuilds orderly tables with the contacts and messages of a prefix that has every completed operation |
| CutStores.RollOverCut | source/app/src/message.c:228-295 | a cut between the two transactions of the real roll-over keeps the message exactly if the new sector has the higher index |
| CutStores.RemovalCut | source/app/src/message.c:617-638 | a cut inside the real removal of a chat leaves the older sectors as the contact's chat and every other chat as it was |
| CutStores.HalfRemovedLost | source/app/src/hash_table.c:1224-1232 | after that, once the sector behind the remaining ones is in use again for another chat, a restart finds no chat for the contact; otherwise it finds the remaining one |
| CutStores.TurnCut | source/app/src/message_history.c:64-90 | a cut between the two transactions of the real page turn leaves the newest page marked full and nothing else |
| Histories.History.Add | source/app/src/message_history.c:64-167 | an entry is appended to everything ever added; one transaction, or two when the page is full; the recursion goes one level deep |
| Rings.AddsFirst | source/app/src/message_history.c:99-167 | starting a page keeps the ring in order, also after it has wrapped around |
| Rings.Turns | source/app/src/ring_buffer.c:265-343 | after the full mark the ring is about to start the next page, at the next index or at the first |
| Histories.History.BinarySearchHead | source/app/src/ring_buffer.c:95-152 | bisection over the sequence numbers finds the newest page in every ring that additions leave, wrap-around of the ring and of the 32-bit numbers included, and reports an empty ring as empty |
| Histories.History.Reconstruct | source/app/src/ring_buffer.c:162-209 | sequence number, index and occupancy come back exactly |
| Histories.History.AddAfterHalfTurn | source/app/src/message_history.c:99-167 | the first addition after a cut page turn overwrites the page that was marked: that page is lost |
| Histories.History.GetRange | source/app/src/message_history.c:243-345 | a read is the reverse of the retained entries from `first` for at most n, or a failure past the end, exactly if the count of sectors to skip fits or its wrapped value is refused; otherwise success is reported past the end |
| Histories.History.FitsIn32 | source/app/src/message_history.c:282-300 | with 32-bit starts the count fits, but for the very last start in one case |
| Histories.History.ReadWrapped | source/app/src/message_history.c:282-320 | a 64-bit start for which the read reports success past the end |
| Rings.PastRetained | source/app/src/call_history.c:196-219 | the count of sectors to skip passes the oldest one exactly for starts past the retained entries |
| NameOrder.NameTotal | source/app/src/sorted_array.c:63-114 | the order of contacts is total: equal only for equal contacts, and the same from both sides |
| NameOrder.NameTransitive | source/app/src/sorted_array.c:63-114 | and transitive |
| NameOrder.KeySafe | source/app/src/sorted_array.c:123-197 | comparing the 8-byte folded keys first never decides differently from the names |
| NameOrder.BytesCmp | source/app/src/sorted_array.c:29-49 | the byte loop is lexicographic comparison, with or without case |
| NameOrder.FoldAlike | source/app/src/sorted_array.c:15-18 | a folded name has no capitals and differs from the name in its capitals only; two names fold alike exactly if they have the same length and differ at most in the case of ASCII letters |
| NameOrder.LexPrecedes | source/app/src/sorted_array.c:29-49 | the comparison is negative exactly if the first string has the smaller byte where the two first differ, or ends there |
| NameOrder.NameAlphabetical | source/app/src/sorted_array.c:63-114 | a contact comes before another exactly by name without regard to case, then by name, then by phone number |
| IndexOrder.MemCmpPrecedes | source/app/src/sorted_array.c:177-197 | the comparison of keys has the same direction |
| NameOrder.KeyPadded | source/app/src/sorted_array.c:123-136 | a key is the first eight bytes of the folded name, with zeros behind a shorter one |
| IndexOrder.KeysFirst | source/benchmark/name_index/name_index_common.h:83-90 | in the candidate indexes an entry comes first by its key, whatever the callback says, and by the callback among equal keys |
| SortedArrays.SortedArray.LowerBound | source/app/src/sorted_array.c:209-236 | bisection returns the lower bound, and exact is set exactly if that entry equals what is searched for |
| SortedArrays.SortedArray.Insert | source/app/src/sorted_array.c:298-330 | full, already listed, or one entry more, in order |
| SortedArrays.SortedArray.Remove | source/app/src/sorted_array.c:340-369 | empty, not listed, or exactly that contact's entry less, in order |
| SortedArrays.SortedArray.Seek | source/app/src/sorted_array.c:246-266 | every contact before the rank has a name smaller than the prefix, without regard to case, and none from it on has; if there is a contact of exactly that name, the first of them has that rank |
| SortedArrays.SortedArray.Sort | source/app/src/sorted_array.c:474-562 | heap sort: a permutation in the order of names, reading the card on ties |
| SortedArrays.SortedArray.Build | source/app/src/sorted_array.c:599-633 | the rebuilt index lists every contact once, in order |
| SortedArrays.NamesDetermined | source/app/src/sorted_array.c:599-633 | the rebuilt index lists the same contacts in the same order as the maintained one |
| ChatOrders.ChatOrder.Touch | source/app/src/chat_order.c:54-80 | a chat moves to the front, or is new there |
| ChatOrders.ChatOrder.Remove | source/app/src/chat_order.c:90-110 | a chat is taken out, the others keep their order |
| ChatOrders.ChatOrder.Replace | source/app/src/chat_order.c:121-137 | a chat keeps its place under another hash slot |
| ChatOrders.ChatOrder.GetRange | source/app/src/chat_order.c:149-164 | at most n slots from a rank on |
| ChatOrders.Build | source/app/src/chat_order.c:246-353 | the rebuilt order lists exactly the chats, latest message first |
| ChatOrders.TouchRecent | source/app/src/chat_order.c:54-80 | moving a chat with a later message to the front keeps the order by time |
| ChatOrders.OrderDetermined | source/app/src/chat_order.c:308-353 | if every chat got its latest message at a time of its own, the rebuilt order is the maintained one, contact by contact |
| Heaps.HeapSort | source/app/src/chat_order.c:246-295 | heap sort leaves an ascending permutation, for any total preorder |
| Heaps.SiftDown | source/app/src/chat_order.c:246-267 | one sift repairs the heap from a position on |
| Databases.Database.ContactAdd | source/app/src/database.c:291-319 | added, exists, full or refused; index, chat order and histories stay in step |
| Databases.Database.ContactGet | source/app/src/database.c:329-346 | the contact of a phone number |
| Databases.Database.ContactUpdate | source/app/src/database.c:357-410 | a new name or phone number; the chat keeps its place in the order; another contact's number is refused and nothing changes |
| Databases.Database.ContactRemove | source/app/src/database.c:419-461 | contact, chat, index entry and place in the chat order go together |
| Databases.Database.ContactList | source/app/src/database.c:473-508 | the slice of the contacts by rank: names in alphabetical order without regard to case first, contacts of the database only, and all of them if the list starts at rank 0 and is shorter than asked for |
| Databases.Database.MessageAdd | source/app/src/database.c:556-607 | the message stored last in the chat has the given time and direction and as its text all of the given text if that is shorter than 160 bytes, else the first 159; the chat is at the front and the same message in the history; an unknown number becomes an unnamed contact that the index lists |
| Databases.Database.MessageGetChat | source/app/src/database.c:620-645 | a slice of the chat, newest first, or fail or empty |
| Databases.Database.MessageRemoveChat | source/app/src/database.c:654-684 | the chat goes from card and chat order, the contact stays |
| Databases.Database.CallAdd | source/app/src/database.c:786-817 | the call is appended to its history, with the contact if the number has one |
| CrossIndex.NamesHas | source/app/src/database.c:291-461 | the names in the index are exactly those of the contacts whose slots it lists |
| CrossIndex.OwnersReplaced | source/app/src/database.c:399-409 | a contact that changes its hash slot keeps its chat's place, and the order still lists each chat once |
| Format.FormatDatabase | source/app/src/database.c:219-281 | formatting any card gives an orderly, empty database |
| Mount.MountIndexes | source/app/src/database.c:140-152 | chat order and name index rebuilt in step with the hash table |
| Mount.SameIndexes | source/app/src/database.c:140-152 | the rebuilt indexes list what the maintained ones did, in the same order |
| Mount.RebootDatabase | source/app/src/database.c:106-153 | a restart of an orderly database: contacts, messages, both orders and both histories come back exactly, and the card does not change |
| PhoneBooks.AddShows | source/app/src/database.c:291-319 | in terms of phone numbers: a valid new number gets the name if there are fewer than 10000 contacts, else nothing changes |
| PhoneBooks.UpdateShows | source/app/src/database.c:357-410 | name and number change and the chat goes along, unless a number is invalid, unknown or taken |
| PhoneBooks.RemoveShows | source/app/src/database.c:419-461 | name and chat of the number go, and nothing else |
| PhoneBooks.SayShows | source/app/src/database.c:556-607 | the number's chat gets the message, and the number an empty name if it had none |
| PhoneBooks.UnchatShows | source/app/src/database.c:654-684 | the chat of the number goes, its name stays |
| Runs.Do | source/app/src/database.c:291-817 | every operation does to the database what it does to a plain book of names, chats, messages and calls by phone number, keeps everything in order, and keeps the chats in the order of time if messages come in it |
| Runs.Run | source/app/src/database.c:291-817 | any run of operations leaves the database that the same run leaves of the book |
| Runs.RunAndReboot | source/app/src/database.c:106-817 | after any run of operations with increasing message times, a restart gives everything back, and it is what the book says |
| Runs.FormatRunReboot | source/app/src/database.c:106-817 | format, run, restart: nothing is assumed about the card, and what is there is the book that the run makes of an empty one |
| Crc.Calculate | source/app/src/crc.c:19-41 | the loops compute the shift-register value that the rest is about |
| CrcPolynomials.CrcRemainder | source/app/src/crc.c:5-41 | a number is the CRC of a payload exactly if its complement is the remainder of the payload, taken as a polynomial with its first 32 coefficients complemented and times x^32, by x^32 + x^26 + x^23 + x^22 + x^16 + x^12 + x^11 + x^10 + x^8 + x^7 + x^5 + x^4 + x^2 + x + 1 (section 3.2.9 of IEEE 802.3) |
| CrcPolynomials.RemainderUnique | source/app/src/crc.c:5-41 | division by that polynomial leaves only one remainder |
| CrcPolynomials.PolynomialBits | source/app/src/crc.c:5 | the constant of the program is that polynomial without its highest power, bits reversed |
| CrcPolynomials.CheckValue | source/app/src/crc.c:19-41 | the CRC of the nine digits 1 to 9 is 0xCBF43926 |
| Crc.ShiftsLinear | source/app/src/crc.c:29-36 | shifting is linear under exclusive or |
| Crc.StepsAtOnce | source/app/src/crc.c:25-37 | up to four bytes go in as one number |
| Crc.BurstDetected | source/app/src/crc.c:19-41 | two payloads of any length that differ in up to four consecutive bytes only have the same CRC exactly if they are equal (CRC-32 of section 3.2.9 of IEEE 802.3) |
| Crc.Residue | source/app/src/storage.c:25-31 | a sector is valid exactly if running on through its trailer ends in one fixed value |
| Crc.SectorBurst | source/app/src/storage.c:25-31 | no change of up to four consecutive bytes of a valid sector, trailer included, gives another valid sector |
| Crc.SectorStamp | source/app/src/storage.c:11-17 | a stamped sector validates and its payload is unchanged |
| Crc.SectorCheck | source/app/src/storage.c:25-31 | the check accepts exactly the valid sectors |
| AvlTrees.HeightBound | source/benchmark/name_index/avl_tree.h:15-16 | a balanced tree of at most 10000 nodes has height at most 18 |
| AvlTrees.SizeBound | source/benchmark/name_index/avl_tree.c:286-300 | a balanced tree of height h has at least Fib(h + 2) - 1 nodes |
| AvlTrees.RebalanceBalances | source/benchmark/name_index/avl_tree.c:52-69 | rebalancing a tree that is off by at most two balances it, and its height is that of the higher subtree or one more |
| AvlTrees.RebalanceKeeps | source/benchmark/name_index/avl_tree.c:27-69 | rotations keep the nodes and their order |
| AvlSearch.InsertedOk | source/benchmark/name_index/avl_tree.c:84-101 | recursive insertion keeps the balance and adds the node where its entry belongs, or changes nothing if the slot is taken |
| AvlSearch.RemovedOk | source/benchmark/name_index/avl_tree.c:109-147 | recursive removal keeps the balance and takes out exactly the entry's node |
| AvlPool.AvlTree.RotateRight | source/benchmark/name_index/avl_tree.c:27-35 | the rotation in the pool is the rotation of the tree, and only the links of two nodes change |
| AvlPool.AvlTree.Rebalance | source/benchmark/name_index/avl_tree.c:52-69 | rebalancing in the pool is rebalancing of the tree |
| AvlPool.AvlTree.Insert | source/benchmark/name_index/avl_tree.c:192-214 | the in-order entries gain exactly the one entry, or none if the pool is full or the slot taken; tree and free chain still share out the pool |
| AvlPool.AvlTree.Remove | source/benchmark/name_index/avl_tree.c:231-239 | they lose exactly the one entry, or none if it is missing; its node is chained as free |
| AvlPool.AvlTree.SetMessage | source/benchmark/name_index/avl_tree.c:271-279 | only the message of one entry changes |
| AvlIterators.Find | source/benchmark/name_index/avl_tree.c:246-266 | of the entries that tie with the name, the first; not found exactly if there is none |
| AvlIterators.AvlIter.Begin | source/benchmark/name_index/avl_tree.c:327-332 | the whole in-order sequence is to come; the fixed stack never overflows |
| AvlIterators.AvlIter.Next | source/benchmark/name_index/avl_tree.c:339-349 | the next entry in order |
| AvlIterators.AvlIter.SeekRank | source/benchmark/name_index/avl_tree.c:355-365 | the suffix from a rank on |
| AvlIterators.AvlIter.Seek | source/benchmark/name_index/avl_tree.c:370-391 | the suffix from the first entry not smaller than the name |
| AvlRebuild.LinkBalanced | source/benchmark/name_index/avl_tree.c:432-441 | linking a sorted stretch by halves gives a perfect tree over it with stored heights |
| AvlRebuild.Rebuild | source/benchmark/name_index/avl_tree.c:397-494 | sorting the pool and linking gives a valid tree over the sorted permutation of what was appended, all other nodes free |
| IndexOrder.AddedSorted | source/benchmark/name_index/sorted_array.c:92-104 | adding at the bound keeps the order; an entry counts as present exactly if its slot is there |
| NameArrays.NameArray.SearchExact | source/benchmark/name_index/sorted_array.c:45-58 | bisection finds an entry's place and whether it is there |
| NameArrays.NameArray.LowerBound | source/benchmark/name_index/sorted_array.c:63-73 | the first entry not smaller than the probe |
| NameArrays.NameArray.Insert | source/benchmark/name_index/sorted_array.c:92-114 | one entry more, in order, or none if full or taken |
| NameArrays.NameArray.Remove | source/benchmark/name_index/sorted_array.c:121-131 | one entry less, or none if missing |
| NameArrays.NameArray.Find | source/benchmark/name_index/sorted_array.c:138-148 | of the entries that tie with the name, the first |
| NameArrays.RebuildArray | source/benchmark/name_index/sorted_array.c:253-287 | the sorted permutation of what was appended |
| SameIndex.SortedUnique | source/benchmark/name_index/name_index_common.h:59-90 | entries in strict order are determined by their multiset |
| SameIndex.DriveBoth | source/benchmark/name_index/name_index_common.h:28-90 | tree and array, driven by the same inserts, removes, updates, finds, seeks, ranks and rebuilds, each search with the callback for its own name, give the same answers and hold the same sequence |
| NameOrder.ByNameNaming | source/benchmark/name_index/bench_names.c:213-241 | the comparison of full names is a callback of the kind the indexes demand, whatever name is searched for |
| SameIndex.FindsByName | source/benchmark/name_index/bench_names.c:169-241 | with it a find returns the first entry of exactly that name, and none exactly if there is none, also among equal keys |
| SameIndex.KeyedKept | source/benchmark/name_index/name_index_common.h:45-64 | operations that name contacts by their names keep every entry under its own key |

## Left out

- HashOperations.HashTable.InsertMessage: requires that a chat whose newest sector is full finds a free message sector; the code takes the allocator's none value for a sector there.
- Databases.Database.MessageAdd: requires a free message sector, since without one the code leaves a contact that the name index does not list.
- Runs.Do: skips a message for which no message sector is free.
- Histories.History.GetRange: signed overflow in the start index, for skip counts within 65535 of the smallest 32-bit integer, is computed without overflow; C leaves it undefined.
- Rebuild.ReconstructMessage: assumes that the `prev` links of sectors in use are in range; the code does not check them.
- CutStores.RestartAfterCut: covers sessions whose operations are one transaction each; roll-overs, page turns and chat removals take several and have results of their own.
- Storage faults other than power cuts: every complete read and write succeeds, so error returns of the storage driver are not modelled.
- Sectors are typed records or garbage. A sector of another type where one is expected counts as unreadable; byte packing and unions are not modelled, and only `Crc` and `CrcPolynomials` are about bytes.
- A torn sector is any sector value, so a torn sector with a valid trailer is covered; the value of the bitmap's CRC words in RAM is arbitrary.
- Lengths of names, phone numbers and messages are checked where the database checks them and are not bounded below that; strings have no terminator.
- The superheader: its check and its write at format are not modelled.
- `get_prev_bit`, bitmap and hash table iterators, contact lists by usage, `hash_cleanup`, `hash_clear`, chat lists with contacts, and the history initialisers that the database does not use.
- `hash_remove_contact`: the database only calls it to undo a failed insertion into the name index, which cannot fail here.
- The height byte and the depth counters of the AVL tree: heights are unbounded integers here, and shown to stay below 19.
- Hardware drivers, tasks, locks, user interface, demonstrations, timing and simulations.
