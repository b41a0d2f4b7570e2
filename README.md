# A verified model of nebari's node codecs, chunk cache and transactions

nebari is an append-only B-Tree storage engine. This project models its core in Dafny and proves properties of the model:

- **Entry codecs** (`key_entry.rs`, `by_sequence.rs`, `interior.rs`). A leaf `KeyEntry`, the by-sequence tree's `BySequenceIndex` and `BySequenceStats`, and an `Interior` entry each serialize to a big-endian record and deserialize from one. Serializing appends to a caller-owned `Vec<u8>` (the `Writer` class) and returns the byte count. Deserializing reads through a `Buffer` cursor (the `Reader` class). Each method is tied to a pure encoder or decoder, and the proofs show that:
  - decoding what was encoded gives back the value and leaves the rest unread;
  - the returned count is the number of bytes appended;
  - a key or id longer than a `u16` fails exactly where the source fails (a by-sequence index has already written 12 bytes by then);
  - a truncated or lying record is refused.
- **The `Pointer` state machine.** A child pointer is `OnDisk` or `Loaded` (remembering where it was read from). `Interior.SerializeTo` is the copy-on-write step:
  - a changed or never-stored child is marked clean and written as one new chunk at a fresh position;
  - an unchanged stored child keeps its old position;
  - the record then refers to wherever the child ended up.

  `Interior.CopyDataTo` models the pointer bookkeeping of compaction.
- **The by-sequence reducer.** `reduce` counts records and `rereduce` sums counts, both in `u64` arithmetic. The model proves that the statistics agree at every level of the tree (rereducing the reductions of a partition gives the reduction of the whole) and that rereducing can be regrouped.
- **`ChunkCache`.** A bounded LRU map from (file, position) to a chunk's bytes or its decoded node. Chunks longer than the configured maximum are never cached. The model proves the LRU laws and the memory bound the constructor's documentation promises: at most capacity × maximum chunk length bytes are held.
- **Transactions (`roots.rs`).** Every tree has one shared state:
  - `published`: what readers (`Tree::get`) see;
  - `current`: what an executing transaction works on.

  `TransactionTree` operations change `current`. `commit` writes the trees, appends the transaction to the log and publishes. Dropping an uncommitted transaction rolls its trees back. Tree contents are a sorted key/value list (`OrderedContents`). Storage failures during a commit are an input (`CommitFaults`). The `roots.rs` tests are restated as methods whose postconditions are what the tests assert (`Scenarios`).

Files: `errors.dfy`, `bytes.dfy`, `key_entry.dfy`, `by_sequence.dfy`, `paging.dfy`, `interior.dfy`, `chunk_cache.dfy`, `contents.dfy`, `roots.dfy` and `scenarios.dfy`. There is one module per file.

## Model

| member | source | states |
|---|---|---|
| Bytes.FromBigEndianOfBigEndian | nebari/src/tree/by_sequence.rs:22-24 | reading back the big-endian bytes `write_u32`/`write_u64` produce gives the number written |
| Bytes.BigEndianOfFromBigEndian | nebari/src/tree/by_sequence.rs:37-39 | every byte string of a given width is the encoding of the number read from it (the decoder loses nothing) |
| Bytes.BigEndianInjective | nebari/src/tree/by_sequence.rs:22-24 | two different numbers of the same width never share an encoding |
| Bytes.DecodeBigEndian | nebari/src/tree/key_entry.rs:33 | `read_u16::<BigEndian>` succeeds exactly when enough bytes remain, giving a number below 2^(8·width) whose encoding is the bytes consumed; otherwise it fails with an unexpected end of input |
| Bytes.DecodeBigEndianOfBigEndian | nebari/src/tree/by_sequence.rs:37-38 | reading a freshly written number gives the number and exactly the bytes that followed it |
| Bytes.SplitBytes | nebari/src/tree/key_entry.rs:41 | `read_bytes(n)` succeeds exactly when n bytes remain, and splits the input into those n bytes and the rest |
| Bytes.Writer.WriteBigEndian | nebari/src/tree/key_entry.rs:23 | `write_u16::<BigEndian>` appends the number's big-endian bytes and changes nothing before them |
| Bytes.Writer.ExtendFromSlice | nebari/src/tree/key_entry.rs:24 | `extend_from_slice` appends the slice |
| Bytes.Writer.Truncate | nebari/src/tree/interior.rs:232 | `Vec::truncate` keeps the first `len` bytes; a longer `len` changes nothing |
| Bytes.Writer.Clear | nebari/src/tree/interior.rs:191 | `Vec::clear` empties the scratch buffer |
| Bytes.Reader.ReadBigEndian | nebari/src/tree/key_entry.rs:33 | the cursor read returns the decoded number and advances past it; a failed read leaves the cursor where it was |
| Bytes.Reader.ReadBytes | nebari/src/tree/key_entry.rs:41 | `read_bytes` returns the next n bytes and advances past them; it fails, without advancing, when fewer remain |
| KeyEntries.DecodeKeyEntry | nebari/src/tree/key_entry.rs:32-46 | fewer than 2 bytes is an unexpected end; a key length beyond the remaining bytes is a data-integrity error; on success the input is the length, the key, then what the index decoder consumed |
| KeyEntries.EncodeKeyEntry | nebari/src/tree/key_entry.rs:15-30 | the bytes serializing a key entry appends and the length it returns; its layout, its error and its round trip are the lemmas below |
| KeyEntries.KeyTooLargeWritesNothing | nebari/src/tree/key_entry.rs:22 | a key longer than a u16 can count fails with `KeyTooLarge` before anything is appended |
| KeyEntries.KeyEntryLayout | nebari/src/tree/key_entry.rs:20-29 | the record is the u16 key length, the key, then exactly the index's bytes; the count returned is 2 + key length + the index's count |
| KeyEntries.KeyEntryCountsBytes | nebari/src/tree/key_entry.rs:25-29 | when the index serializer reports the bytes it appended, so does the key entry's serializer |
| KeyEntries.KeyEntryRoundTrip | nebari/src/tree/key_entry.rs:15-46 | for any index codec that round-trips, deserializing a serialized key entry gives back the same key and index, and leaves what followed unread |
| KeyEntries.SerializeKeyEntry | nebari/src/tree/key_entry.rs:15-30 | appends exactly the key entry's record and returns its outcome (count or error) |
| KeyEntries.DeserializeKeyEntry | nebari/src/tree/key_entry.rs:32-46 | returns the decoded entry or its error; on success the reader is just past the entry, and on failure it has only moved forward |
| BySequence.EncodeIndex | nebari/src/tree/by_sequence.rs:16-34 | an index serializes to 14 + id-length bytes; an id too long for a u16 fails with `IdTooLarge` after the 12 bytes of size and position were written |
| BySequence.DecodeIndex | nebari/src/tree/by_sequence.rs:36-55 | fewer than 14 bytes is an unexpected end; an id length beyond the remaining bytes is a data-integrity error; on success the input is the result's own encoding followed by the unread bytes |
| BySequence.IndexRoundTrip | nebari/src/tree/by_sequence.rs:15-55 | deserializing a serialized index gives back the same size, position and id, and leaves what followed unread |
| BySequence.IndexCodecLaws | nebari/src/tree/by_sequence.rs:15-55 | the index codec round-trips for every index, and its returned count is the number of bytes appended |
| BySequence.BySequenceKeyEntryRoundTrip | nebari/src/tree/key_entry.rs:15-46 | a by-sequence leaf entry (key and index) reads back as written |
| BySequence.EncodeStats | nebari/src/tree/by_sequence.rs:63-70 | statistics always serialize to 8 bytes and report 8 |
| BySequence.DecodeStats | nebari/src/tree/by_sequence.rs:72-75 | statistics decode exactly when at least 8 bytes remain; otherwise they fail with an unexpected end |
| BySequence.StatsCodecLaws | nebari/src/tree/by_sequence.rs:62-76 | the statistics codec round-trips and reports the bytes it appends |
| BySequence.SumOfRecordsAppend | nebari/src/tree/by_sequence.rs:91 | summing the record counts of two groups together is the sum of their sums |
| BySequence.SumOfReductions | nebari/src/tree/by_sequence.rs:83-93 | modulo 2^64, the counts of the chunks' reductions add up to the number of records in all the chunks |
| BySequence.RereduceOfReductions | nebari/src/tree/by_sequence.rs:83-93 | rereducing the reductions of a partition's chunks gives the reduction of all the records: statistics agree at every level of the tree, wrap-around included |
| BySequence.RereduceRegroups | nebari/src/tree/by_sequence.rs:89-93 | rereducing a sequence at once equals rereducing the rereductions of its two halves |
| BySequence.NodeCount | nebari/src/tree/by_sequence.rs:79-81 | the number of records the statistics count (see `NodeCountOfReduce`) |
| BySequence.Reduce | nebari/src/tree/by_sequence.rs:83-87 | a leaf's statistics count its entries: exactly, below 2^64 entries (`len() as u64` truncates beyond) |
| BySequence.Rereduce | nebari/src/tree/by_sequence.rs:89-93 | an interior node's statistics total its children's counts: exactly, while the total fits in a u64 (the `sum` wraps beyond) |
| BySequence.NodeCountOfReduce | nebari/src/tree/by_sequence.rs:79-87 | below 2^64 records, the node count of a reduction is the number of records reduced |
| BySequence.SerializeIndex | nebari/src/tree/by_sequence.rs:16-34 | appends exactly the index's encoding (also on the id-too-long error) and returns its outcome |
| BySequence.DeserializeIndex | nebari/src/tree/by_sequence.rs:36-55 | returns the decoded index or its error; on success the reader is just past the record, and it only ever moves forward |
| BySequence.ReadIndexHeader | nebari/src/tree/by_sequence.rs:37-39 | the three fixed-width reads succeed exactly when 14 bytes remain, and then return the size, the position and the id length read big-endian from the front, with the reader just past them; otherwise an unexpected end of input |
| BySequence.SerializeStats | nebari/src/tree/by_sequence.rs:63-70 | appends the statistics' 8 bytes and returns 8 |
| BySequence.DeserializeStats | nebari/src/tree/by_sequence.rs:72-75 | returns the decoded statistics and advances 8 bytes, or fails without moving |
| Paging.PagedWriter.constructor | nebari/src/tree/interior.rs:230-231 | a paged writer with no chunks written, whose next free position is the given start |
| Paging.PagedWriter.WriteChunk | nebari/src/tree/interior.rs:230-231 | `write_chunk` stores the bytes as one new chunk and returns its position, which no earlier chunk has; a storage failure (a position past the u64 range) writes nothing and returns an I/O error |
| InteriorNodes.Pointer.Position | nebari/src/tree/interior.rs:102-109 | an on-disk child is at its location; a loaded child is wherever it was read from, or nowhere if never stored |
| InteriorNodes.Pointer.GetMut | nebari/src/tree/interior.rs:95-100 | the node is available exactly when the pointer is loaded, and it is the loaded entry |
| InteriorNodes.Pointer.Load | nebari/src/tree/interior.rs:62-93 | a loaded pointer is left as it is; an on-disk one becomes loaded with the node read from its location, keeping that location as the previous one; it fails exactly when that read fails |
| InteriorNodes.DecodeInterior | nebari/src/tree/interior.rs:257-276 | fewer than 2 bytes is an unexpected end; a key length beyond the remaining bytes is a data-integrity error; a decoded child is always on disk; on success the input is key length, key, u64 position, then the statistics' bytes |
| InteriorNodes.EncodeInterior | nebari/src/tree/interior.rs:242-254 | the bytes serializing an interior entry appends once its child is at `location`, and the length it returns; its layout, its error and its round trip are the lemmas below |
| InteriorNodes.InteriorLayout | nebari/src/tree/interior.rs:242-254 | the record is the u16 key length, the key, the child's u64 position and the statistics' bytes; the count returned is 10 + key length + the statistics' count, and equals the bytes appended |
| InteriorNodes.InteriorKeyTooLarge | nebari/src/tree/interior.rs:244 | a key longer than a u16 can count fails with `KeyTooLarge` and no record bytes are appended |
| InteriorNodes.InteriorRoundTrip | nebari/src/tree/interior.rs:212-276 | for a statistics codec that round-trips, deserializing a serialized entry gives the same key and statistics, and the child on disk at the position written |
| InteriorNodes.RecordRoundTrip | nebari/src/tree/interior.rs:212-276 | the same round trip for one statistics value that reads back from its own encoding |
| InteriorNodes.BySequenceInteriorRoundTrip | nebari/src/tree/interior.rs:242-254 | a by-sequence interior entry with a key of u16 length always serializes, into 18 + key length bytes, reports that count, and reads back |
| InteriorNodes.MustWrite | nebari/src/tree/interior.rs:221-236 | the copy-on-write decision: a child is written when it is in memory and dirty or was never stored; `WriteChild` states the two outcomes in terms of what serialization writes |
| InteriorNodes.WriteChild | nebari/src/tree/interior.rs:219-240 | an on-disk or clean stored child keeps its position and nothing is written; a dirty or never-stored child is serialized clean onto the writer, written as one new chunk at a fresh position and cut back off the writer; a failure leaves its partial bytes in the writer and writes no chunk; the single new chunk at the old end assumes the child writes no chunks of its own (see Left out) |
| InteriorNodes.WriteRecord | nebari/src/tree/interior.rs:242-254 | appends exactly the interior record for the given position and returns its outcome |
| InteriorNodes.Interior.FromEntry | nebari/src/tree/interior.rs:28-46 | the entry takes the node's greatest key and statistics, and points at the node loaded in memory with no previous location |
| InteriorNodes.Interior.constructor | nebari/src/tree/interior.rs:271-275 | an entry with exactly the key, pointer and statistics given, as `deserialize_from` builds it |
| InteriorNodes.Interior.SerializeTo | nebari/src/tree/interior.rs:212-255 | copy-on-write: an unchanged stored child keeps its position and only the record is appended; a changed or never-stored child is first written clean as one new chunk, and the pointer and record refer to that chunk; if writing the child fails, the pointer is left `OnDisk(0)` and the child's partial bytes stay in the writer; the single new chunk at the old end assumes the child writes no chunks of its own (see Left out) |
| InteriorNodes.Interior.CopyDataTo | nebari/src/tree/interior.rs:155-204 | the child is loaded and copied; with nodes included, it is written as a new chunk, the pointer moves there and `true` is returned; otherwise the copy's own answer is returned and the pointer drops the node whenever it has a stored position; a failed load changes nothing; the chunk frames assume the node copies no data chunks of its own (see Left out) |
| InteriorNodes.DeserializeInterior | nebari/src/tree/interior.rs:257-276 | a new entry with the decoded key, statistics and on-disk position, or the decoder's error |
| Cache.Peek | nebari/src/chunk_cache.rs:83 | what is cached for a key, without changing recency (see `GetAfterPut`) |
| Cache.Put | nebari/src/chunk_cache.rs:65-71 | the `lru` map's `put` (its properties are the `Put…` lemmas below) |
| Cache.Touch | nebari/src/chunk_cache.rs:95-100 | the `lru` map's `get`: what is cached for a key, which becomes the most recent (see `TouchKeepsEntries`) |
| Cache.PeekReplace | nebari/src/chunk_cache.rs:83-88 | `peek_mut` followed by an assignment: a cached key's entry is replaced, recency untouched (see `PeekReplaceValid`) |
| Cache.PutValid | nebari/src/chunk_cache.rs:61-72 | `put` keeps the map within capacity, each key once, with the recency order covering exactly the cached keys |
| Cache.GetAfterPut | nebari/src/chunk_cache.rs:61-101 | right after a chunk is put, `get` and `peek` find it (unless the cache can hold nothing) |
| Cache.PutIsMostRecent | nebari/src/chunk_cache.rs:65-71 | a chunk just put is the most recently used |
| Cache.PutKeepsOthers | nebari/src/chunk_cache.rs:65-71 | `put` changes no other key's entry, except that a new key in a full cache evicts the least recently used key |
| Cache.PutEvictsLeastRecent | nebari/src/chunk_cache.rs:65-71 | a new key put into a full cache evicts exactly the least recently used key, and the cache stays full |
| Cache.TouchKeepsEntries | nebari/src/chunk_cache.rs:92-101 | `get` returns what is cached, changes no entry, keeps the map valid and makes the key the most recent |
| Cache.PeekReplaceValid | nebari/src/chunk_cache.rs:82-88 | `peek_mut` replacement keeps the map valid and the recency order unchanged, and stores the value only if the key was cached |
| Cache.FootprintBound | nebari/src/chunk_cache.rs:49-53 | when every cached buffer is at most the maximum length, n keys hold at most n × maximum bytes |
| Cache.PutKeepsBuffersBounded | nebari/src/chunk_cache.rs:61-89 | putting a short enough buffer, or replacing an entry with a decoded value, keeps every cached buffer within the maximum length |
| Cache.ChunkCache.constructor | nebari/src/chunk_cache.rs:54-59 | an empty cache with the given capacity and maximum chunk length |
| Cache.ChunkCache.Insert | nebari/src/chunk_cache.rs:61-73 | a chunk no longer than the maximum is put as the most recent entry; a longer one leaves the cache unchanged |
| Cache.ChunkCache.ReplaceWithDecoded | nebari/src/chunk_cache.rs:75-89 | the cached chunk is replaced by its decoded value without changing recency; nothing happens when the chunk is not cached |
| Cache.ChunkCache.Get | nebari/src/chunk_cache.rs:91-101 | returns what is cached for the chunk (or nothing) and makes it the most recently used |
| Cache.ChunkCache.MemoryBound | nebari/src/chunk_cache.rs:49-53 | the buffers held never total more than capacity × maximum chunk length |
| OrderedContents.LessIrreflexive | nebari/src/roots.rs:438-454 | no key sorts before itself in byte-wise order |
| OrderedContents.LessTransitive | nebari/src/roots.rs:438-454 | byte-wise order is transitive |
| OrderedContents.LessTotal | nebari/src/roots.rs:438-454 | of two different keys, one sorts first |
| OrderedContents.LessAsymmetric | nebari/src/roots.rs:438-454 | two keys never sort before each other |
| OrderedContents.Find | nebari/src/roots.rs:346-348 | a lookup finds a value exactly when the key is stored |
| OrderedContents.Upsert | nebari/src/roots.rs:309-321 | setting a key stores exactly the old keys plus that key |
| OrderedContents.Delete | nebari/src/roots.rs:351-362 | removing a key stores exactly the old keys minus that key, and never more entries |
| OrderedContents.UpsertSorted | nebari/src/roots.rs:309-321 | setting a key keeps the keys strictly ascending |
| OrderedContents.DeleteSorted | nebari/src/roots.rs:351-362 | removing a key keeps the keys strictly ascending |
| OrderedContents.Apply | nebari/src/roots.rs:367-390 | carries out one key's operation: set, remove or skip (see `ApplySorted`, `FindApply`) |
| OrderedContents.CompareSwapDecision | nebari/src/roots.rs:378-386 | the `compare_and_swap` callback: set the replacement value, or remove the key when there is none, exactly when the stored value equals the expected one; otherwise skip (see `CompareSwapEffect`) |
| OrderedContents.ApplySorted | nebari/src/roots.rs:367-390 | any key operation (set, remove, skip) keeps the keys strictly ascending |
| OrderedContents.FindUpsert | nebari/src/roots.rs:309-321 | after setting a key, it reads back the new value and every other key reads as before |
| OrderedContents.FindDelete | nebari/src/roots.rs:351-362 | after removing a key, it reads as absent and every other key reads as before |
| OrderedContents.FindApply | nebari/src/roots.rs:367-390 | a key operation changes only its own key: set stores the value, remove deletes it, skip changes nothing |
| OrderedContents.FindEach | nebari/src/roots.rs:394-399 | every stored pair is what a lookup of its key returns |
| OrderedContents.CompareSwapEffect | nebari/src/roots.rs:367-390 | compare-and-swap sets the key to the new value (or removes it) exactly when the stored value matches the expected one; otherwise the contents are unchanged; other keys never change |
| OrderedContents.Last | nebari/src/roots.rs:458-482 | there is no last entry exactly when the tree is empty |
| OrderedContents.LastIsGreatest | nebari/src/roots.rs:438-482 | the last entry is stored and its key is greater than every other stored key; there is none exactly when nothing is stored |
| OrderedContents.FindAll | nebari/src/roots.rs:394-399 | a pair is returned exactly when its key was asked for and the pair is stored, with at most one pair per key asked |
| Transactions.StripSuffix | nebari/src/roots.rs:122-133 | a name is recovered exactly when the file name ends with the suffix, and the file name is that name plus the suffix |
| Transactions.TreeFileName | nebari/src/roots.rs:107-109 | the file-name string of tree `name`, relative to the database directory: the name followed by `.nebari` (its properties are the two lemmas below) |
| Transactions.TreeFileNameRoundTrip | nebari/src/roots.rs:107-133 | on file-name strings: stripping `.nebari` from a tree's file-name string gives back its name, and every string that strips to a name is that name's file-name string |
| Transactions.TreeFileNameInjective | nebari/src/roots.rs:107-109 | two different names never have the same file-name string |
| Transactions.TreeState.constructor | nebari/src/roots.rs:135-145 | a new tree's state is empty, both published and current |
| Transactions.TreeState.Publish | nebari/src/roots.rs:225-227 | publishing makes readers see the transaction's contents |
| Transactions.TreeState.Rollback | nebari/src/roots.rs:293-296 | rolling back returns the current contents to the published ones |
| Transactions.TransactionTree.Set | nebari/src/roots.rs:309-321 | the key reads back the new value within the transaction, every other key is unchanged, and readers see nothing new |
| Transactions.TransactionTree.Replace | nebari/src/roots.rs:325-342 | sets the key and returns the value it replaced; other keys and readers are unaffected |
| Transactions.TransactionTree.Get | nebari/src/roots.rs:346-348 | a transaction reads its own writes |
| Transactions.TransactionTree.Remove | nebari/src/roots.rs:351-362 | removes the key and returns the value it held; other keys and readers are unaffected |
| Transactions.TransactionTree.CompareAndSwap | nebari/src/roots.rs:367-390 | when the stored value equals the expected one, the key is set to the new value (removed for `None`) and `Swapped` is returned; otherwise nothing changes and the stored value is returned as a conflict |
| Transactions.TransactionTree.GetMultiple | nebari/src/roots.rs:394-399 | the stored pairs for the keys asked, within the transaction; missing keys are left out |
| Transactions.TransactionTree.LastKey | nebari/src/roots.rs:438-454 | the greatest key readers see (the scan runs outside the transaction, so the transaction's own writes are not seen), or `None` exactly when the published contents are empty |
| Transactions.TransactionTree.Last | nebari/src/roots.rs:458-482 | the greatest key readers see with its value (outside the transaction, like `last_key`), or `None` exactly when the published contents are empty |
| Transactions.Roots.StateFor | nebari/src/roots.rs:150-154 | a tree's state is shared by every handle on it; a tree seen for the first time gets a new, empty state; other trees keep theirs |
| Transactions.Roots.TreeStates | nebari/src/roots.rs:147-158 | one state per name, in the order given, each the registered state of that tree; names seen for the first time get empty states |
| Transactions.Roots.DeleteTree | nebari/src/roots.rs:112-119 | the tree's state is forgotten, and `true` is returned exactly when it existed |
| Transactions.Roots.Tree | nebari/src/roots.rs:90-105 | a handle on the tree that shares its registered state |
| Transactions.Roots.Transaction | nebari/src/roots.rs:163-192 | a new transaction with the next id, holding one tree per name, in order, over the registered states |
| Transactions.Roots.TransactionOn | nebari/src/roots.rs:569 | a transaction holding the one tree `name`, with the next transaction id, which is then advanced by one; the registered states gain that tree, empty when it is new, no other entry changes, and the log of committed transactions is untouched |
| Transactions.BeginTrees | nebari/src/roots.rs:175-187 | one new transaction tree per name, in order, each over its state and carrying the transaction's id |
| Transactions.ExecutingTransaction.Tree | nebari/src/roots.rs:233-240 | the tree at the index, present exactly when the index is in range |
| Transactions.ExecutingTransaction.RollbackTreeStates | nebari/src/roots.rs:242-246 | every held tree is rolled back to its published contents and the transaction lets go of them |
| Transactions.ExecutingTransaction.Drop | nebari/src/roots.rs:249-258 | a transaction still holding its handle is rolled back; one without its handle changes nothing |
| Transactions.ExecutingTransaction.CommitTrees | nebari/src/roots.rs:772-825 | writing the trees succeeds exactly when no tree fails; otherwise it returns an I/O error |
| Transactions.ExecutingTransaction.PublishAll | nebari/src/roots.rs:225-227 | every tree's current contents become published |
| Transactions.ExecutingTransaction.CommitAsWritten | nebari/src/roots.rs:218-230 | succeeds exactly when no tree and not the log fails, then logs the transaction and publishes every tree; on failure nothing is logged or published, and each tree's current contents keep the transaction's writes |
| Transactions.ExecutingTransaction.Commit | nebari/src/roots.rs:218-230 | the corrected half of the finding below: as `CommitAsWritten`, except that on failure each tree's current contents are rolled back to the published ones |
| Transactions.Tree.Set | nebari/src/roots.rs:564-572 | the tree's current contents become the old ones with the key set; readers see them when the commit succeeds, and see what they saw before when it fails (an I/O error), in which case the write stays in the current contents; no other tree changes; the transaction id counter advances by one, and the id used is appended to the log of committed transactions exactly when the commit succeeds |
| Transactions.Tree.SetAndCommit | nebari/src/roots.rs:570-571 | the held tree's current contents become the old ones with the key set, and are published exactly when the commit succeeds, which is also exactly when the transaction's id is appended to the log of committed transactions |
| Transactions.Tree.Get | nebari/src/roots.rs:576-585 | readers see published contents only, not the writes of a transaction still executing |
| Transactions.Tree.Remove | nebari/src/roots.rs:589-594 | the key is removed from the current contents and its old value returned when the commit succeeds; readers see the removal only then, and a failed commit (an I/O error) leaves it in the current contents; no other tree changes; the transaction id counter advances by one, and the id used is appended to the log of committed transactions exactly when the commit succeeds |
| Transactions.Tree.RemoveAndCommit | nebari/src/roots.rs:591-593 | the key is removed from the held tree's current contents, published exactly when the commit succeeds, which also returns the value the key held and is exactly when the transaction's id is appended to the log of committed transactions |
| Transactions.Tree.CompareAndSwap | nebari/src/roots.rs:600-613 | a conflict reports the stored value and rolls the tree back to what readers see; a matching value is swapped in the current contents and published when the commit succeeds; when the commit fails it is reported as an I/O failure, readers see what they saw before, and the swap stays in the current contents; the transaction id counter advances by one, and the id used is appended to the log of committed transactions exactly when the swap is committed |
| Transactions.Tree.SwapAndCommit | nebari/src/roots.rs:605-612 | a conflict drops the transaction, rolling the tree back; otherwise the swap is committed with `commit` as written: published on success, left in the current contents on failure; the transaction's id is appended to the log of committed transactions exactly when the swap is committed |
| Transactions.Tree.GetMultiple | nebari/src/roots.rs:617-629 | the published pairs for the keys asked; missing keys are left out |
| Transactions.Tree.LastKey | nebari/src/roots.rs:681-703 | the greatest published key, or `None` exactly when readers see an empty tree |
| Transactions.Tree.Last | nebari/src/roots.rs:707-737 | the greatest published key with its value, or `None` exactly when readers see an empty tree |
| Scenarios.BasicGetSet | nebari/src/roots.rs:869-878 | a value set through a tree handle is read back |
| Scenarios.TransactionIsolation | nebari/src/roots.rs:891-929 | a transaction reads its own write; other readers do not see it until the commit, and then they do |
| Scenarios.TransactionRollback | nebari/src/roots.rs:932-970 | after a transaction is dropped, readers and the next transaction see the value from before it |
| Scenarios.FailedCommitAsWritten | nebari/src/roots.rs:218-230 | with `commit` as written, a commit whose tree write fails hides the write from readers, but the next transaction reads it |
| Scenarios.FailedCommit | nebari/src/roots.rs:249-258 | when the failed commit is rolled back, readers and the next transaction both see the value from before the transaction |

## Left out

- Byte order and integer widths are written out. `u16`/`u32`/`u64` are bounded integers, and `usize` is unbounded.
- `BySequence.NodeCount`, `BySequence.Reduce` and `BySequence.Rereduce` model `len() as u64` and `sum()` as wrapping modulo 2^64, as a release build computes them. A debug build panics on overflow instead, and that panic is not modelled.
- `BTreeEntry` is not modelled: its own serialization, its children and `copy_data_to` for nodes are parameters (`encodeEntry`, `copyNode`, `read`). Only its greatest key, its statistics and its dirty flag take part.
- `read_chunk`, checksums (`validate_crc`), the `Vault` (encryption) and the `ManagedFile`/file manager are not part of this model. Reading a chunk is the `read` parameter of `Pointer.Load`.
- `InteriorNodes.Pointer.Load`: the cache's `Decoded` entries and the `Any` downcast that recovers a decoded node are not modelled, because a cached node and a decoded buffer give the same entry.
- `map_loaded_entry` is not modelled. It reads a node for a callback and stores the decoded node in the cache, with no effect on the pointer.
- InteriorNodes.WriteChild: the node's own `serialize_to` (interior.rs:229) is the pure `encodeEntry`, so the chunks it writes first for its own dirty children are not modelled. The contract's "exactly one new chunk, at the old end of the file" holds only for a child whose serialization writes no chunks, such as a leaf. In general the child's chunk comes after its descendants' chunks.
- InteriorNodes.Interior.SerializeTo: for the same reason, its "one new chunk at the old end" holds only when the child's serialization writes no chunks of its own. What is modelled for every child is the copy-on-write decision, the position recorded and the record appended.
- InteriorNodes.Interior.CopyDataTo: the node's own `copy_data_to` (interior.rs:178-186) is the pure `copyNode`, so the data chunks it copies through the same paged writer are not modelled. "No chunk without nodes" and "the node's chunk at the old end" hold only when the node copies no data chunks.
- `InteriorNodes.Interior.SerializeTo` leaves out the `replace_with_decoded` call that puts the freshly written node into the chunk cache. The cache operation itself is `Cache.ChunkCache.ReplaceWithDecoded`.
- `Paging.PagedWriter.WriteChunk` stands in for `PagedWriter::write_chunk`, which is not part of this model. Its paging, chunk headers and real I/O errors are replaced by an append-only log of chunks at fresh positions, and running past the u64 range stands for a storage failure.
- `Bytes.Reader.ReadBigEndian`: a read that fails leaves the cursor in place. `Buffer` may have consumed part of the input, which callers never use after an error.
- `Cache.Put`: the `lru` crate is not part of this model. Its behaviour is taken from its documentation: a capacity of 0 stores nothing, and a full cache evicts the least recently used key. The `Mutex` and `Arc` sharing are not modelled, since every operation takes the lock for its whole body.
- `CacheEntry::Decoded` holds an `Arc<dyn AnySendSync>`, modelled as an opaque token.
- `Roots::open`, `Config`, `path`, `context` and `transactions` are not modelled: they open files and carry configuration.
- `Roots.Tree` does not model opening or creating the tree's file.
- Transactions.TreeFileNameRoundTrip and Transactions.TreeFileNameInjective hold of the file-name string only. Names are taken to be plain file names, with no path separator and not absolute. The source does not check this (roots.rs:89 leaves name validation as a TODO), and `Path::join` is not modelled. With separators the lemmas say nothing about paths: `a/b` and `a/./b` name the same file, and an absolute name replaces the directory.
- `tree_names` lists the directory. Only its mapping from file names to tree names is modelled (`StripSuffix`, `TreeFileNameRoundTrip`).
- `Transactions.Roots.Transaction` cannot fail here. The source can fail when `begin_transaction` opens a tree's file, and that error is not modelled.
- `Roots.DeleteTree` leaves out the file deletion through the file manager.
- `TransactionManager` is not part of this model: the log is the sequence of committed transaction ids. Its locking of trees for the duration of a transaction is not modelled either.
- `TreeFile` is not part of this model. A tree's contents are a sorted key/value list, and its storage errors are the `CommitFaults` input. Errors from `TreeFile::modify` inside a transaction are not modelled, so `TransactionTree` writes always succeed.
- `State::rollback` and `publish` are not part of this model. Rollback is taken to make the current contents the published ones again, and publish the reverse.
- `Transactions.ExecutingTransaction.CommitTrees` writes the trees one after another. `ThreadPool` writes several trees on worker threads, and that concurrency is not modelled. When several trees fail, the error reported may differ; here every error is an I/O error.
- `Transactions.TransactionTree.GetMultiple` and `Transactions.Tree.GetMultiple` state which pairs are returned, not their order.
- `get_range`, `scan` and `current_sequence_id` are not modelled: they depend on B-Tree traversal and versioned roots.
- `AbortError` is not modelled.
- The benchmarks and `managed_file/fs.rs` are not part of this model.

## Findings

| source | as written | input that shows it | evidently intended | confidence | as-written member | corrected member |
|---|---|---|---|---|---|---|
| nebari/src/roots.rs:218-230 | `commit` moves the trees out of the transaction (line 219) before writing them (line 220). If a tree write fails, the transaction handle has not been taken yet, so `Drop` runs `rollback_tree_states`, but over the emptied list of trees. If the log append fails, the handle was already taken (line 223) and `Drop` does nothing. Either way nothing is rolled back: the trees' states keep the failed transaction's writes as their current contents. | Set `b"test"` to `b"value"` and commit. Begin a transaction that sets it to `b"updated value"`, and let its tree write fail. Readers still see `b"value"`, but the next transaction on the tree reads `b"updated value"`, which was never committed. | A failed commit is rolled back like a dropped transaction, so the next transaction starts from the committed contents. | low: not executed; it relies on `State::rollback` resetting the current root to the published one and on `TreeFile` keeping uncommitted changes in the shared state, neither of which is part of this model | Scenarios.FailedCommitAsWritten | Scenarios.FailedCommit |
