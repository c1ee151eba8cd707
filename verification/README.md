# Verified model of the storage stack, key wrapping and wallet state

This project models the parts of Aries Framework Go in which several steps have to fit together, and proves that
they do.  One module stands for one source file or one idea that several files share.

**The storage stack.**  Every layer implements one contract: a store is a finite map from keys to values with tags,
and a batch is a list of puts and deletes applied in order (`Spi`).

- `Mem` is the plain store, with its query by counting and its iterator; `TagQuery` says what query expressions mean.
- `AnyStore` is a store about which only the contract is known: any call may fail, and a batch may stop part-way.  The
  layers above are proved over it, and so over every store that keeps the contract.
- `FormattedStore` hides each key behind a formatted or a random identifier (`Formatting`).  With random identifiers
  an entry is found again by a tag, and a batch is translated as a whole before any of it runs.  `Rehome` is the theory
  behind that translation; the encrypted data vault uses it too.
- `CachedStore` and `BatchedStore` are the two-store cache and the write-behind buffer.  `StackModel` says, as functions,
  what buffer over cache over formatter does while nothing outside fails, and exactly when that is what a plain map does;
  `Stack` runs the stack and proves that it does what the model says.
- `LevelDb` is the hand-made index from tag names to keys.  Each write to the database is one step that may be the last.
- `EdvFormatter`, `EdvStore`, `EdvQuery` and `EdvSearch` are the store in an encrypted data vault: both ways of running a
  batch, the query compiler, and the iterator over what a query finds.

**Key wrapping.**  `KeyWrap` has the sender's and the recipient's paths of ECDH-ES and ECDH-1PU for EC and OKP keys.
Diffie-Hellman is concrete, powers of a generator modulo a prime (`Group`), so that agreement is proved and not assumed.
`KeyDerivation` says what a derived key is made of and when there is one, without the functions that derive it.
`BigEndian` has the widths, the padding and the length prefixes; `KeyBuffers` has the code that fills byte buffers.

**Wallet state.**  `Session` is the token cache with sliding expiry.  Its state carries the history of calls, and which
tokens must work is defined on that history alone.  `Contents` is the content store with its collection mappings.

## Where a plain claim is false of the code

The code is kept, and the exact condition under which the claim holds is proved.

- `FormattedStore`, random keys: a batch that only deletes keys that are not stored is refused by the store below
  (component/storageutil/mem/mem.go:325), though the contract calls such deletes no error.
  `FormattedStore.FormatStore.Refuses` is exactly when, and `StackModel.Blocked` is what it means behind a write-behind
  buffer: such a buffer makes every flush and every read fail, until something is put or something stored is deleted
  (`StackModel.AbsentDeleteBlocks`, `StackModel.StuckUntilWritten`).
- `Formatting.Formatter.SearchHits` and `EdvStore.KeyQueryHits`: a user tag that equals a key's tag makes an entry or a
  document look like another key's (`Formatting.Formatter.ForgedKeyTagFound`).  `Formatting.Formatter.ReservedFree` and
  `EdvStore.ReservedFree` keep just those tags for the stores.
- `CachedStore`: a read that misses fills the cache without tags (component/storageutil/cachedstore/cachedstore.go:200).
  `StackModel.TagsForgotten` says over which runs the tags are then forgotten.
- `BatchedStore`: a put or delete takes effect even when the flush it triggers fails and an error is reported.
- `LevelDb`: the index never forgets a tag name on an overwrite, and a put or delete that stops half-way can leave a key
  listed that has no entry, which makes value queries over that name fail.  `LevelDb.NameQueriesCover` and
  `LevelDb.ValueQueriesWork` say exactly when name-only and value queries come out right.
- `EdvSearch`: documents that a fast batch creates are sealed with a blank key
  (component/storage/edv/restprovider.go:954), and an iterator shows their key tag among the user's tags.
  `EdvStore.BlankAfterFast` says which these are.
- `Contents.ContentStore.Save`: the wallet is opened twice.  When it is locked in between, or the store fails there, the
  mapping is left without its content (`Contents.SaveInterrupted`).

## Faults

Whatever is outside a layer may fail at any time: a store below, the server, the database, a formatter, a random source.
Each failure is counted in a ghost counter where it happens, and `Spi.Blames` ties errors to counts: a call that reports a
fault has seen the count go up.  So each contract says what a call does while the count stays, including that it succeeds,
and what it leaves behind when it does not.

## Assumptions

They are fields with stated laws, never axioms.

- A formatter maps keys and tags injectively and its values can be read back (`Formatting.Formatter.Valid`); the vault's
  keyed hash is injective (`EdvFormatter.Mac.Valid`); base64 and JSON can be decoded.  No base64 text of a collection
  identifier is the name of a content type, which is true of identifiers in UTF-8 (`Contents.Base64.Valid`).
- Random identifiers come from a supply without repetitions (`Rehome.IdSupply`); random tokens may repeat, but not for ever
  within a finite set (`Session.TokenSupply`).
- AES key wrap, XChaCha20-Poly1305 and the Concat KDF are functions that undo each other or give the asked length
  (`KeyWrap.Library`).  Curve generators are invertible modulo their primes.  `KeyWrapWitness` shows that all of this can
  be had at once, and `Witnesses` gives parameters that meet each of the other laws.
- Keys called `TagMap` are for LevelDB's own use.

## Model

| member | source | states |
|---|---|---|
| Spi.LastWriteWins | spi/storage/storage.go:222-233 | A batch stores under each key what the last operation on that key says, a value or nothing, and leaves every other key alone. |
| Spi.ReplayAfterPrefix | component/storageutil/batchedstore/batchedstore.go:351-362 | Running a whole batch again over a state that already holds any prefix of it gives the state of one clean run, so a kept buffer can be retried. |
| Spi.AppliedKeys | spi/storage/storage.go:222-233 | A batch brings no key into a store that is not named in it. |
| Spi.NothingToDoStep | component/storageutil/formattedstore/formattedstore.go:823-826 | A list of operations only deletes what is not stored if and only if each operation, in its turn, does. |
| Spi.FirstComplaint | component/storageutil/formattedstore/formattedstore.go:1113-1135 | What is refused about tags is the first tag with a colon, and its name before its value. |
| TagQuery.SplitIs | component/storageutil/mem/mem.go:282 | Splitting loses nothing: the parts joined by the separator are the text, for every text and separator, and every cut is made at the first place where it can be. |
| TagQuery.PartsPlain | component/storageutil/mem/mem.go:282 | No part contains the separator any more. |
| TagQuery.SplitOfJoin | component/storage/edv/restprovider.go:1055 | Parts without the separator's first character come back, as many and in order, from splitting their join. |
| TagQuery.SplitCounts | component/storage/leveldb/leveldb.go:315 | Splitting at a character gives one part more than the character occurs in the text. |
| TagQuery.CriterionIs | component/storage/leveldb/leveldb.go:315-329 | A criterion is refused if and only if it has two colons or more; with one, the text is name, colon and value, and with none it is the name. |
| TagQuery.AndOf | component/storageutil/mem/mem.go:282-306 | Any number of criteria joined by the AND sign are read as just those criteria, in order. |
| TagQuery.ParseNameValue | component/storageutil/formattedstore/formattedstore.go:1006-1007 | An expression put together from a name, a colon and a value without special characters is read back as that one criterion. |
| TagQuery.ParseNameOnly | component/storageutil/mem/mem.go:282-289 | A bare name is a criterion that accepts every value of the tag. |
| TagQuery.LastCriterionWins | component/storage/edv/restprovider.go:341-344 | When a tag name is repeated inside one AND, the last criterion with that name counts. |
| TagQuery.LastCriterionOf | component/storage/edv/restprovider.go:341-344 | Nothing counts in an AND but such last criteria. |
| TagQuery.FilterOutKeyTag | component/storageutil/formattedstore/formattedstore.go:1155-1165 | Keeps exactly the tags other than the given key tag, each as often as before and in the same order. |
| TagQuery.FilteredIs | component/storageutil/formattedstore/formattedstore.go:1155-1165 | The filtered list is the given one at the places of the other tags, ... |
| TagQuery.OthersAscend | component/storageutil/formattedstore/formattedstore.go:1155-1165 | ... which are in ascending order. |
| Mem.GetMatchingKeysAndEntries | component/storageutil/mem/mem.go:365-390 | Lists each key whose entry has a matching tag once, with its entry, and no other key. |
| Mem.CountIsFull | component/storageutil/mem/mem.go:477-503 | A key was counted once per tag name if and only if it is in the result of every tag name. |
| Mem.CountKeys | component/storageutil/mem/mem.go:480-490 | The counting loop adds one for exactly the keys of the result it goes through, and remembers their stored entries. |
| Mem.CommonEntries | component/storageutil/mem/mem.go:477-503 | Keeps each key that is in every result once, with its stored entry, and no other key. |
| Mem.RunQuery | component/storageutil/mem/mem.go:270-306 | A conjunctive query succeeds if and only if the expression is well formed, and then its rows are every matching entry under its own key exactly once; a repeated name is decided by its last criterion. |
| Mem.Iterator.Next | component/storageutil/mem/mem.go:402-413 | Moves on while rows are left, and says that there are none from then on, however often it is asked. |
| Mem.ReadAll | component/storageutil/mem/mem.go:402-431 | Reading an iterator to its end gives every row of the snapshot once and in order, and leaves it exhausted. |
| Mem.MemStore.Put | component/storageutil/mem/mem.go:165-192 | Meets the Store contract exactly: refused with the first complaint and no change, or stored. |
| Mem.MemStore.Batch | component/storageutil/mem/mem.go:324-351 | Meets the Store contract; an empty batch or one with a blank key changes nothing. |
| Rehome.RepresentsOnlyOne | component/storageutil/formattedstore/formattedstore.go:810-838 | Rows under random identifiers stand for at most one map from keys to entries, so two stores can be compared by it. |
| Rehome.SetRow | component/storageutil/formattedstore/formattedstore.go:484-535 | Writing over the row of a key, or adding a row for a key without one, puts the key in the map and keeps one row per key. |
| Rehome.DropRow | component/storageutil/formattedstore/formattedstore.go:738-776 | Deleting a row deletes its key from the map and nothing else. |
| Rehome.TrackedHome | component/storageutil/formattedstore/formattedstore.go:900-930 | Asking the table first and the store second finds where a key lives after the operations translated so far, for a key that is untouched, moved or deleted. |
| Rehome.TracksPut | component/storageutil/formattedstore/formattedstore.go:932-965 | The table stays right when a put is translated. |
| Rehome.SimulatesEmit | component/storageutil/formattedstore/formattedstore.go:824-834 | Every prefix of a translation does what some prefix of the plain operations does, also after one more translated operation, ... |
| Rehome.SimulatesSkip | component/storageutil/formattedstore/formattedstore.go:823-826 | ... and after one dropped delete. |
| Rehome.TranslatedHome | component/storageutil/formattedstore/formattedstore.go:900-930 | In the middle of a translation, the identifier found for a key is blank exactly when the key is in the map no more, and names its row otherwise. |
| Rehome.TranslatedPut | component/storage/edv/restprovider.go:922-980 | A translated put keeps table, output and identifiers right, over a new row or an old one. |
| Rehome.TranslatedDelete | component/storage/edv/restprovider.go:898-920 | So does a translated delete. |
| Rehome.TranslatedPrefix | component/storageutil/formattedstore/formattedstore.go:427-459 | Wherever the translated batch stops, the rows stand for the map after some prefix of the plain operations. |
| Rehome.AppliedIds | component/storage/edv/restprovider.go:654-680 | A translated batch uses no identifier that it does not name. |
| Rehome.TracksDelete | component/storageutil/formattedstore/formattedstore.go:849-864 | The table stays right when a delete is translated: the key is marked as living nowhere. |
| AnyStore.Store.Batch | spi/storage/storage.go:222-233 | Any store that keeps the contract: on an error it may have applied any prefix of the batch, and it reports a fault only when one is counted. |
| Formatting.Formatter.SearchHits | component/storageutil/formattedstore/formattedstore.go:999-1014 | A search for a key finds an entry if and only if the entry is the key's own or a user tag of it equals the key's tag. |
| Formatting.Formatter.ForgedKeyTagFound | component/storageutil/formattedstore/formattedstore.go:999-1014 | An entry of one key with another key's tag among its user tags is found by a search for either. |
| Formatting.Formatter.SearchIsExact | component/storageutil/formattedstore/formattedstore.go:999-1014 | Without user tags that are some key's tag, a search for a key finds exactly the entry of that key. |
| Formatting.Formatter.OneEntryPerKey | component/storageutil/formattedstore/formattedstore.go:484-535 | At most one stored entry carries the tag of any given key, so that the branches for several results cannot be reached. |
| Formatting.Formatter.EncodedRow | component/storageutil/formattedstore/formattedstore.go:532-549 | An entry formatted with the appended key tag reads back as its key, its value and the user's tags, whatever key was handed to the formatter. |
| Formatting.Formatter.DeterministicStep | component/storageutil/formattedstore/formattedstore.go:778-808 | With deterministic keys one formatted operation does to the stored entries what the plain operation does to the map. |
| Formatting.Formatter.DeterministicBatch | component/storageutil/formattedstore/formattedstore.go:778-808 | The same for whole batches. |
| Formatting.Formatter.HousePut | component/storageutil/formattedstore/formattedstore.go:521-535 | A put under random keys keeps the stored entries standing for the map. |
| Formatting.Formatter.HouseDelete | component/storageutil/formattedstore/formattedstore.go:738-776 | So does a delete. |
| Formatting.Formatter.RunsOnRows | component/storageutil/formattedstore/formattedstore.go:427-459 | Running formatted operations on the stored entries is running their row operations on the rows, at every prefix. |
| FormattedStore.FilterKeyTag | component/storageutil/formattedstore/formattedstore.go:1064-1098 | The two filters together take the key tag away and leave the user's tags, also when the entry was written over and carries an identifier instead of its key. |
| FormattedStore.FormatStore.Put | component/storageutil/formattedstore/formattedstore.go:277-298 | The store denotes a map: a put does to it what the Store contract says, in both key modes, over an underlying store that may fail; only an unacceptable put or a fault makes it fail. With deterministic keys exactly the entry under the formatted key is written, and how is stated. |
| FormattedStore.FormatStore.Get | component/storageutil/formattedstore/formattedstore.go:300-320 | Gives the value of the last put; without faults it fails exactly for a blank or a missing key. |
| FormattedStore.FormatStore.GetTags | component/storageutil/formattedstore/formattedstore.go:322-342 | Gives the user's tags of the last put, without the key tag; without faults it fails exactly for a blank or a missing key. |
| FormattedStore.FormatStore.Delete | component/storageutil/formattedstore/formattedstore.go:405-425 | Deletes the key from the map and nothing else; only a blank key or a fault makes it fail. |
| FormattedStore.FormatStore.StoreUsingNonDeterministicKey | component/storageutil/formattedstore/formattedstore.go:484-535 | A put under random keys writes exactly one entry: over the key's existing one, with its identifier written in as the key, or under the newly drawn identifier, with the key written in; only a fault makes it fail. |
| FormattedStore.FormatStore.QueryUsingKeyTag | component/storageutil/formattedstore/formattedstore.go:999-1014 | The search finds one entry if the key is in the map and none otherwise. |
| FormattedStore.FormatStore.FindOne | component/storageutil/formattedstore/formattedstore.go:967-997 | Of the errors that the code provides for, the one about several results never comes up; only a fault makes the search fail. |
| FormattedStore.FormatStore.RowsFindHome | component/storageutil/formattedstore/formattedstore.go:999-1014 | What a search for the key tag returns is where the key lives. |
| FormattedStore.FormatStore.DetermineFormattedKeyToUse | component/storageutil/formattedstore/formattedstore.go:900-930 | Gives the identifier under which the key lives after the operations translated so far, blank if and only if the key is not in the map by then. |
| FormattedStore.FormatStore.CreateFormattedDeleteOperation | component/storageutil/formattedstore/formattedstore.go:840-869 | The translated delete removes the key's entry, or is dropped if and only if the key is not in the map by then. |
| FormattedStore.FormatStore.CreateFormattedPutOperation | component/storageutil/formattedstore/formattedstore.go:871-965 | The translated put writes over the key's entry, with its identifier written in as the key, or adds one under the newly drawn identifier; its tags are the user's and the key's, formatted, and the table stays right. |
| FormattedStore.FormatStore.TranslateOne | component/storageutil/formattedstore/formattedstore.go:816-835 | One more operation keeps the whole translation right, for any mix such as put, delete and put of one key; the output stays empty exactly as long as there is nothing to do. |
| FormattedStore.FormatStore.GenerateFormattedOperationsUsingNonDeterministicKeys | component/storageutil/formattedstore/formattedstore.go:810-838 | Without faults every batch is translated. Running the translation leaves the same map as doing the puts and deletes one by one, so does stopping at any point of it, and it is empty if and only if the batch only deletes what is not stored. |
| FormattedStore.FormatStore.RanTo | component/storageutil/formattedstore/formattedstore.go:453-456 | A store that ran the first operations of a translation stands for the map after some prefix of the batch. |
| FormattedStore.FormatStore.BatchUsingNonDeterministicKeys | component/storageutil/formattedstore/formattedstore.go:427-459 | Without faults a batch under random keys succeeds if and only if there is something to do, and then has the effect of its operations in order; a refused one changes nothing. |
| FormattedStore.FormatStore.GenerateFormattedOperationsUsingDeterministicKeys | component/storageutil/formattedstore/formattedstore.go:778-808 | Without formatter faults the translation succeeds and mirrors the batch operation by operation; a delete stays a delete whatever the formatter makes of an absent value. |
| FormattedStore.FormatStore.MirroredPrefix | component/storageutil/formattedstore/formattedstore.go:778-808 | Every prefix of a mirrored batch does what the same prefix of the plain batch does. |
| FormattedStore.FormatStore.Batch | component/storageutil/formattedstore/formattedstore.go:427-459 | Meets the Store contract in both key modes. Without faults it succeeds if and only if all keys are there and it is not refused as empty: with deterministic keys an empty list, with random keys a list that only deletes what is not stored. |
| CachedStore.BatchOnBoth | component/storageutil/cachedstore/cachedstore.go:261-273 | A batch run on both stores makes the keys it names agree, whatever they held before. |
| CachedStore.BatchInterrupted | component/storageutil/cachedstore/cachedstore.go:261-273 | A batch that stops part-way on either side spoils no more than the keys it names. |
| CachedStore.CacheStore.Put | component/storageutil/cachedstore/cachedstore.go:163-185 | After a successful put both stores hold the entry with its tags; one that failed between the two writes spoils that key at most. The main store is written first, so whatever fails, a put that is not in the main store is not in the cache. Only an unacceptable put, whose tags are looked at first, or a fault makes it fail. |
| CachedStore.CacheStore.Get | component/storageutil/cachedstore/cachedstore.go:187-207 | Answers what the main store would, for every key not spoilt by a failed write; a miss, and nothing else, leaves a copy without tags in the cache. |
| CachedStore.CacheStore.GetTags | component/storageutil/cachedstore/cachedstore.go:209-224 | Answers the main store's tags, except for a key whose cached entry was last written by a read: its tags are lost. |
| CachedStore.CacheStore.Delete | component/storageutil/cachedstore/cachedstore.go:247-259 | Deletes on both sides and from the main store first, with the same guarantees. |
| CachedStore.CacheStore.Batch | component/storageutil/cachedstore/cachedstore.go:261-273 | Runs the batch on both sides and on the main store first, repairs every key it names, tags included, and without faults fails exactly when the main store refuses it. |
| CachedStore.CacheStore.Close | component/storageutil/cachedstore/cachedstore.go:289-303 | A successful close has closed both stores; the cache is closed only behind the main store. |
| BatchedStore.BatchStore.Flush | component/storageutil/batchedstore/batchedstore.go:343-362 | The map that clients see never changes by a flush. A successful one runs the whole buffer on main store and cache and empties it; a failed one keeps the buffer and can be retried. Without faults a flush fails if and only if, over random keys, the buffer only deletes what is not stored. |
| BatchedStore.BatchStore.Append | component/storageutil/batchedstore/batchedstore.go:187-207 | Below the limit the operation goes behind the buffer, nothing fails, and neither main store nor cache is touched; at the limit the buffer is empty after success, and complete, with the operation, after an error. |
| BatchedStore.BatchStore.AppendEach | component/storageutil/batchedstore/batchedstore.go:305-321 | The loop of a batch: all operations, or all up to the first whose flush fails. |
| BatchedStore.BatchStore.Put | component/storageutil/batchedstore/batchedstore.go:172-210 | A put that leaves the buffer below its limit succeeds and only appends to the buffer; any accepted put takes effect, even when the flush it triggers fails, and then stays in the buffer. Without faults every acceptable put succeeds, and whatever fails, the tags of the key are safe from then on. |
| BatchedStore.BatchStore.Delete | component/storageutil/batchedstore/batchedstore.go:269-292 | The same for a delete, except that without faults it fails if and only if it fills the buffer and so flushes nothing but deletes of what is not stored. |
| BatchedStore.BatchStore.Batch | component/storageutil/batchedstore/batchedstore.go:294-324 | A batch that leaves the buffer below its limit succeeds and only appends. On success the whole list took effect in order and the buffer is below its limit; on an error some prefix did. Without faults it does exactly what appending its operations one by one does. |
| BatchedStore.BatchStore.Get | component/storageutil/batchedstore/batchedstore.go:213-225 | Answers from the map that the accepted operations amount to, and leaves the buffer empty when it answers; it fails whenever the buffer cannot be flushed. |
| BatchedStore.BatchStore.GetTags | component/storageutil/batchedstore/batchedstore.go:227-239 | The same for tags, which are right for every key that was written since it was last read into the cache. |
| BatchedStore.BatchStore.Close | component/storageutil/batchedstore/batchedstore.go:326-340 | After a successful close nothing is left in the buffer and both stores below are closed; a failed flush leaves them open; without faults it fails exactly when a flush does. |
| StackModel.BelowLimit | component/storageutil/batchedstore/batchedstore.go:187-207 | Any list of writes that leaves the buffer below its limit is accepted and goes no further than the buffer. |
| StackModel.PutGoesThrough | component/storageutil/batchedstore/batchedstore.go:172-210 | A put never jams the buffer: it gives the flush something to do. |
| StackModel.AppendMeans | component/storageutil/batchedstore/batchedstore.go:187-207 | Behind the buffer, appending an operation runs it on main store and cache, and it is refused exactly when it jams. |
| StackModel.AppendAllMeans | component/storageutil/batchedstore/batchedstore.go:305-321 | A batch gets all its operations through, or all up to the first that jams the buffer. |
| StackModel.AppendAllStops | component/storageutil/batchedstore/batchedstore.go:305-321 | What comes after the first operation whose flush is refused is not looked at. |
| StackModel.ActMeans | component/storageutil/cachedstore/cachedstore.go:163-273 | Behind the buffer, every call runs what it took on both sides, and an answered read fills the cache. |
| StackModel.SoundAct | component/storageutil/cachedstore/cachedstore.go:163-273 | Every call keeps what is cached right but for lost tags. |
| StackModel.ContentsAct | component/storageutil/batchedstore/batchedstore.go:172-340 | A call that is not blocked leaves the map as the plain map would be. |
| StackModel.ActAgrees | component/storageutil/batchedstore/batchedstore.go:172-340 | A call without faults is answered as by the plain map if and only if it is not blocked (it flushes, over random keys, nothing but deletes of what is not stored) and does not ask for forgotten tags. |
| StackModel.RunAgrees | component/storageutil/batchedstore/batchedstore.go:172-340 | A run without faults is answered as by the plain map, from first to last, if and only if no call in it was blocked or asked for forgotten tags. |
| StackModel.DeterministicUnblocked | component/storageutil/formattedstore/formattedstore.go:778-808 | With deterministic keys no call is ever blocked. |
| StackModel.AbsentDeleteBlocks | component/storageutil/batchedstore/batchedstore.go:351-362 | With random keys, deleting what is not stored makes the read after it fail, where the plain map answers. |
| StackModel.StuckUntilWritten | component/storageutil/batchedstore/batchedstore.go:351-362 | That stays so until something is put or something stored is deleted. |
| StackModel.KeyAfter | component/storageutil/cachedstore/cachedstore.go:187-207 | Over an empty cache, after any run, a written key is the same on both sides; any other is as it was to begin with, and cached without tags once it was read. |
| StackModel.TagsForgotten | component/storageutil/cachedstore/cachedstore.go:187-224 | Over an empty cache the tags of a key are forgotten if and only if it was stored with tags to begin with, no call has written it since, and a read of it was answered. |
| StackModel.ReadForgetsTags | component/storageutil/cachedstore/cachedstore.go:187-224 | Reading such a key and then its tags answers no tags, where the plain map answers them. |
| Stack.Step | component/storageutil/batchedstore/batchedstore.go:172-362 | Without faults one call on the whole stack has exactly the answer and the effect of the model; whatever fails, an answer that is no failure is the plain map's, but for lost tags. |
| Stack.FollowsStep | component/storageutil/batchedstore/batchedstore.go:172-362 | A run that was answered rightly still is after one more such call. |
| Stack.Run | component/storageutil/batchedstore/batchedstore.go:172-362 | Over every run without faults, in both key modes, for every buffer limit and from any valid state, the answers are the model's, and all are the plain map's if and only if no call was blocked or asked for forgotten tags. With faults, a run in which nothing failed that the plain map accepts was answered rightly. |
| EdvFormatter.Formatter.FormatTags | component/storage/edv/encryptedformatter.go:242-255 | Formats each tag in place, in order. |
| EdvFormatter.Formatter.FormatTagInjective | component/storage/edv/encryptedformatter.go:257-280 | Different names have different hashes, different values have different hashes, and a blank value stays blank and is the only one that does. |
| EdvFormatter.Formatter.AttributesAcrossStores | component/storage/edv/encryptedformatter.go:257-280 | Two stores under one hash key give two tags the same attribute name if and only if prefix and tag name run together alike, and the same attribute value if and only if the values are equal. |
| EdvFormatter.Formatter.CriterionPreserved | component/storage/edv/encryptedformatter.go:257-280 | A hashed criterion matches the hashed tags if and only if the criterion matches the plain tags. |
| EdvStore.KeyQueryHits | component/storage/edv/restprovider.go:1024-1048 | The vault query for a key matches a document if and only if it is the key's own or a user tag in it equals the key's tag. |
| EdvStore.KeyQueryIsExact | component/storage/edv/restprovider.go:1024-1048 | Without user tags that are some key's tag, it matches exactly the key's document. |
| EdvStore.OneDocumentPerKey | component/storage/edv/restprovider.go:587-616 | The vault holds at most one document for each key, so that the branches for several documents cannot be reached. |
| EdvStore.SealedRow | component/storage/edv/restprovider.go:791-818 | A new document reads back as its key, value and user tags, under its own identifier. |
| EdvStore.HousePut | component/storage/edv/restprovider.go:750-789 | Writing a document keeps the vault standing for the map, with every document under the identifier embedded in it. |
| EdvStore.HouseDelete | component/storage/edv/restprovider.go:820-837 | So does deleting one. |
| EdvStore.RunsOnRows | component/storage/edv/restprovider.go:654-680 | Running vault operations on the documents is running their row operations on the rows, at every prefix. |
| EdvStore.PlainAfter | component/storage/edv/restprovider.go:654-742 | Fast and slow writes make the same map of entries; they differ in the sealing of documents only. |
| EdvStore.BlankAfterFast | component/storage/edv/restprovider.go:951-980 | After a fast batch a key's document is sealed with a blank key if and only if its last operation put it while it was not there, or no operation named it and it was so before. |
| EdvStore.RestStore.Put | component/storage/edv/restprovider.go:224-243 | Meets the Store contract over a server that may fail before or after doing what it was asked; only an unacceptable put or a fault makes it fail, and the document is sealed with its key. |
| EdvStore.RestStore.Get | component/storage/edv/restprovider.go:245-274 | Gives the value of the last put, with full-document queries or without; without faults it fails exactly for a blank or a missing key. |
| EdvStore.RestStore.GetTags | component/storage/edv/restprovider.go:276-309 | Gives the user's tags of the last put; without faults it fails exactly for a blank or a missing key. |
| EdvStore.RestStore.Delete | component/storage/edv/restprovider.go:362-380 | Meets the Store contract; only a blank key or a fault makes it fail. |
| EdvStore.RestStore.PutUsingRandomDocumentID | component/storage/edv/restprovider.go:750-789 | Updates the key's document or creates one under a new identifier, never a second one, sealed with the key; only a fault makes it fail. |
| EdvStore.RestStore.SlowBatchUsingStandardEndpoints | component/storage/edv/restprovider.go:682-742 | Operation by operation, the batch has the effect of its operations in order; only a fault makes it fail, and then it stopped after a prefix. |
| EdvStore.RestStore.DetermineDocumentIDToUseForOperation | component/storage/edv/restprovider.go:982-1013 | Gives the identifier of the key's document after the operations translated so far, blank if and only if there is none by then. |
| EdvStore.RestStore.CreateVaultDeleteOperation | component/storage/edv/restprovider.go:898-920 | The vault delete removes the key's document, or is dropped if and only if there is none by then. |
| EdvStore.RestStore.CreateVaultUpsertOperation | component/storage/edv/restprovider.go:922-980 | The vault upsert writes the key's document under its identifier, sealed with the key, or a new one under a new identifier, sealed with a blank key. |
| EdvStore.RestStore.TranslateOne | component/storage/edv/restprovider.go:875-893 | One more operation keeps the whole translation right. |
| EdvStore.RestStore.CreateVaultOperationsUsingNonDeterministicIDs | component/storage/edv/restprovider.go:868-896 | Without faults every batch becomes a list of vault operations; running it, or any prefix of it, leaves the map after all, or some first, plain operations. |
| EdvStore.RestStore.FastBatchUsingBatchExtension | component/storage/edv/restprovider.go:654-680 | The fast batch has the effect of its operations in order; only a fault makes it fail, and a list that comes out empty is no error here. |
| EdvStore.RestStore.Batch | component/storage/edv/restprovider.go:383-409 | Meets the Store contract whichever way the batch is run; without faults it succeeds if and only if there are operations and all keys are there. |
| EdvStore.BothWays | component/storage/edv/restprovider.go:654-742 | Unless something outside fails, fast and slow batch both succeed and leave vaults that stand for one and the same map, for every list of operations, and every document is stored under its embedded identifier. |
| EdvQuery.OrOf | component/storage/edv/restprovider.go:1055 | Any number of AND lists joined by the OR sign are read as just those alternatives, in order. |
| EdvQuery.HashesPreserve | component/storage/edv/restprovider.go:1091-1121 | A compiled AND list matches the hashed tags if and only if the plain criteria, by last value for each name, match the plain tags. |
| EdvQuery.HashesAdd | component/storage/edv/restprovider.go:1096-1118 | A repeated name overwrites in the compiled list exactly when it does in the plain one. |
| EdvQuery.GenerateEDVQuerySubfilter | component/storage/edv/restprovider.go:1091-1121 | Compiles an AND list, and refuses it if and only if a criterion is malformed. |
| EdvQuery.EqualsPreserve | component/storage/edv/restprovider.go:1050-1083 | The compiled alternatives match if and only if the OR expression does. |
| EdvQuery.HasRewrite | component/storage/edv/restprovider.go:1070-1080 | Asking for one attribute with a blank value is the same as asking for its name. |
| EdvQuery.AloneIsAlone | component/storage/edv/restprovider.go:1072-1080 | One tag name alone, repeated or not, compiles to one attribute with a blank value, ... |
| EdvQuery.OneIsAlone | component/storage/edv/restprovider.go:1072-1080 | ... and nothing else does. |
| EdvQuery.GenerateEDVQuery | component/storage/edv/restprovider.go:1050-1083 | The compiled query selects exactly the documents whose plain tags the expression selects, for every AND/OR expression and every list of tags; an expression is refused if and only if some criterion is malformed. One tag name alone is asked for by its attribute name, anything else by the alternatives in hashed form. |
| EdvSearch.KeyTagUnseen | component/storage/edv/restprovider.go:1282-1292 | An expression that does not use the blank tag name does not see the appended key tag. |
| EdvSearch.FoundRows | component/storage/edv/restprovider.go:348-360 | A compiled expression finds the documents of exactly those keys whose tags match it, each key once. |
| EdvSearch.FindsByUserTags | component/storage/edv/restprovider.go:348-360 | Without blank names that is: of exactly the keys whose own tags match. |
| EdvSearch.Query | component/storage/edv/restprovider.go:348-360 | Querying the store gives an iterator over exactly the entries that match, whether the server sends documents or identifiers; only a malformed expression or a fault makes it fail. |
| EdvSearch.RestIterator.Next | component/storage/edv/restprovider.go:1135-1168 | Shows the next document and moves on; an error leaves the position alone, and only a fetched document can be missing. |
| EdvSearch.ShownTagsOf | component/storage/edv/restprovider.go:1178-1184 | An iterator shows exactly the user's tags if the document was sealed with its key; if it was sealed with a blank key, it shows the key tag besides and leaves out a user tag that is blank all through. |
| EdvSearch.FastPutShowsKeyTag | component/storage/edv/restprovider.go:951-962 | A fast batch that puts a new key makes the iterator show its key tag; the same put by itself, or twice in the batch, does not. |
| EdvSearch.ReadAll | component/storage/edv/restprovider.go:1135-1184 | Reading to the end shows exactly the value and tags of every document that is still there to get, in order; only a document that is gone or a fault makes it fail. |
| EdvSearch.QueryAndReadAll | component/storage/edv/restprovider.go:348-360 | Asking and reading at one go shows, for every expression, exactly the entries that match it. |
| LevelDb.Json.CompleteWherever | component/storage/leveldb/leveldb.go:217-254 | Index first on a put and entry first on a delete: wherever a call stops, every stored tagged entry is listed under all its tag names. |
| LevelDb.Json.CompleteOverRuns | component/storage/leveldb/leveldb.go:217-254 | That holds in every state of every run, however many calls in it stop part-way. |
| LevelDb.Json.EndsAreStops | component/storage/leveldb/leveldb.go:217-254 | The ends of a call are its completion and the places where it can stop, and no others. |
| LevelDb.Json.ExactStep | component/storage/leveldb/leveldb.go:404-432 | One more call, wherever it stops, keeps the account of entries and index exact. |
| LevelDb.Json.RunIsExact | component/storage/leveldb/leveldb.go:458-488 | After every run, wherever its calls stopped, the entries are what the calls that got that far made of them, and the index lists a key under a name if and only if a put carrying the name got into the index after the key's last completed delete. |
| LevelDb.Json.ExactIsComplete | component/storage/leveldb/leveldb.go:404-432 | An exact index lists every stored tagged entry under all its names. |
| LevelDb.AddAllLists | component/storage/leveldb/leveldb.go:404-432 | Updating the index for a key lists that key under all the given names and changes nothing else, and the index has no other names than before and these. |
| LevelDb.ListedMeans | component/storage/leveldb/leveldb.go:239-246 | A key is listed under a name if and only if some put with that name got into the index and no delete of the key completed after it. |
| LevelDb.CompletedDangleNever | component/storage/leveldb/leveldb.go:343-359 | If all calls complete, no listed key is without an entry. |
| LevelDb.StopsDangle | component/storage/leveldb/leveldb.go:217-254 | A delete that stops after the entry leaves a listed key without one, and so does a put that stops before it. |
| LevelDb.ValueQueriesWork | component/storage/leveldb/leveldb.go:513-539 | A name:value query finds an entry for every key it has to look at if and only if no such key dangles under the name. |
| LevelDb.ValueQueriesExact | component/storage/leveldb/leveldb.go:513-539 | A name:value query selects exactly the stored entries with that tag. |
| LevelDb.NameQueriesCover | component/storage/leveldb/leveldb.go:643-657 | A name-only query selects every stored entry with that tag; it selects only stored keys if and only if none dangles, and is exact if and only if besides none lost the name by being written over. |
| LevelDb.ForgottenTagStaysListed | component/storage/leveldb/leveldb.go:239-246 | A key that is written over without its tag stays listed under it. |
| LevelDb.ViewStep | component/storage/leveldb/leveldb.go:217-254 | To a client a completed operation does what the Store contract says, and a stopped one does that or nothing. |
| LevelDb.ViewRun | component/storage/leveldb/leveldb.go:364-384 | The same over whole runs. |
| LevelDb.LevelStore.Put | component/storage/leveldb/leveldb.go:217-254 | Meets the Store contract to clients; the nested put of the index takes no tags, so the recursion ends, and a put without tags writes one entry only; where it can stop, and that the account of calls stays exact; only an unacceptable put, an unreadable index or a fault in reading or writing makes it fail. |
| LevelDb.LevelStore.UpdateTagMap | component/storage/leveldb/leveldb.go:404-432 | Lists the key under all its names in the stored index, or leaves the index as it was or newly created. |
| LevelDb.LevelStore.GetTagMap | component/storage/leveldb/leveldb.go:541-565 | Reads the index, and creates it only when asked to and missing; a failing read creates nothing. |
| LevelDb.LevelStore.Get | component/storage/leveldb/leveldb.go:257-264 | Gives the stored value; without faults it fails exactly for a blank or a missing key. |
| LevelDb.LevelStore.Delete | component/storage/leveldb/leveldb.go:343-359 | Meets the Store contract to clients, where it can stop, and that the account of calls stays exact; only a blank key, an unreadable index or a fault in reading or writing makes it fail. |
| LevelDb.LevelStore.RemoveFromTagMap | component/storage/leveldb/leveldb.go:458-488 | Takes the key out of the index under every name, or changes nothing. |
| LevelDb.LevelStore.Batch | component/storage/leveldb/leveldb.go:364-384 | Meets the Store contract to clients and keeps the account of calls exact; stops at the first operation that fails; with a readable index and without faults it succeeds if and only if each operation is acceptable by itself. |
| LevelDb.LevelStore.GetDatabaseKeysMatchingQuery | component/storage/leveldb/leveldb.go:490-539 | Selects through the index, and fails on a value when the index lists a key that has no entry. |
| LevelDb.LevelStore.Query | component/storage/leveldb/leveldb.go:305-337 | Told by the calls alone: without faults a query with a value fails if and only if some key dangles under the name, and otherwise finds exactly the entries with the tag; a query for a name alone finds exactly the listed keys. |
| BigEndian.ToBytesWidth | pkg/crypto/customtinkcrypto/wrap_support.go:159-169 | The shortest form of a number has as many bytes as its bit length rounded up. |
| BigEndian.PaddedCoordinate | pkg/crypto/customtinkcrypto/wrap_support.go:145-156 | A coordinate comes out in exactly the bytes that the prime takes and with the same value, however many leading zeros were stripped. |
| BigEndian.RoundTrip | pkg/crypto/customtinkcrypto/key_wrapper.go:316-321 | A coordinate sent as its shortest bytes is read back as the same number. |
| BigEndian.Uint32Reads | pkg/internal/cryptoutil/utils.go:36-44 | A length under four octets is read back from its prefix, whatever follows. |
| BigEndian.FieldReads | pkg/internal/cryptoutil/utils.go:36-44 | A reader gets an array and what follows it back from behind its length prefix. |
| Group.ExpLaws | pkg/crypto/customtinkcrypto/wrap_support.go:144 | The first power is the element itself and powers multiply as exponents add, which fixes every power. |
| Group.ExchangeCommutes | pkg/crypto/customtinkcrypto/wrap_support.go:144-157 | Both sides of a Diffie-Hellman exchange reach the same element, proved for powers modulo any number. |
| Group.PowersNonzero | pkg/crypto/customtinkcrypto/wrap_support.go:140-144 | A public element made from an invertible generator is never zero, so the recipient's check cannot fail where the sender's passed. |
| KeyWrap.ContextReads | pkg/crypto/customtinkcrypto/wrap_support.go:325-361 | A reader that takes length-prefixed fields from the left gets from every context the algorithm, apu, apv, eight times the key length, and the tag exactly if there is one: section 4.6.2 of RFC 7518 and section 2.3 of draft-madden-jose-ecdh-1pu-04. |
| KeyWrap.ContextInjective | pkg/crypto/customtinkcrypto/wrap_support.go:314-361 | The hashed context, with a tag or without, determines algorithm, apu, apv, key length, whether there is a tag, and the tag, for all inputs under four gigabytes: section 4.6.2 of RFC 7518 and section 2.3 of draft-madden-jose-ecdh-1pu-04. |
| KeyWrap.ECAgreement | pkg/crypto/customtinkcrypto/wrap_support.go:131-157 | Two EC keys of one curve give the same padded secret from either side. |
| KeyWrap.OKPAgreement | pkg/internal/cryptoutil/utils.go:21-33 | Two X25519 keys give the same secret from either side. |
| KeyWrap.EphemeralTravels | pkg/crypto/customtinkcrypto/key_wrapper.go:316-321 | The recipient recovers the sender's ephemeral public key from what travels. |
| KeyWrap.SameKEK1PUWithECKey | pkg/crypto/customtinkcrypto/key_wrapper.go:289-364 | ECDH-1PU over EC keys: the recipient derives the sender's key. |
| KeyWrap.SameKEK1PUWithOKPKey | pkg/crypto/customtinkcrypto/key_wrapper.go:445-495 | ECDH-1PU over OKP keys: the recipient derives the sender's key. |
| KeyWrap.SameKEKES | pkg/crypto/customtinkcrypto/key_wrapper.go:382-443 | ECDH-ES over either key family: the recipient derives the sender's key. |
| KeyWrap.SameKEK | pkg/crypto/customtinkcrypto/key_wrapper.go:33-56 | For both key families and both modes, with or without a supplied ephemeral key, the recipient derives the sender's key: section 4.6 of RFC 7518 and section 2.3 of draft-madden-jose-ecdh-1pu-04. |
| KeyWrap.Dispatch | pkg/crypto/customtinkcrypto/key_wrapper.go:163-205 | The algorithm name chosen from flag, key size and mode makes the recipient choose the same mode, primitive and key length. |
| KeyWrap.KEKFitsPrimitive | pkg/crypto/customtinkcrypto/key_wrapper.go:58-92 | On every path the derived key has a length that the chosen primitive takes. |
| KeyWrap.WrapThenUnwrap | pkg/crypto/customtinkcrypto/key_wrapper.go:95-161 | Whatever a wrap produces, the matching keys and the same tag unwrap to the original content key. |
| KeyDerivation.NameAndLength | pkg/crypto/customtinkcrypto/key_wrapper.go:163-205 | By name: an authenticated AES wrap gives a 32-, 48- or 64-byte content key a key of half its length, and the name is A128KW, A192KW or A256KW if and only if that length is 16, 24 or 32; every other mode has its one name and 32 bytes. |
| KeyDerivation.AuthenticatedKey | pkg/crypto/customtinkcrypto/wrap_support.go:314-361 | ECDH-1PU: the key is the Concat KDF of Ze followed by Zs, where Ze is the recipient's element to the power of the ephemeral secret and Zs to that of the sender's, each in the octets of its group, and of a context that reads back as algorithm, apu, apv, bit length and tag: section 2.3 of draft-madden-jose-ecdh-1pu-04. |
| KeyDerivation.AnonymousKey | pkg/crypto/customtinkcrypto/key_wrapper.go:414-443 | ECDH-ES: the key comes from the ephemeral secret alone, over OKP keys with a context without a tag. |
| KeyDerivation.SharedEC | pkg/crypto/customtinkcrypto/wrap_support.go:131-157 | The secret over EC keys is the recipient's element to the power of the private key, in the octets of the curve. |
| KeyDerivation.SharedOKP | pkg/crypto/customtinkcrypto/wrap_support.go:236-271 | The secret over X25519 keys is the recipient's element to the power of the private key, in 32 octets, after both were cut or filled up to 32 bytes. |
| KeyDerivation.EphemeralSent | pkg/crypto/customtinkcrypto/key_wrapper.go:299-322 | The ephemeral key that travels is on the recipient's curve and is the generator to the power of the secret that was used, or the caller's key; a caller's apu travels unchanged, a blank one is the encoded ephemeral key. |
| KeyDerivation.WrappedIs | pkg/crypto/customtinkcrypto/key_wrapper.go:58-92 | The wrapped key carries the recipient's key identifier, both infos, the ephemeral key and the name; the content key is sealed behind its 24-byte nonce, or AES-wrapped, under the derived key. |
| KeyDerivation.DerivesEC | pkg/crypto/customtinkcrypto/key_wrapper.go:163-262 | For an EC recipient a key is derived if and only if the curve is known, the element in the group, the content key of a length that the mode takes, and the sender's key, if there is one, on the same curve. |
| KeyDerivation.DerivesOKP | pkg/crypto/customtinkcrypto/key_wrapper.go:163-262 | For an OKP recipient a key is derived if and only if no exchange gives zero, with the same conditions on content key and sender. |
| KeyDerivation.UnwrapsExactly | pkg/crypto/customtinkcrypto/key_wrapper.go:207-286 | The recipient derives a key if and only if the name is one of the six, its own key of the ephemeral key's type and usable with it, and in the four authenticated modes the sender's key known and usable too. |
| KeyDerivation.WrapsExactly | pkg/crypto/customtinkcrypto/key_wrapper.go:33-92 | With a derived key, only AES can still refuse a wrap. |
| KeyDerivation.UnwrappedIs | pkg/crypto/customtinkcrypto/key_wrapper.go:130-161 | With a derived key the result is what opening behind the nonce or AES unwrapping gives, and too short an input is refused. |
| KeyWrapWitness.WrapAttainable | pkg/crypto/customtinkcrypto/key_wrapper.go:33-56 | All assumptions of the round trip can be met at once: there are a library and keys for which a wrap succeeds. |
| KeyWrapWitness.WrapAttainableOKP | pkg/crypto/customtinkcrypto/key_wrapper.go:445-475 | So can they over X25519 keys, with AES and a content key of 32 bytes. |
| KeyBuffers.PutUint32 | pkg/internal/cryptoutil/utils.go:40 | Writes four octets at the front of a buffer and nothing else. |
| KeyBuffers.Copy | pkg/internal/cryptoutil/utils.go:41 | Copies what both sides have room for and leaves the rest of the buffer alone. |
| KeyBuffers.LengthPrefixed | pkg/internal/cryptoutil/utils.go:36-44 | The filled buffer is the array behind its length. |
| KeyBuffers.FixedKey | pkg/crypto/customtinkcrypto/wrap_support.go:243-256 | The fixed buffer holds the key byte by byte, cut or filled up with zeros. |
| KeyBuffers.KdfBuffer | pkg/crypto/customtinkcrypto/wrap_support.go:325-361 | The filled key buffer is the derivation from the specified context. |
| KeyBuffers.PaddedECDH | pkg/crypto/customtinkcrypto/wrap_support.go:131-157 | The shared secret has exactly the curve's width and the value of the shared element; the padding count is never negative. |
| KeyBuffers.WrapWithNonce | pkg/crypto/customtinkcrypto/wrap_support.go:197-214 | The nonce travels in front of the ciphertext. |
| KeyBuffers.UnwrapWithNonce | pkg/crypto/customtinkcrypto/wrap_support.go:216-234 | Cuts where wrapping joined and gives the content key back; too short an input is refused. |
| Session.OneMore | pkg/wallet/session.go:101-122 | One more call changes the fate of a token only by issuing it anew, closing its user, or presenting it in time or too late. |
| Session.SameFate | pkg/wallet/session.go:62-143 | A call about another token, and not a close of its user, leaves a token's fate alone. |
| Session.ClosedUntilCreated | pkg/wallet/session.go:132-143 | After a close no token of that user works until the next create, whatever else is called and whenever. |
| Session.SessionManager.OneTokenPerUser | pkg/wallet/session.go:76-80 | At most one token of a user works at any time. |
| Session.SessionManager.CreateSession | pkg/wallet/session.go:62-99 | Refuses if and only if the user has a working token, and otherwise, unless the random source fails, issues a token that nobody holds; random tokens may repeat. |
| Session.SessionManager.GetSession | pkg/wallet/session.go:101-122 | Accepts a token if and only if it was issued, not closed since, and presented with no gap longer than its expiry; each time it works it is renewed. |
| Session.SessionManager.CloseSession | pkg/wallet/session.go:132-143 | Ends the user's session, and says whether there was one. |
| Session.SessionManager.SetSession | pkg/wallet/session.go:82-98 | A new session keeps cache and history in agreement. |
| Session.SessionManager.FindLive | pkg/wallet/session.go:76-80 | Finds the user's unexpired session if there is one. |
| Session.SessionManager.IssueStep | pkg/wallet/session.go:82-98 | A new token works exactly for its expiry, and no other token is affected. |
| Session.SessionManager.PresentStep | pkg/wallet/session.go:101-122 | A presented live token works for a whole new expiry, a dead one stays dead, and no other token is affected. |
| Session.SessionManager.CloseStep | pkg/wallet/session.go:132-143 | A close ends exactly the tokens of that user. |
| Contents.RemoversExact | pkg/wallet/contents.go:531-538 | The prefix removers give back exactly the content key, though they replace the first occurrence anywhere in the string. |
| Contents.KeysApart | pkg/wallet/contents.go:521-528 | No two contents or mappings share a store key, neither within a kind nor across the two kinds. |
| Contents.FirstUnderscore | pkg/wallet/contents.go:521-528 | The text before the first underscore and the text after it are determined by the whole. |
| Contents.TypeQueryFinds | pkg/wallet/contents.go:354-357 | A query for a content type finds the contents of that type and nothing else. |
| Contents.CollectionQueryFinds | pkg/wallet/contents.go:400-403 | A query for a collection finds the mappings that name it and nothing else. |
| Contents.ContentStore.MapCollection | pkg/wallet/contents.go:268-289 | Maps a content only to a collection that exists. |
| Contents.ContentStore.SafeSave | pkg/wallet/contents.go:248-265 | Saves a content under its type and key, and never over an existing one. |
| Contents.ContentStore.Get | pkg/wallet/contents.go:330-341 | Reads exactly the content under type and key. |
| Contents.ContentStore.Save | pkg/wallet/contents.go:190-245 | A rejected duplicate still re-points the mapping, nothing saved is overwritten, and a content is stored only behind its mapping, whatever fails. Unless the store fails, every mapping keeps pointing to a content if and only if the wallet was not locked between the two steps of the first, mapped save of a content. A key succeeds exactly when the key manager takes it. |
| Contents.SaveInterrupted | pkg/wallet/contents.go:190-245 | Locking the wallet between the two steps of a first save leaves the mapping without its content and makes reading the collection fail, with no failure of the store. |
| Contents.ContentStore.Remove | pkg/wallet/contents.go:310-327 | Removes the content and its mapping and nothing else. The mapping goes first, so wherever the store fails, no mapping is left without a content. |
| Contents.ContentStore.TypeRows | pkg/wallet/contents.go:354-381 | The rows of a type query are the contents of the type. |
| Contents.ContentStore.CollectionRows | pkg/wallet/contents.go:400-424 | The rows of a collection query are the mappings to that collection. |
| Contents.ContentStore.GetAll | pkg/wallet/contents.go:344-384 | Returns exactly the contents of the type, under their own keys. |
| Contents.ContentStore.GetAllByCollection | pkg/wallet/contents.go:388-441 | Returns exactly the contents of the type whose latest mapping names the collection; unless the store fails, it fails if and only if such a mapping has no content, so never while every mapping points to one. |

## Left out

- Query options (paging, sorting) and GetBulk: one more loop over what is modelled.
- Provider code: opening and closing stores by name, store configuration, lower-casing of names.
- Mutexes and interleaved calls: one call is one step.  The cache and the LevelDB index are not protected against
  interleaving by the code, and getSession renews outside the mutex; nothing is claimed there.
- Error texts, and errors of iterators other than running out of rows.
- User queries through formattedstore and its iterator's keys: with random identifiers an entry that was written over
  shows an identifier in place of its key (formattedstore.go:524 and :953).  The tag filter that has to cope with it is modelled.
- Deterministic document identifiers in the vault, and its batch formatting by a remote service.
- HTTP, JSON, JWE and URLs of the vault protocol: the vault is a map of documents, and a request may fail with or without
  having been carried out.
- Several stores in one vault: store prefixes are concatenated without a separator, so isolation is not claimed;
  `EdvFormatter.Formatter.AttributesAcrossStores` says exactly when two stores share an attribute name.
- The LevelDB iterator, which reads entries lazily, and the dropping of empty tag lists in its JSON.
- The LevelDB key `StoreConfig`, which the provider writes into the same database: clients are taken not to use it.
- The Y coordinate of EC points: a public element is one residue, and the panic on a point off the curve is the result None.
- The hash of the Concat KDF (section 4.6.2 of RFC 7518), AES key wrap, XChaCha20-Poly1305 and Tink key handles: libraries
  that are not part of this model.
- The cache library under the sessions: an entry is alive up to and including its deadline, and getting an expired one removes it.
- Wallet content identifiers taken from JSON or JWTs, model checks, and importing keys into the key manager: Save is modelled
  from the identifier on.
- Removing a collection leaves the mappings of its members in place, as the code does.
- indexeddb, the client and controller packages, issuing, proving and presentation exchange: delegation, or logic that is
  in other repositories.
- KeyBuffers.PaddedECDH: the limit of 65536 bytes on the requested size is not modelled, because the sizes used are constants below it.
- EdvSearch.ReadAll: the vault may have changed since the query, but not while the documents are read.
- Failures of hashing and encrypting in the vault formatter: they leave the vault as a request that fails unserved does.
- EdvSearch.QueryAndReadAll: asking and reading are one step; `EdvSearch.ReadAll` covers changes in between.
- FormattedStore.FormatStore.Put: with random keys, what follows after user tags that are some key's tag is not modelled
  beyond which entries a search then finds, because a search can then find several entries, or one of another key.
- FormattedStore.FormatStore.Batch: the same, for operations with such tags.
- EdvStore.RestStore.Put: the same, for user tags with a blank name and a value.
- EdvStore.RestStore.Batch: the same, for operations with such tags.
