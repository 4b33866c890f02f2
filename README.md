# twitter_ebooks: persistent arrays, the suffix generator and the model, in Dafny

This project models the core of `twitter_ebooks`, a Markov-style text bot
that recombines sentences of a tweet corpus. The verifier checks three
pieces.

- **`LMDBBackedArray`.** This is a growable, nested, possibly sparse
  array laid over a flat key/value store, keyed by the path
  `prefix + [index]`.
  - A record is either a child-array marker carrying a count
    (`SUBARRAY_MAGIC = 1`) or a packed payload (`PACKED_MAGIC = 3`).
  - The array keeps its size in the record at its own key. That record is
    the same one its parent sees as its slot.
  - There are two versions of the class. The cached one in `persistent.rb`
    walks a store cursor in `each`. The cache-less one in `suffix.rb`
    scans `0..size-1` linearly.
  - Both classes are proved against one state machine, `ArraySpec`. It
    works on a `View`: the store records, the size field and the set of
    cached slots.
- **`SuffixGenerator`.** Building files every tikified sentence into a
  sentence array, a unigram index and a bigram index. A *tiki* is a
  token's integer id.
  - Building is checked batch by batch against what is already stored.
  - `generate` splices a prefix of the current sentence onto a suffix of
    another sentence found through those indexes. It rejects any
    candidate that is a subsequence of, or contains, a sentence it has
    already looked at.
- **`Model`.** This covers:
  - interning tokens as tikis: a forward array plus a reverse map;
  - sorting corpus lines into statements and mentions;
  - the `verbatim?` scan, the `find_relevant` scan, and the choice of
    corpus behind a response.

Files and modules:

| file | module | contents |
|---|---|---|
| `store.dfy` | `Store` | tagged records, `Outcome` of a Ruby call (value or raised fault), the database |
| `arrays.dfy` | `ArraySpec` | the array state machine: one step function per operation, the lemmas about them, and the `Value` a read hands back |
| `persistent.dfy` | `Persistent` | the cached `LMDBBackedArray` class |
| `suffix_array.dfy` | `SuffixArray` | the cache-less `LMDBBackedArray` class |
| `suffix_index.dfy` | `SuffixIndex` | the generator's corpus, what indexing a sentence files, the batch build |
| `suffix_generate.dfy` | `SuffixGenerate` | the `generate` specification and its properties |
| `suffix.dfy` | `Suffix` | the `SuffixGenerator` class, whose methods are proved against the two modules above |
| `model.dfy` | `EbooksModel` | the `Model` class and its scans |

How the model is set up:

- **Store and faults.** The store is a `map<seq<int>, Tagged>`. Keys are
  integer paths, and MessagePack is abstracted away. A Ruby `raise` is an
  `Outcome.Raise` carrying a fault:
  - `BadMagic` is "Bad magic!";
  - `NotFound` is the engine's NOTFOUND on deleting an absent key;
  - `CursorDecreasing` and `CursorMissed` are the two raises of `each`;
  - `DataCorrupt` is "Data bad/corrput?";
  - `NilValue` is a method called on `nil`.
- **Cursor.** The cursor of the cached `each` is a parameter: the
  sequence of keys the engine's cursor hands out from the array's first
  slot onwards.
- **`size` and `length`.** These are the field `size` of both classes.
- **The generator's state.** The generator keeps its three containers by
  their logical contents. The sentences are a map from index to tikis,
  plus the container's size field. Each index entry is the list of
  references filed under it.
  - The lemma `ArraySpec.AppendsThenEach` connects this to the records.
    An index container filled by appends yields exactly its references,
    in order, through the cursor `each`.
- **Randomness.** `rand` becomes the index `pick`. Each `shuffle` becomes
  an index order `shuffle(d, n)`, where `d` counts the shuffles drawn so
  far and `n` is the length being shuffled.
- **Helpers that are not modelled.** `NLP.subseq?` and `SuffixGenerator.subseq?`
  become the uninterpreted parameter `subseq`. `NLP.normalize`,
  `NLP.sentences` + `NLP.tokenize`, `downcase` and `NLP.stopword?` are
  parameters too. `INTERIM` is `-1`, apart from every tiki, which is
  never negative.

## Model

| member | source | states |
|---|---|---|
| `Store.DecodeRecord` | lib/twitter_ebooks/persistent.rb:40-53 | decoding a record raises exactly when its tag is neither the child-array nor the packed tag; an absent record is `nil` |
| `Store.OwnSize` | lib/twitter_ebooks/persistent.rb:19-27 | the size read from an array's own record: 0 when the record is absent, "Bad magic!" exactly when it is not a child-array marker |
| `Store.WithSize` | lib/twitter_ebooks/persistent.rb:65-75 | after writing size `n`, the own record reads back `max(n, 0)` and every other record is unchanged |
| `Store.Database.Delete` | lib/twitter_ebooks/persistent.rb:69-72 | deleting an absent key raises NOTFOUND and changes nothing; otherwise exactly that key goes |
| `ArraySpec.Slot` | lib/twitter_ebooks/persistent.rb:57 | the key of slot `key` is the prefix followed by `key` |
| `ArraySpec.SlotsDiffer` | lib/twitter_ebooks/persistent.rb:15 | distinct indexes have distinct slot keys, and no slot key is the array's own key |
| `ArraySpec.SetSizeStep` | lib/twitter_ebooks/persistent.rb:65-75 | `setsize(n)` sets the field to `n`, leaves the own record reading `max(n,0)` (deleted when `n <= 0`, an absent record tolerated), and touches nothing else |
| `ArraySpec.GetVStep` | lib/twitter_ebooks/persistent.rb:40-53 | `nil` for no record; a child (and a new cache entry) exactly for a child-array marker; the cache is unchanged otherwise |
| `ArraySpec.GetStep` | lib/twitter_ebooks/persistent.rb:55-59 | a cached child wins over the store; otherwise the decoded record; the caches grow by the one child found |
| `ArraySpec.DeleteStep` | lib/twitter_ebooks/persistent.rb:77-84 | raises exactly when the slot is absent; otherwise removes the slot and its cache entry, sets the size to `key` exactly when `key == size-1` and leaves every other slot alone |
| `ArraySpec.PutStep` | lib/twitter_ebooks/persistent.rb:86-104 | a key at or past the size makes it `key+1`; `[]` writes a child-array marker of count 0 that is also the child's size record and caches the child; a scalar is packed and the cache untouched; `nil` deletes; other slots are unchanged |
| `ArraySpec.PutThenGet` | lib/twitter_ebooks/persistent.rb:56 | `put(k, scalar)` then `get(k)` returns the scalar unless a child was already cached at `k`, in which case the stale child comes back |
| `ArraySpec.PutKeepsOtherSlots` | lib/twitter_ebooks/persistent.rb:86-104 | a put at one key does not change what `get` returns at any other key |
| `ArraySpec.DeleteThenGet` | lib/twitter_ebooks/persistent.rb:77-84 | after deleting a present slot, `get` there returns `nil` |
| `ArraySpec.ChildSizeIsParentSlot` | lib/twitter_ebooks/persistent.rb:15 | a child's `setsize` writes the parent's slot: the parent then sees a child there for a positive size and a hole for size 0 or less |
| `ArraySpec.ClearStep` | lib/twitter_ebooks/persistent.rb:116-118 | clearing the top-level array empties the whole database and keeps the size field |
| `ArraySpec.DeleteRangeSucceeds` | lib/twitter_ebooks/persistent.rb:112-114 | the delete loop succeeds exactly when every slot in the range is present, raising NOTFOUND otherwise; on success those slots and their cache entries are gone and the rest are unchanged |
| `ArraySpec.ClearNested` | lib/twitter_ebooks/persistent.rb:110-115 | clearing a nested array succeeds exactly when it has no holes; it then has size 0, no own record and no slots below its size |
| `ArraySpec.GetVOfCursorKey` | lib/twitter_ebooks/persistent.rb:131-138 | a cursor key inside the array is the slot of its last component, and `getv` on its record decodes it |
| `ArraySpec.OrderedCons` | lib/twitter_ebooks/persistent.rb:137 | the cursor keys are in order from `last` exactly when the first is at least `last` and the rest are in order from it |
| `ArraySpec.WalkTurn` | lib/twitter_ebooks/persistent.rb:127-142 | one turn of the cursor loop either ends the walk (stop, or a raise with what was yielded so far) or yields the decoded record unless it is `nil` and continues from that index |
| `ArraySpec.WalkFaultFree` | lib/twitter_ebooks/persistent.rb:127-142 | the cursor loop raises nothing exactly when the indexes never decrease and no record is corrupt; "cursor decreasing" implies an out-of-order index |
| `ArraySpec.WalkYieldsPresent` | lib/twitter_ebooks/persistent.rb:138-140 | without a fault, the cursor loop yields exactly the present values, skipping holes, and ends with the last index seen |
| `ArraySpec.WalkStopsAtForeignKey` | lib/twitter_ebooks/persistent.rb:133-136 | the walk stops at the first key outside the array: what follows it is never visited |
| `ArraySpec.FallbackFindsNothing` | lib/twitter_ebooks/persistent.rb:144-150 | the fallback succeeds exactly when no index past the last visited one has an item cached or stored; success yields nothing and changes nothing, and any raise is "cursor didn't get them all!" or a corrupt record |
| `ArraySpec.PlainEach` | lib/twitter_ebooks/suffix.rb:111-115 | the linear `each` yields one value per index in `0..size-1` when it does not raise |
| `ArraySpec.PlainEachVisitsAll` | lib/twitter_ebooks/suffix.rb:111-115 | the linear `each` raises exactly when some slot is corrupt, and otherwise yields `get(i)` for each index in ascending order, `nil` for holes included |
| `ArraySpec.WalkOverPresentSlots` | lib/twitter_ebooks/persistent.rb:127-142 | a cursor over the present slots yields the linear scan's values without the holes |
| `ArraySpec.EachMatchesPlainEach` | lib/twitter_ebooks/persistent.rb:121-152 | when the cursor hands out exactly the array's present slots in ascending order, followed by a foreign key or by nothing, on an uncorrupted array whose cached slots are stored, the cursor `each` yields exactly the non-`nil` values of the linear `each`, in order, without faults |
| `ArraySpec.AppendGrowsByTwo` | lib/twitter_ebooks/persistent.rb:154-157 | append as written: the value lands at the old size, the size ends at old+2, and slot old+1 is left as it was |
| `ArraySpec.AppendKeepsLayout` | lib/twitter_ebooks/persistent.rb:154-157 | one more append as written keeps the layout "value, hole, value, hole, …" |
| `ArraySpec.AppendAllLayout` | lib/twitter_ebooks/persistent.rb:154-157 | any number of appends as written keeps that layout |
| `ArraySpec.PlainEachOfLayout` | lib/twitter_ebooks/suffix.rb:111-115 | on that layout the linear `each` yields each value followed by a `nil` |
| `ArraySpec.NonNilInterleave` | lib/twitter_ebooks/persistent.rb:139 | dropping the `nil`s of that interleaving leaves exactly the values |
| `ArraySpec.AppendsThenEach` | lib/twitter_ebooks/persistent.rb:154-157 | after `n` appends as written the size is `2n`; the linear `each` yields a `nil` after every value; the cursor `each` yields exactly the `n` values in order |
| `ArraySpec.AppendOnceGrowsByOne` | lib/twitter_ebooks/persistent.rb:154-155 | the corrected append (`self[size] = o` alone) stores the value at the old size and grows the size by exactly one |
| `ArraySpec.AppendOnceKeepsLayout` | lib/twitter_ebooks/persistent.rb:154-155 | one corrected append keeps the values packed densely at `0..n-1` |
| `ArraySpec.AppendOnceAllLayout` | lib/twitter_ebooks/persistent.rb:154-155 | any number of corrected appends keep that dense layout |
| `ArraySpec.PlainEachOfDense` | lib/twitter_ebooks/suffix.rb:111-115 | on the dense layout the linear `each` yields exactly the values |
| `ArraySpec.ShapesOfSnoc` | lib/twitter_ebooks/persistent.rb:139 | yielding one more value, from either array class, extends the yielded shapes by that value's shape |
| `ArraySpec.AppendsOnceThenEach` | lib/twitter_ebooks/persistent.rb:154-155 | after `n` corrected appends the size is `n`, and both `each` variants yield exactly the `n` values in append order |
| `Persistent.LMDBBackedArray.Open` | lib/twitter_ebooks/persistent.rb:12-30 | construction raises "Bad magic!" exactly when the own record is not a child-array marker; otherwise it gives a fresh array with that count as its size (0 for no record) and an empty cache |
| `Persistent.LMDBBackedArray.GetV` | lib/twitter_ebooks/persistent.rb:40-53 | follows `ArraySpec.GetVStep`; a child is a fresh array sized by its own record and is cached at `key` |
| `Persistent.LMDBBackedArray.Get` | lib/twitter_ebooks/persistent.rb:55-59 | follows `ArraySpec.GetStep`; a cached child is returned as that same object |
| `Persistent.LMDBBackedArray.SetSize` | lib/twitter_ebooks/persistent.rb:65-75 | follows `ArraySpec.SetSizeStep` and keeps the cache |
| `Persistent.LMDBBackedArray.Delete` | lib/twitter_ebooks/persistent.rb:77-84 | follows `ArraySpec.DeleteStep`; the cache loses `key` on success |
| `Persistent.LMDBBackedArray.Put` | lib/twitter_ebooks/persistent.rb:86-104 | follows `ArraySpec.PutStep`; `[]` returns a fresh, empty, cached child; a scalar leaves the cache as it was |
| `Persistent.LMDBBackedArray.Clear` | lib/twitter_ebooks/persistent.rb:110-119 | follows `ArraySpec.ClearStep`; the cache only loses entries |
| `Persistent.LMDBBackedArray.CursorTurn` | lib/twitter_ebooks/persistent.rb:128-140 | one turn of the cursor loop: stop, raise or yield exactly as `ArraySpec.TurnAt` says, caching a child it meets |
| `Persistent.LMDBBackedArray.CursorLoop` | lib/twitter_ebooks/persistent.rb:122-142 | the cursor loop yields what `ArraySpec.CursorWalk` yields, with that walk's last index and fault |
| `Persistent.LMDBBackedArray.FallbackLoop` | lib/twitter_ebooks/persistent.rb:144-150 | the fallback loop behaves as `ArraySpec.Fallback` |
| `Persistent.LMDBBackedArray.Each` | lib/twitter_ebooks/persistent.rb:121-152 | the whole `each` behaves as `ArraySpec.EachStep`: it yields present values in cursor order and raises on a decrease or on an item the cursor skipped |
| `Persistent.LMDBBackedArray.Append` | lib/twitter_ebooks/persistent.rb:154-157 | follows `ArraySpec.AppendStep`, the append as written |
| `Persistent.LMDBBackedArray.CacheReset` | lib/twitter_ebooks/persistent.rb:163-165 | empties the cache and changes nothing else |
| `SuffixArray.LMDBBackedArray.Open` | lib/twitter_ebooks/suffix.rb:17-34 | as the cached version: "Bad magic!" exactly for a wrong own record, otherwise its count (or 0) as the size |
| `SuffixArray.LMDBBackedArray.Get` | lib/twitter_ebooks/suffix.rb:40-52 | returns the decoded record: `nil`, a freshly allocated child over the same database sized by its own record, the payload, or "Bad magic!" |
| `SuffixArray.LMDBBackedArray.SetSize` | lib/twitter_ebooks/suffix.rb:58-68 | follows `ArraySpec.SetSizeStep` |
| `SuffixArray.LMDBBackedArray.Delete` | lib/twitter_ebooks/suffix.rb:70-76 | follows `ArraySpec.DeleteStep` |
| `SuffixArray.LMDBBackedArray.Put` | lib/twitter_ebooks/suffix.rb:78-94 | follows `ArraySpec.PutStep` with no cache; `[]` returns a fresh child of size 0 |
| `SuffixArray.LMDBBackedArray.Clear` | lib/twitter_ebooks/suffix.rb:100-109 | follows `ArraySpec.ClearStep` |
| `SuffixArray.LMDBBackedArray.Each` | lib/twitter_ebooks/suffix.rb:111-115 | yields `get(i)` for `i` in `0..size-1`, holes included, as `ArraySpec.PlainEach`, and raises what it raises |
| `SuffixArray.LMDBBackedArray.Append` | lib/twitter_ebooks/suffix.rb:117-120 | follows `ArraySpec.AppendStep`, the append as written |
| `SuffixIndex.IndexCounts` | lib/twitter_ebooks/suffix.rb:162-178 | indexing a sentence of length `n` files `n+1` unigram references and `n` bigram references |
| `SuffixIndex.UniFromFiles` | lib/twitter_ebooks/suffix.rb:163-171 | the unigram list of `x` gains `(i, j)` exactly when `x` precedes position `j` (`INTERIM` before position 0), and `(i, INTERIM)` exactly when `x` is the last tiki |
| `SuffixIndex.BiFromFiles` | lib/twitter_ebooks/suffix.rb:166-175 | the bigram list of `(x, y)` gains `(i, j+1)` exactly when `x` precedes `y` at position `j < n-1`, and `(i, INTERIM)` exactly when that holds at the last position |
| `SuffixIndex.RefsForAppend` | lib/twitter_ebooks/suffix.rb:162-178 | the references filed under a tiki by two runs of filing are those of the first followed by those of the second |
| `SuffixIndex.AddAllConcat` | lib/twitter_ebooks/suffix.rb:163-171 | filing two runs of unigram references is filing the first, then the second |
| `SuffixIndex.AddAllBiConcat` | lib/twitter_ebooks/suffix.rb:166-175 | filing two runs of bigram references is filing the first, then the second |
| `SuffixIndex.AddAllRefs` | lib/twitter_ebooks/suffix.rb:163-171 | filing appends to each unigram list exactly the references meant for it, after those it held |
| `SuffixIndex.AddAllBiRefs` | lib/twitter_ebooks/suffix.rb:166-175 | filing appends to each bigram list exactly the references meant for it, after those it held |
| `SuffixIndex.DropShort` | lib/twitter_ebooks/suffix.rb:142 | the filtered input holds exactly the input sentences of length 2 or more |
| `SuffixIndex.InsertKeepsSound` | lib/twitter_ebooks/suffix.rb:159-178 | indexing a new sentence keeps every filed reference pointing at a real position of the sentence it names, with the right tiki before it |
| `SuffixIndex.IngestFrame` | lib/twitter_ebooks/suffix.rb:158-183 | one sentence of a batch raises "Data bad/corrput?" exactly when a different sentence is stored at its index; otherwise the sentence is stored there |
| `SuffixIndex.IngestRangeRaises` | lib/twitter_ebooks/suffix.rb:157-185 | a batch raises exactly when one of its indexes holds a different stored sentence |
| `SuffixIndex.IngestRangeStores` | lib/twitter_ebooks/suffix.rb:157-185 | a batch that succeeds stores every one of its sentences at its index, keeps the index sound and leaves every other stored sentence as it was |
| `SuffixIndex.IngestBatchesSpec` | lib/twitter_ebooks/suffix.rb:148-193 | the batch loop raises exactly when some index holds a different sentence; on success every input sentence is stored at its index |
| `SuffixIndex.InsertKeepsComplete` | lib/twitter_ebooks/suffix.rb:159-178 | indexing a new sentence files every one of its positions under the tiki and under the pair of tikis before it, and its end marker under its last tiki and pair, and keeps every reference already filed |
| `SuffixIndex.IndexExact` | lib/twitter_ebooks/suffix.rb:159-178 | over a sound and complete index, a reference to a stored sentence is filed under a tiki, or a pair, exactly when those are the tikis before its position |
| `SuffixIndex.IngestRangeKeepsComplete` | lib/twitter_ebooks/suffix.rb:157-185 | a successful batch leaves every stored sentence fully indexed |
| `SuffixIndex.IngestBatchesKeepComplete` | lib/twitter_ebooks/suffix.rb:148-192 | the batch loop leaves every stored sentence fully indexed, a rolled-back batch included |
| `SuffixIndex.BuildKeepsComplete` | lib/twitter_ebooks/suffix.rb:142-193 | building, with or without the clear and the rebuild, leaves every stored sentence fully indexed |
| `SuffixIndex.BuildChecksStored` | lib/twitter_ebooks/suffix.rb:142-193 | building raises exactly when a stored sentence differs from the input at its index (after the optional clear, and only when there is something to add); otherwise the input is stored in full |
| `SuffixIndex.IngestStoredIsIdle` | lib/twitter_ebooks/suffix.rb:179-183 | a batch over sentences already stored changes nothing |
| `SuffixIndex.IngestBatchesStoredIsIdle` | lib/twitter_ebooks/suffix.rb:148-193 | the batch loop over a fully stored input changes nothing |
| `SuffixIndex.BuildOverStoredIsIdle` | lib/twitter_ebooks/suffix.rb:142-193 | rebuilding from an input that is already stored leaves the store as it was |
| `SuffixIndex.ShrinkLeavesEmpty` | lib/twitter_ebooks/suffix.rb:143-148 | when more sentences are stored than the input has, the store is emptied but keeps its old count, so no rebuild follows and no sentence is stored |
| `SuffixGenerate.Usable` | lib/twitter_ebooks/suffix.rb:219 | an alternative survives exactly when its position is not `INTERIM` and its sentence is not used |
| `SuffixGenerate.SitesFromRaises` | lib/twitter_ebooks/suffix.rb:213-221 | the scan from position `i` raises on `nil` exactly when some later adjacent pair has no index entry |
| `SuffixGenerate.SitesFromRecords` | lib/twitter_ebooks/suffix.rb:213-221 | the scan keeps its sites in ascending order and adds exactly the usable sites at or after `i` |
| `SuffixGenerate.SiteAppend` | lib/twitter_ebooks/suffix.rb:220 | recording a site with usable alternatives keeps the sites valid and ascending |
| `SuffixGenerate.SiteStep` | lib/twitter_ebooks/suffix.rb:213-221 | one position of the scan moves exactly its own site, if any, into the recorded sites |
| `SuffixGenerate.SitesSpec` | lib/twitter_ebooks/suffix.rb:213-221 | the variation-site scan raises exactly when some adjacent pair has no index entry; otherwise it records, in ascending order, exactly the positions with usable alternatives |
| `SuffixGenerate.Permute` | lib/twitter_ebooks/suffix.rb:225-229 | a shuffle only reorders: every element comes from the input, and an in-range order keeps the length |
| `SuffixGenerate.RubySuffix` | lib/twitter_ebooks/suffix.rb:233 | `s[p..-1]` is `nil` exactly when `p > |s|` or `p < -|s|`; otherwise it is a suffix of `s`, of length `|s|-p` for `0 <= p <= |s|` |
| `SuffixGenerate.TryAlts` | lib/twitter_ebooks/suffix.rb:229-243 | a site whose alternatives are all rejected leaves the sentence, the used list and the draws unchanged |
| `SuffixGenerate.TrySites` | lib/twitter_ebooks/suffix.rb:225-246 | a pass in which no site accepts leaves the sentence and the used list unchanged |
| `SuffixGenerate.Pass` | lib/twitter_ebooks/suffix.rb:211-248 | a pass with no acceptance leaves `tikis` and `used` unchanged |
| `SuffixGenerate.GrowsTrans` | lib/twitter_ebooks/suffix.rb:232 | the pool only grows: growth composes |
| `SuffixGenerate.TryAltsSpec` | lib/twitter_ebooks/suffix.rb:229-243 | an accepted variant is `tikis[0..start+1]` followed by the alternative's suffix; it is related by `subseq` to no pool entry, the pool having gained every sentence examined; its sentence is appended to `used`; "stuck" needs more than 100000 alternatives |
| `SuffixGenerate.TrySitesSpec` | lib/twitter_ebooks/suffix.rb:225-246 | the accepted variant comes from one of the sites still to visit, through one of its alternatives; with in-range shuffles "stuck" needs a site with more than 100000 alternatives |
| `SuffixGenerate.PassSpec` | lib/twitter_ebooks/suffix.rb:209-248 | an accepted variant splices at a site whose index entry holds the chosen alternative, not `INTERIM` and from an unused sentence; a pass with no acceptance only grows the pool |
| `SuffixGenerate.AcceptedSite` | lib/twitter_ebooks/suffix.rb:217-220 | an alternative of a recorded site is in that site's index entry, is not `INTERIM` and names an unused sentence |
| `SuffixGenerate.PassGivesUp` | lib/twitter_ebooks/suffix.rb:242 | a pass returns `nil` only when some variation site has more than 100000 usable alternatives |
| `SuffixGenerate.RunSpec` | lib/twitter_ebooks/suffix.rb:209-251 | for `Run`, the loop over the passes: over the passes `passno..passes`, `used` grows by at most one per pass and stays duplicate-free, the pool only grows, and the final sentence is the starting one or unrelated to the starting pool |
| `SuffixGenerate.AppendKeepsNoDup` | lib/twitter_ebooks/suffix.rb:238 | appending an unused sentence keeps `used` duplicate-free |
| `SuffixGenerate.UnrelatedShrinks` | lib/twitter_ebooks/suffix.rb:237 | being unrelated to a pool implies being unrelated to any earlier, smaller pool |
| `SuffixGenerate.StoredIsChained` | lib/twitter_ebooks/suffix.rb:162-178 | every tiki of a stored sentence follows its predecessor (`INTERIM` before the first) somewhere in the corpus |
| `SuffixGenerate.SpliceChained` | lib/twitter_ebooks/suffix.rb:234 | splicing onto `tikis[0..start+1]` a stored suffix whose preceding tiki is `tikis[start+1]` keeps every tiki following its predecessor somewhere in the corpus |
| `SuffixGenerate.SuffixChained` | lib/twitter_ebooks/suffix.rb:233-234 | splicing `s[p..-1]` at a position inside `s` preceded by `tikis[start+1]` keeps the sentence chained |
| `SuffixGenerate.OfferedContinuation` | lib/twitter_ebooks/suffix.rb:217-219 | in a completely built index, every position of a stored sentence preceded by the site's tiki (or pair of tikis) is among the site's alternatives, and survives the filter unless its sentence is used |
| `SuffixGenerate.SoundAlternative` | lib/twitter_ebooks/suffix.rb:217 | in a soundly built index, an alternative found for the pair `(x, y)` names a stored sentence and a position in it preceded by `y` |
| `SuffixGenerate.PassKeepsChained` | lib/twitter_ebooks/suffix.rb:211-248 | over a sound index, a pass keeps every tiki of the sentence following its predecessor somewhere in the corpus |
| `SuffixGenerate.AcceptedChained` | lib/twitter_ebooks/suffix.rb:238-239 | an accepted splice through an index alternative keeps the sentence chained |
| `SuffixGenerate.RunKeepsChained` | lib/twitter_ebooks/suffix.rb:209-249 | every pass keeps the sentence chained |
| `SuffixGenerate.GenerateAvoidsStart` | lib/twitter_ebooks/suffix.rb:203-252 | the generated sentence is the start sentence itself or related by `subseq` to it in neither direction |
| `SuffixGenerate.GenerateIsChained` | lib/twitter_ebooks/suffix.rb:203-252 | over a soundly built index every tiki of the generated sentence follows its predecessor (`INTERIM` before the first) somewhere in the corpus |
| `SuffixGenerate.GenerateNoPasses` | lib/twitter_ebooks/suffix.rb:204-209 | with a negative pass count (an empty `0..passes`) the result is the sentence drawn by `rand` |
| `SuffixGenerate.GenerateUsesOnce` | lib/twitter_ebooks/suffix.rb:206-249 | `used` starts with the drawn index, never repeats a sentence and grows by at most one per pass, `passes+1` passes in all |
| `Suffix.SuffixGenerator.constructor` | lib/twitter_ebooks/suffix.rb:139-141 | the generator opens with the containers' stored contents |
| `Suffix.SuffixGenerator.Build` | lib/twitter_ebooks/suffix.rb:142-193 | the containers end as `SuffixIndex.BuildSpec` says: short sentences dropped, a larger store cleared, the missing sentences indexed batch by batch, and a failed batch rolled back |
| `Suffix.SuffixGenerator.IngestBatch` | lib/twitter_ebooks/suffix.rb:153-186 | one transaction: the containers end as `SuffixIndex.IngestRange` over the next at most 1000 sentences says, and it raises exactly when that range does |
| `Suffix.SuffixGenerator.IndexSentence` | lib/twitter_ebooks/suffix.rb:160-178 | the containers end with the sentence stored and exactly its references filed, as `SuffixIndex.Insert` says |
| `Suffix.IndexStep` | lib/twitter_ebooks/suffix.rb:162-178 | one turn of `each_with_index` files exactly the references of its position |
| `Suffix.SuffixGenerator.VariationSites` | lib/twitter_ebooks/suffix.rb:213-221 | the site loop computes the scan of `SuffixGenerate.SitesSpec` |
| `Suffix.SuffixGenerator.SearchSite` | lib/twitter_ebooks/suffix.rb:228-243 | the alternative loop, with its `ib` counter, computes `SuffixGenerate.TryAlts` |
| `Suffix.SuffixGenerator.RunPass` | lib/twitter_ebooks/suffix.rb:211-248 | one pass, with its two shuffles, computes `SuffixGenerate.Pass` |
| `Suffix.SuffixGenerator.Generate` | lib/twitter_ebooks/suffix.rb:203-252 | `generate` computes `SuffixGenerate.GenerateSpec`, whose properties are the lemmas above |
| `EbooksModel.BijectionIsInjective` | lib/twitter_ebooks/model.rb:82-90 | interned tokens are pairwise distinct |
| `EbooksModel.InternKeepsBijection` | lib/twitter_ebooks/model.rb:86-88 | appending a new token at index `|tokens|` keeps `tokens` and `tikis` mutual inverses |
| `EbooksModel.SpellsGrows` | lib/twitter_ebooks/model.rb:95-106 | tikis that spell a sentence keep spelling it after later tokens are interned |
| `EbooksModel.KeepTokens` | lib/twitter_ebooks/model.rb:99-102 | the kept tokens are exactly those containing neither "@" nor "http" |
| `EbooksModel.Normalized` | lib/twitter_ebooks/model.rb:145-149 | normalizing keeps the length and maps each line in place |
| `EbooksModel.PickSnoc` | lib/twitter_ebooks/model.rb:141-150 | one more line goes to the end of the list for its kind and nowhere else |
| `EbooksModel.PickPartitions` | lib/twitter_ebooks/model.rb:141-150 | every line is dropped, a mention or a statement, exactly one of the three |
| `EbooksModel.PickMembers` | lib/twitter_ebooks/model.rb:141-150 | for `KindOf`, the classification of each line, and `Pick`, the lists it builds: a line is in a list exactly when it is a corpus line of that kind: commented or "RT"/"MT" lines are dropped, lines starting with "@" or with whitespace before an "@" are mentions, the rest statements |
| `EbooksModel.FindFrom` | lib/twitter_ebooks/model.rb:262 | `find_index` returns the first sentence of length > 1 for which `subseq?(s, tikis)` holds, and `nil` only when there is none |
| `EbooksModel.Repeat` | lib/twitter_ebooks/model.rb:286-291 | one sentence appended once per matching token |
| `EbooksModel.RelCountAtMost` | lib/twitter_ebooks/model.rb:286-291 | a sentence is appended to `relevant` at most as often as to `slightly_relevant` |
| `EbooksModel.RelevantWithinSlightly` | lib/twitter_ebooks/model.rb:284-295 | `relevant` is a sub-multiset of `slightly_relevant`, and no longer |
| `EbooksModel.SlightCountPositive` | lib/twitter_ebooks/model.rb:286-291 | a sentence is appended to `slightly_relevant` at all exactly when some input token is among its downcased tokens |
| `EbooksModel.SlightlyMembers` | lib/twitter_ebooks/model.rb:284-295 | a sentence is in `slightly_relevant` exactly when it is one of the input sentences and shares a downcased token with the input |
| `EbooksModel.Model.constructor` | lib/twitter_ebooks/model.rb:72-77 | a new model has no tokens and no tikis |
| `EbooksModel.Model.Tikify` | lib/twitter_ebooks/model.rb:82-90 | a known token returns its tiki and changes nothing; a new one is appended and gets `tokens.length-1`; in both cases `tokens[tiki] == token` and the two structures stay inverse |
| `EbooksModel.InternGrows` | lib/twitter_ebooks/model.rb:82-90 | interning words keeps the old token list as a prefix, lists every word, and adds only words not listed before, each once |
| `EbooksModel.InternConcat` | lib/twitter_ebooks/model.rb:95-106 | interning two runs of words is interning the first and then the second |
| `EbooksModel.InternedIn` | lib/twitter_ebooks/model.rb:83 | under the bijection, a token has a tiki exactly when it is in `tokens` |
| `EbooksModel.Model.TikifyAll` | lib/twitter_ebooks/model.rb:103 | the tikis spell the words, and `tokens` becomes the old list followed by the words not listed yet, in order of first occurrence |
| `EbooksModel.Model.MassTikify` | lib/twitter_ebooks/model.rb:95-106 | one tiki list per sentence, spelling exactly its kept tokens in order; `tokens` becomes the old list followed by the kept tokens not listed yet, in order of first occurrence, so earlier tokens keep their tikis and no token with "@" or "http" is added |
| `EbooksModel.Model.SortLines` | lib/twitter_ebooks/model.rb:139-150 | the loop yields the normalized statements and mentions, in input order |
| `EbooksModel.Model.ConsumeLines` | lib/twitter_ebooks/model.rb:136-167 | `sentences` and `mentions` are the tikified sentences of the joined statement and mention texts, one list per sentence, spelled by the kept tokens; `tokens` becomes the old list followed by the new kept tokens of the statements and then of the mentions, in order of first occurrence |
| `EbooksModel.Model.Verbatim` | lib/twitter_ebooks/model.rb:261-273 | true exactly when some sentence, or else some mention, of length > 1 satisfies `subseq?(s, tikis)` |
| `EbooksModel.Model.FindRelevant` | lib/twitter_ebooks/model.rb:280-296 | the nested loops compute `slightly_relevant` (a sentence once per input token it contains), `relevant` (the same, skipping stopwords) and the downcased tokens, in order |
| `EbooksModel.Model.ResponsePrefersRelevant` | lib/twitter_ebooks/model.rb:304-331 | for `ResponseCorpus`, the branch chain of `make_response`: the response corpus is the first of: `relevant` if at least 30, `slightly_relevant` if at least 50, the same two over all sentences when starting from the mentions, and all sentences otherwise |

## Left out

- LMDB environments and transactions are left out. A batch is atomic: a
  raise restores the state the batch started from. The `MAP_FULL`
  recovery is left out too: its growth of the map size in floating
  point, and its retry (`suffix.rb:187-189`).
- MessagePack is left out. Keys are integer paths and values are tagged
  records. The engine's cursor order is a parameter of `each`, not
  derived from the key encoding.
- File and corpus I/O are left out: `consume`, `consume_all`, `load`,
  `save`, `mkdir_p`, and the opening of the three databases by name in
  `SuffixGenerator#initialize`. `load` restores `@tokens` without
  rebuilding `@tikis`, and that is not modelled either.
- There is no model of natural-language processing. These are
  parameters, so every property holds for any choice of them:
  - `NLP.sentences` and `NLP.tokenize`, taken as one split function;
  - `NLP.normalize`, `downcase`, `NLP.stopword?` and `NLP.subseq?`.
- `SuffixGenerator.subseq?` is called by `verbatim?` but not defined in
  `suffix.rb`. It is the same `subseq` parameter.
- `NLP.keywords`, and the `@keywords` list that `consume_lines` ranks, are
  left out: they are natural-language helpers whose output nothing else
  in the model reads.
- `consume_lines` re-encodes the joined text to UTF-8. Strings are
  `seq<char>` here, so that step is the identity.
- Logging (`log`, `puts`, the progress messages) is left out.
- `make_statement`, `fix` and `valid_tweet?` are left out. They are text
  reconstruction with a retry loop whose `next` skips the retry counter.
  `make_response` is modelled up to the corpus it hands to
  `SuffixGenerator.build` and `make_statement`. Building the name
  `name + "/" + tokstr` is left out.
- `generate`'s `reject!` is modelled as a non-destructive filter of the
  alternatives. The container `reject!` is called on only includes
  `Enumerable`, which defines no `reject!`.
- `generate` runs on the cached array from `persistent.rb`, whose `length`
  it needs. `generate` sees `@sentences.length` as the container's size
  field, `count`.
- `Kernel#rand` is left out. It is the parameter `pick`, required to be
  in range when the store is not empty. An empty store makes
  `@sentences[rand(0)]`, a float index, a `nil` sentence. That case is
  modelled.
- `SuffixGenerate.Permute`: a shuffle order is any sequence of indexes.
  Indexes out of range are skipped, so a bad order can drop elements. The
  lemmas that need a true permutation say so (`Shuffles`).
- `EbooksModel.Model.FindRelevant` requires every tiki of the searched
  sentences to index `tokens`. Tikis come from `tikify`, so the caller
  always satisfies this. For a tiki out of range, Ruby would call
  `downcase` on `nil` and raise.
- `EbooksModel.Model.ResponsePrefersRelevant` tells the branch from the
  mentions by a flag. Ruby compares object identity with `equal?`.
- `Store.Database` models only the engine calls the arrays make:
  `get` (a map lookup), `put`, `delete` (NOTFOUND for an absent key) and
  `clear`.

Behaviour of the code that a reader might not expect, and that the model
follows as written:

- `append` grows the size by two, not by one (see Findings).
- The fallback of the cursor `each` raises when `get` *finds* an item past
  the last index the cursor visited, that is, when the cursor skipped one.
- `put` over a cached child does not clear the child first. A scalar put
  leaves the child in the cache (`ArraySpec.PutThenGet`).
- Top-level `clear` empties the database but keeps the size field. The
  generator's shrink path therefore clears the store without rebuilding
  it (`SuffixIndex.ShrinkLeavesEmpty`). This is documented rather than a
  finding, because no intended behaviour for it is evident.
- Building checks an already stored sentence by its index, not by a
  search of the bigram index.
- `generate` runs `passes + 1` passes (the range `0..passes`). It
  considers position 0 as a site and does not sample the alternatives
  down. It pushes every examined sentence onto the pool before checking.
  It gives up the whole call (`nil`) after 100000 alternatives at one
  site.
- `verbatim?` scans the sentences and then the mentions with `find_index`.
- `tikify` keeps no case-folded reverse map.

## Findings

| source | as written | input that shows it | evidently intended | confidence | as-written member | corrected member |
|---|---|---|---|---|---|---|
| lib/twitter_ebooks/persistent.rb:154-157 (and lib/twitter_ebooks/suffix.rb:117-120) | `self[size] = o` already raises the size to `size+1`; `setsize(size+1)` then adds one more, leaving a hole after every appended value | an empty array, `append([5])`: the size is 2, slot 1 is empty, and the linear `each` yields `[5], nil` | append stores at the old size and grows the size by exactly one, so that after `n` appends the size is `n` and `each` yields the `n` values | not executed | `ArraySpec.AppendsThenEach` | `ArraySpec.AppendsOnceThenEach` |

The generator's index containers are filled by `<<`. With the append as
written, their size fields are twice the number of references they hold.
The cursor `each` skips the holes, so the references it yields are the
same under both definitions (`ArraySpec.AppendsThenEach`,
`ArraySpec.AppendsOnceThenEach`). The generator's logical model uses those
references.
