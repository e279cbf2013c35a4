# LibreSignage slide layer, modelled in Dafny

This project models the slide layer of LibreSignage, a digital-signage
server written in PHP (`src/common/php/slide.php`). That layer covers:

- **Identifier listing** (`slides_id_list`): the slide identifiers are the
  entries of the slides directory, minus the hidden ones.
- **The `Slide` record**: nine fields, each with a setter that checks its
  argument before assigning it, and a data snapshot (`get_data_array`).
- **The expiry rule** (`check_expired`): a slide whose expiry time has come
  is disabled.
- **Config storage** (the config part of `write` and `load`): a slide is
  stored as a key/value config plus a markup file, and is loaded back
  through the same setters.
- **Index ordering**: sorting by index (`sort_slides_by_index`), rewriting
  the indices to 0..n-1 (`normalize_slide_indices`), and the index juggler
  (`juggle_slide_indices`). The juggler renumbers every slide while one
  "kept" slide holds its position.

Every value is immutable. A setter returns the updated record or an error,
where the source assigns or throws. The slides directory is a `Store`: the
raw listing plus a map from identifier to the slide's two files. Outside
facts are parameters:

- the configured limits (`Limits`);
- the user-existence check (`userExists`);
- the clock (`now`).

Modules, one per file, with imports in this order:

| module | file | what it holds |
|---|---|---|
| `Outcome` | outcome.dfy | error kinds, `Option`, `Result` |
| `Directory` | directory.dfy | the identifier filter |
| `Slides` | slides.dfy | record, setters, validity, expiry |
| `Config` | config.dfy | the config array `write` builds, and decoding it through the setters |
| `Ordering` | ordering.dfy | sort and normalize |
| `IndexJuggler` | juggle.dfy | the juggler as written, and corrected |
| `Storage` | storage.dfy | store, load, write, listing, and the store-level reindex pass |

## Model

| member | source | states |
|---|---|---|
| Directory.SlidesIdList | src/common/php/slide.php:14-21 | An identifier is listed exactly when it is a directory entry that does not start with a dot. Each visible entry keeps its multiplicity; hidden entries occur zero times. |
| Directory.SlidesIdListAppend | src/common/php/slide.php:18-20 | Filtering a concatenated listing is the concatenation of the filtered parts, so the filter keeps the listing's order. |
| Directory.SlidesIdListVisible | src/common/php/slide.php:18-20 | A listing with no hidden entry comes back unchanged. |
| Directory.SlidesIdListKeepsOrder | src/common/php/slide.php:18-20 | Two visible entries at positions a < b appear in the identifiers in the same order. |
| Slides.FindBadChar | src/common/php/slide.php:262 | The negated-class scan reports a match exactly when some character is outside `[a-zA-Z0-9_-]`. |
| Slides.SetId | src/common/php/slide.php:233-248 | Accepts exactly the identifiers that are visible entries of the slides directory. On success only `id` changes; otherwise the error is an unknown-id validation error. |
| Slides.SetMarkup | src/common/php/slide.php:250-258 | Accepts exactly markup no longer than the markup limit. On success only `markup` changes; otherwise the error is markup too long. |
| Slides.SetName | src/common/php/slide.php:260-280 | Accepts exactly names made only of `[a-zA-Z0-9_-]` and within the length limit. A bad character is reported before excess length. On success only `name` changes. |
| Slides.SetIndex | src/common/php/slide.php:282-290 | Accepts exactly indices in [0, maximum index]. On success only `index` changes; otherwise the error is out of range. |
| Slides.SetTime | src/common/php/slide.php:292-301 | Accepts exactly times in [minimum time, maximum time]. On success only `time` changes; otherwise the error is out of range. |
| Slides.SetOwner | src/common/php/slide.php:303-310 | Accepts exactly owners the user check knows. On success only `owner` changes. |
| Slides.SetEnabled | src/common/php/slide.php:312-314 | Every boolean is accepted. The flag takes the given value and no other field changes. |
| Slides.SetExpires | src/common/php/slide.php:316-318 | Every boolean is accepted. The flag takes the given value and no other field changes. |
| Slides.SetExpireT | src/common/php/slide.php:320-327 | Accepts exactly non-negative timestamps. On success only `expireT` changes; otherwise the error is negative. |
| Slides.CheckExpired | src/common/php/slide.php:353-366 | The result is enabled iff the slide was enabled and has not expired (it expires and now >= expire_t). A slide that has not expired is returned unchanged. No field other than `enabled` ever changes. |
| Slides.CheckExpiredIdempotent | src/common/php/slide.php:353-366 | Applying the rule a second time at the same moment changes nothing. |
| Slides.CheckExpiredMonotone | src/common/php/slide.php:359-364 | A slide the rule disables at one time stays disabled at every later time. |
| Slides.ValidSlideBySetters | src/common/php/slide.php:233-327 | A record is valid exactly when each of the seven checking setters accepts its current field value. |
| Config.ConfOf | src/common/php/slide.php:375-383 | The config `write` builds has exactly the required config keys, in the required order. |
| Config.DataArray | src/common/php/slide.php:339-351 | The snapshot's keys are `id`, `markup`, then the config keys. It carries the id and markup, and after them exactly the config `write` stores. |
| Config.LoadHead | src/common/php/slide.php:210-211 | Loading the id and markup succeeds iff the id is a visible directory entry and the markup is within its limit. Both are then taken over unchanged. |
| Config.LoadFields | src/common/php/slide.php:212-215 | Name, index, time and owner load iff each value has the right type and passes its setter's rule. The record then holds exactly those values. |
| Config.LoadFlags | src/common/php/slide.php:216-218 | The two flags and the expiry time load iff they are booleans and a non-negative integer. The record then holds exactly those values. |
| Config.FromConf | src/common/php/slide.php:194-218 | A config whose keys differ from the required ones gives the "Invalid slide config." integrity error. A config that loads gives a record with the given id and markup in which every field passes its setter. |
| Config.FromConfOfWritten | src/common/php/slide.php:209-218 | Decoding the config `write` stores for a slide succeeds iff the slide is valid, and then yields the slide itself. |
| Config.ConfOfLoaded | src/common/php/slide.php:375-383 | A config that loads is exactly the config `write` would store for the loaded slide, and the loaded slide is valid. |
| Ordering.UnindexedAllAppend | src/common/php/slide.php:36-60 | Blanking the indices of a concatenation gives the concatenation of the blanked parts. |
| Ordering.IdsByMultiset | src/common/php/slide.php:36-60 | Two arrangements of the same slides carry the same identifiers, counted with multiplicity. |
| Ordering.DistinctByMultiset | src/common/php/slide.php:14-21 | Whether a listing has repeats depends only on its multiset of identifiers. |
| Ordering.UniqueIdsByContent | src/common/php/slide.php:36-60 | A rearrangement of slides with distinct identifiers, indices aside, has distinct identifiers. |
| Ordering.Insert | src/common/php/slide.php:40-48 | Inserting into an index-sorted sequence gives a sorted sequence that holds the old slides plus the new one. |
| Ordering.SortByIndex | src/common/php/slide.php:36-49 | The result is sorted by index and is a permutation of the input. |
| Ordering.SortKeepsContent | src/common/php/slide.php:36-49 | Sorting neither adds, drops nor changes any slide once indices are ignored. |
| Ordering.SortedIsFixpoint | src/common/php/slide.php:36-49 | A sequence already sorted by index is returned as it is. |
| Ordering.Renumber | src/common/php/slide.php:56-59 | The loop succeeds iff the last index it would write is within the maximum index. The slide at position j then gets index `from + j`, and nothing else changes. |
| Ordering.RenumberKeepsContent | src/common/php/slide.php:56-59 | Renumbering changes no field other than `index`. |
| Ordering.Normalize | src/common/php/slide.php:51-60 | Normalizing succeeds iff the slide count fits below the maximum index plus one. Every slide's new index is then its position. |
| Ordering.NormalizeIsPermutation | src/common/php/slide.php:51-60 | The normalized slides are the input slides, each once, with only `index` changed. Their indices are exactly 0..n-1, and position j holds the j-th slide in index order. |
| Ordering.NormalizeIsRenumberedSort | src/common/php/slide.php:55-59 | Position j of the result is the j-th slide of the sorted input, renumbered to j. |
| Ordering.NormalizeKeepsOrder | src/common/php/slide.php:51-60 | With unique ids, a slide whose old index was smaller than another's ends earlier, with the smaller new index. |
| Ordering.NormalizeDenseSortedIsIdentity | src/common/php/slide.php:51-60 | Slides already numbered 0..n-1 in order are left unchanged. |
| IndexJuggler.FirstWithId | src/common/php/slide.php:77-84 | The search stops at the first slide with the id, or past the end when no slide has it. |
| IndexJuggler.TakeOut | src/common/php/slide.php:76-86 | A slide is taken out iff some slide has the id. It is the first slide with that id, and the rest is the input without it, in the input's order. With no match the input stays as it is. |
| IndexJuggler.TakeOutKeepsContent | src/common/php/slide.php:76-86 | The taken-out slide and the rest together are the input slides, as a multiset once indices are ignored. |
| IndexJuggler.ShiftOne | src/common/php/slide.php:96-100 | One iteration fails exactly when the slide needs moving and index+1 exceeds the maximum. Otherwise slides at or beyond k move up by one and the others stay. |
| IndexJuggler.ShiftFrom | src/common/php/slide.php:94-101 | The loop fails iff some slide cannot move. On success each slide is bumped individually, in place. |
| IndexJuggler.ShiftFromClash | src/common/php/slide.php:95 | `clash` ends set iff it started set or some slide has exactly index k. |
| IndexJuggler.ShiftFromKeepsLast | src/common/php/slide.php:96-99 | When no slide reaches index k, `$i` is left at its starting value. |
| IndexJuggler.ShiftFromLastWritten | src/common/php/slide.php:97 | When the last slide is moved, `$i` ends as the index written for it. |
| IndexJuggler.ShiftNormalized | src/common/php/slide.php:94-101 | On slides numbered 0..N-1: the loop clashes iff k < N, and moves exactly the slides at positions k and beyond. `$i` ends at N when anything moved, and at 0 otherwise. |
| IndexJuggler.JuggleAsWritten | src/common/php/slide.php:62-111 | With an empty id only the normalized slides come back. Otherwise the kept slide comes back with the given id, and together with the others it accounts for every input slide. |
| IndexJuggler.PlaceAsWritten | src/common/php/slide.php:94-109 | Each other slide, in place, is moved up by one exactly when its index is at least the kept slide's. The kept slide differs from its input at most in `index`. |
| IndexJuggler.Juggle | src/common/php/slide.php:62-111 | The corrected pass has the same shape as the pass as written, and fails whenever a non-empty id matches no slide. |
| IndexJuggler.Place | src/common/php/slide.php:94-109 | The corrected placement moves the others as the loop does (up by one from the kept index on) and changes at most the kept slide's index. |
| IndexJuggler.JuggleClashAsWritten | src/common/php/slide.php:88-101 | When k < N, the others are normalized in index order and those at positions k and beyond move up by one. The kept slide is untouched at k. The N+1 indices are exactly 0..N. |
| IndexJuggler.JuggleNoClashAsWritten | src/common/php/slide.php:102-109 | When k >= N, nothing moves and the kept slide gets index `$i + 1 = 1`, not N. The result is dense iff N = 1. |
| IndexJuggler.NoClashCounterexample | src/common/php/slide.php:97-109 | For slides A at 0, B at 1 and K at 2 or beyond, the pass as written puts K on index 1, which B already holds, so the indices are not dense. |
| IndexJuggler.NoClashCorrectedExample | src/common/php/slide.php:102-106 | On the same slides the corrected pass puts K at 2, after A and B, and the indices are dense. |
| IndexJuggler.JuggleKeepsPosition | src/common/php/slide.php:62-109 | The corrected pass succeeds when the kept slide exists and at most the maximum index of others remain. The kept slide ends at min(k, N), the others shift as in the clash case, and all N+1 indices are exactly 0..N. |
| IndexJuggler.JuggleWithoutKeep | src/common/php/slide.php:66-88 | With an empty id (including "0") both passes are exactly normalization of all slides. They succeed iff that fits, and the result is a dense permutation with only indices changed. |
| IndexJuggler.JuggleSucceeds | src/common/php/slide.php:76-109 | With a non-empty id, the corrected pass succeeds iff three things hold: the kept slide exists, the others fit when normalized, and in the clash case the shifted last slide fits. |
| IndexJuggler.JuggleDense | src/common/php/slide.php:63-68 | For any kept id, a successful corrected pass writes every slide back once, with indices exactly 0..N-1. |
| IndexJuggler.RelabelledContent | src/common/php/slide.php:88-109 | Slides that match the sorted others one for one, indices aside, plus the kept slide, hold the kept slide on top of the others. |
| IndexJuggler.KeptJuggleKeepsContent | src/common/php/slide.php:76-109 | With a kept id, a successful corrected pass writes back the input slides, each once, with only indices changed. |
| IndexJuggler.JuggleKeepsContent | src/common/php/slide.php:62-111 | For any kept id, a successful corrected pass writes back exactly the input slides as a multiset, with only indices changed. |
| Storage.Write | src/common/php/slide.php:368-400 | Writing stores the slide's config and markup under its id, leaves every other slide's files and the listing as they were, and adds no other entry. |
| Storage.Load | src/common/php/slide.php:164-223 | Not-found exactly when the slide's files are missing. A config that does not decode is an integrity error. A successful load returns a valid slide with the requested id, keeps the listing and the set of slides, and returns an expired slide disabled. |
| Storage.Expire | src/common/php/slide.php:220 | The returned slide is enabled iff it was enabled and has not expired, and no other field changes. The listing stays. The slide is written back whenever it has expired, also when it was already disabled: its entry is then what `write` stores for the returned slide. Every other entry is untouched. |
| Storage.WriteThenLoad | src/common/php/slide.php:209-220 | A valid slide that is written and then loaded comes back as itself, with only the expiry rule applied. |
| Storage.LoadThenWrite | src/common/php/slide.php:220 | After a load the store already holds the loaded slide's files, so writing it back changes nothing. |
| Storage.LoadAll | src/common/php/slide.php:23-34 | Loading a run of ids yields one slide per id, in order, each with a valid index. The store keeps its listing and its set of slides. A failed load yields an error other than not-found. |
| Storage.LoadAllFirst | src/common/php/slide.php:27-31 | When the first load fails, the listing fails with that load's error. When the listing succeeds, its first slide is the one that load returns. |
| Storage.LoadAllFailsOnAnyLoad | src/common/php/slide.php:27-31 | A load that fails at any position, after the earlier loads succeeded, makes the whole listing fail. |
| Storage.SlidesList | src/common/php/slide.php:23-34 | The listed slides correspond one-to-one, in order, to the directory's visible entries. |
| Storage.WriteAll | src/common/php/slide.php:56-58 | A run of writes keeps the listing, and afterwards the store holds exactly the old slides plus the written ones. |
| Storage.WriteAllStores | src/common/php/slide.php:56-58 | With unique ids, each written slide is stored as `write` leaves it, and every other slide is untouched. |
| Storage.Reindex | src/common/php/slide.php:62-111 | (corrected pass) A successful reindex of the store keeps the listing and writes back one slide per listed entry. |
| Storage.ReindexStores | src/common/php/slide.php:56-58 | (corrected pass) When the written slides have distinct ids, the store holds for each of them exactly what `write` stores for it. |
| Storage.ReindexUniqueIds | src/common/php/slide.php:23-34 | (corrected pass) When the directory listing has no repeated identifiers, the written slides have distinct identifiers. |
| Storage.ReindexDense | src/common/php/slide.php:63-68 | (corrected pass) After a successful reindex, the written slides use the indices 0..N-1 exactly once each. |
| Storage.ReindexKeepsContent | src/common/php/slide.php:62-111 | (corrected pass) The written slides are exactly the listed slides as loaded, each once, with only indices changed. |

## Left out

- **Filesystem and JSON text.** Directory scanning, path building, file
  locks and the JSON byte encoding are not modelled. A store entry holds the
  decoded config, or `None` when the config does not decode to an array.
  The read-failure exceptions of `load` (src/common/php/slide.php:179-184,
  202-207) and the encode-failure exception of `write` (386-391) come from
  the file and JSON libraries, which are not part of this model.
- Storage.SlidesList: requires every listed entry to have its files
  (`ListedComplete`). In the source's `slides_list`, a visible directory
  entry whose files are missing makes `load` return FALSE, and the source
  still appends the half-initialised object. The source ignores that FALSE
  (src/common/php/slide.php:30), so such an entry is never reported as an
  error. The model does not represent the half-initialised object.
- **Creating and removing slides.** Slide creation (`gen_id` with its
  random uid, and an unset object's NULL fields) and `remove` (a recursive
  directory delete) are left out.
- **Getters.** They are plain field reads, so they are the record's fields
  and need no members of their own.
- **Regex-engine failure.** `set_name`'s branch for a failed regex match
  (src/common/php/slide.php:267-271) is a library fault and is not
  modelled.
- **PHP type juggling.** Without strict types, PHP coerces a config value
  of the wrong scalar type when it is passed to a typed setter. Here such
  a value is an integrity error.
- **Byte strings.** Names, ids and owners are Dafny strings, with one
  character per byte. Markup is a sequence of bytes.
- **Sort ties.** PHP's `usort` is not stable, so slides with equal indices
  may come out in any order. The model sorts with a stable insertion sort.
  This is one of the orders the source can produce, and the order property
  (`Ordering.NormalizeKeepsOrder`) is stated only for distinct indices.
- **Missing kept slide.** A non-empty `keep_id` that no slide has makes the
  source call a method on NULL. That call is the `NullKeep` error, raised
  where the source reaches it, after normalizing.
- **Interleaved writes.** `normalize_slide_indices` and the juggler write
  each slide as they go, so a pass that fails midway leaves earlier writes
  on disk. `Storage.Reindex` returns only the outcome of a complete pass,
  which it writes once per slide. Concurrency and locking between passes
  are left out.
- Storage.LoadAll: states index validity for each loaded slide, which is
  what reindexing needs. It does not state full validity; `Storage.Load`
  states that for each single load.
- Storage.Reindex: uses the corrected juggler. The pass as written is
  `IndexJuggler.JuggleAsWritten`. What the store holds afterwards
  (`Storage.ReindexStores`) is stated only when the written slides have
  distinct ids; `Storage.ReindexUniqueIds` derives that from a listing
  without repeats, which a directory listing is. With repeated ids the
  last write of an id wins. Reindex also requires `ListedComplete`, for
  the same reason as `Storage.SlidesList`.
- Slides.SetId: compares the id with the directory entries exactly, where
  the source's `in_array` compares loosely, so two different numeric
  strings with equal values (`"1"`, `"01"`) match there. Slide ids come from
  a uid generator that is not part of this model, so their format is not
  known; exact comparison is what holds for non-numeric ids.
- IndexJuggler.FirstWithId: compares ids exactly, where the source's `==`
  compares loosely (numeric strings with equal values are equal). The
  reason is the same as for `Slides.SetId`.
- IndexJuggler.TakeOut: takes out the slide whose id equals the kept id
  exactly, for the same reason as `IndexJuggler.FirstWithId`.

## Findings

| source | as written | input that shows it | evidently intended | confidence | as-written member | corrected member |
|---|---|---|---|---|---|---|
| src/common/php/slide.php:97-109 | `$i` is set only when a slide is moved. In the no-clash branch nothing is moved, so the kept slide gets `$i + 1 = 1`. | Slides A at index 0, B at 1, and kept slide K at 5. K gets index 1, the same as B. | Per the comment at lines 103-106, the kept slide becomes the last one, at index N (here 2). | not executed | IndexJuggler.NoClashCounterexample | IndexJuggler.JuggleKeepsPosition |
