# Permanent URIs, snapshot diff and breadcrumbs of the Spaces browser

This project models the parts of the bucket browser and its maintenance scripts that are logic, not S3 or web plumbing, and proves what they promise.

- **Permanent URIs** (`permanent_uris.dfy`, module `PermanentUris`) covers `generate_permanent_uris.py`:
  - the 21-character nanoid generator over the 64 base64url symbols (section 5 of RFC 4648);
  - the get-or-create of an id for an S3 key in the permanent URI map, which is an insertion-ordered `id -> key` dict that the script updates in place;
  - the filter that drops directory markers and `.DS_Store` files from a listing;
  - the loop that registers every listed file and counts the new mappings.

  The map is the class `PermanentUriMap`:
  - `ids` keeps the dict's insertion order;
  - `entries` is the dict itself.

  The random source behind `secrets.choice` is the class `RandomSource`:
  - it holds an injected stream of draws and a cursor;
  - every generated id is identified exactly: it is the first generated id not already taken (`FirstUntaken`).
- **Snapshot diff and breadcrumbs** (`spaces_browser.dfy`, module `SpacesBrowser`) covers `main.py`:
  - `diff_snapshots` classifies the keys of two bucket listings as added, deleted or modified;
  - `build_breadcrumbs` turns a browsed prefix into the breadcrumb trail. It collapses paths deeper than five parts.
- **Full URL map** (`full_url_map.dfy`, module `FullUrlMap`) covers `generate_full_url_map.py`. It projects `id -> key` onto `id -> {url, path}` under `https://mfcoapi.com/file/`.
- `wrappers.dfy` (module `Wrappers`) holds what the modules share: the `Option` type, the `Distinct` predicate for sequences without repeats, and the lemma `DistinctCard` (a sequence without repeats that lists a set has the set's size).

Every loop of the code is a `method` with a `for` or `while` loop. Each such method is proved against specification functions:
- `FirstIdFor` is the first id in dict order that maps to a key;
- `KeptKeys` is the filtered listing;
- `NewKeys` and `CountNew` describe what the registration loop adds and counts;
- `Classify` says what happened to a key between two snapshots;
- `Link` and `PathPrefix` give each crumb's link;
- `ProjectsTo` describes the full URL map.

Lemmas state the properties of those functions.

Python's iteration over a `set` or a `dict` picks an order. Where the order matters, the model keeps it:
- the URI map is iterated in insertion order (`ids`);
- the listing filter keeps the order of the listing.

Where the order does not matter, the loop picks the next element with `:|`, and the contract holds for every order:
- the three loops of `diff_snapshots`;
- the loop of `generate_full_url_map`.

The scripts implement no move detection, no pruning of deleted keys, no reverse key index, no atomic save and no self-healing lookup, and neither does the model.

The retry loop of `get_permanent_uri_for_key` ends only if the random source eventually produces an id that is not taken. The model makes this a precondition:
- `FreshAhead(draw, taken, start)`: some id generated from position `start` on is not in `taken`. `GenerateUnusedId` and the get-or-create require it for the current map.
- `Unconfined(draw, bound)`: `FreshAhead` holds from every position for every set of at most `bound` ids. The registration loop requires it for a bound of the map's size plus the number of listed files.

No source meets `Unconfined` for every bound, since there are only 64^21 nanoids. Every source meets it for bound 0 (`UnconfinedAtZero`). `BlockDraw` meets it for bound 63 (`BlockDrawUnconfined`), and `FirstIdOnBlockDraw` and `RegisterOnBlockDraw` prove what the get-or-create and the registration return on that source.

## Model

| member | source | states |
|---|---|---|
| `PermanentUris.AlphabetIsUrlSafe` | generate_permanent_uris.py:55 | `ascii_letters + digits + "-_"` has 64 symbols, all distinct, and a character is in it exactly when it is a base64url symbol |
| `PermanentUris.SpellInjective` | generate_permanent_uris.py:56 | distinct sequences of choices spell distinct ids (each symbol appears once in the alphabet) |
| `PermanentUris.RandomSource.Choice` | generate_permanent_uris.py:56 | one `secrets.choice` returns the alphabet symbol at the next draw and consumes one draw |
| `PermanentUris.RandomSource.GenerateNanoid` | generate_permanent_uris.py:53-56 | the id is exactly the symbols of the next `length` draws; its length is `length` and every character is URL-safe |
| `PermanentUris.RandomSource.GenerateUnusedId` | generate_permanent_uris.py:76-79 | the retry loop returns a 21-character URL-safe id not in the taken set, namely the first generated id that was not taken. It requires only that such an id lies ahead in the source, which is exactly when the loop ends |
| `PermanentUris.UnconfinedAtZero` | generate_permanent_uris.py:76-79 | with nothing taken, every source has a fresh id ahead |
| `PermanentUris.BlockDrawUnconfined` | generate_permanent_uris.py:76-79 | the source that moves one symbol on per 21 draws has, from any position, an id ahead outside any 63 taken ids |
| `PermanentUris.FirstUntakenAtOnce` | generate_permanent_uris.py:76-79 | when the first generated id is not taken, the loop returns it after 21 draws |
| `PermanentUris.FirstIdForIsFirstMatch` | generate_permanent_uris.py:71-73 | when position `i` is the first whose entry is the key, the scan returns `ids[i]` |
| `PermanentUris.FirstIdForNone` | generate_permanent_uris.py:71-73 | the scan returns nothing exactly when no position holds the key |
| `PermanentUris.FirstIdForSound` | generate_permanent_uris.py:71-73 | what the scan returns is an id of the map whose entry is the key |
| `PermanentUris.FirstIdForMissing` | generate_permanent_uris.py:71-76 | on a well-formed map the scan finds nothing exactly when the key is not a value of the map |
| `PermanentUris.FirstIdForInsert` | generate_permanent_uris.py:81 | appending a fresh id for a key changes the lookup of that key only when it had no id, and no other key's lookup |
| `PermanentUris.InsertKeepsOrdered` | generate_permanent_uris.py:81 | inserting a fresh id keeps the ordered list and the dict in step: ids distinct, each a key of the dict, every key listed |
| `PermanentUris.InsertKeepsIds` | generate_permanent_uris.py:81 | after the insert the new id is the key's id and every key that had an id keeps it |
| `PermanentUris.InsertKeepsOneIdPerKey` | generate_permanent_uris.py:81 | inserting an id for a key that was not a value keeps "no key has two ids" |
| `PermanentUris.InsertFresh` | generate_permanent_uris.py:81 | the insert keeps the map well formed, adds exactly one entry and adds the key to the values |
| `PermanentUris.FirstIdForAppend` | generate_permanent_uris.py:81 | appending entries after the existing ones never changes the id found for a key that already had one |
| `PermanentUris.FirstIdForExtends` | generate_permanent_uris.py:122-131 | a map grown by appending keeps every key's id |
| `PermanentUris.ExtendsTransitive` | generate_permanent_uris.py:125-131 | growth by appending composes across the turns of the registration loop |
| `PermanentUris.PermanentUriMap.FindIdFor` | generate_permanent_uris.py:71-73 | the loop over `uri_map.items()` returns the first id in dict order whose key is `s3_key`, and nothing exactly when `s3_key` is not a value |
| `PermanentUris.PermanentUriMap.GetPermanentUriForKey` | generate_permanent_uris.py:68-82 | for a key that is not a value, a generated id outside the map must lie ahead in the source. An existing mapping returns the first matching id and changes nothing. Otherwise the first generated id not already in the map is appended with the key and nothing else changes. Either way: `uri_map[result] == s3_key`; size grows by one exactly when the key was new; the values gain only the key; every key keeps its id; no key gets a second id |
| `PermanentUris.PermanentUriMap.MapToNewId` | generate_permanent_uris.py:75-82 | for a key that is not a value, the first generated id not already in the map is appended with the key: the map stays well formed, gains exactly that entry, keeps every other entry, position and lookup, and the new id is the key's id |
| `PermanentUris.PermanentUriMap.GetPermanentUriTwice` | generate_permanent_uris.py:68-82 | two calls for the same key return the same id, and the second call changes neither the map nor the random source: for a known key nothing changes at all, and for a new key the map gains exactly that id and the source ends where the first untaken id left it |
| `PermanentUris.FirstUntakenFixesEnd` | generate_permanent_uris.py:76-79 | the id the retry loop returns fixes how far it drew: two runs from one position that return the same untaken id end at the same position |
| `PermanentUris.FirstIdOnBlockDraw` | generate_permanent_uris.py:68-82 | on an empty map and a fresh `BlockDraw` source the get-or-create returns the id of 21 `a`s |
| `PermanentUris.Lower` | generate_permanent_uris.py:94 | `key.lower()` on ASCII: same length, no capital left, each capital becomes its small letter, every other character stays |
| `PermanentUris.EndsWithIsSuffix` | generate_permanent_uris.py:96-98 | `s.endswith(suffix)` holds exactly when `s` is some string followed by `suffix` |
| `PermanentUris.KeptKeys` | generate_permanent_uris.py:96-101 | the filter never returns more keys than it is given |
| `PermanentUris.KeptKeysOfSampleListing` | generate_permanent_uris.py:96-101 | of `a.csv`, `docs/`, `b.csv` and `docs/.DS_Store` the filter keeps `a.csv` and `b.csv` |
| `PermanentUris.KeptKeysMembers` | generate_permanent_uris.py:96-101 | a key is kept exactly when it was listed and it does not end in `/`, its lowercase form does not end in `/.ds_store`, and it is not `.ds_store` |
| `PermanentUris.KeptKeysAppend` | generate_permanent_uris.py:96-101 | filtering commutes with concatenation, so kept keys stay in listing order |
| `PermanentUris.KeptKeysDistinct` | generate_permanent_uris.py:96-101 | a listing without repeats filters to one without repeats |
| `PermanentUris.ListAllFilesInPrefix` | generate_permanent_uris.py:93-101 | the `continue`/`append` loop returns exactly the kept keys, in order |
| `PermanentUris.NewKeysMembers` | generate_permanent_uris.py:123-130 | the keys the loop registers are exactly the listed keys that were not values when the loop started |
| `PermanentUris.CountNewOfDistinct` | generate_permanent_uris.py:122-130 | over a listing without repeats the counter equals the number of new keys |
| `PermanentUris.CountNewAtLeastNewKeys` | generate_permanent_uris.py:122-130 | the counter never falls short of the number of new keys |
| `PermanentUris.NewKeys` | generate_permanent_uris.py:125-130 | the loop registers no more keys than it visits |
| `PermanentUris.NewMappingsIsGrowth` | generate_permanent_uris.py:122-131 | for a listing of distinct keys, the counter over the kept keys equals the number of new keys |
| `PermanentUris.RegisterKey` | generate_permanent_uris.py:128-130 | one call from the loop, on a map of at most `bound` entries and a source with a fresh id ahead of any `bound` ids, keeps the map well formed, appends at most one entry and adds only the key to the values |
| `PermanentUris.RegisterTurn` | generate_permanent_uris.py:125-130 | one turn registers the file when its key was not a value at the start, and adds to the counter exactly what `CountNew` adds for that position |
| `PermanentUris.RegisterAll` | generate_permanent_uris.py:122-131 | given a source with a fresh id ahead of any `bound` ids, where `bound` covers the map and every file: the loop only appends; the values become the old values plus the new keys; the size grows by the number of new keys; the counter counts the calls |
| `PermanentUris.GenerateUrisForRepository` | generate_permanent_uris.py:118-144 | after filtering and registering: every kept key is a value of the map, pre-existing entries, their order and every key's id are unchanged, only kept keys are added, and `new_mappings` counts the calls. For a listing without repeated keys, `new_mappings` is `final_count - initial_count` |
| `PermanentUris.RegisterOnBlockDraw` | generate_permanent_uris.py:118-131 | with `a.csv` already mapped, registering the listing `a.csv`, `docs/`, `b.csv`, `docs/.DS_Store` on a `BlockDraw` source counts one new mapping |
| `SpacesBrowser.RecordAll` | main.py:159-162 | an `added` or `deleted` loop appends one record per key of its set, with the action and `now`, no key twice |
| `SpacesBrowser.RecordModified` | main.py:163-165 | the third loop appends one `modified` record for each common key whose ETag or Size differs, and none for the others |
| `SpacesBrowser.DiffLayout` | main.py:153-166 | the three runs put together classify each record's key correctly, mention every changed key once, and come in added, deleted, modified order |
| `SpacesBrowser.DiffSnapshots` | main.py:150-166 | each record's action is the key's classification and its time is `now`. A key has a record exactly when it was added, deleted, or kept with a different ETag or Size; no key has two. Added come before deleted, and deleted before modified. The count is `\|added\| + \|deleted\| + \|modified\|`. Diffing a snapshot with itself gives no records |
| `SpacesBrowser.ClassifySwap` | main.py:155-157 | swapping the snapshots swaps added and deleted and keeps modified and unchanged |
| `SpacesBrowser.ChangedKeysSplit` | main.py:155-164 | the changed keys are exactly the union of the added, deleted and modified keys |
| `SpacesBrowser.ChangedKeysCount` | main.py:153-165 | `\|added\| + \|deleted\| + \|modified\|` is the number of changed keys |
| `SpacesBrowser.NoChangesAgainstItself` | main.py:155-165 | no key changes between a snapshot and itself |
| `SpacesBrowser.TrimLeft` | main.py:119 | removes exactly the leading slashes |
| `SpacesBrowser.TrimRight` | main.py:119 | removes exactly the trailing slashes |
| `SpacesBrowser.StripSlashes` | main.py:119 | `strip("/")` leaves no slash at either end |
| `SpacesBrowser.Split` | main.py:119 | `split("/")` returns at least one part and no part contains a slash |
| `SpacesBrowser.Join` | main.py:141-143 | `"/".join` of two or more parts contains a `/`, so in the collapsed branch the `if path_accum:` test always passes |
| `SpacesBrowser.JoinSplit` | main.py:119 | joining the parts with `/` gives the split string back |
| `SpacesBrowser.SplitJoin` | main.py:141 | splitting the join of slash-free parts gives the parts back |
| `SpacesBrowser.PathPrefixIsJoin` | main.py:141-143 | the path accumulated part by part is the parts joined by `/` plus a trailing `/`, which is why the collapsed branch may restart from a join |
| `SpacesBrowser.AppendLinks` | main.py:125-128 | one `for part in ...` loop appends, for each part, the crumb linking to `/browse/` plus every part up to it, each followed by `/` |
| `SpacesBrowser.BuildBreadcrumbs` | main.py:112-147 | the trail starts with `("Home", "/browse/")`, and an empty prefix gives only that. With at most five parts there is one crumb per part, in order, each linking to its path. With more, there are exactly Home, the first two parts, `("…", None)` and the last two parts, each linking to the same path as in the full trail |
| `SpacesBrowser.LinkEndsWithSlash` | main.py:121-128 | every crumb link ends in `/` |
| `SpacesBrowser.LastLinkIsWholePath` | main.py:141-146 | the last crumb links to `/browse/` plus all parts joined by `/` plus `/` |
| `FullUrlMap.IdOfUrl` | generate_full_url_map.py:20 | a URL has an id exactly when it starts with BASE_URL, and it is BASE_URL followed by that id |
| `FullUrlMap.GenerateFullUrlMap` | generate_full_url_map.py:35-42 | the output has the input's ids. Each id maps to url `BASE_URL + id` and to its input key as path. The sizes are equal |
| `FullUrlMap.UrlRoundTrip` | generate_full_url_map.py:38 | stripping BASE_URL from an id's URL gives the id back |
| `FullUrlMap.ProjectionUrlsAreDistinct` | generate_full_url_map.py:36-42 | every published URL leads back to its id, so distinct ids have distinct URLs |
| `FullUrlMap.ProjectionPathsRecoverMap` | generate_full_url_map.py:37-41 | the paths of the published map give back the permanent URI map |
| `FullUrlMap.ProjectionIsUnique` | generate_full_url_map.py:36-42 | the result does not depend on the iteration order |

## Left out

- Loading and saving the URI map, the snapshot, the changelog and the full URL map as JSON is left out. It is file I/O, and the writes are not atomic. The map enters the model as a `PermanentUriMap` built from its ordered ids and entries.
- S3 listing and pagination (`list_prefix`, the paginators in `list_all_files_in_prefix` and `bucket_monitor`) are left out. The listing enters the model as a sequence of keys, or as a snapshot map.
- `secrets.choice` is injected as a stream of draws in `RandomSource`. Collision probabilities are not modelled.
- `GenerateUnusedId` and the get-or-create require a fresh id ahead in the source (`FreshAhead`), and the registration loop requires `Unconfined` for a bound covering the map and the listing. Without such a premise the retry loop need not end. Whether a real source meets it is a matter of probability, which is not modelled.
- `DiffSnapshots` takes one timestamp `now` for all records. The code calls `datetime.utcnow()` per record, so their times may differ by microseconds.
- `ObjectMeta` keeps only ETag and Size, the two fields the diff compares. A snapshot entry lacking either field makes the code raise `KeyError`, and that case is not modelled.
- `Lower` folds only the ASCII letters. Python's `str.lower` also folds other scripts, which cannot turn a key into `.ds_store`.
- `GenerateFullUrlMap` returns a map, so the insertion order of the output dict is not modelled. The code inserts in the input's order.
- The logging, the progress messages and the examples printed at the end of `generate_full_url_map` are left out.
- The web routes, the templates, `sign_url`, `human_size`, `human_date`, `bucket_monitor` and `startup_event` in main.py are left out. They are web and scheduling plumbing.
- `test_signed_asset_proxy.py` is not part of this model. It is live HTTP checking against a deployed worker.
