# Device inventory repository — a Dafny model

This project models the storage core of a device-inventory service. Two parts are covered.

The first is the in-memory device repository, `InMemoryDeviceRepository`. It keeps one dictionary from device id to device record and offers five operations:

- list: newest first, then one page of the result;
- get: look up one device by id;
- create: store a record under a new id;
- update: merge only the supplied fields into a record;
- delete: remove a record and report whether one was there.

The second is storage-mode selection. The `STORAGE_MODE` setting is normalised to a mode. On first use, that mode builds one repository, which is cached for the life of the process.

Modules:

- `Wrappers` (wrappers.dfy): `Option` and `Result`. They stand for Python's `None` results and for the raised `ValueError`.
- `Devices` (devices.dfy): the `Device` record and the create and update request bodies. `NewDevice` builds the record a create stores. `Merge` is the field-merge rule of an update.
- `Listing` (listing.dfy): the listing order and the page window. `SortNewestFirst` is a stable insertion sort on `createdAt`, newest first. It is proved to be a permutation of its input, ordered, and stable. `Page` is Python's slice `s[skip : skip + limit]`.
- `MemoryRepository` (memory_repository.dfy): the class `InMemoryDeviceRepository`.
  - The field `devices` is the dictionary `_devices`.
  - The field `order` is the dictionary's iteration order. It matters because Python's `sorted(..., reverse=True)` is stable: devices with the same `created_at` are listed in dictionary order.
  - A re-assigned key keeps its position, a new key goes last, and a deleted key leaves the order.
  - `Valid()` says that `order` lists every key exactly once and that every record is stored under its own id.
- `Factory` (factory.dfy): the normalisation and the cache.
  - Normalisation is Python's `str.strip` and `str.lower` over ASCII. Stripping removes tab through carriage return, 0x1C-0x1F and space, which is what `str.isspace` accepts in that range.
  - `StorageMode` gives the mode, and `SelectKind` maps a mode to a variant or an error.
  - The class `RepositoryFactory` holds the module-global `_repo` as an `Option<Repository>`. `GetRepository` is the lazy, cached selection.
- `Scenarios` (scenarios.dfy): clients that use only the contracts. They cover the create, update and delete round trips that the project's API checks perform, an update of an unknown device, the listing order, and the caching of the selected repository.

Nondeterminism is passed in as parameters:

- The new id that `uuid.uuid4()` would draw is an argument of `CreateDevice`.
- The instant that `datetime.now(timezone.utc)` would read is an `int` argument of `CreateDevice` and `UpdateDevice`.
- The environment lookup `os.environ.get("STORAGE_MODE")` is an `Option<string>` argument of `StorageMode` and `GetRepository`.

`CreateDevice` does not require the id to be fresh. With a reused id, the dictionary assignment overwrites the record and keeps its position, and the model does the same.

## Model

| member | source | states |
|---|---|---|
| `Devices.NewDevice` | backend/src/repositories/memory_repository.py:33-42 | a created record carries the given id, the submitted name and assignee, and equal creation and modification instants |
| `Devices.Merge` | backend/src/repositories/memory_repository.py:53-59 | a supplied name or assignee replaces the stored one and an absent one keeps it; id and creation instant are kept; the modification instant is the clock value, so it is not before creation when the clock is not |
| `Devices.MergeIdempotent` | backend/src/repositories/memory_repository.py:53-59 | repeating the same update at the same instant gives the same record |
| `Devices.MergeEmptyPatch` | backend/src/repositories/memory_repository.py:53-59 | an update with no field only refreshes the modification instant |
| `Devices.AssignmentIsSticky` | backend/src/repositories/memory_repository.py:56 | because an absent assignee means "keep", no update makes an assigned device unassigned |
| `Listing.SortNewestFirst` | backend/src/repositories/memory_repository.py:20-24 | the stable newest-first order of the stored records, of the same length as its input; its meaning is given by `SortPermutes`, `SortOrders` and `SortIsStable` |
| `Listing.SortPermutes` | backend/src/repositories/memory_repository.py:20-24 | the sorted listing holds exactly the stored records, as a multiset, and has the same length |
| `Listing.SortOrders` | backend/src/repositories/memory_repository.py:20-24 | the sorted listing is non-increasing in creation instant (newest first) |
| `Listing.SortIsStable` | backend/src/repositories/memory_repository.py:20-24 | records created at the same instant keep their relative dictionary order, as Python's stable reversed sort does |
| `Listing.Page` | backend/src/repositories/memory_repository.py:25 | the page has `min(limit, n - skip)` elements when `skip < n` and none otherwise, and element `i` of the page is element `skip + i` of the listing |
| `Listing.PageOfOrdered` | backend/src/repositories/memory_repository.py:25 | a page of an ordered listing is ordered and holds only listed records |
| `MemoryRepository.Values` | backend/src/repositories/memory_repository.py:21 | the dictionary's values in iteration order, one per key |
| `MemoryRepository.Remove` | backend/src/repositories/memory_repository.py:68 | the iteration order after `del` holds exactly the other keys |
| `MemoryRepository.RemoveKeepsDistinct` | backend/src/repositories/memory_repository.py:68 | deleting a key leaves every remaining key listed once |
| `MemoryRepository.IndexedSize` | backend/src/repositories/memory_repository.py:16 | the iteration order has as many keys as the dictionary has entries |
| `MemoryRepository.InMemoryDeviceRepository.constructor` | backend/src/repositories/memory_repository.py:15-16 | a new repository is empty |
| `MemoryRepository.InMemoryDeviceRepository.ListDevices` | backend/src/repositories/memory_repository.py:18-25 | the page is the window `[skip, skip + limit)` of the stable newest-first sort; it has at most `limit` and at most `max(0, size - skip)` devices; it is ordered newest first; every device in it is the record stored under its id; with `skip = 0` and a limit of at least the store size it holds every stored record; the store is not changed |
| `MemoryRepository.InMemoryDeviceRepository.GetDevice` | backend/src/repositories/memory_repository.py:27-29 | the stored record for a present id and `None` for an absent one, never a failure; a found record has the requested id; the store is not changed |
| `MemoryRepository.InMemoryDeviceRepository.CreateDevice` | backend/src/repositories/memory_repository.py:31-45 | returns the new record, stores it under its id and changes no other entry; a new id goes last in dictionary order; the store stays valid |
| `MemoryRepository.InMemoryDeviceRepository.UpdateDevice` | backend/src/repositories/memory_repository.py:47-62 | an absent id gives `None` and adds no entry (no upsert); a present id gives the merged record, stored under the same key with every other entry and the dictionary order unchanged |
| `MemoryRepository.InMemoryDeviceRepository.DeleteDevice` | backend/src/repositories/memory_repository.py:64-69 | returns whether the id was present, removes exactly that key and its place in the order, and leaves everything else unchanged |
| `Factory.LowerChar` | backend/src/repositories/factory.py:16 | lower-casing one ASCII character leaves no upper-case letter, changes nothing else, and keeps whitespace as whitespace |
| `Factory.Lower` | backend/src/repositories/factory.py:16 | ASCII `str.lower` character by character, same length |
| `Factory.StripStart` | backend/src/repositories/factory.py:16 | the result is the suffix left after dropping only leading whitespace, and it does not start with whitespace |
| `Factory.StripEnd` | backend/src/repositories/factory.py:16 | the result is the prefix left after dropping only trailing whitespace, and it does not end with whitespace |
| `Factory.Strip` | backend/src/repositories/factory.py:16 | the result neither starts nor ends with whitespace |
| `Factory.StripBlank` | backend/src/repositories/factory.py:16 | stripping on both sides leaves nothing exactly when every character is whitespace |
| `Factory.StorageMode` | backend/src/repositories/factory.py:16-17 | the mode is never empty |
| `Factory.Normalise` | backend/src/repositories/factory.py:16-17 | normalising a set value never gives an empty mode |
| `Factory.StorageModeIsGetThenNormalise` | backend/src/repositories/factory.py:16-17 | the mode is the setting, or `"cosmos"` when unset, stripped, lower-cased and replaced by `"cosmos"` when blank; an unset setting gives `"cosmos"` |
| `Factory.StorageModeSet` | backend/src/repositories/factory.py:16-17 | a blank setting gives `"cosmos"`; any other setting gives its stripped, lower-cased form |
| `Factory.StorageModeExample` | backend/src/repositories/factory.py:16 | `"  MEMORY "` gives `"memory"` |
| `Factory.LowerNormalises` | backend/src/repositories/factory.py:16 | lower-casing text without surrounding whitespace gives a normalised mode |
| `Factory.StorageModeNormalised` | backend/src/repositories/factory.py:16-17 | every mode is non-empty, has no surrounding whitespace and has no upper-case letter |
| `Factory.StripStartSkips` | backend/src/repositories/factory.py:16 | leading whitespace does not change what left-stripping keeps |
| `Factory.StripEndSkips` | backend/src/repositories/factory.py:16 | trailing whitespace does not change what right-stripping keeps |
| `Factory.StripSurrounded` | backend/src/repositories/factory.py:16 | stripping recovers text without surrounding whitespace from any whitespace put around it |
| `Factory.StripFixed` | backend/src/repositories/factory.py:16 | text without surrounding whitespace is left alone by stripping |
| `Factory.NormalisedIsFixed` | backend/src/repositories/factory.py:16-17 | a normalised value is its own mode |
| `Factory.StorageModeIdempotent` | backend/src/repositories/factory.py:16-17 | normalising an already normalised mode returns it unchanged |
| `Factory.SelectKind` | backend/src/repositories/factory.py:26-31 | `"memory"` selects the in-memory variant and only it; `"cosmos"` selects the document-store variant and only it; every other mode is the unsupported-mode error carrying that mode |
| `Factory.RepositoryFactory.constructor` | backend/src/repositories/factory.py:11 | the cache starts empty |
| `Factory.RepositoryFactory.GetRepository` | backend/src/repositories/factory.py:20-33 | with a repository cached, returns it and leaves the cache unchanged whatever the setting; with none cached, caches and returns the variant the normalised mode selects (a fresh, empty, valid in-memory store for `"memory"`), or fails with the unsupported-mode error and caches nothing |
| `Scenarios.CreateThenGet` | backend/src/repositories/memory_repository.py:27-45 | a created device reads back unchanged, with the submitted name and assignee and equal timestamps |
| `Scenarios.UpdateThenGet` | tests/test_device_management.py:233-253 | after an update supplying both fields, a read shows the new name and assignee with id and creation instant kept |
| `Scenarios.UpdateUnknown` | backend/src/repositories/memory_repository.py:47-51 | updating an unknown id reports absence and creates nothing |
| `Scenarios.DeleteTwice` | tests/test_device_management.py:255-270 | a delete removes the device so a read finds nothing, and a second delete of the same id reports false |
| `Scenarios.NewestListedFirst` | backend/src/repositories/memory_repository.py:18-25 | of two devices created one after the other, a one-element first page shows the later one |
| `Scenarios.CachedRepositoryWins` | backend/src/repositories/factory.py:24-33 | once the in-memory repository is cached, a later call with any setting, even an invalid one, returns that same instance |
| `Scenarios.FailureIsNotCached` | backend/src/repositories/factory.py:24-33 | an unsupported setting fails with the normalised mode and caches nothing, so a later call with the setting unset selects the document store |
| `Scenarios.SqlMode` | backend/src/repositories/factory.py:16 | `"SQL"` normalises to `"sql"` |

## Left out

- Concurrency: the repository methods are `async` but await nothing. Each operation is modelled as one atomic step, with no interleaving. The factory's first-use race is not modelled.
- Id generation and the clock are parameters. The model does not prove that `uuid.uuid4()` ids are unique. It does not prove that `datetime.now` never goes backwards. `Devices.Merge` guarantees creation is not after modification only when the supplied instant is not before the creation instant.
- `skip` and `limit` are `nat`. Python's slice with a negative bound counts from the end; that path is not modelled. `list_devices` declares the defaults `skip = 0, limit = 100`; its only caller passes both values, so the model takes both explicitly.
- Timestamps are integers. Time zones and the ISO 8601 text form used by the document store are not modelled.
- `Factory.StorageMode`: only ASCII is modelled. Python's `str.strip` also removes non-ASCII whitespace such as U+0085 and U+00A0, and `str.lower` also maps non-ASCII letters. Here every non-ASCII character is kept as it is.
- The document-store repository (backend/src/repositories/cosmos_repository.py) is not part of this model, beyond the `CosmosStore` tag that the factory can select. Its update uses the same field-merge rule as `Devices.Merge`. Its Azure Cosmos client library is not available.
- The abstract interface backend/src/repositories/base.py declares signatures only. The delegating functions in backend/src/repositories/__init__.py only forward each call to `get_repository()`. Neither is modelled.
- Request validation is not part of this model, for example that a name is non-empty; it is done by schema classes outside the repository. The model accepts any name.
- Records in the model are values. Python hands out the stored `DeviceResponse` object itself, which a caller could in principle mutate. That aliasing is not modelled.
