# Geo-lookup service: cache, lookup flow and database refresh

A Dafny model of the core of a small IP-geolocation web service. The
service answers "where is this IP address" from a local MaxMind database.
It keeps recent answers in a bounded least-recently-used cache. It can
replace its database file with a freshly downloaded archive.

Three parts are modelled:

- **The lookup cache** (`src/cache.rs`). `GeoCache` maps an IP address to
  the serialised lookup result. It delegates to the `lru` crate. Module
  `Lru` states that crate's contract on values: `LruCache` holds a positive
  capacity, the keys in recency order (least recently used first) and
  their values. `Get` and `Put` are the crate's `get` and `put`. Module
  `Cache` holds the `GeoCache` class. Its fields are updated in place by
  `Get` and `Insert`, and each method is proved equal to the value-level
  operation. Over any history of calls, the recency order is the order of
  the keys' last uses (`Lru.ReplayKeepsRecency`). So an eviction always
  removes the entry whose last use lies furthest back.
- **The lookup request** (`src/web.rs`). `HandleLookup` is
  `handle_lookup`. It parses the address and answers from the cache on a
  hit. On a miss it asks the locator, caches the encoded answer when
  encoding succeeds, and answers. Address parsing and JSON encoding and
  decoding are given as functions (`Serde`). The database reader is the
  function `GeoLocator.resolve`. `GeoLocator` keeps a ghost log of the
  lookups made, so the lemmas can say when the locator is not called.
  `LookupOutcome` states the same flow on a cache value, and the lemmas
  are about it. `IntoResponse` is `AppError::into_response`.
- **The database refresh** (`src/updater.rs`). `UpdateDatabase` is
  `update_database`. It runs over a `FileSystem` (files by path, existing
  directories, and paths where a write fails with an I/O error). The
  download, gzip decompression and tar parsing are given as their
  outcomes: `Download` and `Archive`. The checks run in the source's
  order:
  1. the HTTP status;
  2. the destination's parent directory;
  3. `create_dir_all`;
  4. the first-match scan for a `.mmdb` entry, extracted to
     `<dest>.<pid>.tmp`;
  5. on no match, removal of the temporary file and `DatabaseNotFound`;
  6. the rename onto the destination.

  `updater.rs` does not compile as written (`uset`, an unclosed
  parenthesis, `:` for `;`, `map_or_else(false, …)`, a missing closing
  brace). Its rename at lines 78-82 sits after the `return` inside
  `if !found_db`, where it cannot be reached. The model follows the evident
  intent: after a match, the temporary file is renamed onto the
  destination exactly once. `Update` states the refresh on a disk value,
  and the lemmas are about it.

Behaviour worth noting:
- Every locator failure becomes `Internal`, even when the address has no
  record. `NotFound` is declared and mapped to 404 but never produced
  (`LookupOutcome` ensures this).
- The refresh does not open the extracted database before renaming it.
- The service keeps no generation tags, swaps no in-memory handle and has
  no guard against two refreshes at once.

## Model

| member | source | states |
|---|---|---|
| Lru.Get | src/cache.rs:20-22 | the crate's `get`: a value is returned exactly when the key is stored, and it is the stored one; no value changes; a hit makes the key most recently used |
| Lru.Put | src/cache.rs:24-26 | the crate's `put`: the key then holds the new value and is most recently used; every other stored key was stored before with the same value; the capacity is kept |
| Lru.Empty | src/cache.rs:13-17 | a new cache of a positive capacity is valid and empty |
| Lru.SizeWithinCapacity | src/cache.rs:14-16 | a valid cache stores exactly as many entries as its recency order lists, never more than its capacity |
| Lru.GetKeepsValid | src/cache.rs:20-22 | `get` keeps the bound and the one-listing-per-key invariant, and the capacity |
| Lru.PutKeepsValid | src/cache.rs:24-26 | `put` keeps the bound and the one-listing-per-key invariant, and the capacity |
| Lru.GetHit | src/cache.rs:20-22 | a hit returns the stored value and changes no value; the key becomes most recently used and the other keys keep their relative order |
| Lru.GetMiss | src/cache.rs:20-22 | a miss returns `None` and leaves contents and recency order unchanged |
| Lru.GetAfterPut | src/cache.rs:20-26 | after `put(k, v)`, `get(k)` returns `Some(v)` |
| Lru.PutExisting | src/cache.rs:24-26 | putting a stored key overwrites its value, makes it most recently used and evicts nothing; the other keys keep their relative order |
| Lru.PutNewWithRoom | src/cache.rs:24-26 | putting a new key into a cache that is not full adds it as most recently used and evicts nothing |
| Lru.PutNewIntoFull | src/cache.rs:24-26 | putting a new key into a full cache evicts exactly the least recently used key; every other entry keeps its value; the size stays at capacity |
| Lru.ReplayKeepsRecency | src/cache.rs:20-26 | after any sequence of gets and puts on a new cache, the cache is valid and its recency order is the order of the keys' last uses |
| Lru.ReplayWithinCapacity | src/cache.rs:14-16 | after any sequence of gets and puts, the cache holds at most its capacity of entries |
| Lru.EvictsLeastRecentlyUsed | src/cache.rs:24-26 | when a new key arrives at a full cache after any history, the evicted entry is the one used least recently of all stored entries |
| Cache.GeoCache.constructor | src/cache.rs:13-18 | `GeoCache::new` needs a positive size (zero panics) and builds an empty cache of that capacity |
| Cache.GeoCache.Get | src/cache.rs:20-22 | returns the stored string exactly when the address is stored; the new state is `Lru.Get` of the old; values are unchanged |
| Cache.GeoCache.Insert | src/cache.rs:24-26 | the new state is `Lru.Put` of the old; the address then maps to the result and the size is within capacity |
| Web.IntoResponse | src/web.rs:63-81 | `Internal` gives 500 with the fixed text "Internal Server Error"; `BadRequest` gives 400 and `NotFound` 404, each with its own message |
| Web.InternalDetailHidden | src/web.rs:66-69 | two internal errors give the same response whatever their messages |
| Web.ClientErrorRecoverable | src/web.rs:70-77 | for 400 and 404 the response determines the error it came from |
| Web.GeoLocator.Lookup | src/geolocator.rs:24-40 | returns the database's answer for the address string and records the call |
| Web.LookupOutcome | src/web.rs:23-55 | a lookup passes the address to the locator at most once and never yields `NotFound` |
| Web.HandleLookup | src/web.rs:23-55 | the handler's answer, the cache afterwards and the locator calls made are those of `LookupOutcome`; the cache stays valid |
| Web.MalformedAddressRejected | src/web.rs:27-28 | an address that does not parse gives `BadRequest("Invalid Ip address format")` (status 400); cache and locator are not used |
| Web.HitSkipsLocator | src/web.rs:30-35 | on a hit the cached record is decoded and answered without calling the locator; no value changes and the address becomes most recently used; a string that does not decode gives `Internal` |
| Web.MissCachesAnswer | src/web.rs:39-54 | on a miss with a successful lookup that encodes, the encoding is put under the parsed address and the record is answered |
| Web.LocatorErrorNotCached | src/web.rs:39-43 | a failed lookup gives `Internal("Failed to lookup IP address")` (status 500) and leaves the cache unchanged |
| Web.UnencodableNotCached | src/web.rs:45-54 | when the record does not encode, nothing is cached and the record is still answered |
| Web.SecondLookupHits | src/web.rs:30-54 | when the first answer was cached and decoding inverts encoding, asking again gives the same answer from the cache, without the locator |
| Paths.Parent | src/updater.rs:50-51 | `Path::parent` is absent exactly for the empty path and the root; a parent is a strictly shorter prefix of the path |
| Paths.FileName | src/updater.rs:63-64 | the file name is the longest suffix of the path without a separator: it holds none, and a separator stands just before it unless it is the whole path |
| Paths.ParentJoinsFileName | src/updater.rs:50-51 | the path is its parent, a separator (none after the empty path or the root) and its file name, so the parent is the path without its last component |
| Paths.ExtensionAfterLastDot | src/updater.rs:64 | (the contract of `Paths.Extension`) `Path::extension` is absent exactly for `..` and for names with no dot after the first character; otherwise the name is a non-empty stem, a dot and the extension, which holds no dot |
| Paths.ExtensionMmdb | src/updater.rs:64 | a file name has extension `mmdb` exactly when it is `.mmdb` preceded by at least one character |
| Paths.IsMmdbIsExtensionTest | src/updater.rs:64 | (the contract of `Paths.IsMmdb`) the updater's entry test agrees with Rust's `extension() == Some("mmdb")` on the file name |
| Paths.DatabaseNames | src/updater.rs:64 | `GeoLite2-City.mmdb` passes the test; a hidden `.mmdb` and an upper-case `.MMDB` do not |
| Paths.Decimal | src/updater.rs:55 | the process id is written as a non-empty run of decimal digits that denotes it |
| Paths.TempPathNamesProcess | src/updater.rs:55 | (the contract of `Paths.TempPath`) the temporary file's name is the destination, a dot, digits and `.tmp`, and the digits read back as the process id |
| Paths.TempPathBesideDestination | src/updater.rs:55 | `<dest>.<pid>.tmp` is never the destination and has the destination's parent directory |
| Fs.Disk.CreateDirAll | src/updater.rs:53 | `create_dir_all` succeeds exactly when the directory exists (the empty path, the root or a recorded one) or may be written; an existing directory changes nothing; otherwise only that directory is added |
| Fs.Disk.WriteFile | src/updater.rs:67 | unpacking succeeds exactly when the target's directory exists and the target may be written; the target then holds the bytes and no other file or directory changes |
| Fs.Disk.RemoveFile | src/updater.rs:75 | removal succeeds exactly when the file exists and may be written; it is then gone and no other file changes |
| Fs.Disk.Rename | src/updater.rs:79 | renaming succeeds exactly when the source exists and may be written and the target may be created; the target then holds the source's bytes, the source is gone, and no other file changes |
| Fs.FileSystem.CreateDirAll | src/updater.rs:53 | the new state is `Disk.CreateDirAll` of the old, with no change on failure |
| Fs.FileSystem.WriteFile | src/updater.rs:67 | writes the entry's bytes as the file when its directory exists and it is writable; otherwise nothing changes |
| Fs.FileSystem.RemoveFile | src/updater.rs:75 | removes the file when it exists and may be written; otherwise nothing changes |
| Fs.FileSystem.Rename | src/updater.rs:79 | moves the file onto the target, replacing it, when both may be written; otherwise nothing changes |
| Updater.Scan | src/updater.rs:61-72 | the scan stops at the first `.mmdb` entry, or at the first unreadable entry with `Io` or `Tar`, and every entry before the stop is a readable non-database entry; it runs off the end only if all entries are such |
| Updater.ScanIgnoresLater | src/updater.rs:61-72 | entries after the stop are never examined: any continuation gives the same stop |
| Updater.Extract | src/updater.rs:61-82 | the steps after `create_dir_all` keep the directories, change no file but the temporary file and the destination, and succeed exactly when the archive holds a database entry before any unreadable one and both files may be written; the destination then holds that entry's bytes |
| Updater.Update | src/updater.rs:31-83 | a refresh never removes a directory; it succeeds only after a successful download; when the download fails or the destination has no parent directory, the disk is unchanged |
| Updater.UpdateDatabase | src/updater.rs:31-83 | the result and the filesystem afterwards are those of `Update` on the filesystem before |
| Updater.FailedDownloadChangesNothing | src/updater.rs:38-40 | a non-success status gives `DownloadFailed(status)` and changes nothing on disk |
| Updater.MissingParentChangesNothing | src/updater.rs:50-53 | a destination without parent gives `ParentDirMissing` before any directory creation or extraction |
| Updater.DestinationOnlyReplacedOnSuccess | src/updater.rs:55-82 | no file other than the temporary file and the destination changes; the destination changes only when the refresh succeeds |
| Updater.SuccessInstallsFirstDatabase | src/updater.rs:61-82 | the refresh succeeds exactly when every step can succeed (the parent directory exists or may be created); the destination then holds the first `.mmdb` entry's bytes and the temporary file is gone |
| Updater.NoDatabaseCleansUp | src/updater.rs:74-76 | with no `.mmdb` entry the result is `DatabaseNotFound`, the temporary file is removed and the destination is untouched |

## Left out

- Locking: the mutex around the cache, its poison recovery and all concurrent access. Calls are taken one at a time.
- The `lru` crate's constant-time linked structure. The recency order is a sequence, which models what the crate returns and evicts but not its cost.
- Textual IP parsing, serde JSON encoding and decoding, and the MaxMind reader. They are opaque functions; their error texts are strings.
- `GeoLocator::new`: opening the database file is not modelled.
- `GeoData`'s `f64` latitude and longitude stand as reals.
- The JSON body of an error response. It is represented by its `error` text.
- `create_router`, the health route and `src/main.rs`: routing, configuration and server start-up.
- Logging (`println!`, `eprintln!`).
- The network transfer, gzip decompression and tar parsing. They appear only as outcomes. `reqwest::Error`, `io::Error` and the tar error text carry no payload in `UpdateError`.
- I/O failures: they come only from the set of paths that may not be written. A failed extraction leaves no partial file.
- Paths.Parent and Paths.FileName: `.` components, repeated separators and a trailing separator are not handled.
- Fs.FileSystem.CreateDirAll: only the directory itself is recorded as created, not its missing ancestors.
- Web.GeoLocator.Lookup: its `queries` log is a ghost record used to state which calls happen. The service's locator keeps no such log.
