# Local-disk image storage, modelled in Dafny

This project models the core of `StorageServiceImpl`, a Spring component of an
online-bidding backend. The component stores uploaded images in a directory on
local disk. It can list the directory, store an upload under a freshly
generated name, load a stored file by name, and delete one.

The model has three layers:

- `file_naming.dfy` (module `FileNaming`) holds the pure string work.
  - The blank-name guard `fileName == null || fileName.trim().isEmpty()`, built on a model of Java's `String.trim()`.
  - `String.lastIndexOf`.
  - The extension rule: `".png"` by default, otherwise the suffix from the last `'.'`.
  - The removal of hyphens from a UUID's text.
  - The stored name: 32 hex digits, then the extension.
- `directory.dfy` (module `Directory`) models the storage directory as a value.
  - The value `Dir` records whether the directory exists, plus a map from entry names to entries.
  - An entry is a regular file with its bytes, or a subdirectory.
  - `Lookup`, `Listing`, `StoreEffect` and `DeleteEffect` give the result and the new directory of each operation.
  - The lemmas here state what the service promises its callers.
- `storage_service.dfy` (module `StorageService`) holds the class `StorageServiceImpl`.
  - Its mutable fields `present` and `entries` are the directory.
  - Its methods `LoadAll`, `Store`, `Load` and `Delete` change or read those fields.
  - Each method is proved to have exactly the effect the matching `Directory` function specifies.
  - `UploadLifecycle` is a client of the class. It stores, loads, deletes and loads again.
- `wrappers.dfy` holds `Option` (Java `null`) and `Result` (an exception thrown to the caller).

Randomness and the file system appear as parameters:

- `uuid` is the text of `UUID.randomUUID()`, in the layout of section 4.4 of RFC 4122.
- `io` says how the write of `store` ends.
- `removed` is the answer of `File.delete()`.
- `listingFails` says whether `File.list()` returned null.

## Model

| member | source | states |
|---|---|---|
| FileNaming.TrimLeading | src/main/java/com/biddingsystem/service/StorageServiceImpl.java:108 | the first half of `trim()`: the result is a suffix of the name, every dropped character is at most U+0020, and the result is empty or starts with a character above U+0020 |
| FileNaming.TrimTrailing | src/main/java/com/biddingsystem/service/StorageServiceImpl.java:108 | the second half of `trim()`: the result is a prefix, every dropped character is at most U+0020, and the result is empty or ends with a character above U+0020 |
| FileNaming.BlankIffAllTrimmed | src/main/java/com/biddingsystem/service/StorageServiceImpl.java:108 | a name is blank exactly when it is null or all of its characters are at most U+0020; both directions are stated |
| FileNaming.LastIndexOf | src/main/java/com/biddingsystem/service/StorageServiceImpl.java:85 | the result is -1 exactly when the character is absent; otherwise the character is at the result and at no later index |
| FileNaming.Extension | src/main/java/com/biddingsystem/service/StorageServiceImpl.java:83-86 | the extension is never empty and always starts with '.' |
| FileNaming.ExtensionDefault | src/main/java/com/biddingsystem/service/StorageServiceImpl.java:83-86 | a null name, or a name with no '.', gives exactly ".png" |
| FileNaming.ExtensionIsDotSuffix | src/main/java/com/biddingsystem/service/StorageServiceImpl.java:84-85 | with a '.' in the name, the extension is a suffix of the name; it starts with '.' and has no other '.' |
| FileNaming.ExtensionIsLastDotSuffix | src/main/java/com/biddingsystem/service/StorageServiceImpl.java:84-85 | any suffix that starts with '.' and holds no other '.' is the extension; so the extension is the unique suffix from the last '.' |
| FileNaming.ExtensionOfDoubleSuffix | src/main/java/com/biddingsystem/service/StorageServiceImpl.java:84-85 | "a.tar.gz" gives ".gz" |
| FileNaming.ExtensionOfTrailingDot | src/main/java/com/biddingsystem/service/StorageServiceImpl.java:84-85 | "photo." gives "." |
| FileNaming.ExtensionOfLeadingDot | src/main/java/com/biddingsystem/service/StorageServiceImpl.java:84-85 | ".hidden" gives ".hidden" |
| FileNaming.ExtensionOfPlainName | src/main/java/com/biddingsystem/service/StorageServiceImpl.java:84-85 | "photo.jpg" gives ".jpg" |
| FileNaming.ExtensionExamplesDefault | src/main/java/com/biddingsystem/service/StorageServiceImpl.java:83-86 | "noext" and a null name both give ".png" |
| FileNaming.RemoveHyphens | src/main/java/com/biddingsystem/service/StorageServiceImpl.java:88 | `replaceAll("-", "")` leaves no '-' and never lengthens the text |
| FileNaming.UuidGroupsJoined | src/main/java/com/biddingsystem/service/StorageServiceImpl.java:88 | removing the hyphens of a UUID's text leaves its five hex groups, joined in order |
| FileNaming.UuidIdIsHex | src/main/java/com/biddingsystem/service/StorageServiceImpl.java:88 | a random UUID without hyphens is 32 lower-case hex digits; the version digit '4' is at index 12 and the variant digit (8, 9, a or b) at index 16 |
| FileNaming.StoredNameShape | src/main/java/com/biddingsystem/service/StorageServiceImpl.java:88 | the stored name has length 32 plus the extension's length, ends with the extension, and starts with 32 hex digits that include no '-' |
| FileNaming.StoredNameNotBlank | src/main/java/com/biddingsystem/service/StorageServiceImpl.java:88 | a generated name is never blank, so the guards of `load` and `delete` never turn it away |
| FileNaming.DistinctUuidsDistinctNames | src/main/java/com/biddingsystem/service/StorageServiceImpl.java:88 | distinct UUIDs give distinct stored names, whatever the two original names are |
| Directory.StoreRejectsEmpty | src/main/java/com/biddingsystem/service/StorageServiceImpl.java:76-77 | a null or empty upload fails with the argument error and leaves the directory unchanged |
| Directory.StoreSucceedsIff | src/main/java/com/biddingsystem/service/StorageServiceImpl.java:76-103 | `store` succeeds exactly when the upload is non-empty, the directory exists, the name is not a subdirectory and the write completes; the result is then the generated name: 32 hex digits followed by the extension |
| Directory.StoreThenLoad | src/main/java/com/biddingsystem/service/StorageServiceImpl.java:94-97 | after a successful `store`, `load` of the returned name gives exactly the uploaded bytes |
| Directory.StoreChangesOnlyItsName | src/main/java/com/biddingsystem/service/StorageServiceImpl.java:89-97 | `store` changes no name but the generated one; the listed names are the old ones, plus possibly that name; the directory stays well formed |
| Directory.StoreSuccessWrites | src/main/java/com/biddingsystem/service/StorageServiceImpl.java:88-97 | after a successful `store`, the returned name is the generated one, it holds the whole upload, and the rest of the map is as before |
| Directory.StoreFreshGrows | src/main/java/com/biddingsystem/service/StorageServiceImpl.java:94-97 | a successful `store` under a name not yet taken adds exactly one entry |
| Directory.TwoStoresKeepBoth | src/main/java/com/biddingsystem/service/StorageServiceImpl.java:88-97 | two successful stores with distinct UUIDs return distinct names; each name loads its own bytes, and both names are listed beside the old ones |
| Directory.LookupFindsOnlyFiles | src/main/java/com/biddingsystem/service/StorageServiceImpl.java:107-117 | `load` returns content exactly for a name that has a character above U+0020 and that names an existing regular file; the content is that file's |
| Directory.ListingIsAllEntries | src/main/java/com/biddingsystem/service/StorageServiceImpl.java:65-72 | `loadAll` lists a name exactly when it is a regular file or a subdirectory; a missing directory, or a failed `list()`, gives no names |
| Directory.DeleteNoOp | src/main/java/com/biddingsystem/service/StorageServiceImpl.java:121-135 | `delete` of a null or blank name, a missing name or a subdirectory changes nothing; neither does a failed removal |
| Directory.DeleteThenLoad | src/main/java/com/biddingsystem/service/StorageServiceImpl.java:126-129 | after a removal that succeeds, `load` of the name returns absent and `loadAll` no longer lists it; every other name loads as before |
| StorageService.StorageServiceImpl.constructor | src/main/java/com/biddingsystem/service/StorageServiceImpl.java:27-34 | the service holds the resolved storage path and the directory found there |
| StorageService.StorageServiceImpl.LoadAll | src/main/java/com/biddingsystem/service/StorageServiceImpl.java:65-72 | returns exactly the directory's entry names, subdirectories included; none when the directory is missing or `list()` fails |
| StorageService.StorageServiceImpl.Store | src/main/java/com/biddingsystem/service/StorageServiceImpl.java:75-104 | the result and the new directory are those of `StoreEffect`: an error for an empty upload; otherwise the upload is written under the generated name, overwriting any file there, and no other name changes; the directory stays well formed |
| StorageService.StorageServiceImpl.Load | src/main/java/com/biddingsystem/service/StorageServiceImpl.java:107-118 | returns `Lookup` of the directory, which is left unchanged |
| StorageService.StorageServiceImpl.Delete | src/main/java/com/biddingsystem/service/StorageServiceImpl.java:121-135 | the new directory is `DeleteEffect` of the old one: at most that one regular file is removed; no error reaches the caller |
| StorageService.UploadLifecycle | src/main/java/com/biddingsystem/service/StorageServiceImpl.java:75-135 | storing [1, 2, 3] as "a.txt" returns a 36-character name ending in ".txt"; loading it gives [1, 2, 3]; after deleting it, loading gives nothing |

## Left out

- `init` (lines 29-62) is not modelled. It resolves `Paths.get(BASEPATH).toAbsolutePath().normalize()`, creates the directory and probes writability. The constructor instead takes the resolved path, which stays opaque, and the directory found there. The write probe never makes `init` fail when `createNewFile` returns false, so the model follows the code and does not treat that as an initialization error.
- `getStorageInfo` (lines 138-147) is not modelled. It formats flags that the operating system reports.
- Console output through `System.out` and `System.err` is not modelled. It is diagnostics only.
- `UUID.randomUUID()` is a parameter, `uuid`, required to have the text layout of a version-4 UUID. The code does not check that a generated name is free, and neither does `Store`: it overwrites. Freshness appears only as a hypothesis of `StoreFreshGrows` and `TwoStoresKeepBoth`.
- `MultipartFile` streaming, `FileCopyUtils.copy` and `FileSystemResource` are foreign calls.
  - An upload is its bytes, or `None` for a null upload.
  - The outcome of the write is the parameter `io`.
  - A copy that breaks off leaves a file holding the bytes written so far.
  - `load` returns the file's bytes instead of a resource handle.
  - An exception thrown by `close()` after the `return` is not modelled.
- StorageService.StorageServiceImpl.LoadAll: returns a set, not the `List` of `File.list()`. The order of that list is unspecified, and it never repeats a name.
- Names are flat keys of the map. `new File(actualStoragePath, fileName)` with a name holding '/' or ".." reaches outside the directory, and the code does not sanitise it. The model does not capture that path traversal.
- Concurrent access to the directory is not modelled. Changes made to the directory by other processes are not modelled either.
- Strings are sequences of Unicode scalar values, while Java strings are UTF-16. A '.' is never part of a surrogate pair, so `lastIndexOf` and `substring` yield the same text.
