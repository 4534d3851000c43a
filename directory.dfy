/** The storage directory as a table from entry names to entries, and the
    effect of each operation of the storage service on it. The functions here
    specify the methods of `StorageService.StorageServiceImpl`; the lemmas state
    what the service promises its callers. */
module Directory {
  import opened Wrappers
  import opened FileNaming

  /** Bytes of a stored file. */
  type Byte = bv8

  /** An entry of the storage directory: a regular file with its content, or a
      subdirectory (which `list()` reports and `load`/`delete` refuse). */
  datatype Entry = RegularFile(content: seq<Byte>) | Subdirectory

  /** The storage directory as the service sees it: whether it exists, and its entries. */
  datatype Dir = Dir(present: bool, entries: map<string, Entry>)

  /** A directory that does not exist has no entries. */
  predicate WellFormed(d: Dir) {
    !d.present ==> d.entries == map[]
  }

  /** The uploaded file as `store` receives it; `None` is a null upload. */
  type Upload = Option<seq<Byte>>

  /** Why `store` fails: an empty or null upload (IllegalArgumentException),
      or a failed write (RuntimeException wrapping the I/O error). */
  datatype StoreError = EmptyUpload | WriteFailed

  /** How the file system answers the write of `store`: the whole content is
      written; the file cannot be opened for writing; or opening succeeds and
      the copy breaks off after `written` bytes. */
  datatype WriteOutcome = Completed | OpenFailed | CopyFailed(written: nat)

  /** `exists() && isFile()` on the entry `name` of the directory. */
  predicate IsRegularFile(d: Dir, name: string) {
    d.present && name in d.entries && d.entries[name].RegularFile?
  }

  /** What `load(name)` gives: the file's content, or `None` (Java null) for a
      null or blank name and for a name that is not a regular file. */
  function Lookup(d: Dir, name: Option<string>): Option<seq<Byte>> {
    if IsBlank(name) then None
    else if IsRegularFile(d, name.value) then Some(d.entries[name.value].content)
    else None
  }

  /** What `loadAll()` gives: every entry name, subdirectories included, or
      none when the directory does not exist or cannot be listed. */
  function Listing(d: Dir, listingFails: bool): set<string> {
    if !d.present || listingFails then {} else d.entries.Keys
  }

  /** The result and the new directory of `store(upload)` for an upload named
      `originalName`, with `uuid` the text of the random UUID and `io` the
      file system's answer to the write. Opening a name that is an existing
      subdirectory, or inside a directory that does not exist, fails. */
  function StoreEffect(d: Dir, upload: Upload, originalName: Option<string>, uuid: string, io: WriteOutcome)
    : (Result<string, StoreError>, Dir)
    requires IsUuidV4Text(uuid)
  {
    if upload.None? || |upload.value| == 0 then (Failure(EmptyUpload), d)
    else
      var name := StoredName(uuid, originalName);
      if !d.present || (name in d.entries && d.entries[name].Subdirectory?) || io.OpenFailed? then
        (Failure(WriteFailed), d)
      else if io.CopyFailed? then
        var kept := if io.written < |upload.value| then io.written else |upload.value|;
        (Failure(WriteFailed), d.(entries := d.entries[name := RegularFile(upload.value[..kept])]))
      else
        (Success(name), d.(entries := d.entries[name := RegularFile(upload.value)]))
  }

  /** The new directory after `delete(name)`, with `removed` the answer of
      `File.delete()`; only an existing regular file is ever removed. */
  function DeleteEffect(d: Dir, name: Option<string>, removed: bool): Dir {
    if !IsBlank(name) && IsRegularFile(d, name.value) && removed then
      d.(entries := d.entries - {name.value})
    else
      d
  }

  // ---------------------------------------------------------------------------
  // store
  // ---------------------------------------------------------------------------

  /** A null or empty upload fails with an argument error and changes nothing. */
  lemma StoreRejectsEmpty(d: Dir, upload: Upload, originalName: Option<string>, uuid: string, io: WriteOutcome)
    requires IsUuidV4Text(uuid)
    requires upload.None? || upload.value == []
    ensures StoreEffect(d, upload, originalName, uuid, io) == (Failure(EmptyUpload), d)
  {
  }

  /** `store` succeeds exactly when the upload is non-empty, the directory
      exists, the generated name is not a subdirectory and the write completes;
      it then returns the generated name: 32 hex digits, then the extension. */
  lemma StoreSucceedsIff(d: Dir, upload: Upload, originalName: Option<string>, uuid: string, io: WriteOutcome)
    requires IsUuidV4Text(uuid)
    ensures var (r, _) := StoreEffect(d, upload, originalName, uuid, io);
      var name := StoredName(uuid, originalName);
      r.Success? <==> (upload.Some? && upload.value != [] && d.present && io.Completed?
                       && !(name in d.entries && d.entries[name].Subdirectory?))
    ensures var (r, _) := StoreEffect(d, upload, originalName, uuid, io);
      r.Success? ==> var ext := Extension(originalName);
        r.value == StoredName(uuid, originalName) && |r.value| == 32 + |ext|
        && IsHexId(r.value[..32]) && r.value[32..] == ext
  {
    StoredNameShape(uuid, originalName);
  }

  /** After a successful `store`, loading the returned name gives back exactly
      the uploaded bytes. */
  lemma StoreThenLoad(d: Dir, upload: Upload, originalName: Option<string>, uuid: string, io: WriteOutcome)
    requires IsUuidV4Text(uuid)
    requires StoreEffect(d, upload, originalName, uuid, io).0.Success?
    ensures var (r, d') := StoreEffect(d, upload, originalName, uuid, io);
      Lookup(d', Some(r.value)) == upload
  {
  }

  /** `store` touches at most the generated name: every other name loads as
      before, the names listed afterwards are the old ones plus possibly the
      generated one, and the directory stays well formed. */
  lemma StoreChangesOnlyItsName(d: Dir, upload: Upload, originalName: Option<string>, uuid: string, io: WriteOutcome, other: Option<string>)
    requires IsUuidV4Text(uuid) && WellFormed(d)
    requires other != Some(StoredName(uuid, originalName))
    ensures var (_, d') := StoreEffect(d, upload, originalName, uuid, io);
      Lookup(d', other) == Lookup(d, other)
      && WellFormed(d') && d'.present == d.present
      && (d'.entries.Keys == d.entries.Keys || d'.entries.Keys == d.entries.Keys + {StoredName(uuid, originalName)})
  {
  }

  /** A successful `store` under a name not yet taken adds one entry. */
  lemma StoreFreshGrows(d: Dir, upload: Upload, originalName: Option<string>, uuid: string, io: WriteOutcome)
    requires IsUuidV4Text(uuid)
    requires StoredName(uuid, originalName) !in d.entries
    requires StoreEffect(d, upload, originalName, uuid, io).0.Success?
    ensures var (_, d') := StoreEffect(d, upload, originalName, uuid, io);
      |d'.entries| == |d.entries| + 1
  {
  }

  /** The state after a successful `store`: the generated name now holds
      the whole upload, and the directory is otherwise as before. */
  lemma StoreSuccessWrites(d: Dir, upload: Upload, originalName: Option<string>, uuid: string, io: WriteOutcome)
    requires IsUuidV4Text(uuid)
    requires StoreEffect(d, upload, originalName, uuid, io).0.Success?
    ensures var (r, d') := StoreEffect(d, upload, originalName, uuid, io);
      upload.Some? && r.value == StoredName(uuid, originalName) && d'.present
      && d'.entries == d.entries[r.value := RegularFile(upload.value)]
  {
  }

  /** A non-blank name of a regular file loads that file's content. */
  lemma LookupOfFile(d: Dir, name: string, content: seq<Byte>)
    requires d.present && !IsBlank(Some(name)) && name in d.entries && d.entries[name] == RegularFile(content)
    ensures Lookup(d, Some(name)) == Some(content)
  {
  }

  /** Two successful stores with distinct UUIDs return distinct names, both of
      which then load their own bytes and are listed beside the old names. */
  lemma TwoStoresKeepBoth(d: Dir, a: Upload, na: Option<string>, ua: string, b: Upload, nb: Option<string>, ub: string,
                          ra: Result<string, StoreError>, d1: Dir, rb: Result<string, StoreError>, d2: Dir)
    requires IsUuidV4Text(ua) && IsUuidV4Text(ub) && ua != ub
    requires (ra, d1) == StoreEffect(d, a, na, ua, Completed) && ra.Success?
    requires (rb, d2) == StoreEffect(d1, b, nb, ub, Completed) && rb.Success?
    ensures ra.value != rb.value
    ensures Lookup(d2, Some(ra.value)) == a && Lookup(d2, Some(rb.value)) == b
    ensures d2.entries.Keys == d.entries.Keys + {ra.value, rb.value}
  {
    DistinctUuidsDistinctNames(ua, na, ub, nb);
    StoreSuccessWrites(d, a, na, ua, Completed);
    StoreSuccessWrites(d1, b, nb, ub, Completed);
    StoredNameNotBlank(ua, na);
    StoredNameNotBlank(ub, nb);
    LookupOfFile(d2, ra.value, a.value);
    LookupOfFile(d2, rb.value, b.value);
  }

  // ---------------------------------------------------------------------------
  // load and loadAll
  // ---------------------------------------------------------------------------

  /** `load` returns content exactly for a non-blank name of a regular file,
      and then that file's content. */
  lemma LookupFindsOnlyFiles(d: Dir, name: Option<string>)
    ensures Lookup(d, name).Some? <==>
      name.Some? && (exists i :: 0 <= i < |name.value| && !IsTrimmed(name.value[i]))
      && name.value in d.entries && d.present && d.entries[name.value].RegularFile?
    ensures Lookup(d, name).Some? ==> Lookup(d, name).value == d.entries[name.value].content
  {
  }

  /** `loadAll` lists exactly the directory's entries, regular files and
      subdirectories alike (no filtering by type); a missing directory, or one
      whose listing fails, lists nothing. */
  lemma ListingIsAllEntries(d: Dir, name: string)
    requires WellFormed(d)
    ensures name in Listing(d, false) <==> IsRegularFile(d, name) || (name in d.entries && d.entries[name].Subdirectory?)
    ensures !d.present ==> Listing(d, false) == {}
    ensures Listing(d, true) == {}
  {
  }

  // ---------------------------------------------------------------------------
  // delete
  // ---------------------------------------------------------------------------

  /** `delete` of a null or blank name, of a missing name or of a
      subdirectory changes nothing, and neither does a removal that fails. */
  lemma DeleteNoOp(d: Dir, name: Option<string>, removed: bool)
    requires IsBlank(name) || !IsRegularFile(d, name.value) || !removed
    ensures DeleteEffect(d, name, removed) == d
  {
  }

  /** A `delete` that removes a file leaves every other name as it was, and a
      later `load` of that name returns absent and `loadAll` no longer lists it. */
  lemma DeleteThenLoad(d: Dir, name: Option<string>, other: Option<string>)
    requires WellFormed(d) && Lookup(d, name).Some?
    ensures var d' := DeleteEffect(d, name, true);
      Lookup(d', name) == None && name.value !in Listing(d', false)
      && Listing(d', false) == Listing(d, false) - {name.value}
      && (other != name ==> Lookup(d', other) == Lookup(d, other))
      && WellFormed(d')
  {
  }
}
