/** The storage service itself: an object holding the resolved storage path
    and, as mutable state, the storage directory it manages on disk. Every
    operation reads or changes that directory in place; its effect is the one
    the functions of module `Directory` specify. */
module StorageService {
  import opened Wrappers
  import opened FileNaming
  import opened Directory

  class StorageServiceImpl {
    /** The absolute, normalized storage path `init` resolves; opaque here. */
    const actualStoragePath: string
    /** Whether the storage directory exists on disk. */
    var present: bool
    /** The entries of the storage directory, by name. */
    var entries: map<string, Entry>

    /** The directory as a value. */
    function State(): Dir
      reads this
    {
      Dir(present, entries)
    }

    predicate Valid()
      reads this
    {
      WellFormed(State())
    }

    /** The service once `init` has resolved `actualStoragePath`, over the
        directory found there. */
    constructor (actualStoragePath: string, present: bool, entries: map<string, Entry>)
      requires WellFormed(Dir(present, entries))
      ensures Valid()
      ensures this.actualStoragePath == actualStoragePath && State() == Dir(present, entries)
    {
      this.actualStoragePath := actualStoragePath;
      this.present := present;
      this.entries := entries;
    }

    /** `loadAll()`: the names of all entries of the directory, regular files
        and subdirectories alike; none when the directory is missing or when
        listing it fails (`list()` returning null). */
    method LoadAll(listingFails: bool) returns (names: set<string>)
      requires Valid()
      ensures names == Listing(State(), listingFails)
      ensures !listingFails ==> names == entries.Keys
      ensures listingFails ==> names == {}
    {
      if !present {
        return {};
      }
      if listingFails {
        return {};
      }
      names := entries.Keys;
    }

    /** `store(file)`: rejects a null or empty upload; otherwise writes the
        upload under the name made of `uuid` without its hyphens and the
        extension of `originalName`, overwriting whatever regular file had that
        name, and returns the name. */
    method Store(upload: Upload, originalName: Option<string>, uuid: string, io: WriteOutcome)
      returns (result: Result<string, StoreError>)
      requires Valid() && IsUuidV4Text(uuid)
      modifies this
      ensures Valid()
      ensures (result, State()) == StoreEffect(old(State()), upload, originalName, uuid, io)
    {
      if upload.None? || |upload.value| == 0 {
        return Failure(EmptyUpload);
      }
      var ext := Extension(originalName);
      var fileName := RemoveHyphens(uuid) + ext;
      if !present || (fileName in entries && entries[fileName].Subdirectory?) {
        // FileOutputStream cannot open the file
        return Failure(WriteFailed);
      }
      match io {
        case OpenFailed =>
          return Failure(WriteFailed);
        case CopyFailed(written) =>
          var kept := if written < |upload.value| then written else |upload.value|;
          entries := entries[fileName := RegularFile(upload.value[..kept])];
          return Failure(WriteFailed);
        case Completed =>
          entries := entries[fileName := RegularFile(upload.value)];
          return Success(fileName);
      }
    }

    /** `load(fileName)`: the content of the named regular file, or `None`
        for a null or blank name, a missing name or a subdirectory. */
    method Load(fileName: Option<string>) returns (content: Option<seq<Byte>>)
      requires Valid()
      ensures content == Lookup(State(), fileName)
    {
      if fileName.None? || Trim(fileName.value) == "" {
        return None;
      }
      var name := fileName.value;
      if present && name in entries && entries[name].RegularFile? {
        return Some(entries[name].content);
      }
      return None;
    }

    /** `delete(fileName)`: removes the named regular file when `removed`
        (the answer of `File.delete()`) says so; a null or blank name, a
        missing name, a subdirectory or a failed removal change nothing, and
        the caller is told nothing either way. */
    method Delete(fileName: Option<string>, removed: bool)
      requires Valid()
      modifies this
      ensures Valid()
      ensures State() == DeleteEffect(old(State()), fileName, removed)
    {
      if fileName.None? || Trim(fileName.value) == "" {
        return;
      }
      var name := fileName.value;
      if present && name in entries && entries[name].RegularFile? {
        if removed {
          entries := entries - {name};
        }
      }
    }
  }

  /** The lifecycle of one upload: storing the bytes [1, 2, 3] of "a.txt" in an
      empty directory returns a name ending in ".txt"; loading that name gives
      the bytes back; after deleting it, loading gives nothing. */
  method UploadLifecycle(uuid: string) returns (name: string, loaded: Option<seq<Byte>>, afterDelete: Option<seq<Byte>>)
    requires IsUuidV4Text(uuid)
    ensures |name| == 36 && name[32..] == ".txt" && IsHexId(name[..32])
    ensures loaded == Some([1, 2, 3])
    ensures afterDelete == None
  {
    var service := new StorageServiceImpl("/srv/uploads/images", true, map[]);
    var bytes: seq<Byte> := [1, 2, 3];
    var stored := service.Store(Some(bytes), Some("a.txt"), uuid, Completed);
    StoreSucceedsIff(Dir(true, map[]), Some(bytes), Some("a.txt"), uuid, Completed);
    StoreThenLoad(Dir(true, map[]), Some(bytes), Some("a.txt"), uuid, Completed);
    assert Extension(Some("a.txt")) == ".txt" by {
      assert "a.txt"[2..] == "txt";
      ExtensionIsLastDotSuffix("a.txt", 1);
    }
    name := stored.value;
    loaded := service.Load(Some(name));
    service.Delete(Some(name), true);
    afterDelete := service.Load(Some(name));
    DeleteThenLoad(Dir(true, map[name := RegularFile(bytes)]), Some(name), None);
  }
}
