/** The cache behind `#load`, `#exists` and `#load_hash`: each file is opened for what is asked
    of it, and remembered with how much of it is known. */
module LoadFileCache {
  import opened Options

  type Path = string
  type Bytes = seq<nat>

  datatype FileError = NoError | Invalid | NotExists | Permission | Unlisted

  /** A fixed file system: opening a path gives the contents or fails. */
  datatype OpenResult = Opened(contents: Bytes) | Failed(error: FileError) {
    function Error(): FileError {
      match this
      case Opened(_) => NoError
      case Failed(error) => if error == NoError then Unlisted else error
    }
  }

  type FileSystem = Path -> OpenResult

  datatype Tier = Nothing | Exists | Contents {
    function Level(): nat { if Nothing? then 0 else if Exists? then 1 else 2 }
  }

  datatype Entry = Entry(tier: Tier, exists_: bool, fileError: FileError, data: Bytes, hashes: map<string, nat>)

  const NO_ENTRY := Entry(Nothing, false, NoError, [], map[])

  /** What opening and reading the file directly reports: whether it could be opened, and its contents. */
  function Readable(fs: FileSystem, path: Path): bool { fs(path).Opened? }

  ghost predicate EntryOk(fs: FileSystem, hash: (string, Bytes) -> Option<nat>, path: Path, e: Entry) {
    && e.tier != Nothing
    && e.fileError == fs(path).Error()
    && e.exists_ == Readable(fs, path)
    && e.data == (if e.tier == Contents && Readable(fs, path) then fs(path).contents else [])
    && forall kind | kind in e.hashes :: e.tier == Contents && Readable(fs, path) && hash(kind, fs(path).contents) == Some(e.hashes[kind])
  }

  /** Opening the file, and reading it when its contents are asked for. */
  method Open(fs: FileSystem, path: Path, tier: Tier, entry: Entry) returns (e: Entry)
    requires tier != Nothing && entry.data == []
    requires entry.exists_ ==> Readable(fs, path)
    ensures e.tier == tier && e.fileError == fs(path).Error() && e.exists_ == fs(path).Opened?
    ensures e.fileError == NoError <==> fs(path).Opened?
    ensures fs(path).Failed? && fs(path).error != NoError ==> e.fileError == fs(path).error
    ensures e.data == (if tier == Contents && Readable(fs, path) then fs(path).contents else [])
    ensures e.hashes == entry.hashes
  {
    e := entry.(tier := tier);
    var result := fs(path);
    e := e.(fileError := result.Error());
    if e.fileError == NoError {
      e := e.(exists_ := true);
      if tier == Contents && |result.contents| > 0 {
        e := e.(data := result.contents);
      }
    }
  }

  class Cache {
    var entries: map<Path, Entry>
    /** Every opening of a file, in order. */
    ghost var openings: seq<Path>

    ghost function TierOf(path: Path): nat
      reads this
    {
      TierIn(entries, path)
    }

    ghost predicate Valid(fs: FileSystem, hash: (string, Bytes) -> Option<nat>)
      reads this
    {
      && (forall path | path in entries :: EntryOk(fs, hash, path, entries[path]))
      && Bounded(openings, entries)
    }

    constructor ()
      ensures entries == map[] && openings == []
    {
      entries, openings := map[], [];
    }

    /** One request for a file at a tier, answered from the cache when it knows enough. */
    method Load(fs: FileSystem, ghost hash: (string, Bytes) -> Option<nat>, path: Path, tier: Tier) returns (ok: bool)
      requires Valid(fs, hash) && tier != Nothing
      modifies this
      ensures Valid(fs, hash)
      ensures ok == fs(path).Opened?
      ensures path in entries && entries == old(entries)[path := entries[path]]
      ensures entries[path].exists_ == Readable(fs, path)
      ensures tier == Contents && ok ==> entries[path].tier == Contents && entries[path].data == fs(path).contents
      ensures TierOf(path) == if tier.Level() > old(TierOf(path)) then tier.Level() else old(TierOf(path))
    {
      var entry := if path in entries then entries[path] else NO_ENTRY;
      if tier.Level() > entry.tier.Level() {
        entry := Open(fs, path, tier, entry);
        OpeningRaisesTier(openings, entries, path, entry);
        openings := openings + [path];
      } else {
        assert path in entries && entries[path := entry] == entries;
      }
      entries := entries[path := entry];
      ok := entry.fileError == NoError;
    }

    /** The hash of a file's contents, remembered by kind of hash. */
    method LoadHash(fs: FileSystem, hash: (string, Bytes) -> Option<nat>, path: Path, kind: string) returns (value: Option<nat>)
      requires Valid(fs, hash)
      modifies this
      ensures Valid(fs, hash)
      ensures value == if Readable(fs, path) then hash(kind, fs(path).contents) else None
    {
      var ok := Load(fs, hash, path, Contents);
      if !ok {
        return None;
      }
      var entry := entries[path];
      if kind in entry.hashes {
        return Some(entry.hashes[kind]);
      }
      value := hash(kind, entry.data);
      if value.Some? {
        entries := entries[path := entry.(hashes := entry.hashes[kind := value.value])];
      }
    }
  }

  ghost function Count(paths: seq<Path>, path: Path): nat {
    multiset(paths)[path]
  }

  function TierIn(entries: map<Path, Entry>, path: Path): nat {
    if path in entries then entries[path].tier.Level() else 0
  }

  /** No file has been opened more often than its tier was raised. */
  ghost predicate Bounded(openings: seq<Path>, entries: map<Path, Entry>) {
    forall path :: Count(openings, path) <= TierIn(entries, path)
  }

  lemma OpeningRaisesTier(openings: seq<Path>, entries: map<Path, Entry>, path: Path, e: Entry)
    requires Bounded(openings, entries) && e.tier.Level() > TierIn(entries, path)
    ensures Bounded(openings + [path], entries[path := e])
  {
    forall p ensures Count(openings + [path], p) <= TierIn(entries[path := e], p) {
      assert Count(openings, p) <= TierIn(entries, p);
    }
  }

  // ----- whole runs -----

  datatype Request = LoadFile(path: Path, tier: Tier) | HashFile(path: Path, kind: string)

  datatype Reply = Loaded(ok: bool, exists_: bool, data: Bytes) | Hashed(value: Option<nat>)

  /** What opening and reading the file afresh would answer. */
  function Direct(fs: FileSystem, hash: (string, Bytes) -> Option<nat>, request: Request): Reply {
    var readable := Readable(fs, request.path);
    match request
    case LoadFile(path, tier) => Loaded(readable, readable, if readable && tier == Contents then fs(path).contents else [])
    case HashFile(path, kind) => Hashed(if readable then hash(kind, fs(path).contents) else None)
  }

  /** Any sequence of requests is answered as by direct access, opening no file more than twice. */
  method Serve(fs: FileSystem, hash: (string, Bytes) -> Option<nat>, requests: seq<Request>)
    returns (replies: seq<Reply>, ghost openings: seq<Path>)
    requires forall i | 0 <= i < |requests| && requests[i].LoadFile? :: requests[i].tier != Nothing
    ensures |replies| == |requests|
    ensures forall i | 0 <= i < |requests| :: replies[i] == Direct(fs, hash, requests[i])
    ensures forall p :: Count(openings, p) <= 2
  {
    var cache := new Cache();
    replies := [];
    for n := 0 to |requests|
      invariant cache.Valid(fs, hash) && fresh(cache) && |replies| == n
      invariant forall i | 0 <= i < n :: replies[i] == Direct(fs, hash, requests[i])
    {
      var reply;
      match requests[n] {
        case LoadFile(path, tier) =>
          var ok := cache.Load(fs, hash, path, tier);
          var entry := cache.entries[path];
          reply := Loaded(ok, entry.exists_, if ok && tier == Contents then entry.data else []);
        case HashFile(path, kind) =>
          var value := cache.LoadHash(fs, hash, path, kind);
          reply := Hashed(value);
      }
      replies := replies + [reply];
    }
    openings := cache.openings;
    assert forall p :: Count(openings, p) <= cache.TierOf(p) <= 2;
  }
}
