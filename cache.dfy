/** `add_to_cache` and `check_in_cache`: a directory of `<word>.json`
    files next to the program. The directory is a flag and a map from word
    to the stored blob; a blob either decodes to a record or is corrupt. */
module Cache {
  import opened Records
  import opened PyStr

  /** `CACHE_DIRECTORY`. */
  const CacheDirectory: string := "cache"

  /** A cache file: JSON that `json.load` turns back into the record that
      `json.dump` wrote, or content that raises `ValueError`. */
  datatype Blob = Json(record: Record) | Corrupt

  /** The cache directory as a value: whether it exists, and its files. */
  datatype Store = Store(dirExists: bool, files: map<string, Blob>)

  /** There are no files in a directory that does not exist. */
  predicate Consistent(s: Store) {
    !s.dirExists ==> s.files == map[]
  }

  /** The store after `add_to_cache(word, d)`: the directory exists, and the
      entry is written only if there was none. */
  function Added(s: Store, word: string, d: Record): (r: Store)
    ensures Consistent(r) && r.dirExists
    ensures r.files.Keys == s.files.Keys + {word}
    ensures forall k :: k in s.files ==> r.files[k] == s.files[k]
    ensures word !in s.files ==> r.files[word] == Json(d)
  {
    Store(true, if word in s.files then s.files else s.files[word := Json(d)])
  }

  /** The outcome of `check_in_cache(word)`: the new store, the record
      found, and whether a corrupt file was removed. */
  datatype Probe = Probe(store: Store, found: Option<Record>, removed: bool)

  function Checked(s: Store, word: string): (p: Probe)
    ensures Consistent(s) ==> Consistent(p.store)
    ensures p.store.dirExists == s.dirExists
    ensures p.found.Some? ==> s.dirExists && word in s.files && s.files[word] == Json(p.found.value)
    ensures s.dirExists && word in s.files && s.files[word].Json? ==> p.found == Some(s.files[word].record)
    ensures p.removed <==> s.dirExists && word in s.files && s.files[word].Corrupt?
    ensures p.store.files == if p.removed then s.files - {word} else s.files
  {
    if !s.dirExists || word !in s.files then Probe(s, None, false)
    else match s.files[word]
      case Json(d) => Probe(s, Some(d), false)
      case Corrupt => Probe(Store(true, s.files - {word}), None, true)
  }

  /** The path `os.path.join(os.path.join(file_dir, "cache"), word + ".json")`:
      it ends with `<word>.json`, and it lies under `fileDir` unless the word
      itself is an absolute path. */
  function WordFile(fileDir: string, word: string): (r: string)
    ensures |word| + 5 <= |r| && r[|r| - |word| - 5..] == word + ".json"
    ensures (word == [] || word[0] != '/') ==> fileDir <= r
  {
    var dir := PathJoin(fileDir, CacheDirectory);
    var f := word + ".json";
    assert f[0] == (if word == [] then '.' else word[0]);
    var path := PathJoin(dir, f);
    assert (word == [] || word[0] != '/') ==> fileDir <= dir <= path;
    path
  }

  /** What `check_in_cache` prints before it removes a corrupt file: one
      line that names the file, ending in `<word>.json`. */
  function RemovalNotice(fileDir: string, word: string): (r: string)
    ensures "Invalid JSON object: remove " <= r
    ensures |word| + 6 <= |r| && r[|r| - |word| - 6..] == word + ".json\n"
  {
    var w := WordFile(fileDir, word);
    var start := "Invalid JSON object: remove ";
    SuffixBeforeEnd(start, w, "\n", |word| + 5);
    start + w + "\n"
  }

  /** `a + b + c` starts with `a`, and its last `n + |c|` elements are the
      last `n` of `b` followed by `c`. */
  lemma SuffixBeforeEnd<T>(a: seq<T>, b: seq<T>, c: seq<T>, n: nat)
    requires n <= |b|
    ensures a <= a + b + c
    ensures (a + b + c)[|a| + |b| - n..] == b[|b| - n..] + c
  {
  }

  /** Adding never overwrites an entry that is already there, whether it
      decodes or not. */
  lemma AddNeverOverwrites(s: Store, word: string, d: Record)
    requires Consistent(s) && word in s.files
    ensures Added(s, word, d) == s
  {
  }

  /** Round trip: after adding an absent word, looking it up finds exactly
      the record added and changes nothing, and no other entry changed. */
  lemma AddThenCheck(s: Store, word: string, d: Record)
    requires Consistent(s) && word !in s.files
    ensures Added(s, word, d).files == s.files[word := Json(d)]
    ensures Checked(Added(s, word, d), word) == Probe(Added(s, word, d), Some(d), false)
  {
  }

  /** A missing directory or a missing file is a miss that changes nothing. */
  lemma CheckMissLeavesStore(s: Store, word: string)
    requires !s.dirExists || word !in s.files
    ensures Checked(s, word) == Probe(s, None, false)
  {
  }

  /** A corrupt file is reported as a miss and exactly that file is removed. */
  lemma CheckRepairsCorruption(s: Store, word: string)
    requires s.dirExists && word in s.files && s.files[word].Corrupt?
    ensures Checked(s, word).found.None? && Checked(s, word).removed
    ensures Checked(s, word).store == Store(true, s.files - {word})
    ensures word !in Checked(s, word).store.files
  {
  }

  /** A second lookup of the same word changes nothing more and removes
      nothing more: the corruption repair happens once. */
  lemma CheckIdempotent(s: Store, word: string)
    ensures var p := Checked(s, word);
      Checked(p.store, word) == Probe(p.store, p.found, false)
  {
  }

  class DictCache {
    /** The directory of the program file, `get_file_dir()`. */
    const fileDir: string
    var dirExists: bool
    var files: map<string, Blob>

    function State(): Store
      reads this
    {
      Store(dirExists, files)
    }

    ghost predicate Valid()
      reads this
    {
      Consistent(State())
    }

    constructor (fileDir: string, dirExists: bool, files: map<string, Blob>)
      requires Consistent(Store(dirExists, files))
      ensures Valid()
      ensures this.fileDir == fileDir && State() == Store(dirExists, files)
    {
      this.fileDir := fileDir;
      this.dirExists := dirExists;
      this.files := files;
    }

    /** `add_to_cache(word, d)`: create the directory if needed, then write
        the file only if it does not exist yet. */
    method AddToCache(word: string, d: Record)
      requires Valid()
      modifies this
      ensures Valid()
      ensures State() == Added(old(State()), word, d)
    {
      if !dirExists {
        dirExists := true;
      }
      if word in files {
        return;
      }
      files := files[word := Json(d)];
    }

    /** `check_in_cache(word)`: a miss when the directory or the file is
        absent; a corrupt file is announced, removed, and a miss. */
    method CheckInCache(word: string) returns (d: Option<Record>, notice: string)
      requires Valid()
      modifies this
      ensures Valid()
      ensures State() == Checked(old(State()), word).store
      ensures d == Checked(old(State()), word).found
      ensures notice == if Checked(old(State()), word).removed then RemovalNotice(fileDir, word) else ""
    {
      if !dirExists {
        return None, "";
      }
      if word !in files {
        return None, "";
      }
      match files[word]
      case Json(r) =>
        return Some(r), "";
      case Corrupt =>
        notice := RemovalNotice(fileDir, word);
        files := files - {word};
        return None, notice;
    }
  }
}
