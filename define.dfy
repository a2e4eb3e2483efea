/** The top level of `youdao_dict.py`: process the arguments, then look
    the word up in the cache first and fall back to fetching and parsing
    the web page, and pretty-print what was found. The fetch and parse
    chain (`get_webpage`, `parse_webpage`, `get_collins_dict`) is the
    oracle `resolve`: a word to the record the Collins section yields, or
    `None`. */
module Define {
  import opened Records
  import opened Args
  import opened Printer
  import opened Cache

  /** `USAGE_STRING`. */
  const UsageString: string :=
    "\nYoudao Online Dictionary Parser\n===============================\n\n" +
    "Usage: python youdao_dict.py [word] [options]\n\n" +
    "-h/--help    Display this message\n" +
    "-v/--verbose Also show examples\n" +
    "-m5          Only Display the first 5 meaning of each word\n\n" +
    "--install    Install this as an utility, \"define\". May need sudo\n" +
    "--uninstall  Uninstall the \"define\" utility. May need sudo\n" +
    "--cd         Change to the directory of this file\n"

  /** The result of one lookup: the new cache, the record to print, and
      whether a corrupt cache file was removed on the way. */
  datatype Served = Served(store: Store, record: Option<Record>, removed: bool)

  /** Lines 421-426 with `get_collins_dict`'s own cache write (line 173):
      a cache hit is printed; otherwise the word is resolved, and a record
      found is stored under its parsed headword. */
  function Serve(s: Store, word: string, resolve: string -> Option<Record>): (sv: Served)
    ensures Consistent(s) ==> Consistent(sv.store)
    ensures sv.removed <==> s.dirExists && word in s.files && s.files[word].Corrupt?
    ensures Checked(s, word).found.Some? ==> sv.record == Checked(s, word).found
    ensures Checked(s, word).found.None? ==> sv.record == resolve(word)
    ensures sv.record.Some? ==> sv.store.dirExists
    ensures Checked(s, word).found.None? && sv.record.Some? ==>
      sv.record.value.word in sv.store.files
    ensures var c := Checked(s, word).store;
      (forall k :: k in c.files ==> k in sv.store.files && sv.store.files[k] == c.files[k]) &&
      (forall k :: k in sv.store.files && k !in c.files ==>
         Checked(s, word).found.None? && sv.record.Some? && k == sv.record.value.word)
  {
    var p := Checked(s, word);
    if p.found.Some? then Served(p.store, p.found, p.removed)
    else
      var fetched := resolve(word);
      Served(if fetched.Some? then Added(p.store, fetched.value.word, fetched.value) else p.store,
             fetched, p.removed)
  }

  /** A decodable cache entry is served as it is; the resolver plays no part. */
  lemma CacheFirst(s: Store, word: string, resolve: string -> Option<Record>)
    requires s.dirExists && word in s.files && s.files[word].Json?
    ensures Serve(s, word, resolve) == Served(s, Some(s.files[word].record), false)
  {
  }

  /** A word the resolver cannot find is not cached. */
  lemma FailureNotCached(s: Store, word: string, resolve: string -> Option<Record>)
    requires Checked(s, word).found.None? && resolve(word).None?
    ensures Serve(s, word, resolve).store == Checked(s, word).store
    ensures Serve(s, word, resolve).record.None?
  {
  }

  /** A record fetched for `word` is cached under its own headword, which
      may differ from `word`. */
  lemma StoredUnderHeadword(s: Store, word: string, resolve: string -> Option<Record>, r: Record)
    requires Consistent(s) && Checked(s, word).found.None? && resolve(word) == Some(r)
    requires r.word !in Checked(s, word).store.files
    ensures Serve(s, word, resolve).store.files == Checked(s, word).store.files[r.word := Json(r)]
  {
  }

  /** A fetched record whose headword already has a cache file is not
      stored: the existing file is kept, even a corrupt one. */
  lemma FetchedHeadwordKept(s: Store, word: string, resolve: string -> Option<Record>, r: Record)
    requires Consistent(s) && Checked(s, word).found.None? && resolve(word) == Some(r)
    requires r.word in Checked(s, word).store.files
    ensures Serve(s, word, resolve).store == Checked(s, word).store
  {
  }

  /** When the headword is the query, the second lookup is a cache hit: it
      prints the same record, needs no resolver, and changes nothing. */
  lemma SecondLookupHits(s: Store, word: string, resolve: string -> Option<Record>,
                         later: string -> Option<Record>)
    requires Consistent(s)
    requires resolve(word).Some? ==> resolve(word).value.word == word
    requires Serve(s, word, resolve).record.Some?
    ensures var first := Serve(s, word, resolve);
      Serve(first.store, word, later) == Served(first.store, first.record, false)
  {
    var p := Checked(s, word);
    if p.found.None? {
      assert word !in p.store.files;
    }
  }

  /** When the headword differs from the query (and the query was not
      cached), the query is still not cached afterwards, so the next lookup
      of it goes to the resolver again. */
  lemma HeadwordMismatchMissesAgain(s: Store, word: string, resolve: string -> Option<Record>,
                                    later: string -> Option<Record>)
    requires Consistent(s) && Checked(s, word).found.None?
    requires resolve(word).Some? && resolve(word).value.word != word
    ensures var first := Serve(s, word, resolve);
      word !in first.store.files && Serve(first.store, word, later).record == later(word)
  {
    assert word !in Checked(s, word).store.files;
  }

  /** What the program prints for an action that ends it before a lookup:
      `print(USAGE_STRING)` or `print(get_file_dir())`, each with the
      newline `print` adds, and nothing for the other actions. */
  function ExitOutput(act: Action, fileDir: string): (out: string)
    ensures out != "" <==> act.Usage? || act.ChangeDir?
    ensures out != "" ==> out[|out| - 1] == '\n'
    ensures act.Usage? ==> UsageString <= out
    ensures act.ChangeDir? ==> fileDir <= out
  {
    match act
    case Usage => UsageString + "\n"
    case ChangeDir => fileDir + "\n"
    case _ => ""
  }

  /** The whole program on one command line. */
  method Run(argv: seq<string>, cache: DictCache, resolve: string -> Option<Record>)
    returns (act: Action, out: string)
    requires cache.Valid()
    modifies cache
    ensures cache.Valid()
    ensures Dispatched(argv, act)
    ensures !act.Lookup? ==> cache.State() == old(cache.State()) && out == ExitOutput(act, cache.fileDir)
    ensures act.Lookup? ==>
      var sv := Serve(old(cache.State()), act.word, resolve);
      cache.State() == sv.store &&
      out == (if sv.removed then RemovalNotice(cache.fileDir, act.word) else "") +
             Render(sv.record, act.verbose, act.m5)
  {
    act := ProcessArgs(argv);
    if !act.Lookup? {
      out := ExitOutput(act, cache.fileDir);
      return;
    }
    var queryWord := argv[1];
    var d, notice := cache.CheckInCache(queryWord);
    var shown := d;
    if d.None? {
      shown := resolve(queryWord);
      if shown.Some? {
        cache.AddToCache(shown.value.word, shown.value);
      }
    }
    var text := PrettyPrint(shown, act.verbose, act.m5);
    out := notice + text;
  }
}
