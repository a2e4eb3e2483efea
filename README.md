# Youdao dictionary lookup: a Dafny model

`youdao_dict.py` is a command-line tool. It looks an English word up in the
Collins section of the Youdao web dictionary and prints the headword, its
phonetic, and its numbered meanings, with examples when asked. Each parsed
record is kept in a local cache directory of `<word>.json` files so that a
later lookup can skip the network. This project models the logic in that
file that does not depend on the network or on HTML navigation:

- `records.dfy` (module `Records`): the dictionary record (`word`,
  `phonetic`, `meanings` with `category`, `text` and `examples`), and
  `Option` for Python's `None`.
- `pystr.dfy` (module `PyStr`): the Python built-ins the code relies on:
  `str.strip` with Python's whitespace set, `str.replace`, `"%d"`, and a
  two-component POSIX `os.path.join`.
- `cache.dfy` (module `Cache`): `add_to_cache` and `check_in_cache`. The
  class `DictCache` has a `dirExists` flag and a `files` map from word to
  blob. A blob either decodes to a record or is corrupt. The methods are
  specified by the value-level functions `Added` and `Checked`, and the
  lemmas beside them are stated on those functions.
- `printer.dfy` (module `Printer`): `print_red` as the expression `Red`,
  and `collins_pretty_print` as loops that append to an output string,
  specified by `Render`. The keyword highlighting (two `replace`
  calls) is proved equal to a single-pass reading, `Highlight`.
- `search.dfy` (module `Search`): the first-match search that both the
  argument loop (first deciding argument) and the meaning loop (first
  `<span>` child) perform.
- `args.dfy` (module `Args`): `process_args` as a loop over `argv`. It
  returns an `Action`: usage, install, uninstall, `--cd`, an abort on an
  empty first argument, or a lookup carrying the verbose and m5 flags.
- `concat.dfy` (module `Concat`): the loop inside `get_collins_dict` that
  builds a meaning's text. It works on abstract child nodes: a `<span>`, a
  `<b>` keyword, a text string, or any other tag.
- `define.dfy` (module `Define`): the top-level flow. It processes the
  arguments, checks the cache, and otherwise resolves the word and stores
  the result under its parsed headword. Then it prints. Fetching and
  parsing is an oracle, a function from word to `Option<Record>`.

Behaviours the code has and the model keeps:

- The cache never overwrites an entry, even a corrupt one.
- A record is cached under its parsed headword, not under the word the
  user typed. If the two differ, the next lookup of the typed word misses
  the cache again.
- A corrupt cache file is announced on standard output, then deleted, and
  the lookup counts as a miss.
- Under `-m5`, the loop returns before the sixth meaning. That return
  skips the final newline, so with more than five meanings the output
  lacks the trailing `"\n"`.
- `argv[0]` takes part in flag processing, as in the source.
- An empty `argv[1]` makes `sys.argv[1][0]` raise `IndexError` (the
  `Abort` action).
- A tag other than `<span>` or `<b>` after the category span gets
  `.strip()` called on it. It is a BeautifulSoup tag, not a string, so the
  call fails (the `Fault` outcome).

## Model

| member | source | states |
|---|---|---|
| `Cache.Added` | youdao_dict.py:178-207 | after `add_to_cache` the directory exists; the set of words grows by exactly the word; every existing entry keeps its blob; the word gets the record only if it had no file |
| `Cache.Checked` | youdao_dict.py:209-243 | `check_in_cache` finds a record exactly when the directory exists and the word's file decodes to it; it removes a file exactly when that file is corrupt, and then only that file; the directory flag is unchanged |
| `Cache.WordFile` | youdao_dict.py:191-198 | the cache file path ends with `<word>.json` and lies under the program's directory unless the word is itself an absolute path |
| `Cache.RemovalNotice` | youdao_dict.py:237 | the notice starts with `Invalid JSON object: remove ` and ends with `<word>.json` and the newline `print` adds |
| `Cache.DictCache.AddToCache` | youdao_dict.py:178-207 | the new directory flag and file map are exactly `Added` of the old ones (mkdir if needed; write only if no file exists) |
| `Cache.DictCache.CheckInCache` | youdao_dict.py:209-243 | the returned record, the new state and the printed removal notice are exactly those of `Checked` on the old state |
| `Cache.AddNeverOverwrites` | youdao_dict.py:197-201 | adding a word that already has a file leaves the store unchanged, whether or not that file decodes |
| `Cache.AddThenCheck` | youdao_dict.py:194-243 | round trip: after adding an absent word, the file map gains exactly that entry; looking it up returns the added record and changes nothing |
| `Cache.CheckMissLeavesStore` | youdao_dict.py:221-229 | a missing directory or a missing file is a miss that leaves the store unchanged and removes nothing |
| `Cache.CheckRepairsCorruption` | youdao_dict.py:231-240 | a file that fails to decode gives a miss, is reported as removed, and exactly that entry disappears |
| `Cache.CheckIdempotent` | youdao_dict.py:222-243 | looking the same word up twice: the second lookup returns the same result, changes nothing and removes nothing |
| `Printer.PrettyPrint` | youdao_dict.py:258-302 | the text written equals `Render(d, verbose, m5)` |
| `Printer.Render` | youdao_dict.py:258-302 | nothing is printed exactly when there is no record; the output ends with a newline unless the m5 early return cut it short |
| `Printer.WriteMeaning` | youdao_dict.py:281-298 | one loop pass writes the block of its meaning: `"%d. (%s) "`, the highlighted text, a newline, then the examples if verbose |
| `Printer.WriteExamples` | youdao_dict.py:291-298 | the inner loop writes `"    - " + text + "\n      " + translation + "\n"` for each example, in order |
| `Printer.MeaningLine` | youdao_dict.py:281-289 | the numbered line built with the two `replace` calls is the block's head line |
| `Printer.TwoReplacesHighlight` | youdao_dict.py:284-286 | replacing `<b>` then `</b>` equals replacing both in a single left-to-right pass; the replacements never interfere |
| `Printer.HighlightUntagged` | youdao_dict.py:284-286 | after highlighting, no `<b>` and no `</b>` starts anywhere in the text |
| `Printer.HighlightPlain` | youdao_dict.py:284-286 | a meaning text without `<` is printed unchanged |
| `Printer.HighlightSkipsPlainPrefix` | youdao_dict.py:284-286 | a front without `<` passes through highlighting untouched, whatever follows it |
| `Printer.Red` | youdao_dict.py:245-256 | `print_red` writes the red start code, the text, then the reset code |
| `Printer.RedIsHighlightedKeyword` | youdao_dict.py:245-256 | a headword with no `<` printed by `print_red` looks exactly like the same word marked `<b>…</b>` in a meaning text |
| `Printer.RenderStartsWithHeader` | youdao_dict.py:247-274 | nothing is printed for `None`; otherwise the output starts with red start code, headword, reset code, eight spaces, phonetic, newline |
| `Printer.BlocksSnoc` | youdao_dict.py:276-289 | printing one more meaning appends its block, numbered by its position plus one |
| `Printer.PrintedSnoc` | youdao_dict.py:277-289 | after each pass of the loop the output is the header followed by the blocks of the meanings seen so far |
| `Printer.BlocksPrefix` | youdao_dict.py:276-289 | the blocks of the first k meanings are a prefix of the blocks of all meanings |
| `Printer.BlockNumbering` | youdao_dict.py:276-282 | the meaning at index i is printed with number i + 1 directly after the blocks of the meanings before it |
| `Printer.M5Truncates` | youdao_dict.py:276-300 | the m5 output is a prefix of the full output; with more than five meanings it is the full output for the first five minus the final newline; with at most five it equals the full output |
| `Printer.VerboseWithoutExamplesIsPlain` | youdao_dict.py:291-298 | when no meaning has examples, the verbose flag changes nothing |
| `PyStr.Strip` | youdao_dict.py:141 | `str.strip()` leaves no whitespace at either end and leaves an already trimmed string alone |
| `PyStr.StripDropsOnlySpace` | youdao_dict.py:141 | `str.strip()` keeps a middle part of its input and drops only whitespace before and after it |
| `PyStr.StripEmptyIffBlank` | youdao_dict.py:141-143 | the stripped text is empty exactly when the input is all whitespace, so exactly then the child is skipped |
| `PyStr.ReplaceAllSkipsPrefix` | youdao_dict.py:285-286 | `str.replace` passes a prefix without the pattern's first character through unchanged |
| `PyStr.ReplaceAll` | youdao_dict.py:285-286 | `str.replace`: non-overlapping occurrences, found from left to right, each replaced |
| `PyStr.NatToString` | youdao_dict.py:281 | `"%d"` gives a non-empty string of decimal digits with no leading zero |
| `PyStr.ParseNatToString` | youdao_dict.py:281 | the printed counter reads back as the counter |
| `PyStr.PathJoin` | youdao_dict.py:191-198 | `os.path.join(a, b)` ends with `b`, and starts with `a` unless `b` is absolute |
| `Search.FirstIndex` | youdao_dict.py:381-399 | the index of the first element passing the test, with none before it; `None` exactly when no element passes (the first `-h`/`--help`/`--install`/`--uninstall`/`--cd` here, and the first span child for lines 128-132) |
| `Args.ProcessArgs` | youdao_dict.py:360-401 | usage for fewer than two arguments; abort on an empty `argv[1]`; usage when `argv[1]` starts with `-` and is not a control command; otherwise the first deciding argument wins, or a lookup of `argv[1]` with verbose set iff `-v`/`--verbose` occurs and m5 set iff `-m5` occurs |
| `Args.DispatchIsDeterministic` | youdao_dict.py:370-401 | the dispatch rules fix exactly one action for every command line |
| `Args.LookupWordIsPlain` | youdao_dict.py:374-401 | a word that reaches the lookup does not start with `-`, and no argument on the line is help or a control command |
| `Args.FirstDecidingArgumentWins` | youdao_dict.py:381-399 | the first deciding argument is the one chosen, whatever follows it |
| `Concat.ConcatMeaning` | youdao_dict.py:126-153 | the loop with `start_concat` and `meaning` returns exactly `MeaningText(contents)` |
| `Concat.MeaningText` | youdao_dict.py:126-153 | reference reading of the loop: without a span nothing is found, and a found meaning is never empty |
| `Concat.FaultIffOtherTagAfterSpan` | youdao_dict.py:137-141 | the loop raises exactly when some child after the first span is a tag other than span or `b` |
| `Concat.JoinedFailsIffOtherTag` | youdao_dict.py:137-141 | joining children fails exactly when one of them is a tag other than span or `b` |
| `Concat.JoinedAppend` | youdao_dict.py:134-146 | joining the children after the span distributes over concatenation of child lists; a failure anywhere makes the whole join fail |
| `Concat.Contribution` | youdao_dict.py:128-146 | a span child adds nothing; a child fails exactly when it is a tag other than span or `b` |
| `Concat.ContributionEndsWithOneSpace` | youdao_dict.py:141-146 | what a string or keyword child adds, when anything, is non-blank text followed by exactly one space |
| `Concat.JoinedSingle` | youdao_dict.py:128-146 | joining a single child gives exactly what that child contributes |
| `Concat.JoinedExtend` | youdao_dict.py:128-146 | joining one more child appends what that child contributes |
| `Concat.JoinedFaultAt` | youdao_dict.py:137-141 | a tag other than span or `b` after the first span makes the join fail |
| `Concat.SpanContributesNothing` | youdao_dict.py:129-132 | removing a span child anywhere does not change the joined text |
| `Concat.PrefixBeforeSpanIgnored` | youdao_dict.py:126-134 | children before the first span do not affect the result |
| `Concat.BoldPiece` | youdao_dict.py:137-141 | the stripped piece of a keyword child is exactly `<b>` + its text + `</b>`; stripping leaves it alone |
| `Concat.JoinedEndsWithOneSpace` | youdao_dict.py:141-146 | a non-empty joined text ends with exactly one space, preceded by a non-space character |
| `Concat.MeaningEndsWithOneSpace` | youdao_dict.py:148-153 | a meaning that is found is non-empty and ends with exactly one space after non-space text |
| `Define.Run` | youdao_dict.py:420-426 | the action satisfies the dispatch rules; an exiting action prints the usage text or the directory and leaves the cache alone; a lookup leaves the cache in `Serve`'s state and prints the removal notice if any, then `Render` of the served record |
| `Define.Serve` | youdao_dict.py:421-426 | the served record is the cache hit, or else the resolver's answer; a corrupt file is reported exactly when one was there; a record fetched after a miss leaves its headword in the cache; every entry the cache check left is kept, and the only entry that can be new is the fetched headword |
| `Define.ExitOutput` | youdao_dict.py:370-399 | of the output the model keeps, only usage (the `USAGE_STRING` text) and `--cd` (the directory) print, each ending in a newline; the install/uninstall messages are left out |
| `Define.CacheFirst` | youdao_dict.py:422-426 | a decodable cache entry is served as it is, whatever the resolver would say, and the store is unchanged |
| `Define.FailureNotCached` | youdao_dict.py:423-424 | when the cache misses and the resolver finds nothing, nothing is cached and nothing is printed for the record |
| `Define.StoredUnderHeadword` | youdao_dict.py:172-173 | a record fetched after a miss is stored under its parsed headword |
| `Define.FetchedHeadwordKept` | youdao_dict.py:173-201 | a fetched record whose headword already has a file is not stored: the existing file, even a corrupt one, is kept |
| `Define.SecondLookupHits` | youdao_dict.py:421-426 | when the headword equals the query, a successful lookup makes the next lookup of that word a cache hit that returns the same record and changes nothing |
| `Define.HeadwordMismatchMissesAgain` | youdao_dict.py:421-422 | when the headword differs from an uncached query, the query is still uncached afterwards, and its next lookup goes to the resolver |

## Left out

- `get_webpage` (an HTTP request) and `parse_webpage` (BeautifulSoup): they are part of the `resolve` oracle of `Define.Run`. When the HTTP status is not 200, the source passes `None` on to BeautifulSoup. That path is not modelled: the oracle just returns `None` or a record.
- The `find`/`find_all` navigation in `get_collins_dict` (lines 64-124 and 155-170) needs the HTML tree, which the model does not have. Only the meaning-text loop is modelled, on abstract child nodes. The rest is inside the oracle, and so are the record's examples.
- JSON encoding and decoding: a blob either decodes to the record that was written or is corrupt. A file that holds valid JSON of another shape is not modelled.
- File names: an entry is keyed by the word itself. Words containing `/`, names that collide on a case-insensitive file system, and I/O errors from `mkdir`, `open` or `unlink` are not modelled.
- `get_file_dir`: a constant `fileDir` of the cache object.
- `install` and `uninstall`: only the actions are modelled. Their file operations and messages are not.
- `sys.exit` and Python's traceback for the `Abort` action: an action value, with nothing printed to standard output.
- The `Fault` outcome of the meaning loop is a `TypeError` that ends the program inside `get_collins_dict`. The oracle of `Define.Run` returns only `None` or a record, so `Run` sees that crash as `None`: standard output and the cache come out the same, but the traceback and the exit status 1 are not modelled.
- `PyStr.ReplaceAll` requires a non-empty pattern. `str.replace` also accepts an empty one, but the source never passes one.
- Standard output is an output string; each `sys.stdout.write` and `print` appends to it.
