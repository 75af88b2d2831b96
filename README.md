# Diff file headers and the log cache, modelled in Dafny

This project models two pieces of a Go code base and proves properties of them.

**The file-header logic of go-diff's unified-diff parser**
(`vendor/github.com/sourcegraph/go-diff/diff/parse.go`):
- the recogniser for the POSIX `diff -r` message `Only in DIR: NAME`, which splits at the first `": "`;
- the hand-off of that message. The extended-header reader stashes the line in `fileHeaderLine`. The file-header reader then turns it into the name `Join(DIR, NAME)` with an empty new name. The driver returns that file diff without collecting hunks;
- the classifier of a block of extended headers. It:
  - returns early for a block that does not start with `diff --git `;
  - picks the first matching case of the switch (new file, deleted file, rename, binary rename, binary);
  - takes file names from the `diff --git a/X b/Y` line, split at its first space;
- the "unquote when possible, otherwise verbatim" rule for names;
- the test that ends a hunk body;
- the text of the overflow error.

**The in-memory log cache of `pkg/log/log.go`.** It is a ring of `maxLines` strings. A byte budget `maxMem` is kept by evicting the oldest entries right after each write. The model also covers the verbosity gate and the prefix put in front of each message.

The project has three modules:
- `GoBytes` (`gobytes.dfy`) holds Go byte strings and the Go library functions the code calls on them: `HasPrefix`, `Index`, and `SplitN(s, " ", 2)`.
- `DiffParse` (`diff.dfy`) is the diff header logic. The pure parts are functions. The classifier's side effects are a method on a `FileDiff` class. The reader's stashed line is a field of `FileDiffReader`.
- `Log` (`log.dfy`) is the logger. The package variables become the fields of a `Logger` class, and the cache is an `array`.
  - `AfterWrite` is a function on sequences that specifies a write. The write methods are proved to produce exactly that new state.
  - The properties the source promises are lemmas about `AfterWrite`: the newest entry is kept, the budget holds, the oldest entries are evicted first, and the rendered output is bounded.
  - `Valid()` is the class invariant: `cacheMem` is the total length of the entries, and `cachePos` is a slot. Every public method keeps it, so both "log cache size underflow" panics are unreachable. Each is modelled as an `assert false` in its branch.

Some Go library calls and package functions are not modelled. They are function-typed parameters instead: `strconv.Unquote` (as `unquote`, returning `None` on error), `filepath.Join` (as `join`) and `linePrefix`. The current time is the `now` parameter, and the verbosity flag is a constructor argument.

## Model

| member | source | states |
|---|---|---|
| GoBytes.Index | vendor/github.com/sourcegraph/go-diff/diff/parse.go:90 | `bytes.Index`: the result is -1 or an occurrence of the separator, and no occurrence starts before it |
| GoBytes.IndexAfter | vendor/github.com/sourcegraph/go-diff/diff/parse.go:90 | In `a + sep + b`, where `a + sep` has no earlier occurrence, the first occurrence is at `len(a)` |
| GoBytes.SplitFirstSpace | vendor/github.com/sourcegraph/go-diff/diff/parse.go:69 | `strings.SplitN(s, " ", 2)` yields one part (the whole string, which has no space) or two parts that rejoin with a space into `s`, the first with no space |
| GoBytes.SplitFirstSpaceJoin | vendor/github.com/sourcegraph/go-diff/diff/parse.go:69 | Splitting `a + " " + b`, where `a` has no space, gives back exactly `[a, b]` |
| DiffParse.ParseOnlyInMessage | vendor/github.com/sourcegraph/go-diff/diff/parse.go:85-95 | The result is "not an Only-in message" exactly when the `Only in ` prefix is missing or the rest has no `": "`. Otherwise `"Only in " + source + ": " + filename` rebuilds the line, and `source` holds no `": "` |
| DiffParse.OnlyInRoundTrip | vendor/github.com/sourcegraph/go-diff/diff/parse.go:89-94 | Parsing the message built from any directory without `": "` and any name gives back that directory and name |
| DiffParse.Classify | vendor/github.com/sourcegraph/go-diff/diff/parse.go:41-68 | It takes the early return exactly when the block is non-empty and its first line lacks `diff --git `. A recognised case implies at least three lines and a `diff --git ` first line. It has no precondition, so the guards never index out of bounds |
| DiffParse.GuardOverlaps | vendor/github.com/sourcegraph/go-diff/diff/parse.go:46-68 | New-file and deleted-file guards exclude each other. Either rename guard excludes the other cases (the binary-rename guard leaves the plain rename case aside) |
| DiffParse.ClassifyCharacterization | vendor/github.com/sourcegraph/go-diff/diff/parse.go:46-68 | Each case is selected exactly when its own guard holds (for `diff --git ` blocks), except that the binary case also needs the new-file and deleted-file guards to fail. This is first-match-wins |
| DiffParse.NewFileBeatsBinary | vendor/github.com/sourcegraph/go-diff/diff/parse.go:46-68 | A concrete three-line new-file block whose third line is `Binary files ...` satisfies the binary guard, yet it is classified as a new file |
| DiffParse.DiffGitNames | vendor/github.com/sourcegraph/go-diff/diff/parse.go:69 | The names after `diff --git ` are one name (no space in it) or two names that rebuild the line around the first space |
| DiffParse.NamesSet | vendor/github.com/sourcegraph/go-diff/diff/parse.go:46-78 | Per case, the names the case assigns: new file sets the new name from `names[1]`; deleted file sets the orig name from `names[0]`; rename and binary set both. Every name goes through the unquote fallback. The code panics exactly when `names[1]` is needed but the line has no space |
| DiffParse.HandleEmpty | vendor/github.com/sourcegraph/go-diff/diff/parse.go:41-78 | It returns false and changes nothing on a block that is not a git header. Otherwise it assigns the fields that `NamesSet` gives, returns true in the binary case, and leaves the times and extended headers unchanged |
| DiffParse.EndsHunkBodyCases | vendor/github.com/sourcegraph/go-diff/diff/parse.go:83 | About `EndsHunkBody`, the model of the stop test: an empty line never ends a hunk body. A `--- ` line always does. A non-empty line that starts with a hunk-line prefix byte and is not `--- ` does not |
| DiffParse.OverflowInjective | vendor/github.com/sourcegraph/go-diff/diff/parse.go:34 | The error text `OverflowMessage` (`overflowed into next file: ` then the line) determines the line: two lines with the same message are equal |
| DiffParse.FileDiffReader.ReadExtendedHeaderLine | vendor/github.com/sourcegraph/go-diff/diff/parse.go:36-39 | An Only-in line stops the loop, leaves the gathered headers as they are (the line is not appended), and is stored in `fileHeaderLine`. Any other line leaves the field unchanged |
| DiffParse.FileDiffReader.ReadFileHeaders | vendor/github.com/sourcegraph/go-diff/diff/parse.go:18-32 | A stored Only-in line gives `Join(source, filename)`, an empty new name and no times. Otherwise each read name is unquoted when `unquote` succeeds and kept verbatim when it fails (`UnquoteOr`, lines 25-32), and the read times are kept |
| DiffParse.FileDiffReader.Read | vendor/github.com/sourcegraph/go-diff/diff/parse.go:7-11 | The FileDiff gets the names and times `ReadFileHeaders` gives, and hunks are collected exactly when the new name is non-empty. After a stored Only-in line the orig name is the joined path, the new name is empty, there are no times and no hunks are collected. Otherwise the names are the unquote fallback of the read names |
| DiffParse.OnlyInHandOff | vendor/github.com/sourcegraph/go-diff/diff/parse.go:18-21 | End to end, lines 36-38, 18-21 and 9-10: an Only-in line leaves the extended headers as they were and yields orig name `Join(source, filename)` with an empty new name and no hunks |
| Log.Logger.constructor | pkg/log/log.go:21-30 | The initial package state: caching off, no instance name, times prepended, verbosity from the flag |
| Log.Logger.EnableLogCaching | pkg/log/log.go:35-46 | Given caching not yet on and both limits at least 1, the cache afterwards holds exactly `maxLines` empty entries, with `cacheMaxMem = maxMem`, position 0 and total 0 |
| Log.Logger.CachedLogOutput | pkg/log/log.go:49-62 | The output is the non-empty entries from `cachePos` round the ring, each followed by a newline (`Render(Rotate(...))`). It is empty when caching is off, and it changes nothing |
| Log.Logger.SetName | pkg/log/log.go:65-67 | The instance name becomes `name` |
| Log.Logger.VMonotone | pkg/log/log.go:69-73 | `V(level)` holds for a level at most the verbosity, so a message that passes at some level passes at every lower one |
| Log.FormatMessage | pkg/log/log.go:91-100 | The line is `"[sev] "` (only for a non-empty severity), then `"name: "` (only for a non-empty instance name), then the message, in that order. Its length is exactly the sum of those parts |
| Log.Logger.WriteMessage | pkg/log/log.go:91-101 | Writes the line that `FormatMessage` builds. The cache follows `AfterWrite` for that line |
| Log.Logger.Logf | pkg/log/log.go:75-77 | A message with no severity, written at level `v` |
| Log.Logger.Errorf | pkg/log/log.go:79-81 | A level-0 `ERROR` message. With caching on it is always cached |
| Log.Logger.WriteRawMessage | pkg/log/log.go:103-134 | It keeps `Valid()`, so neither underflow panic can happen. With caching on and `v <= 1` the new state is exactly `AfterWrite` of the old one with `timeStr + msg`. Otherwise the cache is unchanged. The message is printed exactly when `V(v)` |
| Log.Logger.CacheEntry | pkg/log/log.go:105-127 | The cached branch of a write keeps `Valid()` and produces `AfterWrite` |
| Log.Logger.PlaceEntry | pkg/log/log.go:106-119 | The entry replaces the slot at `cachePos`, `cacheMem` stays the total length, and `cachePos` moves to the next slot, wrapping at the end |
| Log.Logger.EvictOldest | pkg/log/log.go:120-124 | The loop empties the `FirstFit` oldest slots from `cachePos` on, and `cacheMem` stays the total length |
| Log.Logger.EvictRound | pkg/log/log.go:121-123 | One round empties slot `(cachePos + i) % len` and takes its length off `cacheMem`, moving the loop state from `i` to `i + 1` cleared slots |
| Log.SlotMod | pkg/log/log.go:121 | The ring slot `d` places after `start` is `(start + d) % n` |
| Log.ClearedAt | pkg/log/log.go:120-123 | After `k` rounds, a slot is empty exactly when it lies fewer than `k` places after the start. Every other slot keeps its entry |
| Log.FirstFit | pkg/log/log.go:120 | The number of rounds the loop runs: it is below the ring length, and either all other slots are emptied or the total then fits the budget |
| Log.FirstFitMinimal | pkg/log/log.go:120 | No smaller round count brings the total within budget, because the loop stops at the first count that fits |
| Log.AfterWrite | pkg/log/log.go:105-124 | The state after a cached write keeps the ring length, gives a position inside the ring, and gives a `cacheMem` equal to the total length |
| Log.WriteKeepsNewest | pkg/log/log.go:114-124 | After a write, `cachePos` is `(pos + 1) % len`, and the new entry is still at `pos`, the slot just before it: the newest entry is never evicted |
| Log.WriteFitsBudget | pkg/log/log.go:120-124 | After a write, either `cacheMem <= cacheMaxMem` or every entry other than the newest is empty |
| Log.WriteEvictsOldestFirst | pkg/log/log.go:120-123 | Eviction empties a contiguous run of slots starting at the new `cachePos`, oldest first. Every other slot keeps what was written. Every shorter run leaves the total over budget |
| Log.OutputEndsWithNewest | pkg/log/log.go:49-61 | After writing a non-empty entry, the cached output ends with that entry and a newline |
| Log.OutputBounded | pkg/log/log.go:32-34 | After a write, the cached output is at most `maxMem` bytes (or the newest entry alone, if it is larger) plus one newline per slot |

## Left out

- The line reader, `io.EOF` and stream-error handling around the modelled parser lines (parse.go:13): the lines arrive as values. The loop of `ReadExtendedHeaders` is modelled only for the step that meets a line (`ReadExtendedHeaderLine`).
- Timestamp parsing (parse.go:14-15) and `readOneFileHeader` are not part of this model. The read `--- `/`+++ ` headers are the `RawHeader` inputs.
- Hunk parsing after the file headers is not modelled. `Read` reports only whether hunks would be collected.
- `strconv.Unquote`, `filepath.Join` and `linePrefix` are parameters, not reimplemented. Go's escape rules and path cleaning are not modelled.
- DiffParse.HandleEmpty: the model leaves the names assigned by the binary-rename case (parse.go:67) unconstrained; its body is not part of this model.
- DiffParse.HandleEmpty: the model states the result `wasEmpty` only for the early return (false) and the binary case (true); the returns of the other cases are not part of this model.
- DiffParse.NamesSet: in the new-file and deleted-file cases the model constrains only the name at parse.go:46-51 and 52-57; the other name is left unconstrained.
- The model takes `names` in the cases at parse.go:46, 52 and 58 to be the split of the `diff --git ` line at parse.go:69.
- `ErrBadOnlyInMessage` (parse.go:80-82) is declared but the code that raises it is not part of this model.
- `sync.Mutex` only serialises concurrent callers. The logger is a sequential class.
- `time.Now().Format(...)` is the `now` parameter.
- `golog.Print` is the `printed` result.
- Log.Logger.EnableLogCaching: the repeated-enable `Fatalf` and the invalid-limits panic are preconditions, not modelled exits.
- `Fatal` and `Fatalf` exit the process and are left out.
- `fmt.Sprintf`-style formatting is left out. The formatted message is an opaque byte string.
- The `-vv` flag parsing and `VerboseWriter` are left out. The verbosity is a constructor argument.
- Log.Logger.WriteRawMessage: integers are unbounded, so a Go `int` overflow of `cacheMem` is not modelled. It would need a total length above 2^63.
