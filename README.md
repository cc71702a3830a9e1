# yappla search core in Dafny

This project models the filter-and-project engine of the yappla launcher:

- **`IndexList`** (`index_list.dfy`) is the list model the UI reads. It holds the
  position → original-index mapping and a pool of reusable `Index` wrapper objects.
  `SetIndices` replaces the mapping wholesale and emits one `items_changed` signal.
  `Item` hands out a wrapper for a position. It pops one from the pool and overwrites
  its index, or it makes a fresh one. A ghost set of handed-out wrappers shows that no
  wrapper is ever given out twice.
- **`Ranking`** (`ranking.dfy`) is the scoring and ordering of the applications mode,
  written as pure functions:
  - The branch depends on the query's length in UTF-8 bytes. Up to 3 bytes, the score is
    Jaro–Winkler. Otherwise it is normalized Levenshtein, plus 0.5 when the key contains
    the query.
  - Scores ≤ 0.3 are dropped.
  - The survivors are ordered by a stable sort on descending score.
  - The similarity metrics and `to_lowercase` are library code. They are fields of a
    `Metrics` value, so every result holds for any such functions.
- **`Apps`** (`apps_mode.dfy`) is the `AppsMode` class. It has the store, the lowercased
  names, the reused score buffer and the projection. `Search` fills the buffer in a loop
  and is proved to install exactly `Ranking.Rank`. This module also removes the 13
  Desktop Entry field codes from `exec` before launch, using `str::replace` semantics.
- **`Echo`** (`echo_mode.dfy`) is the echo mode: an identity projection over its lines,
  and lookup by original index.
- **`MenuItemModels`** and **`LauncherItems`** (`menu_item_model.dfy`,
  `launcher_item.dfy`) are the closed item enums:
  - `name` / `run_action` / `launch` dispatch, with `None` excluded by a precondition
    (it panics).
  - The `Default` and `Into` constructors.
  - The `ActionError` display format, with a parser that reads it back.
- **`Base`** (`base.dfy`) holds `Option`, `Result`, the OS's answer to a spawn
  request, and the `u32` helpers shared by the list model and the ranking.

Rust `u32` is the subset type `Base.U32`. Each `as u32` cast is written out as `Wrap`
(low 32 bits). The ranking lemmas assume at most 2^32 candidates.

The mapping is installed by `set_indecies`. Its signal is `items_changed(0, 0, new_len)`,
which reports zero removed rows whatever the old length was. The model keeps this as
written. `IndexList.SetIndicesSignalTracksLength` shows the effect: a listener that
tracks the length from the signals ends at the new length only when the old mapping
was empty.

## Model

| member | source | states |
|---|---|---|
| Base.Wrap | src/index_list.rs:67 | the `as u32` cast never grows a value and is exact below 2^32 |
| Base.Identity | src/modes/apps_mode.rs:163-166 | `(0..n).map(i as u32)` has length n and holds the cast index at each position |
| IndexList.Index.constructor | src/index_list.rs:37-41 | `Index::new(i)` carries index i |
| IndexList.ListModel.constructor | src/index_list.rs:46-50 | a new list model has an empty mapping, an empty pool and no signals |
| IndexList.ListModel.NItems | src/index_list.rs:66-68 | `n_items` is at most the mapping's length and equals it below 2^32 |
| IndexList.ListModel.Item | src/index_list.rs:70-86 | None exactly when position ≥ length, with the pool untouched. Otherwise: the last pooled wrapper (pool shrinks by one) or a fresh one (pool stays empty), carrying `items[position]`. The wrapper was never handed out before, the mapping is unchanged, and other pooled wrappers keep their index |
| IndexList.ListModel.SetIndices | src/index_list.rs:99-105 | the mapping becomes the argument, the pool is unchanged, and exactly one signal `(0, 0, len)` is appended |
| IndexList.SetIndicesSignalTracksLength | src/index_list.rs:102-104 | the emitted signal moves a listener's length to old + new, which equals the new length iff the old length was 0 |
| IndexList.TwoRowsNeverAlias | src/index_list.rs:79-85 | two wrappers taken in a row are distinct objects, and each carries its own position's index |
| Ranking.CharUtf8Len | src/modes/apps_mode.rs:132 | one scalar value takes 1 to 4 UTF-8 bytes, and ASCII takes 1 |
| Ranking.Utf8Len | src/modes/apps_mode.rs:132 | a string's byte length lies between its character count and four times it, and equals the character count for ASCII |
| Ranking.Contains | src/modes/apps_mode.rs:144-145 | a key can contain only a query no longer than itself, and every key contains the empty query |
| Ranking.ContainsIffOccurs | src/modes/apps_mode.rs:144-145 | `contains` holds iff the query occurs at some offset of the key |
| Ranking.Score | src/modes/apps_mode.rs:140-148 | ≤ 3 bytes: the Jaro–Winkler score. Otherwise: the Levenshtein score, or that plus 0.5 |
| Ranking.ScoreBranches | src/modes/apps_mode.rs:140-148 | ≤ 3 bytes: Jaro–Winkler only. Otherwise: Levenshtein plus 0.5 iff the key contains the query, and plus nothing iff it does not |
| Ranking.ScoreBranchBoundary | src/modes/apps_mode.rs:131-141 | "fir" takes the short branch. "fire", and the two-character four-byte "éé", take the long branch |
| Ranking.Scored | src/modes/apps_mode.rs:134-151 | the buffer has no more entries than there are candidates, and each entry has an in-range index and a score above 0.3 |
| Ranking.ScoredStep | src/modes/apps_mode.rs:134-151 | the buffer for n+1 candidates is the buffer for n, plus the last candidate exactly when it scores above 0.3 |
| Ranking.ScoredSound | src/modes/apps_mode.rs:134-151 | every buffer entry has an in-range index, carries that candidate's score, and scores above 0.3 |
| Ranking.ScoredIncreasing | src/modes/apps_mode.rs:137-149 | buffer entries come in strictly increasing original-index order |
| Ranking.ScoredComplete | src/modes/apps_mode.rs:151 | every candidate scoring above 0.3 has a buffer entry |
| Ranking.Column | src/modes/apps_mode.rs:159 | the projection has one index per buffer entry, the entry's index, in the same order |
| Ranking.Insert | src/modes/apps_mode.rs:156 | insertion lengthens the buffer by one and the result holds the inserted entry |
| Ranking.SortByScore | src/modes/apps_mode.rs:156 | the sort keeps the buffer's length |
| Ranking.InsertPermutes | src/modes/apps_mode.rs:156 | insertion adds exactly one element |
| Ranking.SortPermutes | src/modes/apps_mode.rs:156 | the sort is a permutation of the buffer |
| Ranking.InsertRanked | src/modes/apps_mode.rs:156 | inserting an element that precedes all others in original order keeps the ranking order |
| Ranking.SortRanked | src/modes/apps_mode.rs:154-156 | sorting a buffer filled in index order gives descending scores, with ties in ascending index order |
| Ranking.SortedBufferFacts | src/modes/apps_mode.rs:153-156 | the sorted buffer is ranked, sound and complete |
| Ranking.Rank | src/modes/apps_mode.rs:125-159 | the projection has no more rows than there are candidates, and for the empty query row p holds index p |
| Ranking.RankCorrect | src/modes/apps_mode.rs:131-159 | for a non-empty query, the installed indices are in range. An index appears iff its score is > 0.3. Scores are non-increasing, and ties appear in ascending index order, so each index appears once |
| Ranking.SubstringMatchShown | src/modes/apps_mode.rs:140-151 | for a long query, a key containing it is always shown when its Levenshtein score is ≥ 0 |
| Ranking.EmptyQueryIsIdentity | src/modes/apps_mode.rs:125-128 | the empty query installs `[0, …, n-1]` iff n < 2^32 (past that, the cast length wraps) |
| MenuItemModels.Display | src/menu_item_model.rs:17-21 | the display text starts with the message, and its length is the sum of the three fields and the two labels |
| MenuItemModels.FirstNewline | src/menu_item_model.rs:19 | the first line break's index, with no line break before it |
| MenuItemModels.FirstNewlineAfter | src/menu_item_model.rs:19 | the first line break of `a + "\n…"` is at the length of a, when a has none |
| MenuItemModels.DisplayRoundTrip | src/menu_item_model.rs:17-21 | `error + "\n  Command: " + command + "\n  Cause: " + cause` parses back to the same error when error and command have no line break |
| MenuItemModels.Name | src/menu_item_model.rs:37-44 | the name is the application's name, the command's exec, or the string |
| MenuItemModels.NewApplication | src/menu_item_model.rs:60-66 | `Application::new` stores name, description and exec unchanged |
| MenuItemModels.NewShellCommand | src/menu_item_model.rs:85-87 | `ShellCommand::new` stores exec unchanged |
| MenuItemModels.Default | src/menu_item_model.rs:47-51 | the default item is `None` |
| MenuItemModels.ApplicationLaunchError | src/menu_item_model.rs:72-76 | message "Failed to start application '<name>'", with command = exec and the OS error as cause |
| MenuItemModels.ShellCommandLaunchError | src/menu_item_model.rs:91-95 | message "Failed to execute command", with command = exec and the OS error as cause |
| MenuItemModels.SpawnedProgram | src/menu_item_model.rs:25-35 | an application or a command asks the OS to start a program, and a string does not |
| MenuItemModels.RunAction | src/menu_item_model.rs:25-35 | `run_action` fails iff it spawns a program and the OS refuses. The error names that program as its command and carries the OS error as its cause, with the application's or the command's launch message. A string spawns nothing and returns Ok |
| MenuItemModels.FromApplication | src/menu_item_model.rs:99-103 | `Into` wraps an application unchanged in the `Application` variant |
| MenuItemModels.FromShellCommand | src/menu_item_model.rs:105-109 | `Into` wraps a command unchanged in the `Command` variant |
| MenuItemModels.FromString | src/menu_item_model.rs:111-115 | `Into` wraps a string unchanged in the `String` variant |
| MenuItemModels.NameOfConverted | src/menu_item_model.rs:37-44 | converted payloads are never `None`. Their name is the application's name, the command's exec, or the string |
| LauncherItems.NewApplication | src/launcher_item.rs:43-49 | `Application::new` stores name, description and exec unchanged |
| LauncherItems.NewShellCommand | src/launcher_item.rs:61-63 | `ShellCommand::new` stores exec unchanged |
| LauncherItems.Default | src/launcher_item.rs:30-34 | the default item is `None` |
| LauncherItems.Name | src/launcher_item.rs:20-27 | the name is the application's name, the command's exec, or the string |
| LauncherItems.StartProgram | src/launcher_item.rs:51-53 | `spawn().unwrap()` starts the given program, and panics with the OS error iff the OS refuses |
| LauncherItems.Launch | src/launcher_item.rs:11-18 | a string is printed. An application or command starts its exec, and panics iff the OS refuses |
| LauncherItems.FromApplication | src/launcher_item.rs:70-74 | `Into` wraps an application unchanged |
| LauncherItems.FromShellCommand | src/launcher_item.rs:76-80 | `Into` wraps a command unchanged |
| LauncherItems.FromString | src/launcher_item.rs:82-86 | `Into` wraps a string unchanged |
| LauncherItems.NameOfConverted | src/launcher_item.rs:20-27 | converted payloads are never `None`. Their name is the application's name, the command's exec, or the string |
| Apps.RemoveAll | src/modes/apps_mode.rs:195 | removing a pattern never lengthens the string. Removal of every occurrence is stated by `Apps.RemoveAllLeadingCode` and `Apps.RemoveAllOtherCodeAny` |
| Apps.RemoveAllLeadingCode | src/modes/apps_mode.rs:195 | a pattern at the head of any rest is removed, and removal continues in the rest, so repeated occurrences all go |
| Apps.RemoveAllOtherCodeAny | src/modes/apps_mode.rs:195 | removing a code steps over a different `%`-led pair, whatever follows, and goes on removing in the rest |
| Apps.RemoveAllSameCode | src/modes/apps_mode.rs:195 | a code at the head of a `%`-free rest is removed, leaving exactly the rest |
| Apps.RemoveAllOtherCode | src/modes/apps_mode.rs:195 | removing a different code leaves a code followed by a `%`-free rest unchanged |
| Apps.FieldCodesShape | src/modes/apps_mode.rs:189-191 | each of the 13 codes is `%` followed by one of the letters `fFuUdDnNickvm`, never by a second `%` |
| Apps.UntouchableConcat | src/modes/apps_mode.rs:193-195 | the untouchable characters of a concatenation are the concatenation of each part's |
| Apps.UntouchableOfCode | src/modes/apps_mode.rs:189-191 | a field code has no untouchable characters |
| Apps.RemoveAllKeepsUntouchable | src/modes/apps_mode.rs:195 | removing one code keeps every character other than `%` and the code letters, in order |
| Apps.RemoveEachKeepsUntouchable | src/modes/apps_mode.rs:193-195 | the fold over codes keeps every character other than `%` and the code letters, in order |
| Apps.RemoveEach | src/modes/apps_mode.rs:193-195 | the fold over the codes never lengthens the command line. Removal of each listed code is stated by `Apps.RemoveEachCodeAny`, and keeping other pairs by `Apps.RemoveEachKeepsOther` |
| Apps.RemoveEachCodeAny | src/modes/apps_mode.rs:193-195 | the fold removes a listed code before any rest, so `RemoveEach(c + s) == RemoveEach(s)` |
| Apps.RemoveEachKeepsOther | src/modes/apps_mode.rs:193-195 | the fold keeps a `%`-led pair that is not in its list, before any rest |
| Apps.RemoveEachCode | src/modes/apps_mode.rs:193-195 | the fold removes any code in its list from the head of a `%`-free rest, leaving exactly the rest |
| Apps.StripFieldCodes | src/modes/apps_mode.rs:189-195 | the stripped command line is no longer than exec. Removal of every code, repeated and multiple ones included, is stated by `Apps.StripDropsCode` and `Apps.StripBuild` |
| Apps.StripDropsCode | src/modes/apps_mode.rs:189-195 | a field code is dropped wherever it stands, whatever follows it |
| Apps.StripKeepsStrayPercent | src/modes/apps_mode.rs:189-195 | a `%` followed by a character that makes no field code (and is not `%`) is kept together with that character |
| Apps.StripInterleave | src/modes/apps_mode.rs:189-195 | `code text code text …` with `%`-free texts strips to the texts joined in order |
| Apps.StripBuild | src/modes/apps_mode.rs:189-195 | a `%`-free program part followed by any number of field codes, each followed by `%`-free text, strips to the program part and the texts in order. For example, `app %c %u` becomes `app  ` |
| Apps.StripRemovesCode | src/modes/apps_mode.rs:189-195 | any of the 13 field codes between a `%`-free program part and a `%`-free tail is removed, and nothing else is (`firefox %u` becomes `firefox `) |
| Apps.PercentFreePrefix | src/modes/apps_mode.rs:195 | a prefix without `%` survives removing a code whole, and removal continues in the rest |
| Apps.RemoveEachPercentFreePrefix | src/modes/apps_mode.rs:193-195 | the fold over codes keeps a `%`-free prefix whole |
| Apps.StripPercentFreePrefix | src/modes/apps_mode.rs:189-195 | an exec `prog + rest` with no `%` in prog reaches the shell as prog followed by the stripped rest, so the program name is never cut (`firefox %u` keeps `firefox `) |
| Apps.StripKeepsUntouchable | src/modes/apps_mode.rs:189-195 | every character other than `%` and the code letters reaches the shell in order, and the result is no longer than exec |
| Apps.RemoveAllWithoutPercent | src/modes/apps_mode.rs:195 | a string without `%` is left unchanged by removing a code |
| Apps.RemoveEachWithoutPercent | src/modes/apps_mode.rs:193-195 | a string without `%` is left unchanged by the fold |
| Apps.StripWithoutPercent | src/modes/apps_mode.rs:189-195 | an exec without `%` reaches the shell unchanged |
| Apps.LaunchCommand | src/modes/apps_mode.rs:197-199 | the process is `sh -c <stripped exec>` |
| Apps.RunAction | src/modes/apps_mode.rs:188-207 | Err iff the spawn fails. The error has message "Failed to launch application", the original unstripped exec as command, and the OS error as cause |
| Apps.ReportedCommandIsRunWithoutCodes | src/modes/apps_mode.rs:193-205 | when exec has no `%`, the reported command is exactly what the shell ran |
| Apps.Name | src/modes/apps_mode.rs:184-186 | an application's name is its stored name |
| Apps.AppsMode.constructor | src/modes/apps_mode.rs:80-89 | lowered names are computed once per application, and the buffer and projection start empty |
| Apps.AppsMode.Search | src/modes/apps_mode.rs:122-161 | installs `Rank(names, query)`. An empty query leaves the buffer alone. Otherwise the buffer is refilled from scratch and sorted, and the projection is its index column. One signal is emitted, and the pool is untouched |
| Apps.AppsMode.FilledModel | src/modes/apps_mode.rs:163-167 | installs `(0..len).map(i as u32)` and emits one signal |
| Apps.AppsMode.GetMenuItemModel | src/modes/apps_mode.rs:169-171 | an in-range wrapper resolves to the application at its original index (an out-of-range index panics) |
| Apps.SearchRowsResolve | src/modes/apps_mode.rs:158-171 | after a non-empty search, every row's wrapper resolves to an application whose lowercased name scores > 0.3 |
| Echo.EchoMode.constructor | src/modes/echo_mode.rs:10-12 | the mode holds the given lines |
| Echo.EchoMode.Model | src/modes/echo_mode.rs:19-23 | a fresh projection of length `len` mapping position i to i (as u32), with an empty pool and one signal |
| Echo.EchoMode.GetMenuItemModel | src/modes/echo_mode.rs:25-27 | an in-range wrapper resolves to the line at its original index (an out-of-range index panics) |
| Echo.Name | src/modes/echo_mode.rs:32-34 | a line's name is the line itself |
| Echo.RunAction | src/modes/echo_mode.rs:36-39 | a line's action always returns Ok |
| Echo.ModelResolvesPosition | src/modes/echo_mode.rs:19-27 | position p of the echo projection resolves to the line at original index p, whose name is that line |

## Left out

- Desktop-file discovery is not modelled: the directory scan, file reads, the desktop-entry parser and the search-path environment variables (`AppsMode::new` and `get_desktop_search_paths`). `Apps.AppsMode.constructor` takes the applications the scan found.
- The similarity metrics (`strsim::jaro_winkler`, `normalized_levenshtein`) and Unicode `to_lowercase` are inputs (`Ranking.Metrics`). Scores are mathematical reals, so f64 rounding, the exact binary value of 0.3 and the NaN ordering of `total_cmp` are not modelled.
- `sort_by` is a library call. It is modelled by the stable insertion sort `Ranking.SortByScore` (same result for a total order), not by the library's algorithm.
- Process spawning and printing are not modelled. The OS's answer to a spawn request is an input (`Base.SpawnOutcome`), and the `println!` output of string items is not recorded in `MenuItemModels` or `Echo`.
- `EchoMode::search` is `todo!()` and has no behaviour here. The `Mode` trait is a bare signature. `AppsMode::model()` only returns the `model` handle, which the `model` field represents.
- Interface mismatches between the files are normalised. `IndexList::with_capacity` becomes `new ListModel()`, and iterators passed to `set_indecies` become sequences. `MenuItemModel` as an enum (`MenuItemModels`) and as the trait the modes implement (`Apps.RunAction`, `Echo.Name`, `Echo.RunAction`) are kept as separate definitions.
- Nothing in the code returns a wrapper to the pool, and no such operation is modelled. The pool therefore only shrinks.
- GTK and relm4 wiring are not modelled (`main.rs`, `scroll.rs`, `launcher_scroll.rs`). That includes keyboard focus, scrolling and key forwarding.
- A list-model listener that replaces all rows needs `items_changed(0, old_len, new_len)`. `set_indecies` reports 0 removed rows, so a listener's row count drifts whenever the old mapping was not empty. The model keeps the signal as written (see `IndexList.SetIndicesSignalTracksLength`).
- Field-code stripping follows the code: it removes each code with `replace`, in the listed order. It does not treat `%%` as an escaped `%`, as the Desktop Entry Specification's "The Exec key" section asks. For example, `%%f` loses its `%f` and keeps one `%`.
