# Entitan core in Dafny

Entitan is a small Windows launcher for World of Warcraft. Its window
(`EntitanApp`, src/main.rs) keeps three paths: Battle.net, the game's
`Config.wtf` and the WoW executable. It also keeps a preferred locale.
This project models the part of the window that is not drawing:

- **Reading Config.wtf** (`update_locales`). The file is scanned line by
  line for `SET audioLocale "…"` and `SET textLocale "…"`, and the two quoted
  values are cached. Files of 8192 bytes or more are not read. A path cache
  (`last_config_path`) skips the re-read while the path is unchanged and
  moves the file watcher to a new path.
- **Rewriting Config.wtf** (`update_config_file_locales`). After the path,
  existence and size guards, every key line is rewritten in place, missing
  keys are appended, and the lines are joined with `"\n"` plus a final
  `"\n"`. The result replaces the whole file, and the cache is then forced
  to re-read it.
- **The preferred-locale filter**. It keeps the first four ASCII letters,
  or `enUS` when there are none.
- **The run sequence**. The worker thread's messages depend only on the
  three `Command::spawn` outcomes. The Run button sets the `run_active`
  flag, and draining the run channel clears it at `FINISHED`.
- **The file-watcher drain**. An error sets the status. An event naming the
  configured path forces a reload.

Files:

- `wrappers.dfy`: `Option` and `Result`.
- `text.dfy`: the Rust `str` operations the code uses (`trim`, `find`,
  `lines`, `join`).
- `disk.dfy`: the file system as a map from path to entry, sizes in UTF-8
  bytes, and `is_file_with_ext`.
- `locale_config.dfy`: the reader and the rewriter as functions, the
  rewrite loop as a method, and their round trip.
- `preferred_locale.dfy`: the filter.
- `launch_sequence.dfy`: the worker's message list and the worker as a
  method.
- `entitan_app.dfy`: the `EntitanApp` class with its fields and the
  methods that update them.

The file system, the watcher's events, the spawn outcomes and the write
error are parameters. The watcher's subscriptions are recorded as a log of
`watch`/`unwatch` calls. The run channel is a sequence field: the worker's
sends are appended to it, and a drain removes messages from its front.

## Model

| member | source | states |
|---|---|---|
| Text.TrimStartRemovesLeadingRun | src/main.rs:201 | `trim` drops exactly the leading whitespace run: the rest is a suffix starting with a non-whitespace character |
| Text.TrimEndRemovesTrailingRun | src/main.rs:201 | `trim` drops exactly the trailing whitespace run: the rest is a prefix ending with a non-whitespace character |
| Text.TrimIgnoresCr | src/main.rs:200-201 | dropping a trailing carriage return never changes the trimmed line |
| Text.Find | src/main.rs:203-205 | `find('"')` gives no index exactly when there is no quote, else the index of the first quote |
| Text.Lines | src/main.rs:200 | no line produced by `lines()` holds a line feed |
| Text.LinesOfJoined | src/main.rs:237-257 | splitting lines joined by "\n" plus a final "\n" gives those lines back, each without one trailing carriage return |
| Disk.Utf8Len | src/main.rs:192 | a file's byte size is between its character count and four times that |
| Disk.ReadToString | src/main.rs:199 | `read_to_string` succeeds exactly on text files, and the text has the file's byte size |
| Disk.FileNameIsLastComponent | src/main.rs:890 | the file name is the separator-free tail of the path, preceded by a separator when shorter than the path |
| Disk.LastDotIsLast | src/main.rs:890 | the dot found is the last one, and none is found only when there is no dot |
| Disk.ExtensionIsSuffix | src/main.rs:890-891 | an extension holds no dot, and the path ends with a dot followed by it |
| Disk.FileWithExtEndsWithExt | src/main.rs:887-894 | a path passes `is_file_with_ext` only if it is an existing file whose name ends with "." and the extension, in any ASCII case |
| LocaleConfig.KeysExclusive | src/main.rs:202-209 | no line starts with both keys |
| LocaleConfig.QuotedValue | src/main.rs:203-206 | an extracted value never holds a quote |
| LocaleConfig.QuotedValueNeedsTwoQuotes | src/main.rs:203-207 | a line yields a value exactly when it holds at least two quotes |
| LocaleConfig.QuotedValueOf | src/main.rs:203-206 | the value read is the text between the first quote and the next |
| LocaleConfig.LastKeyLine | src/main.rs:200-217 | the index found is that of a line that gives the key a value, with no such line after it; none is found only when no line gives one |
| LocaleConfig.ScanFindsLastValue | src/main.rs:180-217 | the scan leaves each key at the value of the last matching line with a closing quote, and at its earlier value when there is none |
| LocaleConfig.Refresh | src/main.rs:180-199 | a missing path gives no values; a file of 8192 bytes or more gives the sentinel for both keys; an entry under the guard that is not readable text gives no values |
| LocaleConfig.RefreshReadsLastValues | src/main.rs:180-218 | a readable file under the guard gives each key the value of its last matching line |
| LocaleConfig.RewriteConfigLines | src/main.rs:237-255 | the in-place loop with its two found flags, plus the pushes, yields `RewrittenLines` |
| LocaleConfig.HasKeyLineSnoc | src/main.rs:240-248 | a found flag becomes true exactly when the line just visited is a key line |
| LocaleConfig.AppendMissing | src/main.rs:250-255 | pushing the keys not found after the in-place pass gives the rewritten lines |
| LocaleConfig.RewrittenLinesShape | src/main.rs:240-255 | other lines stay where they were, byte for byte; every key line (indented or `SET audioLocaleX` too) becomes `SET <key> "<pref>"`; the missing keys come last, so the count grows by 0 to 2 |
| LocaleConfig.MissingAreKeyLines | src/main.rs:250-255 | at most two lines are appended, each one of the two key lines |
| LocaleConfig.MissingKeyLineAt | src/main.rs:250-255 | a key that no line has gets its line appended, audio before text |
| LocaleConfig.KeyLineEndsInQuote | src/main.rs:243-246 | a written key line ends in a quote, so `lines()` reads it back whole |
| LocaleConfig.KeyLineMatches | src/main.rs:241-246 | a written key line is its own trim and starts with its key |
| LocaleConfig.KeyLineParts | src/main.rs:203-246 | a written key line quotes the preferred locale |
| LocaleConfig.RewrittenLinesSplit | src/main.rs:237-257 | the rewritten lines are never empty and hold no line feed |
| LocaleConfig.RewrittenFileLines | src/main.rs:237-257 | reading the written file gives the old line count plus the missing keys; key lines read `SET <key> "<pref>"`; other lines are unchanged except for one trailing carriage return that `lines()` drops; the appended keys come last |
| LocaleConfig.ReadBackShape | src/main.rs:237-257 | the same facts, line by line, for the rewritten lines after `lines()` |
| LocaleConfig.ReadBackInPlace | src/main.rs:240-248 | the lines read back in the old positions are the rewritten old lines |
| LocaleConfig.ReadBackAppended | src/main.rs:250-255 | the lines read back after the old ones are the appended key lines |
| LocaleConfig.MissingReadBackWhole | src/main.rs:250-257 | the appended key lines read back unchanged |
| LocaleConfig.AudioLineReadsBack | src/main.rs:202-243 | a written audio line gives audio the preferred locale and gives text nothing |
| LocaleConfig.TextLineReadsBack | src/main.rs:202-246 | a written text line gives text the preferred locale and gives audio nothing |
| LocaleConfig.RewrittenLineValue | src/main.rs:202-248 | a rewritten line gives a key nothing or the preferred locale, and the preferred locale if it was a line for that key |
| LocaleConfig.RewrittenValues | src/main.rs:199-257 | every rewritten line gives a key nothing or the preferred locale, and some line gives it the preferred locale |
| LocaleConfig.RewrittenGiveAtMost | src/main.rs:199-257 | no rewritten line gives a key any value other than the preferred locale |
| LocaleConfig.RewrittenGivePref | src/main.rs:199-257 | some rewritten line gives each key the preferred locale |
| LocaleConfig.RewrittenKeyLineGivesPref | src/main.rs:241-248 | a rewritten key line gives its key the preferred locale |
| LocaleConfig.AppendedKeyLineGivesPref | src/main.rs:250-255 | an appended key line gives its key the preferred locale |
| LocaleConfig.OnlyValueIsLast | src/main.rs:199-217 | if every line gives a key nothing or v, and one line gives v, the scan ends with v |
| LocaleConfig.ReadBackValue | src/main.rs:199-257 | reading the rewritten lines back gives each key the preferred locale |
| LocaleConfig.RewriteThenParse | src/main.rs:199-257 | parsing the rewritten text gives both keys the preferred locale, whatever the file held before (for a locale without quotes or line feeds) |
| LocaleConfig.UpdateConfig | src/main.rs:223-258 | the guards fail in order (path unset, missing or not a file, 8192 bytes or more); a non-text file under the guard fails to read; a text file under the guard is rewritten exactly when the write does not fail, and otherwise gives the write error; on success only that file changes, and it now holds the rewritten text |
| LocaleConfig.UpdateThenRefresh | src/main.rs:256-261 | after a successful update with a preferred locale holding no quote and no line feed, re-reading gives both keys the preferred locale, or the sentinel if the new file reached the size guard |
| LocaleConfig.TwoKeyLinesRewrite | src/main.rs:237-257 | a file of just the two key lines is rewritten to the same two lines carrying the preferred locale |
| LocaleConfig.TwoLinesRead | src/main.rs:200 | two newline-terminated lines are split into those two lines |
| LocaleConfig.TwoKeyLinesRewritten | src/main.rs:240-255 | two existing key lines are both rewritten, and nothing is appended |
| PreferredLocale.Letters | src/main.rs:446-448 | the filter keeps only ASCII letters and never lengthens its input |
| PreferredLocale.TakeLettersIsPrefixOfLetters | src/main.rs:446-450 | the lazy `filter().take(4)` yields the first four letters of the full filter |
| PreferredLocale.LettersOfLetters | src/main.rs:446-448 | a value made of letters only passes the filter unchanged |
| PreferredLocale.NormalizeIsFirstLetters | src/main.rs:444-462 | the result has 1 to 4 ASCII letters: the first four letters of the input, or `enUS` when there are none |
| PreferredLocale.NormalizeFixesExactlyValid | src/main.rs:451-462 | the value is left unchanged exactly when it already has 1 to 4 ASCII letters |
| PreferredLocale.NormalizeIdempotent | src/main.rs:444-462 | filtering twice is filtering once |
| LaunchSequence.DecimalString | src/main.rs:619-637 | a formatted number is a non-empty run of digits, starting with 0 only for zero |
| LaunchSequence.ParseDecimalString | src/main.rs:619-637 | the decimal digits read back as the number |
| LaunchSequence.TickInjective | src/main.rs:619-639 | two countdown messages with the same prefix are equal only for the same second |
| LaunchSequence.Countdown | src/main.rs:619-639 | a countdown from `hi` down to `lo + 1` sends `hi - lo` messages |
| LaunchSequence.CountdownStep | src/main.rs:619-622 | counting down one more second appends that second's message |
| LaunchSequence.CountdownDistinct | src/main.rs:619-639 | the seconds strictly descend, so no countdown message repeats |
| LaunchSequence.SendCountdown | src/main.rs:619-639 | the countdown loop appends exactly the countdown messages |
| LaunchSequence.RunWorker | src/main.rs:605-649 | the worker sends exactly the message list for its three spawn outcomes |
| LaunchSequence.CountdownNotFinished | src/main.rs:619-639 | no countdown message is "FINISHED" |
| LaunchSequence.FinishedOnlyAtEnd | src/main.rs:610-648 | whatever the spawns return, the run ends with exactly one "FINISHED", as its last message |
| LaunchSequence.BattleNetFailureStopsAtOnce | src/main.rs:610-613 | a failed first launch sends only the failure and "FINISHED" |
| LaunchSequence.WowFailureSendsThirteen | src/main.rs:610-627 | a failed WoW launch ends the run after 13 messages: launched, 10 down to 1, failure, "FINISHED" |
| LaunchSequence.FullRunOrder | src/main.rs:610-648 | with both games launched, the run sends 74 messages in the order of the worker, both countdowns strictly descending |
| Entitan.EventStatus | src/main.rs:722-738 | an event sets the status exactly when it is an error or names the configured path |
| Entitan.ReloadCount | src/main.rs:720-735 | no batch forces more reloads than it has events |
| Entitan.NoReloadWithoutConfigEvent | src/main.rs:720-735 | a batch forces no reload exactly when none of its events names the configured, non-empty path |
| Entitan.OtherPathsKeepStatus | src/main.rs:720-741 | events about other paths, with no error among them, leave the status unchanged |
| Entitan.RepeatSnoc | src/main.rs:728 | one more reload appends one more watch call |
| Entitan.StartedRunIsValid | src/main.rs:597-649 | the channel a run fills is consistent with an active run flag |
| Entitan.DrainKeepsRunChannelValid | src/main.rs:699-710 | draining a prefix keeps the flag consistent with the channel; the flag drops exactly when the whole run has been drained |
| Entitan.EntitanApp.constructor | src/main.rs:104-152 | the loaded paths, with "enUS" for an empty preferred locale; nothing cached; a created watcher watching an existing Config.wtf; no run |
| Entitan.EntitanApp.UpdateLocales | src/main.rs:157-219 | nothing changes while the cached path is the configured one; otherwise the path is recorded, the watcher is moved, and the locales become `Refresh` of the path |
| Entitan.EntitanApp.ScanConfigText | src/main.rs:199-217 | the line loop leaves the two fields at the scan of all lines from their old values |
| Entitan.EntitanApp.ForceRefresh | src/main.rs:260-261 | clearing the cache forces a re-read and a new watch even for an unchanged path |
| Entitan.EntitanApp.UpdateConfigFileLocales | src/main.rs:223-263 | on failure, the same error with the file system and cache untouched; on success, the file system of `UpdateConfig` and a cache re-read from it |
| Entitan.EntitanApp.OnUpdateClicked | src/main.rs:431-438 | the status is "Config.wtf updated" or "Error updating config: " followed by the error text; on success the path cache, the watcher log and both locales are those of the forced re-read of the new file, and on failure they are unchanged |
| Entitan.EntitanApp.EnforcePreferredLocale | src/main.rs:444-462 | the field becomes the filter's result; a valid value and an empty value set no status; no letters gives `enUS` and the reset message; a changed value gives the filtered message |
| Entitan.EntitanApp.OnRunClicked | src/main.rs:583-649 | a run starts only when none is active and both executables exist with `.exe`; a bad Battle.net path is reported before a bad WoW path; a started run sets the flag and queues the worker's messages |
| Entitan.EntitanApp.DrainRunMessages | src/main.rs:699-710 | the received prefix leaves the channel; the status is the last message received ("Run sequence completed" for "FINISHED"); the flag drops exactly when "FINISHED" is received |
| Entitan.EntitanApp.ReloadConfig | src/main.rs:727-730 | a reload re-reads the file, watches the path again and sets the reloaded status |
| Entitan.EntitanApp.HandleWatchEvent | src/main.rs:720-740 | an error sets the status; a change naming the configured path reloads; any other event changes nothing |
| Entitan.EntitanApp.DrainWatcherEvents | src/main.rs:713-742 | the status is the one set by the last event that sets one; one watch call per reload; the locales are re-read if any event names the configured path, and are untouched otherwise |

## Left out

- GUI layout, labels, text widgets, colours and repaint requests: presentation code on egui.
- The background image (grayscale, opacity, cover-crop): floating-point pixel arithmetic.
- File dialogs and the single-instance lock: library and OS calls. The paths are plain fields.
- Win32 window calls (topmost, minimize, position) made when a run starts and ends: foreign calls with no effect on the modelled state.
- Settings persistence (`load_settings_full`, `save_settings`, the save and exit hooks): environment and file I/O. The loaded values are constructor parameters.
- Building the `notify` watcher: whether it was created is a constructor parameter. Errors from `watch`/`unwatch` are ignored, as in the code.
- Threads, one-second sleeps and the mpsc channels: the worker's whole output is appended to the channel when the run starts. A drain receives a given number of messages (`available`), which covers partial delivery but not the timing.
- `Command::spawn`: each outcome is an input.
- The build script, which only embeds an icon.
- Path comparison: paths are compared as strings, whereas Rust's `Path` equality compares components. `Path::file_name` is modelled as the text after the last `/` or `\`, without Rust's special handling of trailing separators and `.` components.
- A failing `metadata()` call: metadata is assumed to be always available.
- Error texts from the operating system: a failed `read_to_string` gives one fixed text, and the write error's text is a parameter. A partial write is not modelled.
- Entitan.EntitanApp.UpdateConfigFileLocales: its contract does not state the read-back values directly. It states that the cache equals `Refresh` of the new file system, and `LocaleConfig.UpdateThenRefresh` proves that this gives both keys the preferred locale while the rewritten file stays under 8192 bytes, and the sentinel otherwise, for a preferred locale with no quote and no line feed.
- LocaleConfig.RewriteThenParse: requires a preferred locale with no `"` and no line feed. The filter keeps only ASCII letters, but it runs after the Update button's handler in the same frame (src/main.rs:431-462). So it covers a value edited in an earlier frame than the click, and the round trip is not promised for a value typed in the same frame as the click.
