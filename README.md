# YurCoin bot: draw, ledger and cooldown

YurCoin is a Telegram bot. A chat presses "Try My Luck" to draw a random prize
image, and the image's file name decides how many YC points the chat gets.
"Balance" shows the chat's points. Each chat may draw at most once every five
seconds. Balances are kept in memory and saved to `balances.json`. The prize
images are listed in a manifest, `images.env`, which the bot writes from the
data directory's image files at startup if it is blank.

This project models that core in Dafny and proves its properties:

- `Cooldown`: the per-chat `last_try` check-and-mark with its 5-second window, and the reported wait.
- `Ledger`: the `balances` map, with credit and query.
  It also covers the conversion between the map and the record list that is loaded and saved.
- `Prize`: the closed table `image_value`.
- `Manifest`: reading the manifest into prize paths, picking one at a given index, and the bootstrap decision of `ensure_images_env`.
- `Text`, `Paths`, `Sorting`: the parts of Rust's `str`, `Path` and `sort` that these use.
  This covers `lines`, `trim`, `split`/`join`, `to_ascii_lowercase`, `join`, `file_name`, `extension` and byte-wise order.
- `Bot`: the Try-My-Luck and Balance buttons.
  `Draw` is the pure function of the state, and `AppState` is the class whose methods update `balances` and `lastTry` in place.
  The order is cooldown check-and-mark, then pick, value, credit and snapshot.

Some things are parameters instead:
- The clock: `now`, in nanoseconds.
- The random index: `idx`, which must lie in the list as `gen_range` guarantees.
- The manifest's text: `None` when it cannot be read.
- The data directory.
- The names of the regular files in the data directory.
- The parsed content of `balances.json`.
- The iteration order of the balance map when it is saved.

Notes on the code's behaviour:

- Bootstrap runs only when the manifest has no non-blank line, as `src/main.rs:115` tests.
  A manifest holding only `#` comments is therefore left alone, and every accepted draw then gives `NoAssets` (a press inside the window still gives `Throttled`).
- The reported wait is `max(1, floor(remaining seconds))`, as `src/main.rs:244` computes it.
- The pick is the listed path at the given index; every listed path is equally eligible.

## Model

| member | source | states |
|---|---|---|
| `Cooldown.Elapsed` | src/main.rs:230 | `duration_since` is the time between the two instants, and zero when the recorded instant is the later one |
| `Cooldown.Check` | src/main.rs:228-241 | A first draw, or one at least 5 s after the recorded one, is accepted and records `now`. An earlier draw is refused with `5 s - elapsed` left, which lies in (0, 5 s], and leaves the map unchanged |
| `Cooldown.WaitSeconds` | src/main.rs:244 | The reported wait is the whole seconds of the remaining time, and at least 1. It is at most 5 when the remainder is within the window |
| `Cooldown.ReportedWaitInRange` | src/main.rs:231-244 | The wait a refused draw reports lies between 1 and 5 seconds |
| `Cooldown.WindowAfterAccept` | src/main.rs:229-239 | After an accepted draw at t, a draw at t' is accepted exactly when t' >= t + 5 s; before that it is refused with t + 5 s - t' left |
| `Ledger.Get` | src/main.rs:279-282 | A query gives the stored balance, or 0 for an unknown chat |
| `Ledger.Credit` | src/main.rs:264-269 | The chat's balance becomes old-or-0 plus the value. The key set gains only that chat, and every other chat keeps its balance |
| `Ledger.CreditThenGet` | src/main.rs:264-282 | A credit followed by a query gives the old balance plus the value; other chats read as before |
| `Ledger.CreditNeverDecreases` | src/main.rs:264-269 | Crediting a non-negative value never lowers the balance and keeps all balances non-negative |
| `Ledger.KeyOrderOf` | src/main.rs:62-68 | Every balance map has an iteration order listing each chat exactly once |
| `Ledger.KeyOrderLength` | src/main.rs:62-68 | An iteration order has one entry per chat, so the saved list holds one record per chat |
| `Ledger.ToEntries` | src/main.rs:62-68 | The saved list has one record per listed chat, in iteration order, each carrying that chat's balance |
| `Ledger.FromEntries` | src/main.rs:49-52 | The loaded map holds exactly the chats named in the records. Each chat's balance is the one in the last record naming it |
| `Ledger.FromToEntries` | src/main.rs:49-68 | Loading the records saved for a list of chats gives the map restricted to those chats |
| `Ledger.SaveLoadRoundTrip` | src/main.rs:49-68 | Saving a map in any iteration order and loading it back gives the same map, with one record per chat |
| `Ledger.LoadBalances` | src/main.rs:30-53 | An unreadable or unparsable file gives an empty ledger. Otherwise the ledger holds the chats named in the file, each with the balance of its last record |
| `Prize.ImageValue` | src/main.rs:169-177 | YurCoin1/10/1000.png are worth 1/10/1000, and every other file name, YurCoin0.png included, is worth 0. Values lie in {0, 1, 10, 1000} |
| `Prize.ValueIgnoresDirectory` | src/main.rs:169-177 | A prize's value depends on its file name only, not on the directory it is joined onto |
| `Prize.ValueByName` | src/main.rs:169-177 | A path ending in `/name`, absolute or nested, is worth what `name` alone is worth |
| `Prize.NestedThousand` | src/main.rs:169-177 | The absolute nested path `/srv/coins/YurCoin1000.png` is worth 1000 |
| `Text.IsWhitespace` | src/main.rs:91 | `char::is_whitespace`: space, tab, '\n' and '\r' are whitespace; digits, ASCII letters, '#', '/' and '.' are not |
| `Text.Trim` | src/main.rs:91 | The trimmed text has no whitespace at either end and is no longer than the input |
| `Text.TrimSlice` | src/main.rs:91 | The trimmed text is one contiguous piece of the input, and everything removed before and after it is whitespace |
| `Text.Split` | src/main.rs:90 | There is at least one piece, and no piece holds the separator |
| `Text.SplitCount` | src/main.rs:90 | There is one more piece than there are separators in the text |
| `Text.JoinSplit` | src/main.rs:90 | Joining the pieces of a split gives back the original text |
| `Text.SplitJoin` | src/main.rs:151 | Splitting a join of one or more separator-free pieces gives back the pieces |
| `Text.Lines` | src/main.rs:90 | Lines hold no newline, and there are none exactly when the text is empty. Joined with '\n' they give the text back, less one final '\n' |
| `Text.LinesOfJoin` | src/main.rs:142-151 | When there is at least one name, none holds '\n' and the last is not empty, reading back line by line the names written with `join("\n")` gives the names |
| `Text.Join` | src/main.rs:151 | `join` of no pieces is empty; otherwise the text starts with the first piece |
| `Text.AsciiLower` | src/main.rs:133 | Each character is lower-cased when it is 'A'..'Z' and kept otherwise |
| `Paths.Join` | src/main.rs:93-100 | An absolute path replaces the directory. Otherwise the result is the directory, then one '/' unless the directory is empty or already ends in '/', then the path |
| `Paths.IsAbsolute` | src/main.rs:95 | A path is absolute when it starts at the root '/', so its first '/'-separated piece is empty |
| `Paths.FileName` | src/main.rs:170 | The file name, when there is one, is a single normal component |
| `Paths.FileNameOfJoin` | src/main.rs:93-100 | Joining a plain name onto any directory gives a path whose file name is that name |
| `Paths.FileNameAfterSlash` | src/main.rs:170 | Whatever precedes the last '/', a plain name after it is the file name |
| `Paths.FileNameOfName` | src/main.rs:170 | A plain name alone is its own file name |
| `Paths.LastIndexOf` | src/main.rs:128-130 | The index found holds the character, and no later position does; there is none only when the character is absent |
| `Paths.Extension` | src/main.rs:128-130 | A name other than `..` has an extension exactly when a dot follows its first character; `..` has none. The extension is the dot-free text after the last dot |
| `Paths.ExtensionOf` | src/main.rs:128-130 | `stem.ext` other than `..`, with a non-empty stem and a dot-free `ext`, has extension `ext` |
| `Sorting.Below` | src/main.rs:141 | The byte-wise order `files.sort()` uses: a prefix comes first, and otherwise the first differing character decides |
| `Sorting.Insert` | src/main.rs:141 | Inserting into a sorted list keeps it sorted and adds exactly that element |
| `Sorting.Sort` | src/main.rs:141 | The names come out sorted byte-wise and are a permutation of the input |
| `Sorting.SortedUnique` | src/main.rs:141 | Two sorted permutations of the same names are equal, so any correct sort gives `Sort`'s result |
| `Manifest.Usable` | src/main.rs:92 | A usable line is not empty and is not a `#` comment; when it is trimmed, its first character is not whitespace |
| `Manifest.Entries` | src/main.rs:89-92 | Every entry is a trimmed line that is neither empty nor a `#` comment, and there are no more entries than lines |
| `Manifest.EntryLine` | src/main.rs:89-92 | The j-th entry is some line i >= j of the manifest, trimmed |
| `Manifest.LineEntry` | src/main.rs:89-92 | Every line that, trimmed, is neither blank nor a comment yields an entry |
| `Manifest.EntriesAppend` | src/main.rs:89-92 | Entries keep file order: the entries of two consecutive parts are those of the first followed by those of the second |
| `Manifest.Resolve` | src/main.rs:93-100 | An absolute line is used as it is; a relative one is joined onto the data directory |
| `Manifest.Candidates` | src/main.rs:87-101 | The listed paths are the entries resolved in order, and an unreadable manifest lists none |
| `Manifest.RandomImagePath` | src/main.rs:87-110 | The result is `None` exactly when nothing is listed. Otherwise it is the listed path at the index |
| `Manifest.PickedFromLine` | src/main.rs:89-109 | A picked path is a manifest line that, trimmed, is neither blank nor a comment, resolved against the data directory |
| `Manifest.IsImageName` | src/main.rs:127-137 | A name is kept when its extension, lower-cased, is png, jpg, jpeg or gif; such a name has at least 5 characters and a '.' 4 or 5 from the end |
| `Manifest.ImageNames` | src/main.rs:120-139 | Only names whose lower-cased extension is png, jpg, jpeg or gif are kept |
| `Manifest.ImageNameByExtension` | src/main.rs:128-137 | `stem.ext` is an image name exactly when `ext`, lower-cased, is png, jpg, jpeg or gif |
| `Manifest.ImageNamesCount` | src/main.rs:120-139 | Each image name is kept as often as it is listed, and every other name is dropped |
| `Manifest.AnyNonBlank` | src/main.rs:115 | Whether some line holds more than whitespace; a manifest without such a line lists no entry |
| `Manifest.Bootstrap` | src/main.rs:112-152 | A manifest with any non-blank line is never rewritten |
| `Manifest.KeptNonEmpty` | src/main.rs:120-149 | The sorted image list is non-empty exactly when the directory lists an image name |
| `Manifest.BootstrapWhen` | src/main.rs:112-152 | Bootstrap writes exactly when the manifest is blank and the directory lists an image name |
| `Manifest.BootstrapWrites` | src/main.rs:120-151 | When no directory name holds a newline, what bootstrap writes, read back line by line, is the image names, byte-wise sorted, each as often as listed and nothing else |
| `Manifest.BootstrapExample` | src/main.rs:112-152 | Given a blank manifest and `a.png`, `B.JPG`, `note.txt`, `.gif`, it writes `B.JPG` then `a.png` |
| `Bot.Draw` | src/main.rs:225-277 | A refused press changes nothing and reports `max(1, floor(5 s - elapsed))` seconds, between 1 and 5. An accepted one records `now` even when no image is listed. A prize is the listed path at the index, worth its image value, and credited to that chat only |
| `Bot.AppState.constructor` | src/main.rs:307-310 | The state starts with the loaded balances and no recorded draws |
| `Bot.AppState.CheckAndMark` | src/main.rs:226-241 | The in-place check-and-mark returns the wait and leaves `last_try` as `Cooldown.Check` says |
| `Bot.AppState.Credit` | src/main.rs:264-269 | The in-place credit leaves `balances` as `Ledger.Credit` says. It returns the new balance and a snapshot equal to the whole new map |
| `Bot.AppState.Balance` | src/main.rs:278-282 | The Balance button returns the stored balance, or 0, and changes nothing |
| `Bot.AppState.TryMyLuck` | src/main.rs:225-277 | The new state and outcome are those of `Draw`. A snapshot equal to the new balances is handed on exactly when a prize is won |
| `Bot.QuickRepeatThrottled` | src/main.rs:229-250 | A second press less than 5 s after an accepted one is throttled with the remaining time, and the state is unchanged |
| `Bot.EmptyCatalogNeverWins` | src/main.rs:252-261 | A manifest listing no image never pays out, and balances stay as they were |
| `Bot.DrawKeepsBalancesNonNegative` | src/main.rs:263-269 | A press never lowers any chat's balance, and non-negative balances stay non-negative |
| `Bot.ReadyDrawWins` | src/main.rs:229-269 | A press after the window, over a non-empty catalog, wins the image at the index. It records the time and adds that image's value |
| `Bot.SpacedDrawsWin` | src/main.rs:225-277 | Presses by one chat at least 5 s apart, the first one allowed, over a non-empty catalog, all win |
| `Bot.SpacedDrawsSum` | src/main.rs:225-277 | Over the same presses, the balance grows by exactly the sum of the prizes drawn |
| `Bot.OneLineCatalog` | src/main.rs:87-101 | A manifest of one line that is already trimmed, usable, relative and newline-free lists that line joined onto the data directory |
| `Bot.PressesAtZeroTwoSix` | src/main.rs:225-277 | With one image worth 10, presses at 0 s, 2 s and 6 s give: won 10 with balance 10, wait 3 s, won 10 with balance 20 |
| `Bot.ExampleCatalog` | src/main.rs:87-101 | The manifest line `YurCoin10.png` under `data` lists `data/YurCoin10.png`, worth 10 |
| `Bot.Example42` | src/main.rs:225-277 | Chat 42 over that catalog: won 10 with balance 10, wait 3 s, won 10 with balance 20 |

## Left out

- Telegram transport is not modelled; it is message I/O. That covers sending messages and photos, the keyboard, `/start`, the fallback reply and the message texts (`src/main.rs:179-187`, `216-224`, `289-295`).
- The HTTP health endpoint and the `main` wiring are not modelled; they are server plumbing (`src/main.rs:212-214`, `298-326`).
- The `tokio` mutexes, `Arc` and concurrent dispatch are not modelled. The state is updated sequentially, so each check-and-mark and each credit-plus-snapshot is atomic by construction.
- File I/O is not modelled: reading and writing the manifest and `balances.json`, `create_dir_all`, `read_dir`, `is_file` and the JSON format.
  The model takes the manifest text, the directory's file names and the parsed records as inputs.
- The temporary-file write, rename and remove fallback of `save_balances` (`src/main.rs:70-84`) is not modelled.
  The model stops at the snapshot handed on and the record list `Ledger.ToEntries`. Persistence takes the snapshot by value and returns nothing, so its outcome cannot affect the in-memory state.
- `rand::thread_rng` is not modelled; it is replaced by the index parameter. Uniformity is a probabilistic property and is not stated.
- Configuration is not modelled: `data_dir`, `load_bot_token`, dotenv and the startup panic (`src/main.rs:154-167`, `189-210`). The data directory is a parameter.
- `Instant::now` is not modelled; the current time is a parameter in nanoseconds.
- Ledger.Credit: balances and chat ids are unbounded integers. The i64 overflow of `+=` (a panic in debug builds, wrap-around in release builds) is not modelled, because prizes are at most 1000 per 5 seconds.
- Bot.AppState.Credit: the same i64 overflow is not modelled, for the same reason.
- Text.Lines: the '\r' that `lines()` strips before a '\n' is kept. Every manifest line is trimmed afterwards and '\r' is whitespace, so nothing that depends on it changes.
- Paths.FileName: paths are Unix paths held as Unicode strings. Windows prefixes and non-UTF-8 names, which `to_str` would reject, are not modelled.
- Manifest.BootstrapWrites: a file name holding a newline is not covered. The code keeps `x\n.png` (its extension is `png`) and writes it as two manifest lines, `x` and `.png`, which later draws read as two separate paths; the lemma states the read-back only for names without a newline.
- Sorting.Sort: it is an insertion sort, not Rust's stable merge sort. `Sorting.SortedUnique` proves that every correct sort gives the same list.
