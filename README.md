# Baafucha core in Dafny

Baafucha helps people who type in both English and Hebrew. It has two parts, and this project models both:

- **Transliteration engine** (`main.py`). The F8 hotkey re-types the selected text in the other keyboard layout. A fixed table maps US keys to the Hebrew characters on the same keys, and the reverse table is derived from it. If the selected text has any character in the Hebrew block U+0590..U+05FF, it is converted to English; otherwise it is converted to Hebrew. The text is captured through the clipboard: snapshot the clipboard, optionally select all, copy, give up if nothing new was copied, and otherwise convert, paste and restore the snapshot.
- **Language monitor** (`core/taskbar.py`). A background worker samples the active keyboard layout and writes the taskbar's ColorPrevalence preference. It writes 0 when the layout is the default UI language and 1 otherwise. It writes once when it starts and again on each change. It is started, stopped and restarted as the `taskbar_color` setting changes.

Files:

- `wrappers.dfy`: the `Option` datatype.
- `keymap.dfy` (module `Keymap`): the two tables, ASCII lower-casing, `is_hebrew`, `convert_text` and the direction choice. It also holds the inverse law, the round trips and the double-press laws.
- `clipboard.dfy` (module `Clipboard`): a `Desktop` class, which is the clipboard and the focused text field, with one method per key combination. It also holds `AutoConvert`, proved against the pure `PastedText`.
- `taskbar.dfy` (module `Taskbar`): the 16-bit mask and the 0/1 decision. It holds the writes of one worker as a function of its samples, with the counting lemmas. It also holds the `LanguageMonitor` class, whose fields stand for the module globals, the worker's `last_layout_id` and the preference store.

Three behaviours of the code differ from what one would expect of it. The model follows the code:

- One would expect the clipboard to be restored on every exit path. `auto_convert` has no `try`/`finally`, so a failing clipboard call ends the action early and the clipboard keeps whatever it held at that point. A failure of `pyperclip.paste()` at `main.py:52`, or of `pyperclip.copy(converted_text)` at `main.py:69`, leaves the copied selection there. A failure of the restoring `pyperclip.copy` at `main.py:77` leaves the converted text there. Clipboard calls are modelled as calls that do not fail.
- One would expect the preference to always follow the latest layout relative to the default UI language. The code reads the default UI language again only when the layout changes (`core/taskbar.py:122-124`), and writes only then. So if the default changes while the layout stays the same, the preference goes stale. `Tick` takes the default as a per-tick parameter, so the model keeps this behaviour.
- One would expect a second start to be refused while a worker runs. `start_language_monitor` does not check for a held handle. `Start` keeps that behaviour and counts overwritten handles in `orphaned`. `OnConfigChange` never overwrites a handle.

Three more behaviours follow from how the code works, and are proved as written:

- Converting the result again (after re-selecting it, or with Ctrl+F8 on a field holding only that text) does not always give the original back. On "q" the first conversion gives "/", which has no Hebrew letter, so the second converts English to Hebrew again (`ToggleTwiceFailsOnSlash`). On text made only of table keys, with at least one key other than `q` and `w`, the second conversion gives the text back (`ToggleTwiceFromEnglish`). Mixed text is no toggle either: "a/" gives "ש/" and then "aq" (`ToggleTwiceFailsOnMixedText`). A second plain F8 right after a paste is a different matter: the pasted text is normally not selected, so that press copies nothing and stops at `main.py:58-60`.
- A selection equal to the current clipboard cannot be told apart from no selection, so nothing is pasted (`SelectionLikeClipboardNoPaste`).
- Select-all on an empty field copies nothing. Select-all mode skips the "nothing copied" test at `main.py:58`, so the old clipboard text is converted and pasted (`SelectAllEmptyFieldPastesClipboard`).

## Model

| member | source | states |
|---|---|---|
| Keymap.EnToHeInjective | main.py:18-23 | no two keys of `en_to_he` share a value |
| Keymap.Invert | main.py:24 | swapping keys and values of an injective map gives a map whose keys are the original values and which sends each `m[k]` back to `k` |
| Keymap.HeToEnInverts | main.py:24 | `he_to_en` is the inversion of `en_to_he` |
| Keymap.EnToHeKeys | main.py:18-23 | the keys of `en_to_he` include every lower-case ASCII letter and are only those letters and `,` `.` `;` |
| Keymap.EnToHeValues | main.py:18-23 | no value of `en_to_he` is an ASCII capital; every value is in the Hebrew block except those of `q` and `w` ('/' and the apostrophe) |
| Keymap.InverseLaw | main.py:18-24 | `he_to_en[en_to_he[k]] == k` for every key, `en_to_he[he_to_en[v]] == v` for every key of `he_to_en`, and the key set of each table is the value set of the other |
| Keymap.HeToEnLookup | main.py:24 | every key of `he_to_en` is sent back to it by `en_to_he` |
| Keymap.EnToHeLookup | main.py:24 | every key of `en_to_he` is sent back to it by `he_to_en` |
| Keymap.Lower | main.py:32 | `char.lower()` on ASCII: a capital goes 32 code points down to its small letter; every other character is kept |
| Keymap.InHebrewBlock | main.py:28 | a character is in the Hebrew block exactly when its code point is in 0x0590..0x05FF |
| Keymap.IsHebrew | main.py:26-28 | true exactly when some character of the text is in U+0590..U+05FF |
| Keymap.Substitute | main.py:32 | `mapping.get(char.lower(), char)`: the table's value for the lowered character when that is a key, the character itself otherwise |
| Keymap.LowerAll | main.py:32 | the lowered text has the same length and each position is the lowered character |
| Keymap.ConvertText | main.py:30-32 | the result has the input's length, and each position holds the table's value for the lowered character, or the character itself when the lowered character is not a key |
| Keymap.ConvertSelection | main.py:62-66 | the text keeps its length; `he_to_en` is applied exactly when the text is Hebrew, `en_to_he` otherwise |
| Keymap.PassThrough | main.py:32 | a character whose lowered form is not a key is kept unchanged |
| Keymap.CaseInsensitiveExample | main.py:30-32 | "A" and "a" both convert to "ש" |
| Keymap.EnToHeIgnoresCase | main.py:30-32 | converting to Hebrew gives the same result for a text and its lower-cased form |
| Keymap.RoundTripFromEnglish | main.py:18-32 | text whose lowered characters are all keys converts to Hebrew and back to its lower-cased form |
| Keymap.RoundTripFromEnglishKeys | main.py:18-32 | text made of `en_to_he` keys converts to Hebrew and back to itself |
| Keymap.RoundTripFromHebrew | main.py:18-32 | text made of `he_to_en` keys converts to English and back to itself |
| Keymap.ToggleTwiceFromEnglish | main.py:62-66 | converting the result again (after re-selecting it, or with Ctrl+F8 on a field holding only that text) gives back text made of `en_to_he` keys if it holds a key other than `q` and `w` |
| Keymap.ToggleTwiceFailsOnSlash | main.py:62-66 | "q" converts to "/", and "/" converts to "/" again, so converting the result again (after re-selecting it) does not restore "q" |
| Keymap.ToggleTwiceFromHebrew | main.py:62-66 | converting the result again (after re-selecting it, or with Ctrl+F8 on a field holding only that text) gives back any text made of `he_to_en` keys, whether or not it holds a Hebrew letter |
| Keymap.ToggleTwiceFailsOnMixedText | main.py:62-66 | "a/" converts to "ש/", and "ש/" converts to "aq", so converting the result again (after re-selecting it) does not restore mixed text |
| Keymap.ShalomExample | main.py:62-66 | the selection "שלום" converts to "akuo", and "akuo" converts to "שלום" |
| Clipboard.Desktop.constructor | main.py:34-37 | the desktop starts with the given clipboard, field text and selection, and no pastes |
| Clipboard.Desktop.ReadClipboard | main.py:37 | `pyperclip.paste()` returns the clipboard's text |
| Clipboard.Desktop.WriteClipboard | main.py:59 | `pyperclip.copy` replaces the clipboard's text |
| Clipboard.Desktop.SelectAll | main.py:39-44 | select-all makes the whole field the selection |
| Clipboard.Desktop.Copy | main.py:46-52 | copy puts a non-empty selection on the clipboard, and leaves the clipboard alone when nothing or an empty text is selected |
| Clipboard.Desktop.Paste | main.py:69-73 | paste adds the clipboard's text to the field's paste log |
| Clipboard.PastedText | main.py:52-66 | nothing is pasted exactly when select-all is off and the copy left the clipboard unchanged; otherwise the pasted text is the conversion of the copied text |
| Clipboard.AutoConvert | main.py:34-77 | the clipboard ends as it began on both paths; the selection becomes the whole field in select-all mode; the paste log grows by exactly `PastedText`, one entry or none; the model does not change `document` (the edit a paste makes is left out) |
| Clipboard.NoSelectionNoPaste | main.py:55-60 | with nothing selected and select-all off, nothing is pasted |
| Clipboard.SelectionLikeClipboardNoPaste | main.py:55-60 | a selection equal to the clipboard is treated as no selection |
| Clipboard.SelectionPastesConversion | main.py:55-69 | a non-empty selection that differs from the clipboard is converted and pasted; an empty one pastes nothing |
| Clipboard.SelectAllAlwaysPastes | main.py:39-69 | in select-all mode something is always pasted: a non-empty field is converted even when it equals the clipboard, and an empty field leaves the old clipboard text to be converted |
| Clipboard.SelectAllEmptyFieldPastesClipboard | main.py:39-69 | select-all on an empty field converts and pastes the old clipboard text |
| Clipboard.PastedKeepsLength | main.py:62-69 | the pasted text is as long as the copied text |
| Clipboard.NoSelectionScenario | main.py:34-60 | "akuo" typed but not selected: the clipboard keeps its text and nothing is pasted |
| Clipboard.HebrewSelectionScenario | main.py:34-77 | "שלום" selected: "akuo" is pasted and the clipboard gets its text back |
| Clipboard.EmptyFieldSelectAllScenario | main.py:34-77 | select-all on an empty field with "akuo" on the clipboard pastes "שלום" and gives the clipboard "akuo" back |
| Clipboard.CopiedText | main.py:39-52 | the copied text is the selection after the optional select-all, or the old clipboard when that is nothing or empty; it is never empty unless the clipboard was |
| Taskbar.LanguageId | core/taskbar.py:73-79 | the language id is in 0..65535 and agrees with the layout handle modulo 2^16 |
| Taskbar.LanguageIdIsLowBits | core/taskbar.py:78 | a handle `high * 65536 + low` with a 16-bit `low` yields `low` |
| Taskbar.Decision | core/taskbar.py:116-127 | the written value is 0 or 1, and it is 0 exactly when the sample equals the default UI language |
| Taskbar.TaskbarColor | core/taskbar.py:89 | the feature is on exactly when "taskbar_color" is present and true; it is off when absent |
| Taskbar.LastSeen | core/taskbar.py:121-123 | `last_layout_id` after a run is the latest value of the first sample followed by the polled samples |
| Taskbar.PollWrites | core/taskbar.py:120-129 | the poll loop writes at most once per sample |
| Taskbar.WorkerWrites | core/taskbar.py:115-129 | a worker writes at least once and at most once per sample plus one, and its first write is the decision for its first sample |
| Taskbar.PollWritesCount | core/taskbar.py:120-129 | the poll loop writes once per position where a sample differs from the one before it |
| Taskbar.PollWritesAreFlags | core/taskbar.py:120-129 | every value the poll loop writes is 0 or 1 |
| Taskbar.LatestWrite | core/taskbar.py:115-129 | a worker's latest write is the decision for its latest sample |
| Taskbar.WorkerWritesSummary | core/taskbar.py:115-129 | a worker writes 1 + (number of changes) values, each 0 or 1, the latest being the decision for the latest sample |
| Taskbar.SteadyLayoutNoWrites | core/taskbar.py:120-122 | sampling an unchanged layout writes nothing after the initial push |
| Taskbar.ScenarioWrites | core/taskbar.py:115-129 | layouts 100, 100, 101, 101, 100 with default 100: the first sample writes 0, the prefixes up to the second, third, fourth and fifth sample have written nothing, [1], [1] and [1, 0] in the loop, so the third sample writes 1, the fifth 0, and nothing else is written |
| Taskbar.LanguageMonitor.constructor | core/taskbar.py:83-84 | the monitor starts with no handle and no writes, and the preference as the system holds it |
| Taskbar.LanguageMonitor.SetColorPrevalence | core/taskbar.py:66-71 | the value becomes the preference and is appended to the write log |
| Taskbar.LanguageMonitor.Start | core/taskbar.py:86-118 | with the flag on: a handle is held, the first sample becomes `last`, and exactly one write (its decision) is made; an already held handle is overwritten and counted as orphaned. With the flag off: nothing changes |
| Taskbar.LanguageMonitor.Tick | core/taskbar.py:120-129 | an unchanged sample writes nothing; a changed one becomes `last` and exactly its decision is written |
| Taskbar.LanguageMonitor.Poll | core/taskbar.py:120-129 | repeated ticks write exactly `PollWrites` and leave `last` at the latest sample |
| Taskbar.LanguageMonitor.Stop | core/taskbar.py:97-107 | without a handle nothing changes; with one, exactly 0 is written and the handle is dropped |
| Taskbar.LanguageMonitor.OnConfigChange | core/taskbar.py:109-113 | stops, then runs again exactly when both the new and the re-read configuration have the flag on; no handle is orphaned; the writes are 0 for a stopped worker, then the new worker's initial decision; when nothing is written the preference and `last` stay as they were; when not running afterwards but something was written, the preference is 0 |
| Taskbar.RunWorker | core/taskbar.py:86-129 | starting, polling and stopping one worker writes `WorkerWrites` followed by 0, leaves the preference at 0 and orphans no worker |

## Left out

- Threads, `threading.Event`, `join` and `time.sleep`. The worker is modelled as explicit `Start`, `Tick` and `Stop` calls, and the settle delays are dropped. In the real program, the worker may still write 1 after `stop_language_monitor` has written 0 but before the stop signal is seen. The sequential model cannot show this race, so "stopped implies preference 0" holds only in the model.
- Workers orphaned by a second `Start` keep polling and writing in the real program. The model only counts them.
- `Tick` requires a held handle. Only a live worker runs the loop body.
- Taskbar.LanguageMonitor.Poll, `Taskbar.RunWorker` and the run lemmas (`PollWrites`, `WorkerWrites` and the lemmas about them) take one default UI language for the whole run. The code re-reads it on each layout change; only `Tick` models that.
- Clipboard.Desktop.Paste does not change the selection or the field's text. So the model does not capture that after a paste the pasted text is normally no longer selected, and it does not model repeated presses of F8; the double-conversion lemmas in `Keymap` are about converting a result again after re-selecting it.
- Platform calls are left out: `winreg`, `ctypes` user32/kernel32, `SendMessageW`, AppKit and NSUserDefaults. `refresh_taskbar` is folded into the logged write, and the read half of `get_set_color_prevalence` is not used by the monitor. A failed registry write is caught and printed in the source; the model treats every write as successful. The foreground layout sample and the default UI language are parameters. The samples are language ids that have already been masked.
- The macOS branch of `get_current_input_language`, which returns a string. The layout handle is an unbounded integer, and the ctypes result width is not modelled. The 16-bit mask gives the same result for any width.
- The bit-vector form of the mask: there is no proof that the `% 0x10000` in `LanguageId` equals a bitwise `& 0xFFFF` on a `bv32` handle. That equality is only argued in `LanguageId`'s doc comment.
- `Keymap.Invert` requires an injective map. The Python comprehension also accepts a non-injective map (the later pair wins), but it is only applied to `en_to_he`, which is injective.
- `Keymap.Lower` lowers ASCII A-Z only. Code points that lower to ASCII under full Unicode rules are not captured, for example U+212A KELVIN SIGN to 'k'. Length preservation does not depend on this.
- Clipboard library exceptions are left out, so the no-restore path on a failed clipboard call is not modelled. A paste is logged; how it edits the field's text is not modelled.
- How the focused application copies is outside the source. The model assumes that copying with nothing selected, or with an empty selection, leaves the clipboard unchanged, as most applications do.
- Hotkey dispatch (`on_key_press`), the keyboard listener, `stop_listener` and process start-up (`main.py:79-113`) are event plumbing.
- `core/tray.py`: configuration file I/O, the Windows Run key and the tray menu. The configuration is passed to the monitor as a map.
- The module-level import of `load_config` from `core.tray` and the undefined `main()` at `core/taskbar.py:131` are broken in the source. The configuration that `load_config` would return is a parameter of `Start` and `OnConfigChange`.
