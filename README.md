# Clipboard manager core, modelled in Dafny

This project models the logic of `src-tauri/src/lib.rs` of a desktop
clipboard-history manager written in Rust with Tauri:

- **The clipboard history** (`ClipboardHistory`): a most-recent-first list of
  entries (`content`, `kind`, `timestamp`) bounded by `max_size`. Pushing an
  entry removes the first older entry with the same content and kind (the
  timestamp is ignored). The new entry goes to the front, and the last entry
  is dropped when the list is then longer than the bound. The commands that
  maintain the list are modelled as methods of the same class:
  `set_clipboard_item`, the trim in `save_config`, `delete_item` and
  `clear_history`.
- **The tray menu**: the labels and ids of the first ten history entries, the
  menu around them, and the menu-event handler that turns an id back into an
  action. The handler's Rust library calls are written out, namely
  `str::replace` and `usize::from_str` (for a 64-bit `usize`).
- **Popup placement**: the loop in the global-shortcut handler. It scales the
  cursor by each monitor's factor, finds the first monitor whose half-open
  rectangle holds the scaled cursor, and flips the popup to the left of or
  above the cursor when it would run off that monitor's right or bottom edge.

Files: `common.dfy` (Option, Min, Take), `history.dfy` (module `History`),
`tray.dfy` (module `Tray`), `placement.dfy` (module `Placement`).

The history methods do not require the class invariant `Valid()` (within the
bound, no duplicates). At start-up the history loaded from `history.json`
(lib.rs:392-395) is assigned as it is, without trimming or removing
duplicates. So each method is specified for any state and promises to keep
`Valid()` when it held before. The push lemmas are stated for arbitrary
lists, with the premise each needs:
- "at most one entry with the pushed key afterwards" needs at most one before,
  because `push` removes only the first match;
- "an existing entry keeps the length" needs the list to be within its bound.

A consequence shown by the over-capacity lemmas: lowering the bound in
`save_config` trims the list in memory but does not rewrite `history.json`.
After a restart before any further change, the untrimmed list is loaded
again. From then on, pushing a new entry keeps the length, because one entry
is inserted and one dropped (`PushedOverCapacityNew`). Pushing an entry that
is already present shortens the list by one, because its old copy is removed
as well (`PushedOverCapacityExisting`). So the list gets back to the bound only
through pushes of entries already present, deletes, a clear, or another
successful `save_config`, whose trim loop runs on every save even when the
maximum is unchanged (`SetMaxSize`).

## Model

| member | source | states |
|---|---|---|
| History.SameEntry | src-tauri/src/lib.rs:55 | two entries are duplicates exactly when they differ at most in their timestamp |
| History.Position | src-tauri/src/lib.rs:53-57 | the index found is that of the first entry with equal content and kind; None means no entry has them |
| History.RemoveAt | src-tauri/src/lib.rs:58 | `Vec::remove`: one element fewer, the elements before the index unchanged, those after shifted down by one |
| History.Deduped | src-tauri/src/lib.rs:52-58 | removing the first duplicate of the item shortens the list by exactly one when there is a duplicate; with none the list is unchanged |
| History.Pushed | src-tauri/src/lib.rs:51-65 | the list after a push: with `max_size >= 1` the item is first, every later entry comes from the old list, a list within the bound stays within it, and it grows by at most one |
| History.PushedShape | src-tauri/src/lib.rs:51-65 | with `max_size >= 1` the pushed item is at index 0, followed by a prefix of the old list minus its first duplicate; only the last entry is dropped, and only when the list would exceed the bound |
| History.PushedWithinBound | src-tauri/src/lib.rs:61-64 | a list no longer than `max_size` stays no longer than `max_size` |
| History.PushedOverCapacity | src-tauri/src/lib.rs:62-64 | an over-long list loses at most one entry per push, so it stays over the bound unless it was exactly one over |
| History.PushedOverCapacityExisting | src-tauri/src/lib.rs:52-64 | on an over-long list, pushing an entry already present shortens the list by exactly one |
| History.PushedOverCapacityNew | src-tauri/src/lib.rs:52-64 | on an over-long list, pushing a new entry leaves the length unchanged |
| History.PushedExisting | src-tauri/src/lib.rs:53-61 | pushing an entry whose content and kind are present, within the bound, keeps the length and puts the item at the front |
| History.PushedNew | src-tauri/src/lib.rs:61 | pushing a new entry below the bound yields exactly the item followed by the old list |
| History.PushedSingleCopy | src-tauri/src/lib.rs:53-61 | if at most one entry had the item's content and kind, at most one has them afterwards, and it is the front one when `max_size >= 1` |
| History.RemoveAtNoDuplicates | src-tauri/src/lib.rs:189 | removing an element keeps a duplicate-free list duplicate-free |
| History.PushedNoDuplicates | src-tauri/src/lib.rs:53-64 | a list without duplicates (content and kind) has none after a push |
| History.DedupedIsWithout | src-tauri/src/lib.rs:53-59 | with at most one duplicate, removing the first duplicate equals filtering out every duplicate |
| History.PushedIsMoveToFront | src-tauri/src/lib.rs:51-65 | on a list within its bound with at most one duplicate of the item, push = the item followed by all other entries in their old order, cut to `max_size` |
| History.ClipboardHistory.constructor | src-tauri/src/lib.rs:44-49 | `new`: empty list with the given bound |
| History.ClipboardHistory.Push | src-tauri/src/lib.rs:51-65 | the new list is `Pushed(old list)`, the bound is unchanged, the item is first when `max_size >= 1`, and `Valid()` is kept |
| History.ClipboardHistory.SetClipboardItem | src-tauri/src/lib.rs:158-169 | the history changes, by a push, only when the clipboard write succeeded; the result reports that outcome |
| History.ClipboardHistory.SetMaxSize | src-tauri/src/lib.rs:237-253 | if the config file write fails nothing changes and the result reports it; otherwise the bound becomes the new maximum and the list becomes its own prefix of length min(len, max) |
| History.ClipboardHistory.DeleteItem | src-tauri/src/lib.rs:187-189 | an index inside the list removes exactly that entry and keeps the others in order; any other index changes nothing |
| History.ClipboardHistory.Clear | src-tauri/src/lib.rs:203 | the list becomes empty and the bound is unchanged |
| Tray.Label | src-tauri/src/lib.rs:119-126 | a text of at most 20 chars is shown whole; a longer one as its first 20 chars plus "..."; any other kind as "Image " and the timestamp |
| Common.Take | src-tauri/src/lib.rs:118-120 | `take(n)` yields the prefix of length min(len, n) |
| Tray.LabelTruncatedIff | src-tauri/src/lib.rs:119-126 | a text label starts with the first min(20, n) chars; it carries "..." after char 20 exactly when n > 20, and only then is it longer than 20 chars |
| Tray.Decimal | src-tauri/src/lib.rs:129 | `format!("{}", i)` gives at least one digit, all decimal digits, and no leading zero |
| Tray.ParseUsize | src-tauri/src/lib.rs:425 | `parse::<usize>` succeeds only on an optional '+' followed by digits, with a value of at most `usize::MAX` |
| Tray.DecimalValue | src-tauri/src/lib.rs:129 | the digits of `format!("{}", n)` denote `n` |
| Tray.ParseDecimal | src-tauri/src/lib.rs:425 | parsing the decimal form of any `usize` yields that number |
| Tray.HistoryId | src-tauri/src/lib.rs:129 | an entry id is "history_" followed by a non-empty string of digits |
| Tray.ReplaceAll | src-tauri/src/lib.rs:425 | `str::replace` with a replacement no longer than the pattern never lengthens the string; a string shorter than the pattern is unchanged |
| Tray.ReplaceAllLeading | src-tauri/src/lib.rs:425 | a leading occurrence of the pattern is replaced and the rest of the string is then replaced on its own, so stripping "history_" from "history_" + t leaves `replace` of t |
| Tray.ReplaceAllAbsent | src-tauri/src/lib.rs:425 | `replace` leaves alone a string that lacks the pattern's first character |
| Tray.HistoryIdRoundTrip | src-tauri/src/lib.rs:424-431 | stripping "history_" from the id of entry i leaves its decimal form; the handler copies entry i when it exists and otherwise does nothing |
| Tray.HistoryIdInjective | src-tauri/src/lib.rs:129 | distinct indices get distinct ids |
| Tray.HistoryEntries | src-tauri/src/lib.rs:118-131 | min(10, len) entries are listed; the i-th has id `history_i` and the label of the i-th item |
| Tray.TrayMenu | src-tauri/src/lib.rs:108-139 | the menu is "Show History", a separator, the listed entries, a separator, "Quit" |
| Tray.HandleMenuEvent | src-tauri/src/lib.rs:414-434 | the action is Quit exactly for "quit" and ShowMain exactly for "show"; a copy happens only for a "history_" id whose rest, after `replace("history_", "")`, parses as a `usize` index below the history's length, and it copies the entry at that index |
| Tray.FixedEntriesHandled | src-tauri/src/lib.rs:414-423 | the menu's first entry opens the main window and its last one quits |
| Tray.HistoryEntryHandled | src-tauri/src/lib.rs:118-131 | menu entry j + 2 is the j-th listed item, with id `history_j` and that item's label; clicking it copies entry j of the current history if that exists and otherwise does nothing |
| Tray.MenuEntriesHandled | src-tauri/src/lib.rs:414-433 | for a menu built from one list and clicked while the history is another: "show" opens the main window, "quit" quits, the j-th history entry copies entry j of the current list or does nothing if there is none; for a menu built from the current list, every history entry copies the item it shows |
| Placement.Contains | src-tauri/src/lib.rs:327-330 | a point is on a monitor exactly when its offset from the top-left corner is below the width and the height; only a non-empty monitor contains anything |
| Placement.ContainsHalfOpen | src-tauri/src/lib.rs:327-330 | the top-left corner is on a non-empty monitor; the right and bottom edges are never on it |
| Placement.HoldsCursor | src-tauri/src/lib.rs:321-330 | the cursor, multiplied by the monitor's scale, has an offset from the corner below the width and the height; only a non-empty monitor holds it; at scale 1 this is the cursor itself being on the monitor |
| Placement.FirstHolding | src-tauri/src/lib.rs:318-331 | the index found is that of the first monitor whose half-open rectangle holds the cursor scaled by that monitor's factor; None means no monitor holds it |
| Placement.Axis | src-tauri/src/lib.rs:336-344 | the coordinate is kept when the popup fits; otherwise the coordinate becomes `p - size`, putting the popup's far edge at the cursor, so it ends on the monitor and the cursor stays within the popup |
| Placement.PopupPosition | src-tauri/src/lib.rs:314-348 | the unscaled cursor when the monitor list is unreadable or empty; on the monitor holding the cursor, with the window size known, the popup's right and bottom edges stay on that monitor; without it, the position is the scaled cursor, which lies on that monitor |
| Placement.PlacePopup | src-tauri/src/lib.rs:314-348 | the final position equals `PopupPosition`: the unscaled cursor if the monitor list is unreadable or empty; the flip rule on the first monitor holding the cursor; else the cursor scaled by the last monitor's factor |
| Placement.PopupOnHoldingMonitor | src-tauri/src/lib.rs:327-345 | on the holding monitor the popup's right and bottom edges stay on the monitor, the scaled cursor lies within the popup, and an axis that fits is not moved |
| Placement.FlipIff | src-tauri/src/lib.rs:337-344 | the popup is left of (above) the cursor exactly when `x + w` (`y + h`) exceeds the monitor's right (bottom) edge, and then it is at `x - w` (`y - h`) |
| Placement.PopupFallback | src-tauri/src/lib.rs:318-325 | if no monitor holds the cursor, the popup opens at the cursor scaled by the last monitor's factor |

## Left out

- The clipboard-monitor thread (lib.rs:455-529): a polling loop with sleeps, mutex locking and reads of the OS clipboard. It is concurrency and I/O; only the `push` it calls is modelled.
- Mutex locking around the history and config (`Arc<Mutex<..>>`): each command is modelled as one atomic method call.
- JSON persistence and config loading (lib.rs:172-173, 191-192, 205-206, 237-238, 276-289, 383-397): file I/O and serde serialisation.
- `write_to_clipboard` (lib.rs:79-99): Base64 and image decoding and clipboard plugin calls. In `SetClipboardItem` its outcome is the parameter `written`; in the tray handler the copy is the action `CopyToClipboard`.
- `get_history` and `get_config` (lib.rs:146-149, 214-217) return copies of the state; there is nothing to model beyond the fields.
- `save_config` apart from the history trim (lib.rs:226-244, 256-268): the config record, its JSON serialisation and the in-memory config update are not modelled. The config file write (lib.rs:238) is only the parameter `written` of `SetMaxSize`. Shortcut re-registration and the frontend event are plugin calls.
- History.ClipboardHistory.SetMaxSize: `ok` reports only the config write. An error from re-registering the shortcut or emitting the event (lib.rs:262-268) comes after the trim and is not modelled.
- History.ClipboardHistory.SetMaxSize: the trim rebuilds neither the tray menu nor `history.json` (the source calls neither `update_tray_menu` nor `fs::write` for the history there). A menu built before lowering the bound can still list entries that no longer exist; clicking one does nothing (`Tray.MenuEntriesHandled`).
- History.ClipboardHistory.SetClipboardItem: takes the whole entry as its parameter. The source builds it from `content`, `kind` and the clock (`Local::now()`, lib.rs:158-162). A `serde_json::to_string` failure after the push (lib.rs:172) would return an error with the history already pushed; `ok` does not reflect it.
- Tauri menu, tray, window and global-shortcut calls (lib.rs:102-116, 141, 298-313, 350-366, 372-454, 533-554): only the computed menu, ids, actions and positions are modelled. `update_tray_menu` returning early when the tray is not ready is not modelled.
- Placement.PlacePopup: the mouse position is a parameter. When it cannot be read the window is centred, which is also not modelled. The monitor list and the window size are `Option` parameters standing for `available_monitors()` and `outer_size()` succeeding or failing.
- Placement.PlacePopup: coordinates are unbounded integers. The model does not capture `i32` overflow in `x * scale`, `x + w` or `pos.x + width`, nor the wrap of the `u32` to `i32` width casts. The `f64` scale factor is taken as already truncated by `scale as i32`, so the float-to-int cast is not modelled.
- Tray.ParseUsize: assumes a 64-bit `usize`.
- Labels model Rust's `chars()` as Dafny characters (Unicode scalar values). Rendering of the labels is not modelled.
- src-tauri/src/commands.rs and src-tauri/src/screenshot.rs: database, filesystem, OCR and window commands, floating-point logical-size conversion, scoped threads, PNG encoding and Objective-C calls. The screenshot annotation canvas and region selection are front-end code that is not part of this model.
