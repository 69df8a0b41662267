# slime: text buffer, cursor and keystroke model

slime is a small terminal text editor written in Rust. This project models its core in Dafny and proves properties of the model. The core has three parts:

- **Row** (`src/row.rs`): one line of text, addressed by grapheme-cluster index, with a cached cluster count `len`.
- **Document** (`src/document.rs`): the ordered rows, a `dirty` flag and an optional file path. It supports position-addressed insert, the Enter split, forward delete with line merging, `insert_str`, and the newline-terminated serialisation written by `save_to_disk`.
- **Editor** (`src/editor.rs`): the cursor and viewport. This covers `process_move`, `scroll`, the keystroke dispatch of `process_keyboard` with its `quit_times` counter, and the line-editing loop of `prompt`.

Each part is modelled in the form the source has:

- **Row, Document and Editor are classes** whose methods update their fields in place.
  - Each method is proved against a pure specification function on plain values:
    - `Rows.InsertAt` for `Row::insert`;
    - `Documents.Inserted` for `Document::insert`;
    - `Editors.Moved` for `process_move`;
    - `Editors.Edited` for what a keystroke does to the rows and the cursor, and so on.
  - Lemmas about these functions state what the source promises: round trips, clamping, wrapping and the quit counter's arithmetic.
- **A row's text** is a `seq<Cluster>`. A `Cluster` stands for the UTF-8 bytes of one grapheme; the model only requires them to be non-empty, and does not enforce UTF-8 validity. A `char` typed into a row becomes one cluster, its UTF-8 encoding (`Rows.Utf8`). Grapheme segmentation itself stays abstract.
- **Rust's `usize` saturating arithmetic** is written out (`Common.SatAdd` and `Common.SatSub`, at 2^64 - 1 and 0). The terminal size is a `u16` and `quit_times` a `u8`.
- **The document's rows** are row objects, pairwise distinct, each keeping `len` equal to its cluster count (`Document.Valid`). `Document.Lines()` is the sequence of their texts. `row` and `row_mut` are both `RowAt`, and `is_dirty` is the plain getter `IsDirty`.

The following quirks are modelled as the code is written:

- `Row::insert_str` at an interior index builds the new string and never stores it, so the row is unchanged.
- `Document::delete` and `Document::insert_str` never set `dirty`.
- `Document::insert` sets `dirty` for every row index up to one past the last row. This includes a newline there, which changes no row.
- Moving Down or PageDown past the last row clamps x against the missing row, so x becomes 0.
- `save_to_disk` without a path writes nothing and still clears `dirty`.

## Model

| member | source | states |
|---|---|---|
| Rows.Utf8 | src/row.rs:33 | the cluster `String::push(ch)` adds has 1 to 4 bytes, and exactly one byte holding `ch` when `ch` is ASCII |
| Rows.ByteLenAtLeastClusterCount | src/row.rs:11-13 | a row's byte length is never less than its cluster count, so the byte clamp in `render` never cuts a cluster |
| Rows.InsertAt | src/row.rs:31-42 | the result is one cluster longer, has `c` at min(at, len), and gives back the original when that cluster is removed |
| Rows.InsertRunAt | src/row.rs:43-53 | at or past the end the run is appended after the old text; at an interior index the text is unchanged |
| Rows.RemoveAt | src/row.rs:54-62 | below the length exactly the cluster at `at` is removed, and the length drops by one; otherwise nothing changes |
| Rows.CutSlice | src/row.rs:63-76 | a slice is returned exactly when from < to <= len; it holds to - from clusters, and what remains plus the slice put back at `from` is the original; otherwise the text is unchanged |
| Rows.Untab | src/row.rs:20-24 | a tab is shown as a single space, never as a tab, and every other cluster is shown as itself |
| Rows.Rendered | src/row.rs:11-27 | empty when start >= end; otherwise min(end, n) - min(start, n) clusters taken from min(start, n), with each tab replaced by a space |
| Rows.InsertThenRemoveRestores | src/row.rs:31-62 | `insert(at, c)` followed by `delete(at)` restores the text for every `at <= len` |
| Rows.CutTailSplits | src/row.rs:63-76 | `delete_slice(k, len)` with k < len returns a slice, and the remaining text followed by that slice is the original |
| Rows.Row.Empty | src/row.rs:4-8 | `Row::default()` is an empty row whose `len` is 0 |
| Rows.Row.From | src/row.rs:88-112 | both `From` constructors hold the given text with `len` equal to its cluster count |
| Rows.Row.Size | src/row.rs:28-30 | `size` equals the cached `len` whenever the row is consistent |
| Rows.Row.AsBytes | src/row.rs:80-82 | the row's bytes are at least as many as its clusters |
| Rows.Row.UpdateLen | src/row.rs:83-85 | afterwards `len` equals the cluster count |
| Rows.Row.Render | src/row.rs:11-27 | the loop over the byte-clamped range returns exactly `Rendered(text, start, end)` |
| Rows.Row.Insert | src/row.rs:31-42 | the new text is `InsertAt(old text, at, Utf8(ch))`, and `len` stays consistent |
| Rows.Row.InsertStr | src/row.rs:43-53 | the new text is `InsertRunAt(old text, at, s)`, so nothing changes at an interior index; `len` stays consistent |
| Rows.Row.Delete | src/row.rs:54-62 | the new text is `RemoveAt(old text, at)`, and `len` stays consistent |
| Rows.Row.DeleteSlice | src/row.rs:63-76 | the returned slice and the new text are `CutSlice(old text, from, to)`, and `len` stays consistent |
| Documents.Split | src/document.rs:105-115 | past the last row nothing changes; otherwise row y keeps its first min(x, len) clusters, a new row y+1 holds the rest, earlier rows stay and later rows shift down by one |
| Documents.SplitInTwoSteps | src/document.rs:107-113 | cutting the row in place and then inserting the new row after it gives `Split` |
| Documents.Inserted | src/document.rs:37-54 | past one-past-the-last row nothing changes; a newline gives `Split`; one past the last row a row holding just `ch` is appended; otherwise only row y changes, by `InsertAt` |
| Documents.InsertedRun | src/document.rs:55-64 | one past the last row a row holding `s` is appended; within row y with x at or past its end, `s` is appended to that row alone; at an interior x, or further out, nothing changes |
| Documents.Deleted | src/document.rs:65-82 | at the end of a row with a successor, the successor is appended to it and removed (one row fewer, others untouched); otherwise within the document only row y changes, by `RemoveAt`; past the last row nothing changes |
| Documents.JoinInTwoSteps | src/document.rs:69-72 | appending the next row in place and then removing it gives `Deleted` |
| Documents.SplitThenDeleteRestores | src/document.rs:37-115 | inserting a newline at (x, y) and then deleting at (x, y) restores the rows whenever x <= len(row y) |
| Documents.Serialized | src/document.rs:86-89 | the bytes written: every row's bytes and a newline, so never fewer bytes than rows |
| Documents.SerializedAppend | src/document.rs:86-89 | serialising one more row appends that row's bytes and a newline |
| Documents.SerializedEndsWithLastRow | src/document.rs:86-89 | the bytes of a non-empty document end with the last row's bytes followed by a newline |
| Documents.Document.Empty | src/document.rs:8-13 | `Document::default()` has no path and no rows, and is clean |
| Documents.Document.RowAt | src/document.rs:98-104 | `row_mut`, and `row` at src/document.rs:28-30 as well: there is a row exactly when the index is below the row count, and it is the row at that index |
| Documents.Document.RowsSize | src/document.rs:31-33 | the number of rows |
| Documents.Document.IsEmpty | src/document.rs:34-36 | true exactly when the document has no rows |
| Documents.Document.IsDirty | src/document.rs:95-97 | returns the `dirty` flag, which `insert` sets and `save_to_disk` clears |
| Documents.Document.Insert | src/document.rs:37-54 | the new rows are `Inserted(old rows, at, ch)`; `dirty` becomes true exactly when at.y <= the old row count, and stays otherwise |
| Documents.Document.AppendRowWith | src/document.rs:46-49 | a row holding just `ch` is pushed after the others |
| Documents.Document.InsertWithinRow | src/document.rs:50-53 | only row y changes, to `InsertAt(row y, x, Utf8(ch))` |
| Documents.Document.InsertStr | src/document.rs:55-64 | the new rows are `InsertedRun(old rows, at, s)`, and `dirty` and `path` are unchanged |
| Documents.Document.InsertStrWithinRow | src/document.rs:60-63 | only row y changes, to `InsertRunAt(row y, x, s)` |
| Documents.Document.Delete | src/document.rs:65-82 | the new rows are `Deleted(old rows, at)`, and `dirty` and `path` are unchanged |
| Documents.Document.JoinWithNext | src/document.rs:68-75 | the merge branch gives `Deleted` |
| Documents.Document.DeleteWithinRow | src/document.rs:79-80 | the single-row branch gives `Deleted` |
| Documents.Document.InsertEnterKey | src/document.rs:105-115 | the new rows are `Split(old rows, at)`, and `dirty` and `path` are unchanged |
| Documents.Document.SplitOffTail | src/document.rs:107-112 | row y becomes its head, and a fresh valid row holds the tail |
| Documents.Document.CutRowTail | src/document.rs:110 | `delete_slice(x, size)` on row y returns what `CutSlice` cuts and leaves the head |
| Documents.Document.InsertRow | src/document.rs:113 | `Vec::insert`: the new row is placed at k and the other rows keep their order and contents |
| Documents.Document.RemoveRow | src/document.rs:72 | `Vec::remove`: the row at k is dropped and the others keep their order |
| Documents.Document.SaveToDisk | src/document.rs:83-94 | with a path and a writable file, exactly `Serialized(rows)` is written and the document becomes clean; without a path nothing is written and it still becomes clean; a refused file leaves `dirty` alone |
| Editors.Step | src/editor.rs:442-480 | the raw step: the vertical keys keep the column, Home and End keep the row, Left and Right change the row by at most one, Up, PageUp and Home never go right or down, Down and PageDown never go up, and any other key does not move |
| Editors.Clamp | src/editor.rs:481-486 | the clamped position is always a valid cursor |
| Editors.Moved | src/editor.rs:438-490 | after any move the cursor is valid, y <= max(rows - 1, 0), and on an empty document it is (0, 0) |
| Editors.MoveLeftWraps | src/editor.rs:443-454 | Left at column 0 goes to the end of the previous row, and stays put at (0, 0) |
| Editors.MoveRightWraps | src/editor.rs:455-466 | Right at the end of a row with a successor goes to (0, y+1); at the end of the last row it stays put; elsewhere it moves one cluster right |
| Editors.MoveDownOvershootResetsColumn | src/editor.rs:467-486 | Down or PageDown past the last row lands on the last row at column 0 |
| Editors.MoveUpSaturates | src/editor.rs:467-487 | Up and PageUp stop at row 0 and keep the column, capped at the target row's length |
| Editors.ScrollAxis | src/editor.rs:420-433 | one axis of `scroll`: an offset that already shows the cursor is kept; with an extent of at least 1 the new offset never passes the cursor, and the cursor ends up visible, offset <= pos < offset + extent |
| Editors.Scrolled | src/editor.rs:414-436 | the new offset: unchanged when the cursor is already in view; with a text area of at least one column and one row, the cursor ends up inside it |
| Editors.ScrollIsNearestVisible | src/editor.rs:423-433 | the new offset is the old one clamped into the range of offsets that show the cursor |
| Editors.ScrollIdempotent | src/editor.rs:423-433 | scrolling a second time changes nothing |
| Editors.CommandOf | src/editor.rs:339-401 | the arm a key takes: Enter (with any modifiers) takes the newline arm; exactly Ctrl-C, Ctrl-S and Ctrl-F are the quit, save and search arms; a `Char` without Control is typed as itself; the moves carry their own key, and Ctrl-Home and Ctrl-End are not plain moves; Esc and unbound keys do nothing |
| Editors.Edited | src/editor.rs:339-402 | what each arm does to the rows and the cursor: Ctrl-C, unbound keys and (in this model) save and search change neither; the moves and Ctrl-Home and Ctrl-End leave the rows alone; Backspace at (0, 0) changes nothing; Backspace and Delete never add a row; Delete keeps the cursor |
| Editors.EditedKeepsCursorValid | src/editor.rs:338-402 | every keystroke arm leaves a valid cursor valid on the edited rows |
| Editors.DeletePreservesCursorValid | src/editor.rs:388-390 | deleting at a valid cursor leaves it valid |
| Editors.TypeThenBackspaceRestores | src/editor.rs:378-387 | in a non-empty document, typing a character and then pressing Backspace restores the rows and the cursor |
| Editors.EnterThenBackspaceRestores | src/editor.rs:341-387 | pressing Enter and then Backspace restores the rows and the cursor, on any document, the empty one included |
| Editors.BackspaceAtLineStartJoins | src/editor.rs:382-387 | Backspace at the start of a row after the first appends that row to the previous one, and the cursor lands at the seam |
| Editors.AfterKey | src/editor.rs:347-407 | after one key, `should_quit` is set exactly when it was set already or the key is Ctrl-C without a warning due; the counter drops, by one, exactly on a warned Ctrl-C |
| Editors.PressesNeeded | src/editor.rs:347-407 | with q presses left on a dirty document, k Ctrl-C presses quit exactly when k > q |
| Editors.AlreadyQuit | src/editor.rs:357 | once set, `should_quit` stays set under further Ctrl-C presses |
| Editors.QuitNeedsFourPressesWhenDirty | src/editor.rs:347-358 | from `QUIT_TIMES` = 3, a dirty document quits exactly from the fourth Ctrl-C on; a clean one quits on the first |
| Editors.OtherKeyResetsCounter | src/editor.rs:404-407 | any other key refills `quit_times` to 3 and does not quit |
| Editors.PromptStep | src/editor.rs:231-258 | one poll: a closed prompt never reopens; only Enter, Ctrl-J or Esc close it; the text changes only by one character added or removed at the end, or by being emptied |
| Editors.RunPrompt | src/editor.rs:225-259 | the loop uses at most the polls given; if the prompt is still open it was open and used them all; a closed prompt uses none |
| Editors.Answer | src/editor.rs:261-265 | the answer is none exactly when the text is empty, and otherwise it is the text |
| Editors.TypingAppends | src/editor.rs:241-243 | typing characters into an open prompt appends them and keeps it open |
| Editors.TypeThenEnterAnswers | src/editor.rs:235-265 | typing a line and pressing Enter (with any modifiers) or Ctrl-J closes the prompt and answers that line, or none when it is empty |
| Editors.PromptRunsAppend | src/editor.rs:227-259 | running the loop over two input streams in turn is the same as running it over their concatenation |
| Editors.EscCancels | src/editor.rs:247-265 | Esc closes the prompt with an empty text, so it answers none |
| Editors.BackspacePops | src/editor.rs:244-246 | Backspace removes the last character, and does nothing to an empty line |
| Editors.Editor.Default | src/editor.rs:73-99 | a fresh editor has its cursor and offset at (0, 0), `quit_times` at 3, and is not quitting |
| Editors.Editor.Scroll | src/editor.rs:414-436 | the new offset is `Scrolled(cursor, old offset, width, height)` |
| Editors.Editor.ProcessMove | src/editor.rs:438-490 | the new cursor is `Moved(key, old cursor, rows, height)` |
| Editors.Editor.StepCursor | src/editor.rs:439-480 | the unclamped position is `Step(key, cursor, rows, height)` |
| Editors.Editor.ProcessKeyboard | src/editor.rs:338-412 | for the key's arm: the rows and cursor become `Edited`; the quit counter follows `AfterKey`; `dirty` is set only by typing or Enter on an existing or next row; the offset is scrolled, except after a warned Ctrl-C (and Ctrl-F, see below) |
| Editors.Editor.ProcessCommand | src/editor.rs:339-411 | the same contract, once the arm is known |
| Editors.Editor.QuitKey | src/editor.rs:347-409 | Ctrl-C follows `AfterKey`; after a warning the offset is untouched, otherwise it is scrolled |
| Editors.Editor.EditKey | src/editor.rs:341-409 | every other arm edits as `Edited` says, then refills `quit_times` and scrolls (Ctrl-F excepted, see below) |
| Editors.Editor.CtrlC | src/editor.rs:347-358 | a warning happens exactly when presses are left and the document is dirty, and uses one press; otherwise `should_quit` is set |
| Editors.Editor.Settle | src/editor.rs:404-409 | `quit_times` becomes 3 and the offset is scrolled |
| Editors.Editor.Apply | src/editor.rs:339-402 | each arm's effect on the rows, the cursor and `dirty` is what `Edited` and `Document.Insert` say |
| Editors.Editor.Navigate | src/editor.rs:364-399 | Ctrl-End, Ctrl-Home and the move keys change only the cursor, as `Edited` says |
| Editors.Editor.DeleteAtCursor | src/editor.rs:388-390 | Delete deletes at the cursor, which stays put and valid |
| Editors.Editor.InsertAndAdvance | src/editor.rs:341-381 | typing inserts at the cursor and then moves Right over the edited rows |
| Editors.Editor.DeleteBefore | src/editor.rs:382-387 | Backspace away from the origin moves Left and then deletes there |
| Editors.Editor.Prompt | src/editor.rs:221-266 | the loop ends in the state `RunPrompt` gives: the answer is `Answer` of its final text (none when empty), with the same open or closed state and the same number of polls used |

## Left out

- `src/terminal.rs` and `src/main.rs`: terminal I/O, raw mode, the event poll and process start-up.
- `Editor::run`, `refresh_screen`, every `draw_*` function, `die`, `StatusMessage` and every status-bar text: screen output and wall-clock time.
- `process_event` and terminal resize: `width` and `height` are fields set at construction, and no member changes them.
- `Editor::search` and `Document::find`: `find` is called but never defined in `src/document.rs`, so there is nothing to model.
- `Editor::save`: it asks for a file name through `prompt` and then calls `save_to_disk`. Both are modelled separately (`Editors.Editor.Prompt`, `Documents.Document.SaveToDisk`), but Ctrl-S is not wired to them.
- `Document::open`, and grapheme segmentation from the `unicode_segmentation` crate: clusters are given already segmented. Joining two rows is taken to give the concatenation of their clusters.
- The file system calls in `save_to_disk`:
  - the file being writable is the parameter `fileOk`;
  - a failure part-way through the rows (after `File::create` succeeded) is not modelled.
- Inside `prompt`:
  - `refresh_screen` and the caller's callback are left out;
  - `read_event` becomes a sequence of polls, where `None` is a poll that timed out;
  - `closed` is false when the sequence runs out first.
- Editors.Editor.ProcessKeyboard: says nothing about what Ctrl-S does to `dirty` and `path`, or about where Ctrl-F leaves the cursor and the offset (`search` scrolls by itself while it runs), because save and search are left out. The same holds for Editors.Editor.ProcessCommand, Editors.Editor.EditKey and Editors.Editor.Apply.
- Editors.MoveRightWraps: the one-cluster-right case assumes x < 2^64 - 1, where `saturating_add` would stop.
- Editors.TypeThenBackspaceRestores: assumes x < 2^64 - 1 for the same reason.
- Editors.ScrollAxis: the visibility clause assumes a cursor of at most 2^64 - 1, which is the `usize` range.
- Editors.Scrolled: the visibility clause assumes the same `usize` range.
- Editors.Step: the clause that Down and PageDown never go up assumes a row of at most 2^64 - 1, where `saturating_add` stops.
- Editors.ScrollIdempotent: assumes positions of at most 2^64 - 1, the same `usize` range.
- Editors.ScrollIsNearestVisible: assumes the cursor is below 2^64 - 1, where `saturating_add` would cap the offset.
