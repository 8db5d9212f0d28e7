# vi.py editing core in Dafny

This project models the `Editor` class of vi.py, a minimal vi-style terminal
editor with support for wide (CJK) characters. The editor is a sequential
state machine over five fields:

- `buffer`, the list of lines;
- `pos`, the cursor as (line, codepoint column);
- `mode`, one of command, insert or visual;
- `visual_start`, the selection anchor;
- `utf8buffer`, the input bytes still waiting to form a character.

`handle_input` takes one integer key code from curses and dispatches it to
the handler for the current mode:

- `handle_command` enters insert or visual mode and moves the cursor with h/j/k/l.
- `handle_insert` does four things:
  - decodes UTF-8 incrementally;
  - splits the line on Enter;
  - deletes the character before the cursor on backspace;
  - inserts decoded text.
- `handle_visual` deletes the selection, or leaves visual mode, or moves the cursor.

Two read-only helpers, `buffer2x` and `pos2buffer`, convert between codepoint
columns and screen columns. They count a code point above 127 as two cells.

The project has these modules:

- `Options`: the `Option` datatype.
- `Keys`: the key codes the editor reacts to. `curses.KEY_BACKSPACE` is ncurses' 263.
- `Utf8`: UTF-8 as RFC 3629 defines it.
  - Decoding follows the syntax of RFC 3629 section 4, and encoding follows the bit layout of RFC 3629 section 3.
  - Both round trips are proved.
  - `Feed` is the decoding step of `handle_insert`.
  - Python's strict `bytes.decode("utf-8")` is replaced by `Decode`.
- `Width`: cell widths. It specifies `buffer2x` and `pos2buffer`, and proves their round trip on non-empty lines.
- `Lines`: the line-buffer edits:
  - split on Enter;
  - insertion;
  - backspace;
  - deletion of a visual selection.
- `Cursor`: the h/j/k/l motions.
- `EditorState`: the editor's fields as a `State` value.
  - It has one step function per handler and the invariant `Valid`.
  - Lemmas state what each key does.
- `Vi`: the class `Editor` with the five fields as mutable fields.
  - Its methods mirror the branches of the Python handlers. The decoding step is a call to `Utf8.Feed`, and the new buffer is built in a local and assigned once at the end.
  - Each handler is proved to leave `Snapshot()` equal to the matching step function applied to the old snapshot.
  - `HandleInput` is also proved to keep `Valid()`.
  - `Buffer2X` and `Pos2Buffer` are the accumulator loops, proved against `Width`.

## Model

| member | source | states |
|---|---|---|
| `Vi.Editor.constructor` | vi.py:17-31 | A new editor is in command mode at (0, 0), with no anchor and no pending bytes. Its buffer is the loaded lines, or one empty line when nothing was loaded. The invariant holds. |
| `Vi.Editor.HandleInput` | vi.py:49-56 | Dispatches on the mode. It always returns true. It keeps the invariant: at least one line, the cursor in bounds, the anchor set exactly in visual mode and in bounds, and nothing pending outside insert mode. The new fields are `Input` of the old ones. |
| `Vi.Editor.HandleCommand` | vi.py:58-85 | It always returns true, `:` included. The new fields are `CommandKey` of the old ones. |
| `Vi.Editor.HandleInsert` | vi.py:87-117 | It always returns true. The new fields are `InsertKey` of the old ones. |
| `Vi.Editor.HandleVisual` | vi.py:119-148 | It always returns true. The new fields are `VisualKey` of the old ones. |
| `Vi.Editor.Buffer2X` | vi.py:182-188 | The result is the display width of the first p characters of line y, with p clamped to the line's length. It lies between the clamped p and twice it. |
| `Vi.Editor.Pos2Buffer` | vi.py:169-180 | The result is `ScreenToColumn` of line y and x: the first index whose prefix is at least x cells wide, or else the end-of-line extrapolation. |
| `EditorState.Valid` | vi.py:19-24 | The invariant: at least one line, the cursor on a line and within its columns (the past-end column included), the anchor set exactly in visual mode and then in bounds, and pending bytes only in insert mode. |
| `EditorState.Initial` | vi.py:19-31 | The start state is valid, in command mode at (0, 0). Its buffer is the loaded lines, or [""] when nothing was loaded. |
| `EditorState.CommandKey` | vi.py:58-85 | The buffer and pending bytes are unchanged and the cursor stays in bounds. A motion key changes only the cursor, to `Motion`. From a valid command-mode state the result is valid. |
| `EditorState.InsertKey` | vi.py:87-115 | The anchor is unchanged. The pending bytes are those `Feed` leaves. The mode becomes command exactly on ESC. From a valid insert-mode state the result is valid. |
| `EditorState.VisualKey` | vi.py:119-146 | The pending bytes are unchanged. From a valid visual-mode state the result is valid. |
| `EditorState.Input` | vi.py:49-56 | Every key keeps the invariant. |
| `EditorState.MotionKeepsMode` | vi.py:68-81 | In command or visual mode, h/j/k/l change only the cursor, to `Motion`. Buffer, mode and anchor stay. |
| `EditorState.ModeEntry` | vi.py:59-67 | `i` switches to insert mode in place. `a` moves right when it can, then switches to insert mode. `v` switches to visual mode with the anchor at the cursor. |
| `EditorState.CommandOtherKeys` | vi.py:58-85 | In command mode every other key leaves the state unchanged. `:` does too, since the ex command's verdict is discarded. |
| `EditorState.EscapeFromInsert` | vi.py:95-101 | ESC in insert mode goes to command mode and empties the pending bytes. It leaves the buffer unchanged. It moves one column left, except at column 0. |
| `EditorState.EnterSplitsLine` | vi.py:102-106 | Enter replaces the line with its text before the cursor, followed by a new line with the rest. Joining the two gives back the buffer. The cursor goes to (line + 1, 0). |
| `EditorState.InsertOtherKeys` | vi.py:88-115 | In insert mode, a key that is not ESC, Enter or a backspace changes neither buffer, cursor nor mode when it is a control code, a special key of 256 or more, or a byte whose run does not decode. Only the pending bytes change, as `Feed` leaves them. |
| `EditorState.TabIgnored` | vi.py:89-112 | With nothing pending, a tab decodes, but the raw code is a control code, so the state is unchanged. |
| `EditorState.TypingInserts` | vi.py:88-115 | Consider a key code from 32 to 255 other than DEL whose bytes complete a well-formed run. The decoded text goes in at the cursor, and the cursor moves past it. Nothing is left pending. |
| `EditorState.BackspaceInInsert` | vi.py:107-111 | DEL or KEY_BACKSPACE removes the character before the cursor and moves left. At column 0 it changes neither buffer nor cursor, so it never joins lines. |
| `EditorState.ThreeByteCharTyped` | vi.py:88-115 | The three bytes of a three-byte character are fed one at a time. The first two only add to the pending bytes. The third inserts exactly that character, moves one column right and empties the pending bytes. |
| `EditorState.LeaveVisual` | vi.py:120-144 | ESC or `y` in visual mode goes to command mode and drops the anchor. Nothing else changes. |
| `EditorState.VisualDeleteSymmetric` | vi.py:123-140 | `d` gives the same state when anchor and cursor are swapped. Afterwards the buffer is `DeleteSelection` of the old buffer and the two ends, the mode is command and there is no anchor. The cursor is the earlier of the two ends, as `Ordered` gives it. |
| `EditorState.VisualDeleteEmpty` | vi.py:123-140 | `d` with the anchor on the cursor leaves the buffer unchanged. |
| `EditorState.VisualOtherKeys` | vi.py:119-148 | In visual mode, keys other than ESC, d, y, h, j, k and l leave the state unchanged. |
| `EditorState.TypeAtStartExample` | vi.py:59-115 | From ["hello"], the keys i, X, ESC give ["Xhello"], with the cursor back at (0, 0) in command mode. |
| `Lines.SplitLine` | vi.py:102-106 | The buffer grows by one line. The line at the cursor keeps its first col characters, and together with the next line it spells the old line. The lines before it are unchanged, and the lines after it are shifted by one. |
| `Lines.SplitInTwoSteps` | vi.py:103-105 | Truncating the line and then inserting the rest after it is `SplitLine`. |
| `Lines.JoinLines` | vi.py:102-106 | Joining two adjacent lines removes one line. |
| `Lines.SplitThenJoin` | vi.py:102-106 | Splitting at any position and then joining the two halves restores the buffer. |
| `Lines.InsertText` | vi.py:113-115 | The line becomes its prefix, then s, then its suffix. Every other line is unchanged. The new cursor column col + \|s\| is in bounds. |
| `Lines.DeleteBefore` | vi.py:108-111 | Exactly the character at col - 1 goes. The characters before it stay and those after it shift left by one. Every other line is unchanged. |
| `Lines.TypeThenBackspace` | vi.py:107-115 | Inserting one character and then deleting the character before the new cursor restores the buffer. |
| `Lines.After` | vi.py:127 | The swap test: a comes after b when its line is later, or the lines are equal and its column is later. |
| `Lines.Ordered` | vi.py:125-129 | The two ends are anchor and cursor, in some order, with the first not after the second. |
| `Lines.DeleteRange` | vi.py:130-138 | The lines before the start stay. The start line becomes its text before the start column, followed by the end line's text from the end column. Next come the lines after the end line. |
| `Lines.DeleteSelection` | vi.py:123-138 | The buffer keeps at least one line, and the start of the selection is in bounds of the new buffer. |
| `Lines.DeleteSelectionSymmetric` | vi.py:125-129 | Normalising and deleting do not depend on which end is the anchor. |
| `Lines.DeleteEmptySelection` | vi.py:130-133 | An empty selection deletes nothing. |
| `Lines.DeleteWithinLine` | vi.py:130-133 | On one line, the deletion is the item assignment that splices the columns out. |
| `Lines.DeleteAcrossLines` | vi.py:134-138 | Across lines, the deletion is an item assignment of the joined text followed by removing the lines after it up to the end line. |
| `Lines.DeleteAcrossLinesExample` | vi.py:134-138 | Deleting from (0, 1) to (1, 1) in ["ab", "cd"] gives ["ad"], whichever end is the anchor. |
| `Keys.IsCtrl` | vi.py:112 | `curses.ascii.isctrl` applied to the raw key code: a code from 0 to 31. DEL (127) is not a control code for it. |
| `Cursor.MoveLeft` | vi.py:68-70 | The line stays. The column drops by one, or stays at 0. |
| `Cursor.MoveRight` | vi.py:71-73 | The line stays. The column grows by one, or stays at the line's length. |
| `Cursor.MoveDown` | vi.py:74-77 | Moves to the next line when there is one, with the column clamped to that line's length. On the last line nothing changes. |
| `Cursor.MoveUp` | vi.py:78-81 | Moves to the previous line when there is one, with the column clamped to that line's length. On the first line nothing changes. |
| `Cursor.Motion` | vi.py:68-81 | Every motion keeps the cursor in bounds. |
| `Cursor.MotionSteps` | vi.py:68-81 | h and l change the column by exactly one, within [0, length]. j and k change the line by exactly one, to a line that exists, and clamp the column. Each motion leaves the cursor in place exactly when it cannot be made. |
| `Utf8.SequenceLength` | vi.py:91 | A lead byte starts a character of at most four bytes. No character starts with 80–C1 or F5–FF. |
| `Utf8.DecodeChar` | vi.py:91 | A decoded character takes the number of bytes its lead byte announces. A one-byte character is its byte's code. |
| `Utf8.Decode` | vi.py:91 | Decoded text has at most as many characters as there are bytes. It is empty exactly when the bytes are. |
| `Utf8.EncodeChar` | vi.py:91 | One to four bytes. One byte exactly below U+0080, three exactly from U+0800 to U+FFFF. |
| `Utf8.Encode` | vi.py:91 | A text of n characters takes n to 4n bytes. |
| `Utf8.DecodeCharOfEncodeChar` | vi.py:91 | The front character of an encoding decodes back to itself, whatever follows it. |
| `Utf8.EncodeCharOfDecodeChar` | vi.py:91 | A decoded character's encoding is exactly the bytes it was decoded from. |
| `Utf8.DecodeEncode` | vi.py:91 | Every text decodes back from its encoding. |
| `Utf8.EncodeDecode` | vi.py:91-92 | Well-formed bytes are exactly the encoding of what they decode to. |
| `Utf8.TruncatedCharFails` | vi.py:91-94 | A multi-byte character cut short fails to decode. |
| `Utf8.InvalidRunIsFinal` | vi.py:93-94 | A run that fails with all the bytes its lead byte needs can never decode, whatever is appended. |
| `Utf8.Feed` | vi.py:88-96 | A code below 256 other than ESC yields exactly the decoding of the pending bytes plus the key, and anything else yields nothing. On success, nothing stays pending and the text is non-empty. The text's encoding is the old pending bytes plus the key. On failure with a code below 256 other than ESC, the byte is appended to the pending bytes. ESC or a code of 256 or more clears them. |
| `Utf8.FeedAscii` | vi.py:89-92 | An ASCII code other than ESC, with nothing pending, decodes at once to itself. |
| `Utf8.FeedThreeBytes` | vi.py:88-96 | The three bytes of a three-byte character, fed one at a time, yield nothing, then nothing, then exactly that character. The pending bytes end empty. |
| `Utf8.FeedKeepsDeadRun` | vi.py:93-94 | C3 followed by 'A' is kept pending, and it never decodes whatever follows. |
| `Width.CharWidth` | vi.py:186 | A character takes one or two cells. |
| `Width.DisplayWidth` | vi.py:184-188 | The sum of the cell widths of the text's characters, 2 above code point 127 and 1 otherwise. It is at least one cell per character, and exactly that when every character is ASCII. |
| `Width.WidthBounds` | vi.py:182-188 | n characters take n to 2n cells. |
| `Width.PrefixWidthIncreasing` | vi.py:175-179 | Longer prefixes are strictly wider. So the scan of `pos2buffer` finds the first prefix at least x wide. |
| `Width.ColumnFrom` | vi.py:175-180 | The enumerate scan from index i. When some index from i on has a prefix at least x cells wide, the result is the first such index: it is a hit, and every index from i before it misses. When no index hits, the result is the line's length plus the cells still missing, the end formula of vi.py:180. Inside a wide last character that formula rounds down to a column that is not a hit. |
| `Width.ScreenToColumn` | vi.py:169-180 | `pos2buffer` on one line. On an empty line it is x + 1. On a non-empty line, any x of 0 or less gives 0, and otherwise the result is `ColumnFrom` from index 0. |
| `Width.ScreenToColumnOfWidth` | vi.py:169-188 | On a non-empty line, mapping the screen column of codepoint column p back gives p, for every p up to the line's length. |
| `Width.ScreenToColumnPastEnd` | vi.py:180 | On a non-empty line, a screen column at or beyond the line's width maps to its length plus the excess. |
| `Width.ScreenToColumnEdgeCases` | vi.py:175-180 | Inside a wide first character followed by more text, the column rounds up. Inside a wide last character it rounds down. On an empty line every column x maps to x + 1. |

## Left out

- Terminal I/O is not modelled: `main_loop`, `refresh`, `getch`, `getstr`, echo and the screen size. It has no effect on the editor's fields.
- `load_file` and `save_file` are file I/O. The constructor takes the lines `load_file` would have read, and an empty file gives [""].
- `handle_ex_command` reads a line from the terminal and may write the file. Its verdict is discarded by `handle_command`, so the `:` key is modelled as leaving the state unchanged.
- `locale.setlocale` and the script's entry point are process setup.
- Python's UTF-8 codec is replaced by RFC 3629 `Utf8.Decode`. Python's strict decoder accepts the same byte sequences.
- Negative key codes in insert mode are not modelled. `bytes()` raises a ValueError on them and the editor stops, so `HandleInput` requires a non-negative code in insert mode.
- The in-place list operations on `buffer` and `utf8buffer` become reassignments of `seq` fields. Those operations are item assignment, `insert`, `del` of a slice and `append`. The lists are never aliased outside the editor, so no sharing is lost.
- `Vi.Editor.Pos2Buffer` and `Vi.Editor.Buffer2X` take a line index below the number of lines, and `Buffer2X` takes a non-negative p. Python's negative indices and slice bounds, which count from the end, are not modelled. The screen painter only passes the cursor's own line and column, which are never negative.
