# On-screen keyboard dialog of a PSP emulator, modelled in Dafny

PPSSPP emulates the PSP's system utility dialogs. One of them is the on-screen keyboard (OSK). A guest program hands `Init` the address of a parameter block. That block points to a data block, which holds:

- the addresses of three zero-terminated strings of 16-bit units: the description, the initial text and the output text (the last is also the buffer `Update` writes the text to);
- the text limit;
- the output length;
- a result code.

After that, the emulator calls `Update` once per frame. Each call does three things:

- It advances the utility status: INITIALIZE becomes RUNNING and FINISHED becomes SHUTDOWN.
- While RUNNING, it moves a cursor over a fixed 4 x 12 key grid and applies the controller buttons to an accumulated text:
  - cross types the key under the cursor;
  - select types it in upper case;
  - circle deletes the last character;
  - start asks to leave.
- On every call, whatever the status, it writes the text back to the guest as exactly `limit` 16-bit units, and writes the length, the result codes and both blocks back.

The dialog also draws a preview line and can be saved and restored with the emulator's save states.

The project has seven modules:

- `OskTypes` (`types.dfy`) defines:
  - 32-, 16- and 8-bit unsigned integers as newtypes;
  - the two guest blocks;
  - the utility status, the buttons and the result codes.
- `GuestMemory` (`guest_memory.dfy`) models guest memory as a class. It holds:
  - the set of valid addresses;
  - the contents, as three typed views (parameter blocks, data blocks and 16-bit units), where a missing entry reads as a cleared value;
  - a log of every write in order, so contracts can say exactly what the dialog wrote and when.
- `TextCodec` (`text_codec.dfy`) covers the UCS-2 to UTF-8 conversion:
  - a function on unit strings;
  - its inverse;
  - the loop method that reads a zero-terminated guest string.
- `KeyboardGrid` (`keyboard_grid.dfy`) holds the key table and cursor movement.
- `InputBuffer` (`input_buffer.dfy`) holds:
  - the limit;
  - the per-tick text action;
  - the 16-bit output units;
  - the characters of the preview line.
- `SessionRecord` (`session_record.dfy`) holds:
  - the session as a value, with its invariant;
  - the save-state record in field order, and its parser.
- `OskDialog` (`osk_dialog.dfy`) holds the class `OskSession`, with the methods `Init`, `Update`, `SaveState` and `LoadState`. Each method is proved against a pure function of the session:
  - `Update` against `Tick` and `TickWrites` (its first part, `Step`, against `Advance`);
  - `Init` against `Reset`, `Started` and `InitWrites`.

Where one might expect otherwise, the model follows the code:

- `Init` at an invalid address has already set the status to INITIALIZE and cleared the blocks, the text and the cursor. It returns -1 with that state in place.
- The output write-back runs on every `Update` call, in any status.
- The movement chain and the action chain are independent. One tick can move the cursor and type, and it types the key that was under the cursor before the move.
- The limit falls back to 14 only when `outtextlimit` is 0, because the field is unsigned.

## Model

| member | source | states |
|---|---|---|
| KeyboardGrid.KeyAt | Core/Dialog/PSPOskDialog.cpp:28-37 | the key at every grid index is printable, non-space ASCII |
| KeyboardGrid.RowsAreKeyChars | Core/Dialog/PSPOskDialog.cpp:31-37 | each of the 4 rows holds exactly 12 printable keys |
| KeyboardGrid.ToUpper | Core/Dialog/PSPOskDialog.cpp:230 | `toupper` maps lower-case letters to upper case (code minus 32) and leaves other characters unchanged |
| KeyboardGrid.ToUpperKeepsKeyChar | Core/Dialog/PSPOskDialog.cpp:230 | upper-casing a key gives a printable key character |
| KeyboardGrid.Move | Core/Dialog/PSPOskDialog.cpp:199-220 | cursor movement always lands back on the 48-key grid |
| KeyboardGrid.UpTarget | Core/Dialog/PSPOskDialog.cpp:199-202 | up goes one row back, or from the top row to the same column of the bottom row |
| KeyboardGrid.DownTarget | Core/Dialog/PSPOskDialog.cpp:203-206 | down goes one row on, or from the bottom row to the same column of the top row |
| KeyboardGrid.LeftTarget | Core/Dialog/PSPOskDialog.cpp:207-212 | left goes one key back, or from the first column to the last key of the same row |
| KeyboardGrid.RightTarget | Core/Dialog/PSPOskDialog.cpp:213-218 | right goes one key on, or from the last column to the first key of the same row |
| KeyboardGrid.MoveUp | Core/Dialog/PSPOskDialog.cpp:199-202 | up keeps the column and goes to the row above, wrapping from the top row to the bottom row |
| KeyboardGrid.MoveDown | Core/Dialog/PSPOskDialog.cpp:203-206 | down (without up) keeps the column and goes to the row below, wrapping from the bottom row to the top row |
| KeyboardGrid.MoveLeft | Core/Dialog/PSPOskDialog.cpp:207-212 | left (without up or down) keeps the row and goes one column left, wrapping within the row |
| KeyboardGrid.MoveRight | Core/Dialog/PSPOskDialog.cpp:213-218 | right (without another direction) keeps the row and goes one column right, wrapping within the row |
| KeyboardGrid.MoveNone | Core/Dialog/PSPOskDialog.cpp:199-220 | with no direction pressed, the cursor stays |
| KeyboardGrid.UpThenDown | Core/Dialog/PSPOskDialog.cpp:199-220 | up then down returns to the starting key |
| KeyboardGrid.DownThenUp | Core/Dialog/PSPOskDialog.cpp:199-220 | down then up returns to the starting key |
| KeyboardGrid.LeftThenRight | Core/Dialog/PSPOskDialog.cpp:207-220 | left then right returns to the starting key |
| KeyboardGrid.RightThenLeft | Core/Dialog/PSPOskDialog.cpp:207-220 | right then left returns to the starting key |
| KeyboardGrid.MoveWrapExamples | Core/Dialog/PSPOskDialog.cpp:199-220 | edge wraps: right from 11 gives 0, left from 0 gives 11, up from 3 gives 39, down from 47 gives 11 |
| TextCodec.EncodeUnit | Core/Dialog/PSPOskDialog.cpp:56-68 | a unit becomes 1, 2 or 3 bytes, split at 0x80 and 0x800; a one-byte result is the unit itself, and longer results have a lead byte of at least 0xC0 followed by continuation bytes |
| TextCodec.Ucs2ToUtf8 | Core/Dialog/PSPOskDialog.cpp:54-69 | a string's encoding is between 1 and 3 bytes per unit |
| TextCodec.DecodeFirst | Core/Dialog/PSPOskDialog.cpp:56-68 | the reference decoder of one sequence consumes between 1 byte and the whole input |
| TextCodec.DecodeFirstOfEncoding | Core/Dialog/PSPOskDialog.cpp:56-68 | the first sequence of any encoding decodes to the encoded unit and its byte count, whatever follows |
| TextCodec.EncodeUnitReadsBack | Core/Dialog/PSPOskDialog.cpp:56-68 | one unit's bytes followed by any tail decode to that unit followed by the tail's decoding |
| TextCodec.Ucs2ToUtf8RoundTrip | Core/Dialog/PSPOskDialog.cpp:47-72 | decoding the encoding of any unit string gives back that string, so the conversion is lossless |
| TextCodec.EncodeUnitNonZero | Core/Dialog/PSPOskDialog.cpp:54-68 | a nonzero unit encodes to no zero byte |
| TextCodec.Ucs2ToUtf8NoZeroByte | Core/Dialog/PSPOskDialog.cpp:54-71 | the encoding of a zero-free string has no zero byte, so it survives the copy into a zero-terminated host string |
| TextCodec.Ucs2ToUtf8Snoc | Core/Dialog/PSPOskDialog.cpp:54-69 | encoding one more unit appends exactly that unit's bytes |
| TextCodec.FixedBufferBound | Core/Dialog/PSPOskDialog.cpp:49-70 | 682 units always fit the 2048-byte buffer with the terminator; 683 units of 0x800 or above do not |
| TextCodec.AllThreeBytes | Core/Dialog/PSPOskDialog.cpp:63-68 | units of 0x800 or above take exactly three bytes each |
| TextCodec.ConvertUcs2ToUtf8 | Core/Dialog/PSPOskDialog.cpp:47-72 | the loop's output is the encoding of the guest string up to its first zero unit; it has no zero byte and at most 3 bytes per unit |
| InputBuffer.ResolvedLimit | Core/Dialog/PSPOskDialog.cpp:171-174 | the limit is 14 when `outtextlimit` is 0, otherwise `outtextlimit`; it is positive and fits in 32 bits |
| InputBuffer.Act | Core/Dialog/PSPOskDialog.cpp:222-236 | one action leaves the text unchanged, drops its last character, or, below the limit, appends the key or its upper case; the exact branches are stated by `CrossAppends`, `SelectAppendsUpper`, `CircleDeletes` and `NoActionKeeps` |
| InputBuffer.ExitRequested | Core/Dialog/PSPOskDialog.cpp:237-240 | the exit is asked for only when start is pressed and no earlier branch (cross) took the tick |
| InputBuffer.ActKeepsBound | Core/Dialog/PSPOskDialog.cpp:222-236 | an action never exceeds the limit and keeps the text typable; it changes the length by at most one and keeps the existing prefix |
| InputBuffer.CrossAppends | Core/Dialog/PSPOskDialog.cpp:222-226 | cross appends the key exactly when the text is below the limit, and otherwise does nothing |
| InputBuffer.SelectAppendsUpper | Core/Dialog/PSPOskDialog.cpp:227-231 | select without cross appends the upper-case key exactly when there is room |
| InputBuffer.CircleDeletes | Core/Dialog/PSPOskDialog.cpp:232-236 | circle without cross or select drops the last character, and leaves an empty text empty |
| InputBuffer.NoActionKeeps | Core/Dialog/PSPOskDialog.cpp:222-240 | without cross, select or circle the text is unchanged |
| InputBuffer.CrossSaturates | Core/Dialog/PSPOskDialog.cpp:222-226 | n cross presses on an empty text give min(n, limit) copies of the key |
| InputBuffer.OutputUnit | Core/Dialog/PSPOskDialog.cpp:250-252 | each output unit is the character's code (nonzero) inside the text, and zero padding beyond it |
| InputBuffer.OutTextWrites | Core/Dialog/PSPOskDialog.cpp:248-254 | there are exactly `limit` unit writes, and write i goes to `outtextPtr + 2*i` (mod 2^32) |
| InputBuffer.OutTextWritesKeepBlocks | Core/Dialog/PSPOskDialog.cpp:248-254 | the unit writes leave both block views unchanged |
| InputBuffer.OutTextReadsBack | Core/Dialog/PSPOskDialog.cpp:248-254 | after the unit writes, the guest reads unit i of the text, or zero padding, at `outtextPtr + 2*i` whenever the buffer does not wrap |
| InputBuffer.DistinctUnitAddrs | Core/Dialog/PSPOskDialog.cpp:253 | fewer than 2^31 units from one base have pairwise distinct addresses |
| InputBuffer.PreviewLine | Core/Dialog/PSPOskDialog.cpp:132-144 | the preview line has exactly `limit` characters |
| InputBuffer.PreviewMatchesOutput | Core/Dialog/PSPOskDialog.cpp:132-144 | the preview shows the typed text exactly where the output unit is nonzero, the highlighted key at the first padding position, and underscores after it |
| InputBuffer.CrossTypesPreviewedKey | Core/Dialog/PSPOskDialog.cpp:135-139 | the key cross types on a tick is the one the preview highlighted on that tick |
| SessionRecord.Record | Core/Dialog/PSPOskDialog.cpp:265-277 | the save-state record has ten items and ends with the "PSPOskDialog" marker |
| SessionRecord.Parse | Core/Dialog/PSPOskDialog.cpp:265-277 | only a ten-item record ending with the "PSPOskDialog" marker loads; `RecordRoundTrip` and `ParseRoundTrip` make it the exact inverse of `Record` |
| SessionRecord.RecordRoundTrip | Core/Dialog/PSPOskDialog.cpp:265-277 | parsing a saved record restores every field |
| SessionRecord.ParseRoundTrip | Core/Dialog/PSPOskDialog.cpp:265-277 | a record that parses is exactly the record of what it parses to |
| OskDialog.NextStatus | Core/Dialog/PSPOskDialog.cpp:176-246 | Update never leaves the status at INITIALIZE or FINISHED; `NextStatusSteps` states exactly which statuses change |
| OskDialog.AcceptsInit | Core/Dialog/PSPOskDialog.cpp:78 | Init is refused from INITIALIZE, RUNNING and FINISHED |
| OskDialog.NextStatusSteps | Core/Dialog/PSPOskDialog.cpp:176-246 | Update changes the status exactly from INITIALIZE and FINISHED, never moves to either of them, and never takes INITIALIZE or RUNNING to a status Init accepts |
| OskDialog.UpdateWrites | Core/Dialog/PSPOskDialog.cpp:248-260 | an Update's writes are `limit` units, then the data block at its pointer, then the parameter block at its address |
| OskDialog.UpdateWritesRead | Core/Dialog/PSPOskDialog.cpp:248-260 | after those writes the guest reads both new blocks, and every output unit when the buffer does not wrap |
| OskDialog.Advance | Core/Dialog/PSPOskDialog.cpp:176-246 | the status step and the RUNNING edits keep the session invariant |
| OskDialog.Tick | Core/Dialog/PSPOskDialog.cpp:165-263 | one Update keeps the session invariant: cursor on the grid, text within the limit and typable |
| OskDialog.TickWrites | Core/Dialog/PSPOskDialog.cpp:248-260 | one Update writes `limit` units and two blocks, the parameter block last at the address Init was given; `TickOutputVisible` states what the guest then reads |
| OskDialog.TickFrame | Core/Dialog/PSPOskDialog.cpp:165-263 | only a RUNNING tick moves the cursor, edits the text or starts the exit fade; the pointers, limit, strings and address stay; the length equals the text's length; the results are 0 and CHANGED |
| OskDialog.TickOutputVisible | Core/Dialog/PSPOskDialog.cpp:248-260 | after an Update the guest reads the text's length, the CHANGED result, base result 0, and unit by unit the text padded with zeros to the limit |
| OskDialog.CrossTypesKeyBeforeMove | Core/Dialog/PSPOskDialog.cpp:199-226 | on any RUNNING tick with room, cross appends the key under the cursor as the tick began, while the cursor makes its own move |
| OskDialog.TypingScenario | Core/Dialog/PSPOskDialog.cpp:199-226 | cross, then right with cross, then cross from the first key types "112", with length 3 and the cursor on the second key |
| OskDialog.Reset | Core/Dialog/PSPOskDialog.cpp:82-89 | the reset an accepted Init does before checking the address leaves a session satisfying the invariant |
| OskDialog.Started | Core/Dialog/PSPOskDialog.cpp:91-109 | a started session satisfies the invariant |
| OskDialog.InitWrites | Core/Dialog/PSPOskDialog.cpp:98-99 | Init writes two blocks, the parameter block last, back where it was read; `InitWritesChangeNothingVisible` states that nothing readable changes |
| OskDialog.InitWritesChangeNothingVisible | Core/Dialog/PSPOskDialog.cpp:93-99 | Init writes back what it read, so every address reads as before |
| OskDialog.SecondInitRejected | Core/Dialog/PSPOskDialog.cpp:78-82 | after an accepted Init, whether or not the address was valid, another Init is rejected |
| OskDialog.WriteOutText | Core/Dialog/PSPOskDialog.cpp:248-254 | the output loop performs exactly the `limit` unit writes in order |
| OskDialog.OskSession.constructor | Core/Dialog/PSPOskDialog.cpp:40-42 | a new session is idle, with everything cleared |
| OskDialog.OskSession.Init | Core/Dialog/PSPOskDialog.cpp:75-111 | outside NONE and SHUTDOWN, Init returns the invalid-status error and changes nothing; an invalid address returns -1 after the reset; a valid address returns 0 with the blocks read, the strings decoded, both blocks written back and the entrance fade started |
| OskDialog.OskSession.ReadBlocks | Core/Dialog/PSPOskDialog.cpp:91-100 | the blocks are read and the three strings decoded, then the data block and the parameter block are written back in that order |
| OskDialog.OskSession.Update | Core/Dialog/PSPOskDialog.cpp:165-263 | the new state is `Tick` of the old one and the guest writes are `TickWrites`; the preview is produced only while RUNNING; returns 0 |
| OskDialog.OskSession.Step | Core/Dialog/PSPOskDialog.cpp:176-246 | the status dispatch computes `Advance`; the preview, built from the text and cursor before the tick, is produced only while RUNNING |
| OskDialog.OskSession.MoveCursor | Core/Dialog/PSPOskDialog.cpp:199-220 | the imperative movement chain computes `Move` |
| OskDialog.OskSession.TypeKey | Core/Dialog/PSPOskDialog.cpp:222-240 | the imperative action chain computes `Act`, and start alone asks for the exit fade |
| OskDialog.OskSession.WriteBack | Core/Dialog/PSPOskDialog.cpp:248-260 | sets the length and the results, then performs exactly the Update writes |
| OskDialog.OskSession.SaveState | Core/Dialog/PSPOskDialog.cpp:265-277 | the saved record parses back to the session and ends with the marker |
| OskDialog.OskSession.LoadState | Core/Dialog/PSPOskDialog.cpp:265-277 | a well-formed record restores every field, and the session is valid when the saved one was; any other record is refused |

## Left out

- Drawing is not modelled: text, images, colours, positions and font scales. Only the characters of the preview line are kept, and the grid drawing is left out entirely.
- Fades and the base dialog's `UpdateFade` are not modelled. Start only records that the exit fade was requested. The RUNNING to FINISHED transition happens when that fade ends, inside the base dialog, which is not part of this model.
- The controller latch is a parameter. `Update` takes the set of buttons newly pressed this frame. The latch read that `Init` makes to discard earlier presses is left out.
- Localised labels (the i18n lookups) are left out.
- The parameter and data blocks keep only the fields this dialog reads or writes. All other fields are carried as an opaque sequence.
- Memory aliasing is not modelled. A block and the 16-bit units stored at the same addresses are independent in the model.
- Address validity is a fixed set, consulted only by Init's check of the parameter address. Every other read and write acts on the contents at any address, valid or not, and an address never written reads as a cleared value. The lemmas about what the guest reads back after an Update (`OskDialog.UpdateWritesRead`, `OskDialog.TickOutputVisible`, `InputBuffer.OutTextReadsBack`) therefore assume the addresses written are backed by memory. The platform drops writes to invalid addresses (for instance after an Init that failed on a bad address, which leaves both pointers at 0); that is not modelled.
- `TextCodec.ConvertUcs2ToUtf8` does not model the 2048-byte stack buffer. Its output grows without bound. `FixedBufferBound` states when the source's buffer would overflow. The method also requires a reachable zero unit, where the source would read on until it found one.
- `PSP_UTILITY_OSK_RESULT_CHANGED` (2) and `SCE_ERROR_UTILITY_INVALID_STATUS` (0x80110001) are defined in headers that are not part of this model. The values used are the platform's; Init returns the error through a signed int, so the model's value is 0x80110001 - 2^32, negative like the -1 of a bad address.
- The base dialog's own saved state is reduced to the status and the fade request. `PSPDialog::DoState` is not part of this model, and neither is the byte format of the state stream.
- `OskDialog.OskSession.LoadState` leaves the session unchanged on a malformed record. The source's state stream would instead report an error through the stream.

