# tudu — a Dafny model of the task list and the hex colour decoder

tudu is a small SwiftUI to-do app. Its logic lives in `ContentView.swift`:

- an initialiser `Color(hex:)` that turns a colour literal such as `#4B0082` into
  alpha, red, green and blue bytes;
- the `Task` record (an id, a name and a completion flag);
- the list the main screen starts with;
- the three operations the screen invokes: toggle a task, add the task typed
  into the popup, and delete rows.

This project models that logic as pure Dafny functions and proves properties
about them.

- `trim.dfy` — module `Trimming`: the trim applied to a literal before it is
  scanned. Characters that are not letters or digits are cut from both ends,
  and only from the ends.
- `hex_scan.dfy` — module `HexScan`: the hexadecimal scan of the trimmed text.
  It reads the value of the longest leading run of hex digits, or 0 when the
  text does not start with one. Its partner is a fixed-width formatter:
  scanning the formatter's output gives the value back.
- `hex_color.dfy` — module `HexColor`: the decode of a literal into four
  bytes, chosen by the trimmed length (3, 6, 8 or anything else). It also
  holds formatters for the three literal forms and the round-trip lemmas.
- `color_examples.dfy` — module `ColorExamples`: the decoder on particular
  literals. These include the app's brand purple and a literal whose interior
  dash survives trimming.
- `wrappers.dfy` — module `Wrappers`: `Option`.
- `tasks.dfy` — module `TaskList`: tasks, the screen state (the tasks plus
  the popup's text buffer), and toggle, add and delete with their properties.
- `session.dfy` — module `Session`: the screen's events applied one after
  another. The list stays valid (distinct ids, non-empty names) after any run.

Bit operations on the scanned value are written as arithmetic on natural
numbers. `int >> k` becomes `v / 2^k` and `int & (2^w - 1)` becomes `v % 2^w`.
Both are exact for the non-negative `UInt64` the source uses. When the value
is used at all, the trimmed text has 3, 6 or 8 characters, so the value is
below 2^32 and cannot overflow 64 bits.

Two points where the app's behaviour differs from a natural reading of its
design:

- The trim removes non-alphanumeric characters only at the ends
  (`trimmingCharacters(in:)`), not everywhere. `#1-2` trims to `1-2`. That is
  three characters, so the literal takes the shorthand branch. The scan stops
  at the dash, and the colour is `(255, 0, 0, 17)`
  (`ColorExamples.InteriorDashKept`).
- `remove(atOffsets:)` does not ignore an offset past the end of the list; it
  traps. The model therefore requires every offset to name a row.

## Model

| member | source | states |
|---|---|---|
| Trimming.Trim | ContentView.swift:5 | the trimmed text is a slice of the literal; only non-alphanumeric characters are cut before and after it; it starts and ends with a letter or digit; it is empty exactly when the literal holds no letter or digit |
| Trimming.TrimOfIsUnique | ContentView.swift:5 | that characterisation of a trim admits only one string, so it pins the trim down completely |
| Trimming.TrimOfPadded | ContentView.swift:5 | trimming any non-alphanumeric padding from around a string that starts and ends with letters or digits gives that string back |
| Trimming.TrimIdempotent | ContentView.swift:5 | trimming an already trimmed literal changes nothing |
| Trimming.LeadingCut | ContentView.swift:5 | the leading cut stops at the first letter or digit and cuts nothing else |
| Trimming.TrailingCut | ContentView.swift:5 | the trailing cut stops just after the last letter or digit and cuts nothing else |
| HexScan.HexPrefixLength | ContentView.swift:7 | the scanner reads the longest leading run of hex digits: all of them are digits, and the next character is not |
| HexScan.HexPrefixLengthIs | ContentView.swift:7 | any length with that description is the scanned run's length |
| HexScan.ScanHex | ContentView.swift:6-7 | the scanned value has no more hex digits than the text has characters; it is the text's hex value when every character is a hex digit; it is 0 (the initial `int`) when the text is empty or does not start with a hex digit |
| HexScan.ScanHexStopsAtNonDigit | ContentView.swift:7 | whatever follows the first non-hex character does not affect the scanned value |
| HexScan.HexValue | ContentView.swift:7 | a run of n hex digits has a value below 16^n |
| HexScan.DigitValue | ContentView.swift:7 | a digit is worth less than 16; upper and lower case letters are worth 10 and up, decimal digits less |
| HexScan.ToHex | ContentView.swift:7 | the formatter writes exactly `width` hex digits whose value is the formatted number |
| HexScan.ScanToHex | ContentView.swift:7 | scanning formatted digits gives the formatted number back |
| HexScan.HexValueSplit | ContentView.swift:11-15 | the digits before a split point are worth the high part, shifted left by four bits per digit after it; this is why the byte fields can be read off digit pairs |
| HexColor.Rgb12 | ContentView.swift:10-11 | the 3-digit case: alpha 255, every channel a multiple of 17 and at most 255, and the three nibbles pack back into the scanned value |
| HexColor.Rgb24 | ContentView.swift:12-13 | the 6-digit case: alpha 255, all bytes in range, and red, green and blue pack back into the scanned value |
| HexColor.Argb32 | ContentView.swift:14-15 | the 8-digit case: all bytes in range, and alpha, red, green and blue pack back into the scanned value |
| HexColor.DecodeTrimmed | ContentView.swift:9-18 | bytes always in range; the 3, 6 and 8 character branches as above; every other length, the empty text included, is opaque black |
| HexColor.Decode | ContentView.swift:4-18 | decoding is total; the branch is chosen by the length of the trimmed literal, and its bytes relate to the scan of the trimmed literal as in each branch |
| HexColor.PackingIsUnique | ContentView.swift:12-15 | two in-range colours that pack into the same number are the same colour, so the packing loses nothing |
| HexColor.ShorthandPackingIsUnique | ContentView.swift:10-11 | two shorthand colours with the same nibbles are the same colour |
| HexColor.TrimHashPrefix | ContentView.swift:5 | a leading `#` is trimmed away, so a literal decodes as its digits |
| HexColor.DecodeFormatArgb | ContentView.swift:14-15 | every in-range colour written as `#AARRGGBB` decodes back to itself |
| HexColor.DecodeFormatRgb | ContentView.swift:12-13 | every opaque colour written as `#RRGGBB` decodes back to itself |
| HexColor.DecodeFormatShorthand | ContentView.swift:10-11 | every colour `#RGB` can express, written that way, decodes back to itself |
| HexColor.DecodeShorthandDigits | ContentView.swift:10-11 | for three hex digits, each channel is its own digit times 17 |
| HexColor.DecodeRgbDigits | ContentView.swift:12-13 | for six hex digits, each channel is the value of its own digit pair |
| HexColor.DecodeArgbDigits | ContentView.swift:14-15 | for eight hex digits, alpha and each channel are the values of their own digit pairs |
| ColorExamples.BrandPurple | ContentView.swift:48 | the brand colour `#4B0082` is opaque `(0x4B, 0x00, 0x82)` |
| ColorExamples.WhiteShorthand | ContentView.swift:10-11 | `#fff` is opaque white |
| ColorExamples.HalfAlphaWhite | ContentView.swift:14-15 | `#80FFFFFF` is white with alpha 128: alpha comes first in the eight-digit form |
| ColorExamples.EmptyIsBlack | ContentView.swift:16-17 | the empty literal is opaque black |
| ColorExamples.WordsAreBlack | ContentView.swift:5-17 | a literal with interior punctuation keeps it after trimming; at the wrong length it falls back to black |
| ColorExamples.InteriorDashKept | ContentView.swift:5-11 | `#1-2` trims to `1-2`, takes the shorthand branch, scans as 1, and decodes to `(255, 0, 0, 17)` |
| TaskList.Initial | ContentView.swift:29-36 | the screen starts with exactly one task, "Sample Task", not completed, and an empty buffer; the list is valid |
| TaskList.FirstIndex | ContentView.swift:111 | finds the first task carrying the id; finds nothing exactly when no task carries it |
| TaskList.ToggleCompletion | ContentView.swift:110-114 | length, order, ids and names are kept; a task's flag changes exactly when it is the first task with the id; an absent id changes nothing |
| TaskList.ToggleTwice | ContentView.swift:110-114 | toggling the same id twice restores the list |
| TaskList.ToggleKeepsIds | ContentView.swift:110-114 | toggling keeps the set of ids, and keeps distinct ids distinct |
| TaskList.ToggleDistinct | ContentView.swift:110-114 | with distinct ids, toggling a task's id flips that task's flag and leaves every other task as it was |
| TaskList.AddTask | ContentView.swift:117-122 | an empty buffer changes nothing; otherwise exactly one open task is appended with the buffered name and a fresh id, earlier tasks stay, the ids grow by the new one, and the buffer is cleared; validity is kept |
| TaskList.FreshId | ContentView.swift:30 | an id no task carries always exists |
| TaskList.Survivors | ContentView.swift:125-127 | the surviving offsets are those below the length that are not deleted, each once, in ascending order |
| TaskList.RemoveAtOffsets | ContentView.swift:125-127 | the list shrinks by the number of deleted offsets, and what remains is the tasks at the surviving offsets, in their original order |
| TaskList.SurvivorCount | ContentView.swift:126 | the surviving and deleted offsets below the length together account for every row |
| TaskList.RemoveKeepsDistinct | ContentView.swift:125-127 | deleting keeps ids distinct |
| TaskList.RemoveIds | ContentView.swift:125-127 | the ids left after deleting are exactly those of the rows not deleted |
| TaskList.RemoveDropsDeletedIds | ContentView.swift:125-127 | with distinct ids, no deleted task's id remains in the list |
| Session.StepKeepsValid | ContentView.swift:110-127 | each event the screen can apply (edit the buffer, add, toggle, delete) keeps the list valid |
| Session.RunKeepsValid | ContentView.swift:110-127 | any sequence of enabled events keeps the list valid |
| Session.TypeThenAdd | ContentView.swift:117-122 | typing a non-empty name and adding it appends exactly that open task under the fresh id and clears the buffer |
| Session.DeleteFirstOfThree | ContentView.swift:125-127 | deleting the first of three rows leaves the other two in order |

## Left out

- SwiftUI views, the popup's visibility flag, strikethrough and styling. These are presentation only. The events they trigger are `Session.Event`.
- Conversion of the bytes to `Double` and to an sRGB `Color`. This is floating point inside the UI framework. The model stops at the four bytes.
- HexScan.ScanHex: does not model the scanner's optional `0x`/`0X` prefix or its skipping of leading whitespace. Whitespace cannot survive trimming at the front. A trimmed literal that begins with `0x` is not modelled.
- HexScan.ScanHex: does not model saturation on 64-bit overflow. The value is used only for trimmed lengths 3, 6 and 8, which stay below 2^32.
- Trimming.IsAlphanumeric: covers ASCII letters and digits only, not the full Unicode alphanumeric set. The length of the trimmed text is its number of characters, not of grapheme clusters.
- `UUID()` in `Task`: modelled as an id supplied by the caller that no task already carries. Random generation is not modelled. `TaskList.FreshId` shows that such an id always exists.
- TaskList.RemoveAtOffsets: requires every offset to be below the list's length. `remove(atOffsets:)` traps on any other offset, and the list view only passes offsets of rows it shows.
- `TuduApp.swift` (the splash timer) and `SplashScreen.swift` (a view). They hold no logic beyond presentation and a clock.
