# GMMK keyboard protocol and keymap helpers in Dafny

This project models three parts of a web configurator for the GMMK RGB keyboard.

**The wire-protocol encoder `GMMKInterface`** (`src/plugins/GMMKPlugin.ts`).
- It keeps one reusable 64-byte buffer and builds every command in it.
- `write` stamps report id 0x04 into byte 0. It also stamps the 16-bit sum of bytes 3..63 into bytes 1-2, low byte first, then hands bytes 1..63 to the device.
- `startCommand` and `endCommand` set only byte 3, to 0x01 or 0x02, and write the buffer.
- `setMode`, `setDelay` and `setRate` send a sub-command between a START and an END.
- `setProfile` sends a copy of a 64-byte vendor template with byte 18 replaced.
- `setKeys` sends a whole frame of key colours as KEYCOLORS packets. Each packet carries at most 18 keys and a 16-bit byte offset.
- The state is an immutable datatype `GmmkInterface.Gmmk`: the buffer, the "device selected" and "initialized" flags, the colour array, and the log of every report the device has received. Each operation is a function from the state before to the state after. `setKeys` is a method whose loop mirrors the source's chunk loop.

**The numeric and array helpers** (`src/lib/utils.ts`).
- `gcd` is Euclid's algorithm over JavaScript's truncating `%`.
- `lcm` is `|a| / gcd(a, b) * |b|`.
- `deduplicateArray` keeps the first occurrence of each element.

**The keymap parsers** (`src/lib/libMap.ts`).
- `parseTextKeyboardMap` turns the text layout into a grid of LED indices padded with -1, together with its `shape`.
- `matrixifyQMK` groups the keys of a QMK layout into rows by their `y` coordinate.

Modules:
- `GmmkConstants`: constants, bytes, colours and the profile template.
- `GmmkPacket`: checksum and `write`.
- `GmmkInterface`: the command layer.
- `GmmkKeys`: `setKeys`.
- `Utils`: `gcd`, `lcm` and `deduplicateArray`.
- `LibMap`: the two parsers.

Facts of the code that the model keeps:
- `setKeys` always sends the whole array.
- The buffer is never zeroed inside `setKeys`. START carries whatever the previous command left in bytes 4..63. END carries the last chunk's header and colours.
- The profile template is 64 bytes including the report id and a stored checksum (0xdd 0x03). That stored checksum is the correct one for profile 1.
- Without a selected device, `write` returns silently. No error is raised. `startCommand` and `endCommand` still change byte 3, because the assignment comes before `write`'s check.
- In `setMode`, line 118 puts the sub-command code 6 into byte 3. `startCommand` then overwrites it with START. The mode packet therefore goes out as a second, identical START packet. `SetModePackets` states this.
- Lines 178-179 of `setKeys` are dead: line 184 overwrites the same byte.

Byte stores into a `Uint8Array` are modelled as `x % 256` (`GmmkConstants.ToUint8`). `offset >> 8` stored into a byte is `(offset / 256) % 256` for every non-negative offset. Strings are `seq<char>`.

`row.split(/\s+/)` followed by dropping empty strings is modelled as splitting at every single white-space character and dropping the empty pieces. Both yield the maximal runs of non-space characters. `parseInt` returns `ParsedInt`, which is an integer or NaN. `Math.max()` over no arguments is `Width.NegInfinity`.

## Model

| member | source | states |
|---|---|---|
| GmmkConstants.KeyColorsCapacity | src/plugins/GMMKPlugin.ts:17-21 | the colour capacity is floor((64 - 8) / 3) * 3 = 54 bytes, a multiple of 3 giving 18 keys, and ends inside the packet |
| GmmkConstants.ToUint8 | src/plugins/GMMKPlugin.ts:118-120 | a store into the byte buffer keeps a value in 0..255 unchanged and otherwise keeps it modulo 256 |
| GmmkConstants.Channel | src/plugins/GMMKPlugin.ts:195-197 | the byte stored for channel j (red, green, blue) is the channel value modulo 256 |
| GmmkConstants.FillSingleColor | src/plugins/GMMKPlugin.ts:29-33 | the result has min(126, max(n, 0)) elements, all equal to the colour |
| GmmkPacket.ChecksumNeverTruncates | src/plugins/GMMKPlugin.ts:234 | the sum of bytes 3..63 is at most 61 * 255 < 65536, so the 0xffff mask never changes it |
| GmmkPacket.Stamp | src/plugins/GMMKPlugin.ts:233-236 | after stamping, byte 0 is 0x04, bytes 3..63 are unchanged, and bytes 1-2 read little-endian equal the sum of bytes 3..63 |
| GmmkPacket.ReportOf | src/plugins/GMMKPlugin.ts:240 | the report has id 0x04 and carries buffer byte i at data position i - 1 for i in 1..63 |
| GmmkPacket.PacketOfReportOf | src/plugins/GMMKPlugin.ts:240 | the report (id 0x04 and bytes 1..63) determines the stamped buffer exactly |
| GmmkPacket.Write | src/plugins/GMMKPlugin.ts:227-241 | without a device, buffer and log are unchanged; with one, the buffer is stamped and exactly one well-formed report of it is appended |
| GmmkInterface.New | src/plugins/GMMKPlugin.ts:57-66 | a new interface has a zeroed buffer, no device, is not initialized, has sent nothing, and holds 126 white keys |
| GmmkInterface.WriteBuffer | src/plugins/GMMKPlugin.ts:227-241 | writing the interface's own buffer keeps the flags; without a device nothing changes; with one, one report goes out and the buffer is that packet |
| GmmkInterface.WriteMessage | src/plugins/GMMKPlugin.ts:135 | writing a separate message leaves the interface buffer alone and sends the message's bytes 3..63 under id 0x04 |
| GmmkInterface.ResetBuffer | src/plugins/GMMKPlugin.ts:107-109 | every buffer byte becomes 0 and nothing is sent |
| GmmkInterface.StartCommand | src/plugins/GMMKPlugin.ts:214-218 | byte 3 becomes 0x01, bytes 4..63 are kept, and the buffer is written when a device is selected |
| GmmkInterface.EndCommand | src/plugins/GMMKPlugin.ts:221-225 | byte 3 becomes 0x02, bytes 4..63 are kept, and the buffer is written when a device is selected |
| GmmkInterface.SetMode | src/plugins/GMMKPlugin.ts:115-126 | with a device exactly three well-formed reports are appended; without one nothing is sent; the flags are kept |
| GmmkInterface.SetModePackets | src/plugins/GMMKPlugin.ts:115-126 | the three packets are START with sub-command 1 and the mode byte, the same packet again, then END with the same fields, which stays in the buffer |
| GmmkInterface.SetModeWithoutDevice | src/plugins/GMMKPlugin.ts:115-126 | without a device the buffer still ends as zeros, then END, sub-command 1 and the mode byte |
| GmmkInterface.SetCustomMode | src/plugins/GMMKPlugin.ts:111-113 | with a device exactly three reports are appended; without one nothing is sent |
| GmmkInterface.SetCustomModePackets | src/plugins/GMMKPlugin.ts:111-113 | the mode packet carries command 0x01, sub-command 1 and mode 20 |
| GmmkInterface.SetProfile | src/plugins/GMMKPlugin.ts:129-137 | without a device nothing at all changes; with one exactly three well-formed reports are appended |
| GmmkInterface.SetProfilePackets | src/plugins/GMMKPlugin.ts:129-137 | START and END carry the old buffer from byte 4 on; the middle packet equals the template from byte 3 on except byte 18, which is profile - 1 |
| GmmkInterface.TemplateChecksum | src/plugins/GMMKPlugin.ts:37-42 | the template's stored bytes 0xdd 0x03 are the little-endian sum of its bytes 3..63 |
| GmmkInterface.SetProfileOneSendsTemplate | src/plugins/GMMKPlugin.ts:37-42 | `setProfile(1)` sends the 64-byte template byte for byte |
| GmmkInterface.ClampDelay | src/plugins/GMMKPlugin.ts:140 | the delay is kept inside 0..255 and clamped to 0 below and 255 above |
| GmmkInterface.SendSubcommand | src/plugins/GMMKPlugin.ts:141-149 | with a device exactly three reports are appended; without one nothing is sent |
| GmmkInterface.SendSubcommandPackets | src/plugins/GMMKPlugin.ts:141-149 | from a zeroed buffer: a bare START, then command 6 with sub-command 1, selector in byte 5 and argument in byte 8 and zeros elsewhere, then END with the same fields |
| GmmkInterface.SendSubcommandWithoutDevice | src/plugins/GMMKPlugin.ts:141-149 | without a device the buffer still ends as zeros, END and the sub-command fields |
| GmmkInterface.SetDelay | src/plugins/GMMKPlugin.ts:139-150 | with a device exactly three reports are appended; without one nothing is sent |
| GmmkInterface.SetDelayPackets | src/plugins/GMMKPlugin.ts:139-150 | the packets are START, the delay sub-command (selector 0x02, the clamped delay) and END |
| GmmkInterface.SetRate | src/plugins/GMMKPlugin.ts:152-162 | with a device exactly three reports are appended; without one nothing is sent |
| GmmkInterface.SetRatePackets | src/plugins/GMMKPlugin.ts:152-162 | the packets are START, the rate sub-command (selector 0x0f, the rate's low byte) and END |
| GmmkKeys.Chunks | src/plugins/GMMKPlugin.ts:175-202 | there is no chunk left exactly when key `i` is past the last key |
| GmmkKeys.ChunksShape | src/plugins/GMMKPlugin.ts:175-202 | there are ceil(count / 18) chunks, chunk k starts at key 18k, and it holds min(18, keys left) keys |
| GmmkKeys.ChunksCount | src/plugins/GMMKPlugin.ts:175-202 | a frame of `count` keys takes ceil(count / 18) KEYCOLORS packets |
| GmmkKeys.ChunksCover | src/plugins/GMMKPlugin.ts:175-202 | the chunks start at key 0, hold 1 to 18 keys each, follow each other without gap or overlap, and end at the last key |
| GmmkKeys.OffsetHighByteSmall | src/plugins/GMMKPlugin.ts:188-190 | for at most 126 keys the high byte of every chunk's byte offset is 0 or 1 |
| GmmkKeys.EncodeColors | src/plugins/GMMKPlugin.ts:193-198 | three bytes per colour |
| GmmkKeys.EncodeColorsIndex | src/plugins/GMMKPlugin.ts:193-198 | byte 3k + j of the colour data is channel j (red, green, blue) of key k |
| GmmkKeys.KeyColorsOffset | src/plugins/GMMKPlugin.ts:188-190 | the two offset bytes read back little-endian as three times the chunk's first key |
| GmmkKeys.FillKeyColors | src/plugins/GMMKPlugin.ts:177-198 | the buffer gets the KEYCOLORS layout of the chunk; bytes 0-2, byte 7 and everything after the colour data keep their old values |
| GmmkKeys.SendChunk | src/plugins/GMMKPlugin.ts:177-201 | one loop iteration: with a device exactly one report is appended, and it is the new buffer; without one nothing is sent |
| GmmkKeys.SendChunkBuffer | src/plugins/GMMKPlugin.ts:177-198 | after one iteration the buffer holds the chunk's KEYCOLORS layout; byte 7 and every byte after the chunk's colours keep their old values (so a short last chunk leaves the previous chunk's colours behind); without a device bytes 0-2 stay too |
| GmmkKeys.KeysToBeSent | src/plugins/GMMKPlugin.ts:182-183 | the byte count divided by three is min(18, keys left), so a chunk never splits a key |
| GmmkKeys.SendAllChunks | src/plugins/GMMKPlugin.ts:175-205 | the loop sends the chunks from key 0 one after the other, as `RunChunks` does |
| GmmkKeys.RunChunksStep | src/plugins/GMMKPlugin.ts:175-202 | sending the chunks from key `i` is sending chunk `i` and then the chunks after it |
| GmmkKeys.RunProgress | src/plugins/GMMKPlugin.ts:175-205 | each packet the loop sends holds its chunk's layout and keeps the stale bytes of the packet before it; the buffer ends with the last chunk over the previous one |
| GmmkKeys.FrameKeepsUnwrittenBytes | src/plugins/GMMKPlugin.ts:166-208 | byte 7 and bytes 62-63 are never written: every packet of the frame (START, each KEYCOLORS, END) carries there what the buffer held before the call |
| GmmkKeys.SetKeys | src/plugins/GMMKPlugin.ts:166-208 | not initialized: nothing changes. Initialized with a device: START over the old buffer, then one KEYCOLORS report per chunk in order (ceil(count / 18) of them), each keeping byte 7 and the bytes after its colours from the previous packet, then END over the last KEYCOLORS packet. Initialized without a device: nothing is sent, bytes 0-2 stay, and the buffer is left as END over the last chunk's layout, with byte 7 and bytes 62-63 old and the previous full chunk's colours behind a short last chunk |
| Utils.JsRem | src/lib/utils.ts:3 | JavaScript's remainder is smaller than the divisor in magnitude, carries the dividend's sign, and agrees with `%` on non-negative operands |
| Utils.JsRemDivision | src/lib/utils.ts:3 | the dividend is a multiple of the divisor plus the remainder |
| Utils.Gcd | src/lib/utils.ts:1-4 | gcd(a, 0) = a; it is non-negative for non-negative arguments and zero only when both are; recursion stops because the divisor shrinks |
| Utils.GcdDividesBoth | src/lib/utils.ts:1-4 | the result divides both arguments |
| Utils.GcdGreatest | src/lib/utils.ts:1-4 | every common divisor of the arguments divides the result |
| Utils.Lcm | src/lib/utils.ts:6 | the result is a common multiple of both arguments and for positive arguments equals a * b / gcd(a, b) > 0 |
| Utils.Dedup | src/lib/utils.ts:16-25 | the result has no duplicates, the same elements as the input and at most its length |
| Utils.DeduplicateArray | src/lib/utils.ts:16-25 | the loop builds the first-occurrence deduplication: no duplicates and the same elements as the input |
| Utils.DedupFirstAppearance | src/lib/utils.ts:19-23 | the output lists elements in order of first appearance in the input, and every first occurrence is kept |
| Utils.DedupOfDistinct | src/lib/utils.ts:16-25 | an array without duplicates comes back unchanged |
| Utils.DedupIdempotent | src/lib/utils.ts:16-25 | deduplicating twice equals deduplicating once |
| LibMap.Split | src/lib/libMap.ts:109 | splitting yields at least one piece and no piece contains a separator |
| LibMap.JoinSplit | src/lib/libMap.ts:109 | joining the pieces with the separator gives back the text |
| LibMap.SplitConcat | src/lib/libMap.ts:109 | a separator between two texts splits them into the pieces of each |
| LibMap.NonEmpty | src/lib/libMap.ts:110-111 | every kept element is non-empty and taken from the input, and there are no more of them than inputs |
| LibMap.NonEmptyComplete | src/lib/libMap.ts:110-111 | every non-empty input element is kept |
| LibMap.NonEmptyConcat | src/lib/libMap.ts:110-111 | filtering a concatenation is the concatenation of the filtered parts, so the filter keeps the input order |
| LibMap.NonEmptySingle | src/lib/libMap.ts:110-111 | a single element is kept exactly when it is not empty |
| LibMap.Tokens | src/lib/libMap.ts:110 | every token of a line is non-empty and free of white space |
| LibMap.TokensEmptyIff | src/lib/libMap.ts:110-111 | a line has no tokens exactly when it consists of white space only |
| LibMap.TokensAtSpace | src/lib/libMap.ts:110 | a white-space character separates the tokens before it from the tokens after it |
| LibMap.TokensOfWord | src/lib/libMap.ts:110 | a non-empty run without white space is exactly one token |
| LibMap.Elements | src/lib/libMap.ts:109-111 | every row of the map's elements has at least one token |
| LibMap.LineTokensConcat | src/lib/libMap.ts:110 | reducing two lists of lines to tokens, one line at a time, keeps the lines apart and in order |
| LibMap.ElementsConcat | src/lib/libMap.ts:109-111 | the rows of two parts of a map joined by a line break are the rows of the first part followed by those of the second |
| LibMap.ElementsOfLine | src/lib/libMap.ts:109-111 | a single line gives one row of its tokens, or no row when it has no tokens |
| LibMap.BlankLineNoRows | src/lib/libMap.ts:109-111 | a white-space-only line gives no row |
| LibMap.RowlessLineIgnored | src/lib/libMap.ts:109-111 | a line that gives no row can be removed from between two parts of a map without changing the rows |
| LibMap.BlankLineIgnored | src/lib/libMap.ts:109-111 | inserting a white-space-only line between two parts of a map leaves the elements unchanged |
| LibMap.ParseIntBlank | src/lib/libMap.ts:124 | text made only of white space parses to NaN |
| LibMap.ParseUnsigned | src/lib/libMap.ts:124 | text that starts with a decimal digit is read from its first character, with no white space or sign skipped |
| LibMap.ParseMinus | src/lib/libMap.ts:124 | a minus sign in front of text that starts with a digit negates what the text reads as |
| LibMap.ParseDecimal | src/lib/libMap.ts:124 | a decimal numeral followed by a non-digit parses back to its value (except 0 followed by x or X) |
| LibMap.ParseNegativeDecimal | src/lib/libMap.ts:124 | a minus sign and a decimal numeral parse back to the negated value |
| LibMap.OddIndexed | src/lib/libMap.ts:114 | the result has half the input's length (rounded down) and element k is input element 2k + 1 |
| LibMap.MaxLength | src/lib/libMap.ts:117 | minus infinity exactly for no rows; otherwise an upper bound on the row lengths that some row attains |
| LibMap.BuildRow | src/lib/libMap.ts:122-126 | the row has the map width, and cell x is the parsed token x, or -1 past the end of the tokens |
| LibMap.IndexGrid | src/lib/libMap.ts:113-133 | from the rows of a map: height is half the number of rows, width the longest odd-positioned row, and cell (y, x) is the parsed token x of row 2y + 1, or -1 |
| LibMap.ParseTextKeyboardMap | src/lib/libMap.ts:108-133 | height is half the number of non-blank lines; width is the longest index row, or minus infinity when there is none; every row has that width; cell (y, x) is the parsed token x of index row y, or -1 |
| LibMap.WithY | src/lib/libMap.ts:102 | the filtered keys are exactly the layout keys with the given y |
| LibMap.WithYConcat | src/lib/libMap.ts:102 | filtering a concatenation is the concatenation of the filtered parts, so the filter keeps layout order |
| LibMap.Numbered | src/lib/libMap.ts:103 | key k of a row gets x index k and the row's y index |
| LibMap.MatrixifyQMK | src/lib/libMap.ts:97-105 | one row per distinct y; each entry carries its column and row index and a layout key with that row's y |
| LibMap.KeyPlacement | src/lib/libMap.ts:101-103 | every layout key appears in the row of its y, at the column equal to the number of earlier keys with that y |
| LibMap.MatrixKeepsKeyCount | src/lib/libMap.ts:97-105 | the rows together hold exactly as many keys as the layout |
| LibMap.MatrixRowOrder | src/lib/libMap.ts:98 | row y values are distinct and ordered by first appearance in the layout |

## Left out

- WebHID: `connectDevice`, `requestDevice`, `open` and the real `sendReport` (src/plugins/GMMKPlugin.ts:68-89). These are browser I/O. The device is a flag, and sending appends to a log.
- `initializeKeyboard` (src/plugins/GMMKPlugin.ts:93-105). It starts overlapping asynchronous calls on the shared buffer, which is concurrency. The `initialized` flag is therefore an input of the model.
- `HIDAvailable` and `WebHID` (src/plugins/GMMKPlugin.ts:60-61) are browser capability probes.
- The Vue plugin registration (src/plugins/GMMKPlugin.ts:244-248), the application entry and the router are framework wiring.
- `minMultF2I`, `linspace` and `gaussian` (src/lib/utils.ts:8-35) depend on floating point and number formatting.
- `generateMap` and `getKeyboardMapfromQMKJson` (src/lib/libMap.ts) depend on float geometry and bundled assets. The WebGL helpers are foreign API wrappers.
- Utils.Lcm: requires that not both arguments are 0. `lcm(0, 0)` divides 0 by 0 and yields NaN in JavaScript.
- Utils.Gcd: arguments are integers. JavaScript numbers that are not integers, or that are beyond 2^53, are not modelled.
- LibMap.ParseInt: the value is exact. JavaScript rounds integers beyond 2^53 to the nearest double. `-0` (from "-0") is modelled as 0.
- LibMap.ParseInt: has no contract of its own. Its blank-text case is stated by `ParseIntBlank`. Its value is stated by `ParseDecimal` and `ParseNegativeDecimal` for the numerals an index row holds. Hexadecimal text and text with a `+` sign are modelled but have no lemma.
- LibMap.QmkKey: keeps only `x`, `y`, `w`, `h` and the label. The coordinates are exact reals. NaN coordinates, and the difference between `includes` (SameValueZero) and `===` on NaN, are not modelled.
- Lines 178-179 of `setKeys` are not modelled separately. Line 184 overwrites the byte they store.
- GmmkConstants.FillSingleColor: only integer counts are modelled. `fillSingleColor(c, 2.5)` or a NaN count makes `new Array` throw a RangeError in JavaScript, and the model has no such error.
- GmmkInterface.SetMode: only integer modes are modelled. A fractional mode is truncated toward zero by the `Uint8Array` store before it is taken modulo 256.
- GmmkInterface.SetRate: only integer rates are modelled. A fractional rate is truncated the same way.
- GmmkInterface.SetDelay: only integer delays are modelled. A fractional delay is truncated, and a NaN delay passes both clamps and is stored as 0.
- GmmkKeys.Chunks: its own contract says only when no chunk is left. The shape of each chunk is stated by `ChunksShape` and `ChunksCover`.
- RGB channel values are stored modulo 256, as `Uint8Array` does for integers. Fractional channel values are not modelled.
