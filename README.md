# RC light controller: firmware image codec and light computation

This project models two halves of the RC light controller.

**The configurator** (tools/configurator/main.js) loads a firmware image. It
finds the sections by their `LBrc` magic markers, reads the configuration
record, the local and slave LED tables, the light-program words and the
gamma-table identifier, and writes edited sections back into the image.

**The firmware's light computation** (firmware/tlc5940-lpc812/lights.c)
turns each LED's `CAR_LIGHT_T` record into a level. It uses:

- the virtual light switch;
- the braking, reversing and blinking flags;
- the weak-ground simulation;
- the slew limit toward the setpoint.

A controller in slave mode instead receives its levels from its master over
the UART.

The byte layout both halves share comes from
firmware/tlc5940-lpc812/globals.h:

- the ROM magic;
- the section tags;
- the 20-byte `CAR_LIGHT_T` record;
- the light-program instruction words.

## Modules

- `Wrappers`: `Option` and `Result`.
- `Layout`: the constants, records and instruction encodings of globals.h and
  main.js. It includes `CarLight`, the `CAR_LIGHT_T` record.
- `ByteAccess`: the configurator's `get_uint16`, `get_uint32`, `set_uint16`
  and `set_uint32` over a typed byte array, and `uint8_array_to_uint32`.
  Stores keep the value modulo 256, as a `Uint8Array` does. `get_uint32` is
  signed, because JavaScript's `<<` on the top byte produces a signed 32-bit
  value.
- `SectionLocator`: `find_magic_markers` as a loop. It is proved equal to a
  scan function, with lemmas about which marker wins and when the load fails.
- `Codec`: a decode and an encode function per section, with round trips
  both ways.
- `Firmware`: the whole-image parse and assemble sequence, and the proof that
  the sections do not disturb one another.
- `Configurator`: the `firmware` object as a class over a byte array. Its
  parse and assemble methods store byte by byte, and each is proved to
  produce exactly what the codec function describes.
- `Lights`: lights.c.
  - The pure per-LED computation is a set of functions.
  - The controller's globals form the class `LightController`:
    - `light_switch_position`, `light_setpoint`, `light_actual` and
      `max_change_per_systick`;
    - `process_slave`'s static state.
- `Agreement`: lemmas that connect the bytes the configurator writes with the
  values the firmware reads.

## Model

| member | source | states |
|---|---|---|
| Layout.LittleEndian | firmware/tlc5940-lpc812/globals.h:19 | a value laid out little-endian in `width` bytes has exactly `width` bytes |
| Layout.RomMagicBytes | firmware/tlc5940-lpc812/globals.h:19 | ROM_MAGIC 0x6372424c stored little-endian is the byte string `4c 42 72 63` the configurator searches for |
| Layout.LittleEndianHalfWord | firmware/tlc5940-lpc812/globals.h:165-169 | a 16-bit field of MAGIC_T is stored low byte first and reads back as the value |
| Layout.SectionOfTag | tools/configurator/main.js:27-39 | a tag maps to a section only if that section's tag is the tag; an unknown tag belongs to no section |
| Layout.SectionTagRoundTrip | firmware/tlc5940-lpc812/globals.h:151-161 | every ROM_SECTION_T tag is recognised as its own section |
| Layout.MarkerHeader | firmware/tlc5940-lpc812/globals.h:165-169 | the 8-byte MAGIC_T header holds the magic, then the section tag and the version as little-endian half-words |
| Layout.Min | firmware/tlc5940-lpc812/globals.h:35 | MIN is at most both arguments and is one of them |
| Layout.Max | firmware/tlc5940-lpc812/globals.h:36 | MAX is at least both arguments and is one of them |
| Layout.EndMarkers | firmware/tlc5940-lpc812/globals.h:69-73 | the two end markers carry opcodes 0xfe and 0xff in the top byte and nothing below it |
| Layout.InstructionSet | firmware/tlc5940-lpc812/globals.h:75-76 | for 8-bit arguments, SET's word decodes back to opcode, stop, start and value |
| Layout.InstructionFade | firmware/tlc5940-lpc812/globals.h:78-79 | for 8-bit arguments, FADE's word decodes back to opcode, stop, start and value |
| Layout.InstructionWait | firmware/tlc5940-lpc812/globals.h:81-82 | WAIT holds its opcode and the time in 20 ms systicks when that fits in 24 bits |
| Layout.InstructionGoto | firmware/tlc5940-lpc812/globals.h:84-85 | GOTO holds its opcode and a line number that fits in 24 bits |
| Layout.CarLight.Levels | firmware/tlc5940-lpc812/globals.h:369-379 | the 15 level bytes of CAR_LIGHT_T are in function order: always on, switch positions 0-8, tail, brake, reversing, indicator left and right |
| ByteAccess.GetU16 | tools/configurator/main.js:226-228 | a half-word read is the low byte plus 256 times the high byte, in 0..65535 |
| ByteAccess.Signed32 | tools/configurator/main.js:232-235 | a 32-bit value viewed as signed lies in -2^31..2^31-1 and is congruent to the value modulo 2^32 |
| ByteAccess.GetU32 | tools/configurator/main.js:232-235 | a word read is the signed view of the four bytes; it is negative exactly when the top byte's high bit is set |
| ByteAccess.PutByte | tools/configurator/main.js:239-251 | a store into the typed array keeps the value modulo 256 and changes no other byte |
| ByteAccess.PutU16 | tools/configurator/main.js:239-242 | set_uint16 changes only its two bytes, and get_uint16 reads back the value modulo 2^16 |
| ByteAccess.PutU32 | tools/configurator/main.js:246-251 | set_uint32 changes only its four bytes |
| ByteAccess.PutU32Reads | tools/configurator/main.js:232-251 | set_uint32 stores the value modulo 2^32, and get_uint32 reads back its signed view |
| ByteAccess.Split32 | tools/configurator/main.js:246-251 | a value modulo 2^32 is the sum of its four shifted-and-masked bytes |
| ByteAccess.Signed32Mod | tools/configurator/main.js:232-235 | the signed view ignores multiples of 2^32 |
| ByteAccess.U16RoundTrip | tools/configurator/main.js:226-242 | get_uint16 after set_uint16 returns any 16-bit value |
| ByteAccess.U32RoundTrip | tools/configurator/main.js:232-251 | get_uint32 after set_uint32 returns any signed 32-bit value |
| ByteAccess.U32HighValuesReadNegative | tools/configurator/main.js:232-251 | a stored value of 2^31 or more reads back 2^32 lower, i.e. negative |
| ByteAccess.PutBytes | tools/configurator/main.js:377-379 | a run of byte stores writes exactly the run and nothing else |
| ByteAccess.PutWhatWasRead | tools/configurator/main.js:226-242 | storing the byte or half-word just read leaves the image unchanged |
| ByteAccess.PutU32WhatWasRead | tools/configurator/main.js:232-251 | storing the word just read leaves the image unchanged |
| ByteAccess.PutBytesStep | tools/configurator/main.js:377-379 | a run of stores is its prefix followed by its last store |
| ByteAccess.PutNoBytes | tools/configurator/main.js:377-379 | an empty run stores nothing |
| ByteAccess.SetByte | tools/configurator/main.js:239-251 | one store into the image array, as PutByte describes |
| ByteAccess.SetBytes | tools/configurator/main.js:377-379 | the store loop leaves the array as PutBytes describes |
| ByteAccess.SetU16 | tools/configurator/main.js:239-242 | set_uint16 on the image array, as PutU16 describes |
| ByteAccess.SetU32 | tools/configurator/main.js:246-251 | set_uint32 on the image array, as PutU32 describes |
| ByteAccess.Words | tools/configurator/main.js:255-264 | the word list has one entry per whole 4-byte group, each entry being get_uint32 at 4k |
| ByteAccess.Uint8ArrayToUint32 | tools/configurator/main.js:255-264 | the loop returns one get_uint32 per whole 4-byte group and ignores trailing bytes |
| SectionLocator.HalfWordAt | tools/configurator/main.js:296-297 | an in-range header half-word reads as low plus 256 times high; past the end it is NaN (None) |
| SectionLocator.FindMagicMarkers | tools/configurator/main.js:283-312 | the marker loop returns exactly the scan of the whole image |
| SectionLocator.ScanStep | tools/configurator/main.js:291-309 | one index throws iff a known-section marker there has a version other than 1, with that version; otherwise it adds or overwrites the marked section with index + 8 and keeps every other offset |
| SectionLocator.Scan | tools/configurator/main.js:283-312 | every offset found in the first n indices lies in 8 .. n + 7 |
| SectionLocator.ScanErrorPersists | tools/configurator/main.js:304-306 | once a bad version has been seen, scanning further gives the same error |
| SectionLocator.ScanFailsIff | tools/configurator/main.js:283-312 | the load fails iff some known-section marker has a version other than 1, and the error carries the first such version |
| SectionLocator.ScanFindsEveryMarker | tools/configurator/main.js:291-309 | a section is in the result iff a marker for it occurs in the image |
| SectionLocator.ScanLastWins | tools/configurator/main.js:308-309 | a section's offset is 8 past its last marker in the image |
| SectionLocator.StepEffect | tools/configurator/main.js:291-309 | one scan position sets the marked section's offset to i + 8 and leaves every other section as it was |
| SectionLocator.HeaderIsFound | tools/configurator/main.js:291-309 | a well-formed MAGIC_T header with version 1 is recorded at offset i + 8 |
| SectionLocator.MarkerAtEndOfImage | tools/configurator/main.js:296-309 | a marker whose version's high byte lies past the end still counts as version 1 |
| SectionLocator.TruncatedAndUnknownMarkers | tools/configurator/main.js:296-306 | a marker truncated inside its version fails with a NaN version; an unknown tag is skipped |
| Codec.Pow2 | tools/configurator/main.js:104-106 | powers of two are positive |
| Codec.Pow2Values | tools/configurator/main.js:108-121 | the flag masks reach 0x200 and 0x4000 |
| Codec.PackFlags | tools/configurator/main.js:393-408 | n packed flags fit in n bits |
| Codec.UnpackFlags | tools/configurator/main.js:104-121 | unpacking n flags yields n booleans |
| Codec.BitOfPackFlags | tools/configurator/main.js:393-408 | bit k of the packed word is set iff flag k is set |
| Codec.ZeroHasNoBits | tools/configurator/main.js:393 | the empty flag word has no bit set |
| Codec.UnpackFlagsBits | tools/configurator/main.js:104-121 | unpacked flag k is bit k of the word |
| Codec.PackUnpack | tools/configurator/main.js:104-121 | packing the unpacked flags of an n-bit word gives the word back |
| Codec.UnpackPack | tools/configurator/main.js:393-408 | unpacking packed flags gives the flags back |
| Codec.Configuration.Flags | tools/configurator/main.js:181-189 | the configuration has nine flags, in bit order |
| Codec.Configuration.Counters | tools/configurator/main.js:191-214 | the configuration has 17 half-word counters, in layout order |
| Codec.DecodeConfiguration | tools/configurator/main.js:166-222 | parse_configuration yields bytes, 16-bit counters and a signed 32-bit baud rate |
| Codec.PutU16s | tools/configurator/main.js:457-475 | the counter stores write each counter modulo 2^16 at o + 2k and touch nothing else |
| Codec.EncodeConfiguration | tools/configurator/main.js:438-481 | assemble_configuration writes mode and ESC mode modulo 256 and leaves the bytes outside the record and its padding bytes unchanged |
| Codec.EncodeStages | tools/configurator/main.js:438-481 | assemble_configuration stores mode, ESC mode, flags, counters, baud rate and timeout, in that order |
| Codec.EncodedFlagWord | tools/configurator/main.js:445-455 | the flag word reads back as the packed flags |
| Codec.EncodedCounters | tools/configurator/main.js:457-475 | a 16-bit counter reads back unchanged |
| Codec.EncodedCounterBytes | tools/configurator/main.js:457-475 | any counter reads back modulo 2^16 |
| Codec.EncodedTimeout | tools/configurator/main.js:480 | the no-signal timeout reads back unchanged |
| Codec.EncodedBaudrate | tools/configurator/main.js:479 | a signed 32-bit baud rate reads back unchanged |
| Codec.ConfigurationRoundTrip | tools/configurator/main.js:166-222 | parse_configuration after assemble_configuration returns any in-range configuration |
| Codec.DecodeFromFields | tools/configurator/main.js:166-222 | a record whose fields read as c's fields parses as c |
| Codec.CountersFromFields | tools/configurator/main.js:191-214 | the counters at o + 8 + 2k are read at their named offsets |
| Codec.DecodedFlags | tools/configurator/main.js:175-189 | the parsed flags are the bits of the word at +4 |
| Codec.DecodedCounters | tools/configurator/main.js:191-214 | parsed counter k is the half-word at o + 8 + 2k |
| Codec.PutU16sWhatWasRead | tools/configurator/main.js:457-475 | storing the counters just read leaves the image unchanged |
| Codec.ConfigurationReencode | tools/configurator/main.js:166-222 | assembling the parsed configuration leaves the image unchanged when the flag word has no bit above 8 |
| Codec.ReencodeFlagWord | tools/configurator/main.js:445-455 | storing the re-packed parsed flags leaves a nine-bit flag word unchanged |
| Codec.ReencodeCounters | tools/configurator/main.js:457-475 | storing the parsed counters leaves the image unchanged |
| Codec.EncodedFlagWordFitsNineBits | tools/configurator/main.js:445-455 | an assembled flag word uses only nine bits |
| Codec.DecodeCarLight | tools/configurator/main.js:96-138 | parse_led reads the change limit, the reduction, the 14 flag bits of the half-word at +2 and the 15 level bytes from +4 |
| Codec.EncodeCarLight | tools/configurator/main.js:389-427 | assemble_led writes only the 19 bytes of its record |
| Codec.CarLightRoundTrip | tools/configurator/main.js:96-138 | parse_led after assemble_led returns the record |
| Codec.CarLightReencode | tools/configurator/main.js:389-427 | assembling a parsed record leaves the image unchanged when its flag half-word has no bit above 13 |
| Codec.EncodeEntries | tools/configurator/main.js:431-433 | the record loop writes only the table, 20 bytes per record, and leaves the free last byte of every record unchanged |
| Codec.EntriesRoundTrip | tools/configurator/main.js:142-144 | record i reads back after the whole loop, later records notwithstanding |
| Codec.LaterEntryKeepsEarlier | tools/configurator/main.js:431-433 | storing record n does not change record i < n |
| Codec.SameBytesSameCarLight | tools/configurator/main.js:96-138 | a record depends only on its first 19 bytes; its free last byte is never read |
| Codec.EntriesReencode | tools/configurator/main.js:431-433 | re-storing parsed records leaves the table unchanged |
| Codec.ReencodeLastEntry | tools/configurator/main.js:431-433 | re-storing the last parsed record after the others leaves the table unchanged |
| Codec.LastEntry | tools/configurator/main.js:431-433 | the loop is its prefix followed by its last record |
| Codec.DecodeLeds | tools/configurator/main.js:86-147 | parse_leds returns led_count well-formed records |
| Codec.EncodeLeds | tools/configurator/main.js:384-434 | assemble_leds writes only the count byte and the table, and leaves the free last byte of every record unchanged unless it is the count byte |
| Codec.LedsRoundTrip | tools/configurator/main.js:86-147 | parse_leds after assemble_leds returns the records, with the table offset unchanged |
| Codec.LedsReencode | tools/configurator/main.js:384-434 | assembling the parsed LEDs leaves the image unchanged |
| Codec.DecodeGamma | tools/configurator/main.js:151-162 | the gamma identifier is the three characters whose codes are the bytes at +0..+2 |
| Codec.CodeUnits | tools/configurator/main.js:372-374 | a character is one UTF-16 code unit below 0x10000, otherwise a high and a low surrogate that encode it |
| Codec.Utf16 | tools/configurator/main.js:372-374 | a string has between one and two code units per character, each below 0x10000, and exactly its characters when all lie below 0x10000 |
| Codec.CharCodeAt | tools/configurator/main.js:372-374 | `charCodeAt(k)` is a code unit below 0x10000; it is the k-th character for a string of single-unit characters, and 0 (NaN stored) past the end |
| Codec.EncodeGamma | tools/configurator/main.js:368-380 | assemble_gamma writes the low bytes of the first three UTF-16 code units and the table from +4, and leaves +3 and everything else unchanged |
| Codec.GammaRoundTrip | tools/configurator/main.js:151-162 | parse_gamma after assemble_gamma returns a three-character, 8-bit identifier |
| Codec.GammaIdentifierTruncated | tools/configurator/main.js:368-380 | any identifier reads back as its first three UTF-16 code units modulo 256, 0 past its end |
| Codec.GammaSurrogatePair | tools/configurator/main.js:372-374 | an identifier starting with U+1F600 stores the low bytes of its two surrogates, so "\u{1F600}a" reads back as "=", NUL, "a" |
| Codec.GammaReencode | tools/configurator/main.js:368-380 | assembling the parsed identifier with the table already there leaves the image unchanged |
| Codec.ProgramWords | tools/configurator/main.js:268-280 | the light-program words start 104 bytes into the section, one get_uint32 per whole group, none when that start lies past the end |
| Codec.SameBytesSameConfiguration | tools/configurator/main.js:166-222 | the configuration depends only on its own 50 bytes other than the padding at +2, +3, +42 and +43 |
| Codec.SameBytesSameLeds | tools/configurator/main.js:86-147 | the LED bank depends only on its header and its table |
| Codec.SameBytesSameGamma | tools/configurator/main.js:151-162 | the identifier depends only on its three bytes |
| Firmware.DecodeSections | tools/configurator/main.js:331-358 | parse_firmware yields an in-range configuration, both banks with their led_count records, and a three-character identifier |
| Firmware.Footprints | tools/configurator/main.js:485-491 | the assemble steps touch six byte spans |
| Firmware.ApartPair | tools/configurator/main.js:485-491 | pairwise-disjoint spans are disjoint two by two |
| Firmware.ConfigWriteKeeps | tools/configurator/main.js:438-481 | assemble_configuration keeps every span disjoint from the record |
| Firmware.LedsWriteKeeps | tools/configurator/main.js:384-434 | assemble_leds keeps every span disjoint from its header and table |
| Firmware.GammaWriteKeeps | tools/configurator/main.js:368-380 | assemble_gamma keeps every span disjoint from its section |
| Firmware.KeptHeader | tools/configurator/main.js:91-94 | an LED header left intact keeps its count and table offset |
| Firmware.ConfigKeepsHeader | tools/configurator/main.js:485-487 | assembling the configuration keeps a disjoint LED header |
| Firmware.LedsKeepHeader | tools/configurator/main.js:487-488 | assembling one bank keeps the other bank's header |
| Firmware.AfterConfig | tools/configurator/main.js:485-487 | after the configuration step both LED table offsets are unchanged |
| Firmware.AfterLocal | tools/configurator/main.js:485-488 | after the local-LED step the slave table offset is unchanged |
| Firmware.AfterSlave | tools/configurator/main.js:485-489 | the slave-LED step keeps the image size |
| Firmware.EncodeFirmware | tools/configurator/main.js:485-491 | assemble_firmware keeps the image size |
| Firmware.LedsSurvive | tools/configurator/main.js:86-147 | a bank whose header and table are kept parses the same |
| Firmware.KeptTrans | tools/configurator/main.js:485-491 | a span kept by two steps is kept by both together |
| Firmware.LedsKeepConfig | tools/configurator/main.js:384-434 | assembling LEDs away from the configuration keeps it |
| Firmware.GammaKeepsConfig | tools/configurator/main.js:368-380 | assembling gamma away from the configuration keeps it |
| Firmware.LedsKeepLeds | tools/configurator/main.js:384-434 | assembling one bank away from another keeps the other |
| Firmware.GammaKeepsLeds | tools/configurator/main.js:368-380 | assembling gamma away from a bank keeps the bank |
| Firmware.ConfigKeptByLeds | tools/configurator/main.js:485-489 | after both LED steps the configuration still parses as assembled |
| Firmware.ConfigSurvives | tools/configurator/main.js:485-491 | after assemble_firmware the configuration parses as assembled |
| Firmware.LocalLedsStored | tools/configurator/main.js:485-488 | after the local step the local bank parses as assembled |
| Firmware.LedsStepKeepsLeds | tools/configurator/main.js:487-488 | the slave step keeps the local bank and its table offset |
| Firmware.LocalLedsKeptBySlave | tools/configurator/main.js:485-489 | after the slave step the local bank still parses as assembled |
| Firmware.LocalLedsSurvive | tools/configurator/main.js:485-491 | after assemble_firmware the local bank parses as assembled |
| Firmware.SlaveLedsSurvive | tools/configurator/main.js:485-491 | after assemble_firmware the slave bank parses as assembled |
| Firmware.FirmwareRoundTrip | tools/configurator/main.js:331-358 | parse_firmware after assemble_firmware returns the edited configuration, both banks and the identifier, when the sections are disjoint |
| Configurator.Load | tools/configurator/main.js:316-327 | the load fails exactly when the scan fails, with its error; otherwise the image is fresh with the scan's offsets |
| Configurator.PutU16sStep | tools/configurator/main.js:457-475 | the counter stores are their prefix followed by their last store |
| Configurator.SetU16s | tools/configurator/main.js:457-475 | the counter stores leave the array as PutU16s describes |
| Configurator.StoreConfiguration | tools/configurator/main.js:438-481 | the stores leave the array as EncodeConfiguration describes |
| Configurator.StoreLed | tools/configurator/main.js:389-427 | assemble_led's stores leave the array as EncodeCarLight describes: the 19 record bytes written, the free byte and the rest unchanged |
| Configurator.EntriesStep | tools/configurator/main.js:431-433 | record i is stored after records 0..i-1 |
| Configurator.StoreEntries | tools/configurator/main.js:431-433 | the record loop leaves the array as EncodeEntries describes, free bytes included |
| Configurator.StoreLeds | tools/configurator/main.js:384-434 | assemble_leds' stores leave the array as EncodeLeds describes, free bytes included |
| Configurator.StoreGamma | tools/configurator/main.js:368-380 | assemble_gamma's stores leave the array as EncodeGamma describes: the low bytes of the first three UTF-16 code units, then the table |
| Configurator.FirmwareImage.constructor | tools/configurator/main.js:316-327 | the loaded image holds the bytes and the offsets |
| Configurator.FirmwareImage.ParseLeds | tools/configurator/main.js:86-147 | the loop returns DecodeLeds of the section |
| Configurator.FirmwareImage.ParseSections | tools/configurator/main.js:331-358 | parse_firmware returns DecodeSections and the light-program words |
| Configurator.FirmwareImage.AssembleConfiguration | tools/configurator/main.js:438-481 | the image becomes EncodeConfiguration of the old image |
| Configurator.FirmwareImage.AssembleLeds | tools/configurator/main.js:384-434 | the image becomes EncodeLeds of the old image, so every record's free byte is kept |
| Configurator.FirmwareImage.AssembleGamma | tools/configurator/main.js:368-380 | the image becomes EncodeGamma of the old image: UTF-16 code units, truncated to their low bytes |
| Configurator.FirmwareImage.AssembleFirmware | tools/configurator/main.js:485-491 | the four steps, in order, leave the image as EncodeFirmware describes, whose round trip FirmwareRoundTrip proves |
| Lights.SwitchUp | firmware/tlc5940-lpc812/lights.c:210-215 | up either keeps the position or moves it one step (8-bit), and it moves exactly when the next position is below the number of positions |
| Lights.SwitchDown | firmware/tlc5940-lpc812/lights.c:219-224 | down moves at most one step toward 0, and stays put exactly at 0 |
| Lights.SwitchToggle | firmware/tlc5940-lpc812/lights.c:228-236 | toggle goes to 0 or to the top position (8-bit), to 0 from the top, and stays inside 1..256 configured positions |
| Lights.SwitchKeepsRange | firmware/tlc5940-lpc812/lights.c:210-236 | up, down and toggle keep a position below the number of positions inside that range |
| Lights.SwitchUpDown | firmware/tlc5940-lpc812/lights.c:210-224 | up moves one step iff not at the top; down undoes up, and up undoes down |
| Lights.ToggleTwice | firmware/tlc5940-lpc812/lights.c:228-236 | from below the top, toggle goes to the top position and a second toggle goes to 0 |
| Lights.SwitchOutOfRange | firmware/tlc5940-lpc812/lights.c:210-236 | with more than 256 positions configured, up from 255 wraps to 0 and toggle lands on the top position truncated to 8 bits; with 0 positions, up does nothing and toggle goes to 0 |
| Lights.GetLightValue | firmware/tlc5940-lpc812/lights.c:240-279 | each function code 0..14 selects its level from the record; any other code gives 0 |
| Lights.IsValueZero | firmware/tlc5940-lpc812/lights.c:283-289 | true iff the function code is outside 0..14 or the record's level for it is 0 |
| Lights.MixLight | firmware/tlc5940-lpc812/lights.c:300-303 | mixing keeps the larger of the LED and the value |
| Lights.MixCarLight | firmware/tlc5940-lpc812/lights.c:331-335 | the LED becomes the larger of itself and the record's level for the code, and stays unchanged for codes outside 0..14 |
| Lights.IndicatorActive | firmware/tlc5940-lpc812/lights.c:354-358 | the indicator branch needs hazard or an indicator flag, and a record with both indicator levels 0 takes it only under hazard |
| Lights.CombinedTailBrake | firmware/tlc5940-lpc812/lights.c:339-348 | the result is at least the LED, the tail level when the switch is on, and the brake level when braking, and is one of those |
| Lights.CombinedTailBrakeIndicators | firmware/tlc5940-lpc812/lights.c:352-401 | the result is at least the LED; with no active indicator it is combined_tail_brake; it is always the LED, the tail, brake or an indicator level |
| Lights.CombinedBlinkTable | firmware/tlc5940-lpc812/lights.c:359-400 | the table: in the light period, brake, else tail, else the hazard indicators; in the dark period, tail only when braking with the switch on, else off |
| Lights.IsLightAffected | firmware/tlc5940-lpc812/lights.c:405-466 | no flag set means not affected; above the switch positions, with no brake, reversing or blink, only the tail flag matters |
| Lights.IsLightAffectedIff | firmware/tlc5940-lpc812/lights.c:405-466 | the weak ground applies iff some set flag's condition holds: its switch position, tail when on, brake, reversing, or an indicator in its light period |
| Lights.CDiv | firmware/tlc5940-lpc812/lights.c:476-479 | C division truncates toward zero for either sign |
| Lights.SimulateWeakGround | firmware/tlc5940-lpc812/lights.c:470-481 | unaffected lights and a 0 reduction are unchanged; up to 100 % the level drops to the floor of led × (100 − percent) / 100 |
| Lights.Reduce | firmware/tlc5940-lpc812/lights.c:476-479 | the reduced level is at most the LED and is the floor of led × (100 − percent) / 100 |
| Lights.ScaledBounds | firmware/tlc5940-lpc812/lights.c:476-479 | the scaled intermediate lies in 0..led × 100 |
| Lights.MulMonotone | firmware/tlc5940-lpc812/lights.c:476-479 | multiplying by a larger factor gives a larger product |
| Lights.WeakGroundAbove100 | firmware/tlc5940-lpc812/lights.c:470-481 | a 200 % reduction wraps in 8 bits: 255 becomes 1 and 1 becomes 255 |
| Lights.MixedLevel | firmware/tlc5940-lpc812/lights.c:485-520 | the mixed level is one of the record's levels, and at least always-on, the current switch position's level and, when reversing, the reversing level |
| Lights.ProcessLight | firmware/tlc5940-lpc812/lights.c:485-523 | the limit is the record's change limit; without weak ground the value is the mixed level; up to 100 % reduction it never exceeds the mixed level |
| Lights.SeparateFunctionsShow | firmware/tlc5940-lpc812/lights.c:508-519 | a light without the combined function shows tail, brake and each blinking indicator at least at its level |
| Lights.CombinedBrakeBlinks | firmware/tlc5940-lpc812/lights.c:352-401 | a combined tail/brake/indicator LED with zero always-on and switch-off levels goes dark in the dark period even while braking |
| Lights.SlewValue | firmware/tlc5940-lpc812/lights.c:564-572 | with limit 0 the light jumps to the setpoint; otherwise it moves toward it by at most the limit, exactly the limit unless it arrives |
| Lights.CalculateStepValue | firmware/tlc5940-lpc812/lights.c:307-319 | the step stays between current and target, moves at most max_change, reaches the target when within reach and otherwise moves exactly max_change |
| Lights.SlewConverges | firmware/tlc5940-lpc812/lights.c:564-572 | after n systicks with n × limit at least the distance, the light is at its setpoint |
| Lights.SlewStaysAtSetpoint | firmware/tlc5940-lpc812/lights.c:564-572 | a light at its setpoint stays there |
| Lights.ReceiveByte | firmware/tlc5940-lpc812/lights.c:591-617 | one received byte keeps the receiver state in 0..16 |
| Lights.Receive | firmware/tlc5940-lpc812/lights.c:590-618 | the receiver over pending bytes keeps its state in 0..16 |
| Lights.ReceiveConcat | firmware/tlc5940-lpc812/lights.c:590-618 | receiving a + b is receiving a, then b |
| Lights.ReceiveOne | firmware/tlc5940-lpc812/lights.c:591-617 | receiving one byte is one step of the state machine |
| Lights.StrayBytesIgnored | firmware/tlc5940-lpc812/lights.c:602-604 | while waiting for a magic byte, other bytes change nothing |
| Lights.FrameLevels | firmware/tlc5940-lpc812/lights.c:608-609 | a frame's values, shifted left by 2 in 8 bits, replace the first levels |
| Lights.FrameProgress | firmware/tlc5940-lpc812/lights.c:602-616 | fewer than 16 values after the magic byte store their levels and leave the receiver expecting the next |
| Lights.SlaveFrame | firmware/tlc5940-lpc812/lights.c:596-616 | a magic byte and 16 values store all 16 levels, pass the frame on once and return to waiting |
| Lights.MasterFrame | firmware/tlc5940-lpc812/lights.c:575-581 | the master sends the magic byte, then each gamma-corrected output shifted right by 2 |
| Lights.MasterFrameReceived | firmware/tlc5940-lpc812/lights.c:575-617 | a master frame for 16 lights arrives as those outputs with their two low bits cleared, and is passed on once |
| Lights.ShortMasterFrameNotPassedOn | firmware/tlc5940-lpc812/lights.c:575-617 | a master frame for fewer than 16 lights is never passed on |
| Lights.Outputs | firmware/tlc5940-lpc812/lights.c:546-560 | process_light gives one output per LED |
| Lights.LightController.constructor | firmware/tlc5940-lpc812/lights.c:157-205 | the globals start at zero, with the switch at its configured initial position |
| Lights.LightController.LightSwitchUp | firmware/tlc5940-lpc812/lights.c:210-215 | the switch position becomes SwitchUp of the old one |
| Lights.LightController.LightSwitchDown | firmware/tlc5940-lpc812/lights.c:219-224 | the switch position becomes SwitchDown of the old one |
| Lights.LightController.ToggleLightSwitch | firmware/tlc5940-lpc812/lights.c:228-236 | the switch position becomes SwitchToggle of the old one |
| Lights.LightController.StoreOutputs | firmware/tlc5940-lpc812/lights.c:546-560 | LED k's output goes to light first + k unless its leds_used bit is set; every other light keeps its setpoint and limit |
| Lights.LightController.Slew | firmware/tlc5940-lpc812/lights.c:564-572 | every light's actual value becomes SlewValue of its old value, setpoint and limit |
| Lights.LightController.ProcessCarLights | firmware/tlc5940-lpc812/lights.c:527-572 | unprogrammed local LEDs (up to 32) and then, with slave output on, slave LEDs from light 16 get process_light's output, the slave ones winning where both write; the others keep theirs; then every light slews |
| Lights.LightController.ProcessSlave | firmware/tlc5940-lpc812/lights.c:586-620 | the state, frame count, setpoints and actual values become the receiver's run over the pending bytes |
| Agreement.FirmwareReadsParsedLevels | firmware/tlc5940-lpc812/lights.c:240-279 | the level the firmware selects for function f is the byte at +4+f of the record the configurator parses |
| Agreement.FirmwareReadsAssembledLevels | firmware/tlc5940-lpc812/globals.h:369-379 | the configurator stores each function's level where the firmware reads it |
| Agreement.WeakGroundFromImage | firmware/tlc5940-lpc812/globals.h:342-361 | the weak-ground flags are the bits of the half-word at +2, and the firmware applies the weak ground iff one set bit's condition holds |
| Agreement.EndOfProgramsReadsNegative | firmware/tlc5940-lpc812/globals.h:72-73 | END_OF_PROGRAMS stored little-endian reads back through get_uint32 as −0x1000000 |

## Left out

- The user interface is not modelled: the DOM, the form fields, and the load and save of files and configuration JSON. These are I/O.
- The Intel-hex parser and writer are not modelled. The image is taken as bytes.
- `gamma.make_table` is not part of this model. The gamma table is a parameter of assemble_gamma.
- assemble_light_programs stores nothing in the source, and it stores nothing here.
- The light-program disassembler is not part of this model. Only the word list it is given is modelled.
- The section-name and mode reverse-lookup tables appear only as `SectionOfTag` and the `Section` datatype.
- The source never checks that a section is present or that its reads are in bounds. The model states these as preconditions: `Parsable`, `Assemblable` and `LedsReadable`.
- Configurator.FirmwareImage.AssembleFirmware: `Assemblable` also requires every store to lie inside the image, where a Uint8Array silently drops a store out of bounds, and requires the six footprints (configuration, both LED headers, both LED tables, gamma) to be pairwise disjoint (`AllApart`). assemble_firmware checks neither, so overlapping sections or stores past the end are not modelled.
- Codec.EncodeCarLight: the record's fields are bytes. assemble_led stores arbitrary JavaScript numbers from the form, which a Uint8Array keeps modulo 256 (NaN as 0), so a 120 % level computed as 306 is stored as 50. The model takes the record after that wrap; PutByte states the wrap for a single store.
- Configurator.StoreLed: takes byte-valued fields, as Codec.EncodeCarLight does; out-of-range form values are not modelled.
- Configurator.FirmwareImage.AssembleLeds: takes byte-valued records, as Codec.EncodeCarLight does; out-of-range form values are not modelled.
- The hardware side is not modelled. This covers the SPI transfer to the TLC5940, GPIO, UART output, the diagnostics printout and the systick timer.
- process_light_programs is not part of this model. Its `leds_used` mask is an input of ProcessCarLights.
- The `global_flags` come from other modules, so they are a parameter.
- The GLOBAL_FLAGS_T bitfield layout is not modelled.
- Lights.LightController.ProcessCarLights: requires at most 32 local LEDs and at most 16 slave LEDs. More than that writes past the 32-entry light_setpoint in the source. The design is 16 local lights and 16 at a slave; a local bank of 17 to 32 LEDs is modelled, and slave output overwrites its entries from 16 on.
- Lights.LightController.ProcessCarLights: does not send the master frame. MasterFrame describes that frame over the gamma-corrected outputs, and the gamma lookup is left to the caller.
- Lights.LightController.ProcessCarLights: computes every bank's outputs before storing them. The source interleaves computation and stores. The two are equivalent because process_light reads only the record, the switch position and the flags.
- Lights.LightController.constructor: the initial light-switch position is a parameter, because that configuration field does not appear in globals.h.
- lights.c passes outputs back through out-parameters. The model returns them as values.
- Configurator.SetU16s: models assemble_configuration's run of set_uint16 calls as a loop.
- Configurator.FirmwareImage.ParseSections: the light-program words are read but not disassembled.
