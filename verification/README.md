# Dekatron clock firmware: utilities and the SPIFFS store, in Dafny

This project models two parts of the DecatronClockFirmware sketch and proves properties of the model.

The first part is the string and number helpers in `ClockUtils.cpp`:
- `getValue` and `getIntValue` pick one field out of a separated string;
- `formatIPAsString` prints an IP address;
- `secsToReadableString` prints an uptime in days, hours, minutes and seconds;
- `timeToReadableString` prints a date and time with `sprintf`;
- `grabInts` splits a string into integers in a caller's array;
- `hex2bcd` packs a number into BCD;
- `nibble` and `hexCharacterStringToBytes` read hex digits.

The second part is the persistent store in `SPIFFS.h` and `SPIFFS.cpp`. The `SPIFFS_CLOCK` component loads and saves a sixteen-field configuration record in `/config.json` and two usage counters in `/stats.json`. It does so on the ESP8266 flash file system and reports progress through an optional debug callback.

Files:
- `arduino.dfy` (module `Arduino`) holds the platform behaviour the code relies on:
  - fixed-width integers and the C conversions into them;
  - the decimal text of `String(n)`;
  - `atoi` / `String::toInt`;
  - `String::substring` with its unsigned bounds;
  - `String::indexOf`;
  - `strlen`;
  - C's truncating division;
  - `|` on non-negative numbers.
- `clock_utils.dfy` (module `ClockUtils`) models `ClockUtils.cpp`:
  - `GetValue`, `GrabInts` and `HexCharacterStringToBytes` keep the loops of the source, and `SecsToReadableString` keeps its sequence of string appends. Each is a method whose contract ties its result to a specification function.
  - The `dest` and `byteArray` pointers are Dafny arrays.
  - Lemmas relate the specification functions to each other.
- `flash.dfy` (module `Flash`) is the file system as the store sees it. A `Volume` holds:
  - a mounted flag;
  - a map from path to content;
  - a count of open handles;
  - a count of `end()` calls.

  A file holds either a JSON object or something that does not parse as one. Whether `begin()` and `open()` succeed on the device is passed in as an `Io` value.
- `spiffs.dfy` (module `Spiffs`) models the store:
  - `spiffs_config_t` and `spiffs_stats_t` are classes whose fields the load methods assign one by one.
  - `SPIFFS_CLOCK` is the class `SpiffsClock`.
  - Each call of the debug callback is recorded in `sent`, with the text the callback receives.
  - The `json[...]` reads and writes are `DecodeConfig`/`EncodeConfig` and `DecodeStats`/`EncodeStats`.

In the code, `saveConfigToSpiffs` and `saveStatsToSpiffs` return before `SPIFFS.end()` when the file does not open for writing (SPIFFS.cpp:146-151 and 227-232), so the volume stays mounted. `SaveConfigToSpiffs` and `SaveStatsToSpiffs` state this.

## Model

| member | source | states |
|---|---|---|
| ClockUtils.GetValue | DecatronClockFirmware/ClockUtils.cpp:17-29 | The single scan returns field `index` of `data`: the text between the previous cut and the next separator (or the end). It returns "" when there are not that many fields and the whole string for a negative index (`substring(0, -1)`). |
| ClockUtils.FieldAtJoin | DecatronClockFirmware/ClockUtils.cpp:17-29 | For parts free of the separator joined by it, with a non-empty last part, field `i` is part `i`. An index past the last part gives "" and a negative index gives the whole text. |
| ClockUtils.FieldsOfJoin | DecatronClockFirmware/ClockUtils.cpp:21-26 | The fields getValue cuts out of such a join are exactly the parts. |
| ClockUtils.TrailingSepKept | DecatronClockFirmware/ClockUtils.cpp:22-25 | A trailing separator is not a cut. It stays inside the last field, because the last character always closes the field with `i + 1`. |
| ClockUtils.TrailingSepExample | DecatronClockFirmware/ClockUtils.cpp:22-28 | `getValue("a,", ',', 0)` is "a,". |
| ClockUtils.FieldAtIsSlice | DecatronClockFirmware/ClockUtils.cpp:28 | Whatever getValue returns is a contiguous piece of `data`. |
| ClockUtils.GetIntValue | DecatronClockFirmware/ClockUtils.cpp:9-12 | The result is `atoi` of the field getValue returns, saturated to `int`. |
| ClockUtils.FormatIPAsString | DecatronClockFirmware/ClockUtils.cpp:5-7 | The dotted text of any address is 7 to 15 characters long, since each octet prints as one to three digits. |
| ClockUtils.FormatIPIsJoin | DecatronClockFirmware/ClockUtils.cpp:5-7 | The dotted text is the four decimal octets joined by '.', and no octet text holds a dot. |
| ClockUtils.FormatIPDots | DecatronClockFirmware/ClockUtils.cpp:5-7 | The dotted text holds exactly three dots. |
| ClockUtils.FormatIPRoundTrip | DecatronClockFirmware/ClockUtils.cpp:5-12 | `getValue(formatIPAsString(ip), '.', i)` is octet `i` in decimal, and `getIntValue` of it is octet `i`, for every `i` < 4. |
| ClockUtils.BreakdownSum | DecatronClockFirmware/ClockUtils.cpp:33-36 | With C's truncating division, days·86400 + hours·3600 + minutes·60 + seconds equals the input, whatever its sign. |
| ClockUtils.BreakdownBounds | DecatronClockFirmware/ClockUtils.cpp:33-36 | For a non-negative count the parts are in clock range. For a negative count every part is zero or negative. |
| ClockUtils.BreakdownUnique | DecatronClockFirmware/ClockUtils.cpp:33-36 | For a non-negative count, the parts are the only in-range parts that add up to it. |
| ClockUtils.SecsToReadableString | DecatronClockFirmware/ClockUtils.cpp:32-54 | The text is each of days, hours and minutes that is > 0 followed by its unit, then the seconds and " s", for the truncating breakdown of the input. |
| ClockUtils.UptimeEndsWithSeconds | DecatronClockFirmware/ClockUtils.cpp:50-51 | The text always ends with the seconds and " s". |
| ClockUtils.UptimeSecondsOnly | DecatronClockFirmware/ClockUtils.cpp:38-51 | Below one minute, and for every negative input, only the seconds part is printed. For 0 ≤ t < 60 the seconds are t. |
| ClockUtils.UptimeAllParts | DecatronClockFirmware/ClockUtils.cpp:38-51 | When days, hours and minutes are all non-zero the text is "D d H h M m S s". |
| ClockUtils.TimeToReadableString | DecatronClockFirmware/ClockUtils.cpp:56-60 | The `sprintf` rendering, with `%04d`/`%02d` padding and signs. Its contract is only the buffer bound: under the requirement that the fields fit, the text and its NUL fit `buf1[20]`. The layout is stated by TimeLayout. |
| ClockUtils.TimeLayout | DecatronClockFirmware/ClockUtils.cpp:56-60 | For a 4-digit year and 2-digit other fields the text is 19 characters with ':', ':', ' ', ':', ':' at positions 4, 7, 10, 13 and 16. Each field is zero-padded digits that read back as its value. |
| ClockUtils.JoinSplit | DecatronClockFirmware/ClockUtils.cpp:78-88 | The segments grabInts visits, joined with the separator, give back the string. |
| ClockUtils.SplitCount | DecatronClockFirmware/ClockUtils.cpp:78-88 | grabInts visits one segment more than there are separators, so that many cells of `dest` are written. |
| ClockUtils.GrabInts | DecatronClockFirmware/ClockUtils.cpp:78-88 | As written: cell `j` of `dest` receives `toInt` of the text the loop reads for segment `j`, one cell per segment. No other cell changes. |
| ClockUtils.LeadingSepQuirk | DecatronClockFirmware/ClockUtils.cpp:81-86 | With a separator at position 0 the first segment is empty, yet `end > 0` fails and the whole string is read in its place. For "-5-3" and '-' that stores -5 where the segment reads 0. |
| ClockUtils.GrabIntsIntended | DecatronClockFirmware/ClockUtils.cpp:78-88 | With `end >= 0`: cell `j` receives `toInt` of segment `j` of the string, and no other cell changes. |
| ClockUtils.Hex2Bcd | DecatronClockFirmware/ClockUtils.cpp:90-95 | Or-ing the shifted tens with the units adds them. The shift is kept to 8 bits: (16·(x/10) mod 256) + x mod 10. |
| ClockUtils.Hex2BcdDigits | DecatronClockFirmware/ClockUtils.cpp:90-95 | For x ≤ 99 the high nibble is the tens, the low nibble is the units, and reading the BCD byte back gives x. |
| ClockUtils.Hex2BcdInjective | DecatronClockFirmware/ClockUtils.cpp:90-95 | Distinct numbers ≤ 99 pack to distinct bytes. |
| ClockUtils.Hex2BcdWraps | DecatronClockFirmware/ClockUtils.cpp:92 | From 160 on the tens overflow the byte: 160 packs to 0, like 0. |
| ClockUtils.Nibble | DecatronClockFirmware/ClockUtils.cpp:117-128 | The result is below 16, and 0 for any character that is not a hex digit. |
| ClockUtils.NibbleOfHexDigit | DecatronClockFirmware/ClockUtils.cpp:117-126 | The lower-case and upper-case hex digit of every v < 16 reads as v. |
| ClockUtils.HexDigitOfNibble | DecatronClockFirmware/ClockUtils.cpp:117-126 | Every hex digit is the lower-case or upper-case digit of the value it reads as. |
| ClockUtils.HexCharacterStringToBytes | DecatronClockFirmware/ClockUtils.cpp:108-115 | Cell `i` of `byteArray` receives `nibble` of character `i`, for each `i` before the first NUL. Every later cell is unchanged. |
| Arduino.PadIntWidth | DecatronClockFirmware/ClockUtils.cpp:58 | `%0wd` of a number below 10^w prints exactly w digits that read back as the number. |
| Arduino.IntToString | DecatronClockFirmware/ClockUtils.cpp:39-51 | `String(long)` of a non-negative value is a digit string whose value is the number; of a negative value it is '-' followed by a digit string whose value is the magnitude. |
| Arduino.DigitsValueIsReadDigits | DecatronClockFirmware/ClockUtils.cpp:11 | On every digit string, the digit loop of `atoi` gives the same number as the positional value used for the printed fields, so the two readings agree. |
| Arduino.ToIntOfIntToString | DecatronClockFirmware/ClockUtils.cpp:11 | `atoi` reads back every `int` that `String(n)` prints. |
| Arduino.Substring | DecatronClockFirmware/ClockUtils.cpp:28 | In-range bounds give that slice, and `(0, -1)` gives the whole string, because -1 converts to the largest unsigned value. |
| Arduino.IndexOf | DecatronClockFirmware/ClockUtils.cpp:81 | The result is the first position at or after `from` holding the character, or -1 when there is none. |
| Arduino.Strlen | DecatronClockFirmware/ClockUtils.cpp:111 | The result is the position of the first NUL, or the whole buffer when it holds none. |
| Spiffs.Stats.constructor | DecatronClockFirmware/SPIFFS.h:33-36 | A fresh `spiffs_stats_t` has both counters 0. |
| Spiffs.SpiffsClock.constructor | DecatronClockFirmware/SPIFFS.h:58-61 | The static component starts with a null callback, debugging off and not mounted. It has sent nothing, so `AllTagged` holds. |
| Spiffs.ConfigKeysCount | DecatronClockFirmware/SPIFFS.cpp:129-144 | The configuration is saved under sixteen distinct keys. |
| Spiffs.EncodeConfigKeys | DecatronClockFirmware/SPIFFS.cpp:127-144 | The object a save builds has exactly those sixteen keys. |
| Spiffs.DecodeEncodeConfig | DecatronClockFirmware/SPIFFS.cpp:55-144 | Each of the sixteen fields is read back from the key it was saved under, so decoding the saved object gives the record back. |
| Spiffs.DecodeConfigOtherKeys | DecatronClockFirmware/SPIFFS.cpp:55-101 | Keys other than the sixteen do not change what a load copies out. |
| Spiffs.EncodeStatsKeys | DecatronClockFirmware/SPIFFS.cpp:222-225 | The stats object has exactly the keys "uptime" and "tubeontime". |
| Spiffs.DecodeEncodeStats | DecatronClockFirmware/SPIFFS.cpp:192-225 | Both counters are read back from the keys they were saved under. |
| Spiffs.SpiffsClock.DebugMsg | DecatronClockFirmware/SPIFFS.cpp:250-254 | With a callback set and debugging on, that callback receives exactly one text: "SPIFFS: " followed by the message. Otherwise nothing is sent. Nothing else changes, and every text sent so far still starts with the tag (`AllTagged`). |
| Spiffs.SpiffsClock.SetDebugCallback | DecatronClockFirmware/SPIFFS.cpp:259-262 | The callback is installed, then announced to itself when debugging is on, with the tagged text "SPIFFS: Debugging started, callback set". |
| Spiffs.SpiffsClock.SetDebugOutput | DecatronClockFirmware/SPIFFS.cpp:267-269 | Only the debug flag changes. |
| Spiffs.SpiffsClock.TestMountSpiffs | DecatronClockFirmware/SPIFFS.cpp:12-20 | The result and `_spiffsMounted` are whether `begin()` succeeded. On success the volume is unmounted once more. Files and handles are untouched. |
| Spiffs.SpiffsClock.GetSpiffsMounted | DecatronClockFirmware/SPIFFS.cpp:25-27 | Returns the last mount test's result. |
| Spiffs.SpiffsClock.CopyTimeFields | DecatronClockFirmware/SPIFFS.cpp:55-65 | `ntpPool`, `ntpUpdateInterval`, `tzs` and `showSeconds` take their decoded values, each copy followed by one debug line. |
| Spiffs.SpiffsClock.CopyBlankingFields | DecatronClockFirmware/SPIFFS.cpp:67-77 | The same for `flashSeconds` and the three blanking bytes. |
| Spiffs.SpiffsClock.CopyControlFields | DecatronClockFirmware/SPIFFS.cpp:79-89 | The same for `pirTimeout`, `usePIRPullup`, `testMode` and `webAuthentication`. |
| Spiffs.SpiffsClock.CopyWebFields | DecatronClockFirmware/SPIFFS.cpp:91-101 | The same for the web credentials, `displayRotate` and `spinUpSpeed`. |
| Spiffs.SpiffsClock.CopyConfig | DecatronClockFirmware/SPIFFS.cpp:55-101 | The whole record becomes the decoded object, with sixteen debug lines when debugging is active. |
| Spiffs.SpiffsClock.ReadConfig | DecatronClockFirmware/SPIFFS.cpp:39-109 | The record is written exactly when the file opens and parses, and is left untouched otherwise. An opened file is closed again. |
| Spiffs.SpiffsClock.GetConfigFromSpiffs | DecatronClockFirmware/SPIFFS.cpp:32-117 | Returns true exactly when the volume mounts and "/config.json" exists, opens and parses. Only then does the record change, to the decoded values. The volume is unmounted exactly once, no handle is left open and no file changes. |
| Spiffs.SpiffsClock.WriteConfig | DecatronClockFirmware/SPIFFS.cpp:125-158 | "/config.json" holds the encoded record exactly when it opens for writing, and the volume stays mounted. |
| Spiffs.SpiffsClock.SaveConfigToSpiffs | DecatronClockFirmware/SPIFFS.cpp:122-164 | If the volume mounts and the file opens, "/config.json" holds the encoded record and the volume is unmounted. If the mount fails, nothing is written and the volume is unmounted. If only the open fails, nothing is written and `end()` is skipped. |
| Spiffs.SpiffsClock.ReadStats | DecatronClockFirmware/SPIFFS.cpp:176-204 | Both counters are written exactly when the file opens and parses, and are left untouched otherwise. An opened file is closed again. |
| Spiffs.SpiffsClock.GetStatsFromSpiffs | DecatronClockFirmware/SPIFFS.cpp:169-212 | The same success condition and unmount discipline as the configuration load, for "/stats.json" and its two counters. |
| Spiffs.SpiffsClock.WriteStats | DecatronClockFirmware/SPIFFS.cpp:220-239 | "/stats.json" holds the encoded counters exactly when it opens for writing. |
| Spiffs.SpiffsClock.SaveStatsToSpiffs | DecatronClockFirmware/SPIFFS.cpp:217-245 | The same three outcomes as the configuration save, for "/stats.json". |
| Spiffs.ConfigRoundTrip | DecatronClockFirmware/SPIFFS.cpp:32-164 | On a volume where mount and open succeed, saving then loading succeeds and reproduces every field, and leaves the volume unmounted. |
| Spiffs.StatsRoundTrip | DecatronClockFirmware/SPIFFS.cpp:169-245 | The same for the uptime and tube-on counters. |

## Left out

- The ESP8266 file system and ArduinoJson are not modelled byte by byte. A file holds a parsed object or content that does not parse, and `printTo` stores the object itself. The JSON text syntax, the buffer read at SPIFFS.cpp:42-48 and flash wear are therefore outside the model.
- The `as<T>()` conversions are reduced to type-directed defaults. A missing key or a value of the wrong type gives "", 0 or false. An integer stored under a boolean key reads as true when non-zero. Integers are narrowed with C's wrap-around. ArduinoJson's parsing of numbers held as text is not modelled.
- `json.printTo(Serial)` (SPIFFS.cpp:49, 153, 186, 234) only echoes the object to the serial port and is left out.
- Whether `begin()` and `open()` succeed is an input (`Io`). `begin()` on an already mounted volume is taken to succeed.
- GetConfigFromSpiffs: states only that no debug line is sent when debugging is inactive, that lines are sent when it is active, and that every text sent starts with "SPIFFS: " (`AllTagged`); the wording of each progress line is in the body, not the contract.
- ReadConfig: states only that no debug line is sent when debugging is inactive, that lines are sent when it is active, and that every text sent starts with "SPIFFS: " (`AllTagged`); the wording of each progress line is in the body, not the contract.
- SaveConfigToSpiffs: states only that no debug line is sent when debugging is inactive, that lines are sent when it is active, and that every text sent starts with "SPIFFS: " (`AllTagged`); the wording of each progress line is in the body, not the contract.
- GetStatsFromSpiffs: states only that no debug line is sent when debugging is inactive, that lines are sent when it is active, and that every text sent starts with "SPIFFS: " (`AllTagged`); the wording of each progress line is in the body, not the contract.
- ReadStats: states only that no debug line is sent when debugging is inactive, that lines are sent when it is active, and that every text sent starts with "SPIFFS: " (`AllTagged`); the wording of each progress line is in the body, not the contract.
- SaveStatsToSpiffs: states only that no debug line is sent when debugging is inactive, that lines are sent when it is active, and that every text sent starts with "SPIFFS: " (`AllTagged`); the wording of each progress line is in the body, not the contract.
- CopyConfig: states the number of debug lines (sixteen when active) and that each starts with "SPIFFS: ", not their wording; the four Copy*Fields helpers state four each.
- WriteConfig: states only that no debug line is sent when debugging is inactive, that lines are sent when it is active, and that every text sent starts with "SPIFFS: "; the wording of its progress lines is in the body, not the contract.
- WriteStats: states only that no debug line is sent when debugging is inactive, that lines are sent when it is active, and that every text sent starts with "SPIFFS: "; the wording of its progress lines is in the body, not the contract.
- `debugMsg` in ClockUtils.cpp (lines 101-106) writes to the serial port and is left out, as is `timeStringToReadableString` (lines 62-76), which tokenises with `strtok`.
- ClockDefs.h and DebugManager.h are not part of this model. Neither are the static instances `current_config`, `current_stats` and `spiffs` (SPIFFS.h:69-75); the model works on any instance passed in.
- Power loss during a write and concurrent calls are not modelled.
- Text is `seq<char>`, one Unicode scalar per element, where Arduino's `String` and C strings are byte strings: `|s|` counts characters where `String::length()` counts bytes, and a separator `char` may be any scalar. All text in this core is ASCII, where the two agree.
- `spiffs_config_t` has no default values in the source, so `Config` has no constructor.
- GrabInts: the separator is a single character. The source takes a `String`, but `indexOf` with a one-character string behaves as `indexOf` with that character.
- GrabInts: requires `dest` to hold every segment, because the source writes through the pointer without a bound.
- GetValue: requires `data` to be shorter than 2^31 characters, the range of its `int` indices.
- HexCharacterStringToBytes: requires `byteArray` to hold at least `strlen(hexString)` cells, because the source writes through the pointer without a bound.
- HexCharacterStringToBytes: requires `strlen` to be below 256, because the `byte` loop counter would wrap and the loop would not end.
- TimeToReadableString: requires that the printed text fits `buf1[20]`, because a longer text overruns the buffer.

## Findings

| source | as written | input that shows it | evidently intended | confidence | as-written member | corrected member |
|---|---|---|---|---|---|---|
| DecatronClockFirmware/ClockUtils.cpp:82 | `if (end > 0)` treats a separator at position 0 like "no separator found" and reads the whole rest of the string for the first cell | `grabInts("-5-3", dest, "-")` stores -5, 5, 3; the first segment is empty and should give 0 | `if (end >= 0)`, i.e. any separator found: stores 0, 5, 3 | not executed; the loop's exit test `end != -1` shows -1 is the "not found" value | ClockUtils.LeadingSepQuirk | ClockUtils.GrabIntsIntended |
