# eeprom-util core in Dafny

A model of the data-handling core of compulab's `eeprom-util`. The tool reads the
256-byte configuration record of a board's identification EEPROM, shows it as named
fields (MAC addresses, dates, version numbers, serial numbers, text) and writes
changes back, either field by field or byte by byte.

The model covers:

- **the field codec of `field.c`** (modules `Field`, `FieldLemmas`): how the text a user types is encoded into a field's byte window and how the window is shown. Binary and reversed binary, MAC, version, date and ASCII fields are covered, plus clearing, name matching and the kind-to-operations table.
- **the layouts of `layout.c`** (modules `Layout`, `LayoutLemmas`): the legacy, v1, v2 and unrecognized field tables; detection from the check byte at offset 44; binding of fields to back-to-back windows of a private copy of the data; single-field and single-byte updates.
- **the batch updates of `eeprom_utility.c`** (module `Utility`): `update_bytes` and `update_fields`.
- **the command-line validators of `parser.c`** (modules `Parser`, `ParserLemmas`): layout-version arguments, byte-offset keys and "key<delimiter>value" changes.
- **`safe_strtoui` of `common.c`** (module `Common`).
- **the argument check of `eeprom.c`** (module `Eeprom`): `check_io_params`, and the test `eeprom_do_io` applies to its result.

The C library functions the code leans on are modelled in `CText`:

- `strtol`, with base 0 choosing hexadecimal, octal or decimal;
- the repository's `strtoi`/`strtoi_base`, whose bodies are not part of this model. Their contract comes from `common.h` and their callers: a negative code when there are no digits, STRTOI_STR_CON when characters follow the number, STRTOI_STR_END when the number ends the string.
- `strtok` as the list of maximal delimiter-free runs, with `Join` as its inverse;
- `%d`, `%02d` and `%02x` formatting.

Bytes are `Byte` (0..255). C `int` truncation, `unsigned` conversion and `long`
saturation are written out (`ToInt32`, `ToUint32`, `ClampLong`, `Low8`).

## Model

| member | source | states |
|---|---|---|
| Field.UpdateBin | field.c:45-89 | text longer than twice the window is refused with the window untouched; otherwise each byte is the value of its two-character group up to the first bad group, and every later byte is zero |
| FieldLemmas.BinOfBytes | field.c:56-87 | text whose every group is a hex byte is stored as exactly those bytes |
| FieldLemmas.BinRoundTrip | field.c:45-89 | encoding the hex text that `print_bin`/`print_bin_rev` show gives back exactly the shown window, whatever the window held before |
| FieldLemmas.BinReversedExample | field.c:194-208 | the reversed encoder stores "1234" as 0x34, 0x12, as its documentation says |
| FieldLemmas.BinSyntaxErrorZeroes | field.c:59-85 | a syntax error is reported after the window has already been zeroed |
| Field.UpdateMac | field.c:91-118 | the window keeps its size; a failure is always a syntax error; a leading part of the window is written and the bytes after it are unchanged, the whole window being written exactly on success |
| FieldLemmas.MacOfHexComponents | field.c:91-118 | for as many hex components, of any length, as the window has bytes: stored as the components' values exactly when every one fits a byte; otherwise a syntax error, with the components before the first one above 0xff already written and the rest of the window unchanged |
| FieldLemmas.MacSingleDigits | field.c:98-116 | components of a single hex digit, as in "1:2:3:4:5:6", are stored as their values |
| FieldLemmas.MacComponentTooBig | field.c:98-103 | a first component above 0xff, as in "100:2:3:4:5:6", is a syntax error that leaves the window unchanged |
| FieldLemmas.MacTrailingText | field.c:109-113 | text after the last expected component makes the MAC a syntax error |
| FieldLemmas.MacRoundTrip | field.c:91-118 | encoding the text `print_mac` shows gives back the shown window |
| FieldLemmas.MacWrongCount | field.c:98-113 | text with the wrong number of components is a syntax error, and the components before the failing one are already written |
| Field.StoreVersion | field.c:266-285 | stores exactly when both parts are non-negative, the minor part is at most 99 and major*100+minor is below 65536; the stored bytes read back as that number, low byte first |
| Field.PrintVersion | field.c:221-231 | the shown pair is the window's number divided by 100 with its remainder; a window of 0xff 0xff is first rewritten to zeros, and any other window is left alone |
| FieldLemmas.VersionOutcome | field.c:248-286 | for "major", any one non-digit and a minor number: refused when minor > 99 or the packed number is at least 65536, otherwise stored as major*100+minor |
| FieldLemmas.VersionRoundTrip | field.c:221-286 | encoding the text `print_bin_ver` shows gives back the shown number |
| FieldLemmas.VersionNegative | field.c:266-269 | a negative major number is refused as not positive, with the window untouched |
| FieldLemmas.VersionWithoutSeparator | field.c:255-258 | a number with nothing after it is a syntax error |
| FieldLemmas.VersionAnySeparator | field.c:255-264 | the separator test accepts any character after the major number: "1x05" is version 1.05 |
| FieldLemmas.VersionWithoutMajor | field.c:255-258 | text that starts with '.' passes the separator test without a major number |
| FieldLemmas.VersionDotWithoutMinor | field.c:255-264 | text that starts with '.' reads no major number, and unless the rest is a whole number it is a syntax error with the window unchanged |
| FieldLemmas.MonthIndexOf | field.c:421-428 | the month search finds each abbreviation at its own index |
| FieldLemmas.ParseShownDate | field.c:405-434 | the text `print_date` shows is split back into day, month index and year |
| Field.UpdateDate | field.c:398-452 | `update_date` as written: a refused text leaves the window unchanged; a stored date has a month byte of 1 to 12 and a day byte no larger than that month's Gregorian length in the stored year |
| FieldLemmas.StoreDateOutcome | field.c:436-449 | for a day that fits a byte, in the store `update_date` makes and in the corrected one: stored exactly for a calendar date with a 16-bit year; an invalid date is reported before an overflowing year; day, 1-based month and year are stored |
| FieldLemmas.DateAgrees | field.c:398-452 | `update_date` as written and the corrected encoder give the same result on every text whose day, if it has one, lies in 1..255 |
| FieldLemmas.DateOutcome | field.c:398-452 | `update_date` as written gives that outcome for the whole text `print_date` shows for a day that fits a byte |
| FieldLemmas.LeapDay | field.c:361-375 | `update_date` as written accepts 29 February exactly in Gregorian leap years below 65536 |
| FieldLemmas.DateDayZero | field.c:410-413 | a day of 0 is refused as an invalid day |
| FieldLemmas.DateRoundTrip | field.c:325-452 | `update_date` as written, and the corrected encoder too, encodes the text `print_date` shows back into the four date bytes of any window holding a calendar date |
| Field.ValidateDateMeansDaysIn | field.c:338-380 | `validate_date` accepts exactly month indexes below 12 with a day no larger than the Gregorian month length |
| Field.PrintDate | field.c:325-336 | shows the day byte, the year from bytes 2-3, and the month abbreviation exactly when the month byte is 1 to 12, "BAD" otherwise |
| Field.UpdateAscii | field.c:489-502 | text as long as the window is refused with the window untouched; shorter text is copied, the rest zeroed, and the last byte is 0 |
| Field.PrintAscii | field.c:458-480 | a window whose blocks all equal a first block of 0x00 or 0xff bytes shows as nothing; any other shows its bytes up to the first NUL |
| FieldLemmas.AsciiRoundTrip | field.c:458-502 | in a window of at least two blocks, the text that `update_ascii` stores is what `print_ascii` shows |
| FieldLemmas.AsciiBlankWindows | field.c:466-476 | cleared and zeroed windows, and windows of a single block, show as nothing |
| Field.RawChar | field.c:155-161 | the character column of the raw dump: '.' for 0x00 and 0xff, '?' for other non-printable bytes, the character itself otherwise |
| Field.ClearField | field.c:526-530 | a cleared window has its size and is all 0xff |
| Field.IsNamed | field.c:553-562 | true exactly when the kind is not reserved or raw and the key equals the name or the short name; such a kind has an update and a clear operation |
| Field.Update | field.c:617-626 | reserved and raw fields have no update operation; the others keep the window's size; a refused version, ASCII or date text leaves the window unchanged; a stored date has a month of 1 to 12 and a day no larger than that month's length |
| Field.Clear | field.c:617-626 | reserved and raw fields have no clear operation; the others fill the window with 0xff |
| Field.Show | field.c:617-626 | showing a field leaves its window alone, except for a version field |
| Layout.FieldsOf | layout.c:30-154 | the field sizes of every table add up to 256 |
| Layout.V2Fields | layout.c:94-137 | the v2 table has 15 fields whose sizes add up to 256 |
| LayoutLemmas.V2CheckByte | layout.c:94-137 | in v2 the one-byte "Layout Version" field starts at the check byte, 44 |
| LayoutLemmas.V1CheckByte | layout.c:55-92 | in v1 the check byte lies in the 96 reserved bytes |
| LayoutLemmas.LegacyCheckByte | layout.c:30-53 | in the legacy layout the check byte lies in the Board Configuration text |
| Layout.Detect | layout.c:156-167 | byte 44 of 0x00 or 0xff gives v1, 0x20 to 0xfe gives legacy, 0x01 to 0x1f gives v2; detection never gives unrecognized |
| Layout.BindFields | layout.c:256-260 | the first field starts at 0, each next field where the previous one ends, and the last ends at the table's total size |
| Layout.NewLayout | layout.c:221-275 | the layout holds the detected version, that version's table and a copy of the buffer, and its fields are bound inside the copy |
| LayoutLemmas.WindowsDisjoint | layout.c:256-260 | a later field starts no earlier than an earlier one ends |
| LayoutLemmas.FieldAtUnique | layout.c:256-260 | no byte lies in two fields' windows |
| LayoutLemmas.WindowsCover | layout.c:256-260 | every byte below the table's total size lies in some field's window |
| Layout.FindField | layout.c:187-195 | the first field with a name equal to the key; none exactly when no field has that name |
| Layout.UpdateField | layout.c:178-200 | a missing name or value gives NULL_ARGUMENTS; an unknown name gives NO_SUCH_FIELD; both leave the layout unchanged. Otherwise the first field with that name gets its routine's window and every other byte is unchanged |
| LayoutLemmas.UpdateIgnoresRoutineStatus | layout.c:197-199 | SUCCESS whenever some field has the name, whatever the field's routine reports |
| Layout.UpdateByte | layout.c:202-214 | an offset past the data gives OUT_OF_BOUNDS and no change; otherwise exactly that byte changes |
| LayoutLemmas.ByteWritesCommute | layout.c:202-214 | writes to two different offsets can be made in either order |
| LayoutLemmas.ByteWriteOverwrites | layout.c:202-214 | a second write to the same offset replaces the first |
| Utility.ApplyWrites | eeprom_utility.c:61-74 | the pairs are applied in order: only the data changes; every out-of-bounds pair is reported, and only those |
| Utility.UpdateBytes | eeprom_utility.c:53-75 | the string is split on ',' and paired; text without tokens changes nothing |
| Utility.LastWriteWins | eeprom_utility.c:61-74 | each byte ends up holding the low 8 bits of the value of the last pair naming it, or its old value; an out-of-bounds pair stops nothing |
| Utility.OutOfBoundsSkipped | eeprom_utility.c:68-71 | an out-of-bounds pair is reported, and the pairs after it are applied as if it were absent |
| Utility.NonNumericIsZero | eeprom_utility.c:62-67 | a token that does not start with a number is read as 0 |
| Utility.BytesOfJoin | eeprom_utility.c:56-74 | offsets and values written out with ',' between them are applied as those pairs |
| Utility.TokenPairs | eeprom_utility.c:56-65 | consecutive tokens are paired, and a last token without a partner is dropped |
| Utility.UpdateFields | eeprom_utility.c:82-95 | the layout stays bound with the same table; exactly the names that match no field are reported |
| Utility.MissingValueSkipped | eeprom_utility.c:87-90 | an entry without '=' and a value changes nothing and is not reported |
| Utility.UnknownNameSkipped | eeprom_utility.c:87-93 | an entry naming no field is reported, and the entries after it are still applied |
| Utility.OneEntry | eeprom_utility.c:87-90 | a "name=value" entry is one `update_field` call with that name and value |
| Parser.ParseLayoutVersion | parser.c:143-162 | "legacy", "raw" and "auto" are matched as prefixes, in that order; any other accepted argument is a number, after an optional 'v', that fills the rest of the string |
| ParserLemmas.LayoutNumber | parser.c:153-161 | a number below 5, with or without 'v', selects that layout; from 5 up it is unrecognized |
| ParserLemmas.LayoutMinusOne | parser.c:153-161 | "-1" and "v-1" request detection |
| ParserLemmas.LayoutTrailing | parser.c:156-159 | characters after the number make the argument unrecognized |
| Parser.ValidKey | parser.c:354-371 | a valid key starts with a non-negative number; a key that is only a number is valid exactly when the number is non-negative |
| ParserLemmas.SingleOffsetValid | parser.c:359-370 | a single non-negative offset is valid |
| ParserLemmas.NegativeOffsetInvalid | parser.c:359-370 | a negative offset is not |
| ParserLemmas.KeyWithoutNumber | parser.c:359-361 | a key that does not start with a number is refused |
| ParserLemmas.RangeValid | parser.c:363-370 | a range with any one non-digit separator is valid exactly when the first offset is smaller than the second, so "5-5" is refused |
| Parser.ParseChange | parser.c:397-415 | an accepted change does not start with the delimiter, has at least two tokens, and is split into the first two; a byte change also has a valid key |
| ParserLemmas.ChangeSplit | parser.c:399-414 | "key, delimiter, value" is split into key and value, with anything after a second delimiter dropped; a byte change is refused exactly when its key is invalid |
| ParserLemmas.ChangeWithoutValue | parser.c:410-414 | a change without a delimiter is refused |
| Parser.ParseNewData | parser.c:386-439 | either every change is accepted and the result holds one pair per change, in order, or the result is nothing |
| Common.SafeStrtoui | common.c:24-35 | the empty string and strings with characters after the number give -1; a whole number in [-2^31, 2^31) gives its value, negative ones included |
| Common.DecimalRoundTrip | common.c:24-35 | a decimal number below 2^31 is read back as itself |
| Common.TrailingRefused | common.c:31-32 | characters after the number give -1 |
| Common.HexPrefix | common.c:30-34 | "0x1f" gives 31 |
| Common.OctalPrefix | common.c:30-34 | "010" gives 8 |
| Common.NegativePassesThrough | common.c:21-35 | "-n" gives -n rather than -1 |
| Common.LargeWraps | common.c:30-34 | a number from 2^31 to 2^32-1 comes back as a negative int |
| Common.SafeStrtouiChecked | common.c:21-35 | -1, or a number in [0, 2^31) that is the whole string's value |
| Common.CheckedAgrees | common.c:21-35 | the two versions differ exactly on whole numbers outside [0, 2^31) that the written one does not turn into -1 |
| Eeprom.CheckIoParams | eeprom.c:78-97 | a NULL buffer gives EEPROM_NULL_PTR before anything else; then an unknown function, an unknown mode and a negative offset give their codes, in that order, and each code comes only from its own condition |
| Eeprom.AcceptedIffValid | eeprom.c:78-97 | without overflow the check returns 0 exactly for a buffer, a read or write, a known mode, offset >= 0 and offset+size <= 256; INVAL_SIZE exactly when only the last condition fails |
| Eeprom.LastByteBoundary | eeprom.c:93-96 | a range ending at byte 256 is accepted; one byte longer is refused as INVAL_SIZE |
| Eeprom.NegativeSizeAccepted | eeprom.c:90-96 | a negative size is not refused |
| Eeprom.WrappedSizeAccepted | eeprom.c:93-94 | offset 1 with size INT_MAX wraps past the size test and is accepted |
| Eeprom.GateLetsErrorsThrough | eeprom.c:108-110 | as written, no result of `check_io_params` stops `eeprom_do_io` |
| Eeprom.CheckedGateStopsErrors | eeprom.c:108-110 | with a non-zero test, the device is reached exactly for valid transfers, and a NULL buffer reports EEPROM_NULL_PTR |
| FieldLemmas.DateDayTruncated | field.c:436-449 | as written, "256/Jan/2000" is stored as day 0 of January 2000 |
| FieldLemmas.DateDayChecked | field.c:436-449 | with the day checked before it is narrowed, the same text is refused as an invalid date |

## Left out

- Printing, the command line and the device: `print_*` output, `print_layout`, `print_dump`, `init_field`, command.c, linux_api.c, `do_io`, and `eeprom_do_io` beyond its first test. Printers are modelled as functions that return what would be shown. The version printer's `%.2f` is returned as the pair (value / 100, value % 100) rather than as a float.
- Memory: allocation failures, `free_layout`, and the copies made by `alloc_cpy_str` are not modelled.
- The bodies of `strtoi` and `strtoi_base` are not part of this model. `common.h` gives only their prototypes and the STRTOI_STR_CON and STRTOI_STR_END codes. They are modelled on top of `strtol`, and the callers in field.c rely only on the code and on where the string pointer is left.
- CText.StrtoiBase: the value is not narrowed to the `int` that `*dest` holds. A number outside [-2^31, 2^31) comes back unbounded, where the C would refuse, clamp or wrap it in a way the missing body decides. Its other behaviour is taken from `strtol` and is not promised by `common.h`: leading white space is skipped, a sign is read, and in base 16 a "0x" prefix is skipped.
- Layout.UpdateField: the update routines named in the layout.c tables (`update_binary`, `update_ascii`) are not part of this model. Each field's routine is a parameter that keeps the window's size. layout.c reads `layout->fields` before its NULL test; a NULL layout is not modelled.
- Layout.UpdateByte: a NULL layout, which `update_byte` answers with LAYOUT_NULL_ARGUMENTS, is not modelled; its only caller in eeprom_utility.c passes the layout it has just built.
- Layout.NewLayout: fields are proved bound only for buffers of at least 256 bytes. `new_layout` itself takes any buffer size and does not check this.
- Field.UpdateVersion: `num * 100 + remainder` is computed on unbounded integers. The C `int` overflows for majors above about 21 million, and this is not modelled.
- FieldLemmas.VersionWithoutMajor: for text that is '.' followed by a whole number, the C goes on with an uninitialised `num`. The model refuses such text with its own reason, `UninitializedMajor`. Any other text starting with '.' is a syntax error, as in the C.
- Field.ParseDate: a month that matches no abbreviation makes the C read `months[12]`, past the table. The model treats this as a rejection with "Invalid month".
- Parser.ParseChange: the delimiter is one character, though the C takes a string. For a byte change with no token, the C passes NULL to `valid_key`; the model refuses it.
- Parser: `parser.c` uses a layout enum (LAYOUT_AUTODETECT = -1 … LAYOUT_UNRECOGNIZED = 5, RAW_DATA = 6) that is newer than the layout.h of layout.c. The model uses that enum's values.
- Eeprom: eeprom.c names the types `enum eeprom_cmd` and `enum access_mode`, whose definitions are not part of this model. The values READ = 0, WRITE = 1, DRIVER = 0 and I2C = 1 are taken from `enum action` and `enum mode` in eeprom.h. `offset + size` is taken to wrap as a 32-bit two's-complement sum; in C this signed overflow is undefined behaviour. The `enum eeprom_errors` values are also taken from that eeprom.h, which is not eeprom.c's own header: it lacks EEPROM_READ_FAILED, EEPROM_WRITE_FAILED and `struct eeprom`, which eeprom.c uses.
- Field.UpdateAscii: the text is taken to be a C string without NUL characters, and a character wider than a byte is stored as its low eight bits.
- C strings: the string models (Common.SafeStrtoui, CText.Tokens, Parser.ParseChange, Parser.ValidKey and the rest) accept Dafny strings that contain '\0', which a C string cannot hold. Such a string is read in full rather than cut at its first NUL.
- Utility.ApplyWrites: `strtol` returns a `long` that is stored into an `int`. This is modelled as saturation to 64 bits followed by 32-bit truncation.

## Findings

| source | as written | input that shows it | evidently intended | confidence | as-written member | corrected member |
|---|---|---|---|---|---|---|
| field.c:436-449 | `update_date` passes the `int` day to `validate_date`, whose parameter is an `unsigned char`, so the check sees the day modulo 256, and the stored byte is also the day modulo 256 | "256/Jan/2000" is accepted and stored as day 0 of January 2000 | days that do not fit a byte are refused as invalid dates | not executed | FieldLemmas.DateDayTruncated | FieldLemmas.DateDayChecked |
| eeprom.c:108-110 | `eeprom_do_io` stops only when `check_io_params` returns a negative value, but every error code it returns is positive; `print_eeprom_error` in eeprom_utility.c:31 switches on `-error`, so its callers too expect the negated positive constants | a NULL buffer (EEPROM_NULL_PTR = 1) goes on to open the device and transfer through the NULL pointer | any non-zero result is returned to the caller | not executed | Eeprom.GateLetsErrorsThrough | Eeprom.CheckedGateStopsErrors |
| common.c:21-35 | `safe_strtoui` is documented to return a positive integer or -1, but it returns whatever `strtol` gives once it is stored in an `int` | "-5" gives -5; "2147483648" gives -2147483648 | -1 for anything that is not a whole number in [0, INT_MAX] | not executed | Common.NegativePassesThrough | Common.SafeStrtouiChecked |

The field codec's date dispatch (`Field.RunUpdater`) binds date fields to
`UpdateDate`, the encoder as written, as `field_ops[]` does. The corrected
`UpdateDateChecked` is the other half of the first finding only, and
`FieldLemmas.DateAgrees` shows that the two differ only on texts whose day lies
outside 1..255.
