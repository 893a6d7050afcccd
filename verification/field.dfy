/**
 The field codec: for each field kind, how text is encoded into the field's byte
 window, how the window is shown, and how it is cleared.

 A field never owns its bytes; every operation here takes the field's window
 (a `seq<Byte>` of exactly the field's size) and returns the window as the C code
 leaves it, together with the 0 / -1 status the C returns.
 */
module Field {
  import opened CText

  /** The kinds of field (`enum field_type`). */
  datatype Kind = Binary | Reversed | Version | Ascii | Mac | Date | Reserved | Raw

  /** `struct field` without its data pointer and ops: the window travels separately. */
  datatype Field = Field(name: string, shortName: string, kind: Kind)

  /** Why an encoder refused its text; each reason is one of the messages field.c prints. */
  datatype Reason =
    | TooLong            // "Value is too long"
    | SyntaxError        // "Syntax error"
    | NotPositive        // "Version must be positive"
    | MinorTooLong       // "Minor version is 1-2 digits"
    | VersionTooBig      // "Version is too big"
    | InvalidDay         // "Invalid day"
    | InvalidMonth       // "Invalid month"
    | InvalidDate        // "Invalid date"
    | YearOverflow       // "Year overflow"
    | UninitializedMajor // no major number, then '.' and a whole number: C goes on with an unset variable

  /** 0 or -1 from an `update_*` function. */
  datatype Outcome = Done | Rejected(why: Reason)

  /** The status an encoder returns and the window as it leaves it. */
  datatype Encoded = Encoded(outcome: Outcome, window: seq<Byte>)

  function Fill(n: nat, b: Byte): (r: seq<Byte>)
    ensures |r| == n
    ensures forall k | 0 <= k < n :: r[k] == b
  {
    seq(n, _ => b)
  }

  function Zeros(n: nat): (r: seq<Byte>)
    ensures |r| == n
    ensures forall k | 0 <= k < n :: r[k] == 0
  {
    Fill(n, 0)
  }

  /* ======================= binary and reversed binary ======================= */

  /** The (at most two) characters `__update_bin` copies into `tmp` for byte `j`:
      forwards they are characters 2j, 2j+1; reversed they are taken from the end,
      and a lone first character forms the last group of an odd-length string. */
  function BinGroup(value: string, reverse: bool, j: nat): (g: string)
    requires 2 * j < |value|
    ensures 1 <= |g| <= 2
  {
    if !reverse then
      value[2 * j .. if 2 * j + 2 <= |value| then 2 * j + 2 else |value|]
    else
      var i := |value| - 1 - 2 * j;
      if i == 0 then value[0..1] else value[i - 1 .. i + 1]
  }

  /** `strtoi_base(&str, &byte, 16)` followed by the range test of field.c: a code
      below zero, a negative value or one above 0xff is a syntax error; characters
      left over (STRTOI_STR_CON) are not. */
  function GroupByte(g: string): Option<Byte> {
    var p := StrtoiBase(g, 16);
    if p.NoNumber? || p.value < 0 || p.value >= 256 then None else Some(p.value as Byte)
  }

  /** What `strtoi_base` makes of each group of the text, in loop order. */
  function Groups(value: string, reverse: bool): (gs: seq<Option<Byte>>)
    ensures |gs| == (|value| + 1) / 2
    ensures forall k | 0 <= k < |gs| :: 2 * k < |value| && gs[k] == GroupByte(BinGroup(value, reverse, k))
  {
    seq((|value| + 1) / 2, k requires 0 <= k < (|value| + 1) / 2 => GroupByte(BinGroup(value, reverse, k)))
  }

  /** The index of the first group that is not a hex byte, or |gs|: where the loop of
      `__update_bin` stops with a syntax error. */
  function FirstBad(gs: seq<Option<Byte>>): (f: nat)
    ensures f <= |gs|
    ensures forall k | 0 <= k < f :: gs[k].Some?
    ensures f < |gs| ==> gs[f].None?
  {
    if gs == [] || gs[0].None? then 0 else 1 + FirstBad(gs[1..])
  }

  /** The window of size `n` as the loop of `__update_bin` leaves it after `memset`,
      and whether the loop finished; `gs` are the groups still to be read. */
  function StoreGroups(gs: seq<Option<Byte>>, n: nat): (r: (bool, seq<Byte>))
    requires |gs| <= n
    ensures |r.1| == n
    ensures r.0 <==> FirstBad(gs) == |gs|
    ensures forall k | 0 <= k < n :: r.1[k] == if k < FirstBad(gs) then gs[k].value else 0
  {
    if gs == [] then (true, Zeros(n))
    else match gs[0]
      case None => (false, Zeros(n))
      case Some(b) =>
        var rest := StoreGroups(gs[1..], n - 1);
        var r := [b] + rest.1;
        assert forall k | 1 <= k < n :: r[k] == rest.1[k - 1];
        (rest.0, r)
  }

  /** `update_bin` (reverse = false) and `update_bin_rev` (reverse = true). */
  function UpdateBin(w: seq<Byte>, value: string, reverse: bool): (r: Encoded)
    ensures |r.window| == |w|
    ensures |value| > 2 * |w| <==> r.outcome == Rejected(TooLong)
    ensures |value| > 2 * |w| ==> r.window == w
    ensures r.outcome.Rejected? ==> r.outcome.why in {TooLong, SyntaxError}
    ensures |value| <= 2 * |w| ==> var gs := Groups(value, reverse);
      (r.outcome == Done <==> forall k | 0 <= k < |gs| :: gs[k].Some?)
      && forall k | 0 <= k < |w| :: r.window[k] == if k < FirstBad(gs) then gs[k].value else 0
  {
    if |value| > 2 * |w| then Encoded(Rejected(TooLong), w)
    else
      var r := StoreGroups(Groups(value, reverse), |w|);
      Encoded(if r.0 then Done else Rejected(SyntaxError), r.1)
  }

  /** `__print_bin`: every byte as `%02x`, `delim` between neighbours, last byte first
      when reversed. */
  function PrintBin(w: seq<Byte>, delim: string, reverse: bool): string
    requires |w| > 0
  {
    HexJoin(Oriented(w, reverse), delim)
  }

  /** The bytes in the order they are printed: last byte first when reversed. */
  function Oriented(w: seq<Byte>, reverse: bool): (r: seq<Byte>)
    ensures |r| == |w|
    ensures forall k | 0 <= k < |w| :: r[k] == if reverse then w[|w| - 1 - k] else w[k]
  {
    if reverse then Reverse(w) else w
  }

  function Reverse(w: seq<Byte>): (r: seq<Byte>)
    ensures |r| == |w|
    ensures forall k | 0 <= k < |w| :: r[k] == w[|w| - 1 - k]
  {
    seq(|w|, k requires 0 <= k < |w| => w[|w| - 1 - k])
  }

  function HexJoin(w: seq<Byte>, delim: string): string
    requires |w| > 0
  {
    if |w| == 1 then Hex2(w[0]) else Hex2(w[0]) + delim + HexJoin(w[1..], delim)
  }

  /* ======================= MAC ======================= */

  /** Components `m` remaining of `__update_bin_delim`: all but the last must be a hex
      number followed by the delimiter, the last must run to the end of the string;
      each must lie in 0..0xff. Returns whether all passed and the bytes written,
      which are written one by one as each component passes. */
  function DelimBytes(s: string, m: nat, delim: char): (r: (bool, seq<Byte>))
    requires m >= 1
    ensures |r.1| <= m
    ensures r.0 <==> |r.1| == m
    decreases m
  {
    var p := StrtoiBase(s, 16);
    if m == 1 then
      if p.Ended? && 0 <= p.value < 256 then (true, [p.value as Byte]) else (false, [])
    else if p.Continues? && p.rest[0] == delim && 0 <= p.value < 256 then
      var r := DelimBytes(p.rest[1..], m - 1, delim);
      (r.0, [p.value as Byte] + r.1)
    else (false, [])
  }

  /** `update_mac`: `__update_bin_delim` with ':'. */
  function UpdateMac(w: seq<Byte>, value: string): (r: Encoded)
    requires |w| >= 1
    ensures |r.window| == |w|
    ensures r.outcome.Rejected? ==> r.outcome.why == SyntaxError
    ensures exists k | 0 <= k <= |w| :: r.window[k..] == w[k..] && (r.outcome == Done <==> k == |w|)
  {
    var r := DelimBytes(value, |w|, ':');
    var out := r.1 + w[|r.1|..];
    assert out[|r.1|..] == w[|r.1|..];
    Encoded(if r.0 then Done else Rejected(SyntaxError), out)
  }

  /* ======================= version ======================= */

  /** The number a two-byte version window holds, low byte first. */
  function VersionValue(w: seq<Byte>): (v: nat)
    requires |w| >= 2
    ensures v < 65536
  {
    w[1] as int * 256 + w[0] as int
  }

  /** The two numbers of a version text as `update_bin_ver` reads them. The first
      test joins "not STRTOI_STR_CON" and "not '.'" with `&&`, so any single character
      after the major number is taken as the separator. */
  datatype VersionParse = VersionRejected(why: Reason) | VersionParts(major: int, minor: int)

  function ParseVersion(value: string): (r: VersionParse)
    ensures r.VersionRejected? ==> r.why in {SyntaxError, UninitializedMajor}
    ensures r.VersionRejected? && r.why == UninitializedMajor <==>
      value != [] && value[0] == '.' && StrToI(value[1..]).Ended?
  {
    var p := StrToI(value);
    if !p.Continues? then
      // with no number the pointer stays at `value`; at the end of the string it reads the NUL
      // past the '.', the minor number must still run to the end of the string
      if value == [] || value[0] != '.' || !StrToI(value[1..]).Ended? then VersionRejected(SyntaxError)
      else VersionRejected(UninitializedMajor)
    else
      var q := StrToI(p.rest[1..]);
      if !q.Ended? then VersionRejected(SyntaxError)
      else VersionParts(p.value, q.value)
  }

  /** The range checks of `update_bin_ver` and the little-endian store of
      major * 100 + minor. */
  function StoreVersion(w: seq<Byte>, major: int, minor: int): (r: Encoded)
    requires |w| >= 2
    ensures |r.window| == |w| && r.window[2..] == w[2..]
    ensures r.outcome.Rejected? ==> r.window == w
    ensures r.outcome == Done <==> 0 <= major && 0 <= minor <= 99 && major * 100 + minor < 65536
    ensures r.outcome == Done ==> VersionValue(r.window) == major * 100 + minor
  {
    if major < 0 || minor < 0 then Encoded(Rejected(NotPositive), w)
    else if minor > 99 then Encoded(Rejected(MinorTooLong), w)
    else
      var packed := major * 100 + minor;
      if packed >= 65536 then Encoded(Rejected(VersionTooBig), w)
      else Encoded(Done, [Low8(packed), Low8(packed / 256)] + w[2..])
  }

  /** `update_bin_ver`. */
  function UpdateVersion(w: seq<Byte>, value: string): (r: Encoded)
    requires |w| >= 2
    ensures |r.window| == |w| && r.window[2..] == w[2..]
    ensures r.outcome.Rejected? ==> r.window == w
  {
    match ParseVersion(value)
    case VersionRejected(why) => Encoded(Rejected(why), w)
    case VersionParts(major, minor) => StoreVersion(w, major, minor)
  }

  /** `print_bin_ver` shows v / 100 with two decimals; it is modelled as the pair
      (v / 100, v % 100). A window reading 0xffff is first overwritten with zeros. */
  datatype VersionShown = VersionShown(window: seq<Byte>, major: nat, minor: nat)

  function PrintVersion(w: seq<Byte>): (r: VersionShown)
    requires |w| >= 2
    ensures |r.window| == |w| && r.window[2..] == w[2..]
    ensures w[0] == 0xff && w[1] == 0xff ==> r.window[0] == 0 && r.window[1] == 0
    ensures !(w[0] == 0xff && w[1] == 0xff) ==> r.window == w
    ensures r.minor < 100 && r.major * 100 + r.minor == VersionValue(r.window)
  {
    var w' := if w[0] == 0xff && w[1] == 0xff then [0 as Byte, 0 as Byte] + w[2..] else w;
    var v := VersionValue(w');
    VersionShown(w', v / 100, v % 100)
  }

  /** The text `print_bin_ver` shows for the pair, with two decimals. */
  function FormatVersion(v: VersionShown): string {
    Dec(v.major) + "." + Pad2(v.minor)
  }

  /* ======================= date ======================= */

  const Months: seq<string> :=
    ["Jan", "Feb", "Mar", "Apr", "May", "Jun", "Jul", "Aug", "Sep", "Oct", "Nov", "Dec"]

  /** `validate_date` on its parameter types: the day and 0-based month are
      `unsigned char`, the year is `unsigned int`. True when the C returns 0. */
  function ValidateDate(day: nat, month: nat, year: nat): bool
    requires day < 256 && month < 256 && year < 0x1_0000_0000
  {
    if month == 0 || month == 2 || month == 4 || month == 6 || month == 7 || month == 9 || month == 11 then
      day <= 31
    else if month == 3 || month == 5 || month == 8 || month == 10 then day <= 30
    else if month == 1 then
      var daysInFebruary :=
        if year % 4 == 0 && (year % 100 != 0 || year % 400 == 0) then 29 else 28;
      day <= daysInFebruary
    else false
  }

  predicate IsLeapYear(year: nat) {
    year % 4 == 0 && (year % 100 != 0 || year % 400 == 0)
  }

  /** The Gregorian calendar's month lengths, 0-based month: the reference that
      `ValidateDate` is checked against. */
  function DaysIn(month: nat, year: nat): nat
    requires month < 12
  {
    if month == 1 then (if IsLeapYear(year) then 29 else 28)
    else if month == 3 || month == 5 || month == 8 || month == 10 then 30
    else 31
  }

  /** The 0-based index of the first month abbreviation equal to `t`; `None` stands for
      the search of `update_date` running off the table. */
  function MonthIndex(t: string): (r: Option<nat>)
    ensures r.Some? ==> r.value < 12 && Months[r.value] == t
    ensures r.None? <==> t !in Months
  {
    MonthFrom(t, 0)
  }

  function MonthFrom(t: string, i: nat): (r: Option<nat>)
    requires i <= 12
    ensures r.Some? ==> i <= r.value < 12 && Months[r.value] == t
    ensures r.Some? ==> forall k | i <= k < r.value :: Months[k] != t
    ensures r.None? <==> forall k | i <= k < 12 :: Months[k] != t
    decreases 12 - i
  {
    if i == 12 then None else if Months[i] == t then Some(i) else MonthFrom(t, i + 1)
  }

  /** The text of a date split as `update_date` splits it: the day before the first
      '/', a month abbreviation, the year after the second '/'. */
  datatype DateParse = DateRejected(why: Reason) | DateParts(day: int, month0: nat, year: int)

  function ParseDate(value: string): (r: DateParse)
    ensures r.DateParts? ==> r.month0 < 12 && r.day != 0
    ensures r.DateRejected? ==> r.why in {SyntaxError, InvalidDay, InvalidMonth}
  {
    var p := StrToI(value);
    if !(p.Continues? && p.rest[0] == '/') then DateRejected(SyntaxError)
    else if p.value == 0 then DateRejected(InvalidDay)
    else
      var date := p.rest[1..];
      if |date| < 4 || date[3] != '/' then DateRejected(SyntaxError)
      else
        var month := MonthIndex(date[..3]);
        if month.None? then DateRejected(InvalidMonth)
        else
          var q := StrToI(date[4..]);
          if !q.Ended? then DateRejected(SyntaxError)
          else DateParts(p.value, month.value, q.value)
  }

  /** `update_date`, with `dayRangeChecked` false. With `dayRangeChecked` true the
      day is also required to fit the `unsigned char` that `validate_date` receives,
      which `UpdateDateChecked` uses (see README, Findings). */
  function UpdateDateWith(w: seq<Byte>, value: string, dayRangeChecked: bool): (r: Encoded)
    requires |w| >= 4
    ensures |r.window| == |w| && r.window[4..] == w[4..]
    ensures r.outcome.Rejected? ==> r.window == w
    ensures r.outcome == Done ==> 1 <= r.window[1] <= 12 && r.window[0] as int <= 31
    ensures r.outcome == Done ==> r.window[0] as int <= DaysIn(r.window[1] as int - 1, DateYear(r.window))
    ensures r.outcome == Done && dayRangeChecked ==> 1 <= r.window[0]
  {
    match ParseDate(value)
    case DateRejected(why) => Encoded(Rejected(why), w)
    case DateParts(day, month0, year) => StoreDate(w, day, month0, year, dayRangeChecked)
  }

  /** The checks `update_date` makes once the text has been split, and the store. */
  function StoreDate(w: seq<Byte>, day: int, month0: nat, year: int, dayRangeChecked: bool): (r: Encoded)
    requires |w| >= 4 && month0 < 12
    ensures |r.window| == |w| && r.window[4..] == w[4..]
    ensures r.outcome.Rejected? ==> r.window == w
    ensures r.outcome == Done ==> 1 <= r.window[1] <= 12 && r.window[0] as int <= 31
    ensures r.outcome == Done ==> r.window[0] as int <= DaysIn(r.window[1] as int - 1, DateYear(r.window))
    ensures r.outcome == Done && dayRangeChecked ==> 1 <= r.window[0]
  {
    if dayRangeChecked && !(0 < day < 256) then Encoded(Rejected(InvalidDate), w)
    else if !ValidateDate(day % 256, month0, year % 0x1_0000_0000) then Encoded(Rejected(InvalidDate), w)
    else if year < 0 || year >= 65536 then Encoded(Rejected(YearOverflow), w)
    else
      DateWindowFits(w, day, month0, year, dayRangeChecked);
      Encoded(Done, DateWindow(w, day, month0 + 1, year))
  }

  /** The four date bytes: day narrowed to a byte, 1-based month, year low and high. */
  function DateWindow(w: seq<Byte>, day: int, month: nat, year: nat): (r: seq<Byte>)
    requires |w| >= 4 && 1 <= month <= 12 && year < 65536
    ensures |r| == |w| && r[4..] == w[4..]
    ensures r[0] as int == day % 256 && r[1] as int == month && DateYear(r) == year
  {
    [Low8(day), Low8(month), Low8(year), Low8(year / 256)] + w[4..]
  }

  /** `update_date` as written: a stored date is always one `validate_date` passes,
      but the day byte may be the typed day narrowed to a byte (see README, Findings). */
  function UpdateDate(w: seq<Byte>, value: string): (r: Encoded)
    requires |w| >= 4
    ensures |r.window| == |w| && r.window[4..] == w[4..]
    ensures r.outcome.Rejected? ==> r.window == w
    ensures r.outcome == Done ==> (1 <= r.window[1] <= 12
      && r.window[0] as int <= DaysIn(r.window[1] as int - 1, DateYear(r.window)))
  {
    var r := UpdateDateWith(w, value, false);
    r
  }

  /** `update_date` with the day checked before it is narrowed to a byte: the
      corrected encoder of README's Findings, not the one `field_ops[]` binds. */
  function UpdateDateChecked(w: seq<Byte>, value: string): (r: Encoded)
    requires |w| >= 4
    ensures |r.window| == |w| && r.window[4..] == w[4..]
    ensures r.outcome.Rejected? ==> r.window == w
    ensures r.outcome == Done ==> (1 <= r.window[1] <= 12
      && 1 <= r.window[0] as int <= DaysIn(r.window[1] as int - 1, DateYear(r.window)))
  {
    var r := UpdateDateWith(w, value, true);
    r
  }

  function DateYear(w: seq<Byte>): nat
    requires |w| >= 4
  {
    w[3] as int * 256 + w[2] as int
  }

  /** `validate_date` agrees with the Gregorian month lengths and refuses every
      month index past December. */
  lemma ValidateDateMeansDaysIn(day: nat, month: nat, year: nat)
    requires day < 256 && month < 256 && year < 0x1_0000_0000
    ensures ValidateDate(day, month, year) <==> month < 12 && day <= DaysIn(month, year)
  {
  }

  lemma DateWindowFits(w: seq<Byte>, day: int, month0: nat, year: int, dayRangeChecked: bool)
    requires |w| >= 4 && month0 < 12 && 0 <= year < 65536
    requires ValidateDate(day % 256, month0, year)
    requires dayRangeChecked ==> 0 < day < 256
    ensures var r := DateWindow(w, day, month0 + 1, year);
      1 <= r[1] <= 12 && r[0] as int <= 31
      && r[0] as int <= DaysIn(r[1] as int - 1, DateYear(r))
      && (dayRangeChecked ==> 1 <= r[0])
  {
    ValidateDateMeansDaysIn(day % 256, month0, year);
  }

  /** What `print_date` shows: day, month abbreviation or "BAD", year. */
  datatype DateShown = DateShown(day: nat, month: string, year: nat)

  /** The text `print_date` shows: `%02d/%s/%d`. */
  function FormatDate(d: DateShown): string {
    Pad2(d.day) + "/" + d.month + "/" + Dec(d.year)
  }

  function PrintDate(w: seq<Byte>): (r: DateShown)
    requires |w| >= 4
    ensures r.day == w[0] as int && r.year == DateYear(w)
    ensures 1 <= w[1] <= 12 <==> r.month in Months
    ensures r.month in Months || r.month == "BAD"
  {
    DateShown(w[0] as int, if 1 <= w[1] <= 12 then Months[w[1] as int - 1] else "BAD", DateYear(w))
  }

  /* ======================= ASCII ======================= */

  function CharByte(c: char): Byte {
    (c as int % 256) as Byte
  }

  function TextBytes(s: string): (r: seq<Byte>)
    ensures |r| == |s| && forall k | 0 <= k < |s| :: r[k] == CharByte(s[k])
  {
    seq(|s|, k requires 0 <= k < |s| => CharByte(s[k]))
  }

  /** `update_ascii`: text shorter than the window is copied and the rest zeroed,
      so the last byte is always 0; anything else is refused. */
  function UpdateAscii(w: seq<Byte>, value: string): (r: Encoded)
    ensures |r.window| == |w|
    ensures |value| >= |w| <==> r.outcome == Rejected(TooLong)
    ensures r.outcome.Rejected? ==> r.window == w
    ensures r.outcome == Done ==> (r.window[|w| - 1] == 0
      && r.window[..|value|] == TextBytes(value)
      && forall k | |value| <= k < |w| :: r.window[k] == 0)
  {
    if |value| >= |w| then Encoded(Rejected(TooLong), w)
    else
      var out := TextBytes(value) + Zeros(|w| - |value|);
      assert out[..|value|] == TextBytes(value);
      Encoded(Done, out)
  }

  /** Four-byte block `i` of the window, the `int` that `print_ascii` compares. */
  function Block(w: seq<Byte>, i: nat): seq<Byte>
    requires 4 * i + 4 <= |w|
  {
    w[4 * i .. 4 * i + 4]
  }

  /** The window `print_ascii` prints as nothing: it has at most one block, or all its
      blocks equal the first and the first is all 0x00 or all 0xff. */
  predicate Blank(w: seq<Byte>) {
    |w| / 4 <= 1
    || ((Block(w, 0) == Zeros(4) || Block(w, 0) == Fill(4, 0xff))
        && forall i | 1 <= i < |w| / 4 :: Block(w, i) == Block(w, 0))
  }

  /** The characters up to the first 0 byte, as `%.Ns` prints them. */
  function UntilNul(w: seq<Byte>): (s: string)
    ensures |s| <= |w|
    ensures forall k | 0 <= k < |s| :: w[k] != 0 && s[k] == w[k] as int as char
    ensures |s| < |w| ==> w[|s|] == 0
  {
    if |w| == 0 || w[0] == 0 then [] else [w[0] as int as char] + UntilNul(w[1..])
  }

  function PrintAscii(w: seq<Byte>): (s: string)
    ensures Blank(w) ==> s == []
    ensures !Blank(w) ==> s == UntilNul(w)
  {
    if Blank(w) then [] else UntilNul(w)
  }

  /* ======================= raw, reserved, clear ======================= */

  /** The character the ASCII column of `print_bin_raw` shows for a byte. */
  function RawChar(b: Byte): (c: char)
    ensures ' ' <= c <= '~'
    ensures c == '.' <== b == 0 || b == 0xff
    ensures c == '?' <== b != 0 && b != 0xff && (b < 32 || b >= 127)
    ensures 32 <= b < 127 ==> c as int == b as int
  {
    if b == 0 || b == 0xff then '.'
    else if b < 32 || b >= 127 then '?'
    else b as int as char
  }

  /** `clear_field`: a cleared field is all 0xff. */
  function ClearField(w: seq<Byte>): (r: seq<Byte>)
    ensures |r| == |w|
    ensures forall k | 0 <= k < |w| :: r[k] == 0xff
  {
    Fill(|w|, 0xff)
  }

  /** `is_named`: reserved and raw fields have no name to match. */
  function IsNamed(f: Field, key: string): (r: bool)
    ensures r <==> f.kind !in {Reserved, Raw} && (f.name == key || f.shortName == key)
    ensures r ==> OpsOf(f.kind).update.Some? && OpsOf(f.kind).clear
  {
    f.kind != Reserved && f.kind != Raw && (f.name == key || f.shortName == key)
  }

  /* ======================= the ops table ======================= */

  datatype Printer =
    PrintBinOp | PrintBinRevOp | PrintBinVerOp | PrintAsciiOp | PrintMacOp | PrintDateOp
    | PrintReservedOp | PrintBinRawOp

  datatype Updater = UpdateBinOp | UpdateBinRevOp | UpdateBinVerOp | UpdateAsciiOp | UpdateMacOp | UpdateDateOp

  /** One row of `field_ops[]`: `update` and `clear` are NULL for printable-only kinds. */
  datatype FieldOps = FieldOps(printValue: Printer, update: Option<Updater>, clear: bool)

  function OpsOf(k: Kind): FieldOps {
    match k
    case Binary => FieldOps(PrintBinOp, Some(UpdateBinOp), true)
    case Reversed => FieldOps(PrintBinRevOp, Some(UpdateBinRevOp), true)
    case Version => FieldOps(PrintBinVerOp, Some(UpdateBinVerOp), true)
    case Ascii => FieldOps(PrintAsciiOp, Some(UpdateAsciiOp), true)
    case Mac => FieldOps(PrintMacOp, Some(UpdateMacOp), true)
    case Date => FieldOps(PrintDateOp, Some(UpdateDateOp), true)
    case Reserved => FieldOps(PrintReservedOp, None, false)
    case Raw => FieldOps(PrintBinRawOp, None, false)
  }

  /** The window size each encoder writes into. */
  function MinSize(u: Updater): nat {
    match u
    case UpdateBinVerOp => 2
    case UpdateDateOp => 4
    case UpdateMacOp => 1
    case _ => 0
  }

  function RunUpdater(u: Updater, w: seq<Byte>, value: string): (r: Encoded)
    requires |w| >= MinSize(u)
    ensures |r.window| == |w|
    ensures r.outcome.Rejected? && u !in {UpdateBinOp, UpdateBinRevOp, UpdateMacOp} ==> r.window == w
    ensures r.outcome == Done && u == UpdateDateOp ==> (1 <= r.window[1] <= 12
      && r.window[0] as int <= DaysIn(r.window[1] as int - 1, DateYear(r.window)))
  {
    match u
    case UpdateBinOp => UpdateBin(w, value, false)
    case UpdateBinRevOp => UpdateBin(w, value, true)
    case UpdateBinVerOp => UpdateVersion(w, value)
    case UpdateAsciiOp => UpdateAscii(w, value)
    case UpdateMacOp => UpdateMac(w, value)
    case UpdateDateOp => UpdateDate(w, value)
  }

  /** `field->ops->update(field, value)`; `None` where the table holds NULL. */
  function Update(k: Kind, w: seq<Byte>, value: string): (r: Option<Encoded>)
    requires OpsOf(k).update.Some? ==> |w| >= MinSize(OpsOf(k).update.value)
    ensures r.None? <==> k in {Reserved, Raw}
    ensures r.Some? ==> |r.value.window| == |w|
    ensures r.Some? && r.value.outcome.Rejected? && k in {Version, Ascii, Date} ==> r.value.window == w
    ensures r.Some? && r.value.outcome == Done && k == Date ==> (1 <= r.value.window[1] <= 12
      && r.value.window[0] as int <= DaysIn(r.value.window[1] as int - 1, DateYear(r.value.window)))
  {
    if k == Reserved || k == Raw then None
    else
      var u := OpsOf(k).update.value;
      Some(RunUpdater(u, w, value))
  }

  /** `field->ops->clear(field)`; `None` where the table holds NULL. */
  function Clear(k: Kind, w: seq<Byte>): (r: Option<seq<Byte>>)
    ensures r.None? <==> k in {Reserved, Raw}
    ensures r.Some? ==> r.value == Fill(|w|, 0xff)
  {
    if OpsOf(k).clear then Some(ClearField(w)) else None
  }

  /** What a field's `print_value` shows, and the window afterwards (printing a
      version may rewrite it). */
  datatype Shown =
    | HexText(text: string)
    | VersionNumber(major: nat, minor: nat)
    | AsciiText(text: string)
    | DateText(date: DateShown)
    | ByteCount(count: nat)
    | RawDump(chars: string)

  function Show(k: Kind, w: seq<Byte>): (r: (Shown, seq<Byte>))
    requires k == Version ==> |w| >= 2
    requires k == Date ==> |w| >= 4
    requires k in {Binary, Reversed, Mac} ==> |w| >= 1
    ensures |r.1| == |w|
    ensures k != Version ==> r.1 == w
  {
    match OpsOf(k).printValue
    case PrintBinOp => (HexText(PrintBin(w, "", false)), w)
    case PrintBinRevOp => (HexText(PrintBin(w, "", true)), w)
    case PrintMacOp => (HexText(PrintBin(w, ":", false)), w)
    case PrintBinVerOp => var v := PrintVersion(w); (VersionNumber(v.major, v.minor), v.window)
    case PrintAsciiOp => (AsciiText(PrintAscii(w)), w)
    case PrintDateOp => (DateText(PrintDate(w)), w)
    case PrintReservedOp => (ByteCount(|w|), w)
    case PrintBinRawOp => (RawDump(seq(|w|, k requires 0 <= k < |w| => RawChar(w[k]))), w)
  }
}
