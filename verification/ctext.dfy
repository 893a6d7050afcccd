/**
 The C-library text primitives the EEPROM utility leans on, stated over Dafny strings.

 A Dafny `string` stands for the characters of a C string before its terminating NUL,
 and the end of the sequence plays the part of the terminator. `strtol` follows the
 C standard's description (leading white space, optional sign, base prefix, longest
 run of digits, no conversion leaves the end pointer at the start); `strtok` is the
 usual tokeniser that skips runs of delimiters. `strtoi`/`strtoi_base` are the
 project's own wrappers around `strtol`, declared in common.h and modelled here
 from how their callers use them.
 */
module CText {

  datatype Option<T> = None | Some(value: T)

  /** An `unsigned char`. */
  newtype Byte = b: int | 0 <= b < 256

  /* ---------------- characters ---------------- */

  predicate IsSpace(c: char) {
    c == ' ' || c == '\t' || c == '\n' || c == '\r' || c == '\U{000B}' || c == '\U{000C}'
  }

  /** The digit value of `c` in any base up to 36; 36 for a character that is no digit. */
  function DigitValue(c: char): (d: nat)
    ensures d <= 36
  {
    if '0' <= c <= '9' then c as int - '0' as int
    else if 'a' <= c <= 'z' then c as int - 'a' as int + 10
    else if 'A' <= c <= 'Z' then c as int - 'A' as int + 10
    else 36
  }

  predicate IsDigitIn(c: char, base: nat) {
    DigitValue(c) < base
  }

  /** Lower-case hexadecimal digit for 0..15, as printf's `%x` writes it. */
  function HexChar(d: nat): (c: char)
    requires d < 16
    ensures DigitValue(c) == d
  {
    if d < 10 then ('0' as int + d) as char else ('a' as int + d - 10) as char
  }

  /* ---------------- 32/64-bit integer conversions ---------------- */

  const LongMin: int := -0x8000_0000_0000_0000
  const LongMax: int := 0x7fff_ffff_ffff_ffff

  /** strtol saturates at the bounds of `long` (64 bits on the target). */
  function ClampLong(v: int): (r: int)
    ensures LongMin <= r <= LongMax
    ensures LongMin <= v <= LongMax ==> r == v
  {
    if v < LongMin then LongMin else if v > LongMax then LongMax else v
  }

  /** Conversion of a wider integer to a 32-bit two's-complement `int`. */
  function ToInt32(v: int): (r: int)
    ensures -0x8000_0000 <= r < 0x8000_0000
    ensures (r - v) % 0x1_0000_0000 == 0
    ensures -0x8000_0000 <= v < 0x8000_0000 ==> r == v
  {
    var m := v % 0x1_0000_0000;
    if m >= 0x8000_0000 then m - 0x1_0000_0000 else m
  }

  /** Conversion of an `int` to `unsigned int`. */
  function ToUint32(v: int): (r: nat)
    ensures r < 0x1_0000_0000
    ensures (r - v) % 0x1_0000_0000 == 0
    ensures 0 <= v < 0x1_0000_0000 ==> r == v
  {
    v % 0x1_0000_0000
  }

  /** Conversion of an `int` to `char`/`unsigned char`: the low eight bits. */
  function Low8(v: int): (r: Byte)
    ensures r as int == v % 256
  {
    (v % 256) as Byte
  }

  /* ---------------- strtol ---------------- */

  /** Index of the first character at or after `i` that is not white space. */
  function SkipSpace(s: string, i: nat): (j: nat)
    requires i <= |s|
    ensures i <= j <= |s|
    ensures j < |s| ==> !IsSpace(s[j])
    decreases |s| - i
  {
    if i < |s| && IsSpace(s[i]) then SkipSpace(s, i + 1) else i
  }

  /** End of the longest run of `base` digits starting at `i`. */
  function DigitRun(s: string, i: nat, base: nat): (j: nat)
    requires i <= |s|
    ensures i <= j <= |s|
    ensures forall k | i <= k < j :: IsDigitIn(s[k], base)
    ensures j < |s| ==> !IsDigitIn(s[j], base)
    decreases |s| - i
  {
    if i < |s| && IsDigitIn(s[i], base) then DigitRun(s, i + 1, base) else i
  }

  /** Positional value of a digit string, most significant digit first. */
  function DigitsValue(ds: string, base: nat): nat
    decreases |ds|
  {
    if |ds| == 0 then 0 else DigitsValue(ds[..|ds| - 1], base) * base + DigitValue(ds[|ds| - 1])
  }

  predicate HasHexPrefix(s: string, i: nat) {
    i + 2 < |s| && s[i] == '0' && (s[i + 1] == 'x' || s[i + 1] == 'X') && IsDigitIn(s[i + 2], 16)
  }

  /** What `strtol` reports: whether a number was converted, its (unbounded) value,
      and the index the end pointer is left at. */
  datatype Conversion = Conversion(converted: bool, value: int, end: nat)

  /** Index of the first digit, after white space, sign and base prefix. */
  function DigitsStart(s: string, base: nat): (i: nat)
    ensures i <= |s|
  {
    var i0 := SkipSpace(s, 0);
    var i1 := if i0 < |s| && (s[i0] == '-' || s[i0] == '+') then i0 + 1 else i0;
    if (base == 0 || base == 16) && HasHexPrefix(s, i1) then i1 + 2 else i1
  }

  /** The base actually used: base 0 picks hexadecimal, octal or decimal from the prefix. */
  function EffectiveBase(s: string, base: nat): (b: nat)
    requires base == 0 || 2 <= base <= 36
    ensures 2 <= b <= 36
  {
    var i0 := SkipSpace(s, 0);
    var i1 := if i0 < |s| && (s[i0] == '-' || s[i0] == '+') then i0 + 1 else i0;
    if (base == 0 || base == 16) && HasHexPrefix(s, i1) then 16
    else if base == 0 then (if i1 < |s| && s[i1] == '0' then 8 else 10)
    else base
  }

  predicate Negative(s: string) {
    var i0 := SkipSpace(s, 0);
    i0 < |s| && s[i0] == '-'
  }

  function Strtol(s: string, base: nat): (r: Conversion)
    requires base == 0 || 2 <= base <= 36
    ensures r.end <= |s|
    ensures !r.converted <==> r.end == 0
    ensures !r.converted ==> r.value == 0
    ensures r.converted ==> r.end < |s| ==> !IsDigitIn(s[r.end], EffectiveBase(s, base))
  {
    var i := DigitsStart(s, base);
    var b := EffectiveBase(s, base);
    var j := DigitRun(s, i, b);
    if j == i then Conversion(false, 0, 0)
    else
      var m: int := DigitsValue(s[i..j], b);
      Conversion(true, if Negative(s) then -m else m, j)
  }

  /** `strtol` assigned to an `int` variable: saturated to `long`, then truncated. */
  function StrtolInt(s: string, base: nat): int
    requires base == 0 || 2 <= base <= 36
  {
    ToInt32(ClampLong(Strtol(s, base).value))
  }

  /* ---------------- strtoi ---------------- */

  /** The three outcomes of `strtoi_base`: a negative code when no digits were found,
      STRTOI_STR_CON with the pointer moved past the number when characters remain,
      STRTOI_STR_END when the number runs to the end of the string. */
  datatype Strtoi = NoNumber | Continues(value: int, rest: string) | Ended(value: int)
  {
    function Code(): int {
      match this
      case NoNumber => -1
      case Continues(_, _) => StrtoiStrCon
      case Ended(_) => StrtoiStrEnd
    }
  }

  const StrtoiStrCon: int := 1
  const StrtoiStrEnd: int := 2

  function StrtoiBase(s: string, base: nat): (r: Strtoi)
    requires 2 <= base <= 36
    ensures r.NoNumber? <==> !Strtol(s, base).converted
    ensures r.Continues? ==> 0 < |r.rest| <= |s| && r.rest == s[|s| - |r.rest|..]
    ensures r.Continues? ==> !IsDigitIn(r.rest[0], base)
    ensures r.Code() < 0 <==> r.NoNumber?
  {
    var c := Strtol(s, base);
    if !c.converted then NoNumber
    else if c.end == |s| then Ended(c.value)
    else Continues(c.value, s[c.end..])
  }

  /** `strtoi` is `strtoi_base` in base 10. */
  function StrToI(s: string): Strtoi {
    StrtoiBase(s, 10)
  }

  /* ---------------- strtok ---------------- */

  /** Index of the first `d` at or after `i`, or |s|. */
  function RunEnd(s: string, d: char, i: nat): (k: nat)
    requires i <= |s|
    ensures i <= k <= |s|
    ensures forall m | i <= m < k :: s[m] != d
    ensures k < |s| ==> s[k] == d
    decreases |s| - i
  {
    if i < |s| && s[i] != d then RunEnd(s, d, i + 1) else i
  }

  /** The tokens successive `strtok` calls return for delimiter `d`:
      the maximal non-empty runs of characters other than `d`. */
  function Tokens(s: string, d: char): (ts: seq<string>)
    ensures forall t | t in ts :: |t| > 0 && d !in t
    decreases |s|
  {
    if |s| == 0 then []
    else if s[0] == d then Tokens(s[1..], d)
    else
      var k := RunEnd(s, d, 0);
      assert d !in s[..k] by {
        forall m | 0 <= m < k ensures s[..k][m] != d { }
      }
      [s[..k]] + Tokens(s[k..], d)
  }

  /** The string built from `ts` with one `d` between neighbours. */
  function Join(ts: seq<string>, d: char): string {
    if |ts| == 0 then [] else if |ts| == 1 then ts[0] else ts[0] + [d] + Join(ts[1..], d)
  }

  /* ---------------- printf-style formatting ---------------- */

  function DecChar(d: nat): (c: char)
    requires d < 10
    ensures DigitValue(c) == d && '0' <= c <= '9'
  {
    ('0' as int + d) as char
  }

  /** `%d` of a non-negative number. */
  function Dec(n: nat): (s: string)
    ensures |s| > 0
    ensures forall k | 0 <= k < |s| :: '0' <= s[k] <= '9'
    decreases n
  {
    if n < 10 then [DecChar(n)] else Dec(n / 10) + [DecChar(n % 10)]
  }

  /** `%02d` of a non-negative number: at least two digits, zero-padded. */
  function Pad2(n: nat): (s: string)
    ensures |s| >= 2
    ensures forall k | 0 <= k < |s| :: '0' <= s[k] <= '9'
  {
    if n < 10 then ['0'] + Dec(n) else Dec(n)
  }

  /** `%02x` of a byte. */
  function Hex2(b: Byte): (s: string)
    ensures |s| == 2 && IsDigitIn(s[0], 16) && IsDigitIn(s[1], 16)
  {
    HexPair(b as int)
  }

  function HexPair(v: nat): (s: string)
    requires v < 256
    ensures |s| == 2 && IsDigitIn(s[0], 16) && IsDigitIn(s[1], 16)
    ensures DigitValue(s[0]) * 16 + DigitValue(s[1]) == v
  {
    [HexChar(v / 16), HexChar(v % 16)]
  }
}
