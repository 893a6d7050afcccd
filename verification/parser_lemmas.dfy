/**
 What the parser.c validators accept, stated on the texts a user types: layout
 numbers with or without 'v', offsets and offset ranges, "key<delimiter>value".
 */
module ParserLemmas {
  import opened CText
  import opened CTextLemmas
  import opened Parser

  /* ---------------- parse_layout_version ---------------- */

  lemma NotANamedLayout(s: string)
    requires s != [] && ('0' <= s[0] <= '9' || s[0] == 'v' || s[0] == '-')
    ensures !StartsWith(s, "legacy") && !StartsWith(s, "raw") && !StartsWith(s, "auto")
  {
  }

  /** A layout number, written with or without 'v', selects that layout when it lies
      in [LAYOUT_LEGACY, LAYOUT_UNRECOGNIZED) and is refused from 5 up, 6
      (RAW_DATA) included. */
  lemma LayoutNumber(n: nat, withV: bool)
    requires n < 0x8000_0000
    ensures var s := if withV then "v" + Dec(n) else Dec(n);
      ParseLayoutVersion(s) == if n < LayoutUnrecognized then n else LayoutUnrecognized
  {
    var s := if withV then "v" + Dec(n) else Dec(n);
    NotANamedLayout(s);
    if withV {
      assert StartsWith(s, "v") && s[1..] == Dec(n);
    } else {
      assert !StartsWith(s, "v") by { assert s[0] == Dec(n)[0]; }
    }
    StrtolDecWhole(n, 10);
  }

  /** "-1" and "v-1" ask for detection, like "auto". */
  lemma LayoutMinusOne(withV: bool)
    ensures ParseLayoutVersion(if withV then "v-1" else "-1") == LayoutAutodetect
  {
    MinusOne();
    if withV {
      assert "v-1"[1..] == "-1";
      FullNumber("v-1", "-1", -1);
    } else {
      assert !StartsWith("-1", "v");
      FullNumber("-1", "-1", -1);
    }
  }

  /** A number in range that fills the argument (after an optional 'v') is the layout. */
  lemma FullNumber(s: string, t: string, v: int)
    requires s != [] && (s[0] == 'v' || s[0] == '-')
    requires t == if StartsWith(s, "v") then s[1..] else s
    requires Strtol(t, 10) == Conversion(true, v, |t|) && LayoutAutodetect <= v < LayoutUnrecognized
    ensures ParseLayoutVersion(s) == v
  {
    NotANamedLayout(s);
  }

  lemma MinusOne()
    ensures Strtol("-1", 10) == Conversion(true, -1, 2)
  {
    StrtolNegDec(1, [], 10);
    assert "-" + Dec(1) + [] == "-1";
  }

  /** Characters after the number make the argument unrecognized. */
  lemma LayoutTrailing(n: nat, rest: string)
    requires rest != [] && !IsDigitIn(rest[0], 10)
    ensures ParseLayoutVersion(Dec(n) + rest) == LayoutUnrecognized
  {
    var s := Dec(n) + rest;
    assert s[0] == Dec(n)[0];
    StrtolDec(n, rest, 10);
    NumberNotFilling(s);
  }

  /** A number that stops before the end of the argument is refused. */
  lemma NumberNotFilling(s: string)
    requires s != [] && '0' <= s[0] <= '9'
    requires Strtol(s, 10).end < |s|
    ensures ParseLayoutVersion(s) == LayoutUnrecognized
  {
    NotANamedLayout(s);
  }

  /* ---------------- valid_key ---------------- */

  /** A single non-negative offset is a valid key. */
  lemma SingleOffsetValid(n: nat)
    requires n < 0x8000_0000
    ensures ValidKey(Dec(n))
  {
    StrtolDecWhole(n, 0);
  }

  /** A negative offset is not. */
  lemma NegativeOffsetInvalid(n: nat)
    requires 0 < n <= 0x8000_0000
    ensures !ValidKey("-" + Dec(n))
  {
    StrtolNegDec(n, [], 0);
    assert "-" + Dec(n) + [] == "-" + Dec(n);
  }

  /** A key must start with a number. */
  lemma KeyWithoutNumber(key: string)
    requires key == [] || (!IsSpace(key[0]) && key[0] != '-' && key[0] != '+' && !IsDigitIn(key[0], 10))
    ensures !ValidKey(key)
  {
    if key != [] {
      assert SkipSpace(key, 0) == 0;
      assert !HasHexPrefix(key, 0);
      assert EffectiveBase(key, 0) == 10;
      assert DigitRun(key, 0, 10) == 0;
    }
  }

  /** The first number of a range and the character after it. */
  lemma RangeFirst(a: nat, sep: char, b: nat)
    requires !IsDigitIn(sep, 10) && (a == 0 ==> sep != 'x' && sep != 'X')
    ensures var key := Dec(a) + [sep] + Dec(b);
      Strtol(key, 0) == Conversion(true, a, |Dec(a)|) && key[|Dec(a)| + 1..] == Dec(b)
  {
    var tail := [sep] + Dec(b);
    StrtolDec(a, tail, 0);
    var key := Dec(a) + [sep] + Dec(b);
    assert key == Dec(a) + tail;
    assert key[|Dec(a)| + 1..] == tail[1..];
  }

  /** A range "a<sep>b" with any single non-digit separator is valid exactly when
      a < b; in particular "5-5" is refused. */
  lemma RangeValid(a: nat, sep: char, b: nat)
    requires a < 0x8000_0000 && b < 0x8000_0000
    requires !IsDigitIn(sep, 10) && (a == 0 ==> sep != 'x' && sep != 'X')
    ensures ValidKey(Dec(a) + [sep] + Dec(b)) <==> a < b
  {
    RangeFirst(a, sep, b);
    StrtolDecWhole(b, 0);
  }

  /* ---------------- parse_new_data ---------------- */

  /** "key<d>value", with anything after a second delimiter dropped, is split into
      key and value; a byte change also needs a valid key. */
  lemma ChangeSplit(key: string, d: char, value: string, tail: string, isBytes: bool)
    requires |key| > 0 && d !in key && |value| > 0 && d !in value
    requires tail == [] || tail[0] == d
    ensures ParseChange(key + [d] + value + tail, d, isBytes) ==
      if isBytes && !ValidKey(key) then None else Some((key, value))
  {
    var c := key + [d] + value + tail;
    assert c[0] == key[0];
    ChangeTokens(key, d, value, tail);
  }

  /** The first two tokens of "key<d>value<tail>". */
  lemma ChangeTokens(key: string, d: char, value: string, tail: string)
    requires |key| > 0 && d !in key && |value| > 0 && d !in value
    requires tail == [] || tail[0] == d
    ensures var ts := Tokens(key + [d] + value + tail, d);
      |ts| >= 2 && ts[0] == key && ts[1] == value
  {
    assert key + [d] + value + tail == key + [d] + (value + tail);
    TokensCons(key, d, value + tail);
    ValueTokens(value, d, tail);
  }

  lemma ValueTokens(value: string, d: char, tail: string)
    requires |value| > 0 && d !in value
    requires tail == [] || tail[0] == d
    ensures var ts := Tokens(value + tail, d); |ts| >= 1 && ts[0] == value
  {
    if tail == [] {
      assert value + tail == value;
      TokensCons(value, d, []);
    } else {
      assert value + tail == value + [d] + tail[1..];
      TokensCons(value, d, tail[1..]);
    }
  }

  /** A change without a delimiter has no value and is refused. */
  lemma ChangeWithoutValue(key: string, d: char, isBytes: bool)
    requires |key| > 0 && d !in key
    ensures ParseChange(key, d, isBytes).None?
  {
    TokensCons(key, d, []);
  }
}
