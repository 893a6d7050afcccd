/**
 `safe_strtoui` of common.c: a whole string read as one number by
 `strtol(str, &end, 0)`, or -1 when the string is empty or has characters after
 the number.
 */
module Common {
  import opened CText
  import opened CTextLemmas

  /** `safe_strtoui` as written: the `long` stored into an `int`, so negative numbers
      and numbers past INT_MAX come back as negative values other than -1. */
  function SafeStrtoui(s: string): (r: int)
    ensures -0x8000_0000 <= r < 0x8000_0000
    ensures s == [] || Strtol(s, 0).end < |s| ==> r == -1
    ensures s != [] && Strtol(s, 0).end == |s| && -0x8000_0000 <= Strtol(s, 0).value < 0x8000_0000 ==>
      r == Strtol(s, 0).value
  {
    if s == [] then -1
    else
      var c := Strtol(s, 0);
      if c.end != |s| then -1 else StrtolInt(s, 0)
  }

  /** The documented promise, "a positive integer or -1": -1 unless the whole string
      is a number in [0, INT_MAX]. */
  function SafeStrtouiChecked(s: string): (r: int)
    ensures r == -1 || 0 <= r < 0x8000_0000
    ensures r >= 0 <==> s != [] && Strtol(s, 0).end == |s| && 0 <= Strtol(s, 0).value < 0x8000_0000
    ensures r >= 0 ==> r == Strtol(s, 0).value
  {
    if s == [] then -1
    else
      var c := Strtol(s, 0);
      if c.end != |s| || c.value < 0 || c.value >= 0x8000_0000 then -1 else c.value
  }

  /** The two differ exactly on whole numbers outside [0, INT_MAX] that the written
      one does not happen to turn into -1. */
  lemma CheckedAgrees(s: string)
    ensures SafeStrtoui(s) != SafeStrtouiChecked(s) <==>
      (s != [] && Strtol(s, 0).end == |s| && !(0 <= Strtol(s, 0).value < 0x8000_0000) && SafeStrtoui(s) != -1)
  {
  }

  /** A decimal number comes back as itself, in both versions. */
  lemma DecimalRoundTrip(n: nat)
    requires n < 0x8000_0000
    ensures SafeStrtoui(Dec(n)) == n && SafeStrtouiChecked(Dec(n)) == n
  {
    StrtolDecWhole(n, 0);
  }

  /** Characters after the number make the string unreadable. */
  lemma TrailingRefused(n: nat, rest: string)
    requires rest != [] && !IsDigitIn(rest[0], 10)
    requires n == 0 ==> rest[0] != 'x' && rest[0] != 'X'
    ensures SafeStrtoui(Dec(n) + rest) == -1 && SafeStrtouiChecked(Dec(n) + rest) == -1
  {
    StrtolDec(n, rest, 0);
  }

  /** As written: a negative number is returned negated rather than refused. */
  lemma NegativePassesThrough(n: nat)
    requires 0 < n <= 0x8000_0000
    ensures SafeStrtoui("-" + Dec(n)) == -(n as int)
    ensures SafeStrtouiChecked("-" + Dec(n)) == -1
  {
    StrtolNegDec(n, [], 0);
    assert "-" + Dec(n) + [] == "-" + Dec(n);
  }

  /** As written: a number past INT_MAX wraps to the 32-bit value with the same bits. */
  lemma LargeWraps(n: nat)
    requires 0x8000_0000 <= n < 0x1_0000_0000
    ensures SafeStrtoui(Dec(n)) == n - 0x1_0000_0000
    ensures SafeStrtouiChecked(Dec(n)) == -1
  {
    StrtolDecWhole(n, 0);
  }

  /** Base 0 reads a "0x" prefix as hexadecimal... */
  lemma HexPrefix()
    ensures SafeStrtoui("0x1f") == 31
  {
    var h := "0x1f";
    assert SkipSpace(h, 0) == 0 && HasHexPrefix(h, 0);
    assert DigitRun(h, 2, 16) == 4;
    assert h[2..4] == "1f";
    assert DigitsValue("1f", 16) == 31 by { assert "1f"[..1] == "1"; }
  }

  /** ...and a leading zero as octal. */
  lemma OctalPrefix()
    ensures SafeStrtoui("010") == 8
  {
    var o := "010";
    assert SkipSpace(o, 0) == 0 && !HasHexPrefix(o, 0);
    assert DigitRun(o, 0, 8) == 3;
    assert o[0..3] == o;
    assert DigitsValue(o, 8) == 8 by { assert o[..2] == "01" && "01"[..1] == "0"; }
  }
}
