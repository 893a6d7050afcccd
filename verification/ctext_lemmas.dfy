/**
 What the text primitives compute on the strings the utility itself prints:
 `strtol` reads back a `%d` or a `%02x` exactly, and `strtok` splits a joined
 list back into its parts.
 */
module CTextLemmas {
  import opened CText

  lemma {:induction false} DigitRunExact(s: string, i: nat, k: nat, base: nat)
    requires i <= k <= |s|
    requires forall m | i <= m < k :: IsDigitIn(s[m], base)
    requires k == |s| || !IsDigitIn(s[k], base)
    ensures DigitRun(s, i, base) == k
    decreases k - i
  {
    if i < k {
      DigitRunExact(s, i + 1, k, base);
    }
  }

  lemma DigitsValueSnoc(ds: string, c: char, base: nat)
    ensures DigitsValue(ds + [c], base) == DigitsValue(ds, base) * base + DigitValue(c)
  {
    assert (ds + [c])[..|ds|] == ds;
  }

  lemma {:induction false} DecValue(n: nat)
    ensures DigitsValue(Dec(n), 10) == n
    ensures DigitsValue(Dec(n), 8) == n || n >= 8
    decreases n
  {
    if n < 10 {
      assert Dec(n) == [] + [DecChar(n)];
      DigitsValueSnoc([], DecChar(n), 10);
      DigitsValueSnoc([], DecChar(n), 8);
    } else {
      DecValue(n / 10);
      DigitsValueSnoc(Dec(n / 10), DecChar(n % 10), 10);
    }
  }

  lemma {:induction false} DecLead(n: nat)
    ensures n == 0 <==> Dec(n)[0] == '0'
    decreases n
  {
    if n >= 10 {
      DecLead(n / 10);
      assert Dec(n)[0] == Dec(n / 10)[0];
    }
  }

  /** A decimal number alone is read, in base 10 or base 0, up to its end. */
  lemma StrtolDecWhole(n: nat, base: nat)
    requires base == 0 || base == 10
    ensures Strtol(Dec(n), base) == Conversion(true, n, |Dec(n)|)
  {
    StrtolDec(n, [], base);
    assert Dec(n) + [] == Dec(n);
  }

  /** The digits of `Dec(n)` are read back by `strtol` in base 10, and in base 0 unless
      a "0x" prefix is formed with what follows. */
  lemma StrtolDec(n: nat, rest: string, base: nat)
    requires base == 0 || base == 10
    requires rest == [] || !IsDigitIn(rest[0], 10)
    requires base == 0 && n == 0 && rest != [] ==> rest[0] != 'x' && rest[0] != 'X'
    ensures Strtol(Dec(n) + rest, base) == Conversion(true, n, |Dec(n)|)
  {
    var s := Dec(n) + rest;
    var k := |Dec(n)|;
    assert s[..k] == Dec(n);
    DecLead(n);
    DecValue(n);
    assert SkipSpace(s, 0) == 0;
    assert !((base == 0 || base == 16) && HasHexPrefix(s, 0)) by {
      if n == 0 { assert k == 1; } else { assert s[0] != '0'; }
    }
    var b := EffectiveBase(s, base);
    assert b == 10 || (b == 8 && n == 0);
    if n == 0 {
      assert Dec(0) == ['0'];
    }
    forall m | 0 <= m < k ensures IsDigitIn(s[m], b) {
      assert s[m] == Dec(n)[m];
    }
    DigitRunExact(s, 0, k, b);
  }

  /** In base 10, `strtol` reads a run of decimal digits to its end, leading zeros included. */
  lemma StrtolDigits(ds: string, rest: string)
    requires |ds| > 0 && forall k | 0 <= k < |ds| :: '0' <= ds[k] <= '9'
    requires rest == [] || !IsDigitIn(rest[0], 10)
    ensures Strtol(ds + rest, 10) == Conversion(true, DigitsValue(ds, 10), |ds|)
  {
    var s := ds + rest;
    var k := |ds|;
    assert s[0] == ds[0];
    assert s[..k] == ds;
    assert SkipSpace(s, 0) == 0;
    assert DigitsStart(s, 10) == 0;
    assert !Negative(s);
    forall m | 0 <= m < k ensures IsDigitIn(s[m], 10) {
      assert s[m] == ds[m];
    }
    DigitRunExact(s, 0, k, 10);
  }

  /** `strtoi` on digits followed by `rest`. */
  lemma StrToIDigits(ds: string, rest: string)
    requires |ds| > 0 && forall k | 0 <= k < |ds| :: '0' <= ds[k] <= '9'
    requires rest == [] || !IsDigitIn(rest[0], 10)
    ensures StrToI(ds + rest) ==
      if rest == [] then Ended(DigitsValue(ds, 10)) else Continues(DigitsValue(ds, 10), rest)
  {
    StrtolDigits(ds, rest);
    assert (ds + rest)[|ds|..] == rest;
  }

  lemma {:induction false} LeadingZero(ds: string, base: nat)
    ensures DigitsValue(['0'] + ds, base) == DigitsValue(ds, base)
    decreases |ds|
  {
    if |ds| > 0 {
      var s := ['0'] + ds;
      assert s[..|s| - 1] == ['0'] + ds[..|ds| - 1];
      assert s[|s| - 1] == ds[|ds| - 1];
      LeadingZero(ds[..|ds| - 1], base);
    } else {
      assert DigitsValue(['0'][..0], base) == 0;
    }
  }

  lemma Pad2Value(n: nat)
    ensures DigitsValue(Pad2(n), 10) == n
  {
    DecValue(n);
    if n < 10 {
      LeadingZero(Dec(n), 10);
    }
  }

  lemma StrtolNegDec(n: nat, rest: string, base: nat)
    requires base == 0 || base == 10
    requires rest == [] || !IsDigitIn(rest[0], 10)
    requires n > 0
    ensures Strtol("-" + Dec(n) + rest, base) == Conversion(true, -(n as int), 1 + |Dec(n)|)
  {
    var s := "-" + Dec(n) + rest;
    var k := 1 + |Dec(n)|;
    assert s[0] == '-' && s[1] == Dec(n)[0];
    assert s[1..k] == Dec(n);
    DecLead(n);
    DecValue(n);
    assert SkipSpace(s, 0) == 0;
    assert !HasHexPrefix(s, 1);
    assert DigitsStart(s, base) == 1;
    assert Negative(s);
    var b := EffectiveBase(s, base);
    assert b == 10;
    forall m | 1 <= m < k ensures IsDigitIn(s[m], 10) {
      assert s[m] == Dec(n)[m - 1];
    }
    DigitRunExact(s, 1, k, 10);
  }

  /** `strtoi` on a minus sign, the digits of `Dec(n)` and a non-empty `rest`. */
  lemma StrToINegDec(n: nat, rest: string)
    requires n > 0 && rest != [] && !IsDigitIn(rest[0], 10)
    ensures StrToI("-" + Dec(n) + rest) == Continues(-(n as int), rest)
  {
    var s := "-" + Dec(n) + rest;
    StrtolNegDec(n, rest, 10);
    assert s[1 + |Dec(n)|..] == rest;
  }

  /** `strtoi_base(.., 16)` reads back a `%02x` byte. */
  lemma StrtoiHex2(b: Byte, rest: string)
    requires rest == [] || !IsDigitIn(rest[0], 16)
    ensures StrtoiBase(Hex2(b) + rest, 16) == if rest == [] then Ended(b as int) else Continues(b as int, rest)
  {
    StrtoiHexPair(b as int, rest);
  }

  /** `strtoi_base(.., 16)` reads a run of hex digits of any length to its end. */
  lemma StrtoiHexDigits(ds: string, rest: string)
    requires |ds| > 0 && forall k | 0 <= k < |ds| :: IsDigitIn(ds[k], 16)
    requires rest == [] || (!IsDigitIn(rest[0], 16) && rest[0] != 'x' && rest[0] != 'X')
    ensures StrtoiBase(ds + rest, 16) ==
      if rest == [] then Ended(DigitsValue(ds, 16)) else Continues(DigitsValue(ds, 16), rest)
  {
    var s := ds + rest;
    var k := |ds|;
    assert s[..k] == ds;
    assert s[0] == ds[0];
    assert SkipSpace(s, 0) == 0;
    assert !HasHexPrefix(s, 0) by {
      if k > 1 { assert s[1] == ds[1]; }
    }
    forall m | 0 <= m < k ensures IsDigitIn(s[m], 16) {
      assert s[m] == ds[m];
    }
    DigitRunExact(s, 0, k, 16);
    assert s[k..] == rest;
  }

  lemma StrtoiHexPair(v: nat, rest: string)
    requires v < 256
    requires rest == [] || !IsDigitIn(rest[0], 16)
    ensures StrtoiBase(HexPair(v) + rest, 16) == if rest == [] then Ended(v) else Continues(v, rest)
  {
    var s := HexPair(v) + rest;
    assert s[..2] == HexPair(v);
    assert SkipSpace(s, 0) == 0;
    assert !HasHexPrefix(s, 0);
    DigitRunExact(s, 0, 2, 16);
    DigitsValueSnoc([s[0]], s[1], 16);
    DigitsValueSnoc([], s[0], 16);
    assert [] + [s[0]] == [s[0]];
    assert [s[0]] + [s[1]] == s[..2];
    assert s[2..] == rest;
  }

  lemma TokensCons(t: string, d: char, rest: string)
    requires |t| > 0 && d !in t
    ensures Tokens(t + [d] + rest, d) == [t] + Tokens(rest, d)
    ensures Tokens(t, d) == [t]
  {
    var s := t + [d] + rest;
    assert s[0] == t[0];
    RunEndExact(s, d, |t|);
    assert s[..|t|] == t;
    assert s[|t|..] == [d] + rest;
    assert ([d] + rest)[1..] == rest;
    RunEndExact(t, d, |t|);
    assert t[..|t|] == t;
    assert t[|t|..] == [];
  }

  lemma RunEndExact(s: string, d: char, k: nat)
    requires k <= |s|
    requires forall m | 0 <= m < k :: s[m] != d
    requires k == |s| || s[k] == d
    ensures RunEnd(s, d, 0) == k
  {
    RunEndFrom(s, d, 0, k);
  }

  lemma {:induction false} RunEndFrom(s: string, d: char, i: nat, k: nat)
    requires i <= k <= |s|
    requires forall m | i <= m < k :: s[m] != d
    requires k == |s| || s[k] == d
    ensures RunEnd(s, d, i) == k
    decreases k - i
  {
    if i < k {
      RunEndFrom(s, d, i + 1, k);
    }
  }

  /** `strtok` undoes the join of non-empty, delimiter-free parts. */
  lemma {:induction false} TokensJoin(ts: seq<string>, d: char)
    requires forall t | t in ts :: |t| > 0 && d !in t
    ensures Tokens(Join(ts, d), d) == ts
  {
    if |ts| == 1 {
      TokensCons(ts[0], d, []);
    } else if |ts| > 1 {
      TokensCons(ts[0], d, Join(ts[1..], d));
      TokensJoin(ts[1..], d);
    }
  }
}
