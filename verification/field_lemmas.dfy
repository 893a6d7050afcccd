/**
 Properties of the field codec that relate several calls: what each encoder makes
 of the text the matching printer shows, and the edge cases of each encoder.
 */
module FieldLemmas {
  import opened CText
  import opened CTextLemmas
  import opened Field

  /* ---------------- binary and reversed binary ---------------- */

  lemma {:induction false} HexJoinPlain(u: seq<Byte>)
    requires |u| > 0
    ensures |HexJoin(u, "")| == 2 * |u|
    ensures forall k | 0 <= k < |u| :: HexJoin(u, "")[2 * k .. 2 * k + 2] == Hex2(u[k])
    decreases |u|
  {
    var s := HexJoin(u, "");
    if |u| > 1 {
      HexJoinPlain(u[1..]);
      var t := HexJoin(u[1..], "");
      assert s == Hex2(u[0]) + t;
      forall k | 0 <= k < |u| ensures s[2 * k .. 2 * k + 2] == Hex2(u[k]) {
        if k > 0 {
          assert s[2 * k .. 2 * k + 2] == t[2 * (k - 1) .. 2 * (k - 1) + 2];
          assert u[1..][k - 1] == u[k];
        }
      }
    }
  }

  lemma GroupByteHex2(b: Byte)
    ensures GroupByte(Hex2(b)) == Some(b)
  {
    StrtoiHex2(b, []);
    assert Hex2(b) + [] == Hex2(b);
  }

  lemma HexGroupText(u: seq<Byte>, reverse: bool, k: nat)
    requires 0 <= k < |u|
    ensures |HexJoin(u, "")| == 2 * |u|
    ensures BinGroup(HexJoin(u, ""), reverse, k) == Hex2(Oriented(u, reverse)[k])
  {
    var value := HexJoin(u, "");
    HexJoinPlain(u);
    if reverse {
      var k' := |u| - 1 - k;
      assert |value| - 1 - 2 * k == 2 * k' + 1;
      assert value[2 * k' .. 2 * k' + 2] == Hex2(u[k']);
    } else {
      assert value[2 * k .. 2 * k + 2] == Hex2(u[k]);
    }
  }

  lemma HexGroup(u: seq<Byte>, reverse: bool, k: nat)
    requires 0 <= k < |u|
    ensures |HexJoin(u, "")| == 2 * |u|
    ensures GroupByte(BinGroup(HexJoin(u, ""), reverse, k)) == Some(Oriented(u, reverse)[k])
  {
    HexGroupText(u, reverse, k);
    GroupByteHex2(Oriented(u, reverse)[k]);
  }

  /** Group `k` of printed hex text is the `%02x` of one byte, taken from the front
      forwards and from the back when reversed. */
  lemma GroupOfHex(u: seq<Byte>, reverse: bool, k: nat)
    requires 0 <= k < |u|
    ensures |Groups(HexJoin(u, ""), reverse)| == |u|
    ensures Groups(HexJoin(u, ""), reverse)[k] == Some(Oriented(u, reverse)[k])
  {
    HexGroup(u, reverse, k);
  }

  lemma GroupsOfHex(u: seq<Byte>, reverse: bool)
    requires |u| > 0
    ensures var gs := Groups(HexJoin(u, ""), reverse);
      |gs| == |u| && forall k | 0 <= k < |u| :: gs[k] == Some(Oriented(u, reverse)[k])
  {
    GroupOfHex(u, reverse, 0);
    forall k | 0 <= k < |u|
      ensures Groups(HexJoin(u, ""), reverse)[k] == Some(Oriented(u, reverse)[k])
    {
      GroupOfHex(u, reverse, k);
    }
  }

  /** `update_bin` and `update_bin_rev` take back what `print_bin` and `print_bin_rev`
      show, whatever the window held before. */
  lemma BinRoundTrip(w0: seq<Byte>, w: seq<Byte>, reverse: bool)
    requires |w0| == |w| > 0
    ensures UpdateBin(w0, PrintBin(w, "", reverse), reverse) == Encoded(Done, w)
  {
    var u := Oriented(w, reverse);
    var value := HexJoin(u, "");
    GroupsOfHex(u, reverse);
    forall k | 0 <= k < |w| ensures Groups(value, reverse)[k] == Some(w[k]) {
      assert Oriented(u, reverse)[k] == w[k];
    }
    BinOfBytes(w0, value, reverse, w);
  }

  /** Text whose every group is a hex byte is stored as those bytes. */
  lemma BinOfBytes(w0: seq<Byte>, value: string, reverse: bool, bs: seq<Byte>)
    requires |bs| == |w0| == |Groups(value, reverse)|
    requires forall k | 0 <= k < |bs| :: Groups(value, reverse)[k] == Some(bs[k])
    ensures UpdateBin(w0, value, reverse) == Encoded(Done, bs)
  {
    var gs := Groups(value, reverse);
    assert FirstBad(gs) == |gs|;
    var r := UpdateBin(w0, value, reverse);
    assert r.window == bs;
  }

  /** The example of the `update_bin_rev` documentation: "1234" is stored as 34 12. */
  lemma BinReversedExample(w0: seq<Byte>)
    requires |w0| == 2
    ensures UpdateBin(w0, "1234", true) == Encoded(Done, [0x34, 0x12])
  {
    var w: seq<Byte> := [0x34, 0x12];
    assert Reverse(w) == [0x12, 0x34];
    assert Hex2(0x12) == "12" && Hex2(0x34) == "34";
    assert HexJoin([0x12, 0x34], "") == "12" + "" + "34";
    assert PrintBin(w, "", true) == "1234";
    BinRoundTrip(w0, w, true);
  }

  /** A syntax error is reported after the window has already been zeroed. */
  lemma BinSyntaxErrorZeroes(w0: seq<Byte>)
    requires |w0| >= 1
    ensures UpdateBin(w0, "zz", false) == Encoded(Rejected(SyntaxError), Zeros(|w0|))
  {
    var gs := Groups("zz", false);
    assert BinGroup("zz", false, 0) == "zz";
    assert DigitRun("zz", 0, 16) == 0;
    assert gs[0] == None;
    assert UpdateBin(w0, "zz", false).window == Zeros(|w0|);
  }

  /* ---------------- MAC ---------------- */

  lemma HexJoinStep(u: seq<Byte>, delim: string)
    requires |u| > 1
    ensures HexJoin(u, delim) == Hex2(u[0]) + (delim + HexJoin(u[1..], delim))
  {
  }

  lemma DelimLast(b: Byte, m: nat)
    requires m >= 1
    ensures DelimBytes(Hex2(b), m, ':') == if m == 1 then (true, [b]) else (false, [])
  {
    StrtoiHex2(b, []);
    assert Hex2(b) + [] == Hex2(b);
  }

  lemma DelimCons(b: Byte, t: string, m: nat)
    requires m >= 1
    ensures var r := DelimBytes(Hex2(b) + (":" + t), m, ':');
      if m == 1 then r == (false, [])
      else r == (DelimBytes(t, m - 1, ':').0, [b] + DelimBytes(t, m - 1, ':').1)
  {
    StrtoiHex2(b, ":" + t);
    assert (":" + t)[1..] == t;
  }

  lemma DelimJoinStep(u: seq<Byte>, m: nat)
    requires |u| > 1 && m >= 1
    ensures var r := DelimBytes(HexJoin(u, ":"), m, ':');
      if m == 1 then r == (false, [])
      else r == (DelimBytes(HexJoin(u[1..], ":"), m - 1, ':').0,
                 [u[0]] + DelimBytes(HexJoin(u[1..], ":"), m - 1, ':').1)
  {
    HexJoinStep(u, ":");
    DelimCons(u[0], HexJoin(u[1..], ":"), m);
  }

  /** What `__update_bin_delim` makes of `u` printed with ':' when it expects `m`
      components: all of them when there are exactly `m`, otherwise a syntax error
      after the bytes before the failing component. */
  function DelimExpected(u: seq<Byte>, m: nat): (bool, seq<Byte>)
    requires |u| >= 1 && m >= 1
  {
    if m == |u| then (true, u) else (false, u[..(if m < |u| then m else |u|) - 1])
  }

  lemma DelimExpectedCons(u: seq<Byte>, m: nat)
    requires |u| > 1 && m > 1
    ensures DelimExpected(u, m) ==
      (DelimExpected(u[1..], m - 1).0, [u[0]] + DelimExpected(u[1..], m - 1).1)
  {
    if m == |u| {
      assert [u[0]] + u[1..] == u;
    } else {
      var j := if m < |u| then m else |u|;
      assert [u[0]] + u[1..][..j - 2] == u[..j - 1];
    }
  }

  lemma {:induction false} DelimOfHex(u: seq<Byte>, m: nat)
    requires |u| >= 1 && m >= 1
    ensures DelimBytes(HexJoin(u, ":"), m, ':') == DelimExpected(u, m)
    decreases m, 1
  {
    if |u| == 1 {
      DelimOfOneHex(u, m);
    } else if m == 1 {
      DelimOfHexFirst(u);
    } else {
      DelimOfHexRest(u, m);
    }
  }

  lemma {:induction false} DelimOfHexRest(u: seq<Byte>, m: nat)
    requires |u| > 1 && m > 1
    ensures DelimBytes(HexJoin(u, ":"), m, ':') == DelimExpected(u, m)
    decreases m, 0
  {
    DelimOfHex(u[1..], m - 1);
    DelimOfHexStep(u, m);
  }

  lemma DelimOfHexFirst(u: seq<Byte>)
    requires |u| > 1
    ensures DelimBytes(HexJoin(u, ":"), 1, ':') == DelimExpected(u, 1)
  {
    DelimJoinStep(u, 1);
  }

  lemma DelimOfHexStep(u: seq<Byte>, m: nat)
    requires |u| > 1 && m > 1
    requires DelimBytes(HexJoin(u[1..], ":"), m - 1, ':') == DelimExpected(u[1..], m - 1)
    ensures DelimBytes(HexJoin(u, ":"), m, ':') == DelimExpected(u, m)
  {
    DelimJoinStep(u, m);
    DelimExpectedCons(u, m);
  }

  lemma DelimOfOneHex(u: seq<Byte>, m: nat)
    requires |u| == 1 && m >= 1
    ensures DelimBytes(HexJoin(u, ":"), m, ':') == DelimExpected(u, m)
  {
    assert HexJoin(u, ":") == Hex2(u[0]);
    assert u == [u[0]];
    DelimLast(u[0], m);
  }

  /** `update_mac` takes back what `print_mac` shows. */
  lemma MacRoundTrip(w0: seq<Byte>, w: seq<Byte>)
    requires |w0| == |w| >= 1
    ensures UpdateMac(w0, PrintBin(w, ":", false)) == Encoded(Done, w)
  {
    DelimOfHex(w, |w|);
  }

  /** A MAC with the wrong number of components is a syntax error, and the
      components read before the failing one are already written. */
  lemma MacWrongCount(w0: seq<Byte>, u: seq<Byte>)
    requires |w0| >= 1 && |u| >= 1 && |u| != |w0|
    ensures var j := (if |w0| < |u| then |w0| else |u|) - 1;
      UpdateMac(w0, HexJoin(u, ":")) == Encoded(Rejected(SyntaxError), u[..j] + w0[j..])
  {
    var j := (if |w0| < |u| then |w0| else |u|) - 1;
    var e := DelimExpected(u, |w0|);
    assert e == (false, u[..j]);
    DelimOfHex(u, |w0|);
    MacOfComponents(w0, HexJoin(u, ":"));
    assert |e.1| == j;
  }

  /** `update_mac` in terms of the components `__update_bin_delim` reads. */
  lemma MacOfComponents(w0: seq<Byte>, value: string)
    requires |w0| >= 1
    ensures var r := DelimBytes(value, |w0|, ':');
      UpdateMac(w0, value) == Encoded(if r.0 then Done else Rejected(SyntaxError), r.1 + w0[|r.1|..])
  {
  }

  /** A component as a user may type it: one or more hex digits. */
  predicate HexComponent(c: string) {
    |c| > 0 && forall k | 0 <= k < |c| :: IsDigitIn(c[k], 16)
  }

  /** Reference reading of a list of hex components: their values one by one, up to
      the first that does not fit a byte. */
  function ComponentsRead(cs: seq<string>): (r: (bool, seq<Byte>))
    requires |cs| >= 1
    ensures |r.1| <= |cs|
    ensures forall k | 0 <= k < |r.1| :: r.1[k] as int == DigitsValue(cs[k], 16)
    ensures r.0 <==> forall k | 0 <= k < |cs| :: DigitsValue(cs[k], 16) < 256
    ensures r.0 ==> |r.1| == |cs|
    ensures !r.0 ==> DigitsValue(cs[|r.1|], 16) >= 256
    decreases |cs|
  {
    var v := DigitsValue(cs[0], 16);
    if v >= 256 then (false, [])
    else if |cs| == 1 then (true, [v as Byte])
    else
      var r := ComponentsRead(cs[1..]);
      assert forall k | 1 <= k < |cs| :: cs[1..][k - 1] == cs[k];
      (r.0, [v as Byte] + r.1)
  }

  lemma JoinCons(cs: seq<string>, d: char)
    requires |cs| > 1
    ensures Join(cs, d) == cs[0] + ([d] + Join(cs[1..], d))
  {
  }

  /** One component and the ':' after it, when `n` more components are expected. */
  lemma DelimHead(c: string, t: string, n: nat)
    requires HexComponent(c) && n >= 1
    ensures var v := DigitsValue(c, 16);
      DelimBytes(c + ([':'] + t), n + 1, ':') ==
        if v < 256 then (DelimBytes(t, n, ':').0, [v as Byte] + DelimBytes(t, n, ':').1)
        else (false, [])
  {
    StrtoiHexDigits(c, [':'] + t);
    assert ([':'] + t)[1..] == t;
  }

  lemma ComponentsReadCons(cs: seq<string>)
    requires |cs| > 1
    ensures var v := DigitsValue(cs[0], 16);
      ComponentsRead(cs) ==
        if v < 256 then (ComponentsRead(cs[1..]).0, [v as Byte] + ComponentsRead(cs[1..]).1)
        else (false, [])
  {
  }

  lemma DelimComponentsStep(cs: seq<string>)
    requires |cs| > 1 && HexComponent(cs[0])
    requires DelimBytes(Join(cs[1..], ':'), |cs[1..]|, ':') == ComponentsRead(cs[1..])
    ensures DelimBytes(Join(cs, ':'), |cs|, ':') == ComponentsRead(cs)
  {
    var t := Join(cs[1..], ':');
    var n := |cs[1..]|;
    assert |cs| == n + 1;
    JoinCons(cs, ':');
    DelimHead(cs[0], t, n);
    ComponentsReadCons(cs);
  }

  lemma DelimOfOneComponent(c: string)
    requires HexComponent(c)
    ensures DelimBytes(Join([c], ':'), 1, ':') == ComponentsRead([c])
  {
    StrtoiHexDigits(c, []);
    assert c + [] == c;
  }

  /** `__update_bin_delim` reads as many components as it expects exactly as the
      reference reading does. */
  lemma {:induction false} DelimOfComponents(cs: seq<string>)
    requires |cs| >= 1 && forall c | c in cs :: HexComponent(c)
    ensures DelimBytes(Join(cs, ':'), |cs|, ':') == ComponentsRead(cs)
    decreases |cs|
  {
    if |cs| == 1 {
      assert cs == [cs[0]];
      DelimOfOneComponent(cs[0]);
    } else {
      assert cs[0] in cs;
      DelimOfComponents(cs[1..]);
      DelimComponentsStep(cs);
    }
  }

  /** `update_mac` on six (or however many the field holds) hex components of any
      length: the components' values are stored when every one fits a byte;
      otherwise a syntax error, with the components before the first one that does
      not fit already written and the rest of the window untouched. */
  lemma MacOfHexComponents(w0: seq<Byte>, cs: seq<string>)
    requires |cs| == |w0| >= 1 && forall c | c in cs :: HexComponent(c)
    ensures var r := UpdateMac(w0, Join(cs, ':'));
      (r.outcome == Done <==> forall k | 0 <= k < |cs| :: DigitsValue(cs[k], 16) < 256)
      && (r.outcome == Done ==> forall k | 0 <= k < |w0| :: r.window[k] as int == DigitsValue(cs[k], 16))
      && (r.outcome.Rejected? ==> exists j | 0 <= j < |cs| ::
            DigitsValue(cs[j], 16) >= 256
            && (forall k | 0 <= k < j :: r.window[k] as int == DigitsValue(cs[k], 16))
            && r.window[j..] == w0[j..])
  {
    DelimOfComponents(cs);
    MacOfComponents(w0, Join(cs, ':'));
    var c := ComponentsRead(cs);
    var r := UpdateMac(w0, Join(cs, ':'));
    if !c.0 {
      var j := |c.1|;
      assert r.window == c.1 + w0[j..];
      assert r.window[j..] == w0[j..];
    }
  }

  lemma OneDigitValue(c: char)
    ensures DigitsValue([c], 16) == DigitValue(c)
  {
    DigitsValueSnoc([], c, 16);
    assert [] + [c] == [c];
  }

  /** Components of a single hex digit, as in "1:2:3:4:5:6", are stored as their
      values: a component need not have two digits. */
  lemma MacSingleDigits(w0: seq<Byte>, ds: string)
    requires |ds| == |w0| >= 1 && forall k | 0 <= k < |ds| :: IsDigitIn(ds[k], 16)
    ensures var cs := seq(|ds|, k requires 0 <= k < |ds| => [ds[k]]);
      UpdateMac(w0, Join(cs, ':')) == Encoded(Done, seq(|ds|, k requires 0 <= k < |ds| => DigitValue(ds[k]) as Byte))
  {
    var cs := seq(|ds|, k requires 0 <= k < |ds| => [ds[k]]);
    forall k | 0 <= k < |ds| ensures DigitsValue(cs[k], 16) == DigitValue(ds[k]) {
      OneDigitValue(ds[k]);
    }
    assert forall c | c in cs :: HexComponent(c);
    MacOfHexComponents(w0, cs);
  }

  /** A first component above 0xff, as in "100:2:3:4:5:6", is a syntax error that
      leaves the window as it was. */
  lemma MacComponentTooBig(w0: seq<Byte>, cs: seq<string>)
    requires |cs| == |w0| >= 1 && forall c | c in cs :: HexComponent(c)
    requires DigitsValue(cs[0], 16) >= 256
    ensures UpdateMac(w0, Join(cs, ':')) == Encoded(Rejected(SyntaxError), w0)
  {
    MacOfHexComponents(w0, cs);
    var r := UpdateMac(w0, Join(cs, ':'));
    assert r.window == w0[0..];
  }

  /** Text after the last expected component makes the whole MAC a syntax error. */
  lemma {:induction false} DelimTrailing(cs: seq<string>, rest: string)
    requires |cs| >= 1 && forall c | c in cs :: HexComponent(c)
    requires rest != [] && !IsDigitIn(rest[0], 16) && rest[0] != 'x' && rest[0] != 'X'
    ensures !DelimBytes(Join(cs, ':') + rest, |cs|, ':').0
    decreases |cs|
  {
    if |cs| == 1 {
      assert cs == [cs[0]];
      DelimTrailingOne(cs[0], rest);
    } else {
      assert cs[0] in cs;
      DelimTrailing(cs[1..], rest);
      DelimTrailingStep(cs, rest);
    }
  }

  lemma DelimTrailingOne(c: string, rest: string)
    requires HexComponent(c)
    requires rest != [] && !IsDigitIn(rest[0], 16) && rest[0] != 'x' && rest[0] != 'X'
    ensures !DelimBytes(Join([c], ':') + rest, 1, ':').0
  {
    assert Join([c], ':') == c;
    StrtoiHexDigits(c, rest);
  }

  lemma DelimTrailingStep(cs: seq<string>, rest: string)
    requires |cs| > 1 && HexComponent(cs[0])
    requires !DelimBytes(Join(cs[1..], ':') + rest, |cs[1..]|, ':').0
    ensures !DelimBytes(Join(cs, ':') + rest, |cs|, ':').0
  {
    var t := Join(cs[1..], ':') + rest;
    var n := |cs[1..]|;
    assert |cs| == n + 1;
    assert Join(cs, ':') + rest == cs[0] + ([':'] + t) by {
      JoinCons(cs, ':');
    }
    DelimHead(cs[0], t, n);
  }

  lemma MacTrailingText(w0: seq<Byte>, cs: seq<string>, rest: string)
    requires |cs| == |w0| >= 1 && forall c | c in cs :: HexComponent(c)
    requires rest != [] && !IsDigitIn(rest[0], 16) && rest[0] != 'x' && rest[0] != 'X'
    ensures UpdateMac(w0, Join(cs, ':') + rest).outcome == Rejected(SyntaxError)
  {
    DelimTrailing(cs, rest);
  }

  /* ---------------- version ---------------- */

  lemma MajorPart(major: nat, sep: char, ds: string)
    requires !IsDigitIn(sep, 10)
    ensures StrToI(Dec(major) + [sep] + ds) == Continues(major, [sep] + ds)
  {
    assert Dec(major) + [sep] + ds == Dec(major) + ([sep] + ds);
    DecValue(major);
    StrToIDigits(Dec(major), [sep] + ds);
  }

  lemma WholeNumber(ds: string)
    requires |ds| > 0 && forall k | 0 <= k < |ds| :: '0' <= ds[k] <= '9'
    ensures StrToI(ds) == Ended(DigitsValue(ds, 10))
  {
    StrToIDigits(ds, []);
    assert ds + [] == ds;
  }

  /** The two numbers of a version text, split by any one non-digit character. */
  lemma VersionSplit(major: nat, sep: char, ds: string)
    requires !IsDigitIn(sep, 10)
    requires |ds| > 0 && forall k | 0 <= k < |ds| :: '0' <= ds[k] <= '9'
    ensures var p := StrToI(Dec(major) + [sep] + ds);
      p == Continues(major, [sep] + ds) && StrToI(p.rest[1..]) == Ended(DigitsValue(ds, 10))
  {
    MajorPart(major, sep, ds);
    assert ([sep] + ds)[1..] == ds;
    WholeNumber(ds);
  }

  /** `update_bin_ver` on "major", any one non-digit, "minor": the minor part must
      be at most 99 and the packed number below 65536; then major * 100 + minor is
      stored little-endian in the first two bytes. */
  lemma VersionOutcome(w: seq<Byte>, major: nat, sep: char, ds: string)
    requires |w| >= 2 && !IsDigitIn(sep, 10)
    requires |ds| > 0 && forall k | 0 <= k < |ds| :: '0' <= ds[k] <= '9'
    ensures var minor := DigitsValue(ds, 10);
      var r := UpdateVersion(w, Dec(major) + [sep] + ds);
      r.outcome == (if minor > 99 then Rejected(MinorTooLong)
                    else if major * 100 + minor >= 65536 then Rejected(VersionTooBig)
                    else Done)
      && (r.outcome == Done ==> VersionValue(r.window) == major * 100 + minor && r.window[2..] == w[2..])
  {
    VersionParsed(major, sep, ds);
  }

  lemma VersionParsed(major: nat, sep: char, ds: string)
    requires !IsDigitIn(sep, 10)
    requires |ds| > 0 && forall k | 0 <= k < |ds| :: '0' <= ds[k] <= '9'
    ensures ParseVersion(Dec(major) + [sep] + ds) == VersionParts(major, DigitsValue(ds, 10))
  {
    VersionSplit(major, sep, ds);
  }

  /** Two windows with the same version number and the same tail are the same. */
  lemma SameVersionWindow(a: seq<Byte>, b: seq<Byte>)
    requires |a| == |b| >= 2 && a[2..] == b[2..]
    requires VersionValue(a) == VersionValue(b)
    ensures a == b
  {
    assert a[0] == b[0] && a[1] == b[1];
    assert a == a[..2] + a[2..] && b == b[..2] + b[2..];
    assert a[..2] == [a[0], a[1]] && b[..2] == [b[0], b[1]];
  }

  /** `update_bin_ver` takes back what `print_bin_ver` shows. */
  lemma VersionRoundTrip(w0: seq<Byte>, w: seq<Byte>)
    requires |w0| >= 2 && |w| >= 2
    ensures var v := PrintVersion(w);
      UpdateVersion(w0, FormatVersion(v)) == Encoded(Done, v.window[..2] + w0[2..])
  {
    var v := PrintVersion(w);
    Pad2Value(v.minor);
    VersionParsed(v.major, '.', Pad2(v.minor));
    assert FormatVersion(v) == Dec(v.major) + ['.'] + Pad2(v.minor);
    var r := StoreVersion(w0, v.major, v.minor);
    var e := v.window[..2] + w0[2..];
    assert VersionValue(e) == VersionValue(v.window);
    assert e[2..] == w0[2..];
    SameVersionWindow(r.window, e);
  }

  /** A minus sign in front of the major number is refused. */
  lemma NegativeMajorPart(n: nat, minor: nat)
    requires n > 0
    ensures StrToI("-" + Dec(n) + "." + Dec(minor)) == Continues(-(n as int), "." + Dec(minor))
  {
    assert "-" + Dec(n) + "." + Dec(minor) == "-" + Dec(n) + ("." + Dec(minor));
    StrToINegDec(n, "." + Dec(minor));
  }

  lemma VersionNegative(w: seq<Byte>, n: nat, minor: nat)
    requires |w| >= 2 && n > 0
    ensures UpdateVersion(w, "-" + Dec(n) + "." + Dec(minor)) == Encoded(Rejected(NotPositive), w)
  {
    NegativeParsed(n, minor);
  }

  lemma NegativeParsed(n: nat, minor: nat)
    requires n > 0
    ensures ParseVersion("-" + Dec(n) + "." + Dec(minor)) == VersionParts(-(n as int), minor)
  {
    NegativeMajorPart(n, minor);
    MinorAfterSeparator(minor);
    VersionOfParts("-" + Dec(n) + "." + Dec(minor), -(n as int), "." + Dec(minor), minor);
  }

  lemma MinorAfterSeparator(minor: nat)
    ensures StrToI(("." + Dec(minor))[1..]) == Ended(minor)
  {
    assert ("." + Dec(minor))[1..] == Dec(minor);
    DecValue(minor);
    WholeNumber(Dec(minor));
  }

  /** `update_bin_ver` reads a major number, one character and a minor number. */
  lemma VersionOfParts(value: string, major: int, rest: string, minor: int)
    requires StrToI(value) == Continues(major, rest)
    requires StrToI(rest[1..]) == Ended(minor)
    ensures ParseVersion(value) == VersionParts(major, minor)
  {
  }

  /** A number with nothing after it has no separator and is a syntax error. */
  lemma VersionWithoutSeparator(w: seq<Byte>, n: nat)
    requires |w| >= 2
    ensures UpdateVersion(w, Dec(n)) == Encoded(Rejected(SyntaxError), w)
  {
    StrToIDigits(Dec(n), []);
    assert Dec(n) + [] == Dec(n);
  }

  /** Any character separates the two numbers: "1x05" is version 1.05. */
  lemma VersionAnySeparator(w: seq<Byte>)
    requires |w| >= 2
    ensures UpdateVersion(w, "1x05").outcome == Done
    ensures VersionValue(UpdateVersion(w, "1x05").window) == 105
  {
    assert "1x05" == Dec(1) + ['x'] + "05";
    assert DigitsValue("05", 10) == 5 by {
      assert "05"[..1] == "0";
      assert "0"[..0] == [];
    }
    VersionOutcome(w, 1, 'x', "05");
  }

  /** Without a major number the C goes on with an unset variable when the text
      is '.' and a whole number; the model refuses it. */
  lemma VersionWithoutMajor(w: seq<Byte>)
    requires |w| >= 2
    ensures UpdateVersion(w, ".5") == Encoded(Rejected(UninitializedMajor), w)
  {
    assert DigitRun(".5", 0, 10) == 0;
    assert SkipSpace(".5", 0) == 0;
    assert ".5"[1..] == "5";
    assert DigitRun("5", 0, 10) == 1;
  }

  /** Text starting with '.' reads no major number; unless the rest is a whole
      number, the second `strtoi` reports a syntax error. */
  lemma VersionDotWithoutMinor(w: seq<Byte>, value: string)
    requires |w| >= 2
    requires value != [] && value[0] == '.' && !StrToI(value[1..]).Ended?
    ensures UpdateVersion(w, value) == Encoded(Rejected(SyntaxError), w)
  {
    assert SkipSpace(value, 0) == 0;
    assert DigitRun(value, 0, 10) == 0;
  }

  /* ---------------- date ---------------- */

  /** The month table holds twelve different abbreviations of three letters. */
  lemma MonthsDistinct(i: nat, j: nat)
    requires i < 12 && j < 12 && Months[i] == Months[j]
    ensures i == j
  {
    assert Months[i][0] == Months[j][0] && Months[i][1] == Months[j][1] && Months[i][2] == Months[j][2];
  }

  /** The search of `update_date` finds each abbreviation at its own place. */
  lemma MonthIndexOf(m: nat)
    requires m < 12
    ensures MonthIndex(Months[m]) == Some(m)
  {
    assert Months[m] in Months;
    var r := MonthIndex(Months[m]);
    MonthsDistinct(r.value, m);
  }

  /** The day part of a date text: `%02d` of a positive day and the '/' after it. */
  lemma DayPart(d: nat, rest: string)
    requires rest != [] && rest[0] == '/'
    ensures StrToI(Pad2(d) + rest) == Continues(d, rest)
  {
    Pad2Value(d);
    StrToIDigits(Pad2(d), rest);
  }

  /** The text after the day in the form `print_date` shows it. */
  lemma DateTail(m: nat, y: nat)
    requires m < 12
    ensures var date := Months[m] + "/" + Dec(y);
      |date| >= 4 && date[3] == '/' && date[..3] == Months[m] && date[4..] == Dec(y)
  {
    assert |Months[m]| == 3;
  }

  /** `update_date` splits the text `print_date` shows back into its parts. */
  lemma ParseShownDate(d: nat, m: nat, y: nat)
    requires d >= 1 && m < 12
    ensures ParseDate(FormatDate(DateShown(d, Months[m], y))) == DateParts(d, m, y)
  {
    var rest := "/" + (Months[m] + "/" + Dec(y));
    assert FormatDate(DateShown(d, Months[m], y)) == Pad2(d) + rest;
    DayPart(d, rest);
    assert rest[1..] == Months[m] + "/" + Dec(y);
    DateTail(m, y);
    MonthIndexOf(m);
    DecValue(y);
    WholeNumber(Dec(y));
  }

  /** The checks after the split, for a day that fits a byte, whichever store runs:
      only a calendar date with a sixteen-bit year is stored; an invalid date is
      reported before an overflowing year. */
  lemma StoreDateOutcome(w: seq<Byte>, d: nat, m: nat, y: nat, dayRangeChecked: bool)
    requires |w| >= 4 && 1 <= d < 256 && m < 12
    ensures var r := StoreDate(w, d, m, y, dayRangeChecked);
      (r.outcome == Done <==> d <= DaysIn(m, y) && y < 65536)
      && (r.outcome == Done ==> r.window[0] as int == d && r.window[1] as int == m + 1 && DateYear(r.window) == y)
      && (r.outcome.Rejected? ==>
            r.outcome.why == (if d <= DaysIn(m, y % 0x1_0000_0000) then YearOverflow else InvalidDate))
  {
    ValidateDateMeansDaysIn(d, m, y % 0x1_0000_0000);
    assert d % 256 == d;
  }

  /** `update_date` as written and the corrected encoder agree on every text whose
      day, if it has one, fits a byte. */
  lemma DateAgrees(w: seq<Byte>, value: string)
    requires |w| >= 4
    requires ParseDate(value).DateParts? ==> 0 < ParseDate(value).day < 256
    ensures UpdateDate(w, value) == UpdateDateChecked(w, value)
  {
  }

  /** For a day that fits a byte, `update_date` accepts exactly the calendar dates
      whose year fits sixteen bits, and stores day, 1-based month and year. */
  lemma DateOutcome(w: seq<Byte>, d: nat, m: nat, y: nat)
    requires |w| >= 4 && 1 <= d < 256 && m < 12
    ensures var r := UpdateDate(w, FormatDate(DateShown(d, Months[m], y)));
      (r.outcome == Done <==> d <= DaysIn(m, y) && y < 65536)
      && (r.outcome == Done ==> r.window[0] as int == d && r.window[1] as int == m + 1 && DateYear(r.window) == y)
      && (r.outcome.Rejected? ==>
            r.outcome.why == (if d <= DaysIn(m, y % 0x1_0000_0000) then YearOverflow else InvalidDate))
  {
    ParseShownDate(d, m, y);
    StoreDateOutcome(w, d, m, y, false);
  }

  /** 29 February is accepted exactly in the leap years that fit sixteen bits. */
  lemma LeapDay(w: seq<Byte>, y: nat)
    requires |w| >= 4
    ensures UpdateDate(w, FormatDate(DateShown(29, Months[1], y))).outcome == Done
      <==> IsLeapYear(y) && y < 65536
  {
    DateOutcome(w, 29, 1, y);
  }

  /** A day of 0, which `print_date` shows for a zeroed field, is refused. */
  lemma DateDayZero(w: seq<Byte>, m: nat, y: nat)
    requires |w| >= 4 && m < 12
    ensures UpdateDate(w, FormatDate(DateShown(0, Months[m], y))) == Encoded(Rejected(InvalidDay), w)
  {
    var rest := "/" + (Months[m] + "/" + Dec(y));
    assert FormatDate(DateShown(0, Months[m], y)) == Pad2(0) + rest;
    DayPart(0, rest);
  }

  /** Two windows with the same date bytes and the same tail are the same. */
  lemma SameDateWindow(a: seq<Byte>, b: seq<Byte>)
    requires |a| == |b| >= 4 && a[4..] == b[4..]
    requires a[0] == b[0] && a[1] == b[1] && DateYear(a) == DateYear(b)
    ensures a == b
  {
    assert a[2] == b[2] && a[3] == b[3];
    assert a == a[..4] + a[4..] && b == b[..4] + b[4..];
    assert a[..4] == [a[0], a[1], a[2], a[3]] && b[..4] == [b[0], b[1], b[2], b[3]];
  }

  /** `update_date` takes back what `print_date` shows for any window holding a
      calendar date, and so does the corrected encoder. */
  lemma DateRoundTrip(w0: seq<Byte>, w: seq<Byte>)
    requires |w0| >= 4 && |w| >= 4
    requires 1 <= w[1] <= 12 && 1 <= w[0] as int <= DaysIn(w[1] as int - 1, DateYear(w))
    ensures UpdateDate(w0, FormatDate(PrintDate(w))) == Encoded(Done, w[..4] + w0[4..])
    ensures UpdateDateChecked(w0, FormatDate(PrintDate(w))) == Encoded(Done, w[..4] + w0[4..])
  {
    var m := w[1] as int - 1;
    var text := FormatDate(PrintDate(w));
    assert PrintDate(w) == DateShown(w[0] as int, Months[m], DateYear(w));
    DateOutcome(w0, w[0] as int, m, DateYear(w));
    var r := UpdateDate(w0, text);
    var e := w[..4] + w0[4..];
    assert e[0] == w[0] && e[1] == w[1] && e[2] == w[2] && e[3] == w[3];
    SameDateWindow(r.window, e);
    ParseShownDate(w[0] as int, m, DateYear(w));
    DateAgrees(w0, text);
  }

  /** As written, `update_date` narrows the day to a byte before checking it:
      day 256 of January 2000 is stored as day 0. */
  lemma DateDayTruncated(w: seq<Byte>)
    requires |w| >= 4
    ensures var r := UpdateDate(w, FormatDate(DateShown(256, "Jan", 2000)));
      r.outcome == Done && r.window[0] == 0 && r.window[1] == 1 && DateYear(r.window) == 2000
  {
    ParseShownDate(256, 0, 2000);
    ValidateDateMeansDaysIn(0, 0, 2000);
  }

  /** With the day checked first, the same text is refused. */
  lemma DateDayChecked(w: seq<Byte>)
    requires |w| >= 4
    ensures UpdateDateChecked(w, FormatDate(DateShown(256, "Jan", 2000))) == Encoded(Rejected(InvalidDate), w)
  {
    ParseShownDate(256, 0, 2000);
  }

  /* ---------------- ASCII ---------------- */

  /** Characters that `update_ascii` stores as themselves and `print_ascii` prints
      back: no NUL, nothing wider than a byte. */
  predicate ByteText(s: string) {
    forall k | 0 <= k < |s| :: 0 < s[k] as int < 256
  }

  /** Printing stops at the first NUL: the text of a NUL-free prefix is read back. */
  lemma UntilNulOfText(s: string, t: seq<Byte>)
    requires ByteText(s) && |s| < |t|
    requires t[..|s|] == TextBytes(s) && t[|s|] == 0
    ensures UntilNul(t) == s
  {
    var r := UntilNul(t);
    assert |r| == |s|;
    forall k | 0 <= k < |s| ensures r[k] == s[k] {
      assert t[k] == t[..|s|][k];
    }
  }

  /** A window whose last four-byte block ends in 0 is blank only when it is all 0. */
  lemma NotBlank(w: seq<Byte>)
    requires |w| >= 8 && |w| % 4 == 0 && w[|w| - 1] == 0 && w[0] != 0
    ensures !Blank(w)
  {
    var last := |w| / 4 - 1;
    assert Block(w, 0)[0] == w[0];
    assert Block(w, last)[3] == w[|w| - 1];
  }

  /** `print_ascii` shows again the text `update_ascii` stored, in a window of at
      least two blocks (the layouts' ASCII fields are 16 and 64 bytes). */
  lemma AsciiRoundTrip(w0: seq<Byte>, s: string)
    requires |w0| >= 8 && |w0| % 4 == 0
    requires |s| < |w0| && ByteText(s)
    ensures UpdateAscii(w0, s).outcome == Done
    ensures PrintAscii(UpdateAscii(w0, s).window) == s
  {
    var w := UpdateAscii(w0, s).window;
    if s == [] {
      assert Block(w, 0) == Zeros(4);
      forall i | 1 <= i < |w| / 4 ensures Block(w, i) == Block(w, 0) {
      }
    } else {
      assert w[0] == CharByte(s[0]) by { assert w[..|s|][0] == w[0]; }
      NotBlank(w);
      UntilNulOfText(s, w);
    }
  }

  /** A cleared field and a zeroed field print as nothing, and so does any window of
      a single block: a four-byte text field cannot be read back. */
  lemma AsciiBlankWindows(n: nat, w: seq<Byte>)
    ensures PrintAscii(Fill(n, 0xff)) == []
    ensures PrintAscii(Zeros(n)) == []
    ensures |w| < 8 ==> PrintAscii(w) == []
  {
    if n / 4 > 1 {
      assert Block(Fill(n, 0xff), 0) == Fill(4, 0xff);
      assert Block(Zeros(n), 0) == Zeros(4);
      forall i | 1 <= i < n / 4 ensures Block(Fill(n, 0xff), i) == Block(Fill(n, 0xff), 0) && Block(Zeros(n), i) == Block(Zeros(n), 0) {
      }
    }
  }
}
