/**
 The command-line validators of parser.c: the layout-version argument, the byte
 offset keys of a byte write, and the splitting of "key<delimiter>value" changes.

 parser.c is written against a later `enum layout_version` than the layout.h of
 layout.c: it uses LAYOUT_AUTODETECT and RAW_DATA, which that header lacks. The
 values below are the ones the later enum gives, with LAYOUT_AUTODETECT first at -1.
 */
module Parser {
  import opened CText

  const LayoutAutodetect: int := -1
  const LayoutLegacy: int := 0
  const LayoutVer1: int := 1
  const LayoutVer4: int := 4
  const LayoutUnrecognized: int := 5
  const RawData: int := 6

  /** `!strncmp(s, p, strlen(p))`: `s` starts with `p`. */
  predicate StartsWith(s: string, p: string) {
    |p| <= |s| && s[..|p|] == p
  }

  /** The digits `strtol(s, &end, base)` stores into an `int`, and whether `end`
      reached the terminator. */
  function IntConversion(s: string, base: nat): (r: (Conversion, int))
    requires base == 0 || 2 <= base <= 36
    ensures r.0 == Strtol(s, base)
    ensures -0x8000_0000 <= r.1 < 0x8000_0000
    ensures -0x8000_0000 <= r.0.value < 0x8000_0000 ==> r.1 == r.0.value
  {
    var c := Strtol(s, base);
    (c, ToInt32(ClampLong(c.value)))
  }

  /** `parse_layout_version`: the names "legacy", "raw" and "auto" as prefixes, in
      that order; otherwise an optional 'v' and a decimal number that must fill the
      rest of the string and lie in [LAYOUT_AUTODETECT, LAYOUT_UNRECOGNIZED). */
  function ParseLayoutVersion(s: string): (r: int)
    ensures LayoutAutodetect <= r <= RawData
    ensures StartsWith(s, "legacy") ==> r == LayoutLegacy
    ensures r == RawData <==> !StartsWith(s, "legacy") && StartsWith(s, "raw")
    ensures !StartsWith(s, "legacy") && !StartsWith(s, "raw") && StartsWith(s, "auto") ==> r == LayoutAutodetect
    ensures r != LayoutUnrecognized && !StartsWith(s, "legacy") && !StartsWith(s, "raw") && !StartsWith(s, "auto") ==>
      var t := if StartsWith(s, "v") then s[1..] else s;
      Strtol(t, 10).converted && Strtol(t, 10).end == |t| && IntConversion(t, 10).1 == r
  {
    if StartsWith(s, "legacy") then LayoutLegacy
    else if StartsWith(s, "raw") then RawData
    else if StartsWith(s, "auto") then LayoutAutodetect
    else
      var t := if StartsWith(s, "v") then s[1..] else s;
      var (c, layout) := IntConversion(t, 10);
      if c.end != |t| || !c.converted || layout < LayoutAutodetect || layout >= LayoutUnrecognized then
        LayoutUnrecognized
      else
        layout
  }

  /** `valid_key`: a non-negative offset, or two offsets joined by any one
      character, the first non-negative and strictly smaller than the second. */
  function ValidKey(key: string): (r: bool)
    ensures r ==> Strtol(key, 0).converted && IntConversion(key, 0).1 >= 0
    ensures Strtol(key, 0).converted && Strtol(key, 0).end == |key| ==>
      (r <==> IntConversion(key, 0).1 >= 0)
  {
    var (c1, first) := IntConversion(key, 0);
    if !c1.converted then false
    else if c1.end < |key| then
      var second := IntConversion(key[c1.end + 1..], 0).1;
      if first >= second then false else first >= 0 && second >= 0
    else
      first >= 0
  }

  /** One change as the loop of `parse_new_data` reads it: refused when it starts
      with the delimiter, when (for bytes) its key is not a valid offset, or when it
      has no value; otherwise the first two tokens. */
  function ParseChange(change: string, delim: char, isBytes: bool): (r: Option<(string, string)>)
    ensures r.Some? ==> (|Tokens(change, delim)| >= 2
      && r.value == (Tokens(change, delim)[0], Tokens(change, delim)[1]))
    ensures r.Some? ==> change != [] && change[0] != delim
    ensures r.Some? && isBytes ==> ValidKey(r.value.0)
  {
    if StartsWith(change, [delim]) then None
    else
      var ts := Tokens(change, delim);
      if |ts| == 0 then None
      else if isBytes && !ValidKey(ts[0]) then None
      else if |ts| < 2 then None
      else Some((ts[0], ts[1]))
  }

  /** `parse_new_data`: all changes or nothing. */
  method ParseNewData(changes: seq<string>, delim: char, isBytes: bool) returns (r: Option<seq<(string, string)>>)
    ensures r.Some? <==> forall i | 0 <= i < |changes| :: ParseChange(changes[i], delim, isBytes).Some?
    ensures r.Some? ==> (|r.value| == |changes|
      && forall i | 0 <= i < |changes| :: r.value[i] == ParseChange(changes[i], delim, isBytes).value)
  {
    var pairs: seq<(string, string)> := [];
    var i := 0;
    while i < |changes|
      invariant i <= |changes| && |pairs| == i
      invariant forall k | 0 <= k < i ::
        ParseChange(changes[k], delim, isBytes).Some? && pairs[k] == ParseChange(changes[k], delim, isBytes).value
    {
      var p := ParseChange(changes[i], delim, isBytes);
      if p.None? {
        return None;
      }
      pairs := pairs + [p.value];
      i := i + 1;
    }
    return Some(pairs);
  }
}
