/**
 The two batch updates of eeprom_utility.c: `update_bytes` applies a list of
 (offset, value) pairs given as one comma-separated string, `update_fields` applies
 a list of "name=value" entries. Neither stops at a bad item; each reports it and
 goes on with the next.
 */
module Utility {
  import opened CText
  import Field
  import opened Layout
  import opened CTextLemmas

  /* ---------------- update_bytes ---------------- */

  /** One (offset, value) pair as `update_bytes` reads it: each token through
      `strtol(tok, 0, 0)` into an `int`. */
  datatype ByteWrite = ByteWrite(offset: int, value: int)

  /** The pairs formed by consecutive tokens; a last token without a partner is dropped. */
  function TokenPairs(toks: seq<string>): (ps: seq<(string, string)>)
    ensures |ps| == |toks| / 2
    decreases |toks|
  {
    if |toks| < 2 then [] else [(toks[0], toks[1])] + TokenPairs(toks[2..])
  }

  /** Pair `j` is made of tokens 2j and 2j+1. */
  lemma {:induction false} TokenPairsAt(toks: seq<string>, j: nat)
    requires j < |toks| / 2
    ensures TokenPairs(toks)[j] == (toks[2 * j], toks[2 * j + 1])
    decreases j
  {
    if j > 0 {
      TokenPairsAt(toks[2..], j - 1);
      assert toks[2..][2 * (j - 1)] == toks[2 * j] && toks[2..][2 * (j - 1) + 1] == toks[2 * j + 1];
    }
  }

  /** Both tokens of a pair through `strtol(tok, 0, 0)` into an `int`. */
  function Pairs(toks: seq<string>): (ps: seq<ByteWrite>)
    ensures |ps| == |toks| / 2
  {
    var tp := TokenPairs(toks);
    seq(|tp|, j requires 0 <= j < |tp| => ByteWrite(StrtolInt(tp[j].0, 0), StrtolInt(tp[j].1, 0)))
  }

  /** A token that does not start with a number is read as 0. */
  lemma NonNumericIsZero(t: string)
    requires t != [] && !IsSpace(t[0]) && t[0] != '-' && t[0] != '+' && !IsDigitIn(t[0], 10)
    ensures StrtolInt(t, 0) == 0
  {
    assert SkipSpace(t, 0) == 0;
    assert !HasHexPrefix(t, 0);
    assert DigitRun(t, 0, 10) == 0;
  }

  /** The `unsigned int` offset `update_byte` receives. */
  function Target(p: ByteWrite): nat {
    ToUint32(p.offset)
  }

  /** The pairs applied in order; the result is the layout and the offsets reported
      as out of bounds. */
  function ApplyWrites(l: Layout, ps: seq<ByteWrite>): (r: (Layout, seq<int>))
    ensures r.0 == l.(data := r.0.data) && |r.0.data| == |l.data|
    ensures forall o | o in r.1 :: ToUint32(o) >= |l.data|
    ensures forall j | 0 <= j < |ps| && Target(ps[j]) >= |l.data| :: ps[j].offset in r.1
    ensures |r.1| <= |ps|
    decreases |ps|
  {
    if |ps| == 0 then (l, [])
    else
      var u := UpdateByte(l, Target(ps[0]), Low8(ps[0].value));
      var rest := ApplyWrites(u.1, ps[1..]);
      assert forall j | 1 <= j < |ps| :: ps[j] == ps[1..][j - 1];
      if u.0 == OffsetOutOfBounds then (rest.0, [ps[0].offset] + rest.1) else rest
  }

  /** `update_bytes`: split on ',', pair the tokens, apply the pairs. */
  function UpdateBytes(l: Layout, text: string): (r: (Layout, seq<int>))
    ensures r.0 == l.(data := r.0.data) && |r.0.data| == |l.data|
    ensures Tokens(text, ',') == [] ==> r == (l, [])
  {
    ApplyWrites(l, Pairs(Tokens(text, ',')))
  }

  /** Tokens written out with ',' between them are read back as the same pairs. */
  lemma BytesOfJoin(l: Layout, toks: seq<string>)
    requires forall t | t in toks :: |t| > 0 && ',' !in t
    ensures UpdateBytes(l, Join(toks, ',')) == ApplyWrites(l, Pairs(toks))
  {
    TokensJoin(toks, ',');
  }

  /** The last pair that writes byte `k`, if any: the reference for what
      `update_bytes` leaves in each byte. */
  function LastWrite(ps: seq<ByteWrite>, k: nat): (r: Option<nat>)
    ensures r.Some? ==> r.value < |ps| && Target(ps[r.value]) == k
    ensures r.Some? ==> forall j | r.value < j < |ps| :: Target(ps[j]) != k
    ensures r.None? ==> forall j | 0 <= j < |ps| :: Target(ps[j]) != k
    decreases |ps|
  {
    if |ps| == 0 then None
    else if Target(ps[|ps| - 1]) == k then Some(|ps| - 1)
    else LastWrite(ps[..|ps| - 1], k)
  }

  /** Every byte holds the low eight bits of the last value written to it, or its old
      value when no pair names it; no out-of-bounds pair stops the ones after it. */
  lemma {:induction false} LastWriteWins(l: Layout, ps: seq<ByteWrite>, k: nat)
    requires k < |l.data|
    ensures ApplyWrites(l, ps).0.data[k] ==
      match LastWrite(ps, k)
      case Some(j) => Low8(ps[j].value)
      case None => l.data[k]
    decreases |ps|
  {
    if |ps| > 0 {
      var u := UpdateByte(l, Target(ps[0]), Low8(ps[0].value));
      LastWriteWins(u.1, ps[1..], k);
      LastWriteCons(ps, k);
    }
  }

  /** How the last write to `k` in `ps` relates to the one in `ps[1..]`. */
  lemma LastWriteCons(ps: seq<ByteWrite>, k: nat)
    requires |ps| > 0
    ensures LastWrite(ps, k) ==
      match LastWrite(ps[1..], k)
      case Some(j) => Some(j + 1)
      case None => if Target(ps[0]) == k then Some(0) else None
  {
    assert forall j | 1 <= j < |ps| :: ps[1..][j - 1] == ps[j];
  }

  /** A pair whose offset is past the data changes nothing but is reported. */
  lemma OutOfBoundsSkipped(l: Layout, p: ByteWrite, rest: seq<ByteWrite>)
    requires Target(p) >= |l.data|
    ensures ApplyWrites(l, [p] + rest) == (ApplyWrites(l, rest).0, [p.offset] + ApplyWrites(l, rest).1)
  {
    assert ([p] + rest)[1..] == rest;
  }

  /* ---------------- update_fields ---------------- */

  /** `strtok(entry, "=")` and `strtok(NULL, "=")`: the name and the value, NULL
      where there is no such token. */
  function SplitEntry(entry: string): (r: (Option<string>, Option<string>))
    ensures r.0.Some? <==> |Tokens(entry, '=')| >= 1
    ensures r.1.Some? <==> |Tokens(entry, '=')| >= 2
    ensures r.0.Some? ==> r.0.value == Tokens(entry, '=')[0]
    ensures r.1.Some? ==> r.1.value == Tokens(entry, '=')[1]
  {
    var ts := Tokens(entry, '=');
    (if |ts| >= 1 then Some(ts[0]) else None, if |ts| >= 2 then Some(ts[1]) else None)
  }

  /** `update_fields`: each entry through `update_field` in order; the names that
      match no field are reported. */
  function UpdateFields(l: Layout, entries: seq<string>, apply: UpdateRoutine): (r: (Layout, seq<string>))
    requires Bound(l) && KeepsSize(apply)
    ensures Bound(r.0) && r.0.fields == l.fields && r.0.offsets == l.offsets
    ensures r.0.version == l.version && |r.0.data| == |l.data|
    ensures |r.1| <= |entries|
    ensures forall n | n in r.1 :: forall k | 0 <= k < |l.fields| :: l.fields[k].name != Some(n)
    ensures forall i | 0 <= i < |entries| && Unknown(l, SplitEntry(entries[i])) :: SplitEntry(entries[i]).0.value in r.1
    decreases |entries|
  {
    if |entries| == 0 then (l, [])
    else
      var (name, value) := SplitEntry(entries[0]);
      var u := UpdateField(l, name, value, apply);
      var rest := UpdateFields(u.1, entries[1..], apply);
      if u.0 == NoSuchField then (rest.0, [name.value] + rest.1) else rest
  }

  /** An entry with a name and a value whose name matches no field of `l`. */
  predicate Unknown(l: Layout, e: (Option<string>, Option<string>)) {
    e.0.Some? && e.1.Some? && forall k | 0 <= k < |l.fields| :: l.fields[k].name != Some(e.0.value)
  }

  /** An entry without '=' and a value changes nothing and is not reported. */
  lemma MissingValueSkipped(l: Layout, name: string, rest: seq<string>, apply: UpdateRoutine)
    requires Bound(l) && KeepsSize(apply)
    requires |name| > 0 && '=' !in name
    ensures UpdateFields(l, [name] + rest, apply) == UpdateFields(l, rest, apply)
  {
    TokensSingle(name, '=');
    assert ([name] + rest)[1..] == rest;
  }

  /** An entry naming no field is reported and skipped; the entries after it are applied. */
  lemma UnknownNameSkipped(l: Layout, name: string, value: string, rest: seq<string>, apply: UpdateRoutine)
    requires Bound(l) && KeepsSize(apply)
    requires |name| > 0 && '=' !in name && |value| > 0 && '=' !in value
    requires forall k | 0 <= k < |l.fields| :: l.fields[k].name != Some(name)
    ensures UpdateFields(l, [name + "=" + value] + rest, apply) ==
      (UpdateFields(l, rest, apply).0, [name] + UpdateFields(l, rest, apply).1)
  {
    EntryTokens(name, value);
    assert ([name + "=" + value] + rest)[1..] == rest;
  }

  /** A single "name=value" entry is one `update_field` call. */
  lemma OneEntry(l: Layout, name: string, value: string, apply: UpdateRoutine)
    requires Bound(l) && KeepsSize(apply)
    requires |name| > 0 && '=' !in name && |value| > 0 && '=' !in value
    ensures UpdateFields(l, [name + "=" + value], apply).0 == UpdateField(l, Some(name), Some(value), apply).1
  {
    EntryTokens(name, value);
    assert [name + "=" + value][1..] == [];
  }

  lemma EntryTokens(name: string, value: string)
    requires |name| > 0 && '=' !in name && |value| > 0 && '=' !in value
    ensures SplitEntry(name + "=" + value) == (Some(name), Some(value))
  {
    assert name + "=" + value == name + ['='] + value;
    TokensCons(name, '=', value);
    TokensSingle(value, '=');
  }

  lemma TokensSingle(t: string, d: char)
    requires |t| > 0 && d !in t
    ensures Tokens(t, d) == [t]
  {
    TokensCons(t, d, []);
  }

}
