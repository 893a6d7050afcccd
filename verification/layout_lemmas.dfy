/**
 Properties of the bound layouts: the windows of the fields tile the data without
 overlap, the check byte sits where each table says it does, and byte writes to
 different offsets do not interfere.
 */
module LayoutLemmas {
  import opened CText
  import opened Layout

  /** A later field starts no earlier than where an earlier one ends. */
  lemma WindowsDisjoint(fs: seq<FieldSpec>, i: nat, j: nat)
    requires i < j < |fs|
    ensures FieldOffset(fs, i) + fs[i].size <= FieldOffset(fs, j)
  {
    PrefixSize(fs, i);
    OffsetsGrow(fs, i + 1, j);
  }

  /** The field whose window holds byte `k`: every byte below the table's total
      size belongs to exactly one field. */
  function FieldAt(fs: seq<FieldSpec>, k: nat, from: nat): (i: nat)
    requires from < |fs| && FieldOffset(fs, from) <= k < TotalSize(fs)
    ensures from <= i < |fs| && FieldOffset(fs, i) <= k < FieldOffset(fs, i) + fs[i].size
    decreases |fs| - from
  {
    PrefixSize(fs, from);
    if k < FieldOffset(fs, from) + fs[from].size then from
    else FieldAt(fs, k, from + 1)
  }

  /** No byte is in two windows. */
  lemma FieldAtUnique(fs: seq<FieldSpec>, k: nat, i: nat, j: nat)
    requires i < |fs| && j < |fs|
    requires FieldOffset(fs, i) <= k < FieldOffset(fs, i) + fs[i].size
    requires FieldOffset(fs, j) <= k < FieldOffset(fs, j) + fs[j].size
    ensures i == j
  {
    if i < j {
      WindowsDisjoint(fs, i, j);
    } else if j < i {
      WindowsDisjoint(fs, j, i);
    }
  }

  /** Every byte of a bound layout's first 256 lies in the window of one field. */
  lemma WindowsCover(l: Layout, k: nat)
    requires Bound(l) && k < TotalSize(l.fields)
    ensures exists i | 0 <= i < |l.fields| :: l.offsets[i] <= k < l.offsets[i] + l.fields[i].size
  {
    assert l.fields[..0] == [];
    var i := FieldAt(l.fields, k, 0);
    assert l.offsets[i] <= k < l.offsets[i] + l.fields[i].size;
  }

  /** In v2 the check byte is the one-byte "Layout Version" field. */
  lemma V2CheckByte()
    ensures FieldOffset(V2Fields(), 8) == CheckByte
    ensures V2Fields()[8].name == Some("Layout Version") && V2Fields()[8].size == 1
  {
    var fs := V2Fields();
    var h := CommonHead();
    assert fs[..8] == h + fs[6..8];
    TotalSizeAppend(h, fs[6..8]);
    HeadSize();
    var m := fs[6..8];
    PrefixSize(m, 0);
    PrefixSize(m, 1);
    assert m[..0] == [] && m[..2] == m;
  }

  /** In v1 the check byte lies in the 96 reserved bytes after the head. */
  lemma V1CheckByte()
    ensures FieldOffset(V1Fields(), 6) <= CheckByte < FieldOffset(V1Fields(), 6) + V1Fields()[6].size
    ensures V1Fields()[6].name == None
  {
    var fs := V1Fields();
    assert fs[..6] == CommonHead();
    HeadSize();
  }

  /** In the legacy layout the check byte lies in the Board Configuration text. */
  lemma LegacyCheckByte()
    ensures FieldOffset(LegacyFields(), 3) <= CheckByte < FieldOffset(LegacyFields(), 3) + LegacyFields()[3].size
    ensures LegacyFields()[3].name == Some("Board Configuration")
  {
    var fs := LegacyFields();
    SizesOf4(fs[..4]);
    PrefixSize(fs, 3);
    assert fs[..4][..3] == fs[..3];
  }

  /** Writes to two different offsets can be done in either order. */
  lemma ByteWritesCommute(l: Layout, a: nat, x: Byte, b: nat, y: Byte)
    requires a < 0x1_0000_0000 && b < 0x1_0000_0000 && a != b
    ensures UpdateByte(UpdateByte(l, a, x).1, b, y).1 == UpdateByte(UpdateByte(l, b, y).1, a, x).1
  {
    var p := UpdateByte(UpdateByte(l, a, x).1, b, y).1;
    var q := UpdateByte(UpdateByte(l, b, y).1, a, x).1;
    assert p.data == q.data;
  }

  /** A write followed by a write to the same offset is the second write alone. */
  lemma ByteWriteOverwrites(l: Layout, a: nat, x: Byte, y: Byte)
    requires a < 0x1_0000_0000
    ensures UpdateByte(UpdateByte(l, a, x).1, a, y) == UpdateByte(l, a, y)
  {
    if a < |l.data| {
      assert UpdateByte(UpdateByte(l, a, x).1, a, y).1.data == UpdateByte(l, a, y).1.data;
    }
  }

  /** `update_field` succeeds whenever both arguments are given and some field has
      the name, whatever the field's own update routine reports. */
  lemma UpdateIgnoresRoutineStatus(l: Layout, name: string, value: string, apply: UpdateRoutine)
    requires Bound(l) && KeepsSize(apply)
    ensures UpdateField(l, Some(name), Some(value), apply).0 == Success <==>
      exists k | 0 <= k < |l.fields| :: l.fields[k].name == Some(name)
  {
  }
}
