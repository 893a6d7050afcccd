/**
 The EEPROM layouts of layout.c: the four field tables, the detection of the
 layout from the check byte, the binding of the fields to consecutive windows of
 a private copy of the EEPROM contents, and the two update entry points.

 layout.c predates field.c's `field_ops`: its fields are built by `set_field(name,
 size, delimiter, print, update)` and carry their own print and update routines,
 `update_binary` and `update_ascii`, whose bodies are not part of this model. The
 update routine is therefore a parameter of `UpdateField`.
 */
module Layout {
  import opened CText
  import Field

  /** `enum layout_version` of layout.h. */
  datatype Version = Unrecognized | Legacy | Ver1 | Ver2
  {
    function Code(): int {
      match this
      case Unrecognized => 0
      case Legacy => 1
      case Ver1 => 2
      case Ver2 => 3
    }
  }

  /** `enum layout_res`; the update routines return these negated. */
  datatype Res = Success | NullArguments | OffsetOutOfBounds | NoSuchField
  {
    function Code(): int {
      match this
      case Success => 0
      case NullArguments => -1
      case OffsetOutOfBounds => -2
      case NoSuchField => -3
    }
  }

  /** The print routines the tables name. */
  datatype Printer = PrintBin | PrintBinVer | PrintBinRev | PrintDate | PrintAscii | PrintReserved

  /** The update routines the tables name. */
  datatype Updater = UpdateBinary | UpdateAscii

  /** One `set_field` call; `None` is the NULL name (`RESERVED_FIELDS`). */
  datatype FieldSpec = FieldSpec(name: Option<string>, size: nat, delimiter: string, printer: Printer, updater: Updater)

  const CheckByte: nat := 44
  const EepromSize: nat := 256
  const NoLayoutFields: string := "Could not detect layout. Dumping raw data\n"

  /* ---------------- the tables ---------------- */

  /** Sum of the field sizes. */
  function TotalSize(fs: seq<FieldSpec>): nat
    decreases |fs|
  {
    if |fs| == 0 then 0 else TotalSize(fs[..|fs| - 1]) + fs[|fs| - 1].size
  }

  /** Start of field `i` when the fields are laid out back to back from 0. */
  function FieldOffset(fs: seq<FieldSpec>, i: nat): nat
    requires i <= |fs|
  {
    TotalSize(fs[..i])
  }

  function Named(name: string, size: nat, delimiter: string, printer: Printer, updater: Updater): FieldSpec {
    FieldSpec(Some(name), size, delimiter, printer, updater)
  }

  function ReservedSpec(size: nat, updater: Updater): FieldSpec {
    FieldSpec(None, size, "", PrintReserved, updater)
  }

  /** `set_layout_legacy`. */
  function LegacyFields(): (fs: seq<FieldSpec>)
    ensures |fs| == 5 && TotalSize(fs) == EepromSize
  {
    var fs := [
      Named("MAC address", 6, ":", PrintBin, UpdateBinary),
      Named("Board Revision", 2, "", PrintBin, UpdateBinary),
      Named("Serial Number", 8, "", PrintBin, UpdateBinary),
      Named("Board Configuration", 64, "", PrintAscii, UpdateAscii),
      ReservedSpec(176, UpdateAscii)];
    SizesOf5(fs);
    fs
  }

  /** The fields v1 and v2 share at their start. */
  function CommonHead(): (fs: seq<FieldSpec>)
    ensures |fs| == 6
  {
    [Named("Major Revision", 2, ".", PrintBinVer, UpdateBinary),
     Named("Minor Revision", 2, ".", PrintBinVer, UpdateBinary),
     Named("1st MAC addr", 6, ":", PrintBin, UpdateBinary),
     Named("2nd MAC addr", 6, ":", PrintBin, UpdateBinary),
     Named("Production Date", 4, "/", PrintDate, UpdateBinary),
     Named("Serial Number", 12, " ", PrintBinRev, UpdateBinary)]
  }

  /** The fields v1 and v2 share at their end. */
  function CommonTail(): (fs: seq<FieldSpec>)
    ensures |fs| == 5
  {
    [Named("Product Name", 16, "", PrintAscii, UpdateAscii),
     Named("Product Options #1", 16, "", PrintAscii, UpdateAscii),
     Named("Product Options #2", 16, "", PrintAscii, UpdateAscii),
     Named("Product Options #3", 16, "", PrintAscii, UpdateAscii),
     ReservedSpec(64, UpdateAscii)]
  }

  /** `set_layout_v1`. */
  function V1Fields(): (fs: seq<FieldSpec>)
    ensures |fs| == 12 && TotalSize(fs) == EepromSize
  {
    var fs := CommonHead() + [ReservedSpec(96, UpdateBinary)] + CommonTail();
    TotalSizeAppend(CommonHead() + [ReservedSpec(96, UpdateBinary)], CommonTail());
    TotalSizeAppend(CommonHead(), [ReservedSpec(96, UpdateBinary)]);
    HeadSize();
    TailSize();
    fs
  }

  /** `set_layout_v2`. */
  function V2Fields(): (fs: seq<FieldSpec>)
    ensures |fs| == 15 && TotalSize(fs) == EepromSize
  {
    var mid := [
      Named("3rd MAC Address (WIFI)", 6, ":", PrintBin, UpdateBinary),
      Named("4th MAC Address (Bluetooth)", 6, ":", PrintBin, UpdateBinary),
      Named("Layout Version", 1, " ", PrintBin, UpdateBinary),
      ReservedSpec(83, UpdateBinary)];
    var fs := CommonHead() + mid + CommonTail();
    TotalSizeAppend(CommonHead() + mid, CommonTail());
    TotalSizeAppend(CommonHead(), mid);
    HeadSize();
    TailSize();
    SizesOf4(mid);
    fs
  }

  /** `set_layout_unrecognized`: one field over the whole EEPROM. */
  function UnrecognizedFields(): (fs: seq<FieldSpec>)
    ensures |fs| == 1 && TotalSize(fs) == EepromSize
  {
    var fs := [Named(NoLayoutFields, 256, " ", PrintBin, UpdateBinary)];
    assert fs[..0] == [];
    fs
  }

  /** The table `new_layout` installs for a version. */
  function FieldsOf(v: Version): (fs: seq<FieldSpec>)
    ensures TotalSize(fs) == EepromSize
  {
    match v
    case Legacy => LegacyFields()
    case Ver1 => V1Fields()
    case Ver2 => V2Fields()
    case Unrecognized => UnrecognizedFields()
  }

  lemma {:induction false} TotalSizeAppend(a: seq<FieldSpec>, b: seq<FieldSpec>)
    ensures TotalSize(a + b) == TotalSize(a) + TotalSize(b)
    decreases |b|
  {
    if |b| > 0 {
      assert (a + b)[..|a + b| - 1] == a + b[..|b| - 1];
      TotalSizeAppend(a, b[..|b| - 1]);
    } else {
      assert a + b == a;
    }
  }

  lemma SizesOf4(fs: seq<FieldSpec>)
    requires |fs| == 4
    ensures TotalSize(fs) == fs[0].size + fs[1].size + fs[2].size + fs[3].size
  {
    PrefixSize(fs, 0);
    PrefixSize(fs, 1);
    PrefixSize(fs, 2);
    PrefixSize(fs, 3);
    assert fs[..0] == [] && fs[..4] == fs;
  }

  /** One more field extends the prefix by its size. */
  lemma PrefixSize(fs: seq<FieldSpec>, i: nat)
    requires i < |fs|
    ensures TotalSize(fs[..i + 1]) == TotalSize(fs[..i]) + fs[i].size
  {
    assert fs[..i + 1][..i] == fs[..i];
  }

  lemma SizesOf5(fs: seq<FieldSpec>)
    requires |fs| == 5
    ensures TotalSize(fs) == fs[0].size + fs[1].size + fs[2].size + fs[3].size + fs[4].size
  {
    SizesOf4(fs[..4]);
  }

  lemma HeadSize()
    ensures TotalSize(CommonHead()) == 32
  {
    var h := CommonHead();
    assert h == h[..4] + h[4..];
    TotalSizeAppend(h[..4], h[4..]);
    SizesOf4(h[..4]);
    var t := h[4..];
    PrefixSize(t, 0);
    PrefixSize(t, 1);
    assert t[..0] == [] && t[..2] == t;
  }

  lemma TailSize()
    ensures TotalSize(CommonTail()) == 128
  {
    SizesOf5(CommonTail());
  }

  /* ---------------- detection ---------------- */

  /** `detect_layout`: byte 44 is 0x00 or 0xff in v1, a printable character of the
      legacy Board Configuration text, or a small layout number in v2. */
  function Detect(data: seq<Byte>): (v: Version)
    requires |data| > CheckByte
    ensures v != Unrecognized
    ensures v == Ver1 <==> data[CheckByte] == 0 || data[CheckByte] == 0xff
    ensures v == Legacy <==> 0x20 <= data[CheckByte] < 0xff
    ensures v == Ver2 <==> 0x01 <= data[CheckByte] < 0x20
  {
    var b := data[CheckByte];
    if b == 0xff || b == 0 then Ver1
    else if b >= 0x20 then Legacy
    else Ver2
  }

  /* ---------------- the layout and its binding ---------------- */

  /** `struct layout` without its function pointers: the fields, the start of each
      field's window in the copied data, and the data. */
  datatype Layout = Layout(version: Version, fields: seq<FieldSpec>, offsets: seq<nat>, data: seq<Byte>)

  /** Every field is bound at its back-to-back offset and its window lies in the data. */
  predicate Bound(l: Layout) {
    |l.offsets| == |l.fields|
    && (forall i | 0 <= i < |l.fields| :: l.offsets[i] == FieldOffset(l.fields, i))
    && TotalSize(l.fields) <= |l.data|
  }

  /** The loop of `new_layout` that hands each field the pointer `temp` and advances
      it by the field's size. */
  method BindFields(fs: seq<FieldSpec>) returns (offsets: seq<nat>)
    ensures |offsets| == |fs|
    ensures |fs| > 0 ==> offsets[0] == 0
    ensures forall i | 0 <= i < |fs| - 1 :: offsets[i + 1] == offsets[i] + fs[i].size
    ensures |fs| > 0 ==> offsets[|fs| - 1] + fs[|fs| - 1].size == TotalSize(fs)
    ensures forall i | 0 <= i < |fs| :: offsets[i] == FieldOffset(fs, i)
  {
    offsets := [];
    var temp := 0;
    var i := 0;
    while i < |fs|
      invariant i <= |fs| && |offsets| == i
      invariant temp == TotalSize(fs[..i])
      invariant forall k | 0 <= k < i :: offsets[k] == FieldOffset(fs, k)
    {
      offsets := offsets + [temp];
      assert fs[..i + 1][..i] == fs[..i];
      temp := temp + fs[i].size;
      i := i + 1;
    }
    assert fs[..|fs|] == fs;
    forall k | 0 <= k < |fs| - 1 ensures offsets[k + 1] == offsets[k] + fs[k].size {
      assert fs[..k + 1][..k] == fs[..k];
    }
  }

  /** `new_layout`: detect the version, install its table, copy the buffer and bind
      the fields to the copy. */
  method NewLayout(buf: seq<Byte>) returns (l: Layout)
    requires |buf| > CheckByte
    ensures l.version == Detect(buf) && l.fields == FieldsOf(l.version)
    ensures l.data == buf
    ensures |buf| >= EepromSize ==> Bound(l)
  {
    var version := Detect(buf);
    var fields := FieldsOf(version);
    var data: seq<Byte> := [];
    var i := 0;
    while i < |buf|
      invariant i <= |buf| && data == buf[..i]
    {
      data := data + [buf[i]];
      i := i + 1;
    }
    assert buf[..|buf|] == buf;
    var offsets := BindFields(fields);
    l := Layout(version, fields, offsets, data);
  }

  /** The bytes of field `i`. */
  function Window(l: Layout, i: nat): seq<Byte>
    requires Bound(l) && i < |l.fields|
  {
    FieldWindowFits(l.fields, i);
    l.data[l.offsets[i] .. l.offsets[i] + l.fields[i].size]
  }

  lemma FieldWindowFits(fs: seq<FieldSpec>, i: nat)
    requires i < |fs|
    ensures FieldOffset(fs, i) + fs[i].size <= TotalSize(fs)
  {
    PrefixSize(fs, i);
    OffsetsGrow(fs, i + 1, |fs|);
    assert fs[..|fs|] == fs;
  }

  /** Offsets never decrease along the table. */
  lemma {:induction false} OffsetsGrow(fs: seq<FieldSpec>, i: nat, j: nat)
    requires i <= j <= |fs|
    ensures FieldOffset(fs, i) <= FieldOffset(fs, j)
    decreases j - i
  {
    if i < j {
      OffsetsGrow(fs, i, j - 1);
      assert fs[..j][..j - 1] == fs[..j - 1];
    }
  }

  /* ---------------- updates ---------------- */

  /** `data` with the bytes from `offset` replaced by `w`. */
  function Splice(data: seq<Byte>, offset: nat, w: seq<Byte>): (r: seq<Byte>)
    requires offset + |w| <= |data|
    ensures |r| == |data|
    ensures r[offset .. offset + |w|] == w
    ensures forall k | 0 <= k < |data| && !(offset <= k < offset + |w|) :: r[k] == data[k]
  {
    var r := data[..offset] + w + data[offset + |w|..];
    assert r[offset .. offset + |w|] == w;
    r
  }

  /** Index of the first field that has a name and whose name is `key`. */
  function FindField(fs: seq<FieldSpec>, key: string, from: nat): (r: Option<nat>)
    requires from <= |fs|
    ensures r.Some? ==> from <= r.value < |fs| && fs[r.value].name == Some(key)
    ensures r.Some? ==> forall k | from <= k < r.value :: fs[k].name != Some(key)
    ensures r.None? <==> forall k | from <= k < |fs| :: fs[k].name != Some(key)
    decreases |fs| - from
  {
    if from == |fs| then None
    else if fs[from].name.Some? && fs[from].name.value == key then Some(from)
    else FindField(fs, key, from + 1)
  }

  /** A field's own update routine: what it reports and the window it leaves. */
  type UpdateRoutine = (Updater, seq<Byte>, string) -> Field.Encoded

  ghost predicate KeepsSize(apply: UpdateRoutine) {
    forall u, w, s :: |apply(u, w, s).window| == |w|
  }

  /** `update_field`: NULL name or data is refused, then the first field with that
      exact name is updated by its own routine, whose status is not looked at. */
  function UpdateField(l: Layout, name: Option<string>, newData: Option<string>, apply: UpdateRoutine): (r: (Res, Layout))
    requires Bound(l) && KeepsSize(apply)
    ensures r.1.version == l.version && r.1.fields == l.fields && r.1.offsets == l.offsets
    ensures |r.1.data| == |l.data| && Bound(r.1)
    ensures r.0 != Success ==> r.1 == l
    ensures r.0 != OffsetOutOfBounds
    ensures r.0 == NullArguments <==> name.None? || newData.None?
    ensures r.0 == NoSuchField <==> (name.Some? && newData.Some?
      && forall k | 0 <= k < |l.fields| :: l.fields[k].name != Some(name.value))
    ensures r.0 == Success ==>
      var i := FindField(l.fields, name.value, 0).value;
      Window(r.1, i) == apply(l.fields[i].updater, Window(l, i), newData.value).window
      && forall k | 0 <= k < |l.data| && !(l.offsets[i] <= k < l.offsets[i] + l.fields[i].size) ::
           r.1.data[k] == l.data[k]
  {
    if name.None? || newData.None? then (NullArguments, l)
    else
      match FindField(l.fields, name.value, 0)
      case None => (NoSuchField, l)
      case Some(i) =>
        var e := apply(l.fields[i].updater, Window(l, i), newData.value);
        FieldWindowFits(l.fields, i);
        (Success, l.(data := Splice(l.data, l.offsets[i], e.window)))
  }

  /** `update_byte`: the offset is an `unsigned int`, the new byte a `char` stored
      into an `unsigned char`. */
  function UpdateByte(l: Layout, offset: nat, newByte: Byte): (r: (Res, Layout))
    requires offset < 0x1_0000_0000
    ensures r.0 == Success || r.0 == OffsetOutOfBounds
    ensures r.0 == OffsetOutOfBounds <==> offset >= |l.data|
    ensures r.0 == OffsetOutOfBounds ==> r.1 == l
    ensures r.0 == Success ==> (r.1 == l.(data := r.1.data) && |r.1.data| == |l.data|
      && r.1.data[offset] == newByte
      && forall k | 0 <= k < |l.data| && k != offset :: r.1.data[k] == l.data[k])
  {
    if offset >= |l.data| then (OffsetOutOfBounds, l)
    else (Success, l.(data := l.data[offset := newByte]))
  }
}
