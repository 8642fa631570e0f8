/**
 * The header of a single-part scan-line OpenEXR file (minexr/reader.py `_read_header` and the
 * `_read_*`/`_parse_*` helpers): prolog, attribute table, channel list, data window, compression
 * and line offset table.
 */
module Header {
  import opened Bytes
  import opened Wrappers
  import opened Errors
  import opened Buffer
  import opened Layout

  type Name = seq<Byte>

  /** A string literal as its ASCII bytes. */
  function Ascii(s: string): (b: Name)
    requires forall i :: 0 <= i < |s| ==> s[i] as int < 128
    ensures |b| == |s|
  {
    seq(|s|, i requires 0 <= i < |s| => s[i] as int)
  }

  const MAGIC: int := 20000630
  const CHANNELS: Name := Ascii("channels")
  const DATA_WINDOW: Name := Ascii("dataWindow")
  const COMPRESSION: Name := Ascii("compression")
  const CHLIST: Name := Ascii("chlist")
  const BOX2I: Name := Ascii("box2i")

  datatype PixelType = UINT | HALF | FLOAT

  /** Bytes per element: numpy's itemsize of uint32, float16 and float32. */
  function ByteSize(t: PixelType): (n: nat)
    ensures n == 2 || n == 4
    ensures n == 2 <==> t == HALF
  {
    match t
    case UINT => 4
    case HALF => 2
    case FLOAT => 4
  }

  /** `PT_LOOKUP[code]` over the list [UINT, HALF, FLOAT], Python indexing included. */
  function PixelTypeOf(code: int): (r: Option<PixelType>)
    ensures r.Some? <==> -3 <= code < 3
    ensures r == Some(UINT) <==> code == 0 || code == -3
    ensures r == Some(HALF) <==> code == 1 || code == -2
    ensures r == Some(FLOAT) <==> code == 2 || code == -1
  {
    var lookup := [UINT, HALF, FLOAT];
    if 0 <= code < 3 then Some(lookup[code])
    else if -3 <= code < 0 then Some(lookup[3 + code])
    else None
  }

  /** One header attribute record: (name, type, size, payload). */
  datatype Attr = Attr(name: Name, atype: Name, size: int, payload: seq<Byte>)

  /** A method result `r` and final cursor offset `off` agree with a specification result carrying an offset. */
  ghost predicate Agrees<T>(r: Result<T, Error>, s: Result<(T, int), Error>, off: int)
  {
    match s
    case Ok(v) => r == Ok(v.0) && off == v.1
    case Err(e) => r == Err(e)
  }

  /**
   * `_read_header_attr` exactly as written, at offset `off` of `data`: a zero byte ends the table and
   * is consumed; otherwise name, type, signed 32-bit size and `read(size)`, whatever the size's sign.
   */
  function RawAttrAt(data: seq<Byte>, off: int): (r: Result<(Option<Attr>, int), Error>)
    ensures r.Ok? && r.value.0.Some? ==> |r.value.0.value.name| >= 1
  {
    match Index(data, off)
    case None => Err(IndexOutOfRange)
    case Some(b) =>
      if b == 0 then Ok((None, off + 1))
      else
        TailStartsAtIndex(data, off);
        RecordFrom(data, off)
  }

  /** The name of a record at `off`, then the rest of the record after its terminator. */
  function RecordFrom(data: seq<Byte>, off: int): (r: Result<(Option<Attr>, int), Error>)
    ensures r.Ok? ==> r.value.0.Some? && r.value.0.value.name == CString(Tail(data, off))
    ensures r.Ok? ==> var a := r.value.0.value; r.value.1 == off + |a.name| + |a.atype| + 6 + a.size
    ensures r.Ok? && 0 <= off && 0 <= r.value.0.value.size ==> |r.value.0.value.payload| <= r.value.0.value.size
  {
    var name := CString(Tail(data, off));
    RecordAfterName(data, name, PastString(off, name))
  }

  /** The type of a record at `o1`, then the rest of the record after its terminator. */
  function RecordAfterName(data: seq<Byte>, name: Name, o1: int): (r: Result<(Option<Attr>, int), Error>)
    ensures r.Ok? ==> r.value.0.Some? && r.value.0.value.name == name
    ensures r.Ok? ==> var a := r.value.0.value; r.value.1 == o1 + |a.atype| + 5 + a.size
    ensures r.Ok? && 0 <= o1 && 0 <= r.value.0.value.size ==> |r.value.0.value.payload| <= r.value.0.value.size
  {
    var atype := CString(Tail(data, o1));
    RecordAfterType(data, name, atype, PastString(o1, atype))
  }

  /** The signed 32-bit size of a record at `o2`, then `read(size)`. */
  function RecordAfterType(data: seq<Byte>, name: Name, atype: Name, o2: int): (r: Result<(Option<Attr>, int), Error>)
    ensures r.Ok? ==> r.value.0.Some? && r.value.0.value.name == name && r.value.0.value.atype == atype
    ensures r.Ok? ==> r.value.1 == o2 + 4 + r.value.0.value.size
    ensures r.Ok? && 0 <= o2 && 0 <= r.value.0.value.size ==> |r.value.0.value.payload| <= r.value.0.value.size
  {
    var sizeBytes := Slice(data, o2, o2 + 4);
    if |sizeBytes| != 4 then Err(TruncatedStruct)
    else
      var size := LeI32(sizeBytes);
      SliceAtMost(data, o2 + 4, o2 + 4 + size);
      Ok((Some(Attr(name, atype, size, Slice(data, o2 + 4, o2 + 4 + size))), o2 + 4 + size))
  }

  /**
   * The size is the signed 32-bit value of the four bytes at `o2`, or a struct error exactly when
   * fewer than four remain; the payload is `read(size)` after them.
   */
  lemma RecordAfterTypeContents(data: seq<Byte>, name: Name, atype: Name, o2: int)
    ensures var r := RecordAfterType(data, name, atype, o2); var sb := Slice(data, o2, o2 + 4);
      && (r.Err? <==> |sb| != 4)
      && (r.Err? ==> r.error == TruncatedStruct)
      && (r.Ok? ==> |sb| == 4 && r.value.0.value.size == LeI32(sb)
                    && r.value.0.value.payload == Slice(data, o2 + 4, o2 + 4 + LeI32(sb)))
  {
  }

  /** An IndexError exactly when `off` is outside the data; the end of the table exactly at a zero byte, consumed. */
  lemma RawAttrAtEnd(data: seq<Byte>, off: int)
    ensures RawAttrAt(data, off) == Err(IndexOutOfRange) <==> Index(data, off).None?
    ensures Index(data, off) == Some(0) <==> RawAttrAt(data, off).Ok? && RawAttrAt(data, off).value.0.None?
    ensures Index(data, off) == Some(0) ==> RawAttrAt(data, off).value.1 == off + 1
  {
  }

  /**
   * Otherwise a record: a non-empty name read as a C string at `off`, the type read as a C string
   * after it, the signed 32-bit size in the next four bytes, or a struct error exactly when fewer
   * remain, and `read(size)` after them. The cursor ends just past what `read` was asked for.
   */
  lemma RawAttrAtRecord(data: seq<Byte>, off: int, name: Name, o1: int, atype: Name, o2: int)
    requires Index(data, off).Some? && Index(data, off).value != 0
    requires name == CString(Tail(data, off)) && o1 == off + |name| + 1
    requires atype == CString(Tail(data, o1)) && o2 == o1 + |atype| + 1
    ensures |name| >= 1
    ensures RawAttrAt(data, off).Err? <==> |Slice(data, o2, o2 + 4)| != 4
    ensures RawAttrAt(data, off).Err? ==> RawAttrAt(data, off).error == TruncatedStruct
    ensures RawAttrAt(data, off).Ok? ==> var sb := Slice(data, o2, o2 + 4);
      RawAttrAt(data, off).value == (Some(Attr(name, atype, LeI32(sb), Slice(data, o2 + 4, o2 + 4 + LeI32(sb)))), o2 + 4 + LeI32(sb))
    ensures RawAttrAt(data, off).Ok? && 0 <= off && 0 <= RawAttrAt(data, off).value.0.value.size ==>
      |RawAttrAt(data, off).value.0.value.payload| <= RawAttrAt(data, off).value.0.value.size
  {
    TailStartsAtIndex(data, off);
    RawAttrAtRecordStart(data, off);
    RecordFromName(data, off, name, o1);
    RecordAfterNameStep(data, name, o1, atype, o2);
    RecordAfterTypeContents(data, name, atype, o2);
  }

  /** A record is its name, then the rest of it after the name's terminator. */
  lemma RecordFromName(data: seq<Byte>, off: int, name: Name, o1: int)
    requires name == CString(Tail(data, off)) && o1 == off + |name| + 1
    ensures RecordFrom(data, off) == RecordAfterName(data, name, o1)
  {
    assert o1 == PastString(off, name);
  }

  /** After the name: the type is the C string at `o1`, then a 4-byte size and `read(size)`. */
  lemma RecordAfterNameContents(data: seq<Byte>, name: Name, o1: int)
    ensures var r := RecordAfterName(data, name, o1); var o2 := o1 + |CString(Tail(data, o1))| + 1;
      && (r.Err? <==> |Slice(data, o2, o2 + 4)| != 4)
      && (r.Err? ==> r.error == TruncatedStruct)
    ensures var r := RecordAfterName(data, name, o1);
      r.Ok? ==>
        var a := r.value.0.value; var o2 := o1 + |a.atype| + 1;
        && a.atype == CString(Tail(data, o1))
        && |Slice(data, o2, o2 + 4)| == 4 && a.size == LeI32(Slice(data, o2, o2 + 4))
        && a.payload == Slice(data, o2 + 4, o2 + 4 + a.size)
  {
    var atype := CString(Tail(data, o1));
    var o2 := o1 + |atype| + 1;
    RecordAfterNameStep(data, name, o1, atype, o2);
    RecordAfterTypeContents(data, name, atype, o2);
  }

  /** The rest of a record after its name is its type, then the rest after the type's terminator. */
  lemma RecordAfterNameType(data: seq<Byte>, name: Name, o1: int)
    ensures var atype := CString(Tail(data, o1));
      RecordAfterName(data, name, o1) == RecordAfterType(data, name, atype, o1 + |atype| + 1)
  {
  }

  /** At a byte other than zero a record starts. */
  lemma RawAttrAtRecordStart(data: seq<Byte>, off: int)
    requires Index(data, off).Some? && Index(data, off).value != 0
    ensures RawAttrAt(data, off) == RecordFrom(data, off)
  {
    TailStartsAtIndex(data, off);
  }

  /** `_read_header_attr` with a negative size rejected, so that every record moves the cursor forward. */
  function ReadAttrAt(data: seq<Byte>, off: int): (r: Result<(Option<Attr>, int), Error>)
    ensures r.Ok? && r.value.0.Some? ==> r.value.1 >= off + 7 && r.value.0.value.size >= 0
    ensures r.Ok? && r.value.0.Some? ==> |r.value.0.value.name| >= 1
    ensures r.Ok? && r.value.0.None? ==> r.value.1 == off + 1
  {
    RejectNegativeSize(RawAttrAt(data, off))
  }

  /** A record whose size is negative is an error; anything else is passed on. */
  function RejectNegativeSize(raw: Result<(Option<Attr>, int), Error>): Result<(Option<Attr>, int), Error>
  {
    if raw.Ok? && raw.value.0.Some? && raw.value.0.value.size < 0 then Err(NegativeAttributeSize) else raw
  }

  /**
   * With the bytes `a\0 b\0` and the size -8, the record as written ends where it started: the cursor
   * is back at 0 with more than one byte left, so `_read_header_attrs` would read the same record
   * forever. The corrected reading rejects it.
   */
  lemma NegativeSizeRewinds()
    ensures var d: seq<Byte> := [97, 0, 98, 0, 0xF8, 0xFF, 0xFF, 0xFF, 0];
      && |d| - 0 - 1 > 0
      && RawAttrAt(d, 0) == Ok((Some(Attr([97], [98], -8, [])), 0))
      && ReadAttrAt(d, 0) == Err(NegativeAttributeSize)
  {
    var d: seq<Byte> := [97, 0, 98, 0, 0xF8, 0xFF, 0xFF, 0xFF, 0];
    RewindStrings(d);
    RewindSize(d);
    RecordAfterNameStep(d, [97], 2, [98], 4);
    RecordFromName(d, 0, [97], 2);
    RawAttrAtRecordStart(d, 0);
  }

  /** Bytes that start `a\0 b\0` hold a record named `a` of type `b`. */
  lemma RewindStrings(d: seq<Byte>)
    requires |d| >= 4 && d[..4] == [97, 0, 98, 0]
    ensures CString(Tail(d, 0)) == [97] && CString(Tail(d, 2)) == [98]
  {
    assert d[0] == 97 && d[1] == 0 && d[2] == 98 && d[3] == 0;
    assert Tail(d, 0) == d;
    assert CString(d[1..]) == [];
    assert CString(d) == [97];
    assert Tail(d, 2) == d[2..];
    assert CString(d[3..]) == [];
    assert CString(d[2..]) == [98];
  }

  /** The size of the rewinding record is -8, which takes the cursor from 8 back to 0. */
  lemma RewindSize(d: seq<Byte>)
    requires d == [97, 0, 98, 0, 0xF8, 0xFF, 0xFF, 0xFF, 0]
    ensures RecordAfterType(d, [97], [98], 4) == Ok((Some(Attr([97], [98], -8, [])), 0))
  {
    assert Slice(d, 4, 8) == [0xF8, 0xFF, 0xFF, 0xFF];
    MinusEightBytes();
    assert Slice(d, 8, 0) == [];
  }

  /**
   * Not every negative size loops. With the size -5 the cursor falls back onto the zero that ends
   * the type, which `_read_header_attrs` takes for the end of the table: the bytes are accepted as
   * written, while the corrected reading rejects them.
   */
  lemma NegativeSizeAccepted()
    ensures var d: seq<Byte> := [97, 0, 98, 0, 0xFB, 0xFF, 0xFF, 0xFF];
      && RawAttrAt(d, 0) == Ok((Some(Attr([97], [98], -5, [])), 3))
      && |d| - 3 - 1 > 0 && RawAttrAt(d, 3) == Ok((None, 4))
      && ReadAttrAt(d, 0) == Err(NegativeAttributeSize)
  {
    var d: seq<Byte> := [97, 0, 98, 0, 0xFB, 0xFF, 0xFF, 0xFF];
    RewindStrings(d);
    FallBackSize(d);
    RecordAfterNameStep(d, [97], 2, [98], 4);
    RecordFromName(d, 0, [97], 2);
    RawAttrAtRecordStart(d, 0);
  }

  /** The size of that record is -5, which takes the cursor from 8 back to 3. */
  lemma FallBackSize(d: seq<Byte>)
    requires d == [97, 0, 98, 0, 0xFB, 0xFF, 0xFF, 0xFF]
    ensures RecordAfterType(d, [97], [98], 4) == Ok((Some(Attr([97], [98], -5, [])), 3))
  {
    assert Slice(d, 4, 8) == [0xFB, 0xFF, 0xFF, 0xFF];
    MinusFiveBytes();
    assert Slice(d, 8, 3) == [];
  }

  /** The four bytes FB FF FF FF are the signed 32-bit size -5. */
  lemma MinusFiveBytes()
    ensures LeI32([0xFB, 0xFF, 0xFF, 0xFF]) == -5
  {
    var sb: seq<Byte> := [0xFB, 0xFF, 0xFF, 0xFF];
    assert sb[1..][1..][1..][1..] == [];
    assert LeUnsigned(sb[1..][1..][1..]) == 0xFF;
    assert LeUnsigned(sb[1..][1..]) == 0xFFFF;
    assert LeUnsigned(sb[1..]) == 0xFF_FFFF;
    assert LeUnsigned(sb) == 0xFFFF_FFFB;
  }

  /** The four bytes F8 FF FF FF are the signed 32-bit size -8. */
  lemma MinusEightBytes()
    ensures LeI32([0xF8, 0xFF, 0xFF, 0xFF]) == -8
  {
    var sb: seq<Byte> := [0xF8, 0xFF, 0xFF, 0xFF];
    assert sb[1..][1..][1..][1..] == [];
    assert LeUnsigned(sb[1..][1..][1..]) == 0xFF;
    assert LeUnsigned(sb[1..][1..]) == 0xFFFF;
    assert LeUnsigned(sb[1..]) == 0xFF_FFFF;
    assert LeUnsigned(sb) == 0xFFFF_FFF8;
  }

  /** The records of the attribute table from `off`, read while more than one byte remains, and the final offset. */
  function AttrRecords(data: seq<Byte>, off: int): (r: Result<(seq<Attr>, int), Error>)
    ensures r.Ok? ==> r.value.1 >= off
    ensures r.Ok? ==> forall i :: 0 <= i < |r.value.0| ==> |r.value.0[i].name| >= 1 && r.value.0[i].size >= 0
    decreases |data| - off
  {
    if |data| - off - 1 <= 0 then Ok(([], off))
    else
      var (a, next) :- ReadAttrAt(data, off);
      match a
      case None => Ok(([], next))
      case Some(attr) =>
        var (rest, end) :- AttrRecords(data, next);
        Ok(([attr] + rest, end))
  }

  /** The dictionary built from records in order: a later record of the same name replaces an earlier one. */
  function AttrMap(rs: seq<Attr>): (m: map<Name, Attr>)
    ensures m.Keys == set a | a in rs :: a.name
    ensures forall n :: n in m ==> m[n] in rs && m[n].name == n
  {
    if rs == [] then map[] else AttrMap(rs[..|rs| - 1])[rs[|rs| - 1].name := rs[|rs| - 1]]
  }

  /** The attribute table maps each name to the last record of that name. */
  lemma {:induction false} AttrMapLastWins(rs: seq<Attr>, i: nat)
    requires i < |rs|
    requires forall j :: i < j < |rs| ==> rs[j].name != rs[i].name
    ensures rs[i].name in AttrMap(rs) && AttrMap(rs)[rs[i].name] == rs[i]
  {
    if i < |rs| - 1 {
      var init := rs[..|rs| - 1];
      AttrMapLastWins(init, i);
      assert AttrMap(rs) == AttrMap(init)[rs[|rs| - 1].name := rs[|rs| - 1]];
    }
  }

  /** `_read_header_attrs` from offset `off`: the attribute table and the offset after it. */
  function AttrTable(data: seq<Byte>, off: int): (r: Result<(map<Name, Attr>, int), Error>)
    ensures r.Ok? ==> r.value.1 >= off
    ensures r.Ok? ==> forall n :: n in r.value.0 ==> |n| >= 1 && r.value.0[n].name == n && r.value.0[n].size >= 0
  {
    var (rs, end) :- AttrRecords(data, off);
    Ok((AttrMap(rs), end))
  }

  /** No byte of `s` is zero, so that `s` followed by a zero reads back as a C string. */
  predicate NulFree(s: seq<Byte>)
  {
    forall i :: 0 <= i < |s| ==> s[i] != 0
  }

  /** A record a writer can put in the table: a non-empty name, no zero inside the strings, the size its payload's length. */
  predicate Writable(a: Attr)
  {
    |a.name| >= 1 && NulFree(a.name) && NulFree(a.atype) && a.size == |a.payload| && a.size < TWO_31
  }

  /** A record as written to the file: name, zero, type, zero, `<i` size, payload. */
  function EncodeAttr(a: Attr): (b: seq<Byte>)
    requires Writable(a)
    ensures |b| == |a.name| + |a.atype| + 6 + a.size
  {
    a.name + [0] + a.atype + [0] + I32Bytes(a.size) + a.payload
  }

  /** The records of a table, one after the other, without the terminating zero. */
  function EncodeAttrs(rs: seq<Attr>): seq<Byte>
    requires forall i :: 0 <= i < |rs| ==> Writable(rs[i])
  {
    if rs == [] then [] else EncodeAttr(rs[0]) + EncodeAttrs(rs[1..])
  }

  /** An encoded record regrouped field by field, so that each field's tail can be named. */
  lemma EncodedRecordNested(a: Attr, rest: seq<Byte>)
    requires Writable(a)
    ensures EncodeAttr(a) + rest == a.name + [0] + (a.atype + [0] + (I32Bytes(a.size) + (a.payload + rest)))
  {
  }

  /** Once the type at `o1` is known, the rest of the record is read from just after its terminator. */
  lemma RecordAfterNameStep(data: seq<Byte>, name: Name, o1: int, atype: Name, o2: int)
    requires atype == CString(Tail(data, o1)) && o2 == o1 + |atype| + 1
    ensures RecordAfterName(data, name, o1) == RecordAfterType(data, name, atype, o2)
  {
    assert o2 == PastString(o1, atype);
  }

  /** Size bytes at `o2` and a payload at `o3` read back as that size and payload, ending at `next`. */
  lemma SizeReads(data: seq<Byte>, o2: int, o3: int, next: int, a: Attr, rest: seq<Byte>)
    requires 0 <= o2 <= |data| && Writable(a) && o3 == o2 + 4 && next == o3 + a.size
    requires data[o2..] == I32Bytes(a.size) + (a.payload + rest)
    ensures RecordAfterType(data, a.name, a.atype, o2) == Ok((Some(a), next))
  {
    SliceAt(data, o2, o3, I32Bytes(a.size), a.payload + rest);
    SliceAt(data, o3, next, a.payload, rest);
    RecordAfterTypeParts(data, o2, o3, next, a);
  }

  /** Size bytes and a payload where the reader looks for them read back as that size and payload. */
  lemma RecordAfterTypeParts(data: seq<Byte>, o2: int, o3: int, next: int, a: Attr)
    requires Writable(a) && o3 == o2 + 4 && next == o3 + a.size
    requires Slice(data, o2, o3) == I32Bytes(a.size) && Slice(data, o3, next) == a.payload
    ensures RecordAfterType(data, a.name, a.atype, o2) == Ok((Some(a), next))
  {
    LeI32OfI32Bytes(a.size);
  }

  /** A type and its terminator at `o1`, then size bytes and a payload, read back as that record, ending at `next`. */
  lemma TypeReads(data: seq<Byte>, o1: int, o2: int, o3: int, next: int, a: Attr, rest: seq<Byte>)
    requires 0 <= o1 <= |data| && Writable(a) && o2 == o1 + |a.atype| + 1 && o3 == o2 + 4 && next == o3 + a.size
    requires data[o1..] == a.atype + [0] + (I32Bytes(a.size) + (a.payload + rest))
    ensures RecordAfterName(data, a.name, o1) == Ok((Some(a), next))
  {
    CStringAt(data, o1, o2, a.atype, I32Bytes(a.size) + (a.payload + rest));
    RecordAfterNameStep(data, a.name, o1, a.atype, o2);
    SizeReads(data, o2, o3, next, a, rest);
  }

  /** A whole record at `off` reads back as itself, ending at `next`. */
  lemma NameReads(data: seq<Byte>, off: int, o1: int, o2: int, o3: int, next: int, a: Attr, rest: seq<Byte>)
    requires 0 <= off <= |data| && Writable(a) && o1 == off + |a.name| + 1
    requires o2 == o1 + |a.atype| + 1 && o3 == o2 + 4 && next == o3 + a.size
    requires data[off..] == a.name + [0] + (a.atype + [0] + (I32Bytes(a.size) + (a.payload + rest)))
    ensures ReadAttrAt(data, off) == Ok((Some(a), next))
  {
    assert data[off] == data[off..][0] == a.name[0];
    CStringAt(data, off, o1, a.name, a.atype + [0] + (I32Bytes(a.size) + (a.payload + rest)));
    RawAttrAtRecordStart(data, off);
    RecordFromName(data, off, a.name, o1);
    TypeReads(data, o1, o2, o3, next, a, rest);
  }

  /** An encoded record at `off` reads back as itself, and the cursor ends just after it. */
  lemma ReadAttrAtEncoded(data: seq<Byte>, off: int, next: int, a: Attr, rest: seq<Byte>)
    requires 0 <= off <= |data| && Writable(a) && next == off + |EncodeAttr(a)|
    requires data[off..] == EncodeAttr(a) + rest
    ensures ReadAttrAt(data, off) == Ok((Some(a), next))
  {
    var o1 := off + |a.name| + 1;
    var o2 := o1 + |a.atype| + 1;
    var o3 := o2 + 4;
    EncodedRecordNested(a, rest);
    NameReads(data, off, o1, o2, o3, next, a, rest);
  }

  /**
   * A table of encoded records followed by a zero reads back as those records, in order. The zero
   * is consumed unless it is the last byte, where the loop stops first because nothing is left.
   */
  lemma {:induction false} AttrRecordsEncoded(data: seq<Byte>, off: int, fin: int, rs: seq<Attr>, rest: seq<Byte>)
    requires 0 <= off <= |data| && forall i :: 0 <= i < |rs| ==> Writable(rs[i])
    requires fin == off + |EncodeAttrs(rs)| + (if rest == [] then 0 else 1)
    requires data[off..] == EncodeAttrs(rs) + [0] + rest
    ensures AttrRecords(data, off) == Ok((rs, fin))
    decreases |rs|
  {
    if rs == [] {
      TableEnd(data, off, fin, rest);
    } else {
      var next := off + |EncodeAttr(rs[0])|;
      TableTail(data, off, next, rs, rest);
      ReadAttrAtEncoded(data, off, next, rs[0], EncodeAttrs(rs[1..]) + [0] + rest);
      TableEndStep(off, next, fin, rs, rest);
      AttrRecordsEncoded(data, next, fin, rs[1..], rest);
      TableStep(data, off, next, fin, rs);
    }
  }

  /** An encoded table reads back as the dictionary of its records, a later name replacing an earlier one. */
  lemma AttrTableEncoded(data: seq<Byte>, off: int, fin: int, rs: seq<Attr>, rest: seq<Byte>)
    requires 0 <= off <= |data| && forall i :: 0 <= i < |rs| ==> Writable(rs[i])
    requires fin == off + |EncodeAttrs(rs)| + (if rest == [] then 0 else 1)
    requires data[off..] == EncodeAttrs(rs) + [0] + rest
    ensures AttrTable(data, off) == Ok((AttrMap(rs), fin))
  {
    AttrRecordsEncoded(data, off, fin, rs, rest);
  }

  /** The end of a table after its first record is the end of the whole table. */
  lemma TableEndStep(off: int, next: int, fin: int, rs: seq<Attr>, rest: seq<Byte>)
    requires rs != [] && forall i :: 0 <= i < |rs| ==> Writable(rs[i])
    requires next == off + |EncodeAttr(rs[0])| && fin == off + |EncodeAttrs(rs)| + (if rest == [] then 0 else 1)
    ensures fin == next + |EncodeAttrs(rs[1..])| + (if rest == [] then 0 else 1)
  {
  }

  /** A record read at `off` followed by the table read after it make up the table read at `off`. */
  lemma TableStep(data: seq<Byte>, off: int, next: int, fin: int, rs: seq<Attr>)
    requires |data| - off - 1 > 0 && rs != []
    requires ReadAttrAt(data, off) == Ok((Some(rs[0]), next)) && AttrRecords(data, next) == Ok((rs[1..], fin))
    ensures AttrRecords(data, off) == Ok((rs, fin))
  {
    AttrRecordsStep(data, off);
    assert [rs[0]] + rs[1..] == rs;
  }

  /** A terminating zero at `off` ends the table there when it is the last byte, and just after it otherwise. */
  lemma TableEnd(data: seq<Byte>, off: int, fin: int, rest: seq<Byte>)
    requires 0 <= off <= |data| && data[off..] == EncodeAttrs([]) + [0] + rest
    requires fin == off + |EncodeAttrs([])| + (if rest == [] then 0 else 1)
    ensures AttrRecords(data, off) == Ok(([], fin))
  {
    assert data[off..] == [0] + rest;
    assert data[off] == 0;
  }

  /** The first record of an encoded table, and the table after it at `next`. */
  lemma TableTail(data: seq<Byte>, off: int, next: int, rs: seq<Attr>, rest: seq<Byte>)
    requires 0 <= off <= |data| && rs != [] && forall i :: 0 <= i < |rs| ==> Writable(rs[i])
    requires next == off + |EncodeAttr(rs[0])|
    requires data[off..] == EncodeAttrs(rs) + [0] + rest
    ensures data[off..] == EncodeAttr(rs[0]) + (EncodeAttrs(rs[1..]) + [0] + rest)
    ensures |data| - off - 1 > 0 && 0 <= next <= |data| && data[next..] == EncodeAttrs(rs[1..]) + [0] + rest
    ensures forall i :: 0 <= i < |rs[1..]| ==> Writable(rs[1..][i])
  {
    Regroup(EncodeAttr(rs[0]), EncodeAttrs(rs[1..]), [0], rest);
    DropPrefix(data, off, next, EncodeAttr(rs[0]), EncodeAttrs(rs[1..]) + [0] + rest);
  }

  /** Appending is associative, written out for a record, the records after it, the terminator and the rest. */
  lemma Regroup(x: seq<Byte>, y: seq<Byte>, z: seq<Byte>, w: seq<Byte>)
    ensures x + y + z + w == x + (y + z + w)
  {
  }

  /** What follows a prefix `x` of the tail at `off` is the tail at `next`, just after `x`. */
  lemma DropPrefix(data: seq<Byte>, off: int, next: int, x: seq<Byte>, y: seq<Byte>)
    requires 0 <= off <= |data| && next == off + |x| && data[off..] == x + y
    ensures next <= |data| && data[next..] == y
  {
    assert data[next..] == data[off..][|x|..];
  }



  /** `_parse_compression`: the first payload byte of the `compression` attribute. */
  function Compression(attrs: map<Name, Attr>): (r: Result<Byte, Error>)
    ensures r.Ok? <==> COMPRESSION in attrs && |attrs[COMPRESSION].payload| > 0
    ensures r.Ok? ==> r.value == attrs[COMPRESSION].payload[0]
  {
    if COMPRESSION !in attrs then Err(MissingAttribute(COMPRESSION))
    else match Index(attrs[COMPRESSION].payload, 0)
      case None => Err(IndexOutOfRange)
      case Some(b) => Ok(b)
  }

  /** One chlist entry at `off`: a name, a signed 32-bit pixel type code, then 12 skipped bytes. */
  function ChannelAt(p: seq<Byte>, off: nat): (r: Result<(Name, PixelType, nat), Error>)
    ensures r.Ok? ==> r.value.0 == CString(Tail(p, off)) && r.value.2 == off + |r.value.0| + 17
    ensures var o1 := off + |CString(Tail(p, off))| + 1; var code := Slice(p, o1, o1 + 4);
      && (r.Ok? <==> |code| == 4 && PixelTypeOf(LeI32(code)).Some?)
      && (r.Ok? ==> r.value.1 == PixelTypeOf(LeI32(code)).value)
      && (|code| != 4 ==> r == Err(TruncatedStruct))
      && (|code| == 4 && PixelTypeOf(LeI32(code)).None? ==> r == Err(IndexOutOfRange))
  {
    var name := CString(Tail(p, off));
    ChannelAfterName(p, name, PastString(off, name))
  }

  /** The pixel type code of an entry at `o1`, then the 12 skipped bytes. */
  function ChannelAfterName(p: seq<Byte>, name: Name, o1: nat): (r: Result<(Name, PixelType, nat), Error>)
    ensures r.Ok? ==> r.value.0 == name && r.value.2 == o1 + 16
    ensures var code := Slice(p, o1, o1 + 4);
      && (r.Ok? <==> |code| == 4 && PixelTypeOf(LeI32(code)).Some?)
      && (r.Ok? ==> r.value.1 == PixelTypeOf(LeI32(code)).value)
      && (|code| != 4 ==> r == Err(TruncatedStruct))
      && (|code| == 4 && PixelTypeOf(LeI32(code)).None? ==> r == Err(IndexOutOfRange))
  {
    var code := Slice(p, o1, o1 + 4);
    if |code| != 4 then Err(TruncatedStruct)
    else match PixelTypeOf(LeI32(code))
      case None => Err(IndexOutOfRange)
      case Some(t) => Ok((name, t, o1 + 4 + 12))
  }

  /**
   * The entries of a chlist payload from `off`, read while more than one byte remains and the next byte
   * is not zero.
   */
  function ChannelsFrom(p: seq<Byte>, off: nat): (r: Result<(seq<Name>, seq<PixelType>), Error>)
    ensures r.Ok? ==> |r.value.0| == |r.value.1|
    decreases |p| - off
  {
    if |p| - off - 1 <= 0 || p[off] == 0 then Ok(([], []))
    else
      var (name, t, next) :- ChannelAt(p, off);
      var (names, types) :- ChannelsFrom(p, next);
      Ok(([name] + names, [t] + types))
  }

  /** Every channel name read is non-empty: an entry starts only at a non-zero byte. */
  lemma {:induction false} ChannelNamesNonEmpty(p: seq<Byte>, off: nat)
    requires ChannelsFrom(p, off).Ok?
    ensures forall i :: 0 <= i < |ChannelsFrom(p, off).value.0| ==> |ChannelsFrom(p, off).value.0[i]| >= 1
    decreases |p| - off
  {
    if !(|p| - off - 1 <= 0 || p[off] == 0) {
      TailStartsAtIndex(p, off);
      ChannelNamesNonEmpty(p, ChannelAt(p, off).value.2);
    }
  }

  /** `_parse_channels`: the names and pixel types of the `channels` attribute, which must be a chlist. */
  function Channels(attrs: map<Name, Attr>): (r: Result<(seq<Name>, seq<PixelType>), Error>)
    ensures CHANNELS !in attrs ==> r == Err(MissingAttribute(CHANNELS))
    ensures CHANNELS in attrs && attrs[CHANNELS].atype != CHLIST ==> r == Err(UnexpectedChannelsType)
    ensures r.Ok? ==> |r.value.0| == |r.value.1| && forall i :: 0 <= i < |r.value.0| ==> |r.value.0[i]| >= 1
  {
    if CHANNELS !in attrs then Err(MissingAttribute(CHANNELS))
    else if attrs[CHANNELS].atype != CHLIST then Err(UnexpectedChannelsType)
    else
      var r := ChannelsFrom(attrs[CHANNELS].payload, 0);
      if r.Ok? then ChannelNamesNonEmpty(attrs[CHANNELS].payload, 0); r else r
  }

  /**
   * A chlist entry as a writer puts it in the payload: the name, its pixel type code and the 12 bytes
   * the reader skips (linearity, reserved bytes and the two sampling rates).
   */
  datatype Entry = Entry(name: Name, code: int, skipped: seq<Byte>)

  /** An entry a writer can produce: a non-empty name without zeros, a known code, 12 further bytes. */
  predicate WritableEntry(e: Entry)
  {
    |e.name| >= 1 && NulFree(e.name) && PixelTypeOf(e.code).Some? && |e.skipped| == 12
  }

  /** An entry as written: name, zero, `<i` code, then the 12 skipped bytes. */
  function EncodeEntry(e: Entry): (b: seq<Byte>)
    requires WritableEntry(e)
    ensures |b| == |e.name| + 17
  {
    e.name + [0] + I32Bytes(e.code) + e.skipped
  }

  /** The entries of a chlist, one after the other, without the terminating zero. */
  function EncodeEntries(es: seq<Entry>): seq<Byte>
    requires forall i :: 0 <= i < |es| ==> WritableEntry(es[i])
  {
    if es == [] then [] else EncodeEntry(es[0]) + EncodeEntries(es[1..])
  }

  /** The names of the entries, in order. */
  function EntryNames(es: seq<Entry>): (names: seq<Name>)
    ensures |names| == |es| && forall i :: 0 <= i < |es| ==> names[i] == es[i].name
  {
    if es == [] then [] else [es[0].name] + EntryNames(es[1..])
  }

  /** The pixel type an entry's code stands for. */
  function EntryType(e: Entry): PixelType
    requires WritableEntry(e)
  {
    PixelTypeOf(e.code).value
  }

  /** The pixel types the entries' codes stand for, in order. */
  function EntryTypes(es: seq<Entry>): (types: seq<PixelType>)
    requires forall i :: 0 <= i < |es| ==> WritableEntry(es[i])
    ensures |types| == |es| && forall i :: 0 <= i < |es| ==> types[i] == EntryType(es[i])
  {
    if es == [] then [] else [EntryType(es[0])] + EntryTypes(es[1..])
  }

  /** The attributes whose `channels` record is a chlist of the encoded entries and a terminating zero read back as those entries' names and types. */
  lemma ChannelsEncoded(attrs: map<Name, Attr>, es: seq<Entry>)
    requires forall i :: 0 <= i < |es| ==> WritableEntry(es[i])
    requires CHANNELS in attrs && attrs[CHANNELS].atype == CHLIST
    requires attrs[CHANNELS].payload == EncodeEntries(es) + [0]
    ensures Channels(attrs) == Ok((EntryNames(es), EntryTypes(es)))
  {
    ChannelPayloadEncoded(attrs[CHANNELS].payload, es);
  }

  /** A chlist payload of encoded entries and a terminating zero reads back as those entries' names and types. */
  lemma ChannelPayloadEncoded(p: seq<Byte>, es: seq<Entry>)
    requires forall i :: 0 <= i < |es| ==> WritableEntry(es[i])
    requires p == EncodeEntries(es) + [0]
    ensures ChannelsFrom(p, 0) == Ok((EntryNames(es), EntryTypes(es)))
  {
    assert p[0..] == EncodeEntries(es) + [0] + [];
    ChannelsFromEncoded(p, 0, es, []);
  }

  /** Encoded entries followed by a zero read back, from where they start, as their names and types. */
  lemma {:induction false} ChannelsFromEncoded(p: seq<Byte>, off: nat, es: seq<Entry>, rest: seq<Byte>)
    requires forall i :: 0 <= i < |es| ==> WritableEntry(es[i])
    requires off <= |p| && p[off..] == EncodeEntries(es) + [0] + rest
    ensures ChannelsFrom(p, off) == Ok((EntryNames(es), EntryTypes(es)))
    decreases |es|
  {
    if es == [] {
      assert p[off..] == [0] + rest;
      assert p[off] == 0;
    } else {
      var e := es[0];
      var next := off + |EncodeEntry(e)|;
      EntriesTail(p, off, next, es, rest);
      EntryReadsEncoded(p, off, next, e, EncodeEntries(es[1..]) + [0] + rest);
      ChannelsFromEncoded(p, next, es[1..], rest);
      ChannelsStep(p, off, next, es);
    }
  }

  /** A table of entries splits into its first entry and the rest, which starts at `next`. */
  lemma EntriesTail(p: seq<Byte>, off: nat, next: int, es: seq<Entry>, rest: seq<Byte>)
    requires es != [] && forall i :: 0 <= i < |es| ==> WritableEntry(es[i])
    requires next == off + |EncodeEntry(es[0])|
    requires off <= |p| && p[off..] == EncodeEntries(es) + [0] + rest
    ensures p[off..] == EncodeEntry(es[0]) + (EncodeEntries(es[1..]) + [0] + rest)
    ensures |p| - off - 1 > 0 && 0 <= next <= |p| && p[next..] == EncodeEntries(es[1..]) + [0] + rest
    ensures forall i :: 0 <= i < |es[1..]| ==> WritableEntry(es[1..][i])
  {
    Regroup(EncodeEntry(es[0]), EncodeEntries(es[1..]), [0], rest);
    DropPrefix(p, off, next, EncodeEntry(es[0]), EncodeEntries(es[1..]) + [0] + rest);
  }

  /** The first entry read, and the entries after it read, make the table from `off` read. */
  lemma ChannelsStep(p: seq<Byte>, off: nat, next: nat, es: seq<Entry>)
    requires es != [] && forall i :: 0 <= i < |es| ==> WritableEntry(es[i])
    requires |p| - off - 1 > 0 && p[off] != 0
    requires ChannelAt(p, off) == Ok((es[0].name, EntryType(es[0]), next))
    requires ChannelsFrom(p, next) == Ok((EntryNames(es[1..]), EntryTypes(es[1..])))
    ensures ChannelsFrom(p, off) == Ok((EntryNames(es), EntryTypes(es)))
  {
  }

  /** An encoded entry reads back, from where it starts, as its name and pixel type, with the cursor just past it. */
  lemma EntryReadsEncoded(p: seq<Byte>, off: nat, next: int, e: Entry, rest: seq<Byte>)
    requires WritableEntry(e) && next == off + |EncodeEntry(e)|
    requires off <= |p| && p[off..] == EncodeEntry(e) + rest
    ensures p[off] != 0
    ensures ChannelAt(p, off) == Ok((e.name, EntryType(e), next))
  {
    var o1, o2 := off + |e.name| + 1, off + |e.name| + 5;
    assert EncodeEntry(e) + rest == e.name + [0] + (I32Bytes(e.code) + (e.skipped + rest));
    assert p[off] == p[off..][0] == e.name[0];
    CStringAt(p, off, o1, e.name, I32Bytes(e.code) + (e.skipped + rest));
    SliceAt(p, o1, o2, I32Bytes(e.code), e.skipped + rest);
    ChannelFromName(p, off, e.name, o1);
    EntryCodeReads(p, e.name, o1, o2, next, e.code);
  }

  /** The four code bytes at `o1` give the entry's pixel type, with the cursor 12 bytes past them. */
  lemma EntryCodeReads(p: seq<Byte>, name: Name, o1: nat, o2: int, next: int, code: int)
    requires PixelTypeOf(code).Some? && o2 == o1 + 4 && next == o2 + 12
    requires Slice(p, o1, o2) == I32Bytes(code)
    ensures ChannelAfterName(p, name, o1) == Ok((name, PixelTypeOf(code).value, next))
  {
    LeI32OfI32Bytes(code);
  }

  /** `{cn: i for i, cn in enumerate(names)}`: entries inserted in order, a later one replacing an earlier one. */
  function ChannelMap(names: seq<Name>): (m: map<Name, nat>)
  {
    if names == [] then map[]
    else ChannelMap(names[..|names| - 1])[names[|names| - 1] := |names| - 1]
  }

  /** Every channel name is a key, and it maps to the index of its last occurrence. */
  lemma {:induction false} ChannelMapLastIndex(names: seq<Name>)
    ensures ChannelMap(names).Keys == set n | n in names
    ensures forall n :: n in ChannelMap(names) ==> ChannelMap(names)[n] < |names| && names[ChannelMap(names)[n]] == n
    ensures forall n, j :: n in ChannelMap(names) && ChannelMap(names)[n] < j < |names| ==> names[j] != n
  {
    if names != [] {
      var k := |names| - 1;
      var init := names[..k];
      ChannelMapLastIndex(init);
      assert names == init + [names[k]];
      var m0 := ChannelMap(init);
      assert forall n :: n in m0 ==> init[m0[n]] == names[m0[n]];
    }
  }

  /** With unique names the channel map inverts the channel list. */
  lemma ChannelMapInverts(names: seq<Name>)
    requires forall i, j :: 0 <= i < j < |names| ==> names[i] != names[j]
    ensures forall i :: 0 <= i < |names| ==> names[i] in ChannelMap(names) && ChannelMap(names)[names[i]] == i
    ensures |ChannelMap(names)| == |names|
  {
    var m := ChannelMap(names);
    ChannelMapLastIndex(names);
    forall i | 0 <= i < |names|
      ensures names[i] in m && m[names[i]] == i
    {
      assert names[i] in m;
    }
    assert m.Keys == set i | 0 <= i < |names| :: names[i];
    InjectiveImageSize(names, |names|);
  }

  lemma {:induction false} InjectiveImageSize(names: seq<Name>, k: nat)
    requires k <= |names|
    requires forall i, j :: 0 <= i < j < |names| ==> names[i] != names[j]
    ensures |set i | 0 <= i < k :: names[i]| == k
  {
    if k > 0 {
      InjectiveImageSize(names, k - 1);
      var prev := set i | 0 <= i < k - 1 :: names[i];
      assert (set i | 0 <= i < k :: names[i]) == prev + {names[k - 1]};
      assert names[k - 1] !in prev;
    }
  }

  /** `_parse_data_window`: (H, W) from the four signed 32-bit integers of a box2i `dataWindow`. */
  function DataWindow(attrs: map<Name, Attr>): (r: Result<(int, int), Error>)
    ensures r.Ok? <==> DATA_WINDOW in attrs && attrs[DATA_WINDOW].atype == BOX2I && |attrs[DATA_WINDOW].payload| == 16
    ensures r.Ok? ==> -TWO_32 + 2 <= r.value.0 <= TWO_32 && -TWO_32 + 2 <= r.value.1 <= TWO_32
  {
    if DATA_WINDOW !in attrs then Err(MissingAttribute(DATA_WINDOW))
    else
      var a := attrs[DATA_WINDOW];
      if a.atype != BOX2I then Err(UnexpectedDataWindowType)
      else if |a.payload| != 16 then Err(TruncatedStruct)
      else
        var p := a.payload;
        var xmin, ymin, xmax, ymax := LeI32(p[0..4]), LeI32(p[4..8]), LeI32(p[8..12]), LeI32(p[12..16]);
        Ok((ymax - ymin + 1, xmax - xmin + 1))
  }

  /** A box2i data window (xmin, ymin, xmax, ymax) yields H = ymax-ymin+1 rows and W = xmax-xmin+1 columns. */
  lemma DataWindowOfBox(attrs: map<Name, Attr>, xmin: int, ymin: int, xmax: int, ymax: int)
    requires -TWO_31 <= xmin < TWO_31 && -TWO_31 <= ymin < TWO_31
    requires -TWO_31 <= xmax < TWO_31 && -TWO_31 <= ymax < TWO_31
    requires DATA_WINDOW in attrs && attrs[DATA_WINDOW].atype == BOX2I
    requires attrs[DATA_WINDOW].payload == I32Bytes(xmin) + I32Bytes(ymin) + I32Bytes(xmax) + I32Bytes(ymax)
    ensures DataWindow(attrs) == Ok((ymax - ymin + 1, xmax - xmin + 1))
  {
    QuadSlices(I32Bytes(xmin), I32Bytes(ymin), I32Bytes(xmax), I32Bytes(ymax));
    LeI32OfI32Bytes(xmin);
    LeI32OfI32Bytes(ymin);
    LeI32OfI32Bytes(xmax);
    LeI32OfI32Bytes(ymax);
  }

  /** The data window (0, 0, 479, 269) of the reader's test files gives H = 270 and W = 480. */
  lemma TestDataWindow()
    ensures var p := I32Bytes(0) + I32Bytes(0) + I32Bytes(479) + I32Bytes(269);
      DataWindow(map[DATA_WINDOW := Attr(DATA_WINDOW, BOX2I, 16, p)]) == Ok((270, 480))
  {
    var p := I32Bytes(0) + I32Bytes(0) + I32Bytes(479) + I32Bytes(269);
    DataWindowOfBox(map[DATA_WINDOW := Attr(DATA_WINDOW, BOX2I, 16, p)], 0, 0, 479, 269);
  }

  lemma QuadSlices(a: seq<Byte>, b: seq<Byte>, c: seq<Byte>, d: seq<Byte>)
    requires |a| == 4 && |b| == 4 && |c| == 4 && |d| == 4
    ensures var p := a + b + c + d;
      |p| == 16 && p[0..4] == a && p[4..8] == b && p[8..12] == c && p[12..16] == d
  {
    var p := a + b + c + d;
    assert p[0..4] == a;
    assert p[4..8] == b;
    assert p[8..12] == c;
    assert p[12..16] == d;
  }

  /** `_read_first_offset`: the first entry of the line offset table, which must not start with a zero byte. */
  function FirstOffsetAt(data: seq<Byte>, off: int): (r: Result<(nat, int), Error>)
    ensures r.Ok? ==> r.value.0 < TWO_64 && r.value.1 == off + 8
    ensures r.Ok? ==> |data| - off - 1 > 0 && Index(data, off) != Some(0)
    ensures 0 <= off && off + 8 <= |data| && data[off] != 0 ==> r == Ok((LeU64(data[off..off + 8]), off + 8))
    ensures r == Err(OffsetReadFailed) <==> |data| - off - 1 <= 0 || Index(data, off) == Some(0)
    ensures r == Err(IndexOutOfRange) <==> |data| - off - 1 > 0 && Index(data, off).None?
    ensures |data| - off - 1 > 0 && Index(data, off).Some? && Index(data, off) != Some(0) ==>
      (r.Err? <==> |Slice(data, off, off + 8)| != 8) && (r.Err? ==> r.error == TruncatedStruct)
    ensures 0 <= off && |data| - off - 1 > 0 && data[off] != 0 && off + 8 > |data| ==> r == Err(TruncatedStruct)
  {
    if |data| - off - 1 <= 0 then Err(OffsetReadFailed)
    else match Index(data, off)
      case None => Err(IndexOutOfRange)
      case Some(b) =>
        if b == 0 then Err(OffsetReadFailed)
        else
          var bytes := Slice(data, off, off + 8);
          if |bytes| != 8 then Err(TruncatedStruct) else Ok((LeU64(bytes), off + 8))
  }

  /** `_read_offsets`: offsets read while more than one byte remains and the next byte is not zero. */
  function OffsetsFrom(data: seq<Byte>, off: nat): (r: Result<(seq<nat>, int), Error>)
    ensures r.Ok? ==> forall i :: 0 <= i < |r.value.0| ==> r.value.0[i] < TWO_64
    ensures r.Ok? ==> r.value.1 >= off
    decreases |data| - off
  {
    if |data| - off - 1 <= 0 || data[off] == 0 then
      Ok(([], if |data| - off - 1 > 0 then off + 1 else off))
    else
      var bytes := Slice(data, off, off + 8);
      if |bytes| != 8 then Err(TruncatedStruct)
      else
        var (rest, end) :- OffsetsFrom(data, off + 8);
        Ok(([LeU64(bytes)] + rest, end))
  }

  /** Everything `_read_header` stores on the reader. */
  datatype Header = Header(
    version: Byte,
    attrs: map<Name, Attr>,
    compr: Byte,
    channelNames: seq<Name>,
    channelTypes: seq<PixelType>,
    channelMap: map<Name, nat>,
    shape: Shape,
    firstOffset: nat)

  /** The set of distinct values of a sequence, as Python's `set(...)`. */
  function SetOf<T>(s: seq<T>): set<T> { set x | x in s }

  /** `_read_header` on the bytes of the header region, failing at the first violated assumption. */
  function HeaderSpec(h: seq<Byte>): Result<Header, Error>
  {
    var prolog := Slice(h, 0, 8);
    if |prolog| != 8 then Err(TruncatedStruct)
    else if LeI32(prolog[..4]) != MAGIC then Err(NotOpenExr)
    else if prolog[5] != 0 && prolog[5] != 4 then Err(NotSinglePartScanLine)
    else if prolog[6] != 0 || prolog[7] != 0 then Err(NonZeroFlags)
    else HeaderBody(h, prolog[4])
  }

  /** `_read_header` after the prolog: the attribute table from offset 8, then its parsing. */
  function HeaderBody(h: seq<Byte>, version: Byte): Result<Header, Error>
  {
    var (attrs, off) :- AttrTable(h, 8);
    HeaderAfterAttrs(h, version, attrs, off)
  }

  /** The attributes parsed in the order `_read_header` parses them, then the first offset. */
  function HeaderAfterAttrs(h: seq<Byte>, version: Byte, attrs: map<Name, Attr>, off: int): Result<Header, Error>
  {
    var compr :- Compression(attrs);
    var (names, types) :- Channels(attrs);
    var (hh, ww) :- DataWindow(attrs);
    HeaderAfterWindow(h, version, attrs, off, compr, names, types, Shape(hh, |names|, ww))
  }

  /** The first offset, then the assertions on compression and channel types. */
  function HeaderAfterWindow(h: seq<Byte>, version: Byte, attrs: map<Name, Attr>, off: int, compr: Byte,
                             names: seq<Name>, types: seq<PixelType>, shape: Shape): Result<Header, Error>
  {
    var (first, _) :- FirstOffsetAt(h, off);
    if compr != 0 then Err(CompressionNotSupported)
    else if |SetOf(types)| > 1 then Err(MixedChannelTypes)
    else Ok(Header(version, attrs, compr, names, types, ChannelMap(names), shape, first))
  }

  /** The stages of `_read_header`, one failing check or parse at a time. */
  lemma PrologStage(h: seq<Byte>)
    requires |h| >= 8 && LeI32(h[..4]) == MAGIC && (h[5] == 0 || h[5] == 4) && h[6] == 0 && h[7] == 0
    ensures HeaderSpec(h) == HeaderBody(h, h[4])
  {
    assert Slice(h, 0, 8) == h[..8];
    assert h[..8][..4] == h[..4];
  }

  lemma AttrsStage(h: seq<Byte>, version: Byte)
    ensures AttrTable(h, 8).Err? ==> HeaderBody(h, version) == Err(AttrTable(h, 8).error)
    ensures AttrTable(h, 8).Ok? ==>
      HeaderBody(h, version) == HeaderAfterAttrs(h, version, AttrTable(h, 8).value.0, AttrTable(h, 8).value.1)
  {
  }

  lemma FieldsStage(h: seq<Byte>, version: Byte, attrs: map<Name, Attr>, off: int)
    ensures Compression(attrs).Err? ==> HeaderAfterAttrs(h, version, attrs, off) == Err(Compression(attrs).error)
    ensures Compression(attrs).Ok? && Channels(attrs).Err? ==>
      HeaderAfterAttrs(h, version, attrs, off) == Err(Channels(attrs).error)
    ensures Compression(attrs).Ok? && Channels(attrs).Ok? && DataWindow(attrs).Err? ==>
      HeaderAfterAttrs(h, version, attrs, off) == Err(DataWindow(attrs).error)
    ensures Compression(attrs).Ok? && Channels(attrs).Ok? && DataWindow(attrs).Ok? ==>
      var names := Channels(attrs).value.0;
      HeaderAfterAttrs(h, version, attrs, off) == HeaderAfterWindow(h, version, attrs, off, Compression(attrs).value,
        names, Channels(attrs).value.1, Shape(DataWindow(attrs).value.0, |names|, DataWindow(attrs).value.1))
  {
  }

  lemma FinalStage(h: seq<Byte>, version: Byte, attrs: map<Name, Attr>, off: int, compr: Byte,
                   names: seq<Name>, types: seq<PixelType>, shape: Shape)
    ensures var r := HeaderAfterWindow(h, version, attrs, off, compr, names, types, shape);
      && (FirstOffsetAt(h, off).Err? ==> r == Err(FirstOffsetAt(h, off).error))
      && (FirstOffsetAt(h, off).Ok? && compr != 0 ==> r == Err(CompressionNotSupported))
      && (FirstOffsetAt(h, off).Ok? && compr == 0 && |SetOf(types)| > 1 ==> r == Err(MixedChannelTypes))
      && (FirstOffsetAt(h, off).Ok? && compr == 0 && |SetOf(types)| <= 1 ==>
            r == Ok(Header(version, attrs, compr, names, types, ChannelMap(names), shape, FirstOffsetAt(h, off).value.0)))
  {
  }

  /** A sequence with at most one distinct value has all elements equal. */
  lemma AtMostOneDistinct<T>(s: seq<T>)
    requires |SetOf(s)| <= 1
    ensures forall i, j :: 0 <= i < |s| && 0 <= j < |s| ==> s[i] == s[j]
  {
    if |s| > 0 {
      assert s[0] in SetOf(s);
      forall i | 0 <= i < |s| ensures s[i] == s[0] {
        if s[i] != s[0] {
          assert {s[0], s[i]} <= SetOf(s);
          assert |{s[0], s[i]}| == 2;
          SubsetSize({s[0], s[i]}, SetOf(s));
        }
      }
    }
  }

  lemma SubsetSize<T>(a: set<T>, b: set<T>)
    requires a <= b
    ensures |a| <= |b|
  {
    assert b == a + (b - a);
  }

  /** Opening fails unless the magic number and flags are as this reader supports. */
  lemma HeaderAccepted(h: seq<Byte>)
    requires HeaderSpec(h).Ok?
    ensures |h| >= 8 && LeI32(h[..4]) == MAGIC
    ensures (h[5] == 0 || h[5] == 4) && h[6] == 0 && h[7] == 0
    ensures HeaderSpec(h) == HeaderBody(h, h[4])
  {
    assert Slice(h, 0, 8) == h[..8];
    assert h[..8][..4] == h[..4];
  }

  /**
   * A header that is accepted is uncompressed, has chlist channels, a box2i data window, one channel
   * count for names, types and shape, a 64-bit first offset and a single channel type.
   */
  lemma HeaderBodyAccepted(h: seq<Byte>, version: Byte)
    requires HeaderBody(h, version).Ok?
    ensures var hd := HeaderBody(h, version).value;
      && hd.version == version
      && COMPRESSION in hd.attrs && |hd.attrs[COMPRESSION].payload| >= 1
      && hd.attrs[COMPRESSION].payload[0] == 0 && hd.compr == 0
      && CHANNELS in hd.attrs && hd.attrs[CHANNELS].atype == CHLIST
      && DATA_WINDOW in hd.attrs && hd.attrs[DATA_WINDOW].atype == BOX2I
      && |hd.channelNames| == |hd.channelTypes| == hd.shape.c
      && hd.channelMap == ChannelMap(hd.channelNames)
      && hd.firstOffset < TWO_64
      && (forall i, j :: 0 <= i < |hd.channelTypes| && 0 <= j < |hd.channelTypes| ==> hd.channelTypes[i] == hd.channelTypes[j])
  {
    var (attrs, off) := AttrTable(h, 8).value;
    assert HeaderBody(h, version) == HeaderAfterAttrs(h, version, attrs, off);
    HeaderAfterAttrsAccepted(h, version, attrs, off);
  }

  /** The same from the attributes on: what the fields and the final checks accept. */
  lemma HeaderAfterAttrsAccepted(h: seq<Byte>, version: Byte, attrs: map<Name, Attr>, off: int)
    requires HeaderAfterAttrs(h, version, attrs, off).Ok?
    ensures var hd := HeaderAfterAttrs(h, version, attrs, off).value;
      && hd.attrs == attrs
      && hd.version == version
      && COMPRESSION in hd.attrs && |hd.attrs[COMPRESSION].payload| >= 1
      && hd.attrs[COMPRESSION].payload[0] == 0 && hd.compr == 0
      && CHANNELS in hd.attrs && hd.attrs[CHANNELS].atype == CHLIST
      && DATA_WINDOW in hd.attrs && hd.attrs[DATA_WINDOW].atype == BOX2I
      && |hd.channelNames| == |hd.channelTypes| == hd.shape.c
      && hd.channelMap == ChannelMap(hd.channelNames)
      && hd.firstOffset < TWO_64
      && (forall i, j :: 0 <= i < |hd.channelTypes| && 0 <= j < |hd.channelTypes| ==> hd.channelTypes[i] == hd.channelTypes[j])
  {
    var compr := Compression(attrs).value;
    var (names, types) := Channels(attrs).value;
    var (hh, ww) := DataWindow(attrs).value;
    var shape := Shape(hh, |names|, ww);
    assert HeaderAfterAttrs(h, version, attrs, off) == HeaderAfterWindow(h, version, attrs, off, compr, names, types, shape);
    var (first, _) := FirstOffsetAt(h, off).value;
    var hd := Header(version, attrs, compr, names, types, ChannelMap(names), shape, first);
    assert HeaderAfterAttrs(h, version, attrs, off) == Ok(hd);
    AtMostOneDistinct(types);
  }

  /** Each structural violation of the prolog is reported by its own error. */
  lemma PrologRejected(h: seq<Byte>)
    ensures |h| < 8 ==> HeaderSpec(h) == Err(TruncatedStruct)
    ensures |h| >= 8 && LeI32(h[..4]) != MAGIC ==> HeaderSpec(h) == Err(NotOpenExr)
    ensures |h| >= 8 && LeI32(h[..4]) == MAGIC && h[5] != 0 && h[5] != 4 ==> HeaderSpec(h) == Err(NotSinglePartScanLine)
    ensures |h| >= 8 && LeI32(h[..4]) == MAGIC && (h[5] == 0 || h[5] == 4) && (h[6] != 0 || h[7] != 0)
      ==> HeaderSpec(h) == Err(NonZeroFlags)
  {
    if |h| >= 8 {
      assert Slice(h, 0, 8) == h[..8];
      assert h[..8][..4] == h[..4];
    }
  }

  /** `_read_header_attr` on the cursor. */
  method ReadHeaderAttr(buf: BufferReader) returns (r: Result<Option<Attr>, Error>)
    requires buf.Valid()
    modifies buf
    ensures Agrees(r, ReadAttrAt(buf.data, old(buf.off)), buf.off)
  {
    var b := buf.Peek();
    if b.None? {
      return Err(IndexOutOfRange);
    }
    if b.value == 0 {
      buf.Advance(1);
      return Ok(None);
    }
    RawAttrAtRecordStart(buf.data, buf.off);
    r := ReadRecord(buf);
  }

  /** The name of a record, then the rest of it. */
  method ReadRecord(buf: BufferReader) returns (r: Result<Option<Attr>, Error>)
    requires buf.Valid()
    modifies buf
    ensures Agrees(r, RejectNegativeSize(RecordFrom(buf.data, old(buf.off))), buf.off)
  {
    ghost var off := buf.off;
    var name := buf.ReadNullString();
    ghost var o1 := buf.off;
    r := ReadRecordAfterName(buf, name);
    AgreesAfterName(r, buf.data, off, name, o1, buf.off);
  }

  /** What agrees with the rest of a record after its name agrees with the whole record. */
  lemma AgreesAfterName(r: Result<Option<Attr>, Error>, data: seq<Byte>, off: int, name: Name, o1: int, fin: int)
    requires name == CString(Tail(data, off)) && o1 == off + |name| + 1
    requires Agrees(r, RejectNegativeSize(RecordAfterName(data, name, o1)), fin)
    ensures Agrees(r, RejectNegativeSize(RecordFrom(data, off)), fin)
  {
    RecordFromName(data, off, name, o1);
  }

  /** The type of a record, then the rest of it. */
  method ReadRecordAfterName(buf: BufferReader, name: Name) returns (r: Result<Option<Attr>, Error>)
    requires buf.Valid()
    modifies buf
    ensures Agrees(r, RejectNegativeSize(RecordAfterName(buf.data, name, old(buf.off))), buf.off)
  {
    RecordAfterNameType(buf.data, name, buf.off);
    var atype := buf.ReadNullString();
    r := ReadRecordAfterType(buf, name, atype);
  }

  /** The size of a record, rejected when negative, then its payload. */
  method ReadRecordAfterType(buf: BufferReader, name: Name, atype: Name) returns (r: Result<Option<Attr>, Error>)
    requires buf.Valid()
    modifies buf
    ensures Agrees(r, RejectNegativeSize(RecordAfterType(buf.data, name, atype, old(buf.off))), buf.off)
  {
    var sizeBytes := buf.Read(4);
    if |sizeBytes| != 4 {
      return Err(TruncatedStruct);
    }
    var size := LeI32(sizeBytes);
    if size < 0 {
      return Err(NegativeAttributeSize);
    }
    var payload := buf.Read(size);
    return Ok(Some(Attr(name, atype, size, payload)));
  }

  /** The records of `rs` before those of the remaining table `rest`. */
  function Prepend(rs: seq<Attr>, rest: Result<(seq<Attr>, int), Error>): Result<(seq<Attr>, int), Error>
  {
    match rest
    case Ok(v) => Ok((rs + v.0, v.1))
    case Err(e) => Err(e)
  }

  lemma PrependNil(rest: Result<(seq<Attr>, int), Error>)
    ensures Prepend([], rest) == rest
  {
    if rest.Ok? {
      assert [] + rest.value.0 == rest.value.0;
    }
  }

  lemma PrependPrepend(rs: seq<Attr>, rs': seq<Attr>, rest: Result<(seq<Attr>, int), Error>)
    ensures Prepend(rs, Prepend(rs', rest)) == Prepend(rs + rs', rest)
  {
    if rest.Ok? {
      assert rs + (rs' + rest.value.0) == (rs + rs') + rest.value.0;
    }
  }

  /** One turn of the attribute loop: the record at `off` comes first in the table read from `off`. */
  lemma AttrRecordsStep(data: seq<Byte>, off: int)
    requires |data| - off - 1 > 0
    ensures ReadAttrAt(data, off).Err? ==> AttrRecords(data, off) == Err(ReadAttrAt(data, off).error)
    ensures ReadAttrAt(data, off).Ok? && ReadAttrAt(data, off).value.0.None? ==>
      AttrRecords(data, off) == Ok(([], ReadAttrAt(data, off).value.1))
    ensures ReadAttrAt(data, off).Ok? && ReadAttrAt(data, off).value.0.Some? ==>
      AttrRecords(data, off) == Prepend([ReadAttrAt(data, off).value.0.value], AttrRecords(data, ReadAttrAt(data, off).value.1))
  {
  }

  /** The dictionary after one more record is the previous one updated at that record's name. */
  lemma AttrMapSnoc(rs: seq<Attr>, a: Attr)
    ensures AttrMap(rs + [a]) == AttrMap(rs)[a.name := a]
  {
    assert (rs + [a])[..|rs|] == rs;
  }

  /** `_read_header_attrs` on the cursor: records are read while `nleft() > 0`, up to the zero terminator. */
  method ReadHeaderAttrs(buf: BufferReader) returns (r: Result<map<Name, Attr>, Error>)
    requires buf.Valid()
    modifies buf
    ensures Agrees(r, AttrTable(buf.data, old(buf.off)), buf.off)
  {
    var attrs := map[];
    ghost var recs: seq<Attr> := [];
    ghost var start := buf.off;
    PrependNil(AttrRecords(buf.data, start));
    while buf.NLeft() > 0
      invariant attrs == AttrMap(recs)
      invariant AttrRecords(buf.data, start) == Prepend(recs, AttrRecords(buf.data, buf.off))
      decreases buf.len - buf.off
    {
      ghost var here := buf.off;
      AttrRecordsStep(buf.data, here);
      var attr := ReadHeaderAttr(buf);
      if attr.Err? {
        return Err(attr.error);
      }
      if attr.value.None? {
        PrependPrepend(recs, [], AttrRecords(buf.data, buf.off));
        assert recs + [] == recs;
        PrependNil(AttrRecords(buf.data, buf.off));
        ghost var tail := AttrRecords(buf.data, buf.off);
        assert AttrRecords(buf.data, start) == Ok((recs, buf.off));
        return Ok(attrs);
      }
      var a := attr.value.value;
      PrependPrepend(recs, [a], AttrRecords(buf.data, buf.off));
      AttrMapSnoc(recs, a);
      attrs := attrs[a.name := a];
      recs := recs + [a];
    }
    assert AttrRecords(buf.data, buf.off) == Ok(([], buf.off));
    assert recs + [] == recs;
    return Ok(attrs);
  }

  /** Names and types of `names`/`types` before those of the remaining entries `rest`. */
  function PrependChannels(names: seq<Name>, types: seq<PixelType>, rest: Result<(seq<Name>, seq<PixelType>), Error>)
    : Result<(seq<Name>, seq<PixelType>), Error>
  {
    match rest
    case Ok(v) => Ok((names + v.0, types + v.1))
    case Err(e) => Err(e)
  }

  lemma PrependChannelsNil(rest: Result<(seq<Name>, seq<PixelType>), Error>)
    ensures PrependChannels([], [], rest) == rest
  {
    if rest.Ok? {
      assert [] + rest.value.0 == rest.value.0 && [] + rest.value.1 == rest.value.1;
    }
  }

  lemma PrependChannelsTwice(names: seq<Name>, types: seq<PixelType>, names': seq<Name>, types': seq<PixelType>,
                             rest: Result<(seq<Name>, seq<PixelType>), Error>)
    ensures PrependChannels(names, types, PrependChannels(names', types', rest))
         == PrependChannels(names + names', types + types', rest)
  {
    if rest.Ok? {
      assert names + (names' + rest.value.0) == (names + names') + rest.value.0;
      assert types + (types' + rest.value.1) == (types + types') + rest.value.1;
    }
  }

  /** One turn of the chlist loop, given the name and the type code bytes the cursor returns. */
  lemma ChannelsFromStep(p: seq<Byte>, off: nat)
    requires |p| - off - 1 > 0 && p[off] != 0
    ensures ChannelAt(p, off).Err? ==> ChannelsFrom(p, off) == Err(ChannelAt(p, off).error)
    ensures ChannelAt(p, off).Ok? ==>
      var (name, t, next) := ChannelAt(p, off).value;
      ChannelsFrom(p, off) == PrependChannels([name], [t], ChannelsFrom(p, next))
  {
  }

  /** The channels read so far, followed by those from `off` on, are all the channels of the payload. */
  ghost predicate ChannelsSoFar(p: seq<Byte>, names: seq<Name>, types: seq<PixelType>, off: nat)
  {
    ChannelsFrom(p, 0) == PrependChannels(names, types, ChannelsFrom(p, off))
  }

  /** One more channel read: what remains to be read after it completes the channels read so far. */
  lemma ChannelsLoopStep(p: seq<Byte>, off: nat, next: nat, names: seq<Name>, types: seq<PixelType>, name: Name, t: PixelType)
    requires ChannelsSoFar(p, names, types, off)
    requires ChannelsFrom(p, off) == PrependChannels([name], [t], ChannelsFrom(p, next))
    ensures ChannelsSoFar(p, names + [name], types + [t], next)
  {
    PrependChannelsTwice(names, types, [name], [t], ChannelsFrom(p, next));
  }

  /** The body of the `_parse_channels` loop: one entry read on the cursor. */
  method ReadChannel(buf: BufferReader) returns (r: Result<(Name, PixelType), Error>)
    requires buf.Valid() && buf.off >= 0
    modifies buf
    ensures r.Err? ==> ChannelAt(buf.data, old(buf.off)) == Err(r.error)
    ensures r.Ok? ==> ChannelAt(buf.data, old(buf.off)) == Ok((r.value.0, r.value.1, buf.off))
  {
    ghost var off := buf.off;
    var name := buf.ReadNullString();
    ChannelFromName(buf.data, off, name, buf.off);
    r := ReadChannelAfterName(buf, name);
  }

  /** An entry is its name, then the rest of it after the name's terminator. */
  lemma ChannelFromName(p: seq<Byte>, off: nat, name: Name, o1: nat)
    requires name == CString(Tail(p, off)) && o1 == off + |name| + 1
    ensures ChannelAt(p, off) == ChannelAfterName(p, name, o1)
  {
    assert o1 == PastString(off, name);
  }

  /** The pixel type code of an entry and the 12 bytes after it. */
  method ReadChannelAfterName(buf: BufferReader, name: Name) returns (r: Result<(Name, PixelType), Error>)
    requires buf.Valid() && buf.off >= 0
    modifies buf
    ensures r.Err? ==> ChannelAfterName(buf.data, name, old(buf.off)) == Err(r.error)
    ensures r.Ok? ==> ChannelAfterName(buf.data, name, old(buf.off)) == Ok((r.value.0, r.value.1, buf.off))
  {
    var code := buf.Read(4);
    if |code| != 4 {
      return Err(TruncatedStruct);
    }
    var t := PixelTypeOf(LeI32(code));
    if t.None? {
      return Err(IndexOutOfRange);
    }
    buf.Advance(12);
    return Ok((name, t.value));
  }

  lemma ChannelsFromStop(p: seq<Byte>, off: nat)
    requires |p| - off - 1 <= 0 || p[off] == 0
    ensures ChannelsFrom(p, off) == Ok(([], []))
  {
  }

  lemma PrependChannelsEmpty(names: seq<Name>, types: seq<PixelType>)
    ensures PrependChannels(names, types, Ok(([], []))) == Ok((names, types))
  {
    assert names + [] == names && types + [] == types;
  }

  /** `_parse_channels`: a loop over a fresh cursor on the chlist payload. */
  method ParseChannels(attrs: map<Name, Attr>) returns (r: Result<(seq<Name>, seq<PixelType>), Error>)
    ensures r == Channels(attrs)
  {
    if CHANNELS !in attrs {
      return Err(MissingAttribute(CHANNELS));
    }
    var attr := attrs[CHANNELS];
    if attr.atype != CHLIST {
      return Err(UnexpectedChannelsType);
    }
    var buf := new BufferReader(attr.payload);
    var names: seq<Name>, types: seq<PixelType> := [], [];
    PrependChannelsNil(ChannelsFrom(attr.payload, 0));
    assert ChannelsSoFar(attr.payload, names, types, 0);
    while buf.NLeft() > 0 && buf.Peek() != Some(0)
      invariant buf.Valid() && buf.data == attr.payload && buf.off >= 0
      invariant ChannelsSoFar(attr.payload, names, types, buf.off)
      decreases buf.len - buf.off
    {
      ghost var here: nat := buf.off;
      var c := ReadChannel(buf);
      ChannelsFromStep(attr.payload, here);
      if c.Err? {
        return Err(c.error);
      }
      ChannelsLoopStep(attr.payload, here, buf.off, names, types, c.value.0, c.value.1);
      names, types := names + [c.value.0], types + [c.value.1];
    }
    ChannelsFromStop(attr.payload, buf.off);
    PrependChannelsEmpty(names, types);
    assert ChannelsFrom(attr.payload, 0) == Ok((names, types));
    if buf.NLeft() > 0 {
      buf.Advance(1);
    }
    return Ok((names, types));
  }

  /** `_read_first_offset` on the cursor. */
  method ReadFirstOffset(buf: BufferReader) returns (r: Result<nat, Error>)
    requires buf.Valid()
    modifies buf
    ensures Agrees(r, FirstOffsetAt(buf.data, old(buf.off)), buf.off)
  {
    if buf.NLeft() <= 0 {
      return Err(OffsetReadFailed);
    }
    var b := buf.Peek();
    if b.None? {
      return Err(IndexOutOfRange);
    }
    if b.value == 0 {
      return Err(OffsetReadFailed);
    }
    var bytes := buf.Read(8);
    if |bytes| != 8 {
      return Err(TruncatedStruct);
    }
    return Ok(LeU64(bytes));
  }

  /** Offsets of `os` before those of the remaining table `rest`. */
  function PrependOffsets(os: seq<nat>, rest: Result<(seq<nat>, int), Error>): Result<(seq<nat>, int), Error>
  {
    match rest
    case Ok(v) => Ok((os + v.0, v.1))
    case Err(e) => Err(e)
  }

  lemma PrependOffsetsNil(rest: Result<(seq<nat>, int), Error>)
    ensures PrependOffsets([], rest) == rest
  {
    if rest.Ok? {
      assert [] + rest.value.0 == rest.value.0;
    }
  }

  lemma PrependOffsetsTwice(os: seq<nat>, os': seq<nat>, rest: Result<(seq<nat>, int), Error>)
    ensures PrependOffsets(os, PrependOffsets(os', rest)) == PrependOffsets(os + os', rest)
  {
    if rest.Ok? {
      assert os + (os' + rest.value.0) == (os + os') + rest.value.0;
    }
  }

  /** One turn of the offset-table loop, given the eight bytes the cursor returns. */
  lemma OffsetsFromStep(data: seq<Byte>, off: nat, next: nat, bytes: seq<Byte>)
    requires |data| - off - 1 > 0 && data[off] != 0
    requires next == off + 8 && bytes == Slice(data, off, next)
    ensures |bytes| != 8 ==> OffsetsFrom(data, off) == Err(TruncatedStruct)
    ensures |bytes| == 8 ==> OffsetsFrom(data, off) == PrependOffsets([LeU64(bytes)], OffsetsFrom(data, next))
  {
  }

  /** The loop stops before the last byte and at a zero byte, which it then skips. */
  lemma OffsetsFromStop(data: seq<Byte>, off: nat, os: seq<nat>)
    requires |data| - off - 1 <= 0 || data[off] == 0
    ensures PrependOffsets(os, OffsetsFrom(data, off)) == Ok((os, if |data| - off - 1 > 0 then off + 1 else off))
  {
    assert os + [] == os;
  }

  /** An offset table as written: each offset as `<Q`, without the terminating zero. */
  function EncodeOffsets(os: seq<nat>): (b: seq<Byte>)
    requires forall i :: 0 <= i < |os| ==> os[i] < TWO_64
    ensures |b| == 8 * |os|
  {
    if os == [] then [] else U64Bytes(os[0]) + EncodeOffsets(os[1..])
  }

  /**
   * 64-bit offsets whose low byte is not zero, encoded and followed by a zero, read back as themselves;
   * the zero is skipped unless it is the last byte. The loop takes a zero byte for the end of the table,
   * so an offset that is a multiple of 256 would end it early.
   */
  lemma {:induction false} OffsetsFromEncoded(data: seq<Byte>, off: nat, fin: int, os: seq<nat>, rest: seq<Byte>)
    requires forall i :: 0 <= i < |os| ==> os[i] < TWO_64 && os[i] % 256 != 0
    requires fin == off + 8 * |os| + (if rest == [] then 0 else 1)
    requires off <= |data| && data[off..] == EncodeOffsets(os) + [0] + rest
    ensures OffsetsFrom(data, off) == Ok((os, fin))
    decreases |os|
  {
    if os == [] {
      assert data[off..] == [0] + rest;
      assert data[off] == 0;
    } else {
      var next := off + 8;
      OffsetsTail(data, off, next, os, rest);
      OffsetsFromEncoded(data, next, fin, os[1..], rest);
      OffsetsFromStep(data, off, next, Slice(data, off, next));
      LeU64OfU64Bytes(os[0]);
      assert [os[0]] + os[1..] == os;
    }
  }

  /** A table of offsets splits into its first eight bytes, which hold the first offset, and the rest. */
  lemma OffsetsTail(data: seq<Byte>, off: nat, next: int, os: seq<nat>, rest: seq<Byte>)
    requires os != [] && forall i :: 0 <= i < |os| ==> os[i] < TWO_64 && os[i] % 256 != 0
    requires next == off + 8
    requires off <= |data| && data[off..] == EncodeOffsets(os) + [0] + rest
    ensures |data| - off - 1 > 0 && data[off] != 0 && Slice(data, off, next) == U64Bytes(os[0])
    ensures next <= |data| && data[next..] == EncodeOffsets(os[1..]) + [0] + rest
    ensures forall i :: 0 <= i < |os[1..]| ==> os[1..][i] < TWO_64 && os[1..][i] % 256 != 0
  {
    Regroup(U64Bytes(os[0]), EncodeOffsets(os[1..]), [0], rest);
    SliceAt(data, off, next, U64Bytes(os[0]), EncodeOffsets(os[1..]) + [0] + rest);
    U64BytesLow(os[0]);
    assert data[off] == data[off..][0];
  }

  /** `_read_offsets` on the cursor (the reader itself never calls it). */
  method ReadOffsets(buf: BufferReader) returns (r: Result<seq<nat>, Error>)
    requires buf.Valid() && buf.off >= 0
    modifies buf
    ensures Agrees(r, OffsetsFrom(buf.data, old(buf.off)), buf.off)
  {
    var offsets: seq<nat> := [];
    ghost var start: nat := buf.off;
    PrependOffsetsNil(OffsetsFrom(buf.data, start));
    while buf.NLeft() > 0 && buf.Peek() != Some(0)
      invariant buf.Valid() && buf.off >= start
      invariant OffsetsFrom(buf.data, start) == PrependOffsets(offsets, OffsetsFrom(buf.data, buf.off))
      decreases buf.len - buf.off
    {
      ghost var here: nat := buf.off;
      var bytes := buf.Read(8);
      OffsetsFromStep(buf.data, here, here + 8, bytes);
      if |bytes| != 8 {
        return Err(TruncatedStruct);
      }
      PrependOffsetsTwice(offsets, [LeU64(bytes)], OffsetsFrom(buf.data, buf.off));
      offsets := offsets + [LeU64(bytes)];
    }
    OffsetsFromStop(buf.data, buf.off, offsets);
    if buf.NLeft() > 0 {
      buf.Advance(1);
    }
    return Ok(offsets);
  }
}
