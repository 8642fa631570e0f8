/**
 * `MinExrReader` (minexr/reader.py): opening reads the header from the first 10000 bytes of the file,
 * then reads the scan-line blocks from the first line offset on as one (H, C, W) strided image.
 */
module Reader {
  import opened Bytes
  import opened Wrappers
  import opened Errors
  import opened Buffer
  import opened Layout
  import opened Header
  import ChannelSelect

  /** `fp.read(10000)` bounds the bytes the header is parsed from. */
  const HEADER_CAP: nat := 10000

  /** The header region: the file's first `HEADER_CAP` bytes, or all of a shorter file. */
  function HeaderBytes(file: seq<Byte>): (h: seq<Byte>)
    ensures |h| == Min(|file|, HEADER_CAP) && h == file[..|h|]
  {
    file[..Min(|file|, HEADER_CAP)]
  }

  /**
   * `np.frombuffer(buf, dtype, count=-1, offset=8)` on `n` bytes accepts the buffer when the offset
   * fits and what follows it is a whole number of elements; it never looks at the shape it will serve.
   */
  predicate FromBufferAccepts(n: nat, ds: nat)
    requires ds > 0
  {
    8 <= n && (n - 8) % ds == 0
  }

  /**
   * `_read_image` exactly as written: a negative height or width is a ValueError (from `np.empty` or
   * `as_strided`); nothing is read for an empty shape; otherwise `nbytes` bytes
   * from the first offset, which may be fewer when the file ends early, pass the frombuffer check
   * and become the strided image.
   */
  function ImageAsWritten(shape: Shape, types: seq<PixelType>, first: nat, file: seq<Byte>): (r: Result<Option<Image>, Error>)
  {
    if shape.h < 0 || shape.w < 0 then Err(NegativeDimensions)
    else if shape.h * shape.c * shape.w == 0 then Ok(None)
    else if types == [] then Err(IndexOutOfRange)
    else
      var l := Layout(shape.h, shape.c, shape.w, ByteSize(types[0]));
      var body := Slice(file, first, first + NBytes(l));
      if !FromBufferAccepts(|body|, l.ds) then Err(TruncatedImage) else Ok(Some(Image(l, body)))
  }

  /** `_read_image` as intended: the scan-line blocks must all be present, exactly `nbytes` bytes. */
  function ImageSpec(shape: Shape, types: seq<PixelType>, first: nat, file: seq<Byte>): (r: Result<Option<Image>, Error>)
  {
    if shape.h < 0 || shape.w < 0 then Err(NegativeDimensions)
    else if shape.h * shape.c * shape.w == 0 then Ok(None)
    else if types == [] then Err(IndexOutOfRange)
    else
      var l := Layout(shape.h, shape.c, shape.w, ByteSize(types[0]));
      var body := Slice(file, first, first + NBytes(l));
      if |body| != NBytes(l) then Err(TruncatedImage) else Ok(Some(Image(l, body)))
  }

  /**
   * An image read as intended has the header's shape and the first channel's element size, is
   * exactly the `nbytes` bytes at the first offset, and holds every element the strides address.
   */
  lemma ImageSpecWellFormed(shape: Shape, types: seq<PixelType>, first: nat, file: seq<Byte>)
    requires ImageSpec(shape, types, first, file).Ok? && ImageSpec(shape, types, first, file).value.Some?
    ensures var img := ImageSpec(shape, types, first, file).value.value;
      && WellFormed(img)
      && img.layout == Layout(shape.h, shape.c, shape.w, ByteSize(types[0]))
      && shape.h > 0 && shape.c > 0 && shape.w > 0
      && first + NBytes(img.layout) <= |file| && img.body == file[first..first + NBytes(img.layout)]
  {
    var l := Layout(shape.h, shape.c, shape.w, ByteSize(types[0]));
    SliceClamped(file, first, first + NBytes(l));
  }

  /**
   * No image is read exactly for a shape with a zero dimension and no negative one; a negative height
   * or width is an error whatever the other dimensions.
   */
  lemma ImageSpecNone(shape: Shape, types: seq<PixelType>, first: nat, file: seq<Byte>)
    ensures ImageSpec(shape, types, first, file) == Ok(None) <==>
      shape.h >= 0 && shape.w >= 0 && (shape.h == 0 || shape.c == 0 || shape.w == 0)
    ensures shape.h < 0 || shape.w < 0 ==> ImageSpec(shape, types, first, file) == Err(NegativeDimensions)
  {
    if shape.h > 0 && shape.c > 0 && shape.w > 0 {
      ProductPositive(shape.h, shape.c, shape.w);
    }
  }

  lemma ProductPositive(a: int, b: int, c: int)
    requires a > 0 && b > 0 && c > 0
    ensures a * b * c > 0
  {
    assert a * b > 0;
  }

  /** The frombuffer check passes on every complete image: `nbytes - 8` is a whole number of elements. */
  lemma CompleteBodyAccepted(l: Layout)
    requires l.h > 0 && (l.ds == 2 || l.ds == 4)
    ensures FromBufferAccepts(NBytes(l), l.ds)
  {
    ScanLinesMultiple(l.ds, l.w, l.c, l.h);
  }

  /** `h` scan lines of `8 + ds * w * c` bytes, less the 8 bytes skipped, are whole elements of `ds` bytes. */
  lemma ScanLinesMultiple(ds: nat, w: nat, c: nat, h: nat)
    requires h > 0 && (ds == 2 || ds == 4)
    ensures (8 + ds * w * c) * h >= 8
    ensures ((8 + ds * w * c) * h - 8) % ds == 0
  {
    var e := ds * w * c;
    ProductNonNegative(w, c);
    ProductNonNegative(w * c, h);
    var m := w * c * h;
    ProductSum(8, e, h);
    ProductAssoc(ds, w, c, h);
    ProductNonNegative(ds, m);
    var q := (if ds == 2 then 4 else 2) * (h - 1) + m;
    assert (8 + e) * h - 8 == ds * q by {
      if ds == 2 {
        assert 8 * h - 8 + 2 * m == 2 * q;
      } else {
        assert 8 * h - 8 + 4 * m == 4 * q;
      }
    }
    MultipleOfSize((8 + e) * h - 8, ds, q);
  }

  lemma ProductAssoc(a: int, b: int, c: int, d: int)
    ensures a * b * c * d == a * (b * c * d)
  {
  }

  lemma MultipleOfSize(n: int, d: int, q: int)
    requires (d == 2 || d == 4) && n == d * q
    ensures n % d == 0
  {
    if d == 2 {
      assert n == 2 * q;
    } else {
      assert n == 4 * q;
    }
  }

  /** Wherever the intended reading succeeds, the written one returns the same image. */
  lemma ImageAsWrittenAgrees(shape: Shape, types: seq<PixelType>, first: nat, file: seq<Byte>)
    requires ImageSpec(shape, types, first, file).Ok?
    ensures ImageAsWritten(shape, types, first, file) == ImageSpec(shape, types, first, file)
  {
    if ImageSpec(shape, types, first, file).value.Some? {
      ImageSpecWellFormed(shape, types, first, file);
      CompleteBodyAccepted(ImageSpec(shape, types, first, file).value.value.layout);
    }
  }

  /**
   * A file cut short after one of two 12-byte scan lines (H = 2, C = 1, W = 1, FLOAT): the 12 bytes
   * read pass the frombuffer check, so the written reader returns a (2, 1, 1) image whose second
   * element lies at bytes 20..24, past the end of the 12 bytes it has.
   */
  lemma TruncatedBodyAccepted()
    ensures var file := seq(12, i => 0);
      var r := ImageAsWritten(Shape(2, 1, 1), [FLOAT], 0, file);
      && r.Ok? && r.value.Some?
      && |r.value.value.body| == 12 < NBytes(r.value.value.layout) == 24
      && !WellFormed(r.value.value)
      && Off(r.value.value.layout, 1, 0, 0) + r.value.value.layout.ds == 24
      && ImageSpec(Shape(2, 1, 1), [FLOAT], 0, file) == Err(TruncatedImage)
  {
    var file: seq<Byte> := seq(12, i => 0);
    var l := Layout(2, 1, 1, 4);
    assert NBytes(l) == 24;
    SliceClamped(file, 0, 24);
    assert Slice(file, 0, 24) == file;
  }

  /** Opening a file: the header from its header region, then the image from its first line offset. */
  function Open(file: seq<Byte>): Result<(Header, Option<Image>), Error>
  {
    var hd :- HeaderSpec(HeaderBytes(file));
    var img :- ImageSpec(hd.shape, hd.channelTypes, hd.firstOffset, file);
    Ok((hd, img))
  }

  /**
   * An opened file's image, when there is one, has the header's (H, C, W) and the channel map points
   * into its channel axis, so `select` may use them together; with unique channel names the map
   * inverts the channel list.
   */
  lemma OpenConsistent(file: seq<Byte>)
    requires Open(file).Ok?
    ensures var (hd, img) := Open(file).value;
      && hd.shape.c == |hd.channelNames| == |hd.channelTypes|
      && (forall n :: n in hd.channelMap ==> hd.channelMap[n] < hd.shape.c)
      && (img.Some? ==>
            && WellFormed(img.value) && img.value.layout.h == hd.shape.h
            && img.value.layout.c == hd.shape.c && img.value.layout.w == hd.shape.w)
      && ((forall i, j :: 0 <= i < j < |hd.channelNames| ==> hd.channelNames[i] != hd.channelNames[j]) ==>
            forall i :: 0 <= i < |hd.channelNames| ==>
              hd.channelNames[i] in hd.channelMap && hd.channelMap[hd.channelNames[i]] == i)
  {
    var h := HeaderBytes(file);
    var hd := HeaderSpec(h).value;
    var img := ImageSpec(hd.shape, hd.channelTypes, hd.firstOffset, file).value;
    assert Open(file) == Ok((hd, img));
    HeaderChannelMap(h);
    if img.Some? {
      ImageSpecWellFormed(hd.shape, hd.channelTypes, hd.firstOffset, file);
    }
  }

  /** An accepted header's channel map points into its channel axis and, with unique names, inverts the channel list. */
  lemma HeaderChannelMap(h: seq<Byte>)
    requires HeaderSpec(h).Ok?
    ensures var hd := HeaderSpec(h).value;
      && hd.shape.c == |hd.channelNames| == |hd.channelTypes|
      && (forall n :: n in hd.channelMap ==> hd.channelMap[n] < hd.shape.c)
      && ((forall i, j :: 0 <= i < j < |hd.channelNames| ==> hd.channelNames[i] != hd.channelNames[j]) ==>
            forall i :: 0 <= i < |hd.channelNames| ==>
              hd.channelNames[i] in hd.channelMap && hd.channelMap[hd.channelNames[i]] == i)
  {
    HeaderAccepted(h);
    HeaderBodyAccepted(h, h[4]);
    var hd := HeaderSpec(h).value;
    ChannelMapLastIndex(hd.channelNames);
    if forall i, j :: 0 <= i < j < |hd.channelNames| ==> hd.channelNames[i] != hd.channelNames[j] {
      ChannelMapInverts(hd.channelNames);
    }
  }

  /** The state of `MinExrReader`: what `_read_header` and `_read_image` store on it. */
  class MinExrReader {
    var image: Option<Image>
    var shape: Option<Shape>
    var attrs: map<Name, Attr>
    var compr: Byte
    var channelNames: seq<Name>
    var channelTypes: seq<PixelType>
    var channelMap: map<Name, nat>
    var firstOffset: nat

    /** The reader's fields hold the parsed header `hd`. */
    ghost predicate HoldsHeader(hd: Header)
      reads this
    {
      && shape == Some(hd.shape) && attrs == hd.attrs && compr == hd.compr
      && channelNames == hd.channelNames && channelTypes == hd.channelTypes
      && channelMap == hd.channelMap && firstOffset == hd.firstOffset
    }

    /** `__init__` before its two reads: no image and no shape yet. */
    constructor ()
      ensures image == None && shape == None
    {
      image := None;
      shape := None;
      attrs := map[];
      compr := 0;
      channelNames := [];
      channelTypes := [];
      channelMap := map[];
      firstOffset := 0;
    }

    /** `o` reports the outcome `spec` of reading the header: its error, or success with its fields stored. */
    ghost predicate Reports(o: Outcome<Error>, spec: Result<Header, Error>)
      reads this
    {
      match spec
      case Err(e) => o == Fail(e)
      case Ok(hd) => o == Pass && HoldsHeader(hd)
    }

    /** `_read_header`: parse the header region and store what it yields; the image is left alone. */
    method ReadHeader(file: seq<Byte>) returns (o: Outcome<Error>)
      modifies this
      ensures Reports(o, HeaderSpec(HeaderBytes(file)))
      ensures image == old(image)
    {
      var h := HeaderBytes(file);
      var buf := new BufferReader(h);
      var prolog := buf.Read(8);
      PrologRejected(h);
      if |prolog| != 8 {
        return Fail(TruncatedStruct);
      }
      assert prolog == h[..8] && prolog[..4] == h[..4];
      if LeI32(prolog[..4]) != MAGIC {
        return Fail(NotOpenExr);
      }
      if prolog[5] != 0 && prolog[5] != 4 {
        return Fail(NotSinglePartScanLine);
      }
      if prolog[6] != 0 || prolog[7] != 0 {
        return Fail(NonZeroFlags);
      }
      PrologStage(h);
      AttrsStage(h, prolog[4]);
      var table := ReadHeaderAttrs(buf);
      if table.Err? {
        return Fail(table.error);
      }
      attrs := table.value;
      o := ParseAttrs(prolog[4], buf);
    }

    /**
     * The rest of `_read_header` once `attrs` is stored: compression, channels, channel map, data
     * window and shape, then the first line offset from the cursor and the two final assertions.
     */
    method ParseAttrs(version: Byte, buf: BufferReader) returns (o: Outcome<Error>)
      requires buf.Valid()
      modifies this, buf
      ensures Reports(o, HeaderAfterAttrs(buf.data, version, old(attrs), old(buf.off)))
      ensures image == old(image)
    {
      FieldsStage(buf.data, version, attrs, buf.off);
      var c := Compression(attrs);
      if c.Err? {
        return Fail(c.error);
      }
      compr := c.value;
      o := ParseGeometry(version, buf);
    }

    /** The rest of the fields once the compression is known: the channel list, then the data window. */
    method ParseGeometry(version: Byte, buf: BufferReader) returns (o: Outcome<Error>)
      requires buf.Valid() && Compression(attrs) == Ok(compr)
      modifies this, buf
      ensures Reports(o, HeaderAfterAttrs(buf.data, version, old(attrs), old(buf.off)))
      ensures image == old(image)
    {
      FieldsStage(buf.data, version, attrs, buf.off);
      var channels := ParseChannels(attrs);
      if channels.Err? {
        return Fail(channels.error);
      }
      channelNames, channelTypes := channels.value.0, channels.value.1;
      channelMap := ChannelMap(channelNames);
      o := ParseWindow(version, buf);
    }

    /** The data window once the channels are known, then the end of the header. */
    method ParseWindow(version: Byte, buf: BufferReader) returns (o: Outcome<Error>)
      requires buf.Valid() && Compression(attrs) == Ok(compr)
      requires Channels(attrs) == Ok((channelNames, channelTypes)) && channelMap == ChannelMap(channelNames)
      modifies this, buf
      ensures Reports(o, HeaderAfterAttrs(buf.data, version, old(attrs), old(buf.off)))
      ensures image == old(image)
    {
      FieldsStage(buf.data, version, attrs, buf.off);
      var window := DataWindow(attrs);
      if window.Err? {
        return Fail(window.error);
      }
      shape := Some(Shape(window.value.0, |channelNames|, window.value.1));
      o := FinishHeader(version, buf);
    }

    /** The end of `_read_header`: the first line offset from the cursor, then the two final assertions. */
    method FinishHeader(version: Byte, buf: BufferReader) returns (o: Outcome<Error>)
      requires buf.Valid() && shape.Some? && channelMap == ChannelMap(channelNames)
      modifies this, buf
      ensures Reports(o, HeaderAfterWindow(buf.data, version, old(attrs), old(buf.off), old(compr),
                                           old(channelNames), old(channelTypes), old(shape.value)))
      ensures image == old(image)
    {
      FinalStage(buf.data, version, attrs, buf.off, compr, channelNames, channelTypes, shape.value);
      var first := ReadFirstOffset(buf);
      if first.Err? {
        return Fail(first.error);
      }
      firstOffset := first.value;
      if compr != 0 {
        return Fail(CompressionNotSupported);
      }
      if |SetOf(channelTypes)| > 1 {
        return Fail(MixedChannelTypes);
      }
      return Pass;
    }

    /**
     * `_read_image`: a negative height or width is an error; nothing is read for an empty shape and
     * the image stays as it was; otherwise
     * the scan-line bytes at the first offset become the image. Only the image changes.
     */
    method ReadImage(file: seq<Byte>) returns (o: Outcome<Error>)
      requires shape.Some?
      modifies this
      ensures shape == old(shape) && attrs == old(attrs) && compr == old(compr)
      ensures channelNames == old(channelNames) && channelTypes == old(channelTypes)
      ensures channelMap == old(channelMap) && firstOffset == old(firstOffset)
      ensures var spec := ImageSpec(shape.value, channelTypes, firstOffset, file);
        && (spec.Err? ==> o == Fail(spec.error))
        && (spec.Ok? ==> o == Pass && image == (if spec.value.None? then old(image) else spec.value))
    {
      var s := shape.value;
      if s.h < 0 || s.w < 0 {
        return Fail(NegativeDimensions);
      }
      if s.h * s.c * s.w == 0 {
        return Pass;
      }
      if channelTypes == [] {
        return Fail(IndexOutOfRange);
      }
      var ds := ByteSize(channelTypes[0]);
      var soff := 8 + ds * s.w * s.c;
      var nbytes := soff * s.h;
      var l := Layout(s.h, s.c, s.w, ds);
      assert soff == Soff(l) && nbytes == NBytes(l);
      var body := Slice(file, firstOffset, firstOffset + nbytes);
      if |body| != nbytes {
        return Fail(TruncatedImage);
      }
      image := Some(Image(l, body));
      return Pass;
    }
  }

  /** `MinExrReader(fp)`: a new reader, its header read, then its image; any failure is raised. */
  method Load(file: seq<Byte>) returns (r: Result<MinExrReader, Error>)
    ensures Open(file).Err? ==> r == Err(Open(file).error)
    ensures Open(file).Ok? ==>
      && r.Ok? && fresh(r.value)
      && r.value.HoldsHeader(Open(file).value.0) && r.value.image == Open(file).value.1
  {
    var reader := new MinExrReader();
    var o := reader.ReadHeader(file);
    if o.Fail? {
      return Err(o.error);
    }
    o := reader.ReadImage(file);
    if o.Fail? {
      return Err(o.error);
    }
    return Ok(reader);
  }

  /**
   * `select` on an opened file: output channel k is image channel `channel_map[names[k]]`, in
   * (H, W, k) order or (H, k, W) order, unless a name is unknown, the only channel repeats, or the
   * image is empty and so was never read.
   */
  lemma OpenedSelect(file: seq<Byte>, names: seq<Name>, channelsLast: bool)
    requires Open(file).Ok?
    ensures var (hd, img) := Open(file).value;
      var ids := ChannelSelect.Lookup(hd.channelMap, names);
      && (img.Some? ==> WellFormed(img.value))
      && (img.None? ==> ChannelSelect.Select(hd.channelMap, img, names, channelsLast).Err?)
      && (img.Some? && ids.Ok? && !ChannelSelect.ZeroStep(ids.value) ==>
            var sel := ChannelSelect.Select(hd.channelMap, img, names, channelsLast);
            && sel.Ok? && sel.value.channels == ids.value
            && sel.value.shape == (if channelsLast then (hd.shape.h, hd.shape.w, |names|)
                                   else (hd.shape.h, |names|, hd.shape.w)))
  {
    var (hd, img) := Open(file).value;
    OpenConsistent(file);
    ChannelSelect.SelectWithoutImage(hd.channelMap, names, channelsLast);
    if img.Some? {
      ChannelSelect.SelectChannels(hd.channelMap, img.value, names, channelsLast);
    }
  }
}
