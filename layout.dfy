/**
 * The strided (rows x channels x columns) view over the scan-line bytes (minexr/reader.py `_read_image`).
 * Scan line h of the body is an 8-byte prolog (y coordinate, data size) followed by the C*W elements of
 * that line, channel after channel; the view reads element (h, c, w) directly from those bytes.
 */
module Layout {
  import opened Bytes

  /** The image shape in (H, C, W) order, as the header gives it (H and W may be any integers). */
  datatype Shape = Shape(h: int, c: nat, w: int)

  /** A non-empty image of `h` scan lines, `c` channels and `w` columns whose elements are `ds` bytes wide. */
  datatype Layout = Layout(h: nat, c: nat, w: nat, ds: nat)

  /** SOFF: the byte length of one scan line, its 8-byte prolog included. */
  function Soff(l: Layout): nat { 8 + l.ds * l.w * l.c }

  /** The strides of the view: to the next row, channel and column. */
  function Strides(l: Layout): (nat, nat, nat) { (Soff(l), l.ds * l.w, l.ds) }

  /** Bytes read from the first scan-line offset on. */
  function NBytes(l: Layout): nat { Soff(l) * l.h }

  /** The byte offset of element (h, c, w): the initial offset 8 plus index times stride on each axis. */
  function Off(l: Layout, h: nat, c: nat, w: nat): nat
  {
    var (sh, sc, sw) := Strides(l);
    8 + h * sh + c * sc + w * sw
  }

  ghost predicate InRange(l: Layout, h: nat, c: nat, w: nat)
  {
    h < l.h && c < l.c && w < l.w
  }

  lemma MulLe(a: nat, b: nat, k: nat)
    requires a <= b
    ensures a * k <= b * k
  {
  }

  /** One more step of `k` still fits below `b * k`. */
  lemma MulStep(a: nat, b: nat, k: nat)
    requires a < b
    ensures a * k + k <= b * k
  {
    MulLe(a + 1, b, k);
  }

  lemma ProductNonNegative(a: nat, b: nat)
    ensures a * b >= 0
  {
  }

  lemma ProductSum(a: int, b: int, k: int)
    ensures (a + b) * k == a * k + b * k
  {
  }

  /** The offset of element (h, c, w) with the strides written out. */
  lemma OffExpanded(l: Layout, h: nat, c: nat, w: nat)
    ensures Off(l, h, c, w) == 8 + h * Soff(l) + c * (l.ds * l.w) + w * l.ds
  {
  }

  /** Element (h, c, w) lies in the pixel data of scan line h: after its prolog and before the next line. */
  lemma ElementInScanLine(l: Layout, h: nat, c: nat, w: nat)
    requires InRange(l, h, c, w)
    ensures h * Soff(l) + 8 <= Off(l, h, c, w)
    ensures Off(l, h, c, w) + l.ds <= (h + 1) * Soff(l)
  {
    var dsw := l.ds * l.w;
    OffExpanded(l, h, c, w);
    MulStep(w, l.w, l.ds);
    MulStep(c, l.c, dsw);
    ProductNonNegative(c, dsw);
    ProductNonNegative(w, l.ds);
    ProductSum(h, 1, Soff(l));
    assert l.w * l.ds == dsw;
    assert l.c * dsw == l.ds * l.w * l.c;
  }

  /** Every in-range element lies within the `NBytes` bytes that are read. */
  lemma ElementInBounds(l: Layout, h: nat, c: nat, w: nat)
    requires InRange(l, h, c, w)
    ensures 8 <= Off(l, h, c, w)
    ensures Off(l, h, c, w) + l.ds <= NBytes(l)
  {
    ElementInScanLine(l, h, c, w);
    MulLe(h + 1, l.h, Soff(l));
    assert l.h * Soff(l) == NBytes(l);
  }

  /** The last element ends exactly where the read ends. */
  lemma LastElementEndsAtNBytes(l: Layout)
    requires l.h > 0 && l.c > 0 && l.w > 0
    ensures Off(l, l.h - 1, l.c - 1, l.w - 1) + l.ds == NBytes(l)
  {
    var dsw := l.ds * l.w;
    assert (l.w - 1) * l.ds + l.ds == dsw;
    assert (l.c - 1) * dsw + dsw == dsw * l.c;
    assert (l.h - 1) * Soff(l) + Soff(l) == Soff(l) * l.h;
  }

  /** An element before another in (h, c, w) order ends no later than the other begins. */
  lemma OrderedElementsDisjoint(l: Layout, h: nat, c: nat, w: nat, h': nat, c': nat, w': nat)
    requires InRange(l, h, c, w) && InRange(l, h', c', w')
    requires h < h' || (h == h' && c < c') || (h == h' && c == c' && w < w')
    ensures Off(l, h, c, w) + l.ds <= Off(l, h', c', w')
  {
    if h < h' {
      ElementInScanLine(l, h, c, w);
      ElementInScanLine(l, h', c', w');
      MulLe(h + 1, h', Soff(l));
    } else if c < c' {
      ChannelsDisjoint(l, h, c, w, c', w');
    } else {
      OffExpanded(l, h, c, w);
      OffExpanded(l, h', c', w');
      MulStep(w, w', l.ds);
    }
  }

  /** In one scan line, an element of an earlier channel ends before any element of a later channel. */
  lemma ChannelsDisjoint(l: Layout, h: nat, c: nat, w: nat, c': nat, w': nat)
    requires InRange(l, h, c, w) && InRange(l, h, c', w') && c < c'
    ensures Off(l, h, c, w) + l.ds <= Off(l, h, c', w')
  {
    var dsw := l.ds * l.w;
    MulStep(w, l.w, l.ds);
    MulStep(c, c', dsw);
    ProductNonNegative(w', l.ds);
    OffExpanded(l, h, c, w);
    OffExpanded(l, h, c', w');
    assert l.w * l.ds == dsw;
  }

  /** Distinct in-range elements occupy disjoint byte ranges: the view never aliases two elements. */
  lemma ElementsDisjoint(l: Layout, h: nat, c: nat, w: nat, h': nat, c': nat, w': nat)
    requires InRange(l, h, c, w) && InRange(l, h', c', w')
    requires (h, c, w) != (h', c', w')
    ensures Off(l, h, c, w) + l.ds <= Off(l, h', c', w') || Off(l, h', c', w') + l.ds <= Off(l, h, c, w)
  {
    if h < h' || (h == h' && c < c') || (h == h' && c == c' && w < w') {
      OrderedElementsDisjoint(l, h, c, w, h', c', w');
    } else {
      OrderedElementsDisjoint(l, h', c', w', h, c, w);
    }
  }

  /** The scan-line bytes of an image with a body of exactly `NBytes` bytes. */
  datatype Image = Image(layout: Layout, body: seq<Byte>)

  ghost predicate WellFormed(img: Image)
  {
    img.layout.ds > 0 && |img.body| == NBytes(img.layout)
  }

  /** The bytes of element (h, c, w) as the strided view exposes them. */
  function Element(img: Image, h: nat, c: nat, w: nat): (e: seq<Byte>)
    requires WellFormed(img) && InRange(img.layout, h, c, w)
    ensures |e| == img.layout.ds
  {
    ElementInBounds(img.layout, h, c, w);
    var o := Off(img.layout, h, c, w);
    img.body[o..o + img.layout.ds]
  }

  /** Scan line h of the body, as the file stores it: SOFF bytes starting at h * SOFF. */
  function ScanLine(img: Image, h: nat): (line: seq<Byte>)
    requires WellFormed(img) && h < img.layout.h
    ensures |line| == Soff(img.layout)
  {
    MulLe(h + 1, img.layout.h, Soff(img.layout));
    img.body[h * Soff(img.layout)..(h + 1) * Soff(img.layout)]
  }

  /**
   * The strided view reads the file's own layout: element (h, c, w) is element c*W + w of the pixel
   * data that follows the 8-byte prolog of scan line h, so no byte has to be copied or moved.
   */
  lemma PayloadIndex(l: Layout, c: nat, w: nat)
    ensures (c * l.w + w) * l.ds == c * (l.ds * l.w) + w * l.ds
  {
    calc {
      (c * l.w + w) * l.ds;
      c * l.w * l.ds + w * l.ds;
      c * (l.ds * l.w) + w * l.ds;
    }
  }

  /** Where element (c, w) starts within its scan line: after the prolog, element c*W + w of the pixel data. */
  function LineOffset(l: Layout, c: nat, w: nat): nat
  {
    8 + (c * l.w + w) * l.ds
  }

  lemma ElementIsScanLineElement(img: Image, h: nat, c: nat, w: nat)
    requires WellFormed(img) && InRange(img.layout, h, c, w)
    ensures var l := img.layout; var k := LineOffset(l, c, w);
      k + l.ds <= Soff(l) && Element(img, h, c, w) == ScanLine(img, h)[k..k + l.ds]
  {
    var l := img.layout;
    ElementInScanLine(l, h, c, w);
    PayloadIndex(l, c, w);
    OffExpanded(l, h, c, w);
    ProductSum(h, 1, Soff(l));
    MulLe(h + 1, l.h, Soff(l));
    var k := LineOffset(l, c, w);
    var start, end := h * Soff(l), (h + 1) * Soff(l);
    assert Off(l, h, c, w) == start + k;
    assert end == start + Soff(l) && end <= |img.body|;
    SliceOfSlice(img.body, start, end, k, k + l.ds);
  }

  lemma SliceOfSlice<T>(s: seq<T>, a: nat, b: nat, i: nat, j: nat)
    requires a <= b <= |s| && i <= j <= b - a
    ensures s[a..b][i..j] == s[a + i..a + j]
  {
    forall t | 0 <= t < j - i
      ensures s[a..b][i..j][t] == s[a + i..a + j][t]
    {
      assert s[a..b][i..j][t] == s[a..b][i + t] == s[a + i + t];
    }
  }
}
