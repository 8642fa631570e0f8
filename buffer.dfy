/** The byte cursor of minexr/buffer.py and the Python sequence semantics it relies on. */
module Buffer {
  import opened Bytes
  import opened Wrappers

  /** Python's normalisation of a slice bound `i` (step 1) for a sequence of length `n`. */
  function SliceBound(i: int, n: nat): (k: nat)
    ensures k <= n
  {
    if i < 0 then (if i + n < 0 then 0 else i + n)
    else if i > n then n else i
  }

  /** Python's `data[a:b]`: never fails, clamps both bounds, negative bounds count from the end. */
  function Slice(data: seq<Byte>, a: int, b: int): (s: seq<Byte>)
    ensures |s| <= |data|
  {
    var i, j := SliceBound(a, |data|), SliceBound(b, |data|);
    if i < j then data[i..j] else []
  }

  /** From a non-negative start, a slice is the part of `data[a..b]` that exists, possibly shorter, possibly empty. */
  lemma SliceClamped(data: seq<Byte>, a: int, b: int)
    requires 0 <= a
    ensures a <= b ==> Slice(data, a, b) == data[Min(a, |data|)..Min(b, |data|)]
    ensures a <= b ==> |Slice(data, a, b)| <= b - a
    ensures a <= b <= |data| ==> |Slice(data, a, b)| == b - a
    ensures 0 <= b <= a ==> Slice(data, a, b) == []
  {
  }

  /** A slice from a non-negative start has at most `b - a` bytes. */
  lemma SliceAtMost(data: seq<Byte>, a: int, b: int)
    ensures 0 <= a <= b ==> |Slice(data, a, b)| <= b - a
  {
  }

  /** Python's `data[off:]`. */
  function Tail(data: seq<Byte>, off: int): (s: seq<Byte>)
    ensures 0 <= off <= |data| ==> s == data[off..]
    ensures off >= |data| ==> s == []
  {
    Slice(data, off, |data|)
  }

  /** Python's `data[i]`: defined for -|data| <= i < |data|, otherwise an IndexError. */
  function Index(data: seq<Byte>, i: int): (r: Option<Byte>)
    ensures r.Some? <==> -|data| <= i < |data|
    ensures 0 <= i < |data| ==> r == Some(data[i])
    ensures -|data| <= i < 0 ==> r == Some(data[|data| + i])
  {
    if 0 <= i < |data| then Some(data[i])
    else if -|data| <= i < 0 then Some(data[|data| + i])
    else None
  }

  /** A tail that starts at a valid index starts with the byte at that index. */
  lemma TailStartsAtIndex(data: seq<Byte>, off: int)
    requires Index(data, off).Some?
    ensures |Tail(data, off)| >= 1 && Tail(data, off)[0] == Index(data, off).value
  {
  }

  /** The value of a C string buffer holding `s`: the bytes before the first zero, or all of `s`. */
  function CString(s: seq<Byte>): (r: seq<Byte>)
    ensures |r| <= |s|
  {
    if s == [] || s[0] == 0 then [] else [s[0]] + CString(s[1..])
  }

  /** The offset just past the string `s` and the zero that ends it, when `s` starts at `off`. */
  function PastString(off: int, s: seq<Byte>): int
  {
    off + |s| + 1
  }

  /** The C string is a zero-free prefix of `s`, ended by a zero byte or by the end of `s`. */
  lemma {:induction false} CStringPrefix(s: seq<Byte>)
    ensures CString(s) == s[..|CString(s)|]
    ensures forall i :: 0 <= i < |CString(s)| ==> CString(s)[i] != 0
    ensures |CString(s)| < |s| ==> s[|CString(s)|] == 0
  {
    if s != [] && s[0] != 0 {
      CStringPrefix(s[1..]);
      assert s == [s[0]] + s[1..];
    }
  }

  /** The C string is the longest zero-free prefix: any zero-free prefix ended by a zero or by the end is it. */
  lemma {:induction false} CStringUnique(s: seq<Byte>, k: nat)
    requires k <= |s|
    requires forall i :: 0 <= i < k ==> s[i] != 0
    requires k == |s| || s[k] == 0
    ensures CString(s) == s[..k]
  {
    if k > 0 {
      CStringUnique(s[1..], k - 1);
      assert s[..k] == [s[0]] + s[1..][..k - 1];
    }
  }

  /** A C string followed by its terminator reads back as itself. */
  lemma CStringOfTerminated(name: seq<Byte>, rest: seq<Byte>)
    requires forall i :: 0 <= i < |name| ==> name[i] != 0
    ensures CString(name + [0] + rest) == name
  {
    var s := name + [0] + rest;
    assert s[..|name|] == name;
    CStringUnique(s, |name|);
  }

  /** A zero-free string and its terminator at `off` read back as that C string; what follows starts at `hi`, after the zero. */
  lemma CStringAt(data: seq<Byte>, off: int, hi: int, s: seq<Byte>, rest: seq<Byte>)
    requires 0 <= off <= |data| && hi == off + |s| + 1 && forall i :: 0 <= i < |s| ==> s[i] != 0
    requires data[off..] == s + [0] + rest
    ensures CString(Tail(data, off)) == s
    ensures hi <= |data| && data[hi..] == rest
  {
    CStringOfTerminated(s, rest);
    assert data[hi..] == data[off..][|s| + 1..];
  }

  /** Bytes `p` at `off` are what the slice up to `hi` returns; what follows starts at `hi`. */
  lemma SliceAt(data: seq<Byte>, off: int, hi: int, p: seq<Byte>, rest: seq<Byte>)
    requires 0 <= off <= |data| && hi == off + |p|
    requires data[off..] == p + rest
    ensures Slice(data, off, hi) == p
    ensures hi <= |data| && data[hi..] == rest
  {
    SliceClamped(data, off, hi);
    assert data[off..hi] == data[off..][..|p|];
    assert data[hi..] == data[off..][|p|..];
  }

  /**
   * What `read_null_string` returns at an offset inside the data: the bytes from the offset up to,
   * not including, the first zero byte, or the whole remainder when there is none; the new offset
   * `off + |s| + 1` is then just past the terminator.
   */
  lemma NullStringAt(data: seq<Byte>, off: nat)
    requires off <= |data|
    ensures var s := CString(Tail(data, off));
      && off + |s| <= |data| && s == data[off..off + |s|]
      && (forall i :: 0 <= i < |s| ==> s[i] != 0)
      && (off + |s| < |data| ==> data[off + |s|] == 0)
  {
    var s := CString(Tail(data, off));
    assert Tail(data, off) == data[off..];
    CStringPrefix(data[off..]);
    assert data[off..][..|s|] == data[off..off + |s|];
  }

  /** minexr/buffer.py `BufferReader`: a byte sequence, its length and an offset that may leave it. */
  class BufferReader {
    const data: seq<Byte>
    const len: nat
    var off: int

    ghost predicate Valid() { len == |data| }

    constructor (data: seq<Byte>)
      ensures Valid()
      ensures this.data == data && len == |data| && off == 0
    {
      this.data := data;
      this.len := |data|;
      this.off := 0;
    }

    /** The next `n` bytes, fewer if the data ends first; the offset always moves by `n`. */
    method Read(n: int) returns (v: seq<Byte>)
      requires Valid()
      modifies this
      ensures v == Slice(data, old(off), old(off) + n)
      ensures 0 <= old(off) && 0 <= n ==> v == data[Min(old(off), len)..Min(old(off) + n, len)]
      ensures off == old(off) + n
    {
      if 0 <= off {
        SliceClamped(data, off, off + n);
      }
      v := Slice(data, off, off + n);
      off := off + n;
    }

    /** The bytes up to the next zero byte (or to the end); the offset moves past them and one more byte. */
    method ReadNullString() returns (s: seq<Byte>)
      requires Valid()
      modifies this
      ensures s == CString(Tail(data, old(off)))
      ensures off == old(off) + |s| + 1
    {
      s := CString(Tail(data, off));
      off := off + |s| + 1;
    }

    /** The byte at the offset, which does not move; an IndexError past either end. */
    function Peek(): (r: Option<Byte>)
      reads this
      requires Valid()
      ensures 0 <= off < len ==> r == Some(data[off])
      ensures r.None? <==> off >= len || off + len < 0
    {
      Index(data, off)
    }

    method Advance(n: int)
      modifies this
      ensures off == old(off) + n
    {
      off := off + n;
    }

    /** One less than the number of bytes that remain, so a loop guarded by `NLeft() > 0` stops with one byte unread. */
    function NLeft(): (r: int)
      reads this
      requires Valid()
      ensures 0 <= off <= len ==> r == |data[off..]| - 1
      ensures off >= 0 ==> (r > 0 <==> off + 1 < len)
    {
      len - off - 1
    }
  }
}
