/**
 * `MinExrReader.select` (minexr/reader.py): channel names to indices, the choice between a fresh
 * empty array, a view through one Python slice of the channel axis and a copy, and the optional
 * transpose to (H, W, C) order.
 */
module ChannelSelect {
  import opened Bytes
  import opened Wrappers
  import opened Errors
  import opened Layout
  import Header

  type Name = Header.Name

  /** Python's `slice(start, stop, step)`; `None` stands for an omitted part. */
  datatype PySlice = PySlice(start: Option<int>, stop: Option<int>, step: Option<int>)

  /** `slice.indices` for a positive step: a start or stop clamped into [0, n], `dflt` when omitted. */
  function BoundUp(i: Option<int>, n: nat, dflt: nat): (b: nat)
    requires dflt <= n
    ensures b <= n
    ensures i.Some? && 0 <= i.value ==> b == Min(i.value, n)
  {
    match i
    case None => dflt
    case Some(v) => if v < 0 then (if v + n < 0 then 0 else v + n) else if v > n then n else v
  }

  /** `slice.indices` for a negative step: a start or stop clamped into [-1, n - 1], `dflt` when omitted. */
  function BoundDown(i: Option<int>, n: nat, dflt: int): (b: int)
    requires -1 <= dflt <= n - 1
    ensures -1 <= b <= n - 1
    ensures i.Some? && 0 <= i.value < n ==> b == i.value
  {
    match i
    case None => dflt
    case Some(v) => if v < 0 then (if v + n < 0 then -1 else v + n) else if v >= n then n - 1 else v
  }

  /** `range(a, b, step)` for a positive step. */
  function RangeUp(a: nat, b: int, step: int): (r: seq<nat>)
    requires step > 0
    ensures forall k :: 0 <= k < |r| ==> a <= r[k] < b
    decreases b - a
  {
    if a >= b then [] else [a] + RangeUp(a + step, b, step)
  }

  /** `range(a, b, step)` for a negative step, which counts down to just above `b`. */
  function RangeDown(a: int, b: int, step: int): (r: seq<nat>)
    requires step < 0 && b >= -1
    ensures forall k :: 0 <= k < |r| ==> b < r[k] <= a
    decreases a - b
  {
    if a <= b then [] else [a] + RangeDown(a + step, b, step)
  }

  /** The indices a slice selects from an axis of length `n`; a zero step is a ValueError. */
  function SliceRange(s: PySlice, n: nat): (r: Result<seq<nat>, Error>)
    ensures r.Err? <==> s.step == Some(0)
    ensures r.Err? ==> r.error == ZeroSliceStep
    ensures r.Ok? ==> forall k :: 0 <= k < |r.value| ==> r.value[k] < n
  {
    var step := if s.step.None? then 1 else s.step.value;
    if step == 0 then Err(ZeroSliceStep)
    else if step > 0 then Ok(RangeUp(BoundUp(s.start, n, 0), BoundUp(s.stop, n, n), step))
    else Ok(RangeDown(BoundDown(s.start, n, n - 1), BoundDown(s.stop, n, -1), step))
  }

  /** `np.diff(ids)`: the differences of neighbours. */
  function Diff(ids: seq<nat>): (d: seq<int>)
    ensures |ids| >= 1 ==> |d| == |ids| - 1
    ensures |ids| == 0 ==> d == []
  {
    if |ids| <= 1 then [] else seq(|ids| - 1, k requires 0 <= k < |ids| - 1 => ids[k + 1] as int - ids[k])
  }

  /** Every neighbour difference of `ids` is `d`. */
  ghost predicate Steps(ids: seq<nat>, d: int)
  {
    forall k :: 0 <= k < |ids| - 1 ==> ids[k + 1] as int - ids[k] == d
  }

  /** Python's `[channel_map[c] for c in channels]`: a KeyError on the first unknown name. */
  function Lookup(cmap: map<Name, nat>, names: seq<Name>): (r: Result<seq<nat>, Error>)
    ensures r.Ok? <==> forall i :: 0 <= i < |names| ==> names[i] in cmap
    ensures r.Ok? ==> |r.value| == |names| && forall i :: 0 <= i < |names| ==> r.value[i] == cmap[names[i]]
  {
    if names == [] then Ok([])
    else if names[0] !in cmap then Err(UnknownChannel(names[0]))
    else
      var rest :- Lookup(cmap, names[1..]);
      Ok([cmap[names[0]]] + rest)
  }

  /** The error of a failed lookup names the first unknown channel. */
  lemma {:induction false} LookupFirstUnknown(cmap: map<Name, nat>, names: seq<Name>, j: nat)
    requires j < |names| && names[j] !in cmap
    requires forall i :: 0 <= i < j ==> names[i] in cmap
    ensures Lookup(cmap, names) == Err(UnknownChannel(names[j]))
  {
    if j > 0 {
      LookupFirstUnknown(cmap, names[1..], j - 1);
    }
  }

  /** What the result is: a fresh empty array, a view of the image, or a copy. */
  datatype Kind = Fresh | View | Copy

  /** `self.image[sH, i:i+1, sW]` for each `i`, concatenated along the channel axis (a copy). */
  function CopyChannels(ids: seq<nat>, n: nat): (cs: seq<nat>)
    ensures forall k :: 0 <= k < |cs| ==> cs[k] < n
  {
    if ids == [] then []
    else SliceRange(PySlice(Some(ids[0]), Some(ids[0] + 1), None), n).value + CopyChannels(ids[1..], n)
  }

  /** The branches of `select` on the looked-up indices, over a channel axis of length `n`. */
  function Pick(ids: seq<nat>, n: nat): (r: Result<(seq<nat>, Kind), Error>)
    ensures r.Ok? ==> forall k :: 0 <= k < |r.value.0| ==> r.value.0[k] < n
  {
    if |ids| == 0 then Ok(([], Fresh))
    else
      var diff := Diff(ids);
      if |diff| == 0 then
        Ok((SliceRange(PySlice(Some(ids[0]), Some(ids[0] + 1), None), n).value, View))
      else if |Header.SetOf(diff)| == 1 then
        var end := ids[|ids| - 1] + diff[0];
        var cs :- SliceRange(PySlice(Some(ids[0]), if end < 0 then None else Some(end), Some(diff[0])), n);
        Ok((cs, View))
      else Ok((CopyChannels(ids, n), Copy))
  }

  /** An array of element byte strings indexed [axis 0][axis 1][axis 2]. */
  type Array3 = seq<seq<seq<seq<Byte>>>>

  ghost predicate HasShape(a: Array3, d0: nat, d1: nat, d2: nat)
  {
    |a| == d0 && (forall i :: 0 <= i < d0 ==> |a[i]| == d1) &&
    (forall i, j :: 0 <= i < d0 && 0 <= j < d1 ==> |a[i][j]| == d2)
  }

  /** `self.image[sH, sC, sW]` for the channel indices `cs`, in (H, C, W) order. */
  function Gather(img: Image, cs: seq<nat>): (a: Array3)
    requires WellFormed(img)
    requires forall k :: 0 <= k < |cs| ==> cs[k] < img.layout.c
    ensures HasShape(a, img.layout.h, |cs|, img.layout.w)
    ensures forall h, k, w :: 0 <= h < img.layout.h && 0 <= k < |cs| && 0 <= w < img.layout.w ==>
      a[h][k][w] == Element(img, h, cs[k], w)
  {
    var l := img.layout;
    seq(l.h, h requires 0 <= h < l.h =>
      seq(|cs|, k requires 0 <= k < |cs| =>
        seq(l.w, w requires 0 <= w < l.w => Element(img, h, cs[k], w))))
  }

  /** `a.transpose(0, 2, 1)`: the last two axes swapped. */
  function Transpose(a: Array3, d1: nat, d2: nat): (t: Array3)
    requires HasShape(a, |a|, d1, d2)
    ensures HasShape(t, |a|, d2, d1)
    ensures forall i, j, k :: 0 <= i < |a| && 0 <= j < d2 && 0 <= k < d1 ==> t[i][j][k] == a[i][k][j]
  {
    seq(|a|, i requires 0 <= i < |a| =>
      seq(d2, j requires 0 <= j < d2 =>
        seq(d1, k requires 0 <= k < d1 => a[i][k][j])))
  }

  /** A selected image: its kind, the image channel behind each output channel, its shape and its elements. */
  datatype Selection = Selection(kind: Kind, channels: seq<nat>, shape: (nat, nat, nat), pixels: Array3)

  /** `select(channels, channels_last)` on a reader whose image is `image` and whose channel map is `cmap`. */
  function Select(cmap: map<Name, nat>, image: Option<Image>, names: seq<Name>, channelsLast: bool)
    : (r: Result<Selection, Error>)
    requires image.Some? ==> WellFormed(image.value)
  {
    var ids :- Lookup(cmap, names);
    if image.None? then Err(NoImage)
    else
      var img := image.value;
      var l := img.layout;
      var (cs, kind) :- Pick(ids, l.c);
      var a := Gather(img, cs);
      if channelsLast then Ok(Selection(kind, cs, (l.h, l.w, |cs|), Transpose(a, |cs|, l.w)))
      else Ok(Selection(kind, cs, (l.h, |cs|, l.w), a))
  }

  // ---------------------------------------------------------------------------------------------
  // The slice arithmetic of `select`

  /** An increasing progression of step `d` is what `range` yields up to any stop after its last term. */
  lemma {:induction false} RangeUpOfSteps(ids: seq<nat>, d: int, b: int)
    requires |ids| >= 1 && d > 0 && Steps(ids, d)
    requires ids[|ids| - 1] < b <= ids[|ids| - 1] + d
    ensures RangeUp(ids[0], b, d) == ids
  {
    if |ids| > 1 {
      StepsSuffix(ids, d);
      RangeUpOfSteps(ids[1..], d, b);
      assert ids == [ids[0]] + ids[1..];
    }
  }

  /** A decreasing progression of step `d` is what `range` yields down to any stop below its last term. */
  lemma {:induction false} RangeDownOfSteps(ids: seq<nat>, d: int, b: int)
    requires |ids| >= 1 && d < 0 && Steps(ids, d) && b >= -1
    requires ids[|ids| - 1] + d <= b < ids[|ids| - 1]
    ensures RangeDown(ids[0], b, d) == ids
  {
    if |ids| > 1 {
      StepsSuffix(ids, d);
      RangeDownOfSteps(ids[1..], d, b);
      assert ids == [ids[0]] + ids[1..];
    }
  }

  lemma StepsSuffix(ids: seq<nat>, d: int)
    requires |ids| >= 1 && Steps(ids, d)
    ensures Steps(ids[1..], d)
  {
    forall k | 0 <= k < |ids[1..]| - 1
      ensures ids[1..][k + 1] as int - ids[1..][k] == d
    {
      assert ids[1..][k] == ids[k + 1];
    }
  }

  /** `slice(i, i+1)` selects channel `i` alone. */
  lemma SingleSlice(i: nat, n: nat)
    requires i < n
    ensures SliceRange(PySlice(Some(i), Some(i + 1), None), n) == Ok([i])
  {
    assert RangeUp(i + 1, i + 1, 1) == [];
    assert RangeUp(i, i + 1, 1) == [i];
  }

  /**
   * With a constant non-zero step `d` the slice `select` builds, from ids[0] to ids[-1] + d (None when
   * that is negative, because -1 would count from the end), yields exactly `ids`.
   */
  lemma StepSlice(ids: seq<nat>, d: int, n: nat)
    requires |ids| >= 2 && d != 0 && Steps(ids, d)
    requires forall k :: 0 <= k < |ids| ==> ids[k] < n
    ensures var end := ids[|ids| - 1] + d;
      SliceRange(PySlice(Some(ids[0]), if end < 0 then None else Some(end), Some(d)), n) == Ok(ids)
  {
    var last := ids[|ids| - 1];
    var end := last + d;
    if d > 0 {
      RangeUpOfSteps(ids, d, Min(end, n));
    } else if end < 0 {
      RangeDownOfSteps(ids, d, -1);
    } else {
      RangeDownOfSteps(ids, d, end);
    }
  }

  /** The copy path concatenates one single-channel slice per index, so it yields `ids`. */
  lemma {:induction false} CopyChannelsIds(ids: seq<nat>, n: nat)
    requires forall k :: 0 <= k < |ids| ==> ids[k] < n
    ensures CopyChannels(ids, n) == ids
  {
    if ids != [] {
      SingleSlice(ids[0], n);
      CopyChannelsIds(ids[1..], n);
      assert ids == [ids[0]] + ids[1..];
    }
  }

  /** `len(set(diff)) == 1` holds exactly when there is a difference and all differences are equal. */
  lemma OneDistinct(diff: seq<int>)
    ensures |Header.SetOf(diff)| == 1 <==> |diff| >= 1 && forall k :: 0 <= k < |diff| ==> diff[k] == diff[0]
  {
    if |diff| >= 1 && forall k :: 0 <= k < |diff| ==> diff[k] == diff[0] {
      assert Header.SetOf(diff) == {diff[0]};
    }
    if |Header.SetOf(diff)| == 1 {
      Header.AtMostOneDistinct(diff);
      assert diff[0] in Header.SetOf(diff);
    }
  }

  lemma DiffSteps(ids: seq<nat>)
    requires |ids| >= 2
    ensures (forall k :: 0 <= k < |Diff(ids)| ==> Diff(ids)[k] == Diff(ids)[0]) <==> Steps(ids, Diff(ids)[0])
    ensures Diff(ids)[0] == ids[1] as int - ids[0]
  {
    var diff := Diff(ids);
    assert forall k :: 0 <= k < |ids| - 1 ==> diff[k] == ids[k + 1] as int - ids[k];
  }

  /** The kind `select` produces, stated on the indices alone. */
  ghost function KindOf(ids: seq<nat>): Kind
  {
    if |ids| == 0 then Fresh
    else if |ids| == 1 || (Steps(ids, ids[1] as int - ids[0]) && ids[1] != ids[0]) then View
    else Copy
  }

  /** A repeated channel makes the step 0: every index equal, at least two of them. */
  ghost predicate ZeroStep(ids: seq<nat>)
  {
    |ids| >= 2 && Steps(ids, 0)
  }

  /**
   * On in-range indices, the branches of `select` yield exactly the looked-up indices, tagged with
   * the kind `KindOf` gives; the only failure is the zero step of a repeated channel.
   */
  lemma PickIds(ids: seq<nat>, n: nat)
    requires forall k :: 0 <= k < |ids| ==> ids[k] < n
    ensures ZeroStep(ids) ==> Pick(ids, n) == Err(ZeroSliceStep)
    ensures !ZeroStep(ids) ==> Pick(ids, n) == Ok((ids, KindOf(ids)))
  {
    if |ids| == 1 {
      SingleSlice(ids[0], n);
      assert ids == [ids[0]];
    } else if |ids| >= 2 {
      PickSeveral(ids, n);
    }
  }

  /** Two or more indices: one common step gives a slice, or an error when it is 0; otherwise a copy. */
  lemma PickSeveral(ids: seq<nat>, n: nat)
    requires |ids| >= 2 && forall k :: 0 <= k < |ids| ==> ids[k] < n
    ensures ZeroStep(ids) ==> Pick(ids, n) == Err(ZeroSliceStep)
    ensures !ZeroStep(ids) ==> Pick(ids, n) == Ok((ids, KindOf(ids)))
  {
    var diff := Diff(ids);
    OneDistinct(diff);
    DiffSteps(ids);
    if Steps(ids, diff[0]) {
      if diff[0] != 0 {
        StepSlice(ids, diff[0], n);
      }
    } else {
      assert !ZeroStep(ids);
      assert KindOf(ids) == Copy;
      CopyChannelsIds(ids, n);
    }
  }

  // ---------------------------------------------------------------------------------------------
  // What `select` returns

  /**
   * On a reader with an image whose channel map points into the channel axis, `select` fails exactly on
   * an unknown name (the first one) or a repeated only channel; otherwise output channel k is image
   * channel ids[k], the shape is (H, k, W), or (H, W, k) with out[h][w][k] == image[h][ids[k]][w]
   * when `channels_last` is set.
   */
  lemma SelectChannels(cmap: map<Name, nat>, img: Image, names: seq<Name>, channelsLast: bool)
    requires WellFormed(img)
    requires forall n :: n in cmap ==> cmap[n] < img.layout.c
    ensures Lookup(cmap, names).Err? ==> Select(cmap, Some(img), names, channelsLast) == Err(Lookup(cmap, names).error)
    ensures Lookup(cmap, names).Ok? && ZeroStep(Lookup(cmap, names).value) ==>
      Select(cmap, Some(img), names, channelsLast) == Err(ZeroSliceStep)
    ensures Lookup(cmap, names).Ok? && !ZeroStep(Lookup(cmap, names).value) ==>
      var ids := Lookup(cmap, names).value;
      var l := img.layout;
      var r := Select(cmap, Some(img), names, channelsLast);
      && r.Ok? && r.value.channels == ids && r.value.kind == KindOf(ids)
      && (channelsLast ==>
            && r.value.shape == (l.h, l.w, |ids|) && HasShape(r.value.pixels, l.h, l.w, |ids|)
            && forall h, w, k :: 0 <= h < l.h && 0 <= w < l.w && 0 <= k < |ids| ==>
                 r.value.pixels[h][w][k] == Element(img, h, ids[k], w))
      && (!channelsLast ==>
            && r.value.shape == (l.h, |ids|, l.w) && HasShape(r.value.pixels, l.h, |ids|, l.w)
            && forall h, k, w :: 0 <= h < l.h && 0 <= k < |ids| && 0 <= w < l.w ==>
                 r.value.pixels[h][k][w] == Element(img, h, ids[k], w))
  {
    var ids := Lookup(cmap, names);
    if ids.Ok? {
      PickIds(ids.value, img.layout.c);
    }
  }

  /** Without an image every lookup that succeeds fails on the missing image. */
  lemma SelectWithoutImage(cmap: map<Name, nat>, names: seq<Name>, channelsLast: bool)
    ensures Lookup(cmap, names).Ok? ==> Select(cmap, None, names, channelsLast) == Err(NoImage)
    ensures Lookup(cmap, names).Err? ==> Select(cmap, None, names, channelsLast) == Err(Lookup(cmap, names).error)
  {
  }

  // ---------------------------------------------------------------------------------------------
  // The selections of the reader's tests, on the eight channels of the test files in chlist order
  // (Color.A, Color.B, Color.G, Color.R, Depth.V, Normal.X, Normal.Y, Normal.Z)

  /** [R, G, B] selects channels 3, 2, 1: a view through a step of -1. */
  lemma TestSelectRgb()
    ensures Pick([3, 2, 1], 8) == Ok(([3, 2, 1], View))
  {
    var ids: seq<nat> := [3, 2, 1];
    assert Steps(ids, -1);
    PickIds(ids, 8);
  }

  /** [B, G, R] selects channels 1, 2, 3: a view through a step of 1. */
  lemma TestSelectBgr()
    ensures Pick([1, 2, 3], 8) == Ok(([1, 2, 3], View))
  {
    var ids: seq<nat> := [1, 2, 3];
    assert Steps(ids, 1);
    PickIds(ids, 8);
  }

  /** [R, B] selects channels 3, 1: a view through a step of -2 whose stop is None. */
  lemma TestSelectRb()
    ensures Pick([3, 1], 8) == Ok(([3, 1], View))
  {
    var ids: seq<nat> := [3, 1];
    assert Steps(ids, -2);
    PickIds(ids, 8);
  }

  /** All channels in order: a view through a step of 1. */
  lemma TestSelectAll()
    ensures Pick([0, 1, 2, 3, 4, 5, 6, 7], 8) == Ok(([0, 1, 2, 3, 4, 5, 6, 7], View))
  {
    var ids: seq<nat> := [0, 1, 2, 3, 4, 5, 6, 7];
    assert Steps(ids, 1);
    PickIds(ids, 8);
  }

  /** All channels reversed: a view through a step of -1 down to channel 0. */
  lemma TestSelectAllReversed()
    ensures Pick([7, 6, 5, 4, 3, 2, 1, 0], 8) == Ok(([7, 6, 5, 4, 3, 2, 1, 0], View))
  {
    var ids: seq<nat> := [7, 6, 5, 4, 3, 2, 1, 0];
    assert Steps(ids, -1);
    PickIds(ids, 8);
  }

  /** [R, Depth, B] selects channels 3, 4, 1, which no slice yields: a copy. */
  lemma TestSelectCopy()
    ensures Pick([3, 4, 1], 8) == Ok(([3, 4, 1], Copy))
  {
    var ids: seq<nat> := [3, 4, 1];
    assert ids[2] as int - ids[1] != 1;
    PickIds(ids, 8);
  }

  /** No channels: a fresh empty array. */
  lemma TestSelectEmpty()
    ensures Pick([], 8) == Ok(([], Fresh))
  {
    PickIds([], 8);
  }

  /** The same channel twice has the constant difference 0, and a slice with step 0 is Python's ValueError. */
  lemma RepeatedChannelRejected()
    ensures Pick([3, 3], 8) == Err(ZeroSliceStep)
  {
    var ids: seq<nat> := [3, 3];
    assert Steps(ids, 0);
    PickIds(ids, 8);
  }
}
