/**
 * The integer logic of the filter catalogue: the integer `VALUES` ranges,
 * Flip as a row or column reversal, the centred crop after Rescale, the
 * Rotate background value, the Shift axis choice, translation vector and
 * size guard, and the Pixel kernel lookup.  The pixel arithmetic of every
 * filter is a foreign call and enters as a function parameter.
 */
module Filters {
  import opened Wrappers
  import opened Text

  /** An image: rows of pixels of an opaque pixel type, and the channel count (the last axis). */
  datatype Image<P> = Image(rows: seq<seq<P>>, channels: nat)

  function Height<P>(img: Image<P>): nat
  {
    |img.rows|
  }

  function Width<P>(img: Image<P>): nat
  {
    if |img.rows| == 0 then 0 else |img.rows[0]|
  }

  /** Every row as wide as the first, as in a NumPy array. */
  predicate Rectangular<P>(img: Image<P>)
  {
    forall i :: 0 <= i < |img.rows| ==> |img.rows[i]| == Width(img)
  }

  /**
   * Python `range(start, stop, step)` for a positive step (every range of
   * the catalogue counts upwards): the values `start + i * step` below
   * `stop`, as many as fit.
   */
  function Range(start: int, stop: int, step: int): (r: seq<int>)
    requires step > 0
    ensures start >= stop ==> |r| == 0
    ensures start < stop ==> |r| > 0 && start + (|r| - 1) * step < stop <= start + |r| * step
    ensures forall i :: 0 <= i < |r| ==> r[i] == start + i * step && start <= r[i] < stop
    decreases stop - start
  {
    if start < stop then
      var rest := Range(start + step, stop, step);
      forall i | 1 <= i < |rest| + 1
        ensures rest[i - 1] == start + i * step
      {
        assert (i - 1) * step + step == i * step;
      }
      assert (|rest| - 1) * step + step == |rest| * step;
      assert |rest| * step + step == (|rest| + 1) * step;
      [start] + rest
    else []
  }

  const BlurValues: seq<int> := Range(2, 10, 1)
  const RotateValues: seq<int> := Range(-155, 156, 2)
  const ShiftValues: seq<int> := Range(1, 512, 1)
  const PixelValues: seq<int> := Range(1, 14, 2)
  const UnsharpValues: seq<int> := Range(1, 51, 1)

  /** The integer parameter ranges of the catalogue, with their bounds and lengths. */
  lemma IntegerValues()
    ensures |BlurValues| == 8 && BlurValues[0] == 2 && BlurValues[7] == 9
    ensures |RotateValues| == 156 && RotateValues[0] == -155 && RotateValues[155] == 155
    ensures |ShiftValues| == 511 && ShiftValues[0] == 1 && ShiftValues[510] == 511
    ensures |PixelValues| == 7 && PixelValues == [1, 3, 5, 7, 9, 11, 13]
    ensures |UnsharpValues| == 50 && UnsharpValues[0] == 1 && UnsharpValues[49] == 50
  {
  }

  // ---------------------------------------------------------------- Flip

  /** The two `VALUES` of Flip: `np.s_[:, ::-1]` reverses columns, `np.s_[::-1, :]` reverses rows. */
  datatype Axis = Columns | Rows

  function Reverse<T>(s: seq<T>): (r: seq<T>)
    ensures |r| == |s|
    ensures forall i :: 0 <= i < |s| ==> r[i] == s[|s| - 1 - i]
  {
    seq(|s|, i requires 0 <= i < |s| => s[|s| - 1 - i])
  }

  /** `Flip.__call__`: `img[sl]` for one of the two slicings. */
  function Flip<P>(img: Image<P>, axis: Axis): (r: Image<P>)
    ensures r.channels == img.channels && Height(r) == Height(img)
    ensures Rectangular(img) ==> Rectangular(r) && Width(r) == Width(img)
  {
    match axis
    case Rows => Image(Reverse(img.rows), img.channels)
    case Columns => Image(seq(|img.rows|, i requires 0 <= i < |img.rows| => Reverse(img.rows[i])), img.channels)
  }

  /**
   * A flip keeps the shape and moves each pixel to the mirrored row (for
   * `Rows`) or the mirrored column (for `Columns`).
   */
  lemma FlipMirrors<P>(img: Image<P>, axis: Axis)
    ensures var r := Flip(img, axis);
            && r.channels == img.channels
            && Height(r) == Height(img)
            && (Rectangular(img) ==> Rectangular(r) && Width(r) == Width(img))
            && (axis == Rows ==>
                  forall i :: 0 <= i < Height(img) ==> r.rows[i] == img.rows[Height(img) - 1 - i])
            && (axis == Columns ==>
                  forall i, j :: 0 <= i < Height(img) && 0 <= j < |img.rows[i]| ==>
                    |r.rows[i]| == |img.rows[i]| && r.rows[i][j] == img.rows[i][|img.rows[i]| - 1 - j])
  {
  }

  /** Flipping twice along the same axis restores the image. */
  lemma FlipTwice<P>(img: Image<P>, axis: Axis)
    ensures Flip(Flip(img, axis), axis) == img
  {
    var r := Flip(Flip(img, axis), axis);
    if axis == Columns {
      forall i | 0 <= i < |img.rows|
        ensures r.rows[i] == img.rows[i]
      {
        assert Reverse(Reverse(img.rows[i])) == img.rows[i];
      }
    }
    assert r.rows == img.rows;
  }

  // ---------------------------------------------------------------- Rescale

  /** `cx = w // 2 - x // 2` and `cy = h // 2 - y // 2`: the corner of the crop window (row, column). */
  function CropCorner(h: int, w: int, y: int, x: int): (int, int)
  {
    (h / 2 - y / 2, w / 2 - x / 2)
  }

  /**
   * When the rescaled image is at least as large as the original the crop
   * window lies inside it and is centred: its two margins on each axis
   * differ by at most one.
   */
  lemma CropWindowInside(h: int, w: int, y: int, x: int)
    requires 0 <= y <= h && 0 <= x <= w
    ensures var (cy, cx) := CropCorner(h, w, y, x);
            && 0 <= cy && cy + y <= h && 0 <= cx && cx + x <= w
            && -1 <= (h - cy - y) - cy <= 1 && -1 <= (w - cx - x) - cx <= 1
  {
  }

  /** NumPy's `data[cy:cy+y, cx:cx+x, :]`, with Python's treatment of negative and oversized bounds. */
  function Crop<P>(data: Image<P>, cy: int, cx: int, y: int, x: int): (r: Image<P>)
    ensures r.channels == data.channels && Height(r) <= Height(data)
    ensures 0 <= cy && 0 <= y && cy + y <= Height(data) ==> Height(r) == y
  {
    var rows := Slice(data.rows, cy, cy + y);
    Image(seq(|rows|, i requires 0 <= i < |rows| => Slice(rows[i], cx, cx + x)), data.channels)
  }

  /** A crop window inside a rectangular image keeps exactly the pixels under the window. */
  lemma CropWindow<P>(data: Image<P>, cy: int, cx: int, y: nat, x: nat)
    requires Rectangular(data)
    requires 0 <= cy && cy + y <= Height(data) && 0 <= cx && cx + x <= Width(data)
    ensures Height(Crop(data, cy, cx, y, x)) == y
    ensures forall i :: 0 <= i < y ==> |Crop(data, cy, cx, y, x).rows[i]| == x
    ensures forall i, j :: 0 <= i < y && 0 <= j < x ==>
              Crop(data, cy, cx, y, x).rows[i][j] == data.rows[cy + i][cx + j]
  {
    var rows := Slice(data.rows, cy, cy + y);
    assert rows == data.rows[cy..cy + y];
    forall i | 0 <= i < y
      ensures Crop(data, cy, cx, y, x).rows[i] == data.rows[cy + i][cx..cx + x]
    {
      assert |data.rows[cy + i]| == Width(data);
    }
  }

  /**
   * `Rescale.__call__`: rescale (a foreign call) and crop the centre back.
   * Whenever the rescaled image covers the original, the result has the
   * original height and width and holds the central pixels.
   */
  function Rescale<P, V>(img: Image<P>, sc: V, rescale: (Image<P>, V) -> Image<P>): (r: Image<P>)
    ensures var data := rescale(img, sc);
            var corner := CropCorner(Height(data), Width(data), Height(img), Width(img));
            Rectangular(data) && Height(img) <= Height(data) && Width(img) <= Width(data) ==>
              && Height(r) == Height(img)
              && (forall i :: 0 <= i < Height(r) ==> |r.rows[i]| == Width(img))
              && (forall i, j :: 0 <= i < Height(r) && 0 <= j < Width(img) ==>
                    r.rows[i][j] == data.rows[corner.0 + i][corner.1 + j])
  {
    var data := rescale(img, sc);
    var corner := CropCorner(Height(data), Width(data), Height(img), Width(img));
    if Rectangular(data) && Height(img) <= Height(data) && Width(img) <= Width(data) then
      CropWindowInside(Height(data), Width(data), Height(img), Width(img));
      CropWindow(data, corner.0, corner.1, Height(img), Width(img));
      Crop(data, corner.0, corner.1, Height(img), Width(img))
    else
      Crop(data, corner.0, corner.1, Height(img), Width(img))
  }

  // ---------------------------------------------------------------- Rotate

  /** `Rotate._RGB`: the last axis has three channels. */
  predicate IsRGB<P>(img: Image<P>)
  {
    img.channels == 3
  }

  /** The background fill: white (1.0) for three-channel images, 0 for the others. */
  function Background<P>(img: Image<P>): (cval: real)
    ensures cval == 1.0 <==> img.channels == 3
    ensures cval == 0.0 <==> img.channels != 3
  {
    if IsRGB(img) then 1.0 else 0.0
  }

  /** `Rotate.__call__`: the foreign rotation, always applied, with the background fill. */
  function Rotate<P>(img: Image<P>, angle: int, rotate: (Image<P>, int, real) -> Image<P>): (r: Image<P>)
    ensures img.channels == 3 ==> r == rotate(img, angle, 1.0)
    ensures img.channels != 3 ==> r == rotate(img, angle, 0.0)
  {
    rotate(img, angle, Background(img))
  }

  // ---------------------------------------------------------------- Shift

  const Vertical: string := "v"
  const Horizontal: string := "h"

  /** A configured Shift: which single axis, if any, it moves along. */
  datatype Shift = Shift(vertical: bool, horizontal: bool)

  /** `Shift.__init__`: `v` is vertical, `h` horizontal, every other mode both axes. */
  function NewShift(mode: string): (s: Shift)
    ensures s.vertical <==> mode == Vertical
    ensures s.horizontal <==> mode == Horizontal
    ensures !(s.vertical && s.horizontal)
  {
    Shift(mode == Vertical, mode == Horizontal)
  }

  /** `_vector`: the `(x, y)` translation, along one axis or both. */
  function Vector(s: Shift, v: int): (t: (int, int))
    ensures (t.0 == v || t.0 == 0) && (t.1 == v || t.1 == 0)
    ensures t.0 == v || t.1 == v
    ensures s.vertical ==> t.0 == 0
    ensures s.horizontal && !s.vertical ==> t.1 == 0
  {
    if s.vertical then (0, v) else if s.horizontal then (v, 0) else (v, v)
  }

  /** `_valid`: the shift must be strictly smaller than every dimension it moves along. */
  predicate Valid<P>(s: Shift, img: Image<P>, v: int)
    ensures v > 0 ==>
              (Valid(s, img, v) <==>
                 (Vector(s, v).0 != 0 ==> v < Width(img)) && (Vector(s, v).1 != 0 ==> v < Height(img)))
  {
    if s.vertical then v < Height(img)
    else if s.horizontal then v < Width(img)
    else v < Width(img) && v < Height(img)
  }

  /** The vectors of the three modes: `(v, v)` by default, `(v, 0)` for `h`, `(0, v)` for `v`. */
  lemma VectorByMode(mode: string, v: int)
    ensures mode == Horizontal ==> Vector(NewShift(mode), v) == (v, 0)
    ensures mode == Vertical ==> Vector(NewShift(mode), v) == (0, v)
    ensures mode != Horizontal && mode != Vertical ==> Vector(NewShift(mode), v) == (v, v)
  {
  }

  /**
   * For a positive shift the guard accepts exactly the translations whose
   * every non-zero component is smaller than the dimension it moves along.
   */
  lemma ValidMeansInside<P>(mode: string, img: Image<P>, v: int)
    requires v > 0
    ensures var t := Vector(NewShift(mode), v);
            Valid(NewShift(mode), img, v) <==>
              (t.0 != 0 ==> t.0 < Width(img)) && (t.1 != 0 ==> t.1 < Height(img))
  {
  }

  /** `Shift.__call__`: nothing when the guard fails, otherwise the wrapped foreign warp by the vector. */
  function ShiftImage<P>(s: Shift, img: Image<P>, v: int, warp: (Image<P>, (int, int)) -> Image<P>)
    : (r: Option<Image<P>>)
    ensures r.None? <==> !Valid(s, img, v)
    ensures r.Some? ==> r.value == warp(img, Vector(s, v))
  {
    if Valid(s, img, v) then Some(warp(img, Vector(s, v))) else None
  }

  /** A horizontal shift of 150 on an image 100 pixels wide declines. */
  lemma ShiftDeclines<P>(img: Image<P>, warp: (Image<P>, (int, int)) -> Image<P>)
    requires Width(img) == 100
    ensures ShiftImage(NewShift(Horizontal), img, 150, warp) == None
  {
  }

  // ---------------------------------------------------------------- Pixel

  /** The PIL rank filters a Pixel filter can apply. */
  datatype Kernel = MaxFilter | MedianFilter | MinFilter | ModeFilter

  const Kernels: map<string, Kernel> :=
    map["max" := MaxFilter, "median" := MedianFilter, "min" := MinFilter, "mode" := ModeFilter]

  /** `Pixel.__init__`: the kernel named by the option, the Min filter for any other name. */
  function KernelFor(name: string): (k: Kernel)
    ensures k == MaxFilter <==> name == "max"
    ensures k == MedianFilter <==> name == "median"
    ensures k == ModeFilter <==> name == "mode"
    ensures k == MinFilter <==> name !in {"max", "median", "mode"}
  {
    if name in Kernels then Kernels[name] else MinFilter
  }

  /** `Pixel.__call__`: the foreign rank filter of that kernel and size; it never declines. */
  function PixelFilter<P>(name: string, img: Image<P>, size: int, rank: (Image<P>, Kernel, int) -> Image<P>)
    : (r: Image<P>)
    ensures name in Kernels ==> r == rank(img, Kernels[name], size)
    ensures name !in Kernels ==> r == rank(img, MinFilter, size)
    ensures name == "min" ==> r == rank(img, MinFilter, size)
  {
    rank(img, KernelFor(name), size)
  }
}
