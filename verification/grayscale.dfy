/**
 The grayscale pass of the browser client: the loop that walks a canvas RGBA
 buffer four bytes at a time and replaces red, green and blue by their mean,
 leaving alpha alone.

 A buffer is a sequence of channel values laid out as r, g, b, a, r, g, b, a, ...
 Index i belongs to the pixel that starts at `PixelStart(i)`, and `i % 4` is its
 channel (3 is alpha).
 */
module GrayscalePass {
  import opened Uint8Clamped

  /** What `ImageData.data` always is: whole pixels of bytes. */
  predicate ValidImageData(s: seq<int>) {
    && |s| % 4 == 0
    && forall i :: 0 <= i < |s| ==> IsByte(s[i])
  }

  /** Index of the red channel of the pixel that holds index i. */
  function PixelStart(i: nat): (p: nat)
    ensures p % 4 == 0 && p <= i < p + 4
  {
    i - i % 4
  }

  /** Channel k of the pixel starting at p sits at index p + k. */
  lemma PixelChannel(p: nat, k: nat)
    requires p % 4 == 0 && k < 4
    ensures PixelStart(p + k) == p && (p + k) % 4 == k
  {
  }

  /** The exact value of `(r + g + b) / 3` before it is stored. */
  function Mean(r: int, g: int, b: int): real {
    (r + g + b) as real / 3.0
  }

  /** The byte the loop writes into each colour channel of a pixel. */
  function GrayLevel(r: int, g: int, b: int): int {
    (r + g + b + 1) / 3
  }

  /** GrayLevel is the integer nearest the mean of the three channels
      (3v is within one of their sum), so it lies between the darkest and
      the brightest of them and is a byte when they are. */
  lemma GrayLevelIsNearestMean(r: int, g: int, b: int)
    ensures 3 * GrayLevel(r, g, b) - 1 <= r + g + b <= 3 * GrayLevel(r, g, b) + 1
    ensures GrayLevel(r, g, b) >= r || GrayLevel(r, g, b) >= g || GrayLevel(r, g, b) >= b
    ensures GrayLevel(r, g, b) <= r || GrayLevel(r, g, b) <= g || GrayLevel(r, g, b) <= b
    ensures IsByte(r) && IsByte(g) && IsByte(b) ==> IsByte(GrayLevel(r, g, b))
  {
  }

  /** Storing the floating mean into the clamped buffer yields GrayLevel:
      the fraction of the mean is 0, 1/3 or 2/3, so no tie and no clamping. */
  lemma StoredMeanIsGrayLevel(r: int, g: int, b: int)
    requires IsByte(r) && IsByte(g) && IsByte(b)
    ensures ToUint8Clamp(Mean(r, g, b)) == GrayLevel(r, g, b)
  {
    var s := r + g + b;
    var q, m := s / 3, s % 3;
    assert Mean(r, g, b) == q as real + m as real / 3.0;
    var n := Mean(r, g, b);
    if 0.0 < n < 255.0 {
      assert n.Floor == q;
    }
  }

  /** One step of the loop body: `(r + g + b) / 3` computed as a number and
      converted by the store into the clamped buffer. */
  method StoreAverage(r: int, g: int, b: int) returns (v: int)
    requires IsByte(r) && IsByte(g) && IsByte(b)
    ensures v == GrayLevel(r, g, b)
  {
    v := ToUint8Clamp(Mean(r, g, b));
    StoredMeanIsGrayLevel(r, g, b);
  }

  /** The value the grayscale pass leaves at index i of buffer s. */
  function GrayAt(s: seq<int>, i: nat): int
    requires |s| % 4 == 0 && i < |s|
  {
    var p := PixelStart(i);
    if i % 4 == 3 then s[i] else GrayLevel(s[p], s[p + 1], s[p + 2])
  }

  /** The grayscale pass as a function: each pixel [r, g, b, a] becomes
      [v, v, v, a] with v = GrayLevel(r, g, b). */
  function Grayscale(s: seq<int>): (t: seq<int>)
    requires |s| % 4 == 0
    ensures |t| == |s|
  {
    seq(|s|, i requires 0 <= i < |s| => GrayAt(s, i))
  }

  /** The loop itself. `getImageData` hands the loop a fresh copy of the
      canvas pixels, which is updated in place and returned. */
  method ProcessToGrayscale(pixels: seq<int>) returns (out: seq<int>)
    requires ValidImageData(pixels)
    ensures |out| == |pixels|
    ensures forall i :: 0 <= i < |out| ==> out[i] == GrayAt(pixels, i)
    ensures out == Grayscale(pixels)
  {
    var data := pixels;
    var i := 0;
    while i < |data|
      invariant 0 <= i <= |data| == |pixels| && i % 4 == 0
      invariant forall j :: 0 <= j < i ==> data[j] == GrayAt(pixels, j)
      invariant data[i..] == pixels[i..]
    {
      var avg := StoreAverage(data[i], data[i + 1], data[i + 2]);
      PixelChannel(i, 1);
      PixelChannel(i, 2);
      PixelChannel(i, 3);
      // `data[i] = data[i + 1] = data[i + 2] = avg` stores right to left
      data := data[i + 2 := avg][i + 1 := avg][i := avg];
      i := i + 4;
    }
    out := data;
  }
}
