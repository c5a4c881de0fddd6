/**
 What the grayscale pass promises about a whole buffer: every pixel comes out
 gray, alpha is never touched, values stay within the pixel's own channels,
 a gray image is a fixed point (so the pass is idempotent), and each pixel of
 the output depends on that pixel of the input alone.
 */
module GrayscaleProperties {
  import opened Uint8Clamped
  import opened GrayscalePass

  /** Index i holds the same value as the red channel of its pixel. */
  predicate MatchesRed(t: seq<int>, i: nat)
    requires i < |t|
  {
    t[i] == t[PixelStart(i)]
  }

  /** Every pixel has red = green = blue. */
  predicate IsGrayImage(t: seq<int>)
    requires |t| % 4 == 0
  {
    forall i :: 0 <= i < |t| && i % 4 < 3 ==> MatchesRed(t, i)
  }

  /** The smallest and largest colour channel of the pixel holding index i. */
  function ChannelMin(s: seq<int>, i: nat): int
    requires |s| % 4 == 0 && i < |s|
  {
    var p := PixelStart(i);
    if s[p] <= s[p + 1] && s[p] <= s[p + 2] then s[p]
    else if s[p + 1] <= s[p + 2] then s[p + 1]
    else s[p + 2]
  }

  function ChannelMax(s: seq<int>, i: nat): int
    requires |s| % 4 == 0 && i < |s|
  {
    var p := PixelStart(i);
    if s[p] >= s[p + 1] && s[p] >= s[p + 2] then s[p]
    else if s[p + 1] >= s[p + 2] then s[p + 1]
    else s[p + 2]
  }

  /** Colour channel i after the pass equals the red channel of its pixel,
      and both hold the GrayLevel of the pixel's original colours. */
  lemma GrayChannel(s: seq<int>, i: nat)
    requires |s| % 4 == 0 && i < |s| && i % 4 < 3
    ensures Grayscale(s)[i] == Grayscale(s)[PixelStart(i)]
    ensures Grayscale(s)[i] == GrayLevel(s[PixelStart(i)], s[PixelStart(i) + 1], s[PixelStart(i) + 2])
  {
    var p := PixelStart(i);
    PixelChannel(p, 0);
  }

  /** After the pass every pixel is gray, its colours all set to the
      GrayLevel of that pixel's original colours. */
  lemma GrayscaleMakesGray(s: seq<int>)
    requires |s| % 4 == 0
    ensures IsGrayImage(Grayscale(s))
    ensures forall i :: 0 <= i < |s| && i % 4 < 3 ==>
      Grayscale(s)[i] == GrayLevel(s[PixelStart(i)], s[PixelStart(i) + 1], s[PixelStart(i) + 2])
  {
    forall i | 0 <= i < |s| && i % 4 < 3
      ensures Grayscale(s)[i] == GrayLevel(s[PixelStart(i)], s[PixelStart(i) + 1], s[PixelStart(i) + 2])
    {
      GrayChannel(s, i);
    }
    GrayscaleMatchesRed(s);
  }

  lemma GrayscaleMatchesRed(s: seq<int>)
    requires |s| % 4 == 0
    ensures forall i :: 0 <= i < |s| && i % 4 < 3 ==> MatchesRed(Grayscale(s), i)
  {
    forall i | 0 <= i < |s| && i % 4 < 3
      ensures MatchesRed(Grayscale(s), i)
    {
      GrayChannel(s, i);
    }
  }

  /** The alpha byte of every pixel is left as it was. */
  lemma GrayscaleKeepsAlpha(s: seq<int>)
    requires |s| % 4 == 0
    ensures forall i :: 0 <= i < |s| && i % 4 == 3 ==> Grayscale(s)[i] == s[i]
  {
  }

  /** Each colour channel of the output lies between the darkest and the
      brightest colour channel of that pixel of the input. */
  lemma GrayscaleWithinChannels(s: seq<int>)
    requires ValidImageData(s)
    ensures forall i :: 0 <= i < |s| ==> IsByte(Grayscale(s)[i])
    ensures forall i :: 0 <= i < |s| && i % 4 < 3 ==>
      ChannelMin(s, i) <= Grayscale(s)[i] <= ChannelMax(s, i)
  {
  }

  /** In a gray buffer the pass rewrites every byte with its own value. */
  lemma GrayPixelUnchanged(s: seq<int>, i: nat)
    requires |s| % 4 == 0 && i < |s| && IsGrayImage(s)
    ensures Grayscale(s)[i] == s[i]
  {
    var p := PixelStart(i);
    if i % 4 < 3 {
      PixelChannel(p, 1);
      PixelChannel(p, 2);
      assert MatchesRed(s, p + 1) && MatchesRed(s, p + 2);
    }
  }

  /** A gray buffer is a fixed point of the pass. */
  lemma GrayImageIsFixed(s: seq<int>)
    requires |s| % 4 == 0 && IsGrayImage(s)
    ensures Grayscale(s) == s
  {
    forall i | 0 <= i < |s|
      ensures Grayscale(s)[i] == s[i]
    {
      GrayPixelUnchanged(s, i);
    }
  }

  /** A buffer is left unchanged by the pass exactly when it is already gray. */
  lemma GrayscaleFixedPoints(s: seq<int>)
    requires |s| % 4 == 0
    ensures Grayscale(s) == s <==> IsGrayImage(s)
  {
    GrayscaleMakesGray(s);
    if IsGrayImage(s) {
      GrayImageIsFixed(s);
    }
  }

  /** Applying the pass twice is the same as applying it once. */
  lemma GrayscaleIdempotent(s: seq<int>)
    requires |s| % 4 == 0
    ensures Grayscale(Grayscale(s)) == Grayscale(s)
  {
    GrayscaleMakesGray(s);
    GrayscaleFixedPoints(Grayscale(s));
  }

  /** Index i of two buffers laid end to end is processed as it would be in
      the buffer it came from. */
  lemma GrayAtAppend(s1: seq<int>, s2: seq<int>, i: nat)
    requires |s1| % 4 == 0 && |s2| % 4 == 0 && i < |s1| + |s2|
    ensures i < |s1| ==> GrayAt(s1 + s2, i) == GrayAt(s1, i)
    ensures i >= |s1| ==> GrayAt(s1 + s2, i) == GrayAt(s2, i - |s1|)
  {
    var n := |s1|;
    if i < n {
      PixelChannel(PixelStart(i), 3);
    } else {
      var p := PixelStart(i - n);
      PixelChannel(p, (i - n) % 4);
      PixelChannel(n + p, (i - n) % 4);
      assert PixelStart(i) == n + p;
    }
  }

  /** Pixels are processed independently: the pass over two buffers laid end
      to end is the two passes laid end to end. */
  lemma GrayscaleAppend(s1: seq<int>, s2: seq<int>)
    requires |s1| % 4 == 0 && |s2| % 4 == 0
    ensures Grayscale(s1 + s2) == Grayscale(s1) + Grayscale(s2)
  {
    var t, t1, t2 := Grayscale(s1 + s2), Grayscale(s1), Grayscale(s2);
    forall i | 0 <= i < |t|
      ensures t[i] == (t1 + t2)[i]
    {
      GrayAtAppend(s1, s2, i);
    }
  }

  /** Output index i is read off the four bytes of its own pixel alone:
      two buffers that agree on that pixel agree there after the pass. */
  lemma GrayscaleIsPixelLocal(s: seq<int>, s': seq<int>, i: nat)
    requires |s| == |s'| && |s| % 4 == 0 && i < |s|
    requires s[PixelStart(i)..PixelStart(i) + 4] == s'[PixelStart(i)..PixelStart(i) + 4]
    ensures Grayscale(s)[i] == Grayscale(s')[i]
  {
    var p := PixelStart(i);
    assert s[p] == s'[p] && s[p + 1] == s'[p + 1] && s[p + 2] == s'[p + 2] && s[i] == s'[i] by {
      assert s[p..p + 4][0] == s'[p..p + 4][0];
      assert s[p..p + 4][1] == s'[p..p + 4][1];
      assert s[p..p + 4][2] == s'[p..p + 4][2];
      assert s[p..p + 4][i - p] == s'[p..p + 4][i - p];
    }
  }
}
