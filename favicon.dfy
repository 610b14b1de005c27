/**
 * The content script's dominant-colour search over a favicon's pixels: the most
 * frequent colour among the pixels that are at least half opaque.
 */
module Favicon {
  import opened Wrappers

  newtype byte = x: int | 0 <= x < 256

  /**
   * A pixel colour. The script keys its counts by the string `r,g,b`, which is
   * different for different triples of bytes, so the triple itself is the key here.
   */
  datatype Rgb = Rgb(r: byte, g: byte, b: byte)

  /** Pixels with an alpha below this are skipped. */
  const OPAQUE_ALPHA: byte := 128

  /** RGBA image data: four bytes per pixel. */
  predicate IsImageData(data: seq<byte>) {
    |data| % 4 == 0
  }

  function PixelCount(data: seq<byte>): nat
    requires IsImageData(data)
  {
    |data| / 4
  }

  predicate Opaque(data: seq<byte>, k: nat)
    requires 4 * k + 4 <= |data|
  {
    data[4 * k + 3] >= OPAQUE_ALPHA
  }

  function PixelColor(data: seq<byte>, k: nat): Rgb
    requires 4 * k + 4 <= |data|
  {
    Rgb(data[4 * k], data[4 * k + 1], data[4 * k + 2])
  }

  /** How many of the first `n` pixels are opaque and of colour `c`. */
  function Count(data: seq<byte>, n: nat, c: Rgb): nat
    requires 4 * n <= |data|
  {
    if n == 0 then 0
    else Count(data, n - 1, c) + (if Opaque(data, n - 1) && PixelColor(data, n - 1) == c then 1 else 0)
  }

  lemma {:induction false} CountMonotone(data: seq<byte>, k: nat, n: nat, c: Rgb)
    requires k <= n && 4 * n <= |data|
    ensures Count(data, k, c) <= Count(data, n, c)
  {
    if k < n {
      CountMonotone(data, k, n - 1, c);
    }
  }

  /** Pixel `at` took colour `c` to count `m`, a count no colour had before that pixel. */
  ghost predicate FirstReached(data: seq<byte>, at: nat, c: Rgb, m: nat)
    requires 4 * at + 4 <= |data|
  {
    Count(data, at + 1, c) == m && forall c' :: Count(data, at, c') < m
  }

  /**
   * `c` is what the loop settles on: it has the largest count, and it was the
   * first colour to reach that count (a later colour only takes over with a
   * strictly larger one).
   */
  ghost predicate IsDominant(data: seq<byte>, c: Rgb)
    requires IsImageData(data)
  {
    var n := PixelCount(data);
    && (forall c' :: Count(data, n, c') <= Count(data, n, c))
    && exists at :: 0 <= at < n && FirstReached(data, at, c, Count(data, n, c))
  }

  /** At most one colour is dominant, so the result of the search is determined by the pixels. */
  lemma DominantUnique(data: seq<byte>, c1: Rgb, c2: Rgb)
    requires IsImageData(data) && IsDominant(data, c1) && IsDominant(data, c2)
    ensures c1 == c2
  {
    var n := PixelCount(data);
    var m := Count(data, n, c1);
    assert Count(data, n, c2) == m;
    var at1 :| 0 <= at1 < n && FirstReached(data, at1, c1, m);
    var at2 :| 0 <= at2 < n && FirstReached(data, at2, c2, m);
    if at1 < at2 {
      CountMonotone(data, at1 + 1, at2, c1);
      assert false;
    } else if at2 < at1 {
      CountMonotone(data, at2 + 1, at1, c2);
      assert false;
    } else {
      assert Count(data, at1, c1) < Count(data, at1 + 1, c1);
      assert Count(data, at1, c2) < Count(data, at1 + 1, c2);
    }
  }

  /** A pixel that is skipped changes no count. */
  lemma CountSkipped(data: seq<byte>, n: nat)
    requires 4 * n + 4 <= |data| && !Opaque(data, n)
    ensures forall c :: Count(data, n + 1, c) == Count(data, n, c)
  {
  }

  /** A counted pixel adds one to its own colour's count and to no other. */
  lemma CountCounted(data: seq<byte>, n: nat)
    requires 4 * n + 4 <= |data| && Opaque(data, n)
    ensures Count(data, n + 1, PixelColor(data, n)) == Count(data, n, PixelColor(data, n)) + 1
    ensures forall c | c != PixelColor(data, n) :: Count(data, n + 1, c) == Count(data, n, c)
  {
  }

  /**
   * The counting loop. On return `colorMap` holds, for every colour with an
   * opaque pixel, the number of its opaque pixels; `maxCount` is the largest of
   * them and `dominant` the dominant colour, or nothing when no pixel is opaque.
   */
  method CountColors(data: seq<byte>) returns (colorMap: map<Rgb, nat>, maxCount: nat, dominant: Option<Rgb>)
    requires IsImageData(data)
    ensures forall c :: c in colorMap <==> Count(data, PixelCount(data), c) > 0
    ensures forall c | c in colorMap :: colorMap[c] == Count(data, PixelCount(data), c)
    ensures forall c :: Count(data, PixelCount(data), c) <= maxCount
    ensures dominant.None? <==> forall k :: 0 <= k < PixelCount(data) ==> !Opaque(data, k)
    ensures dominant.None? ==> maxCount == 0
    ensures dominant.Some? ==> maxCount == Count(data, PixelCount(data), dominant.value) &&
                               IsDominant(data, dominant.value)
  {
    colorMap := map[];
    maxCount := 0;
    dominant := None;
    var i := 0;
    ghost var n: nat := 0;
    while i < |data|
      invariant i == 4 * n && i <= |data|
      invariant forall c :: c in colorMap <==> Count(data, n, c) > 0
      invariant forall c | c in colorMap :: colorMap[c] == Count(data, n, c)
      invariant forall c :: Count(data, n, c) <= maxCount
      invariant maxCount == 0 <==> forall k :: 0 <= k < n ==> !Opaque(data, k)
      invariant dominant.None? <==> maxCount == 0
      invariant dominant.Some? ==> maxCount == Count(data, n, dominant.value)
      invariant dominant.Some? ==> exists at :: 0 <= at < n && FirstReached(data, at, dominant.value, maxCount)
    {
      if data[i + 3] < OPAQUE_ALPHA {
        CountSkipped(data, n);
        i, n := i + 4, n + 1;
        continue;
      }
      var rgb := Rgb(data[i], data[i + 1], data[i + 2]);
      assert rgb == PixelColor(data, n);
      CountCounted(data, n);
      var count := (if rgb in colorMap then colorMap[rgb] else 0) + 1;
      colorMap := colorMap[rgb := count];
      if count > maxCount {
        maxCount := count;
        dominant := Some(rgb);
        assert FirstReached(data, n, rgb, maxCount);
      }
      i, n := i + 4, n + 1;
    }
    assert n == PixelCount(data);
  }

  /**
   * `extractFaviconColor`: no colour when the URL is empty or missing, or when
   * the image cannot be loaded (`image` is `None`); otherwise the dominant colour
   * of the image data, or none when no pixel is opaque.
   */
  method ExtractFaviconColor(faviconUrl: Option<string>, image: Option<seq<byte>>) returns (color: Option<Rgb>)
    requires image.Some? ==> IsImageData(image.value)
    ensures faviconUrl.None? || faviconUrl.value == "" || image.None? ==> color == None
    ensures faviconUrl.Some? && faviconUrl.value != "" && image.Some? ==>
              (color.None? <==> forall k :: 0 <= k < PixelCount(image.value) ==> !Opaque(image.value, k))
    ensures faviconUrl.Some? && faviconUrl.value != "" && image.Some? && color.Some? ==>
              IsDominant(image.value, color.value)
  {
    if faviconUrl.None? || faviconUrl.value == "" {
      return None;
    }
    if image.None? {
      return None;
    }
    var colorMap, maxCount;
    colorMap, maxCount, color := CountColors(image.value);
  }
}
