/** Saving the camera picture, blended with the on-screen drawing, as a BMP file. */
module BmpCapture {
  import opened Machine
  import opened Wrappers
  import opened Slices
  import opened Division

  /** A byte as the number it stands for. */
  type octet = x: int | 0 <= x < 256

  datatype Pixel = Pixel(b: octet, g: octet, r: octet, a: octet)

  /** The camera delivers three planes, red first; the drawing has four bytes a pixel, alpha first.
      Either may hold more or fewer bytes than its dimensions say. */
  datatype Scene = Scene(cam: seq<octet>, camW: nat, camH: nat, osd: seq<octet>, osdW: nat, osdH: nat, w: nat, h: nat)

  // ----- What the picture shows -----

  /** The source coordinate for a target coordinate: `k` of `n` stands for the same share of `m`. */
  function Sample(k: nat, n: nat, m: nat): nat
    requires n > 0
  {
    k * m / n
  }

  /** It is inside the source, and the nearest one at or before the exact share. */
  lemma SampleInBounds(k: nat, n: nat, m: nat)
    requires k < n
    ensures Sample(k, n, m) * n <= k * m < Sample(k, n, m) * n + n
    ensures m > 0 ==> Sample(k, n, m) < m
  {
    Quotient(k * m, n);
    if m > 0 {
      SmallerProduct(k, n, m);
      if Sample(k, n, m) >= m {
        Scale(m, Sample(k, n, m), n);
        assert false;
      }
    }
  }

  lemma SmallerProduct(k: nat, n: nat, m: nat)
    requires k < n && m > 0
    ensures k * m < n * m
  {
    Distribute(n, k, m);
    Scale(1, n - k, m);
  }

  lemma CellInBounds(x: nat, y: nat, w: nat, h: nat)
    requires x < w && y < h
    ensures y * w + x < w * h
  {
    Scale(y + 1, h, w);
  }

  /** Where each plane keeps the sample for a pixel. */
  function CamAt(s: Scene, x: nat, y: nat): nat
    requires x < s.w && y < s.h
  {
    Sample(y, s.h, s.camH) * s.camW + Sample(x, s.w, s.camW)
  }

  /** The last plane is the one that ends first. */
  predicate CamReadable(s: Scene, x: nat, y: nat)
    requires x < s.w && y < s.h
  {
    2 * (s.camW * s.camH) + CamAt(s, x, y) < |s.cam|
  }

  predicate CamFits(s: Scene) {
    forall x, y | 0 <= x < s.w && 0 <= y < s.h :: CamReadable(s, x, y)
  }

  /** Three full planes are enough. */
  lemma FullPlanesFit(s: Scene)
    requires s.camW > 0 && s.camH > 0 && |s.cam| >= 3 * (s.camW * s.camH)
    ensures CamFits(s)
  {
    hide Sample;
    forall x, y | 0 <= x < s.w && 0 <= y < s.h
      ensures CamReadable(s, x, y)
    {
      SampleInBounds(x, s.w, s.camW);
      SampleInBounds(y, s.h, s.camH);
      CellInBounds(Sample(x, s.w, s.camW), Sample(y, s.h, s.camH), s.camW, s.camH);
    }
  }

  function CamPixel(s: Scene, x: nat, y: nat): Pixel
    requires x < s.w && y < s.h
  {
    var plane, at := s.camW * s.camH, CamAt(s, x, y);
    if CamReadable(s, x, y) then Pixel(s.cam[2 * plane + at], s.cam[plane + at], s.cam[at], 255)
    else Pixel(0, 0, 0, 255)
  }

  /** One colour of the drawing over one of the camera, with the drawing's opacity. */
  function Blend(over: octet, under: octet, alpha: octet): (c: octet)
    ensures (if over < under then over else under) - 1 <= c <= if over < under then under else over
  {
    if alpha == 0 then under
    else if alpha >= 250 then over
    else
      Mix(over, under, alpha);
      (over * alpha + under * (255 - alpha)) / 256
  }

  /** Dividing by 256 where the weights sum to 255 keeps the result between the two, but for one. */
  lemma Mix(over: octet, under: octet, alpha: octet)
    ensures var mixed := over * alpha + under * (255 - alpha);
      var low, high := if over < under then over else under, if over < under then under else over;
      255 * low <= mixed <= 255 * high && low - 1 <= mixed / 256 <= high
  {
    var low, high := if over < under then over else under, if over < under then under else over;
    Scale(low, over, alpha);
    Scale(low, under, 255 - alpha);
    Scale(over, high, alpha);
    Scale(under, high, 255 - alpha);
    assert low * alpha + low * (255 - alpha) == 255 * low;
    assert high * alpha + high * (255 - alpha) == 255 * high;
  }

  /** Opacity weighs the drawing: a blended colour is the exact mixture, or less than two steps below
      it; from 250 on only the drawing shows, and at zero only what is under it. */
  lemma BlendIsMixture(over: octet, under: octet, alpha: octet)
    ensures alpha >= 250 ==> Blend(over, under, alpha) == over
    ensures alpha == 0 ==> Blend(over, under, alpha) == under
    ensures 0 < alpha < 250 ==>
      var c, mixed := Blend(over, under, alpha), over * alpha + under * (255 - alpha);
      255 * c <= mixed < 255 * (c + 2)
  {
    Mix(over, under, alpha);
  }

  /** Where a picture `w` pixels wide keeps pixel `x` of row `y`. */
  function Pos(w: nat, x: nat, y: nat): nat {
    y * w * 4 + x * 4
  }

  lemma PosIs(w: nat, x: nat, y: nat)
    ensures Pos(w, x, y) == y * w * 4 + x * 4
  {
  }

  function Bytes(p: Pixel): seq<octet> {
    [p.b, p.g, p.r, p.a]
  }

  /** Where the drawing keeps its sample for a pixel. */
  function OsdAt(s: Scene, x: nat, y: nat): nat
    requires x < s.w && y < s.h
  {
    Pos(s.osdW, Sample(x, s.w, s.osdW), Sample(y, s.h, s.osdH))
  }

  predicate HasDrawing(s: Scene) {
    s.osdW > 0 && s.osdH > 0
  }

  /** The sample is there, its colours too if it is not transparent. */
  predicate OsdReadable(s: Scene, x: nat, y: nat)
    requires x < s.w && y < s.h
  {
    var at := OsdAt(s, x, y);
    at < |s.osd| && (s.osd[at] > 0 ==> at + 3 < |s.osd|)
  }

  /** A drawing with four bytes for each of its pixels can be read everywhere. */
  lemma FullDrawingReads(s: Scene, x: nat, y: nat)
    requires HasDrawing(s) && |s.osd| >= 4 * (s.osdW * s.osdH) && x < s.w && y < s.h
    ensures OsdReadable(s, x, y)
  {
    hide Sample;
    SampleInBounds(x, s.w, s.osdW);
    SampleInBounds(y, s.h, s.osdH);
    CellInBounds(Sample(x, s.w, s.osdW), Sample(y, s.h, s.osdH), s.osdW, s.osdH);
  }

  /** A place in the order in which the loops go through the picture, and what comes before it. */
  datatype Place = Place(row: nat, col: nat)

  const NOWHERE := Place(0, 0)

  predicate Before(p: Place, x: nat, y: nat) {
    y < p.row || (y == p.row && x < p.col)
  }

  function Everywhere(s: Scene): Place {
    Place(s.h, 0)
  }

  /** What the picture shows when the drawing has been blended in as far as a place. */
  function Shade(s: Scene, upto: Place, x: nat, y: nat): Pixel
    requires x < s.w && y < s.h
  {
    var under, at := CamPixel(s, x, y), OsdAt(s, x, y);
    if Before(upto, x, y) && HasDrawing(s) && OsdReadable(s, x, y) && s.osd[at] > 0 then
      Pixel(Blend(s.osd[at + 3], under.b, s.osd[at]),
            Blend(s.osd[at + 2], under.g, s.osd[at]),
            Blend(s.osd[at + 1], under.r, s.osd[at]),
            255)
    else under
  }

  // ----- Rows and rasters -----

  /** The first `n` pixels of row `y`. */
  function Row(s: Scene, upto: Place, y: nat, n: nat): (r: seq<octet>)
    requires y < s.h && n <= s.w
    ensures |r| == 4 * n
  {
    if n == 0 then [] else Row(s, upto, y, n - 1) + Bytes(Shade(s, upto, n - 1, y))
  }

  lemma {:induction false} RowAt(s: Scene, upto: Place, y: nat, n: nat, x: nat)
    requires y < s.h && x < n <= s.w
    ensures Row(s, upto, y, n)[4 * x..4 * x + 4] == Bytes(Shade(s, upto, x, y))
  {
    hide Shade, Bytes;
    if x < n - 1 {
      RowAt(s, upto, y, n - 1, x);
    }
  }

  /** Where row `y` starts. */
  function Start(w: nat, y: nat): nat {
    if y == 0 then 0 else Start(w, y - 1) + 4 * w
  }

  lemma {:induction false} StartIs(w: nat, y: nat)
    ensures Start(w, y) == y * w * 4
  {
    if y > 0 {
      StartIs(w, y - 1);
      Distribute(y, 1, w);
    }
  }

  lemma {:induction false} RowBefore(w: nat, y: nat, rows: nat)
    requires y < rows
    ensures Start(w, y) + 4 * w <= Start(w, rows)
  {
    if y < rows - 1 {
      RowBefore(w, y, rows - 1);
    }
  }

  /** The first rows, top row first. */
  function Raster(s: Scene, upto: Place, rows: nat): (r: seq<octet>)
    requires rows <= s.h
    ensures |r| == Start(s.w, rows)
  {
    if rows == 0 then [] else Raster(s, upto, rows - 1) + Row(s, upto, rows - 1, s.w)
  }

  lemma {:induction false} RasterRow(s: Scene, upto: Place, rows: nat, y: nat)
    requires y < rows <= s.h
    ensures Start(s.w, y) + 4 * s.w <= Start(s.w, rows)
    ensures Raster(s, upto, rows)[Start(s.w, y)..Start(s.w, y) + 4 * s.w] == Row(s, upto, y, s.w)
  {
    hide Row, Raster;
    RasterGrows(s, upto, rows - 1);
    var above, row := Raster(s, upto, rows - 1), Row(s, upto, rows - 1, s.w);
    if y < rows - 1 {
      RasterRow(s, upto, rows - 1, y);
      SliceOfFirst(above, row, Start(s.w, y), Start(s.w, y) + 4 * s.w);
    } else {
      SliceIsSecond(above, row);
    }
  }

  /** Rows from the bottom up to row `k`, as the file stores them. */
  function Flipped(s: Scene, upto: Place, k: nat): (r: seq<octet>)
    requires k <= s.h
    ensures |r| == Start(s.w, s.h - k)
    decreases s.h - k
  {
    if k == s.h then [] else Flipped(s, upto, k + 1) + Row(s, upto, k, s.w)
  }

  lemma {:induction false} FlippedRow(s: Scene, upto: Place, k: nat, y: nat)
    requires k <= y < s.h
    ensures Start(s.w, s.h - 1 - y) + 4 * s.w <= Start(s.w, s.h - k)
    ensures var start := Start(s.w, s.h - 1 - y);
      Flipped(s, upto, k)[start..start + 4 * s.w] == Row(s, upto, y, s.w)
    decreases y - k
  {
    hide Row, Flipped;
    FlippedGrows(s, upto, k);
    var below, row := Flipped(s, upto, k + 1), Row(s, upto, k, s.w);
    if k < y {
      FlippedRow(s, upto, k + 1, y);
      var start := Start(s.w, s.h - 1 - y);
      SliceOfFirst(below, row, start, start + 4 * s.w);
    } else {
      SliceIsSecond(below, row);
    }
  }

  lemma FlippedGrows(s: Scene, upto: Place, k: nat)
    requires k < s.h
    ensures Flipped(s, upto, k) == Flipped(s, upto, k + 1) + Row(s, upto, k, s.w)
  {
  }

  lemma RasterStarts(s: Scene, upto: Place)
    ensures Start(s.w, 0) == 0 && Raster(s, upto, 0) == []
  {
  }

  lemma RowGrows(s: Scene, upto: Place, y: nat, n: nat)
    requires y < s.h && n < s.w
    ensures Row(s, upto, y, n + 1) == Row(s, upto, y, n) + Bytes(Shade(s, upto, n, y))
  {
  }

  lemma RasterGrows(s: Scene, upto: Place, y: nat)
    requires y < s.h
    ensures Row(s, upto, y, 0) == []
    ensures Start(s.w, y + 1) == Start(s.w, y) + 4 * s.w
    ensures Raster(s, upto, y + 1) == Raster(s, upto, y) + Row(s, upto, y, s.w)
  {
  }

  // ----- Two places, one picture -----

  lemma {:induction false} RowAgrees(s: Scene, p: Place, q: Place, y: nat, n: nat)
    requires y < s.h && n <= s.w
    requires forall x | 0 <= x < n :: Before(p, x, y) == Before(q, x, y)
    ensures Row(s, p, y, n) == Row(s, q, y, n)
  {
    hide Before;
    if n > 0 {
      RowAgrees(s, p, q, y, n - 1);
      assert Before(p, n - 1, y) == Before(q, n - 1, y);
    }
  }

  lemma {:induction false} RasterAgrees(s: Scene, p: Place, q: Place, rows: nat)
    requires rows <= s.h
    requires forall x, y | 0 <= x < s.w && 0 <= y < rows :: Before(p, x, y) == Before(q, x, y)
    ensures Raster(s, p, rows) == Raster(s, q, rows)
  {
    hide Row, Before;
    if rows > 0 {
      RasterAgrees(s, p, q, rows - 1);
      RowAgrees(s, p, q, rows - 1, s.w);
    }
  }

  lemma {:induction false} RowSplits(s: Scene, p: Place, y: nat, k: nat, n: nat)
    requires y < s.h && k <= n <= s.w && (forall x | k <= x < n :: !Before(p, x, y))
    ensures Row(s, p, y, n)[..4 * k] == Row(s, p, y, k)
    ensures Row(s, p, y, n)[4 * k..] == Row(s, NOWHERE, y, n)[4 * k..]
  {
    hide Bytes;
    if k < n {
      RowSplits(s, p, y, k, n - 1);
      assert !Before(p, n - 1, y);
      assert Shade(s, p, n - 1, y) == Shade(s, NOWHERE, n - 1, y);
    }
  }

  /** Behind the place the raster is that of the camera. */
  lemma {:induction false} RasterSplits(s: Scene, dy: nat, dx: nat, rows: nat)
    requires dy < rows <= s.h && dx <= s.w
    ensures var p := Place(dy, dx);
      var at := Start(s.w, dy) + 4 * dx;
      && at <= Start(s.w, rows)
      && Raster(s, p, rows)[..at] == Raster(s, p, dy) + Row(s, p, dy, dx)
      && Raster(s, p, rows)[at..] == Raster(s, NOWHERE, rows)[at..]
  {
    hide Raster, Row, Before;
    var p, at := Place(dy, dx), Start(s.w, dy) + 4 * dx;
    RasterGrows(s, p, rows - 1);
    RasterGrows(s, NOWHERE, rows - 1);
    if rows == dy + 1 {
      BehindIsLater(dy, dx);
      RowSplits(s, p, dy, dx, s.w);
      SplitInSecond(Raster(s, p, dy), Row(s, p, dy, s.w), 4 * dx);
      SplitInSecond(Raster(s, NOWHERE, dy), Row(s, NOWHERE, dy, s.w), 4 * dx);
    } else {
      RasterSplits(s, dy, dx, rows - 1);
      LaterRow(dy, dx, rows - 1);
      RowAgrees(s, p, NOWHERE, rows - 1, s.w);
      SplitInFirst(Raster(s, p, rows - 1), Row(s, p, rows - 1, s.w), at);
      SplitInFirst(Raster(s, NOWHERE, rows - 1), Row(s, NOWHERE, rows - 1, s.w), at);
    }
  }

  lemma BehindIsLater(dy: nat, dx: nat)
    ensures forall x | x >= dx :: !Before(Place(dy, dx), x, dy)
  {
  }

  lemma LaterRow(dy: nat, dx: nat, y: nat)
    requires y > dy
    ensures forall x: nat :: Before(Place(dy, dx), x, y) == Before(NOWHERE, x, y)
  {
  }

  lemma SplitInSecond(a: seq<octet>, b: seq<octet>, k: nat)
    requires k <= |b|
    ensures (a + b)[..|a| + k] == a + b[..k] && (a + b)[|a| + k..] == b[k..]
  {
  }

  lemma SplitInFirst(a: seq<octet>, b: seq<octet>, k: nat)
    requires k <= |a|
    ensures (a + b)[..k] == a[..k] && (a + b)[k..] == a[k..] + b
  {
  }

  // ----- The pixel loops -----

  /** Fills the buffer from the three planes; reading past the camera data gives up. */
  method FillCamera(s: Scene) returns (ok: bool, bgra: array<octet>)
    ensures fresh(bgra) && (ok <==> CamFits(s))
    ensures ok ==> bgra[..] == Raster(s, NOWHERE, s.h)
  {
    hide Raster, Row, Start, CamReadable;
    StartIs(s.w, s.h);
    bgra := new octet[s.w * s.h * 4];
    RasterStarts(s, NOWHERE);
    ok := true;
    for dy := 0 to s.h
      invariant ok && bgra.Length == Start(s.w, s.h) && Start(s.w, dy) <= bgra.Length
      invariant bgra[..Start(s.w, dy)] == Raster(s, NOWHERE, dy)
      invariant forall x, y | 0 <= x < s.w && 0 <= y < dy :: CamReadable(s, x, y)
    {
      ok := FillRow(s, bgra, dy);
      if !ok {
        return;
      }
      RasterGrows(s, NOWHERE, dy);
      RowBefore(s.w, dy, s.h);
    }
  }

  method FillRow(s: Scene, bgra: array<octet>, dy: nat) returns (ok: bool)
    requires dy < s.h && bgra.Length == Start(s.w, s.h)
    requires Start(s.w, dy) <= bgra.Length && bgra[..Start(s.w, dy)] == Raster(s, NOWHERE, dy)
    modifies bgra
    ensures ok <==> forall x | 0 <= x < s.w :: CamReadable(s, x, dy)
    ensures ok ==>
      && Start(s.w, dy) + 4 * s.w <= bgra.Length
      && bgra[..Start(s.w, dy) + 4 * s.w] == Raster(s, NOWHERE, dy) + Row(s, NOWHERE, dy, s.w)
  {
    hide Raster, Row, Sample, Shade, Start, Bytes, CamReadable;
    var planeSize := s.camW * s.camH;
    var srcY := Sample(dy, s.h, s.camH);
    StartIs(s.w, dy);
    RowBefore(s.w, dy, s.h);
    RasterGrows(s, NOWHERE, dy);
    var rowBase := dy * s.w * 4;
    for dx := 0 to s.w
      invariant bgra[..rowBase + dx * 4] == Raster(s, NOWHERE, dy) + Row(s, NOWHERE, dy, dx)
      invariant forall x | 0 <= x < dx :: CamReadable(s, x, dy)
    {
      var srcX := Sample(dx, s.w, s.camW);
      CameraAt(s, dx, dy);
      var srcIdx := srcY * s.camW + srcX;
      var di := rowBase + dx * 4;
      if 2 * planeSize + srcIdx >= |s.cam| {
        return false;
      }
      PutPixel(bgra, di, s.cam[2 * planeSize + srcIdx], s.cam[planeSize + srcIdx], s.cam[srcIdx]);
      RowGrows(s, NOWHERE, dy, dx);
    }
    ok := true;
  }

  method PutPixel(bgra: array<octet>, di: nat, b: octet, g: octet, r: octet)
    requires di + 4 <= bgra.Length
    modifies bgra
    ensures bgra[..di + 4] == old(bgra[..di]) + [b, g, r, 255]
  {
    bgra[di] := b;
    bgra[di + 1] := g;
    bgra[di + 2] := r;
    bgra[di + 3] := 255;
  }

  lemma CameraAt(s: Scene, x: nat, y: nat)
    requires x < s.w && y < s.h
    ensures var plane := s.camW * s.camH;
      var at := Sample(y, s.h, s.camH) * s.camW + Sample(x, s.w, s.camW);
      && (CamReadable(s, x, y) <==> 2 * plane + at < |s.cam|)
      && (CamReadable(s, x, y) ==>
            Bytes(Shade(s, NOWHERE, x, y)) == [s.cam[2 * plane + at], s.cam[plane + at], s.cam[at], 255])
  {
    hide Sample;
  }

  /** Drawn up to pixel `dx` of row `dy`, camera only from there on. */
  predicate Merged(s: Scene, image: seq<octet>, dy: nat, dx: nat)
    requires dy < s.h && dx <= s.w
  {
    var done := Raster(s, Everywhere(s), dy) + Row(s, Everywhere(s), dy, dx);
    && |image| == Start(s.w, s.h)
    && |done| <= |image|
    && image[..|done|] == done
    && image[|done|..] == Raster(s, NOWHERE, s.h)[|done|..]
  }

  /** That is the picture drawn as far as this place. */
  lemma MergedIsRaster(s: Scene, image: seq<octet>, dy: nat, dx: nat)
    requires dy < s.h && dx <= s.w && Merged(s, image, dy, dx)
    ensures image == Raster(s, Place(dy, dx), s.h)
  {
    hide Raster, Row;
    var p, all := Place(dy, dx), Everywhere(s);
    RasterSplits(s, dy, dx, s.h);
    RasterAgrees(s, p, all, dy);
    RowAgrees(s, p, all, dy, dx);
    var at := Start(s.w, dy) + 4 * dx;
    var whole := Raster(s, p, s.h);
    assert image == image[..at] + image[at..];
    assert whole == whole[..at] + whole[at..];
  }

  lemma MergedPixel(s: Scene, image: seq<octet>, dy: nat, dx: nat)
    requires dy < s.h && dx < s.w && Merged(s, image, dy, dx)
    ensures var dp := Pos(s.w, dx, dy);
      dp + 4 <= |image| == Start(s.w, s.h) && image[dp..dp + 4] == Bytes(Shade(s, NOWHERE, dx, dy))
  {
    hide Raster, Row, Shade, Bytes;
    StartIs(s.w, dy);
    RowBefore(s.w, dy, s.h);
    RasterRow(s, NOWHERE, s.h, dy);
    RowAt(s, NOWHERE, dy, s.w, dx);
    var dp := Pos(s.w, dx, dy);
    var all, from := Raster(s, NOWHERE, s.h), Start(s.w, dy);
    assert image[dp..dp + 4] == image[dp..][..4];
    assert all[dp..dp + 4] == all[dp..][..4];
    SliceOfSlice(all, from, from + 4 * s.w, 4 * dx, 4 * dx + 4);
  }

  lemma MergedStep(s: Scene, image: seq<octet>, after: seq<octet>, dy: nat, dx: nat)
    requires dy < s.h && dx < s.w && Merged(s, image, dy, dx) && |after| == |image|
    requires var dp := Pos(s.w, dx, dy);
      dp + 4 <= |image| && after == image[..dp] + Bytes(Shade(s, Everywhere(s), dx, dy)) + image[dp + 4..]
    ensures Merged(s, after, dy, dx + 1)
  {
    hide Raster, Row, Shade, Bytes;
    StartIs(s.w, dy);
    RowGrows(s, Everywhere(s), dy, dx);
    var dp := Pos(s.w, dx, dy);
    var all := Raster(s, NOWHERE, s.h);
    assert after[dp + 4..] == image[dp..][4..];
    assert all[dp + 4..] == all[dp..][4..];
  }

  lemma MergedRow(s: Scene, image: seq<octet>, dy: nat)
    requires dy < s.h && Merged(s, image, dy, s.w)
    ensures dy + 1 < s.h ==> Merged(s, image, dy + 1, 0)
    ensures dy + 1 == s.h ==> image == Raster(s, Everywhere(s), s.h)
  {
    hide Shade;
    RasterGrows(s, Everywhere(s), dy);
    if dy + 1 < s.h {
      RasterGrows(s, Everywhere(s), dy + 1);
    } else {
      assert image == image[..|image|];
    }
  }

  lemma MergedFirst(s: Scene)
    requires s.h > 0
    ensures Merged(s, Raster(s, NOWHERE, s.h), 0, 0)
  {
    RasterStarts(s, Everywhere(s));
    RasterGrows(s, Everywhere(s), 0);
  }

  /** An empty drawing leaves the camera picture. */
  lemma {:induction false} Undrawn(s: Scene, p: Place, rows: nat)
    requires rows <= s.h && !HasDrawing(s)
    ensures Raster(s, p, rows) == Raster(s, NOWHERE, rows)
  {
    if rows > 0 {
      Undrawn(s, p, rows - 1);
      UndrawnRow(s, p, rows - 1, s.w);
    }
  }

  lemma {:induction false} UndrawnRow(s: Scene, p: Place, y: nat, n: nat)
    requires y < s.h && n <= s.w && !HasDrawing(s)
    ensures Row(s, p, y, n) == Row(s, NOWHERE, y, n)
  {
    if n > 0 {
      UndrawnRow(s, p, y, n - 1);
    }
  }

  /** Reading the drawing for a pixel gives up. */
  predicate Fails(s: Scene, x: nat, y: nat)
    requires x < s.w && y < s.h
  {
    HasDrawing(s) && !OsdReadable(s, x, y)
  }

  /** The place of the first pixel for which it does, or the end of the picture. */
  ghost predicate Stops(s: Scene, stop: Place) {
    && (forall x, y | 0 <= x < s.w && 0 <= y < s.h && Before(stop, x, y) :: !Fails(s, x, y))
    && (stop == Everywhere(s) || (stop.row < s.h && stop.col < s.w && Fails(s, stop.col, stop.row)))
  }

  /** With a full drawing, or none, it is the end. */
  lemma FullDrawingStops(s: Scene, stop: Place)
    requires Stops(s, stop) && |s.osd| >= 4 * (s.osdW * s.osdH)
    ensures stop == Everywhere(s)
  {
    if HasDrawing(s) && stop != Everywhere(s) {
      FullDrawingReads(s, stop.col, stop.row);
      assert false;
    }
  }

  /** The arithmetic of one drawn pixel. */
  lemma DrawnPixel(s: Scene, x: nat, y: nat)
    requires x < s.w && y < s.h && HasDrawing(s)
    ensures var at := Pos(s.osdW, Sample(x, s.w, s.osdW), Sample(y, s.h, s.osdH));
      && (Fails(s, x, y) <==> at >= |s.osd| || (s.osd[at] > 0 && at + 3 >= |s.osd|))
      && (!Fails(s, x, y) ==>
            var under, a := Shade(s, NOWHERE, x, y), s.osd[at];
            Bytes(Shade(s, Everywhere(s), x, y)) ==
              if a == 0 then Bytes(under)
              else [Blend(s.osd[at + 3], under.b, a), Blend(s.osd[at + 2], under.g, a),
                    Blend(s.osd[at + 1], under.r, a), 255])
      && Shade(s, NOWHERE, x, y).a == 255
  {
    hide Sample, Blend;
  }

  /** Blends the drawing in place.  It stops early only where the drawing ends too soon, and then
      leaves the picture drawn as far as that place. */
  method BlendOsd(s: Scene, bgra: array<octet>) returns (ghost stop: Place)
    requires bgra[..] == Raster(s, NOWHERE, s.h)
    modifies bgra
    ensures Stops(s, stop) && bgra[..] == Raster(s, stop, s.h)
  {
    hide Raster, Row, Sample, Shade, Start, Bytes, Merged, Blend, Fails;
    stop := Everywhere(s);
    if !HasDrawing(s) {
      Undrawn(s, stop, s.h);
      NoneFails(s);
    } else if s.h == 0 {
      RasterStarts(s, NOWHERE);
      RasterStarts(s, stop);
    } else {
      MergedFirst(s);
    }
    for dy := 0 to s.h
      invariant !HasDrawing(s) ==> bgra[..] == Raster(s, NOWHERE, s.h)
      invariant HasDrawing(s) && dy < s.h ==> Merged(s, bgra[..], dy, 0)
      invariant HasDrawing(s) && dy == s.h ==> bgra[..] == Raster(s, Everywhere(s), s.h)
      invariant forall x, y | 0 <= x < s.w && 0 <= y < dy :: !Fails(s, x, y)
    {
      SampleInBounds(dy, s.h, s.osdH);
      var osdSrcY := Sample(dy, s.h, s.osdH);
      if osdSrcY >= s.osdH {
        break;
      }
      var failed, dx := BlendRow(s, bgra, dy);
      if failed {
        stop := Place(dy, dx);
        MergedIsRaster(s, bgra[..], dy, dx);
        return;
      }
      if HasDrawing(s) {
        MergedRow(s, bgra[..], dy);
      }
    }
  }

  lemma NoneFails(s: Scene)
    requires !HasDrawing(s)
    ensures forall x, y | 0 <= x < s.w && 0 <= y < s.h :: !Fails(s, x, y)
  {
  }

  method BlendRow(s: Scene, bgra: array<octet>, dy: nat) returns (failed: bool, col: nat)
    requires dy < s.h && s.osdH > 0 && (HasDrawing(s) ==> Merged(s, bgra[..], dy, 0))
    modifies bgra
    ensures !HasDrawing(s) ==> !failed && bgra[..] == old(bgra[..])
    ensures HasDrawing(s) ==> col <= s.w && Merged(s, bgra[..], dy, col)
    ensures failed ==> col < s.w && Fails(s, col, dy)
    ensures !failed ==> col == s.w
    ensures forall x | 0 <= x < col && x < s.w :: !Fails(s, x, dy)
  {
    hide Sample, Shade, Bytes, Merged, Blend, Pos, Fails;
    if !HasDrawing(s) {
      NoneFails(s);
    }
    var srcRow := Sample(dy, s.h, s.osdH) * s.osdW * 4;
    var dstRow := dy * s.w * 4;
    for dx := 0 to s.w
      invariant !HasDrawing(s) ==> bgra[..] == old(bgra[..])
      invariant HasDrawing(s) ==> Merged(s, bgra[..], dy, dx)
      invariant forall x | 0 <= x < dx :: !Fails(s, x, dy)
    {
      SampleInBounds(dx, s.w, s.osdW);
      var osdSrcX := Sample(dx, s.w, s.osdW);
      if osdSrcX >= s.osdW {
        assert !HasDrawing(s);
        break;
      }
      var sp := srcRow + osdSrcX * 4;
      var dp := dstRow + dx * 4;
      ghost var image := bgra[..];
      PosIs(s.osdW, osdSrcX, Sample(dy, s.h, s.osdH));
      PosIs(s.w, dx, dy);
      DrawnPixel(s, dx, dy);
      MergedAlpha(s, image, dy, dx);
      if sp >= |s.osd| {
        return true, dx;
      }
      var a := s.osd[sp];
      if a > 0 {
        if sp + 3 >= |s.osd| {
          return true, dx;
        }
        PutOsd(bgra, dp, a, s.osd[sp + 3], s.osd[sp + 2], s.osd[sp + 1]);
      }
      MergedPut(s, image, bgra[..], dy, dx);
    }
    failed, col := false, s.w;
  }

  /** One pixel of the drawing over what the picture holds. */
  method PutOsd(bgra: array<octet>, dp: nat, a: octet, b: octet, g: octet, r: octet)
    requires dp + 4 <= bgra.Length && a > 0
    modifies bgra
    ensures bgra[..] == old(bgra[..dp])
      + [Blend(b, old(bgra[dp]), a), Blend(g, old(bgra[dp + 1]), a), Blend(r, old(bgra[dp + 2]), a), 255]
      + old(bgra[dp + 4..])
  {
    hide Blend;
    BlendIs(b, bgra[dp], a);
    BlendIs(g, bgra[dp + 1], a);
    BlendIs(r, bgra[dp + 2], a);
    if a >= 250 {
      bgra[dp] := b;
      bgra[dp + 1] := g;
      bgra[dp + 2] := r;
    } else {
      var invA := 255 - a;
      bgra[dp] := (b * a + bgra[dp] * invA) / 256;
      bgra[dp + 1] := (g * a + bgra[dp + 1] * invA) / 256;
      bgra[dp + 2] := (r * a + bgra[dp + 2] * invA) / 256;
    }
    bgra[dp + 3] := 255;
    assert bgra[..] == bgra[..dp] + [bgra[dp], bgra[dp + 1], bgra[dp + 2], bgra[dp + 3]] + bgra[dp + 4..];
  }

  lemma BlendIs(over: octet, under: octet, alpha: octet)
    requires alpha > 0
    ensures alpha >= 250 ==> Blend(over, under, alpha) == over
    ensures alpha < 250 ==> Blend(over, under, alpha) == (over * alpha + under * (255 - alpha)) / 256
  {
  }

  lemma MergedAlpha(s: Scene, image: seq<octet>, dy: nat, dx: nat)
    requires dy < s.h && dx < s.w && Merged(s, image, dy, dx)
    ensures Pos(s.w, dx, dy) + 4 <= |image|
  {
    hide Merged;
    MergedPixel(s, image, dy, dx);
  }

  lemma MergedPut(s: Scene, image: seq<octet>, after: seq<octet>, dy: nat, dx: nat)
    requires dy < s.h && dx < s.w && HasDrawing(s) && Merged(s, image, dy, dx) && !Fails(s, dx, dy)
    requires |after| == |image|
    requires var dp := Pos(s.w, dx, dy);
      var at := Pos(s.osdW, Sample(dx, s.w, s.osdW), Sample(dy, s.h, s.osdH));
      && dp + 4 <= |image| && at < |s.osd| && (s.osd[at] > 0 ==> at + 3 < |s.osd|)
      && (s.osd[at] == 0 ==> after == image)
      && (s.osd[at] > 0 ==>
            var drawn := [Blend(s.osd[at + 3], image[dp], s.osd[at]), Blend(s.osd[at + 2], image[dp + 1], s.osd[at]),
                          Blend(s.osd[at + 1], image[dp + 2], s.osd[at]), 255];
            after == image[..dp] + drawn + image[dp + 4..])
    ensures Merged(s, after, dy, dx + 1)
  {
    hide Merged, Sample, Blend, Shade, Fails;
    var dp := Pos(s.w, dx, dy);
    MergedPixel(s, image, dy, dx);
    DrawnPixel(s, dx, dy);
    assert image[dp..dp + 4] == [image[dp], image[dp + 1], image[dp + 2], image[dp + 3]];
    assert image == image[..dp] + image[dp..dp + 4] + image[dp + 4..];
    MergedStep(s, image, after, dy, dx);
  }

  // ----- The file -----

  /** The low 32 bits of a number, least byte first. */
  function Le32(n: nat): (r: seq<octet>)
    ensures |r| == 4
  {
    [n % 256, n / 256 % 256, n / 65536 % 256, n / 16777216 % 256]
  }

  function ReadLe32(file: seq<octet>, at: nat): nat
    requires at + 4 <= |file|
  {
    (file[at] as int) + 256 * (file[at + 1] as int) + 65536 * (file[at + 2] as int) + 16777216 * (file[at + 3] as int)
  }

  lemma Le32Back(n: nat)
    ensures ReadLe32(Le32(n), 0) == n % WORD
  {
    ByBytes(n);
    Divided(WORD, n, n / WORD, ReadLe32(Le32(n), 0));
  }

  function Header(w: nat, h: nat): (r: seq<octet>)
    ensures |r| == 54
  {
    hide Le32;
    HeaderOf(Le32(54 + w * h * 4), Le32(w), Le32(h), Le32(w * h * 4))
  }

  function HeaderOf(size: seq<octet>, w: seq<octet>, h: seq<octet>, imageSize: seq<octet>): (r: seq<octet>)
    requires |size| == |w| == |h| == |imageSize| == 4
    ensures |r| == 54
  {
    Front(size) + Middle(w, h) + Back(imageSize)
  }

  function Front(size: seq<octet>): (r: seq<octet>)
    ensures |r| == 14 + |size|
  {
    [0x42, 0x4D] + size + [0, 0, 0, 0] + [54, 0, 0, 0] + [40, 0, 0, 0]
  }

  function Middle(w: seq<octet>, h: seq<octet>): (r: seq<octet>)
    ensures |r| == |w| + |h| + 4
  {
    w + h + [1, 0] + [32, 0]
  }

  function Back(imageSize: seq<octet>): (r: seq<octet>)
    ensures |r| == 20 + |imageSize|
  {
    [0, 0, 0, 0] + imageSize + [0, 0, 0, 0] + [0, 0, 0, 0] + [0, 0, 0, 0] + [0, 0, 0, 0]
  }

  /** What a reader of uncompressed BMP files learns from the header. */
  datatype Info = Info(magic: seq<octet>, size: nat, offset: nat, dib: nat, width: nat, height: nat,
                       planesAndDepth: seq<octet>, compression: nat, imageSize: nat)

  function ReadInfo(file: seq<octet>): Info
    requires |file| >= 54
  {
    Info(file[..2], ReadLe32(file, 2), ReadLe32(file, 10), ReadLe32(file, 14), ReadLe32(file, 18),
         ReadLe32(file, 22), file[26..30], ReadLe32(file, 30), ReadLe32(file, 34))
  }

  lemma HeaderReads(w: nat, h: nat, data: seq<octet>)
    ensures ReadInfo(Header(w, h) + data)
      == Info([0x42, 0x4D], (54 + w * h * 4) % WORD, 54, 40, w % WORD, h % WORD, [1, 0, 32, 0], 0, w * h * 4 % WORD)
  {
    hide Le32, Front, Middle, Back, ReadLe32;
    var n := w * h * 4;
    var file := Header(w, h) + data;
    var front, middle, back := Front(Le32(54 + n)), Middle(Le32(w), Le32(h)), Back(Le32(n));
    Le32Back(54 + n);
    Le32Back(n);
    Le32Back(w);
    Le32Back(h);
    FrontReads(Le32(54 + n), middle + back + data);
    MiddleReads(front, Le32(w), Le32(h), back + data);
    BackReads(front + middle, Le32(n), data);
    assert file == front + (middle + back + data);
    assert file == front + middle + (back + data);
    assert file == (front + middle) + back + data;
  }

  lemma FrontReads(size: seq<octet>, rest: seq<octet>)
    requires |size| == 4
    ensures |Front(size)| == 18
    ensures var file := Front(size) + rest;
      && file[..2] == [0x42, 0x4D] && ReadLe32(file, 2) == ReadLe32(size, 0)
      && ReadLe32(file, 10) == 54 && ReadLe32(file, 14) == 40
  {
  }

  lemma MiddleReads(front: seq<octet>, w: seq<octet>, h: seq<octet>, rest: seq<octet>)
    requires |front| == 18 && |w| == |h| == 4
    ensures |Middle(w, h)| == 12
    ensures var file := front + Middle(w, h) + rest;
      && ReadLe32(file, 18) == ReadLe32(w, 0) && ReadLe32(file, 22) == ReadLe32(h, 0)
      && file[26..30] == [1, 0, 32, 0]
  {
  }

  lemma BackReads(front: seq<octet>, n: seq<octet>, rest: seq<octet>)
    requires |front| == 30 && |n| == 4
    ensures |Back(n)| == 24
    ensures var file := front + Back(n) + rest;
      ReadLe32(file, 30) == 0 && ReadLe32(file, 34) == ReadLe32(n, 0)
  {
  }

  lemma HeaderFits(w: nat, h: nat, data: seq<octet>)
    requires w < WORD && h < WORD
    ensures var i := ReadInfo(Header(w, h) + data);
      i.offset == 54 && i.width == w && i.height == h
  {
    hide ReadInfo, Header;
    HeaderReads(w, h, data);
  }

  /** The pixel a reader finds: rows are stored from the bottom up. */
  function PixelAt(file: seq<octet>, x: nat, y: nat): seq<octet>
    requires |file| >= 54
    requires var i := ReadInfo(file);
      x < i.width && y < i.height && i.offset + Pos(i.width, x, i.height - 1 - y) + 4 <= |file|
  {
    var i := ReadInfo(file);
    var at := i.offset + Pos(i.width, x, i.height - 1 - y);
    file[at..at + 4]
  }

  /** A reader of the file sees the blended picture at a pixel. */
  predicate Shows(s: Scene, upto: Place, file: seq<octet>, x: nat, y: nat)
    requires x < s.w && y < s.h
  {
    && |file| >= 54
    && var i := ReadInfo(file);
    && x < i.width && y < i.height
    && i.offset + Pos(i.width, x, i.height - 1 - y) + 4 <= |file|
    && PixelAt(file, x, y) == Bytes(Shade(s, upto, x, y))
  }

  /** Every pixel of the picture is found where a reader looks for it. */
  lemma FileShows(s: Scene, upto: Place, x: nat, y: nat)
    requires s.w < WORD && s.h < WORD && x < s.w && y < s.h
    ensures Shows(s, upto, Header(s.w, s.h) + Flipped(s, upto, 0), x, y)
  {
    hide Header, Flipped, ReadInfo, Shade, Bytes, Pos;
    HeaderFits(s.w, s.h, Flipped(s, upto, 0));
    FlippedPixel(s, upto, x, y);
    Behind(Header(s.w, s.h), Flipped(s, upto, 0), Pos(s.w, x, s.h - 1 - y));
  }

  /** The colours of a pixel as the camera has them: blue, green and red, one from each plane. */
  predicate CameraColours(s: Scene, at: nat, seen: seq<octet>)
    requires 2 * (s.camW * s.camH) + at < |s.cam| && |seen| == 4
  {
    var plane := s.camW * s.camH;
    seen[0] == s.cam[2 * plane + at] && seen[1] == s.cam[plane + at] && seen[2] == s.cam[at]
  }

  /** The colours of a pixel that is drawn: each that of the drawing, mixed with that of the camera as
      the opacity at `p` says. */
  predicate MixedColours(s: Scene, at: nat, p: nat, seen: seq<octet>)
    requires 2 * (s.camW * s.camH) + at < |s.cam| && p + 3 < |s.osd| && |seen| == 4
  {
    var plane := s.camW * s.camH;
    && Mixed(s.osd[p], s.osd[p + 3], s.cam[2 * plane + at], seen[0])
    && Mixed(s.osd[p], s.osd[p + 2], s.cam[plane + at], seen[1])
    && Mixed(s.osd[p], s.osd[p + 1], s.cam[at], seen[2])
  }

  /** What a reader sees, in terms of the bytes of camera and drawing. */
  lemma ReaderSees(s: Scene, upto: Place, x: nat, y: nat, at: nat, p: nat, seen: seq<octet>)
    requires x < s.w && y < s.h && seen == Bytes(Shade(s, upto, x, y))
    requires at == CamAt(s, x, y) && 2 * (s.camW * s.camH) + at < |s.cam|
    requires p == OsdAt(s, x, y) && p < |s.osd| && (s.osd[p] > 0 ==> p + 3 < |s.osd|)
    ensures |seen| == 4 && seen[3] == 255
    ensures !Before(upto, x, y) || !HasDrawing(s) || s.osd[p] == 0 ==> CameraColours(s, at, seen)
    ensures Before(upto, x, y) && HasDrawing(s) && s.osd[p] > 0 ==> MixedColours(s, at, p, seen)
  {
    hide Blend, CamAt, OsdAt, Mixed;
    if s.osd[p] > 0 {
      var under := CamPixel(s, x, y);
      BlendMixed(s.osd[p], s.osd[p + 3], under.b);
      BlendMixed(s.osd[p], s.osd[p + 2], under.g);
      BlendMixed(s.osd[p], s.osd[p + 1], under.r);
    }
  }

  /** A colour of the drawing over one of the camera, as seen. */
  predicate Mixed(alpha: octet, over: octet, under: octet, seen: octet) {
    if alpha >= 250 then seen == over
    else 255 * seen <= over * alpha + under * (255 - alpha) < 255 * (seen + 2)
  }

  lemma BlendMixed(alpha: octet, over: octet, under: octet)
    requires alpha > 0
    ensures Mixed(alpha, over, under, Blend(over, under, alpha))
  {
    hide Blend;
    BlendIsMixture(over, under, alpha);
  }

  lemma SampledFrom(s: Scene, x: nat, y: nat)
    requires x < s.w && y < s.h
    ensures CamAt(s, x, y) == y * s.camH / s.h * s.camW + x * s.camW / s.w
    ensures OsdAt(s, x, y) == (y * s.osdH / s.h * s.osdW + x * s.osdW / s.w) * 4
  {
  }

  lemma Behind(header: seq<octet>, data: seq<octet>, at: nat)
    requires at + 4 <= |data|
    ensures (header + data)[|header| + at..|header| + at + 4] == data[at..at + 4]
  {
  }

  lemma FlippedPixel(s: Scene, upto: Place, x: nat, y: nat)
    requires x < s.w && y < s.h
    ensures var at := Pos(s.w, x, s.h - 1 - y);
      at + 4 <= |Flipped(s, upto, 0)| && Flipped(s, upto, 0)[at..at + 4] == Bytes(Shade(s, upto, x, y))
  {
    hide Row, Flipped, Shade, Bytes, Start;
    FlippedRow(s, upto, 0, y);
    RowAt(s, upto, y, s.w, x);
    StartIs(s.w, s.h - 1 - y);
    SliceOfSlice(Flipped(s, upto, 0), Start(s.w, s.h - 1 - y), Start(s.w, s.h - 1 - y) + 4 * s.w, 4 * x, 4 * x + 4);
  }

  method SaveBmp(s: Scene, bgra: array<octet>, ghost upto: Place) returns (file: seq<octet>)
    requires bgra[..] == Raster(s, upto, s.h)
    ensures file == Header(s.w, s.h) + Flipped(s, upto, 0)
  {
    hide Raster, Row, Header, Start;
    file := Header(s.w, s.h);
    assert file == Header(s.w, s.h) + Flipped(s, upto, s.h);
    for y := s.h downto 0
      invariant file == Header(s.w, s.h) + Flipped(s, upto, y)
    {
      StartIs(s.w, y);
      RasterRow(s, upto, s.h, y);
      var start := y * s.w * 4;
      file := file + bgra[start..start + s.w * 4];
    }
  }

  /** Captures a picture, unless the camera data ends too soon.  A reader of the file sees in every
      pixel the drawing over the camera, as far as the drawing can be read, and the size in the
      header is the size of the file exactly when that fits 32 bits. */
  method CaptureScreen(s: Scene) returns (saved: Option<seq<octet>>, ghost stop: Place)
    ensures saved.Some? <==> CamFits(s)
    ensures saved.Some? ==>
      var file := saved.value;
      && Stops(s, stop)
      && |file| == 54 + s.w * s.h * 4
      && ReadInfo(file).magic == [0x42, 0x4D] && ReadInfo(file).planesAndDepth == [1, 0, 32, 0]
      && (ReadInfo(file).size == |file| <==> |file| < WORD)
      && (s.w < WORD && s.h < WORD ==>
            forall x, y | 0 <= x < s.w && 0 <= y < s.h :: Shows(s, stop, file, x, y))
  {
    hide Raster, Flipped, Header, ReadInfo, Shows, CamFits, Stops;
    stop := NOWHERE;
    var ok, bgra := FillCamera(s);
    if !ok {
      return None, stop;
    }
    stop := BlendOsd(s, bgra);
    var file := SaveBmp(s, bgra, stop);
    StartIs(s.w, s.h);
    HeaderReads(s.w, s.h, Flipped(s, stop, 0));
    if s.w < WORD && s.h < WORD {
      forall x, y | 0 <= x < s.w && 0 <= y < s.h
        ensures Shows(s, stop, file, x, y)
      {
        FileShows(s, stop, x, y);
      }
    }
    saved := Some(file);
  }
}
