/** The transformations of the birp program on a node and its raster dimensions. */
module Birp {
  import opened Common
  import opened Powers
  import opened BddTable
  import opened BddStore
  import opened BddMap
  import opened BddRotate
  import opened BddZoom
  import opened BddRaster

  const INT_MAX: int := 0x7fff_ffff

  // A side scaled by 2^factor, rounded up when it shrinks.
  function ZoomedSide(side: nat, factor: int): nat {
    if factor > 0 then side * Pow2(factor)
    else side / Pow2(-factor) + if side % Pow2(-factor) != 0 then 1 else 0
  }

  // Exactly multiplied, or the least side whose multiple covers the old one.
  ghost predicate ScaledSide(side: nat, factor: int, side': int)
  {
    if factor >= 0 then side' == side * Pow2(factor)
    else (side' - 1) * Pow2(-factor) < side <= side' * Pow2(-factor)
  }

  lemma ZoomedSideScales(side: nat, factor: int)
    requires side >= 1
    ensures ScaledSide(side, factor, ZoomedSide(side, factor))
  {
    if factor <= 0 {
      var p := Pow2(-factor);
      var q, s := side / p, side % p;
      assert side == q * p + s;
      MulSub(q, 1, p);
    }
  }

  lemma ZoomedSideCovers(side: nat, e: nat, factor: int)
    requires side >= 1 && side <= Pow2(e) && e + factor >= 0
    ensures 1 <= ZoomedSide(side, factor) <= Pow2(e + factor)
    ensures e + factor > 0 && (e > 0 ==> side > Pow2(e - 1)) ==> ZoomedSide(side, factor) > Pow2(e + factor - 1)
  {
    if factor > 0 {
      var p := Pow2(factor);
      Pow2Add(e, factor);
      MulLess(0, side, p);
      if side < Pow2(e) { MulLess(side, Pow2(e), p); }
      if e > 0 && side > Pow2(e - 1) {
        Pow2Add(e - 1, factor);
        MulLess(Pow2(e - 1), side, p);
      }
      if e == 0 { assert side == 1; Pow2Monotone(factor - 1, factor); }
    } else {
      var k: nat := -factor;
      var p, q, s := Pow2(k), side / Pow2(k), side % Pow2(k);
      assert side == q * p + s;
      if q < 0 { MulLess(q, 0, p); assert false; }
      if s != 0 && q == 0 { Pow2Monotone(0, e - k); }
      RoundedUp(side, q, s, p, e, k);
    }
  }

  lemma RoundedUp(side: nat, q: nat, s: nat, p: nat, e: nat, k: nat)
    requires k <= e && p == Pow2(k) && side == q * p + s && s < p && 1 <= side <= Pow2(e)
    ensures 1 <= q + (if s != 0 then 1 else 0) <= Pow2(e - k)
    ensures e > k && side > Pow2(e - 1) ==> q + (if s != 0 then 1 else 0) > Pow2(e - k - 1)
  {
    Pow2Add(e - k, k);
    if q > Pow2(e - k) { MulLess(Pow2(e - k), q, p); assert false; }
    assert q == 0 ==> q * p == 0;
    if e > k && side > Pow2(e - 1) {
      Pow2Add(e - k - 1, k);
      if q < Pow2(e - k - 1) { MulLess(q, Pow2(e - k - 1), p); assert false; }
    }
  }

  // The scaled sides need exactly factor more (or fewer) doublings, so the level at which
  // the result is read moves by twice the factor.
  lemma ZoomedLevel(w: nat, h: nat, factor: int)
    requires w >= 1 && h >= 1 && SquareExponent(w, h) + factor >= 0
    ensures ZoomedSide(w, factor) >= 1 && ZoomedSide(h, factor) >= 1
    ensures SquareExponent(ZoomedSide(w, factor), ZoomedSide(h, factor)) == SquareExponent(w, h) + factor
  {
    var e := SquareExponent(w, h);
    SquareIsLeast(w, h);
    ZoomedSideCovers(w, e, factor);
    ZoomedSideCovers(h, e, factor);
    SquareFound(ZoomedSide(w, factor), ZoomedSide(h, factor), e + factor);
  }

  lemma SquareIsLeast(w: int, h: int)
    ensures var e := SquareExponent(w, h);
            w <= Pow2(e) && h <= Pow2(e) && (e > 0 ==> w > Pow2(e - 1) || h > Pow2(e - 1))
  {
    ExponentCovers(w); ExponentCovers(h);
    Pow2Monotone(Exponent(w), SquareExponent(w, h));
    Pow2Monotone(Exponent(h), SquareExponent(w, h));
  }

  lemma ExponentOfInt(w: int)
    requires w <= INT_MAX
    ensures Exponent(w) <= 31
  {
    ExponentCovers(w);
    PowerOfInt();
    if Exponent(w) > 31 { Pow2Monotone(31, Exponent(w) - 1); }
  }

  lemma PowerOfInt()
    ensures Pow2(31) == INT_MAX + 1
  {
    assert Pow2(5) == 32;
    Pow2Add(5, 5);
    Pow2Add(10, 5);
    Pow2Add(16, 15);
  }

  // The exponent of the enclosing square.
  method SquareOf(width: int, height: int) returns (square: nat)
    ensures square == SquareExponent(width, height)
  {
    square := 0;
    while !(width <= Pow2(square) && height <= Pow2(square))
      invariant square > 0 ==> width > Pow2(square - 1) || height > Pow2(square - 1)
      decreases (if width > height then width else height) - Pow2(square)
    {
      square := square + 1;
    }
    SquareFound(width, height, square);
  }

  // Shifted to the left, or to the right and rounded up.
  method ZoomSides(width: nat, height: nat, factor: int) returns (width': nat, height': nat)
    ensures width' == ZoomedSide(width, factor) && height' == ZoomedSide(height, factor)
  {
    if factor > 0 {
      width' := width * Pow2(factor);
      height' := height * Pow2(factor);
    } else {
      width' := width / Pow2(-factor) + if width % Pow2(-factor) != 0 then 1 else 0;
      height' := height / Pow2(-factor) + if height % Pow2(-factor) != 0 then 1 else 0;
    }
  }

  // Transformations: 1 complement, 2 threshold filter, 3 zoom, 4 rotate, others none.
  method Transform(s: Store, node: int, width: int, height: int, transformation: int, factor: int, threshold: int)
    returns (o: Outcome, width': int, height': int)
    requires s.Valid() && 1 <= width <= INT_MAX && 1 <= height <= INT_MAX
    requires Ref(s.Table(), node, 2 * SquareExponent(width, height))
    requires -128 <= factor < 128
    modifies s, s.nodes, s.hashMap
    ensures s.Valid() && Extends(old(s.Table()), s.Table())
    ensures o.Exit? ==> s.next == NODES_MAX
    ensures transformation !in {3, 4} ==> width' == width && height' == height
    ensures o.Ret? && transformation == 1 ==> MapsTo(s.Table(), node, o.value, Complement)
    ensures o.Ret? && transformation == 2 ==> MapsTo(s.Table(), node, o.value, CapPixel(threshold))
    ensures transformation == 3 ==>
              if !(0 <= 2 * SquareExponent(width, height) + 2 * factor <= 32) then o == Ret(NULL)
              else o.Ret? ==>
                Zooms(s.Table(), node, o.value, factor)
                && width' == ZoomedSide(width, factor) && height' == ZoomedSide(height, factor)
                && SquareExponent(width', height') == SquareExponent(width, height) + factor
    ensures o.Ret? && transformation == 4 ==>
              Rotated(s.Table(), node, o.value, SquareExponent(width, height))
              && width' == height' == Pow2(SquareExponent(width, height))
    ensures transformation !in {1, 2, 3, 4} ==> o == Ret(node)
  {
    var square := SquareOf(width, height);
    ExponentOfInt(width); ExponentOfInt(height);
    var side := Pow2(square);
    ExponentOfPower(square);
    var level := MinLevel(side, side);
    width', height', o := width, height, Ret(node);
    if transformation == 1 {
      o := Map(s, node, Complement);
    } else if transformation == 2 {
      o := Map(s, node, CapPixel(threshold));
    } else if transformation == 3 {
      if level + 2 * factor < 0 || level + 2 * factor > LEVELS_MAX {
        o := Ret(NULL);
        return;
      }
      o := Zoom(s, node, level, factor);
      if o.Ret? {
        ZoomedLevel(width, height, factor);
        width', height' := ZoomSides(width, height, factor);
      }
    } else if transformation == 4 {
      o := Rotate(s, node, level);
      width', height' := side, side;
    }
  }

  // ----- what the transformations do to the raster that is finally written -----

  // The byte at row r, column c of a raster of width w.
  ghost function ByteAt(out: seq<Byte>, w: nat, h: nat, r: nat, c: nat): Byte
    requires r < h && c < w && |out| >= w * h
  {
    IndexInRaster(w, h, r, c);
    out[r * w + c]
  }

  // The raster written from a node, read at any level the raster fits in.
  lemma WrittenPixel(t: Table, i: int, l: nat, w: nat, h: nat, out: seq<Byte>, r: nat, c: nat)
    requires Reduced(t) && Ref(t, i, l) && |out| >= w * h && Rasterized(t, i, w, h, out)
    requires r < h && c < w && InRange(l, r, c)
    ensures ByteAt(out, w, h, r, c) == Pix(t, i, l, r, c)
  {
    assert PixelOut(t, i, w, h, out, r, c);
    LeafIsLevelZero(t, i);
    SkippedLevels(t, i, t[i].level, l, r, c);
  }

  // The byte at index k of a written raster, the node being the image of one that shows the data.
  lemma MappedByte(t: Table, i: int, j: int, l: nat, w: nat, h: nat, data: seq<Byte>, out: seq<Byte>, f: Byte -> Byte, k: nat)
    requires Reduced(t) && |data| >= w * h && w <= Width(l) && h <= Height(l) && k < w * h
    requires Shows(t, i, l, w, h, data, 0, 0) && MapsTo(t, i, j, f) && |out| >= w * h && Rasterized(t, j, w, h, out)
    ensures out[k] == f(data[k])
  {
    assert w == 0 ==> w * h == 0;
    RowOfIndex(w, h, k);
    var r, c := k / w, k % w;
    assert Mapped(t, i, j, l, f) && InRange(l, r, c);
    WrittenPixel(t, j, l, w, h, out, r, c);
    assert Pix(t, i, l, r, c) == At(w, h, data, 0 + r, 0 + c);
  }

  // Complementing: a written byte and the data's byte in its place add up to 255.
  lemma ComplementRaster(t: Table, i: int, j: int, l: nat, w: nat, h: nat, data: seq<Byte>, out: seq<Byte>, k: nat)
    requires Reduced(t) && |data| >= w * h && w <= Width(l) && h <= Height(l) && k < w * h
    requires Shows(t, i, l, w, h, data, 0, 0) && MapsTo(t, i, j, Complement) && |out| >= w * h && Rasterized(t, j, w, h, out)
    ensures (out[k] as int) + (data[k] as int) == 255
  {
    MappedByte(t, i, j, l, w, h, data, out, Complement, k);
  }

  // The threshold filter: white from the threshold on, and black below it.
  lemma CapRaster(t: Table, i: int, j: int, l: nat, w: nat, h: nat, data: seq<Byte>, out: seq<Byte>, threshold: int, k: nat)
    requires Reduced(t) && |data| >= w * h && w <= Width(l) && h <= Height(l) && k < w * h
    requires Shows(t, i, l, w, h, data, 0, 0) && MapsTo(t, i, j, CapPixel(threshold)) && |out| >= w * h && Rasterized(t, j, w, h, out)
    ensures (data[k] >= threshold && out[k] == 255) || (data[k] < threshold && out[k] == 0)
  {
    MappedByte(t, i, j, l, w, h, data, out, CapPixel(threshold), k);
  }

  lemma ZoomedRange(l: nat, k: nat, w: nat, h: nat, r: nat, c: nat)
    requires w <= Width(l) && h <= Height(l) && r < h * Pow2(k) && c < w * Pow2(k)
    ensures 0 <= r / Pow2(k) < h && 0 <= c / Pow2(k) < w && InRange(l + 2 * k, r, c)
  {
    var p := Pow2(k);
    DividedHalf(r, h, p);
    DividedHalf(c, w, p);
    ScaledSides(l, k);
    if h < Height(l) { MulLess(h, Height(l), p); }
    if w < Width(l) { MulLess(w, Width(l), p); }
  }

  // Zooming in repeats each byte of the raster in a square of side 2^k.
  lemma ZoomInRaster(t: Table, i: int, j: int, l: nat, k: nat, w: nat, h: nat, data: seq<Byte>, out: seq<Byte>, r: nat, c: nat)
    requires Reduced(t) && |data| >= w * h && w <= Width(l) && h <= Height(l)
    requires Shows(t, i, l, w, h, data, 0, 0) && ZoomedIn(t, i, j, l, k)
    requires var w', h' := w * Pow2(k), h * Pow2(k);
             |out| >= w' * h' && Rasterized(t, j, w', h', out) && r < h' && c < w'
    ensures 0 <= r / Pow2(k) < h && 0 <= c / Pow2(k) < w
    ensures ByteAt(out, w * Pow2(k), h * Pow2(k), r, c) == ByteAt(data, w, h, r / Pow2(k), c / Pow2(k))
  {
    var p := Pow2(k);
    ZoomedRange(l, k, w, h, r, c);
    assert RepeatsPixel(t, i, j, l, k, r, c);
    WrittenPixel(t, j, l + 2 * k, w * p, h * p, out, r, c);
    var y, x := r / p, c / p;
    assert Pix(t, i, l, y, x) == At(w, h, data, 0 + y, 0 + x);
  }

  lemma AtIs(w: nat, h: nat, data: seq<Byte>, r: nat, c: nat)
    requires |data| >= w * h
    ensures At(w, h, data, r, c) == if r < h && c < w then ByteAt(data, w, h, r, c) else 0
  {
    if r < h && c < w { IndexInRaster(w, h, r, c); }
  }

  // Every byte of the square of side 2^k at block (r, c) is v, the raster extended with black.
  ghost predicate BytesAre(w: nat, h: nat, data: seq<Byte>, l: nat, k: nat, r: nat, c: nat, v: int)
    requires |data| >= w * h
  {
    forall y: nat, x: nat | InRange(l, y, x) && InBlock(k, r, c, y, x) ::
      v == if y < h && x < w then ByteAt(data, w, h, y, x) else 0
  }

  lemma BlockOfBytes(t: Table, i: int, l: nat, k: nat, w: nat, h: nat, data: seq<Byte>, r: nat, c: nat, v: int)
    requires Reduced(t) && |data| >= w * h && Shows(t, i, l, w, h, data, 0, 0)
    ensures BlockIs(t, i, l, k, r, c, v) <==> BytesAre(w, h, data, l, k, r, c, v)
  {
    forall y: nat, x: nat | InRange(l, y, x)
      ensures Pix(t, i, l, y, x) == At(w, h, data, y, x)
    {
      assert Pix(t, i, l, y, x) == At(w, h, data, 0 + y, 0 + x);
    }
  }

  // Zooming out leaves the value of a block whose bytes are all equal and white for any other;
  // so a byte is black exactly where every byte of the block is.
  lemma ZoomOutRaster(t: Table, i: int, j: int, l: nat, k: nat, w: nat, h: nat, data: seq<Byte>,
                      w': nat, h': nat, out: seq<Byte>, r: nat, c: nat)
    requires Reduced(t) && |data| >= w * h && Shows(t, i, l, w, h, data, 0, 0) && ZoomedOut(t, i, j, l, k)
    requires |out| >= w' * h' && Rasterized(t, j, w', h', out) && r < h' && c < w' && InRange(l - 2 * k, r, c)
    ensures var p := ByteAt(out, w', h', r, c);
            && (BytesAre(w, h, data, l, k, r, c, p) || (p == 255 && forall v: int :: !BytesAre(w, h, data, l, k, r, c, v)))
            && (p == 0 <==> BytesAre(w, h, data, l, k, r, c, 0))
  {
    WrittenPixel(t, j, l - 2 * k, w', h', out, r, c);
    BlackBlocks(t, i, j, l, k, r, c);
    assert ShrunkPixel(t, i, j, l, k, r, c);
    forall v: int
      ensures BlockIs(t, i, l, k, r, c, v) <==> BytesAre(w, h, data, l, k, r, c, v)
    {
      BlockOfBytes(t, i, l, k, w, h, data, r, c, v);
    }
  }

  // Rotating moves the byte at column s-1-r of row c to (r, c) of the enclosing square of
  // side s, black where the square is larger than the raster.
  lemma RotateRaster(t: Table, i: int, j: int, d: nat, w: nat, h: nat, data: seq<Byte>, out: seq<Byte>, r: nat, c: nat)
    requires Reduced(t) && |data| >= w * h && Shows(t, i, 2 * d, w, h, data, 0, 0) && Rotated(t, i, j, d)
    requires var s := Pow2(d); |out| >= s * s && Rasterized(t, j, s, s, out) && r < s && c < s
    ensures var x := Pow2(d) - 1 - r;
            ByteAt(out, Pow2(d), Pow2(d), r, c) == if c < h && x < w then ByteAt(data, w, h, c, x) else 0
  {
    var s := Pow2(d);
    SquareSides(d);
    WrittenPixel(t, j, 2 * d, s, s, out, r, c);
    assert InSquare(d, r, c) && SquarePix(t, j, d, r, c) == SquarePix(t, i, d, c, s - 1 - r);
    assert Pix(t, i, 2 * d, c, s - 1 - r) == At(w, h, data, 0 + c, 0 + (s - 1 - r));
    AtIs(w, h, data, c, s - 1 - r);
  }
}
