/**
  Alignment of two rasters by a pixel-to-pixel affine transform: the
  residual transform between a chunk of the first raster and the
  corresponding chunk of the second, and the bounds-checked map from an
  index of the first chunk to an index of the second.
 */
module Align {
  import opened Geometry

  datatype Option<T> = None | Some(value: T)

  /** The affine map `(x, y) |-> (a x + b y + xoff, d x + e y + yoff)`. */
  datatype AffineTransform = AffineTransform(a: real, b: real, xoff: real, d: real, e: real, yoff: real)
  {
    function Apply(p: Coord): Coord
    {
      (a * p.0 + b * p.1 + xoff, d * p.0 + e * p.1 + yoff)
    }

    /** Both transforms have the same coefficients `a, b, d, e`. */
    predicate SameLinearPart(other: AffineTransform)
    {
      a == other.a && b == other.b && d == other.d && e == other.e
    }
  }

  function Identity(): AffineTransform
  {
    AffineTransform(1.0, 0.0, 0.0, 0.0, 1.0, 0.0)
  }

  function Translate(x: real, y: real): AffineTransform
  {
    AffineTransform(1.0, 0.0, x, 0.0, 1.0, y)
  }

  /** The transform that applies `first`, then `second` (see `ThenApply`). */
  function Then(first: AffineTransform, second: AffineTransform): AffineTransform
  {
    AffineTransform(
      second.a * first.a + second.b * first.d,
      second.a * first.b + second.b * first.e,
      second.a * first.xoff + second.b * first.yoff + second.xoff,
      second.d * first.a + second.e * first.d,
      second.d * first.b + second.e * first.e,
      second.d * first.xoff + second.e * first.yoff + second.yoff)
  }

  /** `Then(first, second)` maps every point as `first` followed by `second` does. */
  lemma ThenApply(first: AffineTransform, second: AffineTransform, p: Coord)
    ensures Then(first, second).Apply(p) == second.Apply(first.Apply(p))
  {
    ThenApplyX(first, second, p);
    ThenApplyY(first, second, p);
  }

  lemma ThenApplyX(first: AffineTransform, second: AffineTransform, p: Coord)
    ensures Then(first, second).Apply(p).0 == second.Apply(first.Apply(p)).0
  {
    var (x, y) := p;
    var q := first.Apply(p);
    MulAdd3(second.a, first.a * x, first.b * y, first.xoff);
    MulAdd3(second.b, first.d * x, first.e * y, first.yoff);
    MulAddRight(second.a * first.a, second.b * first.d, x);
    MulAddRight(second.a * first.b, second.b * first.e, y);
    MulAssoc(second.a, first.a, x);
    MulAssoc(second.b, first.d, x);
    MulAssoc(second.a, first.b, y);
    MulAssoc(second.b, first.e, y);
  }

  lemma ThenApplyY(first: AffineTransform, second: AffineTransform, p: Coord)
    ensures Then(first, second).Apply(p).1 == second.Apply(first.Apply(p)).1
  {
    var (x, y) := p;
    var q := first.Apply(p);
    MulAdd3(second.d, first.a * x, first.b * y, first.xoff);
    MulAdd3(second.e, first.d * x, first.e * y, first.yoff);
    MulAddRight(second.d * first.a, second.e * first.d, x);
    MulAddRight(second.d * first.b, second.e * first.e, y);
    MulAssoc(second.d, first.a, x);
    MulAssoc(second.e, first.d, x);
    MulAssoc(second.d, first.b, y);
    MulAssoc(second.e, first.e, y);
  }

  lemma MulAdd3(c: real, u: real, v: real, w: real)
    ensures c * (u + v + w) == c * u + c * v + c * w
  {
  }

  lemma MulAddRight(a: real, b: real, x: real)
    ensures (a + b) * x == a * x + b * x
  {
  }

  lemma MulAssoc(a: real, b: real, x: real)
    ensures (a * b) * x == a * (b * x)
  {
  }

  /** Composing a translation with the identity, in either order, gives the translation. */
  lemma ComposeTranslateIdentity(x: real, y: real, order: ComposeOrder)
    ensures Compose(Translate(x, y), Identity(), order) == Translate(x, y)
  {
  }

  /** Composing with a translation, in either order, keeps the linear part. */
  lemma ComposeTranslateLinear(x: real, y: real, t: AffineTransform, order: ComposeOrder)
    ensures Compose(Translate(x, y), t, order).SameLinearPart(t)
  {
  }

  /**
    Which of its two transforms `receiver.compose(argument)` applies first.
    The geometry library's convention is not part of this model, so every
    statement below is made for both orders.
   */
  datatype ComposeOrder = ReceiverFirst | ArgumentFirst

  function Compose(receiver: AffineTransform, argument: AffineTransform, order: ComposeOrder): AffineTransform
  {
    match order
    case ReceiverFirst => Then(receiver, argument)
    case ArgumentFirst => Then(argument, receiver)
  }

  /**
    The residual transform of a chunk, as the source computes it: the
    translation by (-1, -1) composed with `transform` is applied to `off1`,
    `off2` is subtracted, and the translation by that residue is composed
    with `transform`. Whatever the composition order, the linear part of
    `transform` is kept.
   */
  function ChunkTransform(transform: AffineTransform, off1: PixelOffset, off2: PixelOffset, order: ComposeOrder): (r: AffineTransform)
    ensures r.SameLinearPart(transform)
  {
    var residue := Residue(transform, off1, off2, order);
    ComposeTranslateLinear(residue.0, residue.1, transform, order);
    Compose(Translate(residue.0, residue.1), transform, order)
  }

  /** The translation part the source computes for a chunk: the image of `off1` minus `off2`. */
  function Residue(transform: AffineTransform, off1: PixelOffset, off2: PixelOffset, order: ComposeOrder): Coord
  {
    var origin := Compose(Translate(-1.0, -1.0), transform, order).Apply(AsF64(off1));
    var target := AsF64(off2);
    (origin.0 - target.0, origin.1 - target.1)
  }

  /**
    The residual transform as derived next to the source: the translation
    part is `transform(off1) - off2`, and the linear part of `transform` is
    kept (`ChunkTransformIntendedMaps` says what it maps).
   */
  function ChunkTransformIntended(transform: AffineTransform, off1: PixelOffset, off2: PixelOffset): (r: AffineTransform)
    ensures r.SameLinearPart(transform)
  {
    var origin := transform.Apply(AsF64(off1));
    var target := AsF64(off2);
    transform.(xoff := origin.0 - target.0, yoff := origin.1 - target.1)
  }

  /**
    The derived residual transform maps the local index `p` of the first
    chunk to `transform(off1 + p) - off2`, the local index in the second.
   */
  lemma ChunkTransformIntendedMaps(transform: AffineTransform, off1: PixelOffset, off2: PixelOffset, p: Coord)
    ensures var o1, o2 := AsF64(off1), AsF64(off2);
      var q := transform.Apply((o1.0 + p.0, o1.1 + p.1));
      ChunkTransformIntended(transform, off1, off2).Apply(p) == (q.0 - o2.0, q.1 - o2.1)
  {
    var r := ChunkTransformIntended(transform, off1, off2);
    LocalIndexMapsX(transform, AsF64(off1), AsF64(off2), r, p);
    LocalIndexMapsY(transform, AsF64(off1), AsF64(off2), r, p);
  }

  lemma LocalIndexMapsX(t: AffineTransform, o1: Coord, o2: Coord, r: AffineTransform, p: Coord)
    requires r == t.(xoff := t.Apply(o1).0 - o2.0, yoff := t.Apply(o1).1 - o2.1)
    ensures r.Apply(p).0 == t.Apply((o1.0 + p.0, o1.1 + p.1)).0 - o2.0
  {
    MulAddLeft(t.a, o1.0, p.0);
    MulAddLeft(t.b, o1.1, p.1);
  }

  lemma LocalIndexMapsY(t: AffineTransform, o1: Coord, o2: Coord, r: AffineTransform, p: Coord)
    requires r == t.(xoff := t.Apply(o1).0 - o2.0, yoff := t.Apply(o1).1 - o2.1)
    ensures r.Apply(p).1 == t.Apply((o1.0 + p.0, o1.1 + p.1)).1 - o2.1
  {
    MulAddLeft(t.d, o1.0, p.0);
    MulAddLeft(t.e, o1.1, p.1);
  }

  lemma MulAddLeft(c: real, u: real, v: real)
    ensures c * (u + v) == c * u + c * v
  {
  }

  /**
    A stateless index map: a chunk transform together with the target's
    dimensions `(cols, rows)`.
   */
  datatype IndexTransformer = IndexTransformer(chunkT: AffineTransform, dim: PixelSize)
  {
    /**
      Maps the index `(x, y)` of the source chunk to the index `(row, col)`
      of the target pixel that contains its image, or to `None` when the
      image lies outside `[0, cols) x [0, rows)`.
     */
    function Apply(indexes: PixelSize): (r: Option<(nat, nat)>)
      ensures var pt := chunkT.Apply(AsF64(indexes));
        r.None? <==> !(0.0 <= pt.0 < dim.0 as real && 0.0 <= pt.1 < dim.1 as real)
      ensures var pt := chunkT.Apply(AsF64(indexes));
        r.Some? ==>
          && r.value.0 < dim.1 && r.value.1 < dim.0
          && r.value.0 as real <= pt.1 < r.value.0 as real + 1.0
          && r.value.1 as real <= pt.0 < r.value.1 as real + 1.0
    {
      var (cols, rows) := dim;
      var pt := chunkT.Apply(AsF64(indexes));
      if pt.0 < 0.0 || pt.1 < 0.0 then None
      else
        var (j2, i2) := AsUsize(pt);
        if j2 >= cols || i2 >= rows then None else Some((i2, j2))
    }
  }

  /** With the identity transform an in-bounds index `(j, i)` maps to `(i, j)`. */
  lemma IdentityIndexTransformer(dim: PixelSize, j: nat, i: nat)
    requires j < dim.0 && i < dim.1
    ensures IndexTransformer(Identity(), dim).Apply((j, i)) == Some((i, j))
  {
    assert Identity() == Translate(0.0, 0.0);
    TranslateApply(0.0, 0.0, AsF64((j, i)));
    assert Identity().Apply(AsF64((j, i))) == (j as real, i as real);
  }

  /**
    The source's residual transform does not map the identity alignment of
    two chunks at the same origin to the identity: it shifts every index by
    (-1, -1).
   */
  lemma ChunkTransformShiftsIdentity(off: PixelOffset, order: ComposeOrder)
    ensures ChunkTransform(Identity(), off, off, order) == Translate(-1.0, -1.0)
  {
    ResidueOfIdentity(off, order);
    assert ChunkTransform(Identity(), off, off, order) == Compose(Translate(-1.0, -1.0), Identity(), order);
    ComposeTranslateIdentity(-1.0, -1.0, order);
  }

  lemma ResidueOfIdentity(off: PixelOffset, order: ComposeOrder)
    ensures Residue(Identity(), off, off, order) == (-1.0, -1.0)
  {
    var o := AsF64(off);
    var shifted := Translate(-1.0, -1.0).Apply(o);
    TranslateApply(-1.0, -1.0, o);
    match order
    case ReceiverFirst =>
      ThenApply(Translate(-1.0, -1.0), Identity(), o);
      TranslateApply(0.0, 0.0, shifted);
    case ArgumentFirst =>
      ThenApply(Identity(), Translate(-1.0, -1.0), o);
      TranslateApply(0.0, 0.0, o);
  }

  /** A translation moves every point by its offsets. */
  lemma TranslateApply(x: real, y: real, o: Coord)
    ensures Translate(x, y).Apply(o) == (o.0 + x, o.1 + y)
  {
    assert 1.0 * o.0 + 0.0 * o.1 == o.0;
    assert 0.0 * o.0 + 1.0 * o.1 == o.1;
  }

  /**
    Consequently the first index `(0, 0)` of a chunk aligned with itself is
    reported as lying outside the target, whatever its dimensions.
   */
  lemma ShiftedIdentityRejectsOrigin(off: PixelOffset, order: ComposeOrder, dim: PixelSize)
    ensures IndexTransformer(ChunkTransform(Identity(), off, off, order), dim).Apply((0, 0)) == None
  {
    ChunkTransformShiftsIdentity(off, order);
    TranslationRejectsOrigin(dim);
  }

  lemma TranslationRejectsOrigin(dim: PixelSize)
    ensures IndexTransformer(Translate(-1.0, -1.0), dim).Apply((0, 0)) == None
  {
    assert Translate(-1.0, -1.0).Apply(AsF64((0, 0))) == (-1.0, -1.0);
  }

  /**
    The derived residual transform of the identity alignment at equal origins
    is the identity, and every in-bounds index maps to itself in
    `(row, col)` order.
   */
  lemma ChunkTransformIntendedIdentity(off: PixelOffset, dim: PixelSize, j: nat, i: nat)
    requires j < dim.0 && i < dim.1
    ensures ChunkTransformIntended(Identity(), off, off) == Identity()
    ensures IndexTransformer(ChunkTransformIntended(Identity(), off, off), dim).Apply((j, i)) == Some((i, j))
  {
    IdentityIndexTransformer(dim, j, i);
  }
}
