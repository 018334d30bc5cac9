/** Shared vocabulary of the three pixel buffers: a flat row-major array of
    `width*height` packed colours, addressed by `(x, y)`. */
module Canvas {

  /** A point of buffer space. Coordinates are unbounded integers: a negative
      coordinate stands for an `isize` that the source casts to a huge `usize`,
      which the bounds check then rejects. */
  datatype Point = Point(x: int, y: int)

  predicate InBounds(width: nat, height: nat, x: int, y: int)
  {
    0 <= x < width && 0 <= y < height
  }

  /** Row-major position of pixel `(x, y)` in a buffer `width` pixels wide. */
  function Index(width: nat, x: int, y: int): int
  {
    y * width + x
  }

  lemma IndexInRange(width: nat, height: nat, x: int, y: int)
    requires InBounds(width, height, x, y)
    ensures 0 <= Index(width, x, y) < width * height
  {
    assert y * width <= (height - 1) * width by {
      MulMonotone(y, height - 1, width);
    }
  }

  lemma MulMonotone(a: int, b: int, k: nat)
    requires a <= b
    ensures a * k <= b * k
  {
    assert b * k - a * k == (b - a) * k;
  }

  /** Two in-bounds pixels share an index only when they are the same pixel. */
  lemma IndexInjective(width: nat, x: int, y: int, x': int, y': int)
    requires 0 <= x < width && 0 <= x' < width
    requires Index(width, x, y) == Index(width, x', y')
    ensures x == x' && y == y'
  {
    if y < y' {
      MulMonotone(y + 1, y', width);
      assert false;
    } else if y' < y {
      MulMonotone(y' + 1, y, width);
      assert false;
    }
  }

  /** Every index of the buffer belongs to exactly the pixel obtained by
      dividing by the width, so a statement about all in-bounds pixels is a
      statement about the whole buffer. */
  lemma IndexCovers(width: nat, height: nat, i: int)
    requires 0 <= i < width * height
    ensures width > 0
    ensures InBounds(width, height, i % width, i / width)
    ensures Index(width, i % width, i / width) == i
  {
    if width == 0 {
      assert false;
    }
    if i / width >= height {
      MulMonotone(height, i / width, width);
      assert false;
    }
  }

  /** Offsets in `[k*s, k*s + s)` are exactly those whose quotient by `s` is `k`. */
  lemma DivBlock(off: int, s: int, k: int)
    requires s > 0
    ensures off / s == k <==> k * s <= off < k * s + s
  {
    var q, r := off / s, off % s;
    assert off == q * s + r && 0 <= r < s;
    if q < k {
      assert (q + 1) * s <= k * s by { MulMonotone(q + 1, k, s); }
    } else if q > k {
      assert (k + 1) * s <= q * s by { MulMonotone(k + 1, q, s); }
    }
  }

  /** Squared Euclidean length of the offset `(dx, dy)`. */
  function SqLen(dx: int, dy: int): (d: int)
    ensures d >= 0
  {
    dx * dx + dy * dy
  }

  /** `(x, y)` lies in the closed disk of radius `r` around `(cx, cy)`. */
  predicate InDisk(cx: int, cy: int, r: nat, x: int, y: int)
  {
    SqLen(x - cx, y - cy) <= r * r
  }

  /** A disk fits in the square of side `2r+1` around its centre, which is
      the square the circle loops scan. */
  lemma DiskInSquare(cx: int, cy: int, r: nat, x: int, y: int)
    requires InDisk(cx, cy, r, x, y)
    ensures cx - r <= x <= cx + r && cy - r <= y <= cy + r
  {
    var dx, dy := x - cx, y - cy;
    SquareNonNegative(dx);
    SquareNonNegative(dy);
    SquareBound(dx, r, dy * dy);
    SquareBound(dy, r, dx * dx);
  }

  lemma SquareNonNegative(a: int)
    ensures a * a >= 0
  {
    if a < 0 {
      assert a * a == (-a) * (-a);
    }
  }

  lemma SquareBound(a: int, r: nat, rest: int)
    requires rest >= 0 && a * a + rest <= r * r
    ensures a <= r && a + r >= 0
  {
    if a > r {
      MulStrict(r, a);
    } else if a + r < 0 {
      MulStrict(r, -a);
    }
  }

  lemma MulStrict(r: nat, a: int)
    requires r < a
    ensures r * r < a * a
  {
    assert a * a - r * r == (a - r) * (a + r);
  }

  /** The disk of radius 0 is its centre alone. */
  lemma DiskZero(cx: int, cy: int, x: int, y: int)
    ensures InDisk(cx, cy, 0, x, y) <==> x == cx && y == cy
  {
    if InDisk(cx, cy, 0, x, y) {
      DiskInSquare(cx, cy, 0, x, y);
    }
  }

  /** Offset `(px - cx, py - cy)` comes before offset `(x, y)` in row-major
      order: the scan has already visited it. */
  predicate Scanned(cx: int, cy: int, y: int, x: int, px: int, py: int)
  {
    py - cy < y || (py - cy == y && px - cx < x)
  }

  /** The disk test on offsets, as the loops write it. */
  lemma OffsetDisk(cx: int, cy: int, r: nat, x: int, y: int)
    ensures InDisk(cx, cy, r, cx + x, cy + y) <==> x * x + y * y <= r * r
  {
    assert (cx + x) - cx == x && (cy + y) - cy == y;
  }
}
