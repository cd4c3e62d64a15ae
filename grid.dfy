/** Row-major addressing, shared by pixel buffers and kernels: cell (x, y) of a
    grid `width` cells wide is stored at `x + y * width`. */
module Grid {

  function Index(x: int, y: int, width: int): int
  {
    x + y * width
  }

  /** A cell inside a `width` by `height` grid has an index inside the buffer. */
  lemma IndexInBounds(x: int, y: int, width: int, height: int)
    requires 0 <= x < width && 0 <= y < height
    ensures 0 <= Index(x, y, width) < width * height
  {
    assert 0 <= y * width by { MulNonNegative(y, width); }
    assert (y + 1) * width <= height * width by { MulMonotonic(y + 1, height, width); }
  }

  /** The index of a cell gives back its column and its row. */
  lemma IndexDecode(x: int, y: int, width: int)
    requires 0 <= x < width && 0 <= y
    ensures Index(x, y, width) % width == x
    ensures Index(x, y, width) / width == y
  {
    DivModUnique(Index(x, y, width), width, y, x);
  }

  /** Every buffer position is the index of the cell it decodes to. */
  lemma IndexEncode(i: int, width: int)
    requires 0 <= i && 0 < width
    ensures 0 <= i % width < width && 0 <= i / width
    ensures Index(i % width, i / width, width) == i
  {
  }

  /** Two cells of a grid share an index only when they are the same cell. */
  lemma IndexInjective(x: int, y: int, x': int, y': int, width: int)
    requires 0 <= x < width && 0 <= y && 0 <= x' < width && 0 <= y'
    requires Index(x, y, width) == Index(x', y', width)
    ensures x == x' && y == y'
  {
    IndexDecode(x, y, width);
    IndexDecode(x', y', width);
  }

  /** The next cell of a row has the next index. */
  lemma NextColumn(x: int, y: int, width: int)
    ensures Index(x + 1, y, width) == Index(x, y, width) + 1
  {
  }

  /** At the end of a row the next index starts the next row. */
  lemma NextRow(y: int, width: int)
    ensures Index(width, y, width) == Index(0, y + 1, width)
    ensures Index(0, y + 1, width) == (y + 1) * width
  {
  }

  lemma MulNonNegative(a: int, b: int)
    requires 0 <= a && 0 <= b
    ensures 0 <= a * b
  {
  }

  lemma MulMonotonic(a: int, b: int, c: int)
    requires a <= b && 0 <= c
    ensures a * c <= b * c
  {
    MulNonNegative(b - a, c);
  }

  /** Euclidean division is unique: a quotient and a remainder in range are the ones. */
  lemma DivModUnique(n: int, d: int, q: int, r: int)
    requires 0 < d && 0 <= r < d && n == q * d + r
    ensures n / d == q && n % d == r
  {
    var q', r' := n / d, n % d;
    assert n == q' * d + r';
    if q' < q {
      MulMonotonic(q' + 1, q, d);
    } else if q < q' {
      MulMonotonic(q + 1, q', d);
    }
  }
}
