/**
 * The in-place y-flip that `glt::load_texture` and `glt::load_texture_array`
 * apply to a decoded image before uploading it, so that OpenGL sees it
 * right side up: `swap_row` exchanges two rows byte by byte, and the flip
 * loop swaps row `i` with row `y - 1 - i` for every `i < y / 2`. A row is
 * `x * n` bytes (`x` pixels of `n` channels) and row `r` starts at
 * `r * x * n`.
 */
module ImageFlip {
  newtype byte = b: int | 0 <= b < 256

  /** `s` with the bytes at `i` and `j` exchanged, as `std::swap` leaves them. */
  function Exchange(s: seq<byte>, i: nat, j: nat): (r: seq<byte>)
    requires i < |s| && j < |s|
    ensures |r| == |s| && r[i] == s[j] && r[j] == s[i]
    ensures forall k | 0 <= k < |s| && k != i && k != j :: r[k] == s[k]
  {
    s[i := s[j]][j := s[i]]
  }

  /** The bytes after the first `k` iterations of `swap_row(&s[a], &s[b], n)`. */
  function Swaps(s: seq<byte>, a: nat, b: nat, k: nat): (r: seq<byte>)
    requires a + k <= |s| && b + k <= |s|
    ensures |r| == |s|
    decreases k
  {
    if k == 0 then s else Exchange(Swaps(s, a, b, k - 1), a + k - 1, b + k - 1)
  }

  /** Two runs of `n` bytes that do not overlap. */
  predicate Apart(a: nat, b: nat, n: nat) {
    a + n <= b || b + n <= a
  }

  /**
   * `swap_row(a, b, n)` on two rows of the same image, given by their
   * offsets: each of the `n` steps exchanges one byte of each row.
   */
  method SwapRow(img: array<byte>, a: nat, b: nat, n: nat)
    requires a + n <= img.Length && b + n <= img.Length
    modifies img
    ensures img[..] == Swaps(old(img[..]), a, b, n)
  {
    var i := 0;
    while i < n
      invariant i <= n && img[..] == Swaps(old(img[..]), a, b, i)
    {
      img[a + i], img[b + i] := img[b + i], img[a + i];
      i := i + 1;
    }
  }

  /**
   * On rows that do not overlap, `Swaps` exchanges the two rows byte for
   * byte and leaves every other byte where it was.
   */
  lemma {:induction false} RowsExchanged(s: seq<byte>, a: nat, b: nat, n: nat)
    requires a + n <= |s| && b + n <= |s| && Apart(a, b, n)
    ensures forall j | a <= j < a + n :: Swaps(s, a, b, n)[j] == s[j - a + b]
    ensures forall j | b <= j < b + n :: Swaps(s, a, b, n)[j] == s[j - b + a]
    ensures forall j | 0 <= j < |s| && !(a <= j < a + n) && !(b <= j < b + n) :: Swaps(s, a, b, n)[j] == s[j]
  {
    if n > 0 {
      RowsExchanged(s, a, b, n - 1);
    }
  }

  /** `RowsExchanged` at the single byte `j`. */
  lemma ExchangedAt(s: seq<byte>, a: nat, b: nat, n: nat, j: nat)
    requires a + n <= |s| && b + n <= |s| && Apart(a, b, n) && j < |s|
    ensures Swaps(s, a, b, n)[j] == if a <= j < a + n then s[j - a + b] else if b <= j < b + n then s[j - b + a] else s[j]
  {
    RowsExchanged(s, a, b, n);
  }

  /** Swapping a row with itself changes nothing. */
  lemma {:induction false} SwapSelf(s: seq<byte>, a: nat, n: nat)
    requires a + n <= |s|
    ensures Swaps(s, a, a, n) == s
  {
    if n > 0 {
      SwapSelf(s, a, n - 1);
    }
  }

  /** Swapping the same two non-overlapping rows twice restores the bytes. */
  lemma SwapTwice(s: seq<byte>, a: nat, b: nat, n: nat)
    requires a + n <= |s| && b + n <= |s| && Apart(a, b, n)
    ensures Swaps(Swaps(s, a, b, n), a, b, n) == s
  {
    var t := Swaps(s, a, b, n);
    RowsExchanged(s, a, b, n);
    RowsExchanged(t, a, b, n);
    var u := Swaps(t, a, b, n);
    forall j | 0 <= j < |s|
      ensures u[j] == s[j]
    {
      if a <= j < a + n {
        assert u[j] == t[j - a + b];
      } else if b <= j < b + n {
        assert u[j] == t[j - b + a];
      }
    }
  }

  /** `r * w`, built by repeated addition so that row arithmetic stays linear. */
  function Mul(r: nat, w: nat): nat {
    if r == 0 then 0 else Mul(r - 1, w) + w
  }

  /** `Mul` is the product. */
  lemma {:induction false} MulIs(r: nat, w: nat)
    ensures Mul(r, w) == r * w
  {
    if r > 0 {
      MulIs(r - 1, w);
      assert (r - 1) * w + w == r * w;
    }
  }

  /** A lower row ends no later than a higher row starts. */
  lemma {:induction false} MulLess(q: nat, r: nat, w: nat)
    requires q < r
    ensures Mul(q, w) + w <= Mul(r, w)
    decreases r
  {
    if q + 1 < r {
      MulLess(q, r - 1, w);
    }
  }

  /** Every row of an image of width 0 is empty. */
  lemma {:induction false} MulZero(r: nat)
    ensures Mul(r, 0) == 0
  {
    if r > 0 {
      MulZero(r - 1);
    }
  }

  /** The row of byte `j` in rows of `w` bytes. */
  function RowIndex(j: nat, w: nat): nat {
    if w == 0 then 0 else j / w
  }

  /** The column of byte `j` in rows of `w` bytes. */
  function Column(j: nat, w: nat): nat {
    if w == 0 then j else j % w
  }

  /** Byte `j` is byte `Column(j, w)` of row `RowIndex(j, w)`. */
  lemma RowBounds(j: nat, w: nat)
    requires w > 0
    ensures Mul(RowIndex(j, w), w) + Column(j, w) == j && Column(j, w) < w
  {
    MulIs(j / w, w);
  }

  /** A byte between the start and the end of row `r` is in row `r`. */
  lemma RowOf(j: nat, r: nat, w: nat)
    requires Mul(r, w) <= j < Mul(r, w) + w
    ensures RowIndex(j, w) == r
  {
    var q := RowIndex(j, w);
    RowBounds(j, w);
    if q < r {
      MulLess(q, r, w);
    } else if r < q {
      MulLess(r, q, w);
    }
  }

  /** A byte of the first `y` rows is in a row below `y`. */
  lemma RowBelow(j: nat, w: nat, y: nat)
    requires j < Mul(y, w)
    ensures w > 0 && RowIndex(j, w) < y
  {
    if w == 0 {
      MulZero(y);
    }
    RowBounds(j, w);
    if RowIndex(j, w) > y {
      MulLess(y, RowIndex(j, w), w);
    }
  }

  /** The byte of the first `y` rows that ends up at `j` after the flip: same column, mirrored row. */
  function Mirror(j: nat, w: nat, y: nat): nat {
    if RowIndex(j, w) < y then Mul(y - 1 - RowIndex(j, w), w) + Column(j, w) else j
  }

  /** The mirror of a byte of the first `y` rows is one too. */
  lemma MirrorBound(j: nat, w: nat, y: nat)
    requires j < Mul(y, w)
    ensures Mirror(j, w, y) < Mul(y, w)
  {
    RowBelow(j, w, y);
    RowBounds(j, w);
    MulLess(y - 1 - RowIndex(j, w), y, w);
  }

  /** Mirroring the byte at row `r`, column `c` of the first `y` rows. */
  lemma MirrorAt(r: nat, c: nat, w: nat, y: nat)
    requires r < y && c < w
    ensures Mul(r, w) + c < Mul(y, w) && Mirror(Mul(r, w) + c, w, y) == Mul(y - 1 - r, w) + c
  {
    MulLess(r, y, w);
    RowOf(Mul(r, w) + c, r, w);
    RowBounds(Mul(r, w) + c, w);
  }

  /** The image after the whole flip: the first `y` rows in reverse order, the rest as before. */
  function Flipped(s: seq<byte>, w: nat, y: nat): (r: seq<byte>)
    requires y * w <= |s|
    ensures |r| == |s|
  {
    MulIs(y, w);
    seq(|s|, j requires 0 <= j < |s| => if j < Mul(y, w) then MirrorBound(j, w, y); s[Mirror(j, w, y)] else s[j])
  }

  /** The byte at `j` after the first `i` iterations: mirrored when its row is below `i` or at least `y - i`. */
  function FlipAt(s: seq<byte>, w: nat, y: nat, i: nat, j: nat): byte
    requires Mul(y, w) <= |s| && j < |s|
  {
    if j < Mul(y, w) && (RowIndex(j, w) < i || RowIndex(j, w) >= y - i) then MirrorBound(j, w, y); s[Mirror(j, w, y)] else s[j]
  }

  /** The image after the first `i` iterations of the flip loop. */
  function Flipping(s: seq<byte>, w: nat, y: nat, i: nat): (r: seq<byte>)
    requires Mul(y, w) <= |s|
    ensures |r| == |s|
  {
    seq(|s|, j requires 0 <= j < |s| => FlipAt(s, w, y, i, j))
  }

  /** The loop swaps rows `i` and `y - 1 - i` only while `i < y / 2`, and those never overlap. */
  lemma DistinctRows(i: nat, y: nat, w: nat)
    requires i < y / 2
    ensures i < y - 1 - i && i * w + w <= (y - 1 - i) * w
  {
    MulIs(i, w);
    MulIs(y - 1 - i, w);
    MulLess(i, y - 1 - i, w);
  }

  /** Before the first iteration nothing is mirrored. */
  lemma FlipNone(s: seq<byte>, w: nat, y: nat)
    requires Mul(y, w) <= |s|
    ensures Flipping(s, w, y, 0) == s
  {
    forall j | 0 <= j < Mul(y, w)
      ensures Flipping(s, w, y, 0)[j] == s[j]
    {
      RowBelow(j, w, y);
    }
  }

  /** Byte `c` of row `i` after the step is byte `c` of row `y - 1 - i` before it. */
  lemma StepLow(s: seq<byte>, w: nat, y: nat, i: nat, c: nat)
    requires Mul(y, w) <= |s| && i + 1 + i < y && c < w
    requires Mul(i, w) + w <= Mul(y - 1 - i, w) && Mul(y - 1 - i, w) + w <= Mul(y, w)
    ensures FlipAt(s, w, y, i, Mul(y - 1 - i, w) + c) == FlipAt(s, w, y, i + 1, Mul(i, w) + c)
  {
    RowOf(Mul(i, w) + c, i, w);
    RowOf(Mul(y - 1 - i, w) + c, y - 1 - i, w);
    MirrorAt(i, c, w, y);
  }

  /** Byte `c` of row `y - 1 - i` after the step is byte `c` of row `i` before it. */
  lemma StepHigh(s: seq<byte>, w: nat, y: nat, i: nat, c: nat)
    requires Mul(y, w) <= |s| && i + 1 + i < y && c < w
    requires Mul(i, w) + w <= Mul(y - 1 - i, w) && Mul(y - 1 - i, w) + w <= Mul(y, w)
    ensures FlipAt(s, w, y, i, Mul(i, w) + c) == FlipAt(s, w, y, i + 1, Mul(y - 1 - i, w) + c)
  {
    RowOf(Mul(i, w) + c, i, w);
    RowOf(Mul(y - 1 - i, w) + c, y - 1 - i, w);
    MirrorAt(y - 1 - i, c, w, y);
  }

  /** A byte outside rows `i` and `y - 1 - i` is the same before and after the step. */
  lemma StepOther(s: seq<byte>, w: nat, y: nat, i: nat, j: nat)
    requires Mul(y, w) <= |s| && i + 1 + i < y && j < |s|
    requires !(Mul(i, w) <= j < Mul(i, w) + w) && !(Mul(y - 1 - i, w) <= j < Mul(y - 1 - i, w) + w)
    ensures FlipAt(s, w, y, i, j) == FlipAt(s, w, y, i + 1, j)
  {
    if j < Mul(y, w) {
      RowBelow(j, w, y);
      RowBounds(j, w);
      var r := RowIndex(j, w);
      if r == i {
      } else if r == y - 1 - i {
      }
    }
  }

  /** Swapping rows `i` and `y - 1 - i` takes the image from `i` to `i + 1` finished iterations. */
  lemma FlipStep(s: seq<byte>, w: nat, y: nat, i: nat)
    requires Mul(y, w) <= |s| && i < y / 2
    ensures Mul(i, w) + w <= |s| && Mul(y - 1 - i, w) + w <= |s|
    ensures Swaps(Flipping(s, w, y, i), Mul(i, w), Mul(y - 1 - i, w), w) == Flipping(s, w, y, i + 1)
  {
    var a, b := Mul(i, w), Mul(y - 1 - i, w);
    MulLess(i, y - 1 - i, w);
    MulLess(y - 1 - i, y, w);
    var u := Swaps(Flipping(s, w, y, i), a, b, w);
    var v := Flipping(s, w, y, i + 1);
    assert i + 1 + i < y;
    forall j | 0 <= j < |s|
      ensures u[j] == v[j]
    {
      FlipStepAt(s, w, y, i, j);
    }
  }

  /** `FlipStep` with the row offsets as the loop computes them. */
  lemma FlipStepRows(s: seq<byte>, w: nat, y: nat, i: nat)
    requires Mul(y, w) <= |s| && i < y / 2
    ensures i * w == Mul(i, w) && (y - i - 1) * w == Mul(y - 1 - i, w)
    ensures Mul(i, w) + w <= |s| && Mul(y - 1 - i, w) + w <= |s|
    ensures Swaps(Flipping(s, w, y, i), Mul(i, w), Mul(y - 1 - i, w), w) == Flipping(s, w, y, i + 1)
  {
    FlipStep(s, w, y, i);
    MulIs(i, w);
    MulIs(y - 1 - i, w);
  }

  /** `FlipStep` at byte `j`. */
  lemma FlipStepAt(s: seq<byte>, w: nat, y: nat, i: nat, j: nat)
    requires Mul(y, w) <= |s| && i + 1 + i < y && j < |s|
    requires Mul(i, w) + w <= Mul(y - 1 - i, w) && Mul(y - 1 - i, w) + w <= Mul(y, w)
    ensures Swaps(Flipping(s, w, y, i), Mul(i, w), Mul(y - 1 - i, w), w)[j] == Flipping(s, w, y, i + 1)[j]
  {
    var a, b := Mul(i, w), Mul(y - 1 - i, w);
    var t := Flipping(s, w, y, i);
    ExchangedAt(t, a, b, w, j);
    if a <= j < a + w {
      StepLow(s, w, y, i, j - a);
    } else if b <= j < b + w {
      StepHigh(s, w, y, i, j - b);
    } else {
      StepOther(s, w, y, i, j);
    }
  }

  /** When the loop stops, every row is mirrored; the middle row of an odd image mirrors to itself. */
  lemma FlipDone(s: seq<byte>, w: nat, y: nat)
    requires y * w <= |s|
    ensures Mul(y, w) == y * w && Flipping(s, w, y, y / 2) == Flipped(s, w, y)
  {
    MulIs(y, w);
    forall j | 0 <= j < Mul(y, w)
      ensures Flipping(s, w, y, y / 2)[j] == Flipped(s, w, y)[j]
    {
      FlipDoneAt(s, w, y, j);
    }
  }

  /** `FlipDone` at byte `j` of the first `y` rows. */
  lemma FlipDoneAt(s: seq<byte>, w: nat, y: nat, j: nat)
    requires y * w <= |s| && j < Mul(y, w)
    ensures Mul(y, w) == y * w && Flipping(s, w, y, y / 2)[j] == Flipped(s, w, y)[j]
  {
    FlippedAt(s, w, y, j);
    RowBelow(j, w, y);
    RowBounds(j, w);
  }

  /**
   * The flip loop of `load_texture` (and of `load_texture_array`, image by
   * image): swap row `i` with row `y - i - 1` for `i < y / 2`.
   */
  method FlipRows(img: array<byte>, x: nat, y: nat, n: nat)
    requires y * (x * n) <= img.Length
    modifies img
    ensures img[..] == Flipped(old(img[..]), x * n, y)
  {
    ghost var s := img[..];
    var w := x * n;
    MulIs(y, w);
    FlipNone(s, w, y);
    var i := 0;
    while i < y / 2
      invariant i <= y / 2 && img[..] == Flipping(s, w, y, i)
    {
      FlipStepRows(s, w, y, i);
      SwapRow(img, i * w, (y - i - 1) * w, w);
      i := i + 1;
    }
    FlipDone(s, w, y);
  }

  /** After the flip, byte `c` of row `r` is what byte `c` of row `y - 1 - r` held. */
  lemma FlipMirrorsRow(s: seq<byte>, w: nat, y: nat, r: nat, c: nat)
    requires y * w <= |s| && r < y && c < w
    ensures r * w == Mul(r, w) && (y - 1 - r) * w == Mul(y - 1 - r, w)
    ensures r * w + c < |s| && (y - 1 - r) * w + c < |s|
    ensures Flipped(s, w, y)[r * w + c] == s[(y - 1 - r) * w + c]
  {
    MulIs(r, w);
    MulIs(y - 1 - r, w);
    MirrorAt(r, c, w, y);
    FlippedAt(s, w, y, Mul(r, w) + c);
  }

  /** The bytes after the first `y` rows are untouched by the flip. */
  lemma FlipKeepsTail(s: seq<byte>, w: nat, y: nat)
    requires y * w <= |s|
    ensures forall j | y * w <= j < |s| :: Flipped(s, w, y)[j] == s[j]
  {
    MulIs(y, w);
  }

  /** The middle row of an image with an odd number of rows stays where it is. */
  lemma FlipKeepsMiddle(s: seq<byte>, w: nat, y: nat, c: nat)
    requires y * w <= |s| && y % 2 == 1 && c < w
    ensures (y / 2) * w + c < |s| && Flipped(s, w, y)[(y / 2) * w + c] == s[(y / 2) * w + c]
  {
    FlipMirrorsRow(s, w, y, y / 2, c);
    assert y - 1 - y / 2 == y / 2;
  }

  /** Flipping twice restores the image. */
  lemma FlipTwice(s: seq<byte>, w: nat, y: nat)
    requires y * w <= |s|
    ensures Flipped(Flipped(s, w, y), w, y) == s
  {
    MulIs(y, w);
    forall j | 0 <= j < Mul(y, w)
      ensures Flipped(Flipped(s, w, y), w, y)[j] == s[j]
    {
      FlipTwiceAt(s, w, y, j);
    }
  }

  /** `FlipTwice` at byte `j` of the first `y` rows: the mirror of the mirror is `j`. */
  lemma FlipTwiceAt(s: seq<byte>, w: nat, y: nat, j: nat)
    requires y * w <= |s| && j < Mul(y, w)
    ensures Mul(y, w) == y * w && Flipped(Flipped(s, w, y), w, y)[j] == s[j]
  {
    MulIs(y, w);
    var t := Flipped(s, w, y);
    var m := Mirror(j, w, y);
    MirrorBound(j, w, y);
    MirrorTwice(j, w, y);
    FlippedAt(t, w, y, j);
    FlippedAt(s, w, y, m);
  }

  /** Mirroring is its own inverse. */
  lemma MirrorTwice(j: nat, w: nat, y: nat)
    requires j < Mul(y, w)
    ensures Mirror(Mirror(j, w, y), w, y) == j
  {
    var r, c := RowColumn(j, w, y);
    var q := y - 1 - r;
    assert Mirror(j, w, y) == Mul(q, w) + c by {
      MirrorAt(r, c, w, y);
    }
    assert Mul(q, w) + c < Mul(y, w) by {
      MulLess(q, y, w);
    }
    assert Mirror(Mul(q, w) + c, w, y) == j by {
      MirrorAt(q, c, w, y);
      assert y - 1 - q == r;
    }
  }

  /** Byte `j` of the first `y` rows is byte `c` of row `r`. */
  lemma RowColumn(j: nat, w: nat, y: nat) returns (r: nat, c: nat)
    requires j < Mul(y, w)
    ensures r < y && c < w && j == Mul(r, w) + c
  {
    RowBelow(j, w, y);
    RowBounds(j, w);
    r := RowIndex(j, w);
    c := j - Mul(r, w);
  }

  /** Byte `j` of the first `y` rows of the flipped image. */
  lemma FlippedAt(s: seq<byte>, w: nat, y: nat, j: nat)
    requires y * w <= |s| && j < Mul(y, w)
    ensures Mul(y, w) == y * w && Mirror(j, w, y) < Mul(y, w)
    ensures Flipped(s, w, y)[j] == s[Mirror(j, w, y)]
  {
    MulIs(y, w);
    MirrorBound(j, w, y);
  }

  /**
   * The flip of `load_texture_array`: every loaded image, all `y` rows of
   * `x * n` bytes, flipped in turn. The images are distinct allocations.
   */
  method FlipImages(images: seq<array<byte>>, x: nat, y: nat, n: nat)
    requires forall k | 0 <= k < |images| :: y * (x * n) <= images[k].Length
    requires forall j, k | 0 <= j < k < |images| :: images[j] != images[k]
    modifies set k | 0 <= k < |images| :: images[k]
    ensures forall k | 0 <= k < |images| :: images[k][..] == Flipped(old(images[k][..]), x * n, y)
  {
    var i := 0;
    while i < |images|
      invariant i <= |images|
      invariant forall k | 0 <= k < i :: images[k][..] == Flipped(old(images[k][..]), x * n, y)
      invariant forall k | i <= k < |images| :: images[k][..] == old(images[k][..])
    {
      FlipRows(images[i], x, y, n);
      i := i + 1;
    }
  }
}
