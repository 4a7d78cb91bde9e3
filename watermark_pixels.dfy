/**
 * The pixel filters of the watermark remover: in-place passes over the RGBA
 * bytes of a canvas (a `Uint8ClampedArray` of length width * height * 4, four
 * bytes per pixel, rows one after the other).
 */
module WatermarkPixels {

  /** A byte of a `Uint8ClampedArray`. */
  newtype byte = x: int | 0 <= x < 256

  /** `Math.max(0, a - 100)`: the alpha a dimmed pixel gets. */
  function Dim(a: byte): (r: byte)
    ensures r as int == if a < 100 then 0 else a as int - 100
  {
    if a < 100 then 0 else a - 100
  }

  // ---------------------------------------------------------------------------
  // removeSemiTransparentOverlays

  /**
   * The pixel whose red byte is at `i` is a light, semi-transparent overlay:
   * `50 < a < 255` and brightness `(r + g + b) / 3 > 200`, which is `r + g + b > 600`.
   */
  predicate Faded(s: seq<byte>, i: nat)
    requires i + 3 < |s|
  {
    50 < s[i + 3] < 255 && s[i] as int + s[i + 1] as int + s[i + 2] as int > 600
  }

  /** What `removeSemiTransparentOverlays` leaves: the alpha of every faded pixel dimmed. */
  function Overlaid(s: seq<byte>): (r: seq<byte>)
    ensures |r| == |s|
  {
    seq(|s|, j requires 0 <= j < |s| => if j % 4 == 3 && Faded(s, j - 3) then Dim(s[j]) else s[j])
  }

  /**
   * A byte changes exactly when it is the alpha of a faded pixel, and then it
   * becomes `max(0, a - 100)`; no byte grows. In particular the colour bytes,
   * opaque pixels and pixels with alpha at most 50 are left alone.
   */
  lemma OverlaidExactly(s: seq<byte>, j: nat)
    requires j < |s|
    ensures var r := Overlaid(s);
      && (r[j] != s[j] <==> j % 4 == 3 && Faded(s, j - 3))
      && (r[j] != s[j] ==> r[j] == Dim(s[j]))
      && r[j] <= s[j]
  {
  }

  /** `d` is `s` with the bytes before `i` as `removeSemiTransparentOverlays` leaves them. */
  predicate OverlaidBefore(d: seq<byte>, s: seq<byte>, i: nat) {
    |d| == |s| && forall j :: 0 <= j < |s| ==> d[j] == if j < i then Overlaid(s)[j] else s[j]
  }

  /** One pass of the loop: the pixel at `i` is dimmed exactly when it is faded. */
  lemma OverlayStep(d: seq<byte>, s: seq<byte>, i: nat, e: seq<byte>)
    requires i % 4 == 0 && i < |s| && OverlaidBefore(d, s, i)
    requires e == if i + 3 < |d| && Faded(d, i) then d[i + 3 := Dim(d[i + 3])] else d
    ensures OverlaidBefore(e, s, i + 4)
  {
    forall j | 0 <= j < |s|
      ensures e[j] == if j < i + 4 then Overlaid(s)[j] else s[j]
    {
      if i <= j < i + 4 {
        assert j % 4 == 3 <==> j == i + 3;
        if j == i + 3 {
          assert Faded(d, i) == Faded(s, i);
        }
      }
    }
  }

  /** The body of the loop of `removeSemiTransparentOverlays` for the pixel whose red byte is at `i`. */
  method DimIfFaded(data: array<byte>, i: nat)
    modifies data
    ensures data[..] == if i + 3 < data.Length && Faded(old(data[..]), i)
      then old(data[..])[i + 3 := Dim(old(data[i + 3]))] else old(data[..])
  {
    // past the end `a` is undefined, and `undefined < 255` is false
    if i + 3 < data.Length {
      var a := data[i + 3];
      if a < 255 && a > 50 {
        var sum := data[i] as int + data[i + 1] as int + data[i + 2] as int;
        if sum > 600 {
          data[i + 3] := Dim(a);
        }
      }
    }
  }

  /** `removeSemiTransparentOverlays(data, width, height)`; the two dimensions are not used. */
  method RemoveSemiTransparentOverlays(data: array<byte>)
    modifies data
    ensures data[..] == Overlaid(old(data[..]))
  {
    ghost var s := data[..];
    var i := 0;
    while i < data.Length
      invariant i % 4 == 0 && i <= data.Length + 3
      invariant OverlaidBefore(data[..], s, i)
    {
      ghost var d := data[..];
      DimIfFaded(data, i);
      OverlayStep(d, s, i, data[..]);
      i := i + 4;
    }
    assert data[..] == Overlaid(s);
  }

  // ---------------------------------------------------------------------------
  // Pixel arithmetic
  //
  // Products of two variables are written with `Mul`, defined by recursion, and
  // rows and columns of a pixel number with `RowOf` and `ColumnOf`, so that every
  // fact about them comes from the small lemmas below.

  /** `a * b` */
  function Mul(a: nat, b: nat): (r: nat)
    decreases a
  {
    if a == 0 then 0 else Mul(a - 1, b) + b
  }

  lemma {:induction false} MulAdd(a: nat, c: nat, b: nat)
    ensures Mul(a + c, b) == Mul(a, b) + Mul(c, b)
    decreases c
  {
    if c > 0 {
      MulAdd(a, c - 1, b);
    }
  }

  lemma MulMono(a: nat, c: nat, b: nat)
    requires a <= c
    ensures Mul(a, b) <= Mul(c, b)
  {
    MulAdd(a, c - a, b);
  }

  lemma {:induction false} MulBy4(a: nat, b: nat)
    ensures Mul(a, b * 4) == Mul(a, b) * 4
    decreases a
  {
    if a > 0 {
      MulBy4(a - 1, b);
    }
  }

  /** Row of pixel number `p` in an image `width` pixels wide. */
  function RowOf(p: nat, width: nat): nat
    requires width > 0
    decreases p
  {
    if p < width then 0 else RowOf(p - width, width) + 1
  }

  /** Column of pixel number `p` in an image `width` pixels wide. */
  function ColumnOf(p: nat, width: nat): nat
    requires width > 0
    decreases p
  {
    if p < width then p else ColumnOf(p - width, width)
  }

  /** Pixel (`x`, `y`) of a row-major image has number `y * width + x`, and back. */
  lemma {:induction false} Coordinates(x: nat, y: nat, width: nat)
    requires x < width
    ensures RowOf(Mul(y, width) + x, width) == y && ColumnOf(Mul(y, width) + x, width) == x
    decreases y
  {
    if y > 0 {
      Coordinates(x, y - 1, width);
    }
  }

  /** Every pixel number is its row times the width plus its column. */
  lemma {:induction false} Decompose(p: nat, width: nat)
    requires width > 0
    ensures ColumnOf(p, width) < width && p == Mul(RowOf(p, width), width) + ColumnOf(p, width)
    decreases p
  {
    if p >= width {
      Decompose(p - width, width);
    }
  }

  // ---------------------------------------------------------------------------
  // getImageBlock

  /** Index of the red byte of the pixel at column `x`, row `y`. */
  function Offset(x: nat, y: nat, width: nat): nat {
    (Mul(y, width) + x) * 4
  }

  /** The square of side `size` at (`x`, `y`), `rows` rows of it, lies inside the buffer. */
  predicate Inside(x: nat, y: nat, size: nat, rows: nat, width: nat, len: nat) {
    x + size <= width && Mul(y + rows, width) * 4 <= len
  }

  /** The last of `rows` rows of a square that lies inside ends inside the buffer, and fewer rows lie inside. */
  lemma LastRowInside(x: nat, y: nat, size: nat, rows: nat, width: nat, len: nat)
    requires rows > 0 && Inside(x, y, size, rows, width, len)
    ensures Offset(x, y + rows - 1, width) + size * 4 <= len
    ensures Inside(x, y, size, rows - 1, width, len)
  {
    assert Mul(y + rows, width) == Mul(y + rows - 1, width) + width;
  }

  /** Fewer rows of a square that lies inside also lie inside. */
  lemma InsideFewer(x: nat, y: nat, size: nat, rows: nat, fewer: nat, width: nat, len: nat)
    requires fewer <= rows && Inside(x, y, size, rows, width, len)
    ensures Inside(x, y, size, fewer, width, len)
  {
    MulMono(y + fewer, y + rows, width);
  }

  /** The first `rows` rows of the square of side `size` at (`x`, `y`), one after the other. */
  function Rows(s: seq<byte>, x: nat, y: nat, size: nat, width: nat, rows: nat): seq<byte>
    requires Inside(x, y, size, rows, width, |s|)
    decreases rows
  {
    if rows == 0 then []
    else
      LastRowInside(x, y, size, rows, width, |s|);
      var start := Offset(x, y + rows - 1, width);
      Rows(s, x, y, size, width, rows - 1) + s[start..start + size * 4]
  }

  /** `getImageBlock`'s result for the square of side `size` at (`x`, `y`). */
  function Block(s: seq<byte>, x: nat, y: nat, size: nat, width: nat): seq<byte>
    requires Inside(x, y, size, size, width, |s|)
  {
    Rows(s, x, y, size, width, size)
  }

  /** Pixel `dx` of row `dy` of a square lies `dy` rows and `dx` pixels after its corner. */
  lemma PixelOffset(x: nat, y: nat, dx: nat, dy: nat, width: nat)
    ensures Offset(x + dx, y + dy, width) == Offset(x, y + dy, width) + dx * 4
  {
  }

  /** The rows hold `rows * size * 4` values. */
  lemma {:induction false} RowsLength(s: seq<byte>, x: nat, y: nat, size: nat, width: nat, rows: nat)
    requires Inside(x, y, size, rows, width, |s|)
    ensures |Rows(s, x, y, size, width, rows)| == Mul(rows, size) * 4
    decreases rows
  {
    if rows > 0 {
      LastRowInside(x, y, size, rows, width, |s|);
      RowsLength(s, x, y, size, width, rows - 1);
    }
  }

  /** Adding a row keeps the rows before it. */
  lemma RowsPrefix(s: seq<byte>, x: nat, y: nat, size: nat, width: nat, rows: nat, k: nat)
    requires rows > 0 && Inside(x, y, size, rows, width, |s|)
    requires k < Mul(rows - 1, size) * 4
    ensures Inside(x, y, size, rows - 1, width, |s|)
    ensures k < |Rows(s, x, y, size, width, rows)| && k < |Rows(s, x, y, size, width, rows - 1)|
    ensures Rows(s, x, y, size, width, rows)[k] == Rows(s, x, y, size, width, rows - 1)[k]
  {
    LastRowInside(x, y, size, rows, width, |s|);
    RowsLength(s, x, y, size, width, rows - 1);
  }

  /** The rows are the rows before the last, then the `size` pixels of row `y + dy`. */
  lemma RowsSplit(s: seq<byte>, x: nat, y: nat, size: nat, width: nat, rows: nat, dy: nat)
    requires rows > 0 && dy == rows - 1 && Inside(x, y, size, rows, width, |s|)
    ensures Inside(x, y, size, dy, width, |s|) && Offset(x, y + dy, width) + size * 4 <= |s|
    ensures Rows(s, x, y, size, width, rows)
         == Rows(s, x, y, size, width, dy) + s[Offset(x, y + dy, width)..Offset(x, y + dy, width) + size * 4]
  {
    LastRowInside(x, y, size, rows, width, |s|);
  }

  /** The last row added holds the pixels of row `y + rows - 1`. */
  lemma RowsLast(s: seq<byte>, x: nat, y: nat, size: nat, width: nat, rows: nat, dy: nat, dx: nat, c: nat)
    requires rows > 0 && dy == rows - 1 && Inside(x, y, size, rows, width, |s|)
    requires dx < size && c < 4
    ensures (Mul(dy, size) + dx) * 4 + c < |Rows(s, x, y, size, width, rows)|
    ensures Offset(x + dx, y + dy, width) + c < |s|
    ensures Rows(s, x, y, size, width, rows)[(Mul(dy, size) + dx) * 4 + c] == s[Offset(x + dx, y + dy, width) + c]
  {
    RowsSplit(s, x, y, size, width, rows, dy);
    RowsLength(s, x, y, size, width, dy);
    PixelOffset(x, y, dx, dy, width);
    var start := Offset(x, y + dy, width);
    var front := Rows(s, x, y, size, width, dy);
    var last := s[start..start + size * 4];
    var k := (Mul(dy, size) + dx) * 4 + c;
    assert k == |front| + (dx * 4 + c);
    assert Rows(s, x, y, size, width, rows)[k] == (front + last)[k];
    assert (front + last)[k] == last[dx * 4 + c] == s[start + dx * 4 + c];
    assert start + dx * 4 + c == Offset(x + dx, y + dy, width) + c;
  }

  /** Value `(dy * size + dx) * 4 + c` of the rows is channel `c` of pixel (`x + dx`, `y + dy`). */
  lemma {:induction false} RowsAt(s: seq<byte>, x: nat, y: nat, size: nat, width: nat, rows: nat, dy: nat, dx: nat, c: nat)
    requires Inside(x, y, size, rows, width, |s|)
    requires dy < rows && dx < size && c < 4
    ensures (Mul(dy, size) + dx) * 4 + c < Mul(rows, size) * 4 && Offset(x + dx, y + dy, width) + c < |s|
    ensures |Rows(s, x, y, size, width, rows)| == Mul(rows, size) * 4
    ensures Rows(s, x, y, size, width, rows)[(Mul(dy, size) + dx) * 4 + c] == s[Offset(x + dx, y + dy, width) + c]
    decreases rows
  {
    RowsLength(s, x, y, size, width, rows);
    var k := (Mul(dy, size) + dx) * 4 + c;
    if dy < rows - 1 {
      LastRowInside(x, y, size, rows, width, |s|);
      RowsAt(s, x, y, size, width, rows - 1, dy, dx, c);
      RowsPrefix(s, x, y, size, width, rows, k);
    } else {
      RowsLast(s, x, y, size, width, rows, dy, dx, c);
      MulAdd(dy, 1, size);
    }
  }

  /**
   * The block holds `size * size * 4` values, and value `(dy * size + dx) * 4 + c`
   * is channel `c` of pixel (`x + dx`, `y + dy`): the square is copied row-major.
   */
  lemma BlockAt(s: seq<byte>, x: nat, y: nat, size: nat, width: nat, dy: nat, dx: nat, c: nat)
    requires Inside(x, y, size, size, width, |s|)
    requires dy < size && dx < size && c < 4
    ensures |Block(s, x, y, size, width)| == Mul(size, size) * 4
    ensures (Mul(dy, size) + dx) * 4 + c < Mul(size, size) * 4 && Offset(x + dx, y + dy, width) + c < |s|
    ensures Block(s, x, y, size, width)[(Mul(dy, size) + dx) * 4 + c] == s[Offset(x + dx, y + dy, width) + c]
  {
    RowsAt(s, x, y, size, width, size, dy, dx, c);
  }

  /** The `dx` loop of `getImageBlock`: pushes the `size` pixels of row `y + dy`, from column `x` on. */
  method PushRow(data: array<byte>, block: seq<byte>, x: nat, y: nat, dy: nat, size: nat, width: nat) returns (pushed: seq<byte>)
    requires Offset(x, y + dy, width) + size * 4 <= data.Length
    ensures pushed == block + data[Offset(x, y + dy, width)..Offset(x, y + dy, width) + size * 4]
  {
    ghost var start := Offset(x, y + dy, width);
    pushed := block;
    for dx := 0 to size
      invariant pushed == block + data[start..start + dx * 4]
    {
      var index := (Mul(y + dy, width) + (x + dx)) * 4;
      assert index == start + dx * 4 && start + (dx + 1) * 4 == index + 4;
      assert data[start..index + 4] == data[start..index] + data[index..index + 4];
      pushed := pushed + [data[index], data[index + 1], data[index + 2], data[index + 3]];
    }
  }

  /** `getImageBlock(data, x, y, size, width)`: the square copied row by row; `data` is only read. */
  method GetImageBlock(data: array<byte>, x: nat, y: nat, size: nat, width: nat) returns (block: seq<byte>)
    requires Inside(x, y, size, size, width, data.Length)
    ensures block == Block(data[..], x, y, size, width)
  {
    block := [];
    InsideFewer(x, y, size, size, 0, width, data.Length);
    for dy := 0 to size
      invariant Inside(x, y, size, dy, width, data.Length)
      invariant block == Rows(data[..], x, y, size, width, dy)
    {
      InsideFewer(x, y, size, size, dy + 1, width, data.Length);
      LastRowInside(x, y, size, dy + 1, width, data.Length);
      block := PushRow(data, block, x, y, dy, size, width);
    }
  }

  // ---------------------------------------------------------------------------
  // calculateBlockSimilarity

  /** What `calculateBlockSimilarity` returns: a number, or `NaN` when it divides zero by zero or reads past the end. */
  datatype Score = Score(value: real) | NotANumber

  function Abs(d: int): nat {
    if d < 0 then -d else d
  }

  /** `Math.abs(r1 - r2) + Math.abs(g1 - g2) + Math.abs(b1 - b2)` for the pixel whose red value is at `i`. */
  function PixelDiff(b1: seq<byte>, b2: seq<byte>, i: nat): nat
    requires |b1| == |b2| && i + 2 < |b1|
  {
    Abs(b1[i] as int - b2[i] as int) + Abs(b1[i + 1] as int - b2[i + 1] as int) + Abs(b1[i + 2] as int - b2[i + 2] as int)
  }

  /** `totalDiff` over the pixels from the one at `i` on, four values apart. */
  function TotalDiff(b1: seq<byte>, b2: seq<byte>, i: nat): nat
    requires |b1| == |b2|
    decreases |b1| - i
  {
    if i + 2 < |b1| then PixelDiff(b1, b2, i) + TotalDiff(b1, b2, i + 4) else 0
  }

  /** The last pixel is cut short before its blue value, which makes the sum `NaN`. */
  predicate CutShort(len: nat) {
    len % 4 == 1 || len % 4 == 2
  }

  /** `calculateBlockSimilarity(block1, block2)`: `1 - totalDiff / maxDiff`, with `maxDiff = length * 3 * 255 / 4`. */
  function Similarity(b1: seq<byte>, b2: seq<byte>): Score {
    if |b1| != |b2| then Score(0.0)
    else if |b1| == 0 || CutShort(|b1|) then NotANumber
    else Score(1.0 - TotalDiff(b1, b2, 0) as real / (|b1| as real * 3.0 * 255.0 / 4.0))
  }

  /** The test of `removeRepetitivePatterns`: similarity above 0.9 (`NaN` is above nothing). */
  predicate Similar(b1: seq<byte>, b2: seq<byte>) {
    var sim := Similarity(b1, b2);
    sim.Score? && sim.value > 0.9
  }

  /** For a positive `m`, `t / m < k` exactly when `t < k * m`. */
  lemma RatioBelow(t: real, m: real, k: real)
    requires m > 0.0
    ensures t / m < k <==> t < k * m
  {
    var q := t / m;
    assert q * m == t;
    if q < k {
      assert (k - q) * m > 0.0;
    } else {
      assert (q - k) * m >= 0.0;
    }
  }

  /** Blocks are similar exactly when they have the same length and `10 * totalDiff < maxDiff`. */
  lemma SimilarExactly(b1: seq<byte>, b2: seq<byte>)
    ensures Similar(b1, b2) <==>
      |b1| == |b2| && |b1| > 0 && !CutShort(|b1|) && 40 * TotalDiff(b1, b2, 0) < 765 * |b1|
  {
    if |b1| == |b2| && |b1| > 0 && !CutShort(|b1|) {
      var t := TotalDiff(b1, b2, 0) as real;
      var m := |b1| as real * 3.0 * 255.0 / 4.0;
      RatioBelow(t, m, 0.1);
    }
  }

  /** Swapping the blocks changes no pixel difference. */
  lemma {:induction false} TotalDiffSymmetric(b1: seq<byte>, b2: seq<byte>, i: nat)
    requires |b1| == |b2|
    ensures TotalDiff(b1, b2, i) == TotalDiff(b2, b1, i)
    decreases |b1| - i
  {
    if i + 2 < |b1| {
      TotalDiffSymmetric(b1, b2, i + 4);
    }
  }

  /** The similarity does not depend on the order of the blocks. */
  lemma SimilaritySymmetric(b1: seq<byte>, b2: seq<byte>)
    ensures Similarity(b1, b2) == Similarity(b2, b1)
  {
    if |b1| == |b2| {
      TotalDiffSymmetric(b1, b2, 0);
    }
  }

  /** Two blocks of the same length that agree everywhere except perhaps on alpha values. */
  predicate SameColours(a: seq<byte>, b: seq<byte>) {
    |a| == |b| && forall j :: 0 <= j < |a| && j % 4 != 3 ==> a[j] == b[j]
  }

  /** Alpha values play no part in the sum. */
  lemma {:induction false} TotalDiffIgnoresAlpha(b1: seq<byte>, b2: seq<byte>, c1: seq<byte>, c2: seq<byte>, i: nat)
    requires |b1| == |b2| && SameColours(b1, c1) && SameColours(b2, c2) && i % 4 == 0
    ensures TotalDiff(b1, b2, i) == TotalDiff(c1, c2, i)
    decreases |b1| - i
  {
    if i + 2 < |b1| {
      assert b1[i] == c1[i] && b1[i + 1] == c1[i + 1] && b1[i + 2] == c1[i + 2];
      assert b2[i] == c2[i] && b2[i + 1] == c2[i + 1] && b2[i + 2] == c2[i + 2];
      TotalDiffIgnoresAlpha(b1, b2, c1, c2, i + 4);
    }
  }

  /** The similarity ignores the alpha channel. */
  lemma SimilarityIgnoresAlpha(b1: seq<byte>, b2: seq<byte>, c1: seq<byte>, c2: seq<byte>)
    requires SameColours(b1, c1) && SameColours(b2, c2)
    ensures Similarity(b1, b2) == Similarity(c1, c2)
  {
    if |b1| == |b2| {
      TotalDiffIgnoresAlpha(b1, b2, c1, c2, 0);
    }
  }

  /** Blocks with the same colour values differ by nothing. */
  lemma {:induction false} TotalDiffSame(b1: seq<byte>, b2: seq<byte>, i: nat)
    requires SameColours(b1, b2) && i % 4 == 0
    ensures TotalDiff(b1, b2, i) == 0
    decreases |b1| - i
  {
    if i + 2 < |b1| {
      assert b1[i] == b2[i] && b1[i + 1] == b2[i + 1] && b1[i + 2] == b2[i + 2];
      TotalDiffSame(b1, b2, i + 4);
    }
  }

  /** Blocks with the same colour values score exactly 1. */
  lemma SimilaritySame(b1: seq<byte>, b2: seq<byte>)
    requires SameColours(b1, b2) && |b1| > 0 && !CutShort(|b1|)
    ensures Similarity(b1, b2) == Score(1.0)
  {
    TotalDiffSame(b1, b2, 0);
  }

  /** A pixel starting at `i` is cut short exactly when fewer than three of its values are left, and then it is the last. */
  lemma CutShortAt(i: nat, len: nat)
    requires i % 4 == 0 && i < len
    ensures i + 2 >= len ==> CutShort(len)
    ensures i + 2 < len && i + 4 >= len ==> !CutShort(len)
  {
  }

  /** `calculateBlockSimilarity(block1, block2)`, its loop summing the differences. */
  method CalculateBlockSimilarity(b1: seq<byte>, b2: seq<byte>) returns (sim: Score)
    ensures sim == Similarity(b1, b2)
  {
    if |b1| != |b2| {
      return Score(0.0);
    }
    var totalDiff := 0;
    var undefinedRead := false;
    var i := 0;
    while i < |b1|
      invariant i % 4 == 0 && i <= |b1| + 3
      invariant totalDiff + TotalDiff(b1, b2, i) == TotalDiff(b1, b2, 0)
      invariant undefinedRead <==> i >= |b1| && CutShort(|b1|)
    {
      CutShortAt(i, |b1|);
      if i + 2 < |b1| {
        var diff := Abs(b1[i] as int - b2[i] as int) + Abs(b1[i + 1] as int - b2[i + 1] as int) + Abs(b1[i + 2] as int - b2[i + 2] as int);
        assert diff == PixelDiff(b1, b2, i);
        totalDiff := totalDiff + diff;
      } else {
        undefinedRead := true;
      }
      i := i + 4;
    }
    var maxDiff := |b1| as real * 3.0 * 255.0 / 4.0;
    if undefinedRead || maxDiff == 0.0 {
      return NotANumber;
    }
    return Score(1.0 - totalDiff as real / maxDiff);
  }

  // ---------------------------------------------------------------------------
  // reduceBlockOpacity

  /** Pixel number `p` lies in the square of side `size` at (`x`, `y`). */
  predicate InSquare(p: nat, x: nat, y: nat, size: nat, width: nat) {
    width > 0 && x <= ColumnOf(p, width) < x + size && y <= RowOf(p, width) < y + size
  }

  /** What `reduceBlockOpacity` leaves: the alpha of every pixel of the square dimmed. */
  function Reduced(s: seq<byte>, x: nat, y: nat, size: nat, width: nat): (r: seq<byte>)
    ensures |r| == |s|
  {
    seq(|s|, j requires 0 <= j < |s| => if j % 4 == 3 && InSquare(j / 4, x, y, size, width) then Dim(s[j]) else s[j])
  }

  /**
   * A byte changes exactly when it is the non-zero alpha of a pixel of the square,
   * and then it becomes `max(0, a - 100)`; no byte grows.
   */
  lemma ReducedExactly(s: seq<byte>, x: nat, y: nat, size: nat, width: nat, j: nat)
    requires j < |s|
    ensures var r := Reduced(s, x, y, size, width);
      && (r[j] != s[j] <==> j % 4 == 3 && InSquare(j / 4, x, y, size, width) && s[j] > 0)
      && (r[j] != s[j] ==> r[j] == Dim(s[j]))
      && r[j] <= s[j]
  {
  }

  /** The pixels of the square done by the loops of `reduceBlockOpacity` before row `dy`, column `dx`. */
  predicate DoneBefore(p: nat, x: nat, y: nat, size: nat, width: nat, dy: nat, dx: nat) {
    && width > 0 && x <= ColumnOf(p, width) < x + size && y <= RowOf(p, width)
    && (RowOf(p, width) < y + dy || (RowOf(p, width) == y + dy && ColumnOf(p, width) < x + dx))
  }

  /** `d` is `s` with the alpha of the pixels done before (`dx`, `dy`) dimmed. */
  predicate ReducedBefore(d: seq<byte>, s: seq<byte>, x: nat, y: nat, size: nat, width: nat, dy: nat, dx: nat) {
    |d| == |s| &&
    forall j :: 0 <= j < |s| ==> d[j] == if j % 4 == 3 && DoneBefore(j / 4, x, y, size, width, dy, dx) then Dim(s[j]) else s[j]
  }

  /** Pixel (`x + dx`, `y + dy`) is the one pixel the `dx` step adds to those done. */
  lemma DoneBeforeStep(q: nat, x: nat, y: nat, size: nat, width: nat, dy: nat, dx: nat)
    requires x + size <= width && dx < size
    ensures DoneBefore(q, x, y, size, width, dy, dx + 1) ==
      (DoneBefore(q, x, y, size, width, dy, dx) || q == Mul(y + dy, width) + (x + dx))
  {
    var p := Mul(y + dy, width) + (x + dx);
    Coordinates(x + dx, y + dy, width);
    if q != p {
      Decompose(q, width);
      Decompose(p, width);
    }
  }

  /** One pass of the `dx` loop: the pixel at (`x + dx`, `y + dy`) is dimmed when its alpha lies inside the buffer. */
  lemma ReduceStep(d: seq<byte>, s: seq<byte>, x: nat, y: nat, size: nat, width: nat, dy: nat, dx: nat)
    requires x + size <= width && dx < size
    requires ReducedBefore(d, s, x, y, size, width, dy, dx)
    ensures var index := (Mul(y + dy, width) + (x + dx)) * 4;
      ReducedBefore(if index + 3 < |d| then d[index + 3 := Dim(d[index + 3])] else d, s, x, y, size, width, dy, dx + 1)
  {
    var p := Mul(y + dy, width) + (x + dx);
    var index := p * 4;
    var e := if index + 3 < |d| then d[index + 3 := Dim(d[index + 3])] else d;
    DoneBeforeStep(p, x, y, size, width, dy, dx);
    assert !DoneBefore(p, x, y, size, width, dy, dx) by {
      Coordinates(x + dx, y + dy, width);
    }
    forall j | 0 <= j < |s|
      ensures e[j] == if j % 4 == 3 && DoneBefore(j / 4, x, y, size, width, dy, dx + 1) then Dim(s[j]) else s[j]
    {
      DoneBeforeStep(j / 4, x, y, size, width, dy, dx);
    }
  }

  /** The end of a row of the square is the start of the next. */
  lemma ReduceNextRow(d: seq<byte>, s: seq<byte>, x: nat, y: nat, size: nat, width: nat, dy: nat)
    requires ReducedBefore(d, s, x, y, size, width, dy, size)
    ensures ReducedBefore(d, s, x, y, size, width, dy + 1, 0)
  {
    forall j | 0 <= j < |s|
      ensures DoneBefore(j / 4, x, y, size, width, dy, size) == DoneBefore(j / 4, x, y, size, width, dy + 1, 0)
    {
    }
  }

  /** Once every row is done, the whole square is. */
  lemma ReduceDone(d: seq<byte>, s: seq<byte>, x: nat, y: nat, size: nat, width: nat)
    requires ReducedBefore(d, s, x, y, size, width, size, 0)
    ensures d == Reduced(s, x, y, size, width)
  {
    forall j | 0 <= j < |s|
      ensures DoneBefore(j / 4, x, y, size, width, size, 0) == InSquare(j / 4, x, y, size, width)
    {
    }
  }

  /**
   * `reduceBlockOpacity(data, x, y, size, width)`. The square must not run past the
   * end of a row (see the README).
   */
  method ReduceBlockOpacity(data: array<byte>, x: nat, y: nat, size: nat, width: nat)
    requires x + size <= width
    modifies data
    ensures data[..] == Reduced(old(data[..]), x, y, size, width)
  {
    ghost var s := data[..];
    for dy := 0 to size
      invariant ReducedBefore(data[..], s, x, y, size, width, dy, 0)
    {
      for dx := 0 to size
        invariant ReducedBefore(data[..], s, x, y, size, width, dy, dx)
      {
        var index := (Mul(y + dy, width) + (x + dx)) * 4;
        ReduceStep(data[..], s, x, y, size, width, dy, dx);
        if index + 3 < data.Length {
          data[index + 3] := Dim(data[index + 3]);
        }
      }
      ReduceNextRow(data[..], s, x, y, size, width, dy);
    }
    ReduceDone(data[..], s, x, y, size, width);
  }

  // ---------------------------------------------------------------------------
  // removeRepetitivePatterns

  /** `blockSize` */
  const BlockSize: nat := 20

  /** An RGBA buffer of `width * height` pixels. */
  predicate Image(len: nat, width: nat, height: nat) {
    len == Mul(height, width) * 4
  }

  /** A block whose corner the loops reach (`x < width - 20`, `y < height - 20`) lies inside the image. */
  lemma BlockInside(x: nat, y: nat, width: nat, height: nat, len: nat)
    requires Image(len, width, height) && x + BlockSize < width && y + BlockSize < height
    ensures Inside(x, y, BlockSize, BlockSize, width, len)
  {
    MulMono(y + BlockSize, height, width);
  }

  /** The body of the `x2` loop: dim the block at (`x2`, `y2`) when it is similar to `block1`. */
  function DimIfSimilar(s: seq<byte>, block1: seq<byte>, x2: nat, y2: nat, width: nat, height: nat): (r: seq<byte>)
    requires Image(|s|, width, height) && x2 + BlockSize < width && y2 + BlockSize < height
    ensures |r| == |s|
  {
    BlockInside(x2, y2, width, height, |s|);
    if Similar(block1, Block(s, x2, y2, BlockSize, width)) then Reduced(s, x2, y2, BlockSize, width) else s
  }

  /** The `x2` loop from `x2` on. */
  function ScanRow(s: seq<byte>, block1: seq<byte>, x2: nat, y2: nat, width: nat, height: nat): (r: seq<byte>)
    requires Image(|s|, width, height) && y2 + BlockSize < height
    ensures |r| == |s|
    decreases width - x2
  {
    if x2 + BlockSize >= width then s
    else ScanRow(DimIfSimilar(s, block1, x2, y2, width, height), block1, x2 + BlockSize, y2, width, height)
  }

  /** The `y2` loop from `y2` on, for the block at column `x`. */
  function ScanBelow(s: seq<byte>, block1: seq<byte>, x: nat, y2: nat, width: nat, height: nat): (r: seq<byte>)
    requires Image(|s|, width, height)
    ensures |r| == |s|
    decreases height - y2
  {
    if y2 + BlockSize >= height then s
    else ScanBelow(ScanRow(s, block1, x + BlockSize, y2, width, height), block1, x, y2 + BlockSize, width, height)
  }

  /** The `x` loop from `x` on, in the row of blocks at `y`. */
  function CompareRow(s: seq<byte>, x: nat, y: nat, width: nat, height: nat): (r: seq<byte>)
    requires Image(|s|, width, height) && y + BlockSize < height
    ensures |r| == |s|
    decreases width - x
  {
    if x + BlockSize >= width then s
    else
      BlockInside(x, y, width, height, |s|);
      var block1 := Block(s, x, y, BlockSize, width);
      CompareRow(ScanBelow(s, block1, x, y + BlockSize, width, height), x + BlockSize, y, width, height)
  }

  /** The `y` loop from `y` on. */
  function CompareAll(s: seq<byte>, y: nat, width: nat, height: nat): (r: seq<byte>)
    requires Image(|s|, width, height)
    ensures |r| == |s|
    decreases height - y
  {
    if y + BlockSize >= height then s
    else CompareAll(CompareRow(s, 0, y, width, height), y + BlockSize, width, height)
  }

  /** What `removeRepetitivePatterns` leaves. */
  function RepetitionsRemoved(s: seq<byte>, width: nat, height: nat): seq<byte>
    requires Image(|s|, width, height)
  {
    CompareAll(s, 0, width, height)
  }

  /** The pixel lies past the first column and the first row of blocks. */
  predicate PastFirstBlocks(p: nat, width: nat) {
    width > 0 && ColumnOf(p, width) >= BlockSize && RowOf(p, width) >= BlockSize
  }

  /** Byte `j` of `t` is byte `j` of `s`, or a lower alpha of a pixel past the first blocks. */
  predicate DimmedAt(s: seq<byte>, t: seq<byte>, j: nat, width: nat)
    requires j < |s| && j < |t|
  {
    t[j] <= s[j] && (t[j] != s[j] ==> j % 4 == 3 && PastFirstBlocks(j / 4, width))
  }

  /** `DimmedAt` holds at every byte from `i` on, checked one byte at a time. */
  predicate DimmedFrom(s: seq<byte>, t: seq<byte>, i: nat, width: nat)
    requires |t| == |s|
    decreases |s| - i
  {
    i >= |s| || (DimmedAt(s, t, i, width) && DimmedFrom(s, t, i + 1, width))
  }

  /**
   * `t` is `s` with some alpha bytes lowered, all of them in pixels past the first column
   * and row of blocks: same length, no byte grows, every other byte unchanged.
   */
  predicate Dimmed(s: seq<byte>, t: seq<byte>, width: nat) {
    |t| == |s| && DimmedFrom(s, t, 0, width)
  }

  /** `DimmedFrom` is `DimmedAt` at every byte from `i` on. */
  lemma {:induction false} DimmedFromAll(s: seq<byte>, t: seq<byte>, i: nat, width: nat)
    requires |t| == |s|
    ensures DimmedFrom(s, t, i, width) <==> forall j :: i <= j < |s| ==> DimmedAt(s, t, j, width)
    decreases |s| - i
  {
    if i < |s| {
      DimmedFromAll(s, t, i + 1, width);
    }
  }

  lemma {:induction false} DimmedFromTransitive(s: seq<byte>, t: seq<byte>, u: seq<byte>, i: nat, width: nat)
    requires |t| == |s| && |u| == |s|
    requires DimmedFrom(s, t, i, width) && DimmedFrom(t, u, i, width)
    ensures DimmedFrom(s, u, i, width)
    decreases |s| - i
  {
    if i < |s| {
      DimmedFromTransitive(s, t, u, i + 1, width);
    }
  }

  lemma DimmedTransitive(s: seq<byte>, t: seq<byte>, u: seq<byte>, width: nat)
    requires Dimmed(s, t, width) && Dimmed(t, u, width)
    ensures Dimmed(s, u, width)
  {
    DimmedFromTransitive(s, t, u, 0, width);
  }

  /** Dimming a block that is past the first column and row of blocks is such a change. */
  lemma ReducedDimmed(s: seq<byte>, x: nat, y: nat, width: nat)
    requires x >= BlockSize && y >= BlockSize
    ensures Dimmed(s, Reduced(s, x, y, BlockSize, width), width)
  {
    var r := Reduced(s, x, y, BlockSize, width);
    forall j | 0 <= j < |s|
      ensures DimmedAt(s, r, j, width)
    {
      ReducedExactly(s, x, y, BlockSize, width, j);
    }
    DimmedFromAll(s, r, 0, width);
  }

  lemma DimmedReflexive(s: seq<byte>, width: nat)
    ensures Dimmed(s, s, width)
  {
    DimmedFromAll(s, s, 0, width);
  }

  /** `Dimmed` spelled out byte by byte. */
  lemma DimmedMeans(s: seq<byte>, t: seq<byte>, width: nat)
    ensures Dimmed(s, t, width) <==>
      |t| == |s| &&
      forall j :: 0 <= j < |s| ==> t[j] <= s[j] && (t[j] != s[j] ==> j % 4 == 3 && PastFirstBlocks(j / 4, width))
  {
    if |t| == |s| {
      DimmedFromAll(s, t, 0, width);
      if Dimmed(s, t, width) {
        forall j | 0 <= j < |s|
          ensures t[j] <= s[j] && (t[j] != s[j] ==> j % 4 == 3 && PastFirstBlocks(j / 4, width))
        {
          assert DimmedAt(s, t, j, width);
        }
      }
    }
  }

  /** The body of the `x2` loop: read the block at (`x2`, `y2`), compare, dim it when similar. */
  method CompareAndDim(data: array<byte>, block1: seq<byte>, x2: nat, y2: nat, width: nat, height: nat)
    requires Image(data.Length, width, height) && x2 + BlockSize < width && y2 + BlockSize < height
    requires x2 >= BlockSize && y2 >= BlockSize
    modifies data
    ensures data[..] == DimIfSimilar(old(data[..]), block1, x2, y2, width, height)
    ensures Dimmed(old(data[..]), data[..], width)
  {
    BlockInside(x2, y2, width, height, data.Length);
    var block2 := GetImageBlock(data, x2, y2, BlockSize, width);
    var similarity := CalculateBlockSimilarity(block1, block2);
    if similarity.Score? && similarity.value > 0.9 {
      ghost var before := data[..];
      ReduceBlockOpacity(data, x2, y2, BlockSize, width);
      ReducedDimmed(before, x2, y2, width);
    } else {
      DimmedReflexive(data[..], width);
    }
  }

  /** One pass of the `x2` loop. */
  lemma ScanRowStep(s: seq<byte>, block1: seq<byte>, x2: nat, next: nat, y2: nat, width: nat, height: nat)
    requires Image(|s|, width, height) && x2 + BlockSize < width && y2 + BlockSize < height
    requires next == x2 + BlockSize
    ensures ScanRow(s, block1, x2, y2, width, height) == ScanRow(DimIfSimilar(s, block1, x2, y2, width, height), block1, next, y2, width, height)
  {
  }

  /** One pass of the `x2` loop, stated as the step of `ScanRow` it takes. */
  method ScanRowPass(data: array<byte>, block1: seq<byte>, x2: nat, y2: nat, width: nat, height: nat) returns (next: nat)
    requires Image(data.Length, width, height) && x2 + BlockSize < width && y2 + BlockSize < height
    requires x2 >= BlockSize && y2 >= BlockSize
    modifies data
    ensures next == x2 + BlockSize
    ensures ScanRow(data[..], block1, next, y2, width, height) == ScanRow(old(data[..]), block1, x2, y2, width, height)
    ensures Dimmed(old(data[..]), data[..], width)
  {
    next := x2 + BlockSize;
    ScanRowStep(data[..], block1, x2, next, y2, width, height);
    CompareAndDim(data, block1, x2, y2, width, height);
  }

  /** The `x2` loop of `removeRepetitivePatterns`. */
  method ScanRowLoop(data: array<byte>, block1: seq<byte>, x: nat, y2: nat, width: nat, height: nat)
    requires Image(data.Length, width, height) && y2 + BlockSize < height && y2 >= BlockSize
    modifies data
    ensures data[..] == ScanRow(old(data[..]), block1, x + BlockSize, y2, width, height)
    ensures Dimmed(old(data[..]), data[..], width)
  {
    ghost var s := data[..];
    ghost var goal := ScanRow(data[..], block1, x + BlockSize, y2, width, height);
    DimmedReflexive(s, width);
    var x2: nat := x + BlockSize;
    while x2 + BlockSize < width
      invariant x2 >= BlockSize
      invariant ScanRow(data[..], block1, x2, y2, width, height) == goal
      invariant Dimmed(s, data[..], width)
      decreases width - x2
    {
      ghost var before := data[..];
      x2 := ScanRowPass(data, block1, x2, y2, width, height);
      DimmedTransitive(s, before, data[..], width);
    }
  }

  /** One pass of the `y2` loop: the `x2` loop over one row of blocks below. */
  method ScanBelowPass(data: array<byte>, block1: seq<byte>, x: nat, y2: nat, width: nat, height: nat) returns (next: nat)
    requires Image(data.Length, width, height) && y2 + BlockSize < height && y2 >= BlockSize
    modifies data
    ensures next == y2 + BlockSize
    ensures ScanBelow(data[..], block1, x, next, width, height) == ScanBelow(old(data[..]), block1, x, y2, width, height)
    ensures Dimmed(old(data[..]), data[..], width)
  {
    ScanRowLoop(data, block1, x, y2, width, height);
    next := y2 + BlockSize;
  }

  /** The `y2` loop of `removeRepetitivePatterns`, for the block at (`x`, `y`). */
  method ScanBelowLoop(data: array<byte>, block1: seq<byte>, x: nat, y: nat, width: nat, height: nat)
    requires Image(data.Length, width, height)
    modifies data
    ensures data[..] == ScanBelow(old(data[..]), block1, x, y + BlockSize, width, height)
    ensures Dimmed(old(data[..]), data[..], width)
  {
    ghost var s := data[..];
    ghost var goal := ScanBelow(data[..], block1, x, y + BlockSize, width, height);
    DimmedReflexive(s, width);
    var y2: nat := y + BlockSize;
    while y2 + BlockSize < height
      invariant y2 >= BlockSize
      invariant ScanBelow(data[..], block1, x, y2, width, height) == goal
      invariant Dimmed(s, data[..], width)
      decreases height - y2
    {
      ghost var before := data[..];
      y2 := ScanBelowPass(data, block1, x, y2, width, height);
      DimmedTransitive(s, before, data[..], width);
    }
  }

  /** One pass of the `x` loop: read the block at (`x`, `y`) and dim its repeats below it. */
  method CompareRowPass(data: array<byte>, x: nat, y: nat, width: nat, height: nat) returns (next: nat)
    requires Image(data.Length, width, height) && x + BlockSize < width && y + BlockSize < height
    modifies data
    ensures next == x + BlockSize
    ensures CompareRow(data[..], next, y, width, height) == CompareRow(old(data[..]), x, y, width, height)
    ensures Dimmed(old(data[..]), data[..], width)
  {
    BlockInside(x, y, width, height, data.Length);
    var block1 := GetImageBlock(data, x, y, BlockSize, width);
    ScanBelowLoop(data, block1, x, y, width, height);
    next := x + BlockSize;
  }

  /** The `x` loop of `removeRepetitivePatterns`, in the row of blocks at `y`. */
  method CompareRowLoop(data: array<byte>, y: nat, width: nat, height: nat)
    requires Image(data.Length, width, height) && y + BlockSize < height
    modifies data
    ensures data[..] == CompareRow(old(data[..]), 0, y, width, height)
    ensures Dimmed(old(data[..]), data[..], width)
  {
    ghost var s := data[..];
    ghost var goal := CompareRow(data[..], 0, y, width, height);
    DimmedReflexive(s, width);
    var x: nat := 0;
    while x + BlockSize < width
      invariant CompareRow(data[..], x, y, width, height) == goal
      invariant Dimmed(s, data[..], width)
      decreases width - x
    {
      ghost var before := data[..];
      x := CompareRowPass(data, x, y, width, height);
      DimmedTransitive(s, before, data[..], width);
    }
  }

  /** One pass of the `y` loop. */
  method CompareAllPass(data: array<byte>, y: nat, width: nat, height: nat) returns (next: nat)
    requires Image(data.Length, width, height) && y + BlockSize < height
    modifies data
    ensures next == y + BlockSize
    ensures CompareAll(data[..], next, width, height) == CompareAll(old(data[..]), y, width, height)
    ensures Dimmed(old(data[..]), data[..], width)
  {
    CompareRowLoop(data, y, width, height);
    next := y + BlockSize;
  }

  /** `removeRepetitivePatterns(data, width, height)`. */
  method RemoveRepetitivePatterns(data: array<byte>, width: nat, height: nat)
    requires Image(data.Length, width, height)
    modifies data
    ensures data[..] == RepetitionsRemoved(old(data[..]), width, height)
    ensures Dimmed(old(data[..]), data[..], width)
  {
    ghost var s := data[..];
    ghost var goal := RepetitionsRemoved(data[..], width, height);
    DimmedReflexive(s, width);
    var y: nat := 0;
    while y + BlockSize < height
      invariant CompareAll(data[..], y, width, height) == goal
      invariant Dimmed(s, data[..], width)
      decreases height - y
    {
      ghost var before := data[..];
      y := CompareAllPass(data, y, width, height);
      DimmedTransitive(s, before, data[..], width);
    }
  }

  // ---------------------------------------------------------------------------
  // enhanceContrast

  /** `259 * (contrast * 255 + 255) / (255 * (259 - contrast * 255))`, the factor of a contrast setting. */
  function ContrastFactor(contrast: real): real
    requires contrast * 255.0 != 259.0
  {
    259.0 * (contrast * 255.0 + 255.0) / (255.0 * (259.0 - contrast * 255.0))
  }

  /** The factor `enhanceContrast` uses, from its contrast setting 1.2. */
  const EnhanceFactor: real := ContrastFactor(1.2)

  /** Storing a value of [0, 255] into a `Uint8ClampedArray`: the nearest byte, ties to the even one. */
  function ClampedRound(r: real): (b: byte)
    requires 0.0 <= r <= 255.0
    ensures b as real - 0.5 <= r <= b as real + 0.5
    ensures r == b as real - 0.5 || r == b as real + 0.5 ==> b % 2 == 0
  {
    var f := r.Floor;
    var frac := r - f as real;
    if frac < 0.5 then f as byte
    else if frac > 0.5 || f % 2 == 1 then (f + 1) as byte
    else f as byte
  }

  /** Rounding never puts a smaller value above a larger one. */
  lemma ClampedRoundMonotone(r1: real, r2: real)
    requires 0.0 <= r1 <= r2 <= 255.0
    ensures ClampedRound(r1) <= ClampedRound(r2)
  {
    if r1 < r2 {
      assert ClampedRound(r1) as real - 0.5 <= r1 < r2 <= ClampedRound(r2) as real + 0.5;
    }
  }

  /** `factor * (v - 128) + 128`, before clamping. */
  function Stretched(factor: real, v: byte): real {
    factor * (v as real - 128.0) + 128.0
  }

  /** `Math.max(0, Math.min(255, factor * (v - 128) + 128))` stored back into the array. */
  function Contrasted(factor: real, v: byte): (r: byte)
    ensures Stretched(factor, v) <= 0.0 ==> r == 0
    ensures Stretched(factor, v) >= 255.0 ==> r == 255
    ensures 0.0 <= Stretched(factor, v) <= 255.0 ==> r as real - 0.5 <= Stretched(factor, v) <= r as real + 0.5
  {
    var x := Stretched(factor, v);
    ClampedRound(if x > 255.0 then 255.0 else if x < 0.0 then 0.0 else x)
  }

  /** What `enhanceContrast` leaves: every colour byte contrasted, every alpha byte as it was. */
  function ContrastEnhanced(s: seq<byte>, factor: real): (r: seq<byte>)
    ensures |r| == |s|
  {
    seq(|s|, j requires 0 <= j < |s| => if j % 4 == 3 then s[j] else Contrasted(factor, s[j]))
  }

  /** The alpha bytes are untouched and each colour byte is mapped on its own. */
  lemma ContrastEnhancedExactly(s: seq<byte>, factor: real, j: nat)
    requires j < |s|
    ensures j % 4 == 3 ==> ContrastEnhanced(s, factor)[j] == s[j]
    ensures j % 4 != 3 ==> ContrastEnhanced(s, factor)[j] == Contrasted(factor, s[j])
  {
  }

  /** `d` is `s` with the bytes before `i` as `enhanceContrast` leaves them. */
  predicate EnhancedBefore(d: seq<byte>, s: seq<byte>, factor: real, i: nat) {
    |d| == |s| && forall j :: 0 <= j < |s| ==> d[j] == if j < i then ContrastEnhanced(s, factor)[j] else s[j]
  }

  /** The body of the loop of `enhanceContrast` for the pixel whose red byte is at `i`; writes past the end are dropped. */
  method ContrastPixel(data: array<byte>, i: nat, factor: real)
    modifies data
    ensures forall j :: 0 <= j < data.Length ==>
      data[j] == if i <= j < i + 3 then Contrasted(factor, old(data[j])) else old(data[j])
  {
    if i < data.Length {
      data[i] := Contrasted(factor, data[i]);
    }
    if i + 1 < data.Length {
      data[i + 1] := Contrasted(factor, data[i + 1]);
    }
    if i + 2 < data.Length {
      data[i + 2] := Contrasted(factor, data[i + 2]);
    }
  }

  /** One pass of the loop keeps `EnhancedBefore`. */
  lemma ContrastStep(d: seq<byte>, s: seq<byte>, factor: real, i: nat, e: seq<byte>)
    requires i % 4 == 0 && EnhancedBefore(d, s, factor, i)
    requires |e| == |d| && forall j :: 0 <= j < |d| ==> e[j] == if i <= j < i + 3 then Contrasted(factor, d[j]) else d[j]
    ensures EnhancedBefore(e, s, factor, i + 4)
  {
    forall j | 0 <= j < |s|
      ensures e[j] == if j < i + 4 then ContrastEnhanced(s, factor)[j] else s[j]
    {
      if i <= j < i + 4 {
        assert j % 4 == 3 <==> j == i + 3;
      }
    }
  }

  /** The loop of `enhanceContrast`, for a given factor. */
  method EnhanceContrastBy(data: array<byte>, factor: real)
    modifies data
    ensures data[..] == ContrastEnhanced(old(data[..]), factor)
  {
    ghost var s := data[..];
    var i := 0;
    while i < data.Length
      invariant i % 4 == 0 && i <= data.Length + 3
      invariant EnhancedBefore(data[..], s, factor, i)
    {
      ghost var d := data[..];
      ContrastPixel(data, i, factor);
      ContrastStep(d, s, factor, i, data[..]);
      i := i + 4;
    }
    assert data[..] == ContrastEnhanced(s, factor);
  }

  /** `enhanceContrast(data)` as written, with the factor of contrast 1.2. */
  method EnhanceContrast(data: array<byte>)
    modifies data
    ensures data[..] == ContrastEnhanced(old(data[..]), EnhanceFactor)
  {
    var contrast := 1.2;
    var factor := ContrastFactor(contrast);
    EnhanceContrastBy(data, factor);
  }

  /**
   * The factor of contrast 1.2 is negative (1.2 * 255 is above 259), so the
   * pass inverts the picture: black becomes white, white black, and of two
   * neighbouring greys the darker one ends up lighter.
   */
  lemma EnhanceContrastInverts()
    ensures EnhanceFactor == -2849.0 / 235.0
    ensures Contrasted(EnhanceFactor, 0) == 255 && Contrasted(EnhanceFactor, 255) == 0
    ensures Contrasted(EnhanceFactor, 127) == 140 && Contrasted(EnhanceFactor, 129) == 116
  {
    assert Stretched(EnhanceFactor, 127) == 32929.0 / 235.0;
    assert Stretched(EnhanceFactor, 129) == 27231.0 / 235.0;
  }

  /** The product of two reals of the same sign is not negative. */
  lemma ProductNotNegative(a: real, b: real)
    requires (a >= 0.0 && b >= 0.0) || (a <= 0.0 && b <= 0.0)
    ensures a * b >= 0.0
  {
  }

  /** Stretching two bytes apart: the difference is the factor times their difference. */
  lemma StretchedDifference(factor: real, v: byte, w: byte)
    ensures Stretched(factor, w) - Stretched(factor, v) == factor * (w as real - v as real)
  {
  }

  /** How far stretching moves a byte. */
  lemma StretchedFromByte(factor: real, v: byte)
    ensures Stretched(factor, v) - v as real == (factor - 1.0) * (v as real - 128.0)
  {
  }

  /** Clamping to [0, 255] keeps the order. */
  lemma ClampedMonotone(factor: real, v: byte, w: byte)
    requires Stretched(factor, v) <= Stretched(factor, w)
    ensures Contrasted(factor, v) <= Contrasted(factor, w)
  {
    var x, y := Stretched(factor, v), Stretched(factor, w);
    ClampedRoundMonotone(if x > 255.0 then 255.0 else if x < 0.0 then 0.0 else x,
                         if y > 255.0 then 255.0 else if y < 0.0 then 0.0 else y);
  }

  /** With a factor below zero, a larger byte never comes out larger. */
  lemma ContrastedAntitone(factor: real, v: byte, w: byte)
    requires factor <= 0.0 && v <= w
    ensures Contrasted(factor, w) <= Contrasted(factor, v)
  {
    StretchedDifference(factor, w, v);
    ProductNotNegative(factor, v as real - w as real);
    ClampedMonotone(factor, w, v);
  }

  /**
   * With a factor of at least 1 the mapping keeps the order of bytes and moves
   * every byte away from 128: what a contrast enhancement is meant to do.
   */
  lemma ContrastSpreads(factor: real, v: byte, w: byte)
    requires factor >= 1.0 && v <= w
    ensures Contrasted(factor, v) <= Contrasted(factor, w)
    ensures v >= 128 ==> Contrasted(factor, v) >= v
    ensures v <= 128 ==> Contrasted(factor, v) <= v
  {
    StretchedDifference(factor, v, w);
    ProductNotNegative(factor, w as real - v as real);
    ClampedMonotone(factor, v, w);
    StretchedFromByte(factor, v);
    if v >= 128 {
      ProductNotNegative(factor - 1.0, v as real - 128.0);
    } else {
      ProductNotNegative(factor - 1.0, 128.0 - v as real);
    }
  }

  /** `enhanceContrast` with the contrast multiplier 1.2 used as the factor itself. */
  method EnhanceContrastCorrected(data: array<byte>)
    modifies data
    ensures data[..] == ContrastEnhanced(old(data[..]), 1.2)
  {
    EnhanceContrastBy(data, 1.2);
  }

  // ---------------------------------------------------------------------------
  // processCanvasForWatermarks

  /**
   * `processCanvasForWatermarks(canvas)` on the canvas's image data: the overlay
   * pass, the repetition pass and the contrast pass, in that order. Every colour
   * byte ends up as the contrast pass maps the original one, and an alpha byte is
   * never raised.
   */
  method ProcessCanvasForWatermarks(data: array<byte>, width: nat, height: nat)
    requires Image(data.Length, width, height)
    modifies data
    ensures data[..] == ContrastEnhanced(RepetitionsRemoved(Overlaid(old(data[..])), width, height), EnhanceFactor)
    ensures forall j :: 0 <= j < data.Length && j % 4 != 3 ==> data[j] == Contrasted(EnhanceFactor, old(data[j]))
    ensures forall j :: 0 <= j < data.Length && j % 4 == 3 ==> data[j] <= old(data[j])
  {
    ghost var s := data[..];
    RemoveSemiTransparentOverlays(data);
    ghost var o := data[..];
    RemoveRepetitivePatterns(data, width, height);
    ghost var r := data[..];
    DimmedMeans(o, r, width);
    EnhanceContrast(data);
    forall j | 0 <= j < data.Length
      ensures j % 4 != 3 ==> data[j] == Contrasted(EnhanceFactor, s[j])
      ensures j % 4 == 3 ==> data[j] <= s[j]
    {
      OverlaidExactly(s, j);
      ContrastEnhancedExactly(r, EnhanceFactor, j);
    }
  }
}
