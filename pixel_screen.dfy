/** The pixel screen of the day 8 solver: a `w` by `h` grid of bools stored
    row-major in one flat vector, with in-place rect and rotation commands. */
module PixelScreen {

  /** The commands the screen executes. */
  datatype Command =
    | Rect(w: nat, h: nat)
    | RotateR(row: nat, amt: nat)
    | RotateC(col: nat, amt: nat)

  /** The flat position of cell (x, y) in a screen `w` cells wide. */
  function IndexOf(w: nat, x: nat, y: nat): (k: nat)
    ensures x < w ==> w * y <= k < w * (y + 1)
  {
    w * y + x
  }

  lemma MulLe(w: nat, a: nat, b: nat)
    requires a <= b
    ensures w * a <= w * b
  {
  }

  lemma MulSucc(w: nat, y: nat)
    ensures w * (y + 1) == w * y + w
  {
  }

  /** A cell of a row above row r comes before every cell of row r. */
  lemma IndexBefore(w: nat, x: nat, y: nat, r: nat)
    requires x < w && y < r
    ensures IndexOf(w, x, y) < w * r
  {
    MulSucc(w, y);
    MulLe(w, y + 1, r);
  }

  /** Every cell of the grid has its own position inside the vector. */
  lemma IndexInRange(w: nat, h: nat, x: nat, y: nat)
    requires x < w && y < h
    ensures IndexOf(w, x, y) < w * h
  {
    IndexBefore(w, x, y, h);
  }

  /** Distinct cells have distinct positions. */
  lemma IndexInjective(w: nat, x: nat, y: nat, x': nat, y': nat)
    requires x < w && x' < w
    ensures IndexOf(w, x, y) == IndexOf(w, x', y') <==> x == x' && y == y'
  {
    if y < y' {
      IndexBefore(w, x, y, y');
    } else if y' < y {
      IndexBefore(w, x', y', y);
    }
  }

  /** Cell (x, y) of a grid stored row-major in s. */
  function Cell(s: seq<bool>, w: nat, h: nat, x: nat, y: nat): bool
    requires |s| == w * h && x < w && y < h
  {
    IndexInRange(w, h, x, y);
    s[IndexOf(w, x, y)]
  }

  lemma ModSmall(x: int, n: int)
    requires 0 <= x < n
    ensures x % n == x
  {
  }

  lemma ModWrap(x: int, n: int)
    requires n <= x < 2 * n
    ensures x % n == x - n
  {
  }

  /** (j - amt) mod n, for j < n and amt <= n. */
  function Back(j: nat, amt: nat, n: nat): (j0: nat)
    requires j < n && amt <= n
    ensures j0 < n
    ensures j0 == if j >= amt then j - amt else j - amt + n
  {
    if j >= amt then
      ModWrap(j - amt + n, n);
      (j - amt + n) % n
    else
      ModSmall(j - amt + n, n);
      (j - amt + n) % n
  }

  /** The number of true cells. */
  function CountTrue(s: seq<bool>): (r: nat)
    ensures r <= |s|
  {
    if s == [] then 0 else CountTrue(s[..|s| - 1]) + (if s[|s| - 1] then 1 else 0)
  }

  /** CountTrue is the multiplicity of `true`. */
  lemma {:induction false} CountTrueIsMultiplicity(s: seq<bool>)
    ensures CountTrue(s) == multiset(s)[true]
  {
    if s != [] {
      CountTrueIsMultiplicity(s[..|s| - 1]);
      assert s == s[..|s| - 1] + [s[|s| - 1]];
    }
  }

  lemma {:induction false} CountAppend(a: seq<bool>, b: seq<bool>)
    ensures CountTrue(a + b) == CountTrue(a) + CountTrue(b)
    decreases |b|
  {
    if b == [] {
      assert a + b == a;
    } else {
      assert (a + b)[..|a + b| - 1] == a + b[..|b| - 1];
      CountAppend(a, b[..|b| - 1]);
    }
  }

  /** A screen of n dark cells. */
  function Blank(n: nat): (r: seq<bool>)
    ensures |r| == n
  {
    seq(n, _ => false)
  }

  lemma {:induction false} BlankCount(n: nat)
    ensures CountTrue(Blank(n)) == 0
  {
    if n > 0 {
      BlankCount(n - 1);
      assert Blank(n)[..n - 1] == Blank(n - 1);
    }
  }

  lemma SplitThree(s: seq<bool>, p: nat, q: nat)
    requires p <= q <= |s|
    ensures s == s[..p] + s[p..q] + s[q..]
  {
  }

  /** Replacing one cell changes the count by the difference it makes. */
  lemma CountUpdate(s: seq<bool>, k: nat, v: bool)
    requires k < |s|
    ensures CountTrue(s[k := v]) + (if s[k] then 1 else 0) == CountTrue(s) + (if v then 1 else 0)
  {
    assert s == s[..k] + [s[k]] + s[k + 1..];
    assert s[k := v] == s[..k] + [v] + s[k + 1..];
    CountAppend(s[..k] + [s[k]], s[k + 1..]);
    CountAppend(s[..k], [s[k]]);
    CountAppend(s[..k] + [v], s[k + 1..]);
    CountAppend(s[..k], [v]);
  }

  // ---- rect ----

  /** Position k is w*j + i for some i < a and j < b: one of the positions
      the nested loops of `rect(a, b)` write. */
  function InRect(w: nat, a: nat, b: nat, k: nat): bool
    decreases b
  {
    b > 0 && (InRect(w, a, b - 1, k) || (w * (b - 1) <= k < w * (b - 1) + a))
  }

  lemma {:induction false} InRectNoColumns(w: nat, b: nat, k: nat)
    ensures !InRect(w, 0, b, k)
    decreases b
  {
    if b > 0 {
      InRectNoColumns(w, b - 1, k);
    }
  }

  lemma {:induction false} InRectWider(w: nat, a: nat, b: nat, k: nat)
    requires InRect(w, a, b, k)
    ensures InRect(w, a + 1, b, k)
    decreases b
  {
    if !(w * (b - 1) <= k < w * (b - 1) + a) {
      InRectWider(w, a, b - 1, k);
    }
  }

  lemma {:induction false} InRectTaller(w: nat, a: nat, b: nat, j: nat, k: nat)
    requires j < b && w * j <= k < w * j + a
    ensures InRect(w, a, b, k)
    decreases b
  {
    if j < b - 1 {
      InRectTaller(w, a, b - 1, j, k);
    }
  }

  /** When the rectangle is no wider than the screen, rect covers exactly the
      cells (x, y) with x < a and y < b. */
  lemma {:induction false} InRectCells(w: nat, a: nat, b: nat, x: nat, y: nat)
    requires a <= w && x < w
    ensures InRect(w, a, b, IndexOf(w, x, y)) <==> x < a && y < b
    decreases b
  {
    if b > 0 {
      InRectCells(w, a, b - 1, x, y);
      if y < b - 1 {
        MulLe(w, y + 1, b - 1);
      } else if y > b - 1 {
        MulLe(w, b, y);
      }
    }
  }

  /** The cells after `rect(a, b)`: each written position becomes true. */
  function RectCells(s: seq<bool>, w: nat, a: nat, b: nat): (r: seq<bool>)
    ensures |r| == |s|
  {
    seq(|s|, k requires 0 <= k < |s| => s[k] || InRect(w, a, b, k))
  }

  /** `rect` panics unless its last position, (a-1, b-1), is inside the
      vector; every other position it writes comes earlier. */
  predicate RectFits(w: nat, h: nat, a: nat, b: nat) {
    a == 0 || b == 0 || IndexOf(w, a - 1, b - 1) < w * h
  }

  /** rect lights the cells (x, y) with x < a and y < b and keeps every other
      cell. */
  lemma RectEffect(s: seq<bool>, w: nat, h: nat, a: nat, b: nat, x: nat, y: nat)
    requires |s| == w * h && a <= w && x < w && y < h
    ensures Cell(RectCells(s, w, a, b), w, h, x, y) == (Cell(s, w, h, x, y) || (x < a && y < b))
  {
    var k := IndexOf(w, x, y);
    IndexInRange(w, h, x, y);
    InRectCells(w, a, b, x, y);
    var inside := InRect(w, a, b, k);
    assert RectCells(s, w, a, b)[k] == (s[k] || inside);
  }

  // ---- rotations ----

  /** `s` rotated right by amt places: the last amt entries move to the
      front. */
  function Rotated(s: seq<bool>, amt: nat): (r: seq<bool>)
    requires amt <= |s|
    ensures |r| == |s|
  {
    s[|s| - amt..] + s[..|s| - amt]
  }

  /** Entry j of the rotation is entry (j - amt) mod |s| of the input, the
      index the rotation loops compute. */
  lemma RotatedAt(s: seq<bool>, amt: nat, j: nat)
    requires amt <= |s| && j < |s|
    ensures Rotated(s, amt)[j] == s[Back(j, amt, |s|)]
  {
  }

  /** Rotating back by the rest of the length restores the input. */
  lemma RotatedInverse(s: seq<bool>, amt: nat)
    requires amt <= |s|
    ensures Rotated(Rotated(s, amt), |s| - amt) == s
  {
    var n := |s|;
    assert Rotated(s, amt)[n - (n - amt)..] == s[..n - amt];
    assert Rotated(s, amt)[..n - (n - amt)] == s[n - amt..];
  }

  lemma RotatedCount(s: seq<bool>, amt: nat)
    requires amt <= |s|
    ensures CountTrue(Rotated(s, amt)) == CountTrue(s)
  {
    CountAppend(s[|s| - amt..], s[..|s| - amt]);
    CountAppend(s[..|s| - amt], s[|s| - amt..]);
    assert s == s[..|s| - amt] + s[|s| - amt..];
  }

  /** The i8 arithmetic of the rotations, `((j as i8 - amt as i8) + n as i8)
      as usize % n`, neither overflows nor goes negative for any j < n:
      amt is at most n, n fits in an i8, and 2n - 1 - amt is at most 127. */
  predicate RotationFits(n: nat, amt: nat) {
    n == 0 || (amt <= n < 128 && 2 * n <= 128 + amt)
  }

  /** The source index of the rotation loops, computed as the i8 expression
      does; under RotationFits every intermediate value is in range. */
  function SourceIndex(j: nat, amt: nat, n: nat): (j0: nat)
    requires j < n && RotationFits(n, amt)
    ensures j0 == Back(j, amt, n)
  {
    var d := j - amt;
    assert -128 <= d <= 127 && 0 <= d + n <= 127;
    (d + n) % n
  }

  /** s with the n entries from position p rotated right by amt. */
  function SegmentRotated(s: seq<bool>, p: nat, n: nat, amt: nat): (t: seq<bool>)
    requires p + n <= |s| && amt <= n
    ensures |t| == |s|
  {
    s[..p] + Rotated(s[p..p + n], amt) + s[p + n..]
  }

  lemma SegmentRotatedCount(s: seq<bool>, p: nat, n: nat, amt: nat)
    requires p + n <= |s| && amt <= n
    ensures CountTrue(SegmentRotated(s, p, n, amt)) == CountTrue(s)
  {
    var a, b, c := s[..p], s[p..p + n], s[p + n..];
    RotatedCount(b, amt);
    CountAppend(a + Rotated(b, amt), c);
    CountAppend(a, Rotated(b, amt));
    SplitThree(s, p, p + n);
    CountAppend(a + b, c);
    CountAppend(a, b);
  }

  /** The cells after rotating row r right by amt: the row is the segment
      of w cells from position w*r. */
  function RowRotated(s: seq<bool>, w: nat, r: nat, amt: nat): (t: seq<bool>)
    requires w * r + w <= |s| && amt <= w
    ensures |t| == |s|
  {
    SegmentRotated(s, w * r, w, amt)
  }

  /** Rotating row r: cell (j, r) takes the old cell ((j - amt) mod w, r) and
      every other row is unchanged. */
  lemma RowRotatedCells(s: seq<bool>, w: nat, h: nat, r: nat, amt: nat, x: nat, y: nat)
    requires |s| == w * h && r < h && amt <= w && x < w && y < h
    ensures w * r + w <= |s|
    ensures Cell(RowRotated(s, w, r, amt), w, h, x, y)
            == if y == r then Cell(s, w, h, Back(x, amt, w), r) else Cell(s, w, h, x, y)
  {
    IndexBefore(w, 0, r, h);
    MulSucc(w, r);
    var p := w * r;
    var k := IndexOf(w, x, y);
    IndexInRange(w, h, x, y);
    if y < r {
      IndexBefore(w, x, y, r);
      SegmentOutside(s, p, w, amt, k);
    } else if y > r {
      MulLe(w, r + 1, y);
      SegmentOutside(s, p, w, amt, k);
    } else {
      SegmentInside(s, p, w, amt, x);
    }
  }

  lemma SegmentOutside(s: seq<bool>, p: nat, n: nat, amt: nat, k: nat)
    requires p + n <= |s| && amt <= n && k < |s| && (k < p || p + n <= k)
    ensures SegmentRotated(s, p, n, amt)[k] == s[k]
  {
  }

  lemma SegmentInside(s: seq<bool>, p: nat, n: nat, amt: nat, x: nat)
    requires p + n <= |s| && amt <= n && x < n
    ensures SegmentRotated(s, p, n, amt)[p + x] == s[p + Back(x, amt, n)]
  {
    RotatedAt(s[p..p + n], amt, x);
  }

  lemma RowRotatedCount(s: seq<bool>, w: nat, r: nat, amt: nat)
    requires w * r + w <= |s| && amt <= w
    ensures CountTrue(RowRotated(s, w, r, amt)) == CountTrue(s)
  {
    SegmentRotatedCount(s, w * r, w, amt);
  }

  /** Column c of the cells, top to bottom. */
  function ColumnOf(s: seq<bool>, w: nat, h: nat, c: nat): (v: seq<bool>)
    requires |s| == w * h && (h == 0 || c < w)
    ensures |v| == h
  {
    seq(h, j requires 0 <= j < h => Cell(s, w, h, c, j))
  }

  /** The cells with the first j cells of column c replaced by col[..j]. */
  function ColumnReplaced(s: seq<bool>, w: nat, h: nat, c: nat, col: seq<bool>, j: nat): (t: seq<bool>)
    requires |s| == w * h && |col| == h && j <= h && (h == 0 || c < w)
    ensures |t| == |s|
    decreases j
  {
    if j == 0 then s
    else
      IndexInRange(w, h, c, j - 1);
      ColumnReplaced(s, w, h, c, col, j - 1)[IndexOf(w, c, j - 1) := col[j - 1]]
  }

  /** The cells after rotating column c down by amt. */
  function ColRotated(s: seq<bool>, w: nat, h: nat, c: nat, amt: nat): (t: seq<bool>)
    requires |s| == w * h && (h == 0 || c < w) && amt <= h
    ensures |t| == |s|
  {
    ColumnReplaced(s, w, h, c, Rotated(ColumnOf(s, w, h, c), amt), h)
  }

  lemma {:induction false} ColumnReplacedCells(s: seq<bool>, w: nat, h: nat, c: nat, col: seq<bool>, j: nat, x: nat, y: nat)
    requires |s| == w * h && |col| == h && j <= h && c < w && x < w && y < h
    ensures Cell(ColumnReplaced(s, w, h, c, col, j), w, h, x, y)
            == if x == c && y < j then col[y] else Cell(s, w, h, x, y)
    decreases j
  {
    if j > 0 {
      ColumnReplacedCells(s, w, h, c, col, j - 1, x, y);
      IndexInjective(w, x, y, c, j - 1);
      IndexInRange(w, h, x, y);
      IndexInRange(w, h, c, j - 1);
      var prev := ColumnReplaced(s, w, h, c, col, j - 1);
      var k, k' := IndexOf(w, x, y), IndexOf(w, c, j - 1);
      assert ColumnReplaced(s, w, h, c, col, j) == prev[k' := col[j - 1]];
      assert prev[k' := col[j - 1]][k] == if k == k' then col[j - 1] else prev[k];
    }
  }

  /** Rotating column c: cell (c, j) takes the old cell (c, (j - amt) mod h)
      and every other column is unchanged. */
  lemma ColRotatedCells(s: seq<bool>, w: nat, h: nat, c: nat, amt: nat, x: nat, y: nat)
    requires |s| == w * h && c < w && amt <= h && x < w && y < h
    ensures Cell(ColRotated(s, w, h, c, amt), w, h, x, y)
            == if x == c then Cell(s, w, h, c, Back(y, amt, h)) else Cell(s, w, h, x, y)
  {
    var col := ColumnOf(s, w, h, c);
    ColumnReplacedCells(s, w, h, c, Rotated(col, amt), h, x, y);
    RotatedAt(col, amt, y);
  }

  lemma {:induction false} ColumnReplacedCount(s: seq<bool>, w: nat, h: nat, c: nat, col: seq<bool>, j: nat)
    requires |s| == w * h && |col| == h && j <= h && c < w
    ensures CountTrue(ColumnReplaced(s, w, h, c, col, j)) + CountTrue(ColumnOf(s, w, h, c)[..j])
            == CountTrue(s) + CountTrue(col[..j])
    decreases j
  {
    if j > 0 {
      ColumnReplacedCount(s, w, h, c, col, j - 1);
      var prev := ColumnReplaced(s, w, h, c, col, j - 1);
      ColumnReplacedCells(s, w, h, c, col, j - 1, c, j - 1);
      IndexInRange(w, h, c, j - 1);
      CountUpdate(prev, IndexOf(w, c, j - 1), col[j - 1]);
      var orig := ColumnOf(s, w, h, c);
      assert orig[..j] == orig[..j - 1] + [orig[j - 1]];
      assert col[..j] == col[..j - 1] + [col[j - 1]];
      CountAppend(orig[..j - 1], [orig[j - 1]]);
      CountAppend(col[..j - 1], [col[j - 1]]);
    }
  }

  lemma ColRotatedCount(s: seq<bool>, w: nat, h: nat, c: nat, amt: nat)
    requires |s| == w * h && (h == 0 || c < w) && amt <= h
    ensures CountTrue(ColRotated(s, w, h, c, amt)) == CountTrue(s)
  {
    if h > 0 {
      var col := ColumnOf(s, w, h, c);
      ColumnReplacedCount(s, w, h, c, Rotated(col, amt), h);
      RotatedCount(col, amt);
      assert col[..h] == col;
      assert Rotated(col, amt)[..h] == Rotated(col, amt);
    }
  }

  // ---- rendering ----

  /** One row as the Debug rendering writes it: '#' for lit, '.' for dark. */
  function RowText(r: seq<bool>): (t: string)
    ensures |t| == |r|
  {
    seq(|r|, i requires 0 <= i < |r| => if r[i] then '#' else '.')
  }

  /** The Debug rendering: each row's text followed by a newline. */
  function Rendered(s: seq<bool>, w: nat, h: nat): (t: string)
    requires |s| == w * h
    decreases h
  {
    if h == 0 then []
    else
      MulSucc(w, h - 1);
      Rendered(s[..w * (h - 1)], w, h - 1) + RowText(s[w * (h - 1)..]) + "\n"
  }

  lemma {:induction false} RenderedLength(s: seq<bool>, w: nat, h: nat)
    requires |s| == w * h
    ensures |Rendered(s, w, h)| == (w + 1) * h
    decreases h
  {
    if h > 0 {
      MulSucc(w, h - 1);
      MulSucc(w + 1, h - 1);
      RenderedLength(s[..w * (h - 1)], w, h - 1);
    }
  }

  /** Line j of the rendering is row j of the screen followed by a newline:
      the w + 1 characters from (w + 1) * j. */
  lemma {:induction false} RenderedRow(s: seq<bool>, w: nat, h: nat, j: nat)
    requires |s| == w * h && j < h
    ensures IndexOf(w, 0, j) + w <= |s|
    ensures (w + 1) * j + w < |Rendered(s, w, h)|
    ensures Rendered(s, w, h)[(w + 1) * j..(w + 1) * j + w] == RowText(s[w * j..w * j + w])
    ensures Rendered(s, w, h)[(w + 1) * j + w] == '\n'
    decreases h
  {
    MulSucc(w, h - 1);
    MulSucc(w, j);
    MulLe(w, j + 1, h);
    MulSucc(w + 1, h - 1);
    RenderedLength(s, w, h);
    var front := s[..w * (h - 1)];
    RenderedLength(front, w, h - 1);
    var r' := Rendered(front, w, h - 1);
    assert Rendered(s, w, h) == r' + RowText(s[w * (h - 1)..]) + "\n";
    if j < h - 1 {
      RenderedRow(front, w, h - 1, j);
      MulSucc(w + 1, j);
      MulLe(w + 1, j + 1, h - 1);
      assert front[w * j..w * j + w] == s[w * j..w * j + w];
    }
  }

  // ---- commands ----

  /** The commands that run without a panic on a w by h screen. */
  predicate CanExec(w: nat, h: nat, cmd: Command) {
    match cmd
    case Rect(a, b) => RectFits(w, h, a, b)
    case RotateR(row, amt) => (w == 0 || row < h) && RotationFits(w, amt)
    case RotateC(col, amt) => (h == 0 || col < w) && RotationFits(h, amt)
  }

  /** The cells after a rotation of row r; nothing moves on a screen of zero
      width. */
  function RotateRowCells(s: seq<bool>, w: nat, h: nat, r: nat, amt: nat): (t: seq<bool>)
    requires |s| == w * h && (w == 0 || r < h) && RotationFits(w, amt)
    ensures |t| == |s|
  {
    if w == 0 then s
    else
      MulSucc(w, r);
      MulLe(w, r + 1, h);
      RowRotated(s, w, r, amt)
  }

  /** The cells after a rotation of column c; nothing moves on a screen of
      zero height. */
  function RotateColCells(s: seq<bool>, w: nat, h: nat, c: nat, amt: nat): (t: seq<bool>)
    requires |s| == w * h && (h == 0 || c < w) && RotationFits(h, amt)
    ensures |t| == |s|
  {
    if h == 0 then s else ColRotated(s, w, h, c, amt)
  }

  /** The cells after one command. */
  function Apply(s: seq<bool>, w: nat, h: nat, cmd: Command): (t: seq<bool>)
    requires |s| == w * h && CanExec(w, h, cmd)
    ensures |t| == |s|
  {
    match cmd
    case Rect(a, b) => RectCells(s, w, a, b)
    case RotateR(row, amt) => RotateRowCells(s, w, h, row, amt)
    case RotateC(col, amt) => RotateColCells(s, w, h, col, amt)
  }

  /** Rotations move cells without lighting or darkening any. */
  lemma RotationKeepsCount(s: seq<bool>, w: nat, h: nat, cmd: Command)
    requires |s| == w * h && CanExec(w, h, cmd) && !cmd.Rect?
    ensures CountTrue(Apply(s, w, h, cmd)) == CountTrue(s)
  {
    match cmd
    case RotateR(row, amt) =>
      if w > 0 {
        MulSucc(w, row);
        MulLe(w, row + 1, h);
        RowRotatedCount(s, w, row, amt);
      }
    case RotateC(col, amt) =>
      if h > 0 {
        ColRotatedCount(s, w, h, col, amt);
      }
  }

  /** The screen: `width` by `height` cells, row-major in `cells`. */
  class Display {
    const width: nat
    const height: nat
    const cells: array<bool>

    ghost predicate Valid()
      reads this
    {
      cells.Length == width * height
    }

    /** A dark screen of w by h cells. */
    constructor (w: nat, h: nat)
      ensures Valid() && width == w && height == h && fresh(cells)
      ensures cells[..] == Blank(w * h)
    {
      width, height := w, h;
      cells := new bool[w * h];
      new;
      var k := 0;
      while k < w * h
        modifies cells
        invariant k <= w * h
        invariant forall i :: 0 <= i < k ==> !cells[i]
      {
        cells[k] := false;
        k := k + 1;
      }
    }

    /** The number of lit cells. */
    function CountLit(): (n: nat)
      reads this, cells
      ensures n <= cells.Length
    {
      CountTrue(cells[..])
    }

    /** Indexing by (x, y); the position must be inside the vector. */
    function Get(x: nat, y: nat): (v: bool)
      reads this, cells
      requires IndexOf(width, x, y) < cells.Length
      ensures Valid() && x < width && y < height ==> v == Cell(cells[..], width, height, x, y)
    {
      cells[IndexOf(width, x, y)]
    }

    /** Assignment through (x, y). */
    method Set(x: nat, y: nat, v: bool)
      requires IndexOf(width, x, y) < cells.Length
      modifies cells
      ensures cells[..] == old(cells[..])[IndexOf(width, x, y) := v]
    {
      cells[IndexOf(width, x, y)] := v;
    }

    /** Darkens every cell, row by row. */
    method Clear()
      requires Valid()
      modifies cells
      ensures cells[..] == Blank(cells.Length)
    {
      for j := 0 to height
        invariant forall k :: 0 <= k < width * j ==> !cells[k]
      {
        ghost var base := width * j;
        MulSucc(width, j);
        MulLe(width, j + 1, height);
        for i := 0 to width
          invariant forall k :: 0 <= k < base + i ==> !cells[k]
        {
          cells[IndexOf(width, i, j)] := false;
        }
      }
      assert cells[..] == Blank(cells.Length);
    }

    /** The cells of column col, top to bottom. */
    method Column(col: nat) returns (v: seq<bool>)
      requires Valid() && (height == 0 || col < width)
      ensures v == ColumnOf(cells[..], width, height, col)
    {
      v := [];
      for i := 0 to height
        invariant v == ColumnOf(cells[..], width, height, col)[..i]
      {
        IndexInRange(width, height, col, i);
        v := v + [Get(col, i)];
      }
    }

    /** The cells of row r, left to right. */
    method Row(r: nat) returns (v: seq<bool>)
      requires Valid() && (width == 0 || r < height)
      ensures width * r + width <= cells.Length
      ensures v == cells[width * r..width * r + width]
    {
      MulSucc(width, r);
      if width > 0 {
        MulLe(width, r + 1, height);
      }
      v := [];
      for i := 0 to width
        invariant v == cells[width * r..width * r + i]
      {
        v := v + [Get(i, r)];
      }
    }

    /** Lights the cells written by the nested loops of `rect(a, b)`: for
        each column i < a, the rows j < b. */
    method Rect(a: nat, b: nat)
      requires Valid() && RectFits(width, height, a, b)
      modifies cells
      ensures cells[..] == RectCells(old(cells[..]), width, a, b)
    {
      ghost var was := cells[..];
      var n := cells.Length;
      forall k | 0 <= k < n ensures !InRect(width, 0, b, k) {
        InRectNoColumns(width, b, k);
      }
      for i := 0 to a
        invariant forall k :: 0 <= k < n ==> cells[k] == (was[k] || InRect(width, i, b, k))
      {
        for j := 0 to b
          invariant forall k :: 0 <= k < n ==>
            cells[k] == (was[k] || InRect(width, i, b, k) || InRect(width, i + 1, j, k))
        {
          MulLe(width, j, b - 1);
          var k0 := IndexOf(width, i, j);
          cells[k0] := true;
          forall k | 0 <= k < n && width * j <= k < width * j + i
            ensures InRect(width, i, b, k)
          {
            InRectTaller(width, i, b, j, k);
          }
        }
        forall k | 0 <= k < n && InRect(width, i, b, k)
          ensures InRect(width, i + 1, b, k)
        {
          InRectWider(width, i, b, k);
        }
      }
      assert cells[..] == RectCells(was, width, a, b);
    }

    /** Rotates row r right by amt: cell (j, r) takes the old cell at the
        index the i8 expression computes. */
    method RotateRow(r: nat, amt: nat)
      requires Valid() && (width == 0 || r < height) && RotationFits(width, amt)
      modifies cells
      ensures cells[..] == RotateRowCells(old(cells[..]), width, height, r, amt)
    {
      var orig := Row(r);
      ghost var was := cells[..];
      ghost var p := width * r;
      for j1 := 0 to width
        invariant forall x :: 0 <= x < j1 ==> cells[p + x] == orig[Back(x, amt, width)]
        invariant forall k :: 0 <= k < cells.Length && !(p <= k < p + j1) ==> cells[k] == was[k]
      {
        var j0 := SourceIndex(j1, amt, width);
        cells[IndexOf(width, j1, r)] := orig[j0];
      }
      if width > 0 {
        forall k | 0 <= k < cells.Length
          ensures cells[k] == SegmentRotated(was, p, width, amt)[k]
        {
          if p <= k < p + width {
            SegmentInside(was, p, width, amt, k - p);
          } else {
            SegmentOutside(was, p, width, amt, k);
          }
        }
      }
      assert cells[..] == RotateRowCells(was, width, height, r, amt);
    }

    /** Rotates column c down by amt: cell (c, j) takes the old cell at the
        index the i8 expression computes. */
    method RotateCol(c: nat, amt: nat)
      requires Valid() && (height == 0 || c < width) && RotationFits(height, amt)
      modifies cells
      ensures cells[..] == RotateColCells(old(cells[..]), width, height, c, amt)
    {
      var orig := Column(c);
      ghost var was := cells[..];
      if height > 0 {
        for j1 := 0 to height
          invariant cells[..] == ColumnReplaced(was, width, height, c, Rotated(orig, amt), j1)
        {
          var j0 := SourceIndex(j1, amt, height);
          RotatedAt(orig, amt, j1);
          IndexInRange(width, height, c, j1);
          cells[IndexOf(width, c, j1)] := orig[j0];
        }
      }
    }

    /** Runs one command. */
    method Exec(cmd: Command)
      requires Valid() && CanExec(width, height, cmd)
      modifies cells
      ensures cells[..] == Apply(old(cells[..]), width, height, cmd)
    {
      match cmd
      case Rect(a, b) => Rect(a, b);
      case RotateC(col, amt) => RotateCol(col, amt);
      case RotateR(row, amt) => RotateRow(row, amt);
    }

    /** The Debug rendering, written row by row. */
    method Render() returns (text: string)
      requires Valid()
      ensures text == Rendered(cells[..], width, height)
    {
      text := [];
      for j := 0 to height
        invariant width * j <= cells.Length
        invariant text == Rendered(cells[..width * j], width, j)
      {
        MulSucc(width, j);
        MulLe(width, j + 1, height);
        ghost var base := width * j;
        ghost var upto := cells[..base + width];
        for i := 0 to width
          invariant text == Rendered(cells[..base], width, j) + RowText(cells[base..base + i])
        {
          var ch := if Get(i, j) then '#' else '.';
          text := text + [ch];
        }
        assert upto[..base] == cells[..base];
        assert upto[base..] == cells[base..base + width];
        text := text + "\n";
      }
      assert cells[..width * height] == cells[..];
    }
  }

  // ---- the 7 by 3 example ----

  const AfterRect: seq<bool> := [true, true, true, false, false, false, false,
                                 true, true, true, false, false, false, false,
                                 false, false, false, false, false, false, false]

  const AfterCol: seq<bool> := [true, false, true, false, false, false, false,
                                 true, true, true, false, false, false, false,
                                 false, true, false, false, false, false, false]

  const AfterRow: seq<bool> := [false, false, false, false, true, false, true,
                                 true, true, true, false, false, false, false,
                                 false, true, false, false, false, false, false]

  const Final: seq<bool> := [false, true, false, false, true, false, true,
                                 true, false, true, false, false, false, false,
                                 false, true, false, false, false, false, false]

  lemma ExampleRect()
    ensures Apply(Blank(21), 7, 3, Rect(3, 2)) == AfterRect
  {
  }

  lemma ExampleColumn()
    ensures ColumnOf(AfterRect, 7, 3, 1) == [true, true, false]
    ensures ColumnOf(AfterRow, 7, 3, 1) == [false, true, true]
  {
  }

  lemma ExampleColumnRotations()
    ensures Rotated([true, true, false], 1) == [false, true, true]
    ensures Rotated([false, true, true], 1) == [true, false, true]
  {
  }

  lemma ExampleColReplaced()
    ensures ColumnReplaced(AfterRect, 7, 3, 1, [false, true, true], 3) == AfterCol
  {
    assert ColumnReplaced(AfterRect, 7, 3, 1, [false, true, true], 1) == AfterRect[1 := false];
    assert ColumnReplaced(AfterRect, 7, 3, 1, [false, true, true], 2) == AfterRect[1 := false][8 := true];
    assert ColumnReplaced(AfterRect, 7, 3, 1, [false, true, true], 3) == AfterRect[1 := false][8 := true][15 := true];
  }

  lemma ExampleCol()
    ensures Apply(AfterRect, 7, 3, RotateC(1, 1)) == AfterCol
  {
    ExampleColumn();
    ExampleColumnRotations();
    ExampleColReplaced();
  }

  lemma SegmentRotatedFront(s: seq<bool>, n: nat, amt: nat)
    requires n <= |s| && amt <= n
    ensures SegmentRotated(s, 0, n, amt) == Rotated(s[..n], amt) + s[n..]
  {
    assert s[..0] == [];
  }

  lemma ExampleRowRotation()
    ensures Rotated([true, false, true, false, false, false, false], 4)
         == [false, false, false, false, true, false, true]
  {
  }

  lemma ExampleRowSegment()
    ensures SegmentRotated(AfterCol, 0, 7, 4) == AfterRow
  {
    SegmentRotatedFront(AfterCol, 7, 4);
    assert AfterCol[..7] == [true, false, true, false, false, false, false];
    ExampleRowRotation();
    assert AfterCol[7..] == [true, true, true, false, false, false, false,
                             false, true, false, false, false, false, false];
  }

  lemma ExampleRow()
    ensures Apply(AfterCol, 7, 3, RotateR(0, 4)) == AfterRow
  {
    ExampleRowSegment();
  }

  lemma ExampleColAgainReplaced()
    ensures ColumnReplaced(AfterRow, 7, 3, 1, [true, false, true], 3) == Final
  {
    assert ColumnReplaced(AfterRow, 7, 3, 1, [true, false, true], 1) == AfterRow[1 := true];
    assert ColumnReplaced(AfterRow, 7, 3, 1, [true, false, true], 2) == AfterRow[1 := true][8 := false];
    assert ColumnReplaced(AfterRow, 7, 3, 1, [true, false, true], 3) == AfterRow[1 := true][8 := false][15 := true];
  }

  lemma ExampleColAgain()
    ensures Apply(AfterRow, 7, 3, RotateC(1, 1)) == Final
  {
    ExampleColumn();
    ExampleColumnRotations();
    ExampleColAgainReplaced();
  }

  /** Rendering one more row appends that row's text and a newline. */
  lemma RenderedAppendRow(s: seq<bool>, r: seq<bool>, w: nat, h: nat)
    requires |s| == w * h && |r| == w
    ensures |s + r| == w * (h + 1)
    ensures Rendered(s + r, w, h + 1) == Rendered(s, w, h) + RowText(r) + "\n"
  {
    MulSucc(w, h);
    assert (s + r)[..w * h] == s;
    assert (s + r)[w * h..] == r;
  }

  lemma ExampleCount()
    ensures CountTrue(Final) == 6
  {
    CountTrueIsMultiplicity(Final);
  }

  lemma ExampleRender()
    ensures Rendered(Final, 7, 3) == ".#..#.#\n#.#....\n.#.....\n"
  {
    var r0, r1, r2 := Final[..7], Final[7..14], Final[14..];
    assert Final == r0 + r1 + r2;
    assert r0 == [] + r0;
    RenderedAppendRow([], r0, 7, 0);
    RenderedAppendRow(r0, r1, 7, 1);
    RenderedAppendRow(r0 + r1, r2, 7, 2);
    assert RowText(r0) == ".#..#.#";
    assert RowText(r1) == "#.#....";
    assert RowText(r2) == ".#.....";
  }

  /** One lit cell at (0, 0) of a dark 7 by 3 screen. */
  lemma ExampleSinglePixel()
    ensures Rendered(Blank(21)[0 := true], 7, 3) == "#......\n.......\n.......\n"
  {
    var s := Blank(21)[0 := true];
    var r0, r1, r2 := s[..7], s[7..14], s[14..];
    assert s == r0 + r1 + r2;
    assert r0 == [] + r0;
    RenderedAppendRow([], r0, 7, 0);
    RenderedAppendRow(r0, r1, 7, 1);
    RenderedAppendRow(r0 + r1, r2, 7, 2);
    assert RowText(r0) == "#......";
    assert RowText(r1) == ".......";
    assert RowText(r2) == ".......";
  }

  /** The whole 7 by 3 example: rect 3x2, column 1 by 1, row 0 by 4 and
      column 1 by 1 again leave six lit cells. */
  lemma ScreenExample()
    ensures Apply(Apply(Apply(Apply(Blank(21), 7, 3, Rect(3, 2)), 7, 3, RotateC(1, 1)),
                        7, 3, RotateR(0, 4)), 7, 3, RotateC(1, 1)) == Final
    ensures Rendered(Final, 7, 3) == ".#..#.#\n#.#....\n.#.....\n"
    ensures CountTrue(Final) == 6
  {
    ExampleRect();
    ExampleCol();
    ExampleRow();
    ExampleColAgain();
    ExampleRender();
    ExampleCount();
  }

  /** The same steps run on a screen object: light (0, 0), render, clear,
      then the four commands. */
  method RunExample() returns (first: string, text: string, lit: nat)
    ensures first == "#......\n.......\n.......\n"
    ensures text == ".#..#.#\n#.#....\n.#.....\n" && lit == 6
  {
    var d := new Display(7, 3);
    d.Set(0, 0, true);
    ExampleSinglePixel();
    first := d.Render();
    d.Clear();
    d.Exec(Rect(3, 2));
    d.Exec(RotateC(1, 1));
    d.Exec(RotateR(0, 4));
    d.Exec(RotateC(1, 1));
    ScreenExample();
    text := d.Render();
    lit := d.CountLit();
  }
}
