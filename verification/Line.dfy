/** The integer line of the frame buffer driver: it draws exactly the nearest pixel of
    every column (or row) between its end points, and stops on the second one. */
module Line {
  import opened Bits
  import opened Memory

  function Dist(a: int, b: int): nat {
    if b > a then b - a else a - b
  }

  function Sign(a: int, b: int): int {
    if a < b then 1 else -1
  }

  predicate InInt32(x: int) {
    -0x8000_0000 <= x < 0x8000_0000
  }

  /** `j` is `k * b / a` rounded to the nearest integer, ties downwards. */
  predicate Rounds(a: nat, b: nat, k: nat, j: int) {
    var t := k * b - j * a;
    2 * t <= a < 2 * a + 2 * t
  }

  /** The rounded quotient in closed form. */
  function Minor(a: nat, b: nat, k: nat): nat {
    if a == 0 then 0 else (2 * (k * b) + a - 1) / (2 * a)
  }

  lemma DivisionUnique(n: int, d: int, q: int)
    requires 0 < d
    ensures q == n / d <==> q * d <= n < q * d + d
  {
    if q * d <= n < q * d + d {
      SameQuotient(d, q, n - q * d, n / d, n % d);
    }
  }

  lemma MinorRounds(a: nat, b: nat, k: nat, j: int)
    requires 0 < a
    ensures Rounds(a, b, k, j) <==> j == Minor(a, b, k)
  {
    var n := 2 * (k * b) + a - 1;
    DivisionUnique(n, 2 * a, j);
    assert j * (2 * a) == 2 * (j * a);
  }

  /** One more step along the major axis carries when the rest passes one half. */
  lemma NextMinor(a: nat, b: nat, k: nat, j: int)
    requires 0 < a && b <= a && Rounds(a, b, k, j)
    ensures Rounds(a, b, k + 1, if 2 * (k * b - j * a + b) > a then j + 1 else j)
  {
    assert (k + 1) * b == k * b + b;
    assert (j + 1) * a == j * a + a;
  }

  /** The rounded quotient runs from 0 to `b` as `k` runs from 0 to `a`. */
  lemma MinorZero(a: nat, b: nat)
    ensures Minor(a, b, 0) == 0
  {
    if a > 0 {
      MinorRounds(a, b, 0, 0);
    }
  }

  lemma MinorInRange(a: nat, b: nat, k: nat)
    requires k <= a
    ensures Minor(a, b, 0) == 0
    ensures a > 0 ==> Minor(a, b, a) == b && Minor(a, b, k) <= b
  {
    hide Minor;
    MinorZero(a, b);
    if a > 0 {
      MinorRounds(a, b, a, b);
      var j := Minor(a, b, k);
      MinorRounds(a, b, k, j);
      if j > b {
        MulMono(k, a, b);
        MulMono(b, j - 1, a);
      }
    }
  }

  /** How many steps along x and along y the `k`-th pixel is away from the first. */
  function Steps(dx: nat, dy: nat, k: nat): (nat, nat) {
    if dx >= dy then (k, Minor(dx, dy, k)) else (Minor(dy, dx, k), k)
  }

  function Longest(dx: nat, dy: nat): nat {
    if dx >= dy then dx else dy
  }

  lemma DiagonalMinor(a: nat, k: nat)
    requires 0 < a
    ensures Minor(a, a, k) == k
  {
    MinorRounds(a, a, k, k);
  }

  /** What one step along the longer axis does to the rest `t` of the rounding. */
  lemma OneStep(a: nat, b: nat, k: nat, j: nat, t: int)
    requires 0 < a && b <= a && j == Minor(a, b, k) && t == k * b - j * a
    ensures 2 * t <= a < 2 * a + 2 * t && (a == b ==> t == 0)
    ensures Minor(a, b, k + 1) == if 2 * (t + b) > a then j + 1 else j
  {
    hide Minor;
    MinorRounds(a, b, k, j);
    NextMinor(a, b, k, j);
    MinorRounds(a, b, k + 1, if 2 * (t + b) > a then j + 1 else j);
    if a == b {
      DiagonalMinor(a, k);
    }
  }

  /** The error term after `i` steps along x and `j` along y. */
  function ErrorTerm(dx: int, dy: int, i: int, j: int): int {
    (j + 1) * dx - (i + 1) * dy
  }

  lemma FirstError(dx: int, dy: int)
    ensures ErrorTerm(dx, dy, 0, 0) == dx - dy
  {
  }

  lemma ErrorSteps(dx: int, dy: int, i: int, j: int)
    ensures ErrorTerm(dx, dy, i, j) == dx - dy - (i * dy - j * dx)
    ensures ErrorTerm(dx, dy, i + 1, j) == ErrorTerm(dx, dy, i, j) - dy
    ensures ErrorTerm(dx, dy, i, j + 1) == ErrorTerm(dx, dy, i, j) + dx
    ensures ErrorTerm(dx, dy, i + 1, j + 1) == ErrorTerm(dx, dy, i, j) - dy + dx
  {
  }

  /** One round of the loop: the two comparisons against twice the error term move along
      the longer axis always, and along the shorter one exactly when the nearest pixel
      does. */
  lemma OneRound(dx: nat, dy: nat, k: nat, i: nat, j: nat, err: int)
    requires k < Longest(dx, dy) && (i, j) == Steps(dx, dy, k)
    requires err == ErrorTerm(dx, dy, i, j)
    ensures err - dy == ErrorTerm(dx, dy, i + 1, j) && err + dx == ErrorTerm(dx, dy, i, j + 1)
    ensures err - dy + dx == ErrorTerm(dx, dy, i + 1, j + 1)
    ensures Steps(dx, dy, k + 1) == (if 2 * err + dy > 0 then i + 1 else i, if 2 * err < dx then j + 1 else j)
  {
    hide Minor, ErrorTerm;
    var t := i * dy - j * dx;
    ErrorSteps(dx, dy, i, j);
    if dx >= dy {
      OneStep(dx, dy, k, j, t);
    } else {
      OneStep(dy, dx, k, i, -t);
    }
  }

  /** No value computed in round `k` leaves the 32-bit range. */
  predicate RoundFits(dx: nat, dy: nat, k: nat) {
    var (i, j) := Steps(dx, dy, k);
    var err := ErrorTerm(dx, dy, i, j);
    var mid := if 2 * err + dy > 0 then err - dy else err;
    InInt32(2 * err) && InInt32(mid) && (2 * err < dx ==> InInt32(mid + dx))
  }

  /** No value computed on the way does. */
  ghost predicate NoOverflow(dx: nat, dy: nat) {
    InInt32(dx) && InInt32(dy) && forall k: nat :: k < Longest(dx, dy) ==> RoundFits(dx, dy, k)
  }

  /** Lines of at most a third of the range never overflow. */
  lemma ShortLinesFit(dx: nat, dy: nat)
    requires InInt32(3 * Longest(dx, dy))
    ensures NoOverflow(dx, dy)
  {
    hide Minor, ErrorTerm;
    forall k: nat | k < Longest(dx, dy)
      ensures RoundFits(dx, dy, k)
    {
      var (i, j) := Steps(dx, dy, k);
      ErrorSteps(dx, dy, i, j);
      if dx >= dy {
        OneStep(dx, dy, k, j, i * dy - j * dx);
      } else {
        OneStep(dy, dx, k, i, j * dx - i * dy);
      }
    }
  }

  /** Longer lines may: a horizontal one overflows exactly from 2^30 pixels on. */
  lemma HorizontalLinesFit(dx: nat)
    requires InInt32(dx)
    ensures NoOverflow(dx, 0) <==> dx < 0x4000_0000
  {
    hide Minor;
    forall k: nat | k < dx
      ensures RoundFits(dx, 0, k) <==> dx < 0x4000_0000
    {
      MinorRounds(dx, 0, k, 0);
    }
    if dx >= 0x4000_0000 {
      assert !RoundFits(dx, 0, 0);
    }
  }

  /** The coordinate `i` unit steps from `x1` towards `x2`. */
  function Along(x1: int, x2: int, i: int): int {
    x1 + i * Sign(x1, x2)
  }

  lemma AlongSteps(x1: int, x2: int, i: int)
    ensures Along(x1, x2, 0) == x1
    ensures Along(x1, x2, i + 1) == Along(x1, x2, i) + Sign(x1, x2)
    ensures Along(x1, x2, i) == x2 <==> i == Dist(x1, x2)
  {
  }

  /** The pixel that the line should light in its `k`-th column (or row). */
  function Nearest(x1: int, y1: int, x2: int, y2: int, k: nat): (int, int) {
    var s := Steps(Dist(x1, x2), Dist(y1, y2), k);
    (Along(x1, x2, s.0), Along(y1, y2, s.1))
  }

  predicate Between(a: int, x: int, b: int) {
    a <= x <= b || b <= x <= a
  }

  /** The line stays in the rectangle between its end points. */
  lemma NearestBetween(x1: int, y1: int, x2: int, y2: int, k: nat)
    requires k <= Longest(Dist(x1, x2), Dist(y1, y2))
    ensures var p := Nearest(x1, y1, x2, y2, k);
            Between(x1, p.0, x2) && Between(y1, p.1, y2)
  {
    hide Minor;
    var dx, dy := Dist(x1, x2), Dist(y1, y2);
    MinorInRange(dx, dy, if dx >= dy then k else 0);
    MinorInRange(dy, dx, if dx >= dy then 0 else k);
  }

  /** Twice the signed area of the triangle over the ideal line: zero on the line. */
  function Deviation(x1: int, y1: int, x2: int, y2: int, p: (int, int)): int {
    (p.0 - x1) * (y2 - y1) - (p.1 - y1) * (x2 - x1)
  }

  /** Along the shorter axis a nearest pixel is at most half a pixel off the ideal line,
      and along the longer axis it is the one in the asked column (or row). */
  lemma {:induction false} WithinHalfAPixel(x1: int, y1: int, x2: int, y2: int, k: nat)
    requires k <= Longest(Dist(x1, x2), Dist(y1, y2))
    ensures var p := Nearest(x1, y1, x2, y2, k);
            && 2 * Dist(0, Deviation(x1, y1, x2, y2, p)) <= Longest(Dist(x1, x2), Dist(y1, y2))
            && (if Dist(x1, x2) >= Dist(y1, y2) then Dist(x1, p.0) == k else Dist(y1, p.1) == k)
  {
    hide Minor;
    var dx, dy, s, t := Dist(x1, x2), Dist(y1, y2), Sign(x1, x2), Sign(y1, y2);
    var (i, j) := Steps(dx, dy, k);
    if dx > 0 || dy > 0 {
      MinorRounds(Longest(dx, dy), if dx >= dy then dy else dx, k, if dx >= dy then j else i);
    }
    assert x2 - x1 == dx * s && y2 - y1 == dy * t;
    SignedArea(i, j, dx, dy, s, t);
    Reflected(i * dy - j * dx, s, t);
  }

  lemma Reflected(v: int, s: int, t: int)
    requires (s == 1 || s == -1) && (t == 1 || t == -1)
    ensures Dist(0, v * (s * t)) == Dist(0, v)
  {
    assert s * t == 1 || s * t == -1;
  }

  lemma SignedArea(i: int, j: int, dx: int, dy: int, s: int, t: int)
    requires (s == 1 || s == -1) && (t == 1 || t == -1)
    ensures (i * s) * (dy * t) - (j * t) * (dx * s) == (i * dy - j * dx) * (s * t)
  {
  }

  /** A tie: the rounded quotient is exactly half a unit low. */
  lemma TieIs(a: nat, b: nat, k: nat)
    requires 0 < a
    ensures 2 * (k * b - Minor(a, b, k) * a) == a <==> 2 * (k * b) % (2 * a) == a
  {
    hide Minor;
    var j := Minor(a, b, k);
    MinorRounds(a, b, k, j);
    Residue(2 * (k * b), a, j, 2 * (k * b - j * a));
  }

  lemma Residue(n: nat, a: nat, j: int, r: int)
    requires 0 < a && n == 2 * (j * a) + r && 0 < r + a && r <= a
    ensures n % (2 * a) == if r >= 0 then r else 2 * a + r
  {
    assert j * (2 * a) == 2 * (j * a) && (j - 1) * (2 * a) == 2 * (j * a) - 2 * a;
    if r >= 0 {
      SameQuotient(2 * a, j, r, n / (2 * a), n % (2 * a));
    } else {
      SameQuotient(2 * a, j - 1, 2 * a + r, n / (2 * a), n % (2 * a));
    }
  }

  lemma MinorReversed(a: nat, b: nat, k: nat)
    requires 0 < a && b <= a && k <= a
    ensures Minor(a, b, a - k) + Minor(a, b, k) == b <==> 2 * (k * b) % (2 * a) != a
  {
    hide Minor;
    var j := Minor(a, b, k);
    TieIs(a, b, k);
    MinorRounds(a, b, k, j);
    MinorRounds(a, b, a - k, b - j);
    FromTheEnd(a, b, k, j);
  }

  lemma FromTheEnd(a: int, b: int, k: int, j: int)
    ensures (a - k) * b - (b - j) * a == j * a - k * b
  {
  }

  lemma AlongReversed(x1: int, x2: int, i: nat, j: nat)
    requires i <= Dist(x1, x2) && j <= Dist(x1, x2)
    ensures Along(x2, x1, j) == Along(x1, x2, i) <==> i + j == Dist(x1, x2)
  {
  }

  function Shortest(dx: nat, dy: nat): nat {
    if dx >= dy then dy else dx
  }

  /** The line drawn backwards lights the same pixel in a column (or row) if and only if
      the ideal line does not pass half way between two pixels there. */
  lemma BackwardsDiffersAtTies(x1: int, y1: int, x2: int, y2: int, k: nat)
    requires (x1, y1) != (x2, y2) && k <= Longest(Dist(x1, x2), Dist(y1, y2))
    ensures var a, b := Longest(Dist(x1, x2), Dist(y1, y2)), Shortest(Dist(x1, x2), Dist(y1, y2));
            Nearest(x2, y2, x1, y1, a - k) == Nearest(x1, y1, x2, y2, k) <==> 2 * (k * b) % (2 * a) != a
  {
    hide Minor, Along;
    var dx, dy := Dist(x1, x2), Dist(y1, y2);
    var a, b := Longest(dx, dy), Shortest(dx, dy);
    MinorReversed(a, b, k);
    MinorInRange(a, b, k);
    MinorInRange(a, b, a - k);
    var s, t := Steps(dx, dy, k), Steps(dx, dy, a - k);
    AlongReversed(x1, x2, s.0, t.0);
    AlongReversed(y1, y2, s.1, t.1);
  }

  /** The shortest line that differs: from (0, 0) to (2, 1) its middle pixel is the lower
      one, and the upper one when drawn back. */
  lemma TieExample()
    ensures Nearest(0, 0, 2, 1, 1) == (1, 0) && Nearest(2, 1, 0, 0, 1) == (1, 1)
  {
  }

  // ---- the frame buffer ----

  /** Cells of `w` bytes, in rows of `pitch` bytes, never overlap and lie in the buffer. */
  lemma CellsApart(pitch: nat, width: nat, w: nat, x: nat, y: nat, p: nat, q: nat)
    requires w * width <= pitch && x < width && p < width && (x, y) != (p, q)
    ensures y * pitch + w * x + w <= q * pitch + w * p || q * pitch + w * p + w <= y * pitch + w * x
  {
    CellInRow(pitch, width, w, x);
    CellInRow(pitch, width, w, p);
    if y < q {
      StepApart(y, q, pitch);
    } else if q < y {
      StepApart(q, y, pitch);
    } else if x < p {
      StepApart(x, p, w);
    } else {
      StepApart(p, x, w);
    }
  }

  lemma StepApart(i: nat, j: nat, step: nat)
    requires i < j
    ensures i * step + step <= j * step && step * i + step <= step * j
  {
    MulMono(i + 1, j, step);
    assert (i + 1) * step == i * step + step;
  }

  lemma CellInRow(pitch: nat, width: nat, w: nat, x: nat)
    requires w * width <= pitch && x < width
    ensures 0 <= w * x && w * x + w <= pitch
  {
    MulMono(x + 1, width, w);
  }

  lemma CellInside(pitch: nat, height: nat, width: nat, w: nat, x: nat, y: nat)
    requires w * width <= pitch && x < width && y < height
    ensures y * pitch + w * x + w <= height * pitch
  {
    CellInRow(pitch, width, w, x);
    MulMono(y + 1, height, pitch);
  }

  /** The bytes of a colour as a pixel of `w` bytes shows them, blue first. */
  function ColorBytes(color: Word, w: nat): (b: seq<Byte>)
    requires w in {0, 3, 4}
    ensures |b| == w
  {
    if w == 0 then []
    else [color % 0x100, color / 0x100 % 0x100, color / 0x1_0000 % 0x100] + if w == 4 then [color / 0x100_0000] else []
  }

  /** Read back in little-endian order the bytes are the colour, of which a pixel of three
      bytes keeps the low 24 bits. */
  lemma ColorIsShown(color: Word)
    ensures FromBytes(ColorBytes(color, 4)) == color
    ensures FromBytes(ColorBytes(color, 3)) == color % 0x100_0000
  {
    WordBytes(color);
    ShortBytes(ColorBytes(color, 4));
    ThreeBytes(ColorBytes(color, 3));
  }

  lemma ThreeBytes(s: seq<Byte>)
    requires |s| == 3
    ensures FromBytes(s) == s[0] as int + 0x100 * s[1] as int + 0x1_0000 * s[2] as int
  {
    ShortBytes(s[1..]);
  }

  /** A frame buffer of `bpp` bits a pixel, in rows of `pitch` bytes. */
  class Screen {
    const width: nat
    const height: nat
    const pitch: nat
    const bpp: nat
    const fb: array<Byte>

    /** Bytes a pixel; depths other than 24 and 32 are never drawn. */
    function Depth(): (w: nat)
      ensures w in {0, 3, 4}
    {
      if bpp == 32 then 4 else if bpp == 24 then 3 else 0
    }

    ghost predicate Valid() {
      && Depth() * width <= pitch && fb.Length == height * pitch
      && width <= 0x8000_0000 && height <= 0x8000_0000
    }

    predicate Visible(x: int, y: int) {
      0 <= x < width && 0 <= y < height
    }

    /** Where the bytes of a pixel start. */
    function Cell(x: int, y: int): (a: nat)
      requires Valid() && Visible(x, y)
      ensures a + Depth() <= fb.Length
    {
      CellInside(pitch, height, width, Depth(), x, y);
      y * pitch + Depth() * x
    }

    /** The first pixel is at the start, the next one in a row 3 or 4 bytes on by depth, the
        one below a pitch on. */
    lemma Neighbours(x: int, y: int)
      requires Valid() && Visible(x, y)
      ensures bpp == 32 || bpp == 24 ==> Depth() == bpp / 8
      ensures Visible(0, 0) ==> Cell(0, 0) == 0
      ensures Visible(x + 1, y) ==> Cell(x + 1, y) == Cell(x, y) + Depth()
      ensures Visible(x, y + 1) ==> Cell(x, y + 1) == Cell(x, y) + pitch
    {
      var w := Depth();
      assert w * (x + 1) == w * x + w && (y + 1) * pitch == y * pitch + pitch;
    }

    constructor (width: nat, height: nat, pitch: nat, bpp: nat)
      requires (if bpp == 32 then 4 else if bpp == 24 then 3 else 0) * width <= pitch
      requires width <= 0x8000_0000 && height <= 0x8000_0000
      ensures Valid() && fresh(fb)
      ensures this.width == width && this.height == height && this.pitch == pitch && this.bpp == bpp
    {
      this.width := width;
      this.height := height;
      this.pitch := pitch;
      this.bpp := bpp;
      fb := new Byte[height * pitch];
    }

    /** `vesa_putpixel`: a coordinate off the screen, negative ones included, is ignored. */
    method PutPixel(x: int, y: int, color: Word)
      requires Valid() && InInt32(x) && InInt32(y)
      modifies fb
      ensures forall n :: 0 <= n < fb.Length ==>
                fb[n] == if 0 <= x < width && 0 <= y < height && Cell(x, y) <= n < Cell(x, y) + Depth()
                         then ColorBytes(color, Depth())[n - Cell(x, y)]
                         else old(fb[n])
    {
      if x % 0x1_0000_0000 >= width || y % 0x1_0000_0000 >= height {
        return;
      }
      var at := Cell(x, y);
      if bpp == 32 || bpp == 24 {
        fb[at] := color % 0x100;
        fb[at + 1] := color / 0x100 % 0x100;
        fb[at + 2] := color / 0x1_0000 % 0x100;
      }
      if bpp == 32 {
        fb[at + 3] := color / 0x100_0000;
      }
    }

    /** The bytes of `before` with every visible point of `path` in `color`; bytes of no
        pixel, behind the rows, included. */
    ghost predicate Painted(before: seq<Byte>, path: seq<(int, int)>, color: Word)
      requires Valid() && |before| == fb.Length
      reads fb
    {
      && (forall p, q :: Visible(p, q) ==>
            fb[Cell(p, q)..Cell(p, q) + Depth()]
            == if (p, q) in path then ColorBytes(color, Depth()) else before[Cell(p, q)..Cell(p, q) + Depth()])
      && (forall n :: 0 <= n < fb.Length && !OnPixel(n) ==> fb[n] == before[n])
    }

    ghost predicate OnPixel(n: nat)
      requires Valid()
    {
      exists p, q :: Visible(p, q) && Cell(p, q) <= n < Cell(p, q) + Depth()
    }

    method Plot(x: int, y: int, color: Word, ghost before: seq<Byte>, ghost path: seq<(int, int)>)
      requires Valid() && |before| == fb.Length && Painted(before, path, color)
      requires InInt32(x) && InInt32(y)
      modifies fb
      ensures Painted(before, path + [(x, y)], color)
    {
      hide Cell, ColorBytes;
      PutPixel(x, y, color);
      forall p, q | Visible(p, q)
        ensures fb[Cell(p, q)..Cell(p, q) + Depth()]
                == if (p, q) == (x, y) then ColorBytes(color, Depth()) else old(fb[Cell(p, q)..Cell(p, q) + Depth()])
      {
        if Visible(x, y) && (x, y) != (p, q) {
          OtherCell(x, y, p, q);
        }
      }
    }

    lemma OtherCell(x: int, y: int, p: int, q: int)
      requires Valid() && Visible(p, q) && Visible(x, y) && (x, y) != (p, q)
      ensures Cell(x, y) + Depth() <= Cell(p, q) || Cell(p, q) + Depth() <= Cell(x, y)
    {
      CellsApart(pitch, width, Depth(), x, y, p, q);
    }

    /** `vesa_draw_line`. `path` lists the points in the order they are drawn. */
    method DrawLine(x1: int, y1: int, x2: int, y2: int, color: Word) returns (ghost path: seq<(int, int)>)
      requires Valid() && InInt32(x1) && InInt32(y1) && InInt32(x2) && InInt32(y2)
      requires NoOverflow(Dist(x1, x2), Dist(y1, y2))
      modifies fb
      ensures |path| == Longest(Dist(x1, x2), Dist(y1, y2)) + 1
      ensures path[0] == (x1, y1) && path[|path| - 1] == (x2, y2)
      ensures forall k :: 0 <= k < |path| ==> path[k] == Nearest(x1, y1, x2, y2, k)
      ensures Painted(old(fb[..]), path, color)
    {
      hide Minor, Painted, Along, ErrorTerm;
      var dx: int, dy: int := Dist(x1, x2), Dist(y1, y2);
      var sx, sy := Sign(x1, x2), Sign(y1, y2);
      var err := dx - dy;
      var x, y := x1, y1;
      ghost var i, j := 0, 0;
      path := [];
      NothingPainted(color);
      MinorInRange(dx, dy, 0);
      MinorInRange(dy, dx, 0);
      AlongSteps(x1, x2, 0);
      AlongSteps(y1, y2, 0);
      FirstError(dx, dy);
      assert InInt32(err) && InInt32(-dy);
      while true
        invariant |path| <= Longest(dx, dy) && (i, j) == Steps(dx, dy, |path|)
        invariant x == Along(x1, x2, i) && y == Along(y1, y2, j)
        invariant err == ErrorTerm(dx, dy, i, j)
        invariant forall k :: 0 <= k < |path| ==> path[k] == Nearest(x1, y1, x2, y2, k)
        invariant Painted(old(fb[..]), path, color)
        decreases Longest(dx, dy) - |path|
      {
        NearestBetween(x1, y1, x2, y2, |path|);
        Plot(x, y, color, old(fb[..]), path);
        ghost var k := |path|;
        path := path + [(x, y)];
        AtTheEnd(dx, dy, k, i, j);
        AlongSteps(x1, x2, i);
        AlongSteps(y1, y2, j);
        if x == x2 && y == y2 {
          break;
        }
        OneRound(dx, dy, k, i, j, err);
        assert RoundFits(dx, dy, k);
        var e2 := 2 * err;
        assert InInt32(e2);
        if e2 > -dy {
          err := err - dy;
          assert InInt32(err);
          x := x + sx;
          i := i + 1;
        }
        if e2 < dx {
          err := err + dx;
          assert InInt32(err);
          y := y + sy;
          j := j + 1;
        }
      }
    }

    lemma NothingPainted(color: Word)
      requires Valid()
      ensures Painted(fb[..], [], color)
    {
    }
  }

  /** The walk has made all its steps along both axes exactly at its last pixel. */
  lemma AtTheEnd(dx: nat, dy: nat, k: nat, i: nat, j: nat)
    requires k <= Longest(dx, dy) && (i, j) == Steps(dx, dy, k)
    ensures (i, j) == (dx, dy) <==> k == Longest(dx, dy)
  {
    MinorInRange(dx, dy, if dx >= dy then k else 0);
    MinorInRange(dy, dx, if dx >= dy then 0 else k);
  }
}
