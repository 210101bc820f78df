/** Drawing the function patterns of a frame: what each assignment, row, column and block makes of it. */
module Painting {
  import opened Bits
  import opened Snake

  /** What a frame shows at each column and row. */
  type picture = (int, int) -> int

  ghost predicate Shows(f: seq<byte>, w: nat, c: picture) {
    && |f| == w * w
    && forall x: nat, y: nat | x < w && y < w :: f[Index(w, x, y)] == c(x, y)
  }

  ghost predicate Alike(w: nat, c: picture, d: picture) {
    forall x: nat, y: nat | x < w && y < w :: c(x, y) == d(x, y)
  }

  lemma ShowsAlike(f: seq<byte>, w: nat, c: picture, d: picture)
    requires Shows(f, w, c) && Alike(w, c, d)
    ensures Shows(f, w, d)
  {
    hide Index;
  }

  /** Two frames that show the same are the same. */
  lemma ShowsOne(f: seq<byte>, g: seq<byte>, w: nat, c: picture)
    requires Shows(f, w, c) && Shows(g, w, c)
    ensures f == g
  {
    hide Index;
    forall i | 0 <= i < w * w ensures f[i] == g[i] {
      IndexOf(w, i);
    }
  }

  // ---- pictures with something drawn over them ----

  ghost function Blank(): picture { (i: int, j: int) => 0 }

  ghost function DotOver(c: picture, x: int, y: int, v: int): picture {
    (i: int, j: int) => if i == x && j == y then v else c(i, j)
  }

  ghost function RowOver(c: picture, y: int, lo: int, hi: int, v: int): picture {
    (i: int, j: int) => if lo <= i < hi && j == y then v else c(i, j)
  }

  ghost function ColumnOver(c: picture, x: int, lo: int, hi: int, v: int): picture {
    (i: int, j: int) => if i == x && lo <= j < hi then v else c(i, j)
  }

  /** The first rows rows of an n wide block whose upper left module is at (ox, oy), and cols modules of the next. */
  ghost function BlockOver(c: picture, ox: int, oy: int, n: int, rows: int, cols: int, d: picture): picture {
    (i: int, j: int) =>
      if ox <= i < ox + n && oy <= j && (j < oy + rows || (j == oy + rows && i < ox + cols)) then d(i - ox, j - oy)
      else c(i, j)
  }

  // ---- drawing ----

  lemma BlankShows(f: seq<byte>, w: nat)
    requires |f| == w * w && forall i :: 0 <= i < |f| ==> f[i] == 0
    ensures Shows(f, w, Blank())
  {
    hide Index;
  }

  lemma DotShows(f: seq<byte>, w: nat, c: picture, x: nat, y: nat, v: byte)
    requires Shows(f, w, c) && x < w && y < w
    ensures Shows(f[Index(w, x, y) := v], w, DotOver(c, x, y, v))
  {
    hide Index;
    var g := f[Index(w, x, y) := v];
    forall i: nat, j: nat | i < w && j < w ensures g[Index(w, i, j)] == DotOver(c, x, y, v)(i, j) {
      IndexInverse(w, i, j);
      IndexInverse(w, x, y);
    }
  }

  /** An assignment to one module. */
  method DrawDot(frame: array<byte>, w: nat, x: nat, y: nat, v: byte, ghost c: picture)
    requires x < w && y < w && Shows(frame[..], w, c)
    modifies frame
    ensures Shows(frame[..], w, DotOver(c, x, y, v))
  {
    ghost var f := frame[..];
    DotShows(f, w, c, x, y, v);
    frame[Index(w, x, y)] := v;
    assert frame[..] == f[Index(w, x, y) := v];
  }

  /** memset on row y from column lo up to hi. */
  method DrawRow(frame: array<byte>, w: nat, y: nat, lo: nat, hi: nat, v: byte, ghost c: picture)
    requires y < w && lo <= hi <= w && Shows(frame[..], w, c)
    modifies frame
    ensures Shows(frame[..], w, RowOver(c, y, lo, hi, v))
  {
    hide *;
    RowStart(w, c, y, lo, v);
    ShowsAlike(frame[..], w, c, RowOver(c, y, lo, lo, v));
    for x: nat := lo to hi
      invariant Shows(frame[..], w, RowOver(c, y, lo, x, v))
    {
      ghost var d := RowOver(c, y, lo, x, v);
      DrawDot(frame, w, x, y, v, d);
      RowNext(w, c, y, lo, x, v);
      ShowsAlike(frame[..], w, DotOver(d, x, y, v), RowOver(c, y, lo, x + 1, v));
    }
  }

  lemma RowStart(w: nat, c: picture, y: int, lo: int, v: int)
    ensures Alike(w, c, RowOver(c, y, lo, lo, v))
  {
  }

  lemma RowNext(w: nat, c: picture, y: int, lo: int, x: int, v: int)
    requires lo <= x
    ensures Alike(w, DotOver(RowOver(c, y, lo, x, v), x, y, v), RowOver(c, y, lo, x + 1, v))
  {
  }

  /** A loop down column x from row lo up to hi. */
  method DrawColumn(frame: array<byte>, w: nat, x: nat, lo: nat, hi: nat, v: byte, ghost c: picture)
    requires x < w && lo <= hi <= w && Shows(frame[..], w, c)
    modifies frame
    ensures Shows(frame[..], w, ColumnOver(c, x, lo, hi, v))
  {
    hide *;
    ColumnStart(w, c, x, lo, v);
    ShowsAlike(frame[..], w, c, ColumnOver(c, x, lo, lo, v));
    for y: nat := lo to hi
      invariant Shows(frame[..], w, ColumnOver(c, x, lo, y, v))
    {
      ghost var d := ColumnOver(c, x, lo, y, v);
      DrawDot(frame, w, x, y, v, d);
      ColumnNext(w, c, x, lo, y, v);
      ShowsAlike(frame[..], w, DotOver(d, x, y, v), ColumnOver(c, x, lo, y + 1, v));
    }
  }

  lemma ColumnStart(w: nat, c: picture, x: int, lo: int, v: int)
    ensures Alike(w, c, ColumnOver(c, x, lo, lo, v))
  {
  }

  lemma ColumnNext(w: nat, c: picture, x: int, lo: int, y: int, v: int)
    requires lo <= y
    ensures Alike(w, DotOver(ColumnOver(c, x, lo, y, v), x, y, v), ColumnOver(c, x, lo, y + 1, v))
  {
  }

  /** The two nested loops that copy an n by n pattern to (ox, oy). */
  method DrawBlock(frame: array<byte>, w: nat, ox: nat, oy: nat, n: nat, pattern: picture, ghost c: picture)
    requires forall i: nat, j: nat | i < n && j < n :: 0 <= pattern(i, j) < 256
    requires ox + n <= w && oy + n <= w && Shows(frame[..], w, c)
    modifies frame
    ensures Shows(frame[..], w, BlockOver(c, ox, oy, n, n, 0, pattern))
  {
    hide *;
    BlockStart(w, c, ox, oy, n, pattern);
    ShowsAlike(frame[..], w, c, BlockOver(c, ox, oy, n, 0, 0, pattern));
    for y: nat := 0 to n
      invariant Shows(frame[..], w, BlockOver(c, ox, oy, n, y, 0, pattern))
    {
      for x: nat := 0 to n
        invariant Shows(frame[..], w, BlockOver(c, ox, oy, n, y, x, pattern))
      {
        ghost var d := BlockOver(c, ox, oy, n, y, x, pattern);
        var v: byte := pattern(x, y);
        DrawDot(frame, w, ox + x, oy + y, v, d);
        BlockNext(w, c, ox, oy, n, y, x, pattern);
        ShowsAlike(frame[..], w, DotOver(d, ox + x, oy + y, v), BlockOver(c, ox, oy, n, y, x + 1, pattern));
      }
      BlockTurn(w, c, ox, oy, n, y, pattern);
      ShowsAlike(frame[..], w, BlockOver(c, ox, oy, n, y, n, pattern), BlockOver(c, ox, oy, n, y + 1, 0, pattern));
    }
  }

  lemma BlockStart(w: nat, c: picture, ox: int, oy: int, n: int, d: picture)
    ensures Alike(w, c, BlockOver(c, ox, oy, n, 0, 0, d))
  {
  }

  lemma BlockNext(w: nat, c: picture, ox: int, oy: int, n: int, y: int, x: int, d: picture)
    requires 0 <= x < n && 0 <= y
    ensures Alike(w, DotOver(BlockOver(c, ox, oy, n, y, x, d), ox + x, oy + y, d(x, y)), BlockOver(c, ox, oy, n, y, x + 1, d))
  {
  }

  lemma BlockTurn(w: nat, c: picture, ox: int, oy: int, n: int, y: int, d: picture)
    requires 0 <= y
    ensures Alike(w, BlockOver(c, ox, oy, n, y, n, d), BlockOver(c, ox, oy, n, y + 1, 0, d))
  {
  }

  // ---- the patterns that QR and Micro QR symbols share ----

  /** The table `finder`. */
  function Finder(x: int, y: int): byte {
    if y == 0 || y == 6 then 0xc1
    else if y == 1 || y == 5 then (if x == 0 || x == 6 then 0xc1 else 0xc0)
    else if x == 1 || x == 5 then 0xc0 else 0xc1
  }

  function FinderPattern(): picture { (i: int, j: int) => Finder(i, j) }

  /** putFinderPattern. */
  method PutFinderPattern(frame: array<byte>, width: nat, ox: nat, oy: nat, ghost c: picture)
    requires ox + 7 <= width && oy + 7 <= width && Shows(frame[..], width, c)
    modifies frame
    ensures Shows(frame[..], width, BlockOver(c, ox, oy, 7, 7, 0, FinderPattern()))
  {
    hide Shows; hide BlockOver; hide Finder;
    DrawBlock(frame, width, ox, oy, 7, FinderPattern(), c);
  }

  /** Timing patterns of n modules along row t and column t, from column and row 8 on. */
  ghost function TimingOver(c: picture, t: int, n: int): picture {
    (i: int, j: int) =>
      if j == t && 8 <= i < 8 + n then 0x90 + (i + 1) % 2
      else if i == t && 8 <= j < 8 + n then 0x90 + (j + 1) % 2 else c(i, j)
  }

  /** The loop that draws both timing patterns. */
  method PutTiming(frame: array<byte>, width: nat, t: nat, n: nat, ghost c: picture)
    requires t < 8 && 8 + n <= width && Shows(frame[..], width, c)
    modifies frame
    ensures Shows(frame[..], width, TimingOver(c, t, n))
  {
    hide *;
    TimingStart(width, c, t);
    ShowsAlike(frame[..], width, c, TimingOver(c, t, 0));
    for x: nat := 1 to n + 1
      invariant Shows(frame[..], width, TimingOver(c, t, x - 1))
    {
      ghost var d := TimingOver(c, t, x - 1);
      var v: byte := 0x90 + x % 2;
      DrawDot(frame, width, 7 + x, t, v, d);
      DrawDot(frame, width, t, 7 + x, v, DotOver(d, 7 + x, t, v));
      TimingNext(width, c, t, x, v);
      ShowsAlike(frame[..], width, DotOver(DotOver(d, 7 + x, t, v), t, 7 + x, v), TimingOver(c, t, x));
    }
  }

  lemma TimingStart(w: nat, c: picture, t: int)
    ensures Alike(w, c, TimingOver(c, t, 0))
  {
  }

  lemma TimingNext(w: nat, c: picture, t: int, x: int, v: int)
    requires 0 <= t < 8 && x >= 1 && v == 0x90 + x % 2
    ensures Alike(w, DotOver(DotOver(TimingOver(c, t, x - 1), 7 + x, t, v), t, 7 + x, v), TimingOver(c, t, x))
  {
    assert (7 + x + 1) % 2 == x % 2;
  }
}
