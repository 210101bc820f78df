/** The alignment patterns of a full QR symbol: QRspec_putAlignmentPattern. */
module QrAlign {
  import opened Arith
  import opened Bits
  import opened Painting
  import opened QrSpec
  import opened QrTables

  /** The centres fit into a symbol of width w: the last is seven modules from its end. */
  predicate Fitting(a: Centres, w: nat) {
    a.m >= 1 && a.d >= 8 && a.c >= 16 && a.c + a.d * (a.m - 1) == w - 7
  }

  lemma CentreInside(a: Centres, w: nat, j: nat)
    requires Fitting(a, w) && j < a.m
    ensures 16 <= a.c + a.d * j <= w - 7
  {
    MulMono(j, a.m - 1, a.d);
    assert j * a.d == a.d * j && (a.m - 1) * a.d == a.d * (a.m - 1);
  }

  /** One more centre: the five modules around it, and nothing else. */
  lemma NearStep(a: Centres, j: nat, x: int)
    requires a.d >= 5
    ensures var p := a.c + a.d * j;
            && (a.Near(j + 1, x) <==> a.Near(j, x) || p - 2 <= x <= p + 2)
            && (p - 2 <= x <= p + 2 ==> a.Off(x) == x - (p - 2) && !a.Near(j, x))
  {
    var p, e := a.c + a.d * j, x - (a.c - 2);
    if e >= 0 {
      var q, r := e / a.d, e % a.d;
      assert e == q * a.d + r && q * a.d == a.d * q && j * a.d == a.d * j;
      if p - 2 <= x <= p + 2 {
        DivMod(a.d, j, x - (p - 2));
      } else if q == j {
        assert r == x - (p - 2);
      }
    } else {
      assert a.d * j >= 0;
    }
  }

  lemma NearNone(a: Centres, x: int)
    requires a.d >= 5
    ensures !a.Near(0, x)
  {
  }

  /** Every place near a centre lies between the first and the last. */
  lemma NearRange(a: Centres, w: nat, n: nat, x: int)
    requires Fitting(a, w) && n <= a.m && a.Near(n, x)
    ensures 14 <= x <= w - 5
  {
    var e := x - (a.c - 2);
    var q := e / a.d;
    assert e == q * a.d + e % a.d && q * a.d == a.d * q;
    CentreInside(a, w, q);
  }

  function MarkerPattern(): picture { (i: int, j: int) => Marker(i, j) }

  /** The first n pairs of patterns on column 6 and on row 6. */
  ghost function EdgesOver(a: Centres, n: nat, c: picture): picture
    requires a.d > 0
  {
    (x: int, y: int) =>
      if 4 <= x <= 8 && a.Near(n, y) then Marker(x - 4, a.Off(y))
      else if 4 <= y <= 8 && a.Near(n, x) then Marker(a.Off(x), y - 4)
      else c(x, y)
  }

  /** The patterns in the first i rows of the grid, and the first j of the next. */
  ghost function GridOver(a: Centres, i: nat, j: nat, c: picture): picture
    requires a.d > 0
  {
    (x: int, y: int) =>
      if (a.Near(i, y) && a.Near(a.m, x)) || (a.Near(i + 1, y) && !a.Near(i, y) && a.Near(j, x))
      then Marker(a.Off(x), a.Off(y))
      else c(x, y)
  }

  lemma EdgesStart(a: Centres, w: nat, c: picture)
    requires a.d >= 5
    ensures Alike(w, c, EdgesOver(a, 0, c))
  {
    forall x: nat, y: nat | x < w && y < w ensures c(x, y) == EdgesOver(a, 0, c)(x, y) {
      NearNone(a, x); NearNone(a, y);
    }
  }

  lemma EdgesNext(a: Centres, w: nat, n: nat, c: picture)
    requires Fitting(a, w) && n < a.m
    ensures var p := a.c + a.d * n;
            Alike(w, BlockOver(BlockOver(EdgesOver(a, n, c), 4, p - 2, 5, 5, 0, MarkerPattern()), p - 2, 4, 5, 5, 0, MarkerPattern()),
                  EdgesOver(a, n + 1, c))
  {
    var p := a.c + a.d * n;
    CentreInside(a, w, n);
    hide Centres.Near; hide Centres.Off; hide Marker;
    var d := BlockOver(BlockOver(EdgesOver(a, n, c), 4, p - 2, 5, 5, 0, MarkerPattern()), p - 2, 4, 5, 5, 0, MarkerPattern());
    forall x: nat, y: nat | x < w && y < w ensures d(x, y) == EdgesOver(a, n + 1, c)(x, y) {
      NearStep(a, n, x); NearStep(a, n, y);
      EarlyPlaces(a, w, n, x, y);
    }
  }

  /** No place near a centre is as early as those around row and column 6. */
  lemma EarlyPlaces(a: Centres, w: nat, n: nat, x: int, y: int)
    requires Fitting(a, w) && n < a.m
    ensures x <= 8 ==> !a.Near(n, x) && !a.Near(n + 1, x) && !a.Near(a.m, x)
    ensures y <= 8 ==> !a.Near(n, y) && !a.Near(n + 1, y) && !a.Near(a.m, y)
  {
    if x <= 8 {
      EarlyPlace(a, w, n, x); EarlyPlace(a, w, n + 1, x); EarlyPlace(a, w, a.m, x);
    }
    if y <= 8 {
      EarlyPlace(a, w, n, y); EarlyPlace(a, w, n + 1, y); EarlyPlace(a, w, a.m, y);
    }
  }

  lemma EarlyPlace(a: Centres, w: nat, n: nat, x: int)
    requires Fitting(a, w) && n <= a.m && x <= 8
    ensures !a.Near(n, x)
  {
    hide Centres.Near;
    if a.Near(n, x) {
      NearRange(a, w, n, x);
    }
  }

  lemma GridStart(a: Centres, w: nat, c: picture)
    requires a.d >= 5
    ensures Alike(w, c, GridOver(a, 0, 0, c))
  {
    forall x: nat, y: nat | x < w && y < w ensures c(x, y) == GridOver(a, 0, 0, c)(x, y) {
      NearNone(a, x); NearNone(a, y);
    }
  }

  lemma GridNext(a: Centres, w: nat, i: nat, j: nat, c: picture)
    requires Fitting(a, w) && i < a.m && j < a.m
    ensures Alike(w, BlockOver(GridOver(a, i, j, c), a.c + a.d * j - 2, a.c + a.d * i - 2, 5, 5, 0, MarkerPattern()),
                  GridOver(a, i, j + 1, c))
  {
    hide Centres.Near; hide Centres.Off; hide Marker;
    var d := BlockOver(GridOver(a, i, j, c), a.c + a.d * j - 2, a.c + a.d * i - 2, 5, 5, 0, MarkerPattern());
    forall x: nat, y: nat | x < w && y < w ensures d(x, y) == GridOver(a, i, j + 1, c)(x, y) {
      NearStep(a, j, x); NearStep(a, i, y);
    }
  }

  lemma GridTurn(a: Centres, w: nat, i: nat, c: picture)
    requires a.d >= 5
    ensures Alike(w, GridOver(a, i, a.m, c), GridOver(a, i + 1, 0, c))
  {
    hide Centres.Off; hide Marker;
    forall x: nat, y: nat | x < w && y < w ensures GridOver(a, i, a.m, c)(x, y) == GridOver(a, i + 1, 0, c)(x, y) {
      NearStep(a, i, y);
      NearNone(a, x);
      hide Centres.Near;
    }
  }

  ghost function AlignPicture(a: Centres, c: picture): picture
    requires a.d > 0
  {
    (x: int, y: int) => AlignCell(a, x, y, c(x, y))
  }

  lemma AlignAlike(a: Centres, w: nat, c: picture)
    requires Fitting(a, w)
    ensures Alike(w, GridOver(a, a.m, 0, EdgesOver(a, a.m - 1, c)), AlignPicture(a, c))
  {
    hide Centres.Near; hide Centres.Off; hide Marker;
    var d := GridOver(a, a.m, 0, EdgesOver(a, a.m - 1, c));
    forall x: nat, y: nat | x < w && y < w ensures d(x, y) == AlignPicture(a, c)(x, y) {
      NearNone(a, x);
      EarlyPlaces(a, w, a.m - 1, x, y);
      var e := EdgesOver(a, a.m - 1, c);
      assert d(x, y) == if a.Near(a.m, y) && a.Near(a.m, x) then Marker(a.Off(x), a.Off(y)) else e(x, y);
      assert e(x, y) == if 4 <= x <= 8 && a.Near(a.m - 1, y) then Marker(x - 4, a.Off(y))
                        else if 4 <= y <= 8 && a.Near(a.m - 1, x) then Marker(a.Off(x), y - 4) else c(x, y);
      assert AlignPicture(a, c)(x, y) == AlignCell(a, x, y, c(x, y));
    }
  }

  /** QRspec_putAlignmentMarker. */
  method PutAlignmentMarker(frame: array<byte>, width: nat, ox: nat, oy: nat, ghost c: picture)
    requires 2 <= ox && ox + 3 <= width && 2 <= oy && oy + 3 <= width && Shows(frame[..], width, c)
    modifies frame
    ensures Shows(frame[..], width, BlockOver(c, ox - 2, oy - 2, 5, 5, 0, MarkerPattern()))
  {
    hide Shows; hide BlockOver; hide Marker;
    DrawBlock(frame, width, ox - 2, oy - 2, 5, MarkerPattern(), c);
  }

  /** The loop of QRspec_putAlignmentPattern along row 6 and column 6. */
  method PutEdges(frame: array<byte>, width: nat, a: Centres, n: nat, ghost c: picture)
    requires Fitting(a, width) && n < a.m && Shows(frame[..], width, c)
    modifies frame
    ensures Shows(frame[..], width, EdgesOver(a, n, c))
  {
    hide Shows; hide BlockOver; hide EdgesOver; hide Alike; hide MarkerPattern;
    EdgesStart(a, width, c);
    ShowsAlike(frame[..], width, c, EdgesOver(a, 0, c));
    var cx := a.c;
    for x: nat := 0 to n
      invariant cx == a.c + a.d * x
      invariant Shows(frame[..], width, EdgesOver(a, x, c))
    {
      CentreInside(a, width, x);
      ghost var d := EdgesOver(a, x, c);
      PutAlignmentMarker(frame, width, 6, cx, d);
      d := BlockOver(d, 4, cx - 2, 5, 5, 0, MarkerPattern());
      PutAlignmentMarker(frame, width, cx, 6, d);
      d := BlockOver(d, cx - 2, 4, 5, 5, 0, MarkerPattern());
      EdgesNext(a, width, x, c);
      ShowsAlike(frame[..], width, d, EdgesOver(a, x + 1, c));
      cx := cx + a.d;
    }
  }

  /** Its two nested loops. */
  method PutGrid(frame: array<byte>, width: nat, a: Centres, ghost c: picture)
    requires Fitting(a, width) && Shows(frame[..], width, c)
    modifies frame
    ensures Shows(frame[..], width, GridOver(a, a.m, 0, c))
  {
    hide Shows; hide BlockOver; hide GridOver; hide Alike; hide MarkerPattern;
    GridStart(a, width, c);
    ShowsAlike(frame[..], width, c, GridOver(a, 0, 0, c));
    var cy := a.c;
    for y: nat := 0 to a.m
      invariant cy == a.c + a.d * y
      invariant Shows(frame[..], width, GridOver(a, y, 0, c))
    {
      CentreInside(a, width, y);
      var cx := a.c;
      for x: nat := 0 to a.m
        invariant cx == a.c + a.d * x
        invariant Shows(frame[..], width, GridOver(a, y, x, c))
      {
        CentreInside(a, width, x);
        PutAlignmentMarker(frame, width, cx, cy, GridOver(a, y, x, c));
        GridNext(a, width, y, x, c);
        ShowsAlike(frame[..], width, BlockOver(GridOver(a, y, x, c), cx - 2, cy - 2, 5, 5, 0, MarkerPattern()),
                   GridOver(a, y, x + 1, c));
        cx := cx + a.d;
      }
      GridTurn(a, width, y, c);
      ShowsAlike(frame[..], width, GridOver(a, y, a.m, c), GridOver(a, y + 1, 0, c));
      cy := cy + a.d;
    }
  }

  /** The centres of every version fit, and the source's computation of their number agrees. */
  lemma CentresFit(version: nat)
    requires 2 <= version <= QRSPEC_VERSION_MAX
    ensures Fitting(CentresOf(version), 17 + 4 * version)
    ensures CentresOf(version).c == AlignmentPattern(version).0
    ensures AlignmentPattern(version).1 < AlignmentPattern(version).0 <==> CentresOf(version).m == 1
    ensures CentresOf(version).m > 1 ==>
              CentresOf(version).d == AlignmentPattern(version).1 - AlignmentPattern(version).0
  {
    assert CentresGood(version) by {
      hide CentresGood;
      Centres2(); Centres12(); Centres22(); Centres32();
    }
    hide CentresOf; hide AlignmentPattern; hide Fitting;
  }

  ghost predicate CentresGood(version: nat) {
    var a, (c, e) := CentresOf(version), AlignmentPattern(version);
    && Fitting(a, 17 + 4 * version) && a.c == c && (e < c <==> a.m == 1) && (a.m > 1 ==> a.d == e - c)
  }

  lemma Centres2()
    ensures CentresGood(2) && CentresGood(3) && CentresGood(4) && CentresGood(5) && CentresGood(6)
    ensures CentresGood(7) && CentresGood(8) && CentresGood(9) && CentresGood(10) && CentresGood(11)
  {
  }

  lemma Centres12()
    ensures CentresGood(12) && CentresGood(13) && CentresGood(14) && CentresGood(15) && CentresGood(16)
    ensures CentresGood(17) && CentresGood(18) && CentresGood(19) && CentresGood(20) && CentresGood(21)
  {
  }

  lemma Centres22()
    ensures CentresGood(22) && CentresGood(23) && CentresGood(24) && CentresGood(25) && CentresGood(26)
    ensures CentresGood(27) && CentresGood(28) && CentresGood(29) && CentresGood(30) && CentresGood(31)
  {
  }

  lemma Centres32()
    ensures CentresGood(32) && CentresGood(33) && CentresGood(34) && CentresGood(35) && CentresGood(36)
    ensures CentresGood(37) && CentresGood(38) && CentresGood(39) && CentresGood(40)
  {
  }

  /** The number of centres that the source computes, 6 among them. */
  lemma CentresCounted(a: Centres, w: nat)
    requires Fitting(a, w) && a.m > 1
    ensures (w - a.c) / a.d + 2 == a.m + 1
  {
    assert (a.m - 1) * a.d + 7 == w - a.c;
    DivMod(a.d, a.m - 1, 7);
  }

  lemma NoAlignment(version: nat, w: nat, c: picture)
    requires version < 2
    ensures Alike(w, c, AlignPicture(CentresOf(version), c))
  {
    var a := CentresOf(version);
    forall x: nat, y: nat | x < w && y < w ensures c(x, y) == AlignPicture(a, c)(x, y) {
      NearNone(a, x);
    }
  }

  /** QRspec_putAlignmentPattern. */
  method PutAlignmentPattern(version: nat, frame: array<byte>, width: nat, ghost p: picture)
    requires 1 <= version <= QRSPEC_VERSION_MAX && width == 17 + 4 * version && Shows(frame[..], width, p)
    modifies frame
    ensures Shows(frame[..], width, AlignPicture(CentresOf(version), p))
  {
    hide Shows; hide CentresOf; hide AlignmentPattern; hide Alike; hide AlignPicture; hide EdgesOver; hide GridOver;
    hide BlockOver; hide MarkerPattern; hide Fitting;
    ghost var a := CentresOf(version);
    if version < 2 {
      NoAlignment(version, width, p);
      ShowsAlike(frame[..], width, p, AlignPicture(a, p));
      return;
    }
    CentresFit(version);
    FittingIs(a, width);
    var c := AlignmentPattern(version).0;
    var d: int := AlignmentPattern(version).1 - c;
    if a.m > 1 {
      CentresCounted(a, width);
    }
    var w := if d < 0 then 2 else (width - c) / d + 2;
    assert w == a.m + 1;
    OnlyTwo(w);
    if w * w - 3 == 1 {
      PutSingle(frame, width, c, a, p);
    } else {
      PutAll(frame, width, Centres(c, d, w - 1), p);
    }
  }

  lemma FittingIs(a: Centres, w: nat)
    requires Fitting(a, w)
    ensures a.m >= 1 && a.d >= 8 && a.c >= 16 && a.c <= w - 7
  {
    CentreInside(a, w, 0);
  }

  lemma OnlyTwo(w: nat)
    requires w >= 2
    ensures w * w - 3 == 1 <==> w == 2
  {
    if w > 2 {
      MulMono(3, w, w);
    }
  }

  /** The only pattern of versions 2 to 6. */
  method PutSingle(frame: array<byte>, width: nat, c: nat, ghost a: Centres, ghost p: picture)
    requires Fitting(a, width) && a.m == 1 && c == a.c && Shows(frame[..], width, p)
    modifies frame
    ensures Shows(frame[..], width, AlignPicture(a, p))
  {
    hide *;
    FittingIs(a, width);
    ghost var e := EdgesOver(a, 0, p);
    EdgesStart(a, width, p);
    ShowsAlike(frame[..], width, p, e);
    GridStart(a, width, e);
    ShowsAlike(frame[..], width, e, GridOver(a, 0, 0, e));
    PutAlignmentMarker(frame, width, c, c, GridOver(a, 0, 0, e));
    GridNext(a, width, 0, 0, e);
    ShowsAlike(frame[..], width, BlockOver(GridOver(a, 0, 0, e), c - 2, c - 2, 5, 5, 0, MarkerPattern()), GridOver(a, 0, 1, e));
    GridTurn(a, width, 0, e);
    ShowsAlike(frame[..], width, GridOver(a, 0, 1, e), GridOver(a, 1, 0, e));
    AlignAlike(a, width, p);
    ShowsAlike(frame[..], width, GridOver(a, 1, 0, e), AlignPicture(a, p));
  }

  /** The patterns of the other versions. */
  method PutAll(frame: array<byte>, width: nat, a: Centres, ghost p: picture)
    requires Fitting(a, width) && Shows(frame[..], width, p)
    modifies frame
    ensures Shows(frame[..], width, AlignPicture(a, p))
  {
    hide *;
    FittingIs(a, width);
    PutEdges(frame, width, a, a.m - 1, p);
    ghost var e := EdgesOver(a, a.m - 1, p);
    PutGrid(frame, width, a, e);
    AlignAlike(a, width, p);
    ShowsAlike(frame[..], width, GridOver(a, a.m, 0, e), AlignPicture(a, p));
  }
}
