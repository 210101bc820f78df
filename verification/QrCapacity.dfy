/** The frame of every version has exactly as many free modules as its codes and remainder bits need. */
module QrCapacity {
  import opened Arith
  import opened Bits
  import opened Counting
  import opened Format
  import opened FrameFiller
  import opened MaskChoice
  import opened Painting
  import opened QrAlign
  import opened QrSpec
  import opened QrTables
  import opened Reader
  import opened Snake

  /** What QRspec_createFrame draws. */
  ghost predicate IsQrFrame(f: seq<byte>, version: nat, w: nat) {
    Shows(f, w, QrPicture(version, w))
  }

  // ---- which modules are reserved ----

  /** The number of centres at which there are patterns on row and column 6. */
  function Inner(a: Centres): nat { if a.m > 0 then a.m - 1 else 0 }

  ghost predicate Reserved(version: nat, w: int, x: int, y: int) {
    var a := CentresOf(version);
    || (y < 9 && (x <= 8 || x >= w - 8))
    || (x <= 8 && y >= w - 8)
    || x == 6 || y == 6
    || (version >= 7 && ((w - 11 <= x < w - 8 && y < 6) || (x < 6 && w - 11 <= y < w - 8)))
    || (4 <= y <= 8 && a.Near(Inner(a), x))
    || (4 <= x <= 8 && a.Near(Inner(a), y))
    || (a.Near(a.m, x) && a.Near(a.m, y))
  }

  lemma CellFlagged(version: nat, w: nat, x: nat, y: nat)
    requires w >= 21 && x < w && y < w
    ensures QrCell(version, w, x, y) >= 128 <==> Reserved(version, w, x, y)
  {
    hide CentresOf; hide BitAt; hide VersionPattern; hide Centres.Off;
    var a := CentresOf(version);
    NearNone(a, x); NearNone(a, y);
    hide Centres.Near;
    BaseFlagged(w, x, y);
    hide BaseCell;
  }

  lemma BaseFlagged(w: nat, x: nat, y: nat)
    requires w >= 21 && x < w && y < w
    ensures BaseCell(w, x, y) >= 128 || (x == 8 && y == w - 8)
            <==> (y < 9 && (x <= 8 || x >= w - 8)) || (x <= 8 && y >= w - 8) || x == 6 || y == 6
  {
  }

  // ---- nine parts that do not meet ----

  ghost function Low(n: int): places { (x: int) => x < n }

  ghost function High(n: int): places { (x: int) => x >= n }

  ghost function Between(lo: int, hi: int): places { (x: int) => lo <= x < hi }

  ghost function Ends(w: int): places { (x: int) => x <= 8 || x >= w - 8 }

  ghost function Around(): places { (x: int) => 4 <= x <= 8 && x != 6 }

  ghost function When(on: bool, p: places): places { (x: int) => on && p(x) }

  ghost function Centred(a: Centres, n: nat): places
    requires a.d > 0
  {
    (x: int) => a.Near(n, x)
  }

  ghost function Taken(version: nat, w: int): region { (x: int, y: int) => Reserved(version, w, x, y) }

  lemma TakenParts(version: nat, w: nat, x: nat, y: nat)
    requires 1 <= version <= QRSPEC_VERSION_MAX && w == 17 + 4 * version && x < w && y < w
    ensures var a, v := CentresOf(version), version >= 7;
            Parts(Taken(version, w), Product(Ends(w), Low(9)), Product(Low(9), High(w - 8)),
                  Product(Between(9, w - 8), Between(6, 7)), Product(Between(6, 7), Between(9, w - 8)),
                  Product(Between(w - 11, w - 8), When(v, Low(6))), Product(Low(6), When(v, Between(w - 11, w - 8))),
                  Product(Centred(a, Inner(a)), Around()), Product(Around(), Centred(a, Inner(a))),
                  Product(Centred(a, a.m), Centred(a, a.m)), x, y)
  {
    var a := CentresOf(version);
    NearPlaces(version, w, x); NearPlaces(version, w, y);
    hide Centres.Near; hide CentresOf;
  }

  /** Where places near a centre lie. */
  lemma NearPlaces(version: nat, w: nat, x: nat)
    requires 1 <= version <= QRSPEC_VERSION_MAX && w == 17 + 4 * version && x < w
    ensures var a := CentresOf(version);
            && (a.Near(a.m, x) ==> 14 <= x <= w - 5)
            && (a.Near(Inner(a), x) ==> 14 <= x <= w - 13 && a.Near(a.m, x))
  {
    var a := CentresOf(version);
    hide CentresOf;
    if version < 2 {
      NearNone(a, x);
      NoCentres(version);
    } else {
      CentresFit(version);
      if a.Near(a.m, x) {
        NearRange(a, w, a.m, x);
      }
      if a.Near(Inner(a), x) {
        InnerRange(a, w, x);
      }
    }
  }

  lemma NoCentres(version: nat)
    requires version < 2
    ensures CentresOf(version).m == 0
  {
  }

  lemma InnerRange(a: Centres, w: nat, x: int)
    requires Fitting(a, w) && a.Near(Inner(a), x)
    ensures 14 <= x <= w - 13 && a.Near(a.m, x)
  {
    NearRange(a, w, Inner(a), x);
    var e := x - (a.c - 2);
    var q := e / a.d;
    assert e == q * a.d + e % a.d;
    MulMono(q, a.m - 2, a.d);
    assert (a.m - 2) * a.d + a.d == a.d * (a.m - 1);
  }

  // ---- counting them ----

  lemma {:induction false} CountCentred(a: Centres, w: nat, n: nat)
    requires Fitting(a, w) && n <= a.m
    ensures Count(Centred(a, n), w) == 5 * n
  {
    hide Centres.Near;
    if n == 0 {
      forall x: nat | x < w ensures Centred(a, 0)(x) == (0 <= x < 0) {
        NearNone(a, x);
      }
      CountInterval(Centred(a, 0), 0, 0, w);
    } else {
      var p := a.c + a.d * (n - 1);
      CountCentred(a, w, n - 1);
      CentreInside(a, w, n - 1);
      forall x: nat | x < w
        ensures Centred(a, n)(x) == (Centred(a, n - 1)(x) || Between(p - 2, p + 3)(x))
                && !(Centred(a, n - 1)(x) && Between(p - 2, p + 3)(x))
      {
        NearStep(a, n - 1, x);
      }
      CountSplit(Centred(a, n), Centred(a, n - 1), Between(p - 2, p + 3), w);
      CountInterval(Between(p - 2, p + 3), p - 2, p + 3, w);
    }
  }

  lemma CountOfCentres(version: nat, w: nat)
    requires 1 <= version <= QRSPEC_VERSION_MAX && w == 17 + 4 * version
    ensures var a := CentresOf(version);
            Count(Centred(a, a.m), w) == 5 * a.m && Count(Centred(a, Inner(a)), w) == 5 * Inner(a)
  {
    var a := CentresOf(version);
    if version < 2 {
      NoCentres(version);
      hide Centres.Near; hide CentresOf;
      forall x: nat | x < w ensures Centred(a, 0)(x) == (0 <= x < 0) {
        NearNone(a, x);
      }
      CountInterval(Centred(a, 0), 0, 0, w);
    } else {
      CentresFit(version);
      CountCentred(a, w, a.m);
      CountCentred(a, w, Inner(a));
    }
  }

  lemma CountLines(w: nat)
    requires w >= 21
    ensures Count(Low(6), w) == 6 && Count(Low(9), w) == 9 && Count(High(w - 8), w) == 8
    ensures Count(Between(9, w - 8), w) == w - 17 && Count(Between(6, 7), w) == 1 && Count(Between(w - 11, w - 8), w) == 3
    ensures Count(Ends(w), w) == 17 && Count(Around(), w) == 4
  {
    hide Count;
    CountInterval(Low(6), 0, 6, w); CountInterval(Low(9), 0, 9, w); CountInterval(High(w - 8), w - 8, w, w);
    CountInterval(Between(9, w - 8), 9, w - 8, w); CountInterval(Between(6, 7), 6, 7, w);
    CountInterval(Between(w - 11, w - 8), w - 11, w - 8, w);
    CountEnds(w);
  }

  lemma CountEnds(w: nat)
    requires w >= 21
    ensures Count(Ends(w), w) == 17 && Count(Around(), w) == 4
  {
    hide Count;
    CountInterval(Low(9), 0, 9, w); CountInterval(High(w - 8), w - 8, w, w);
    CountSplit(Ends(w), Low(9), High(w - 8), w);
    CountInterval(Between(4, 6), 4, 6, w); CountInterval(Between(7, 9), 7, 9, w);
    CountSplit(Around(), Between(4, 6), Between(7, 9), w);
  }

  lemma CountWhen(w: nat, on: bool)
    requires w >= 21
    ensures Count(When(on, Low(6)), w) == (if on then 6 else 0)
    ensures Count(When(on, Between(w - 11, w - 8)), w) == if on then 3 else 0
  {
    hide Count;
    CountInterval(When(on, Low(6)), 0, if on then 6 else 0, w);
    CountInterval(When(on, Between(w - 11, w - 8)), w - 11, if on then w - 8 else w - 11, w);
  }

  /** How many modules of a version are reserved. */
  function ReservedModules(version: nat): int {
    var w, m, i := 17 + 4 * version, CentresOf(version).m, Inner(CentresOf(version));
    225 + 2 * (w - 17) + (if version >= 7 then 36 else 0) + 40 * i + 25 * m * m
  }

  lemma CountTaken(version: nat, w: nat)
    requires 1 <= version <= QRSPEC_VERSION_MAX && w == 17 + 4 * version
    ensures GridCount(Taken(version, w), w, w) == ReservedModules(version)
  {
    hide *;
    var a, v := CentresOf(version), version >= 7;
    var p1, p2 := Product(Ends(w), Low(9)), Product(Low(9), High(w - 8));
    var p3, p4 := Product(Between(9, w - 8), Between(6, 7)), Product(Between(6, 7), Between(9, w - 8));
    var p5, p6 := Product(Between(w - 11, w - 8), When(v, Low(6))), Product(Low(6), When(v, Between(w - 11, w - 8)));
    var p7, p8 := Product(Centred(a, Inner(a)), Around()), Product(Around(), Centred(a, Inner(a)));
    var p9 := Product(Centred(a, a.m), Centred(a, a.m));
    forall x: nat, y: nat | x < w && y < w ensures Parts(Taken(version, w), p1, p2, p3, p4, p5, p6, p7, p8, p9, x, y) {
      TakenParts(version, w, x, y);
    }
    GridParts(Taken(version, w), p1, p2, p3, p4, p5, p6, p7, p8, p9, w, w);
    GridProduct(Ends(w), Low(9), w, w); GridProduct(Low(9), High(w - 8), w, w);
    GridProduct(Between(9, w - 8), Between(6, 7), w, w); GridProduct(Between(6, 7), Between(9, w - 8), w, w);
    GridProduct(Between(w - 11, w - 8), When(v, Low(6)), w, w); GridProduct(Low(6), When(v, Between(w - 11, w - 8)), w, w);
    GridProduct(Centred(a, Inner(a)), Around(), w, w); GridProduct(Around(), Centred(a, Inner(a)), w, w);
    GridProduct(Centred(a, a.m), Centred(a, a.m), w, w);
    CountLines(w); CountWhen(w, v);
    CountOfCentres(version, w);
    Total(version, w);
  }

  lemma Total(version: nat, w: nat)
    requires w == 17 + 4 * version
    ensures var a, v := CentresOf(version), version >= 7;
            ReservedModules(version)
            == 17 * 9 + 9 * 8 + (w - 17) * 1 + 1 * (w - 17) + 3 * (if v then 6 else 0) + 6 * (if v then 3 else 0)
               + 5 * Inner(a) * 4 + 4 * (5 * Inner(a)) + 5 * a.m * (5 * a.m)
  {
    hide CentresOf;
    var m := CentresOf(version).m;
    assert 5 * m * (5 * m) == 25 * m * m;
  }

  // ---- the exact fit ----

  /** The free modules of an empty frame, and the bits of its codes and its remainder. */
  ghost predicate Exact(version: nat) {
    var w := 17 + 4 * version;
    w * w - ReservedModules(version) == 8 * Capacity(version).words + Capacity(version).remainder
  }

  lemma Exact1()
    ensures Exact(1) && Exact(2) && Exact(3) && Exact(4) && Exact(5)
  {
  }

  lemma Exact6()
    ensures Exact(6) && Exact(7) && Exact(8) && Exact(9) && Exact(10)
  {
  }

  lemma Exact11()
    ensures Exact(11) && Exact(12) && Exact(13) && Exact(14) && Exact(15)
  {
  }

  lemma Exact16()
    ensures Exact(16) && Exact(17) && Exact(18) && Exact(19) && Exact(20)
  {
  }

  lemma Exact21()
    ensures Exact(21) && Exact(22) && Exact(23) && Exact(24) && Exact(25)
  {
  }

  lemma Exact26()
    ensures Exact(26) && Exact(27) && Exact(28) && Exact(29) && Exact(30)
  {
  }

  lemma Exact31()
    ensures Exact(31) && Exact(32) && Exact(33) && Exact(34) && Exact(35)
  {
  }

  lemma Exact36()
    ensures Exact(36) && Exact(37) && Exact(38) && Exact(39) && Exact(40)
  {
  }

  lemma AllExact(version: nat)
    requires 1 <= version <= QRSPEC_VERSION_MAX
    ensures Exact(version)
  {
    hide Exact;
    Exact1(); Exact6(); Exact11(); Exact16(); Exact21(); Exact26(); Exact31(); Exact36();
  }

  /** The frame meets the conditions of the walk and of the format information. */
  lemma QrLayout(f: seq<byte>, version: nat, w: nat)
    requires 1 <= version <= QRSPEC_VERSION_MAX && w == 17 + 4 * version && IsQrFrame(f, version, w)
    ensures Walk(w, false).Layout(ReservedMap(f))
  {
    hide *;
    FlagAt(f, version, w, w - 1, w - 1); Always(version, w, w - 1, w - 1);
    forall y: nat | y < w ensures Walk(w, false).Reserved(ReservedMap(f), 6, y) {
      ColumnFlagged(f, version, w, 6, y);
    }
    forall y: nat | y < 9
      ensures Walk(w, false).Reserved(ReservedMap(f), 5, y) && Walk(w, false).Reserved(ReservedMap(f), 4, y)
    {
      ColumnFlagged(f, version, w, 5, y); ColumnFlagged(f, version, w, 4, y);
    }
    LayoutIs(ReservedMap(f), w);
  }

  lemma ColumnFlagged(f: seq<byte>, version: nat, w: nat, x: nat, y: nat)
    requires 1 <= version <= QRSPEC_VERSION_MAX && w == 17 + 4 * version && IsQrFrame(f, version, w)
    requires y < w && (x == 6 || (x < 6 && y < 9))
    ensures |ReservedMap(f)| == w * w && Walk(w, false).Reserved(ReservedMap(f), x, y)
  {
    hide *;
    FlagAt(f, version, w, x, y);
    Always(version, w, x, y);
  }

  lemma FlagAt(f: seq<byte>, version: nat, w: nat, x: nat, y: nat)
    requires w >= 21 && IsQrFrame(f, version, w) && x < w && y < w
    ensures |ReservedMap(f)| == w * w && ReservedMap(f)[Index(w, x, y)] == Reserved(version, w, x, y)
    ensures Walk(w, false).Reserved(ReservedMap(f), x, y) == Reserved(version, w, x, y)
  {
    hide Index; hide QrCell; hide Reserved;
    assert f[Index(w, x, y)] == QrPicture(version, w)(x, y);
    CellFlagged(version, w, x, y);
    MapAt(f, Index(w, x, y));
  }

  /** Whatever the version, these are reserved, and the lower right corner is not. */
  lemma Always(version: nat, w: nat, x: nat, y: nat)
    requires 1 <= version <= QRSPEC_VERSION_MAX && w == 17 + 4 * version && x < w && y < w
    ensures x == 6 || y == 6 || (x <= 8 && (y <= 8 || y >= w - 8)) || (x >= w - 8 && y <= 8) ==> Reserved(version, w, x, y)
    ensures x == w - 1 && y == w - 1 ==> !Reserved(version, w, x, y)
  {
    NearPlaces(version, w, x); NearPlaces(version, w, y);
    hide Centres.Near; hide CentresOf;
  }

  lemma LayoutIs(res: seq<bool>, w: nat)
    requires w >= 21 && w % 4 == 1 && |res| == w * w && !Walk(w, false).Reserved(res, w - 1, w - 1)
    requires forall y: nat | y < w :: Walk(w, false).Reserved(res, 6, y)
    requires forall y: nat | y < 9 :: Walk(w, false).Reserved(res, 5, y) && Walk(w, false).Reserved(res, 4, y)
    ensures Walk(w, false).Layout(res)
  {
    IndexCorner(w);
    hide Index;
  }

  lemma MapOfFrame(f: seq<byte>, version: nat, w: nat)
    requires w >= 21 && IsQrFrame(f, version, w)
    ensures Maps(ReservedMap(f), Taken(version, w), w, w)
  {
    hide Shows; hide ReservedMap; hide Reserved; hide QrPicture;
    FlagAt(f, version, w, 0, 0);
    forall x: nat, y: nat | x < w && y < w ensures At(ReservedMap(f), w, x, y) == Taken(version, w)(x, y) {
      FlagAt(f, version, w, x, y);
      IndexOfPlace(w, x, y);
    }
  }

  lemma IndexOfPlace(w: nat, x: nat, y: nat)
    requires x < w && y < w
    ensures Index(w, x, y) == y * w + x
  {
  }

  /** The walk through an empty frame is as long as the capacity table says. */
  lemma QrFreeModules(f: seq<byte>, version: nat, w: nat)
    requires 1 <= version <= QRSPEC_VERSION_MAX && w == 17 + 4 * version && IsQrFrame(f, version, w)
    ensures Walk(w, false).Layout(ReservedMap(f))
    ensures |Walk(w, false).From(ReservedMap(f), 0, 0)| == 8 * Capacity(version).words + Capacity(version).remainder
  {
    hide *;
    var t, res := Walk(w, false), ReservedMap(f);
    QrLayout(f, version, w);
    FlagAt(f, version, w, 0, 0);
    LayoutSize(t, res);
    WalkIsComplete(t, res);
    CellsInFrame(t, res);
    ListOfFalses(t.From(res, 0, 0), res);
    TruesAndFalses(res);
    MapOfFrame(f, version, w);
    GridTrues(res, Taken(version, w), w, w);
    CountTaken(version, w);
    AllExact(version);
    ExactIs(version, w);
  }

  lemma ExactIs(version: nat, w: nat)
    requires Exact(version) && w == 17 + 4 * version
    ensures w * w - ReservedModules(version) == 8 * Capacity(version).words + Capacity(version).remainder
  {
    hide ReservedModules; hide Capacity;
  }

  // ---- the places of the format information ----

  lemma FormatPlaceCell(version: nat, w: nat, n: nat)
    requires 1 <= version <= QRSPEC_VERSION_MAX && w == 17 + 4 * version && n < 30
    ensures 0 <= FormatX(w, n) < w && 0 <= FormatY(w, n) < w
    ensures QrCell(version, w, FormatX(w, n), FormatY(w, n)) == 0x84
  {
    InSymbol(w, n);
    FormatLine(w, n);
    var x, y := FormatX(w, n), FormatY(w, n);
    NearPlaces(version, w, x); NearPlaces(version, w, y);
    hide FormatX; hide FormatY; hide Centres.Near; hide CentresOf; hide VersionPattern; hide BitAt;
  }

  lemma FormatLine(w: nat, n: nat)
    requires n < 30 && w >= 21
    ensures var x, y := FormatX(w, n), FormatY(w, n);
            (y == 8 && x != 6 && (x <= 8 || x >= w - 8)) || (x == 8 && y != 6 && (y < 8 || y >= w - 7))
  {
  }

  /** They are reserved, and light. */
  lemma QrFormatPlaces(f: seq<byte>, version: nat, w: nat)
    requires 1 <= version <= QRSPEC_VERSION_MAX && w == 17 + 4 * version && IsQrFrame(f, version, w)
    ensures |f| == w * w && FormatReserved(ReservedMap(f), w) && PlacesFlagged(f, w)
    ensures forall n :: 0 <= n < 30 ==> f[FormatCell(w, n)] % 2 == 0
  {
    hide Index; hide QrCell; hide FormatX; hide FormatY;
    forall n | 0 <= n < 30 ensures f[FormatCell(w, n)] == 0x84 && ReservedMap(f)[FormatCell(w, n)] {
      FormatPlaceCell(version, w, n);
      assert f[FormatCell(w, n)] == QrPicture(version, w)(FormatX(w, n), FormatY(w, n));
      MapAt(f, FormatCell(w, n));
    }
  }
}
