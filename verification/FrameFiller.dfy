/** FrameFiller: the walker that hands out the free modules of a frame one by one. */
module FrameFiller {
  import opened Bits
  import opened Snake
  import opened Wrappers

  /** Which modules of a frame carry the flag 0x80. */
  function ReservedMap(f: seq<byte>): (r: seq<bool>)
    ensures |r| == |f|
  {
    seq(|f|, i requires 0 <= i < |f| => f[i] >= 128)
  }

  lemma MapAt(f: seq<byte>, i: nat)
    requires i < |f|
    ensures ReservedMap(f)[i] <==> f[i] >= 128
  {
  }

  /** Writing an unflagged value to a free module changes no flag. */
  lemma WriteKeepsMap(f: seq<byte>, i: nat, v: byte)
    requires i < |f| && f[i] < 128 && v < 128
    ensures ReservedMap(f[i := v]) == ReservedMap(f)
  {
  }

  /** The step after step s of pair k, with the jump past the corner. */
  function NextStep(t: Walk, k: nat, s: nat): (nat, nat)
  {
    if s + 1 < 2 * t.w then (k, s + 1)
    else if !t.mqr && t.Right(k + 1) == 5 then (k + 1, 18)
    else (k + 1, 0)
  }

  lemma NextStepKeepsRest(t: Walk, res: seq<bool>, k: nat, s: nat)
    requires t.Layout(res) && t.Inside(k, s)
    ensures t.From(res, k, s + 1) == t.From(res, NextStep(t, k, s).0, NextStep(t, k, s).1)
  {
    hide Walk.From; hide Walk.Layout; hide Walk.Cell;
    LayoutShape(t, res);
    if s + 1 == 2 * t.w {
      FromNext(t, res, k, s + 1);
      if !t.mqr && t.Right(k + 1) == 5 {
        SkipCorner(t, res, k + 1, 0);
      }
    }
  }

  /** Where the walk is sent after the last step of pair k, and that the jump only happens upwards. */
  lemma TurnAround(t: Walk, k: nat)
    requires t.Valid() && k < t.Pairs()
    ensures t.mqr || t.Right(k) != 8 ==> t.Right(k + 1) == t.Right(k) - 2
    ensures !t.mqr && t.Right(k) == 8 ==> t.Right(k + 1) == 5 && k % 2 == 0 && k + 1 < t.Pairs()
    ensures !t.mqr ==> (t.Right(k + 1) == 5 <==> t.Right(k) == 8) && t.Right(k) != 7
    ensures t.Right(k + 1) >= 0 <==> k + 1 < t.Pairs() || t.mqr
    ensures t.mqr && k + 1 == t.Pairs() ==> t.Right(k + 1) == 0
    ensures t.Right(k) >= 1
  {
  }

  /** The step that follows, the module there, and what is left from there on. */
  ghost predicate Lands(t: Walk, res: seq<bool>, k: nat, s: nat, k': nat, s': nat)
    requires t.Valid() && |res| == t.w * t.w
  {
    && t.Inside(k', s')
    && 0 <= t.X(k', s') < t.w && 0 <= t.Y(k', s') < t.w
    && t.Cell(k', s') == t.Y(k', s') * t.w + t.X(k', s')
    && (res[t.Cell(k', s')] ==> t.From(res, k, s + 1) == t.From(res, k', s' + 1))
    && (!res[t.Cell(k', s')] ==>
          && t.From(res, k, s + 1) != [] && t.From(res, k, s + 1)[0] == t.Cell(k', s')
          && t.From(res, k, s + 1)[1..] == t.From(res, k', s' + 1))
  }

  /** In a Micro QR symbol the walk still looks at one module of the reserved column 0. */
  ghost predicate RunsOut(t: Walk, res: seq<bool>, k: nat, s: nat, k': nat, s': nat)
    requires t.Valid() && |res| == t.w * t.w
  {
    && t.From(res, k, s + 1) == [] && t.From(res, k', s' + 1) == []
    && k' == t.Pairs() && s' == 0
    && (t.mqr ==> t.X(k', s') == 0 && 0 <= t.Y(k', s') < t.w && res[Index(t.w, 0, t.Y(k', s'))])
  }

  lemma NextStepLands(t: Walk, res: seq<bool>, k: nat, s: nat)
    requires t.Layout(res) && s < 2 * t.w
    requires k < t.Pairs() || (t.mqr && k == t.Pairs() && s == 0)
    ensures var (k', s') := NextStep(t, k, s);
            && ((k' == k && s' == s + 1) || k' == k + 1)
            && if k >= t.Pairs() then t.From(res, k, s + 1) == []
               else if k' >= t.Pairs() then RunsOut(t, res, k, s, k', s')
               else Lands(t, res, k, s, k', s')
  {
    hide Walk.From;
    var (k', s') := NextStep(t, k, s);
    if k < t.Pairs() {
      TurnAround(t, k);
      NextStepKeepsRest(t, res, k, s);
      if t.Inside(k', s') {
        FromStep(t, res, k', s');
        InRange(t, k', s');
        assert [] + t.From(res, k', s' + 1) == t.From(res, k', s' + 1);
      } else {
        FromNext(t, res, k', s');
        FromNext(t, res, k', s' + 1);
        assert t.mqr ==> t.Reserved(res, 0, t.Y(k', s'));
      }
    } else {
      FromNext(t, res, k, s + 1);
    }
  }

  lemma LayoutShape(t: Walk, res: seq<bool>)
    requires t.Layout(res)
    ensures t.Valid() && |res| == t.w * t.w
  {
  }

  lemma ColumnZero(t: Walk)
    requires t.Valid() && t.mqr
    ensures t.Right(t.Pairs()) == 0
  {
  }

  lemma ColumnBefore(t: Walk)
    requires t.Valid()
    ensures forall k: nat, s: nat | k < t.Pairs() && s < 2 * t.w :: t.X(k, s) >= 0 && t.Y(k, s) >= 0
  {
  }

  class FrameFiller {
    const width: nat
    const frame: array<byte>
    var x: int
    var y: int
    var dir: int
    var bit: int
    const mqr: bool
    ghost var pair: nat
    ghost var step: nat

    ghost function Way(): Walk { Walk(width, mqr) }

    ghost predicate Position()
      reads this
    {
      && width > 0
      && step < 2 * width
      && x == Way().X(pair, step) && y == Way().Y(pair, step)
      && dir == (if pair % 2 == 0 then -1 else 1)
      && (bit == step % 2 || (bit == -1 && pair == 0 && step == 0))
      && (pair < Way().Pairs() || (mqr && pair == Way().Pairs() && step == 0))
    }

    ghost predicate Valid()
      reads this, frame
    {
      Way().Layout(ReservedMap(frame[..])) && Position()
    }

    /** The modules not yet handed out. */
    ghost function Rest(): seq<nat>
      requires Valid()
      reads this, frame
    {
      Way().From(ReservedMap(frame[..]), pair, if bit == -1 then 0 else step + 1)
    }

    /** FrameFiller_set. */
    constructor (w: nat, f: array<byte>, mqr: bool)
      requires Walk(w, mqr).Layout(ReservedMap(f[..]))
      ensures Valid() && frame == f && width == w && this.mqr == mqr
      ensures Rest() == Walk(w, mqr).From(ReservedMap(f[..]), 0, 0)
    {
      width := w;
      frame := f;
      x := w - 1;
      y := w - 1;
      dir := -1;
      bit := -1;
      this.mqr := mqr;
      pair, step := 0, 0;
    }

    /** FrameFiller_next.  After it has returned None the filler is not to be used again. */
    method Next() returns (p: Option<nat>)
      requires Valid()
      modifies this
      ensures old(Rest()) == [] ==> p == None
      ensures old(Rest()) != [] ==> Valid() && p == Some(old(Rest())[0]) && Rest() == old(Rest())[1..]
    {
      if bit == -1 {
        ghost var t, res := Way(), ReservedMap(frame[..]);
        WalkStart(t, res);
        FirstCell(t);
        hide Walk.From; hide Walk.Cell; hide Walk.Layout;
        bit := 0;
        return Some(y * width + x);
      }
      p := Resume();
    }

    /** FrameFiller_next after the first call, which goes on over reserved modules by calling itself. */
    method Resume() returns (p: Option<nat>)
      requires Valid() && bit != -1
      modifies this
      ensures old(Rest()) == [] ==> p == None
      ensures old(Rest()) != [] ==> Valid() && p == Some(old(Rest())[0]) && Rest() == old(Rest())[1..]
      decreases Left().0, Left().1
    {
      hide *;
      var more := Advance();
      if !more {
        return None;
      }
      if frame[y * width + x] >= 128 {
        p := Resume();
      } else {
        p := Some(y * width + x);
      }
    }

    /** How far the walk can still go. */
    ghost function Left(): (nat, nat)
      requires Valid()
      reads this, frame
    {
      (Way().Pairs() + 1 - pair, 2 * width - step)
    }

    /** The next module of the walk, reserved or not; false after the last. */
    method Advance() returns (more: bool)
      requires Valid() && bit != -1
      modifies this
      ensures !more ==> old(Rest()) == []
      ensures more ==>
                && Valid() && bit != -1
                && (Left().0 < old(Left()).0 || (Left().0 == old(Left()).0 && Left().1 < old(Left()).1))
                && 0 <= y * width + x < frame.Length
                && old(Rest()) == (if frame[y * width + x] >= 128 then [] else [y * width + x]) + Rest()
    {
      hide Walk.From; hide Walk.Layout; hide Walk.Cell; hide Walk.X; hide Walk.Y; hide ReservedMap; hide NextStep;
      ghost var t, res := Way(), ReservedMap(frame[..]);
      LayoutShape(t, res);
      NextStepLands(t, res, pair, step);
      ghost var (k, s) := NextStep(t, pair, step);
      ColumnBefore(t);
      var nx, ny := Move();
      if nx < 0 || ny < 0 {
        return false;
      }
      x := nx;
      y := ny;
      pair, step := k, s;
      MapAt(frame[..], ny * width + nx);
      more := true;
    }

    /** FrameFiller_next up to its test for NULL: the column and row of the next module, negative after the last. */
    method Move() returns (nx: int, ny: int)
      requires Way().Valid() && Position() && bit != -1
      modifies this`dir, this`bit
      ensures var (k, s) := NextStep(Way(), pair, step);
              if pair >= Way().Pairs() || (!mqr && k >= Way().Pairs()) then nx < 0
              else nx == Way().X(k, s) && ny == Way().Y(k, s) && bit == s % 2 && dir == (if k % 2 == 0 then -1 else 1)
    {
      hide Walk.Right; hide Walk.Valid;
      ghost var t := Way();
      if pair < t.Pairs() {
        TurnAround(t, pair);
      } else {
        ColumnZero(t);
      }
      nx, ny := x, y;
      if bit == 0 {
        nx := nx - 1;
        bit := bit + 1;
      } else {
        nx := nx + 1;
        ny := ny + dir;
        bit := bit - 1;
      }
      if dir < 0 {
        if ny < 0 {
          ny := 0;
          nx := nx - 2;
          dir := 1;
          if !mqr && nx == 6 {
            nx := nx - 1;
            ny := 9;
          }
        }
      } else if ny == width {
        ny := width - 1;
        nx := nx - 2;
        dir := -1;
        if !mqr && nx == 6 {
          nx := nx - 1;
          ny := ny - 8;
        }
      }
    }
  }
}
