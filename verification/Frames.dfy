/** Writing values into chosen modules of a frame, one after the other. */
module Frames {
  import opened Bits
  import opened FrameFiller
  import opened Snake

  ghost predicate InFrame(cells: seq<nat>, n: nat) {
    forall i :: 0 <= i < |cells| ==> cells[i] < n
  }

  /** f after vals[i] has been written to cells[i], for each i in turn. */
  function Fill(f: seq<byte>, cells: seq<nat>, vals: seq<byte>): (r: seq<byte>)
    requires |vals| <= |cells| && InFrame(cells, |f|)
    ensures |r| == |f|
  {
    if vals == [] then f
    else
      var n := |vals| - 1;
      Fill(f, cells, vals[..n])[cells[n] := vals[n]]
  }

  lemma FillSnoc(f: seq<byte>, cells: seq<nat>, vals: seq<byte>, v: byte)
    requires |vals| < |cells| && InFrame(cells, |f|)
    ensures Fill(f, cells, vals + [v]) == Fill(f, cells, vals)[cells[|vals|] := v]
  {
    var u := vals + [v];
    var n := |u| - 1;
    assert u[..n] == vals && u[n] == v;
    assert Fill(f, cells, u) == Fill(f, cells, u[..n])[cells[n] := u[n]];
  }

  /** Distinct modules keep what they were given; the others keep what they had. */
  lemma {:induction false} FillAt(f: seq<byte>, cells: seq<nat>, vals: seq<byte>, i: nat)
    requires i < |vals| <= |cells| && InFrame(cells, |f|) && Distinct(cells)
    ensures Fill(f, cells, vals)[cells[i]] == vals[i]
  {
    if i < |vals| - 1 {
      FillAt(f, cells, vals[..|vals| - 1], i);
    }
  }

  lemma {:induction false} FillElsewhere(f: seq<byte>, cells: seq<nat>, vals: seq<byte>, c: nat)
    requires |vals| <= |cells| && InFrame(cells, |f|) && c < |f|
    requires forall i :: 0 <= i < |vals| ==> cells[i] != c
    ensures Fill(f, cells, vals)[c] == f[c]
  {
    if vals != [] {
      FillElsewhere(f, cells, vals[..|vals| - 1], c);
    }
  }

  /** Values that agree with a flag pattern leave it as it is. */
  lemma {:induction false} FillKeepsMap(f: seq<byte>, cells: seq<nat>, vals: seq<byte>)
    requires |vals| <= |cells| && InFrame(cells, |f|)
    requires forall i :: 0 <= i < |vals| ==> (vals[i] >= 128 <==> f[cells[i]] >= 128)
    ensures ReservedMap(Fill(f, cells, vals)) == ReservedMap(f)
  {
    if vals != [] {
      var n := |vals| - 1;
      FillKeepsMap(f, cells, vals[..n]);
      var g := Fill(f, cells, vals[..n]);
      MapAt(f, cells[n]);
      assert ReservedMap(g[cells[n] := vals[n]]) == ReservedMap(g);
    }
  }
}
