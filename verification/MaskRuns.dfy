/** Mask_calcRunLengthH and Mask_calcRunLengthV: a line of modules as a list of runs. */
module MaskRuns {
  import opened Bits
  import opened MaskScore

  // ---- there is only one decomposition ----

  lemma {:induction false} OffPrefix(s: seq<int>, t: seq<int>, i: nat)
    requires i <= |s| && i <= |t| && s[..i] == t[..i]
    ensures Off(s, i) == Off(t, i)
  {
    if i > 0 {
      assert s[i - 1] == s[..i][i - 1] == t[..i][i - 1];
      assert s[..i - 1] == s[..i][..i - 1] == t[..i][..i - 1];
      OffPrefix(s, t, i - 1);
    }
  }

  lemma {:induction false} SamePrefix(r: seq<bool>, s: seq<int>, t: seq<int>, i: nat)
    requires Decomposes(r, s) && Decomposes(r, t) && i <= |s| && i <= |t|
    ensures s[..i] == t[..i]
  {
    if i > 0 {
      SamePrefix(r, s, t, i - 1);
      OffPrefix(s, t, i - 1);
      assert s[i - 1] == t[i - 1] by {
        SameRun(r, s, t, i - 1);
      }
      assert s[..i] == s[..i - 1] + [s[i - 1]] && t[..i] == t[..i - 1] + [t[i - 1]];
    }
  }

  lemma SameRun(r: seq<bool>, s: seq<int>, t: seq<int>, i: nat)
    requires Decomposes(r, s) && Decomposes(r, t) && i < |s| && i < |t| && Off(s, i) == Off(t, i)
    ensures s[i] == t[i]
  {
    if s[i] >= 1 && t[i] >= 1 {
      RunBounds(r, s, i);
      RunBounds(r, t, i);
      hide Decomposes; hide Off;
      assert Px(r, Off(s, i)) || !Px(r, Off(s, i));
      assert Px(r, Off(s, i + 1)) || !Px(r, Off(t, i + 1));
    }
  }

  /** The list of runs is determined by the line. */
  lemma DecompositionUnique(r: seq<bool>, s: seq<int>, t: seq<int>)
    requires Decomposes(r, s) && Decomposes(r, t)
    ensures s == t
  {
    var n := if |s| <= |t| then |s| else |t|;
    SamePrefix(r, s, t, n);
    OffPrefix(s, t, n);
    if |s| < |t| {
      NoMore(r, t, n);
    } else if |t| < |s| {
      NoMore(r, s, n);
    }
    assert s == s[..n] && t == t[..n];
  }

  lemma NoMore(r: seq<bool>, t: seq<int>, n: nat)
    requires Decomposes(r, t) && 0 < n < |t|
    ensures Off(t, n) < |r|
  {
    RunBounds(r, t, n);
  }

  // ---- the loop builds it ----

  lemma FirstRun(c: bool)
    ensures Decomposes([c], if c then [-1, 1] else [1])
  {
    var runs := if c then [-1, 1] else [1];
    if c {
      assert Off([-1, 1], 1) == 0 && Off([-1, 1], 2) == 1;
    } else {
      assert Off([1], 1) == 1;
    }
  }

  /** A run that is still the same one in a longer line. */
  lemma ColourKept(r: seq<bool>, runs: seq<int>, c: bool, more: seq<int>, i: nat)
    requires i < |runs| && i < |more| && RunColour(r, runs, i)
    requires Off(more, i) == Off(runs, i) && Off(more, i + 1) == Off(runs, i + 1)
    ensures RunColour(r + [c], more, i)
  {
    hide Off;
  }

  /** One module more, of the other colour: a new run. */
  lemma RunStarts(r: seq<bool>, runs: seq<int>, c: bool)
    requires Decomposes(r, runs) && c == (|runs| % 2 == 1)
    ensures Decomposes(r + [c], runs + [1])
  {
    var more, n := runs + [1], |runs|;
    forall i | 0 <= i <= n ensures Off(more, i) == Off(runs, i) {
      OffPrefix(more, runs, i);
    }
    assert Off(more, n + 1) == |r| + 1;
    forall i | 0 <= i < |more| ensures RunColour(r + [c], more, i) {
      if i < n {
        ColourKept(r, runs, c, more, i);
      }
    }
  }

  /** One module more of the colour of the last run. */
  lemma RunGrows(r: seq<bool>, runs: seq<int>, c: bool)
    requires Decomposes(r, runs) && c == (|runs| % 2 == 0)
    ensures Decomposes(r + [c], runs[|runs| - 1 := runs[|runs| - 1] + 1])
  {
    var n := |runs| - 1;
    var more := runs[n := runs[n] + 1];
    forall i | 0 <= i <= n ensures Off(more, i) == Off(runs, i) {
      OffPrefix(more, runs, i);
    }
    assert runs[n] >= 1;
    assert Off(more, n + 1) == |r| + 1;
    forall i | 0 <= i < |more| ensures RunColour(r + [c], more, i) {
      if i < n {
        ColourKept(r, runs, c, more, i);
      } else {
        LastGrows(r, runs, c, more);
      }
    }
    assert (r + [c])[0] == r[0] && |r + [c]| == |r| + 1;
    assert if r[0] then more[0] == -1 && |more| > 1 else more[0] >= 1;
    assert forall i :: 1 <= i < |more| ==> more[i] >= 1;
    assert Off(more, |more|) == |r + [c]|;
  }

  lemma LastGrows(r: seq<bool>, runs: seq<int>, c: bool, more: seq<int>)
    requires |runs| > 0 && |more| == |runs| && c == (|runs| % 2 == 0)
    requires RunColour(r, runs, |runs| - 1) && Off(runs, |runs|) == |r|
    requires Off(more, |runs| - 1) == Off(runs, |runs| - 1) && Off(more, |runs|) == |r| + 1
    ensures RunColour(r + [c], more, |runs| - 1)
  {
    hide Off;
  }

  /** The module at place i of a line that starts at p and goes on by step. */
  function At(p: nat, step: nat, i: nat): nat {
    p + i * step
  }

  /** The line's modules, true for dark. */
  function Line(f: seq<byte>, p: nat, step: nat, n: nat): (r: seq<bool>)
    requires forall i :: 0 <= i < n ==> At(p, step, i) < |f|
    ensures |r| == n
  {
    seq(n, i requires 0 <= i < n => f[At(p, step, i)] % 2 == 1)
  }

  /** Mask_calcRunLengthH for step 1, Mask_calcRunLengthV for step width. */
  method CalcRunLength(width: nat, frame: array<byte>, p: nat, step: nat, runLength: array<int>) returns (length: nat)
    requires width > 0 && runLength.Length >= width + 1
    requires forall i :: 0 <= i < width ==> At(p, step, i) < frame.Length
    modifies runLength
    ensures 0 < length <= width + 1
    ensures Decomposes(Line(frame[..], p, step, width), runLength[..length])
  {
    hide *;
    ghost var r := Line(frame[..], p, step, width);
    LineAt(frame[..], p, step, width, 0);
    var prev := frame[At(p, step, 0)];
    var head := FirstModule(runLength, prev);
    assert r[..1] == [r[0]];
    for i := 1 to width
      invariant head <= i
      invariant Decomposes(r[..i], runLength[..head + 1])
      invariant prev % 2 == head % 2
    {
      var v := frame[At(p, step, i)];
      LineAt(frame[..], p, step, width, i);
      assert r[..i + 1] == r[..i] + [r[i]];
      head := AddModule(runLength, head, v, prev, r[..i]);
      if v % 2 != prev % 2 {
        prev := v;
      }
    }
    assert r[..width] == r;
    return head + 1;
  }

  /** Before the loop: a sentinel where the line starts with a dark module. */
  method FirstModule(runLength: array<int>, v: byte) returns (head: nat)
    requires runLength.Length >= 2
    modifies runLength
    ensures head == v % 2 && Decomposes([v % 2 == 1], runLength[..head + 1])
  {
    hide Decomposes;
    FirstRun(v % 2 == 1);
    if v % 2 == 1 {
      runLength[0] := -1;
      head := 1;
    } else {
      head := 0;
    }
    runLength[head] := 1;
    assert runLength[..head + 1] == if v % 2 == 1 then [-1, 1] else [1];
  }

  /** The body of the loop, for module v behind the modules r. */
  method AddModule(runLength: array<int>, head: nat, v: byte, prev: byte, ghost r: seq<bool>) returns (next: nat)
    requires head + 1 < runLength.Length && prev % 2 == head % 2
    requires Decomposes(r, runLength[..head + 1])
    modifies runLength
    ensures next == if v % 2 != prev % 2 then head + 1 else head
    ensures Decomposes(r + [v % 2 == 1], runLength[..next + 1])
  {
    hide Decomposes;
    ghost var runs := runLength[..head + 1];
    next := head;
    if v % 2 != prev % 2 {
      RunStarts(r, runs, v % 2 == 1);
      next := head + 1;
      runLength[next] := 1;
      assert runLength[..next + 1] == runs + [1];
    } else {
      RunGrows(r, runs, v % 2 == 1);
      runLength[head] := runLength[head] + 1;
      assert runLength[..head + 1] == runs[head := runs[head] + 1];
    }
  }

  lemma LineAt(f: seq<byte>, p: nat, step: nat, n: nat, i: nat)
    requires forall i :: 0 <= i < n ==> At(p, step, i) < |f|
    requires i < n
    ensures Line(f, p, step, n)[i] == (f[At(p, step, i)] % 2 == 1)
  {
  }
}
