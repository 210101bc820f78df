/** Scoring the lines of a masked symbol: features N1 and N3 of section 6.8.2 of ISO/IEC 18004. */
module MaskScore {

  const N1 := 3
  const N3 := 40

  // ---- the definition, module by module; true is dark ----

  /** A module of line r; those outside the symbol are light. */
  predicate Px(r: seq<bool>, p: int) {
    0 <= p < |r| && r[p]
  }

  ghost predicate AllDark(r: seq<bool>, lo: int, hi: int) {
    forall p :: lo <= p < hi ==> Px(r, p)
  }

  ghost predicate AllLight(r: seq<bool>, lo: int, hi: int) {
    forall p :: lo <= p < hi ==> !Px(r, p)
  }

  /** The ratio 1 : 1 : 3 : 1 : 1 in modules of size k, the middle from a on. */
  ghost predicate Ratio(r: seq<bool>, a: int, k: int) {
    && k >= 1
    && AllDark(r, a, a + 3 * k)
    && AllLight(r, a - k, a) && AllLight(r, a + 3 * k, a + 4 * k)
    && AllDark(r, a - 2 * k, a - k) && AllDark(r, a + 4 * k, a + 5 * k)
    && !Px(r, a - 2 * k - 1) && !Px(r, a + 5 * k)
  }

  /** A finder-like pattern k : k : 3k : k : k whose middle starts at a, with 4k light modules on one side. */
  ghost predicate Pattern(r: seq<bool>, a: int, k: int) {
    Ratio(r, a, k) && (AllLight(r, a - 6 * k, a - 2 * k) || AllLight(r, a + 5 * k, a + 9 * k))
  }

  predicate IsStart(r: seq<bool>, a: nat)
    requires a < |r|
  {
    a == 0 || r[a - 1] != r[a]
  }

  /** How many modules from a on have the colour of a. */
  function RunLen(r: seq<bool>, a: nat): nat
    requires a < |r|
    decreases |r| - a
  {
    if a + 1 < |r| && r[a + 1] == r[a] then 1 + RunLen(r, a + 1) else 1
  }

  /** The penalty of the run that starts at a. */
  ghost function RunPenalty(r: seq<bool>, a: nat): nat
    requires a < |r|
  {
    (if RunLen(r, a) >= 5 then N1 + (RunLen(r, a) - 5) else 0) + (if exists k :: Pattern(r, a, k) then N3 else 0)
  }

  /** The penalty of the runs that start before n. */
  ghost function LinePenalty(r: seq<bool>, n: nat): nat
    requires n <= |r|
  {
    if n == 0 then 0 else LinePenalty(r, n - 1) + if IsStart(r, n - 1) then RunPenalty(r, n - 1) else 0
  }

  // ---- the decomposition into runs, as runLength[] holds it ----

  /** Where run i starts; the sentinel -1 takes no room. */
  function Off(runs: seq<int>, i: nat): nat
    requires i <= |runs|
  {
    if i == 0 then 0 else Off(runs, i - 1) + if runs[i - 1] > 0 then runs[i - 1] else 0
  }

  /** The modules of run i are dark for odd i, light for even i. */
  ghost predicate RunColour(r: seq<bool>, runs: seq<int>, i: nat)
    requires i < |runs|
  {
    Off(runs, i + 1) <= |r| && forall p :: Off(runs, i) <= p < Off(runs, i + 1) ==> r[p] == (i % 2 == 1)
  }

  ghost predicate Decomposes(r: seq<bool>, runs: seq<int>) {
    && |r| > 0 && |runs| > 0
    && (if r[0] then runs[0] == -1 && |runs| > 1 else runs[0] >= 1)
    && (forall i :: 1 <= i < |runs| ==> runs[i] >= 1)
    && Off(runs, |runs|) == |r|
    && forall i :: 0 <= i < |runs| ==> RunColour(r, runs, i)
  }

  lemma {:induction false} OffMono(runs: seq<int>, i: nat, j: nat)
    requires i <= j <= |runs|
    ensures Off(runs, i) <= Off(runs, j)
  {
    if i < j {
      OffMono(runs, i, j - 1);
    }
  }

  /** Run i, and its neighbours' colours. */
  lemma RunBounds(r: seq<bool>, runs: seq<int>, i: nat)
    requires Decomposes(r, runs) && i < |runs| && runs[i] >= 1
    ensures Off(runs, i + 1) == Off(runs, i) + runs[i] <= |r|
    ensures forall p :: Off(runs, i) <= p < Off(runs, i + 1) ==> Px(r, p) == (i % 2 == 1) && p < |r|
    ensures Px(r, Off(runs, i + 1)) ==> i % 2 == 0
    ensures Off(runs, i + 1) < |r| ==> i + 1 < |runs| && Px(r, Off(runs, i + 1)) == (i % 2 == 0)
    ensures Off(runs, i) > 0 ==> i > 0 && Px(r, Off(runs, i) - 1) == (i % 2 == 0)
    ensures Off(runs, i) == 0 ==> i == 0 || (i == 1 && runs[0] == -1)
  {
    OffMono(runs, i + 1, |runs|);
    assert RunColour(r, runs, i);
    if i + 1 < |runs| {
      assert RunColour(r, runs, i + 1);
    }
    if i > 0 {
      assert RunColour(r, runs, i - 1);
      if i > 1 {
        assert runs[i - 1] >= 1;
      }
    }
  }

  lemma {:induction false} RunLenIs(r: seq<bool>, a: nat, e: nat)
    requires a < e <= |r|
    requires forall p :: a <= p < e ==> r[p] == r[a]
    requires e < |r| ==> r[e] != r[a]
    ensures RunLen(r, a) == e - a
    decreases e - a
  {
    if a + 1 < e {
      RunLenIs(r, a + 1, e);
    }
  }

  /** Inside a run no other run starts. */
  lemma {:induction false} NoStartInside(r: seq<bool>, a: nat, n: nat)
    requires a < n <= |r| && forall p :: a <= p < n ==> r[p] == r[a]
    ensures LinePenalty(r, n) == LinePenalty(r, a + 1)
  {
    if a + 1 < n {
      NoStartInside(r, a, n - 1);
    }
  }

  /** The runs up to i contribute what the runs before i and run i do. */
  lemma PenaltyOfRun(r: seq<bool>, runs: seq<int>, i: nat)
    requires Decomposes(r, runs) && i < |runs| && runs[i] >= 1
    ensures Off(runs, i) < Off(runs, i + 1) <= |r|
    ensures RunLen(r, Off(runs, i)) == runs[i]
    ensures LinePenalty(r, Off(runs, i + 1)) == LinePenalty(r, Off(runs, i)) + RunPenalty(r, Off(runs, i))
  {
    hide Decomposes; hide RunPenalty; hide Pattern;
    RunBounds(r, runs, i);
    var a, e := Off(runs, i), Off(runs, i + 1);
    assert forall p :: a <= p < e ==> r[p] == Px(r, p);
    RunLenIs(r, a, e);
    NoStartInside(r, a, e);
    assert IsStart(r, a) by {
      if a > 0 {
        assert Px(r, a - 1) == r[a - 1] && Px(r, a) == r[a];
      }
    }
  }

  // ---- the test of Mask_calcN1N3 for the finder-like pattern ----

  predicate Scores(runs: seq<int>, i: nat)
    requires i < |runs|
  {
    && i % 2 == 1 && i >= 3 && i < |runs| - 2 && runs[i] % 3 == 0
    && var fact := runs[i] / 3;
       && runs[i - 2] == fact && runs[i - 1] == fact && runs[i + 1] == fact && runs[i + 2] == fact
       && (i == 3 || runs[i - 3] >= 4 * fact || i + 4 >= |runs| || runs[i + 3] >= 4 * fact)
  }

  /** Light modules on the left of the pattern: a long run, or all there is. */
  lemma LightBefore(r: seq<bool>, runs: seq<int>, i: nat, k: int)
    requires Decomposes(r, runs) && 3 <= i < |runs| && i % 2 == 1 && k >= 1
    requires i == 3 || runs[i - 3] >= 4 * k
    ensures AllLight(r, Off(runs, i - 2) - 4 * k, Off(runs, i - 2))
  {
    if runs[i - 3] >= 1 {
      RunBounds(r, runs, i - 3);
    } else {
      assert Off(runs, 1) == 0;
    }
  }

  lemma LightAfter(r: seq<bool>, runs: seq<int>, i: nat, k: int)
    requires Decomposes(r, runs) && i % 2 == 1 && i + 2 < |runs| && k >= 1
    requires i + 4 >= |runs| || runs[i + 3] >= 4 * k
    ensures AllLight(r, Off(runs, i + 3), Off(runs, i + 3) + 4 * k)
  {
    if i + 3 < |runs| {
      RunBounds(r, runs, i + 3);
    }
  }

  /** A run as a stretch of dark or light modules. */
  lemma RunStretch(r: seq<bool>, runs: seq<int>, i: nat)
    requires Decomposes(r, runs) && i < |runs| && runs[i] >= 1
    ensures Off(runs, i + 1) == Off(runs, i) + runs[i]
    ensures i % 2 == 1 ==> AllDark(r, Off(runs, i), Off(runs, i + 1)) && !Px(r, Off(runs, i + 1)) && !Px(r, Off(runs, i) - 1)
    ensures i % 2 == 0 ==> AllLight(r, Off(runs, i), Off(runs, i + 1))
  {
    hide Decomposes; hide Off;
    RunBounds(r, runs, i);
  }

  /** Runs i - 2 to i + 2 are in the ratio. */
  ghost predicate InRatio(runs: seq<int>, i: nat, k: int) {
    && i >= 3 && i % 2 == 1 && i + 2 < |runs| && k >= 1
    && runs[i - 2] == k && runs[i - 1] == k && runs[i] == 3 * k && runs[i + 1] == k && runs[i + 2] == k
  }

  lemma RatioFromRuns(r: seq<bool>, runs: seq<int>, i: nat, k: int)
    requires Decomposes(r, runs) && InRatio(runs, i, k)
    ensures Ratio(r, Off(runs, i), k)
    ensures Off(runs, i - 2) == Off(runs, i) - 2 * k && Off(runs, i + 3) == Off(runs, i) + 5 * k
  {
    hide Decomposes; hide Off; hide Px; hide AllDark; hide AllLight;
    RunStretch(r, runs, i); RunStretch(r, runs, i - 1); RunStretch(r, runs, i - 2);
    RunStretch(r, runs, i + 1); RunStretch(r, runs, i + 2);
  }

  lemma ScoresPattern(r: seq<bool>, runs: seq<int>, i: nat)
    requires Decomposes(r, runs) && i < |runs| && Scores(runs, i)
    ensures Pattern(r, Off(runs, i), runs[i] / 3)
  {
    var k := runs[i] / 3;
    assert runs[i] >= 1;
    assert InRatio(runs, i, k);
    hide Decomposes; hide Off; hide Ratio; hide AllLight;
    RatioFromRuns(r, runs, i, k);
    if i == 3 || runs[i - 3] >= 4 * k {
      LightBefore(r, runs, i, k);
    } else {
      LightAfter(r, runs, i, k);
    }
  }

  /** Run i begins at a, has the colour of its modules up to a + n, and a + n has the other colour or lies outside. */
  lemma RunFits(r: seq<bool>, runs: seq<int>, i: nat, n: int)
    requires Decomposes(r, runs) && i < |runs| && runs[i] >= 1 && n >= 1
    requires forall p :: Off(runs, i) <= p < Off(runs, i) + n ==> Px(r, p) == (i % 2 == 1)
    requires Px(r, Off(runs, i) + n) == (i % 2 == 0)
    requires i % 2 == 0 || Off(runs, i) + n <= |r|
    ensures runs[i] == n
  {
    hide Decomposes; hide Off;
    RunBounds(r, runs, i);
  }

  lemma RunFitsBack(r: seq<bool>, runs: seq<int>, i: nat, n: int)
    requires Decomposes(r, runs) && i < |runs| && runs[i] >= 1 && n >= 1
    requires forall p :: Off(runs, i + 1) - n <= p < Off(runs, i + 1) ==> Px(r, p) == (i % 2 == 1)
    requires Px(r, Off(runs, i + 1) - n - 1) == (i % 2 == 0)
    requires Off(runs, i + 1) - n >= 0
    ensures runs[i] == n && Off(runs, i) == Off(runs, i + 1) - n
  {
    hide Decomposes; hide Off;
    RunBounds(r, runs, i);
  }

  lemma PatternOdd(r: seq<bool>, runs: seq<int>, i: nat, k: int)
    requires Decomposes(r, runs) && i < |runs| && runs[i] >= 1 && Ratio(r, Off(runs, i), k)
    ensures i % 2 == 1 && runs[i] == 3 * k
  {
    var a := Off(runs, i);
    RunBounds(r, runs, i);
    hide Decomposes; hide Off;
    assert Px(r, a);
    assert Px(r, a + 3 * k - 1);
    RunFits(r, runs, i, 3 * k);
  }

  lemma PatternRight(r: seq<bool>, runs: seq<int>, i: nat, k: int)
    requires Decomposes(r, runs) && i < |runs| && runs[i] >= 1 && Ratio(r, Off(runs, i), k)
    ensures i + 2 < |runs| && runs[i + 1] == k && runs[i + 2] == k
  {
    PatternOdd(r, runs, i, k);
    var a := Off(runs, i);
    assert Px(r, a + 4 * k) && Px(r, a + 5 * k - 1);
    NextRun(r, runs, i);
    hide Decomposes; hide Off;
    RunFits(r, runs, i + 1, k);
    NextRun(r, runs, i + 1);
    RunFits(r, runs, i + 2, k);
  }

  lemma NextRun(r: seq<bool>, runs: seq<int>, i: nat)
    requires Decomposes(r, runs) && i < |runs| && runs[i] >= 1 && Off(runs, i) + runs[i] < |r|
    ensures i + 1 < |runs| && runs[i + 1] >= 1 && Off(runs, i + 1) == Off(runs, i) + runs[i]
  {
    RunBounds(r, runs, i);
  }

  lemma PreviousRun(r: seq<bool>, runs: seq<int>, i: nat)
    requires Decomposes(r, runs) && i < |runs| && Off(runs, i) > 0
    ensures i >= 1 && runs[i - 1] >= 1
  {
  }

  lemma PatternLeft(r: seq<bool>, runs: seq<int>, i: nat, k: int)
    requires Decomposes(r, runs) && i < |runs| && runs[i] >= 1 && Ratio(r, Off(runs, i), k)
    ensures i >= 3 && runs[i - 1] == k && runs[i - 2] == k
  {
    PatternOdd(r, runs, i, k);
    var a := Off(runs, i);
    assert Px(r, a - k - 1) && Px(r, a - 2 * k);
    PreviousRun(r, runs, i);
    RunFitsBack(r, runs, i - 1, k);
    PreviousRun(r, runs, i - 1);
    hide Decomposes; hide Off;
    RunFitsBack(r, runs, i - 2, k);
  }

  lemma LongBefore(r: seq<bool>, runs: seq<int>, i: nat, n: int)
    requires Decomposes(r, runs) && 2 <= i < |runs| && i % 2 == 0 && n >= 1
    requires AllLight(r, Off(runs, i + 1) - n, Off(runs, i + 1))
    ensures runs[i] >= n
  {
    RunBounds(r, runs, i);
    hide Decomposes; hide Off;
    assert Px(r, Off(runs, i) - 1);
  }

  lemma LongAfter(r: seq<bool>, runs: seq<int>, i: nat, n: int)
    requires Decomposes(r, runs) && 1 <= i < |runs| - 1 && i % 2 == 0 && n >= 1
    requires AllLight(r, Off(runs, i), Off(runs, i) + n)
    ensures runs[i] >= n
  {
    RunBounds(r, runs, i);
    RunBounds(r, runs, i + 1);
    hide Decomposes; hide Off;
    assert Px(r, Off(runs, i + 1));
  }

  lemma PatternInRatio(r: seq<bool>, runs: seq<int>, i: nat, k: int)
    requires Decomposes(r, runs) && i < |runs| && runs[i] >= 1 && Ratio(r, Off(runs, i), k)
    ensures InRatio(runs, i, k)
  {
    hide Decomposes; hide Off; hide AllDark; hide AllLight;
    PatternOdd(r, runs, i, k); PatternLeft(r, runs, i, k); PatternRight(r, runs, i, k);
  }

  lemma InRatioScores(runs: seq<int>, i: nat, k: int)
    requires i < |runs| && InRatio(runs, i, k)
    requires i == 3 || runs[i - 3] >= 4 * k || i + 4 >= |runs| || runs[i + 3] >= 4 * k
    ensures Scores(runs, i)
  {
    assert runs[i] / 3 == k && runs[i] % 3 == 0;
  }

  lemma PatternScores(r: seq<bool>, runs: seq<int>, i: nat, k: int)
    requires Decomposes(r, runs) && i < |runs| && runs[i] >= 1 && Pattern(r, Off(runs, i), k)
    ensures Scores(runs, i)
  {
    hide Decomposes; hide Off; hide Ratio; hide AllLight; hide Scores;
    PatternInRatio(r, runs, i, k);
    RatioFromRuns(r, runs, i, k);
    if AllLight(r, Off(runs, i) - 6 * k, Off(runs, i) - 2 * k) {
      if i > 3 {
        LongBefore(r, runs, i - 3, 4 * k);
      }
    } else if i + 4 < |runs| {
      LongAfter(r, runs, i + 3, 4 * k);
    }
    InRatioScores(runs, i, k);
  }

  /** What one turn of the loop of Mask_calcN1N3 adds. */
  function RunDemerit(runs: seq<int>, i: nat): nat
    requires i < |runs|
  {
    (if runs[i] >= 5 then N1 + (runs[i] - 5) else 0) + (if Scores(runs, i) then N3 else 0)
  }

  lemma DemeritIsPenalty(r: seq<bool>, runs: seq<int>, i: nat)
    requires Decomposes(r, runs) && i < |runs|
    ensures Off(runs, i) <= Off(runs, i + 1) <= |r|
    ensures LinePenalty(r, Off(runs, i + 1)) == LinePenalty(r, Off(runs, i)) + RunDemerit(runs, i)
  {
    OffMono(runs, i + 1, |runs|);
    if runs[i] >= 1 {
      PenaltyOfRun(r, runs, i);
      hide Decomposes; hide Off; hide Pattern; hide Scores;
      var a := Off(runs, i);
      if Scores(runs, i) {
        ScoresPattern(r, runs, i);
      } else if k :| Pattern(r, a, k) {
        PatternScores(r, runs, i, k);
      }
    }
  }

  /** Mask_calcN1N3: the penalty of the line whose runs are given. */
  method CalcN1N3(length: nat, runLength: array<int>, ghost r: seq<bool>) returns (demerit: nat)
    requires length <= runLength.Length && Decomposes(r, runLength[..length])
    ensures demerit == LinePenalty(r, |r|)
  {
    ghost var runs := runLength[..length];
    assert Off(runs, 0) == 0 && LinePenalty(r, 0) == 0 && Off(runs, |runs|) == |r|;
    hide Decomposes; hide Off; hide LinePenalty;
    demerit := 0;
    for i := 0 to length
      invariant Off(runs, i) <= |r|
      invariant demerit == LinePenalty(r, Off(runs, i))
    {
      DemeritIsPenalty(r, runs, i);
      if runLength[i] >= 5 {
        demerit := demerit + N1 + (runLength[i] - 5);
      }
      if i % 2 == 1 {
        if i >= 3 && i < length - 2 && runLength[i] % 3 == 0 {
          var fact := runLength[i] / 3;
          if runLength[i - 2] == fact && runLength[i - 1] == fact
             && runLength[i + 1] == fact && runLength[i + 2] == fact {
            if i == 3 || runLength[i - 3] >= 4 * fact {
              demerit := demerit + N3;
            } else if i + 4 >= length || runLength[i + 3] >= 4 * fact {
              demerit := demerit + N3;
            }
          }
        }
      }
    }
  }
}
