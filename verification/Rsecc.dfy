/** The Reed-Solomon encoder: its lookup tables, its cache of generators and its shift register. */
module Rsecc {
  import opened Bits
  import opened Gf256
  import opened QrField
  import opened ReedSolomon
  import opened RsCode

  const SYMBOLS := 255
  const MIN_LENGTH := 2
  const MAX_LENGTH := 30

  /** A log, as stored in `aindex` and `generator`: the log of a nonzero byte, or SYMBOLS for zero. */
  ghost predicate IsLog(k: byte, b: byte) {
    if b == 0 then k == 255 else k < 255 && Alpha(k) == b
  }

  /** Adding logs modulo 255 multiplies. */
  lemma LogsMultiply(k: byte, a: byte, m: nat, b: byte)
    requires a != 0 && IsLog(k, a) && Alpha(m) == b
    ensures Alpha((k + m) % 255) == Times(a, b)
  {
    hide Alpha; hide Times;
    AlphaAdd(k, m);
    Alpha255();
    AlphaMultiple(255, (k + m) / 255, (k + m) % 255);
  }

  /** Doubling, with the reduction where bit 8 comes out set, steps to the next power. */
  lemma AlphaDouble(i: nat)
    ensures var b := 2 * Alpha(i);
            Alpha(i + 1) == (if b / 256 % 2 == 1 then Xor(b, PROOT) else b) % 256
  {
    hide Xor;
    if Alpha(i) >= 128 {
      XTimeBound(Alpha(i), PROOT);
    }
  }

  /** The file's static variables. */
  class Encoder {
    var initialized: bool
    const alpha: array<byte>
    const aindex: array<byte>
    const generator: array2<byte>
    const generatorInitialized: array<bool>

    ghost predicate Shape()
      reads this
    {
      && alpha.Length == 256 && aindex.Length == 256
      && generator.Length0 == 29 && generator.Length1 == 31
      && generatorInitialized.Length == 29
      && alpha != aindex
    }

    ghost predicate Tables()
      requires Shape()
      reads this, alpha, aindex
    {
      && alpha[255] == 0
      && (forall i :: 0 <= i < 255 ==> alpha[i] == Alpha(i))
      && (forall b: byte :: IsLog(aindex[b], b))
    }

    ghost predicate Cached(n: nat)
      requires Shape() && MIN_LENGTH <= n <= MAX_LENGTH
      reads this, generator
    {
      forall i :: 0 <= i <= n ==> IsLog(generator[n - MIN_LENGTH, i], GenCoef(n, i))
    }

    ghost predicate Valid()
      reads this, alpha, aindex, generator, generatorInitialized
    {
      && Shape()
      && (initialized ==> Tables())
      && (initialized ==>
            forall n :: MIN_LENGTH <= n <= MAX_LENGTH && generatorInitialized[n - MIN_LENGTH] ==> Cached(n))
    }

    ghost function Repr(): set<object>
      reads this
    {
      {this, alpha, aindex, generator, generatorInitialized}
    }

    /** The state in which the program starts. */
    constructor ()
      ensures Valid() && !initialized
      ensures fresh(Repr())
    {
      alpha := new byte[256](_ => 0);
      aindex := new byte[256](_ => 0);
      generator := new byte[29, 31]((_, _) => 0);
      generatorInitialized := new bool[29](_ => false);
      initialized := false;
    }

    method InitLookupTable()
      requires Shape()
      modifies alpha, aindex
      ensures Tables()
    {
      hide Alpha; hide Xor;
      alpha[SYMBOLS] := 0;
      aindex[0] := SYMBOLS;
      var b: nat := 1;
      AlphaZero();
      for i: nat := 0 to SYMBOLS
        invariant b == Alpha(i)
        invariant alpha[255] == 0 && aindex[0] == 255
        invariant forall j :: 0 <= j < i ==> alpha[j] == Alpha(j)
        invariant forall j :: 0 <= j < i ==> aindex[Alpha(j)] == j
      {
        AlphaNonzero(i);
        forall j | 0 <= j < i ensures Alpha(j) != b {
          AlphaInjective(j, i);
        }
        alpha[i] := b;
        aindex[b] := i;
        b := 2 * b;
        AlphaDouble(i);
        if b / 256 % 2 == 1 {
          b := Xor(b, PROOT);
        }
        b := b % 256;
      }
      forall b: byte ensures IsLog(aindex[b], b) {
        if b != 0 {
          var k := LogExists(b);
        }
      }
    }

    method Init()
      requires Shape()
      modifies this`initialized, alpha, aindex, generatorInitialized
      ensures Valid() && initialized
    {
      hide Alpha;
      InitLookupTable();
      forall i | 0 <= i < 29 {
        generatorInitialized[i] := false;
      }
      initialized := true;
    }

    /** alpha[(aindex[a] + k) % symbols]: the product of a nonzero byte and the k-th power of x. */
    method TimesPower(a: byte, k: nat) returns (r: byte)
      requires Shape() && Tables() && a != 0
      ensures r == Times(a, Alpha(k))
    {
      hide Alpha; hide Times;
      LogsMultiply(aindex[a], a, k, Alpha(k));
      r := alpha[(aindex[a] + k) % SYMBOLS];
    }

    method GeneratorInit(length: nat)
      requires Valid() && initialized && MIN_LENGTH <= length <= MAX_LENGTH
      modifies generator, generatorInitialized
      ensures Valid() && generatorInitialized[length - MIN_LENGTH]
    {
      hide Alpha; hide Times; hide Xor;
      var g := new byte[31](_ => 0);
      g[0] := 1;
      GenMonic(0);
      for i := 0 to length
        modifies g
        invariant forall k :: 0 <= k <= i ==> g[k] == GenCoef(i, k)
      {
        MultiplyByFactor(g, i);
      }
      assert forall n :: MIN_LENGTH <= n <= MAX_LENGTH && generatorInitialized[n - MIN_LENGTH] ==> Cached(n);
      StoreLogs(g, length);
      generatorInitialized[length - MIN_LENGTH] := true;
      forall n | MIN_LENGTH <= n <= MAX_LENGTH && generatorInitialized[n - MIN_LENGTH] ensures Cached(n) {
      }
    }

    /** The last loop of generator_init: one row of logs, the other rows as they were. */
    method StoreLogs(g: array<byte>, length: nat)
      requires Shape() && Tables() && MIN_LENGTH <= length <= MAX_LENGTH
      requires g.Length == 31 && forall k :: 0 <= k <= length ==> g[k] == GenCoef(length, k)
      modifies generator
      ensures Cached(length)
      ensures forall n :: MIN_LENGTH <= n <= MAX_LENGTH && n != length && old(Cached(n)) ==> Cached(n)
    {
      hide Alpha; hide Times; hide Xor; hide GenCoef;
      for k := 0 to length + 1
        invariant forall i :: 0 <= i < k ==> IsLog(generator[length - MIN_LENGTH, i], GenCoef(length, i))
        invariant forall m, i :: 0 <= m < 29 && 0 <= i < 31 && m != length - MIN_LENGTH
                                 ==> generator[m, i] == old(generator[m, i])
      {
        generator[length - MIN_LENGTH, k] := aindex[g[k]];
      }
    }

    /** The body of the outer loop: g, of degree i, times (x + alpha^i). */
    method MultiplyByFactor(g: array<byte>, i: nat)
      requires Shape() && Tables() && i < 30
      requires g.Length == 31 && g != alpha && g != aindex
      requires forall k :: 0 <= k <= i ==> g[k] == GenCoef(i, k)
      modifies g
      ensures forall k :: 0 <= k <= i + 1 ==> g[k] == GenCoef(i + 1, k)
    {
      hide Alpha; hide Times; hide Xor; hide GenCoef;
      g[i + 1] := 1;
      GenMonic(i + 1);
      for j := i downto 0
        invariant forall k :: 0 <= k <= j ==> g[k] == GenCoef(i, k)
        invariant forall k :: j < k <= i + 1 ==> g[k] == GenCoef(i + 1, k)
      {
        CoefficientsNonzero(i, j + 1);
        var t := TimesPower(g[j + 1], i);
        GenCoefStep(i, j + 1);
        g[j + 1] := XorB(g[j], t);
      }
      CoefficientsNonzero(i, 0);
      var t := TimesPower(g[0], i);
      GenCoefStep(i, 0);
      GenCoefNegative(i);
      XorZero(t);
      g[0] := t;
    }

    /**
     RSECC_encode, with each pointer as an array and an offset.  A length below 2 indexes outside
     `generatorInitialized` and is the caller's error; one above 30 is reported.
     */
    method Encode(dataLength: nat, eccLength: nat, data: array<byte>, dp: nat, ecc: array<byte>, ep: nat)
      returns (ret: int)
      requires Valid() && eccLength >= MIN_LENGTH
      requires dp + dataLength <= data.Length && ep + eccLength <= ecc.Length
      requires data != ecc && {data, ecc} !! Repr()
      modifies this`initialized, alpha, aindex, generator, generatorInitialized, ecc
      ensures Valid()
      ensures eccLength > MAX_LENGTH ==> ret == -1 && ecc[..] == old(ecc[..])
      ensures eccLength <= MAX_LENGTH ==>
        && ret == 0
        && ecc[..] == old(ecc[..ep]) + Ecc(data[dp..dp + dataLength], eccLength) + old(ecc[ep + eccLength..])
    {
      hide Ecc;
      if !initialized {
        Init();
      }
      if eccLength > MAX_LENGTH {
        return -1;
      }
      forall k | ep <= k < ep + eccLength {
        ecc[k] := 0;
      }
      if !generatorInitialized[eccLength - MIN_LENGTH] {
        GeneratorInit(eccLength);
      }
      Divide(dataLength, eccLength, data, dp, ecc, ep);
      return 0;
    }

    /** The encoding loop: all data bytes through a register of zeros. */
    method Divide(dataLength: nat, n: nat, data: array<byte>, dp: nat, ecc: array<byte>, ep: nat)
      requires Shape() && Tables() && MIN_LENGTH <= n <= MAX_LENGTH && Cached(n)
      requires dp + dataLength <= data.Length && ep + n <= ecc.Length
      requires data != ecc && ecc != alpha && ecc != aindex
      requires forall k :: ep <= k < ep + n ==> ecc[k] == 0
      modifies ecc
      ensures ecc[ep..ep + n] == Ecc(data[dp..dp + dataLength], n)
      ensures ecc[..ep] == old(ecc[..ep]) && ecc[ep + n..] == old(ecc[ep + n..])
    {
      hide *;
      EccNil(n);
      ZerosAre(ecc[ep..ep + n]);
      assert data[dp..dp + 0] == [];
      for i: nat := 0 to dataLength
        invariant ecc[ep..ep + n] == Ecc(data[dp..dp + i], n)
        invariant ecc[..ep] == old(ecc[..ep]) && ecc[ep + n..] == old(ecc[ep + n..])
      {
        ShiftIn(data[dp + i], ecc, ep, n);
        EccSnoc(data[dp..dp + i], data[dp + i], n);
        assert data[dp..dp + i + 1] == data[dp..dp + i] + [data[dp + i]];
      }
    }

    lemma LogAt(b: byte)
      requires Shape() && Tables()
      ensures SYMBOLS == 255 && MIN_LENGTH == 2 && aindex.Length == 256
      ensures IsLog(aindex[b], b) && (aindex[b] == 255 <==> b == 0)
    {
      hide Alpha;
    }

    /** The body of the encoding loop: one data byte through the register ecc[ep..ep+n]. */
    method ShiftIn(d: byte, ecc: array<byte>, ep: nat, n: nat)
      requires Shape() && Tables() && MIN_LENGTH <= n <= MAX_LENGTH && Cached(n)
      requires ep + n <= ecc.Length && ecc != alpha && ecc != aindex
      modifies ecc
      ensures ecc[ep..ep + n] == Shift(old(ecc[ep..ep + n]), d)
      ensures ecc[..ep] == old(ecc[..ep]) && ecc[ep + n..] == old(ecc[ep + n..])
    {
      hide *;
      LogAt(0);
      ghost var r := ecc[ep..ep + n];
      ghost var f := XorB(d, r[0]);
      LogAt(f);
      var feedback := aindex[XorB(d, ecc[ep])];
      if feedback != SYMBOLS {
        AddGenerator(feedback, f, r, ecc, ep, n);
      }
      ghost var g := ecc[ep..ep + n];
      MoveDown(ecc, ep, n);
      assert ecc[ep..ep + n - 1] == g[1..];
      var last: byte := 0;
      if feedback != SYMBOLS {
        last := Feedback(feedback, f, n, 0);
        ShiftWith(r, d, g, last);
      } else {
        ShiftWithout(r, d);
      }
      PutLast(ecc, ep, n, last);
    }

    /** The inner loop: the feedback times the generator, added to all cells but the first. */
    method AddGenerator(feedback: byte, ghost f: byte, ghost r: seq<byte>, ecc: array<byte>, ep: nat, n: nat)
      requires Shape() && Tables() && MIN_LENGTH <= n <= MAX_LENGTH && Cached(n)
      requires feedback != 255 && IsLog(feedback, f)
      requires ep + n <= ecc.Length && ecc != alpha && ecc != aindex && r == ecc[ep..ep + n]
      modifies ecc
      ensures ecc[ep..ep + n] == Fed(r, f)
      ensures ecc[..ep] == old(ecc[..ep]) && ecc[ep + n..] == old(ecc[ep + n..])
    {
      hide *;
      LogAt(0);
      FedAt(r, f, 0);
      for j := 1 to n
        invariant ecc[ep..ep + n] == Fed(r, f)[..j] + r[j..]
        invariant ecc[..ep] == old(ecc[..ep]) && ecc[ep + n..] == old(ecc[ep + n..])
      {
        var t := Feedback(feedback, f, n, n - j);
        FedAt(r, f, j);
        ghost var before := ecc[ep..ep + n];
        assert ecc[ep + j] == before[j] == r[j];
        ecc[ep + j] := XorB(ecc[ep + j], t);
        assert ecc[ep..ep + n] == before[j := Fed(r, f)[j]];
      }
    }

    /** alpha[(feedback + gen[k]) % symbols]. */
    method Feedback(feedback: byte, ghost f: byte, n: nat, k: nat) returns (t: byte)
      requires Shape() && Tables() && MIN_LENGTH <= n <= MAX_LENGTH && Cached(n) && k <= n
      requires feedback != 255 && IsLog(feedback, f)
      ensures t == Times(f, GenCoef(n, k))
    {
      hide Alpha; hide Times; hide GenCoef;
      CoefficientsNonzero(n, k);
      var gen := generator[n - MIN_LENGTH, k];
      LogsMultiply(feedback, f, gen, GenCoef(n, k));
      t := alpha[(feedback + gen) % SYMBOLS];
    }
  }

  lemma ZerosAre(s: seq<byte>)
    requires forall k :: 0 <= k < |s| ==> s[k] == 0
    ensures s == Zeros(|s|)
  {
  }

  /** The memmove of RSECC_encode. */
  method MoveDown(ecc: array<byte>, ep: nat, n: nat)
    requires 0 < n && ep + n <= ecc.Length
    modifies ecc
    ensures ecc[ep..ep + n - 1] == old(ecc[ep + 1..ep + n])
    ensures ecc[..ep] == old(ecc[..ep]) && ecc[ep + n..] == old(ecc[ep + n..])
  {
    forall k | ep <= k < ep + n - 1 {
      ecc[k] := ecc[k + 1];
    }
  }

  /** Its last cell. */
  method PutLast(ecc: array<byte>, ep: nat, n: nat, v: byte)
    requires 0 < n && ep + n <= ecc.Length
    modifies ecc
    ensures ecc[ep..ep + n] == old(ecc[ep..ep + n - 1]) + [v]
    ensures ecc[..ep] == old(ecc[..ep]) && ecc[ep + n..] == old(ecc[ep + n..])
  {
    ecc[ep + n - 1] := v;
    assert ecc[ep..ep + n] == ecc[ep..ep + n - 1] + [v];
  }

  /** The register r with f times the generator added to all cells but the first. */
  ghost function Fed(r: seq<byte>, f: byte): (s: seq<byte>)
    ensures |s| == |r|
  {
    seq<byte>(|r|, k requires 0 <= k < |r| => if k == 0 then r[0] else XorB(r[k], Times(f, GenCoef(|r|, |r| - k))))
  }

  lemma FedAt(r: seq<byte>, f: byte, k: nat)
    requires k < |r|
    ensures Fed(r, f)[k] == if k == 0 then r[0] else XorB(r[k], Times(f, GenCoef(|r|, |r| - k)))
  {
    hide XorB; hide Times; hide GenCoef;
  }

  /** The register after a byte that leaves a nonzero feedback. */
  lemma ShiftWith(r: seq<byte>, d: byte, g: seq<byte>, t: byte)
    requires 0 < |r| == |g|
    requires g == Fed(r, XorB(d, r[0]))
    requires t == Times(XorB(d, r[0]), GenCoef(|r|, 0))
    ensures g[1..] + [t] == Shift(r, d)
  {
    hide *;
    forall j: nat | j < |r| ensures (g[1..] + [t])[j] == Shift(r, d)[j] {
      ShiftWithAt(r, d, j);
      if j + 1 < |r| {
        assert g[1..][j] == g[j + 1];
      }
    }
  }

  lemma ShiftWithAt(r: seq<byte>, d: byte, j: nat)
    requires j < |r|
    ensures Shift(r, d)[j]
            == if j + 1 < |r| then Fed(r, XorB(d, r[0]))[j + 1] else Times(XorB(d, r[0]), GenCoef(|r|, 0))
  {
    hide *;
    ShiftAt(r, d, j);
    if j + 1 < |r| {
      FedAt(r, XorB(d, r[0]), j + 1);
      assert |r| - (j + 1) == |r| - 1 - j;
    } else {
      ZeroXor(Times(XorB(d, r[0]), GenCoef(|r|, 0)));
    }
  }

  lemma ZeroXor(t: byte)
    ensures XorB(0, t) == t && XorB(t, 0) == t
  {
    hide Xor;
    XorZero(t);
  }

  /** The register after a byte that leaves none. */
  lemma ShiftWithout(r: seq<byte>, d: byte)
    requires 0 < |r| && XorB(d, r[0]) == 0
    ensures r[1..] + [0] == Shift(r, d)
  {
    hide *;
    var n := |r|;
    forall j: nat | j < n ensures (r[1..] + [0])[j] == Shift(r, d)[j] {
      ShiftAt(r, d, j);
      TimesNonzero(0, GenCoef(n, n - 1 - j));
      ZeroXor(if j + 1 < n then r[j + 1] else 0);
    }
  }

  lemma ShiftAt(r: seq<byte>, d: byte, j: nat)
    requires j < |r|
    ensures Shift(r, d)[j]
            == XorB(if j + 1 < |r| then r[j + 1] else 0, Times(XorB(d, r[0]), GenCoef(|r|, |r| - 1 - j)))
  {
    hide XorB; hide Times; hide GenCoef;
  }

  lemma EccNil(n: nat)
    ensures Ecc([], n) == Zeros(n)
  {
  }

  lemma EccSnoc(data: seq<byte>, d: byte, n: nat)
    ensures Ecc(data + [d], n) == Shift(Ecc(data, n), d)
  {
    hide Shift;
    assert (data + [d])[..|data|] == data;
  }
}
