/** Numbers as strings of bits, most significant bit first. */
module BitString {
  import opened Arith
  import opened Bits

  type bit = b: nat | b < 2

  /** The lowest n bits of v. */
  function NumBits(n: nat, v: nat): (r: seq<bit>)
    ensures |r| == n
  {
    if n == 0 then [] else NumBits(n - 1, v / 2) + [v % 2]
  }

  function Value(bits: seq<bit>): nat {
    if bits == [] then 0 else 2 * Value(bits[..|bits| - 1]) + bits[|bits| - 1]
  }

  lemma ValueSnoc(bits: seq<bit>, b: bit)
    ensures Value(bits + [b]) == 2 * Value(bits) + b
  {
    assert (bits + [b])[..|bits|] == bits;
  }

  lemma {:induction false} ValueOfNum(n: nat, v: nat)
    requires v < Pow2(n)
    ensures Value(NumBits(n, v)) == v
  {
    if n > 0 {
      ValueOfNum(n - 1, v / 2);
      assert NumBits(n, v)[..n - 1] == NumBits(n - 1, v / 2);
    }
  }

  lemma {:induction false} NumOfValue(bits: seq<bit>)
    ensures Value(bits) < Pow2(|bits|)
    ensures NumBits(|bits|, Value(bits)) == bits
  {
    if bits != [] {
      NumOfValue(bits[..|bits| - 1]);
      assert bits == bits[..|bits| - 1] + [bits[|bits| - 1]];
    }
  }

  /** Bit j from the front, by shifting as the source does. */
  lemma {:induction false} NumBitsAt(n: nat, v: nat, j: nat)
    requires j < n
    ensures NumBits(n, v)[j] == v / Pow2(n - 1 - j) % 2
    decreases n
  {
    if j < n - 1 {
      NumBitsAt(n - 1, v / 2, j);
      HalfThenDivide(v, n - 2 - j);
    }
  }

  lemma HalfThenDivide(v: nat, k: nat)
    ensures v / 2 / Pow2(k) == v / Pow2(k + 1)
  {
    var p := Pow2(k);
    var q, r := v / 2 / p, v / 2 % p;
    assert v / 2 == q * p + r;
    assert v == q * (2 * p) + (2 * r + v % 2);
    DivMod(2 * p, q, 2 * r + v % 2);
  }

  function ByteBits(b: byte): (r: seq<bit>)
    ensures |r| == 8
  {
    NumBits(8, b)
  }

  function BytesBits(s: seq<byte>): (r: seq<bit>)
    ensures |r| == 8 * |s|
  {
    if s == [] then [] else BytesBits(s[..|s| - 1]) + ByteBits(s[|s| - 1])
  }

  function PackByte(bits: seq<bit>): byte
    requires |bits| == 8
  {
    NumOfValue(bits); Value(bits)
  }

  /** Groups of eight bits as bytes. */
  function Pack(bits: seq<bit>): (r: seq<byte>)
    requires |bits| % 8 == 0
    ensures |r| == |bits| / 8
  {
    if bits == [] then [] else Pack(bits[..|bits| - 8]) + [PackByte(bits[|bits| - 8..])]
  }

  lemma PackByteRestores(b: byte)
    ensures PackByte(ByteBits(b)) == b
  {
    hide NumBits; hide Value;
    assert Pow2(8) == 256;
    ValueOfNum(8, b);
  }

  lemma BitsOfPackByte(bits: seq<bit>)
    requires |bits| == 8
    ensures ByteBits(PackByte(bits)) == bits
  {
    hide NumBits; hide Value;
    NumOfValue(bits);
  }

  lemma PackNil()
    ensures BytesBits([]) == [] && Pack([]) == []
  {
  }

  lemma LastBits(s: seq<byte>)
    requires s != []
    ensures BytesBits(s) == BytesBits(s[..|s| - 1]) + ByteBits(s[|s| - 1])
  {
    hide ByteBits;
  }

  lemma PackSnoc(bits: seq<bit>, last: seq<bit>)
    requires |bits| % 8 == 0 && |last| == 8
    ensures Pack(bits + last) == Pack(bits) + [PackByte(last)]
    ensures PackByte(last) == Value(last)
  {
    hide Value;
    var all := bits + last;
    assert all[..|all| - 8] == bits && all[|all| - 8..] == last;
  }

  lemma {:induction false} PackRestores(s: seq<byte>)
    ensures Pack(BytesBits(s)) == s
  {
    hide *;
    if s == [] {
      PackNil();
    } else {
      var front, b := s[..|s| - 1], s[|s| - 1];
      PackRestores(front);
      PackByteRestores(b);
      LastBits(s);
      PackSnoc(BytesBits(front), ByteBits(b));
      assert s == front + [b];
    }
  }

  lemma {:induction false} BitsOfPack(bits: seq<bit>)
    requires |bits| % 8 == 0
    ensures BytesBits(Pack(bits)) == bits
  {
    hide *;
    if bits == [] {
      PackNil();
    } else {
      var front, last := bits[..|bits| - 8], bits[|bits| - 8..];
      BitsOfPack(front);
      BitsOfPackByte(last);
      PackSnoc(front, last);
      BytesBitsSnoc(Pack(front), PackByte(last));
      assert bits == front + last;
    }
  }

  lemma BytesBitsSnoc(s: seq<byte>, b: byte)
    ensures BytesBits(s + [b]) == BytesBits(s) + ByteBits(b)
  {
    hide ByteBits;
    assert (s + [b])[..|s|] == s;
  }

  lemma {:induction false} BytesBitsConcat(s: seq<byte>, t: seq<byte>)
    ensures BytesBits(s + t) == BytesBits(s) + BytesBits(t)
  {
    if t == [] {
      assert s + t == s;
    } else {
      var front := t[..|t| - 1];
      assert (s + t)[..|s + t| - 1] == s + front;
      BytesBitsConcat(s, front);
    }
  }

  /** Bit j of a byte as C's loops test it, with a mask that moves down from 0x80. */
  lemma ByteBitAt(b: byte, j: nat)
    requires j < 8
    ensures ByteBits(b)[j] == if b / Pow2(7 - j) % 2 == 1 then 1 else 0
    ensures j + 1 < 8 ==> Pow2(7 - j) / 2 == Pow2(7 - (j + 1))
  {
    hide NumBits; hide Pow2;
    NumBitsAt(8, b, j);
    if j + 1 < 8 {
      HalfPow2(7 - j);
    }
  }

  lemma FirstMask()
    ensures Pow2(7) == 0x80
  {
  }
}
