/** BitStream: a growing buffer with one bit in each byte. */
module BitStream {
  import opened Arith
  import opened Bits
  import opened BitString
  import opened Wrappers

  const DEFAULT_BUFSIZE: nat := 128

  /** The bits followed by as many zeros as fill the last byte. */
  function Padded(bits: seq<bit>): (r: seq<bit>)
    ensures |r| % 8 == 0
  {
    bits + Zeros((8 - |bits| % 8) % 8)
  }

  class BitStream {
    var length: nat
    var datasize: nat
    var data: array<byte>

    ghost predicate Valid()
      reads this, data
    {
      && length <= datasize == data.Length && 0 < datasize
      && forall i :: 0 <= i < length ==> data[i] < 2
    }

    ghost function Contents(): (r: seq<bit>)
      requires Valid()
      reads this, data
    {
      data[..length]
    }

    constructor ()
      ensures Valid() && Contents() == [] && datasize == DEFAULT_BUFSIZE && fresh(data)
    {
      length := 0;
      datasize := DEFAULT_BUFSIZE;
      data := new byte[DEFAULT_BUFSIZE](_ => 0);
    }

    /** BitStream_expand: twice the room, the same bits. */
    method Expand()
      requires Valid()
      modifies this`data, this`datasize
      ensures Valid() && fresh(data) && datasize == 2 * old(datasize)
      ensures Contents() == old(Contents())
    {
      var old_data := data;
      var bigger := new byte[2 * datasize](_ => 0);
      forall i | 0 <= i < old_data.Length {
        bigger[i] := old_data[i];
      }
      data := bigger;
      datasize := datasize * 2;
    }

    /** The loop before every write: room for n more bits. */
    method MakeRoom(n: nat)
      requires Valid()
      modifies this`data, this`datasize
      ensures Valid() && (data == old(data) || fresh(data)) && length + n <= datasize
      ensures Contents() == old(Contents())
    {
      while datasize - length < n
        invariant Valid() && (data == old(data) || fresh(data))
        invariant Contents() == old(Contents())
        decreases n - (datasize - length)
      {
        Expand();
      }
    }

    lemma Shape()
      requires Valid()
      ensures length <= datasize == data.Length && 0 < datasize && Contents() == data[..length]
    {
    }

    lemma StillValid(bits: seq<bit>)
      requires length <= datasize == data.Length && 0 < datasize && data[..length] == bits
      ensures Valid() && Contents() == bits
    {
      forall i | 0 <= i < length ensures data[i] < 2 {
        assert data[i] == bits[i];
      }
    }

    /** BitStream_append.  The argument may be the stream itself. */
    method Append(arg: BitStream)
      requires Valid() && arg.Valid() && (arg == this || arg.data != data)
      modifies this, data
      ensures Valid() && (data == old(data) || fresh(data))
      ensures Contents() == old(Contents()) + old(arg.Contents())
      ensures arg != this ==> arg.Valid() && arg.Contents() == old(arg.Contents())
    {
      hide *;
      ghost var mine, more := Contents(), arg.Contents();
      arg.Shape();
      if arg.length == 0 {
        assert mine + more == mine;
        return;
      }
      MakeRoom(arg.length);
      CopyFrom(arg);
      Extend(arg.length, more);
    }

    /** The memcpy of BitStream_append. */
    method CopyFrom(arg: BitStream)
      requires Valid() && arg.Valid() && (arg == this || arg.data != data) && length + arg.length <= datasize
      modifies data
      ensures Valid() && Contents() == old(Contents())
      ensures data[length..length + arg.length] == old(arg.Contents())
    {
      hide *;
      Shape();
      arg.Shape();
      ghost var bits, more, n := Contents(), arg.Contents(), arg.length;
      assert arg.data[..n] == more;
      Memcpy(data, length, arg.data, arg.length);
      assert data[length..length + n] == more && data[..length] == bits;
      StillValid(bits);
    }

    /** The last line of every append: the n bits written behind the contents become part of them. */
    method Extend(n: nat, ghost more: seq<bit>)
      requires Valid() && length + n <= datasize && data[length..length + n] == more
      modifies this`length
      ensures Valid() && Contents() == old(Contents()) + more
    {
      forall i | length <= i < length + n ensures data[i] < 2 {
        assert data[i] == more[i - length];
      }
      length := length + n;
    }

    /** BitStream_appendNum, with a 32-bit number; more than 32 bits would shift a 1 out of the mask. */
    method AppendNum(bits: nat, num: nat)
      requires Valid() && bits <= 32 && num < 0x1_0000_0000
      modifies this, data
      ensures Valid() && (data == old(data) || fresh(data))
      ensures Contents() == old(Contents()) + NumBits(bits, num)
    {
      if bits == 0 {
        assert Contents() == old(Contents()) + NumBits(0, num);
        return;
      }
      MakeRoom(bits);
      WriteNum(bits, num);
      Extend(bits, NumBits(bits, num));
    }

    method WriteNum(bits: nat, num: nat)
      requires Valid() && 0 < bits && length + bits <= datasize
      modifies data
      ensures Valid() && Contents() == old(Contents())
      ensures data[length..length + bits] == NumBits(bits, num)
    {
      hide Pow2; hide NumBits;
      var mask := Pow2(bits - 1);
      for i := 0 to bits
        invariant i < bits ==> mask == Pow2(bits - 1 - i)
        invariant forall k :: 0 <= k < length ==> data[k] == old(data[k])
        invariant forall k :: 0 <= k < i ==> data[length + k] == NumBits(bits, num)[k]
      {
        NumBitsAt(bits, num, i);
        if num / mask % 2 == 1 {
          data[length + i] := 1;
        } else {
          data[length + i] := 0;
        }
        if i + 1 < bits {
          HalfPow2(bits - 1 - i);
        }
        mask := mask / 2;
      }
    }

    /** BitStream_appendBytes. */
    method AppendBytes(size: nat, bytes: array<byte>)
      requires Valid() && size <= bytes.Length && bytes != data
      modifies this, data
      ensures Valid() && (data == old(data) || fresh(data))
      ensures Contents() == old(Contents()) + BytesBits(bytes[..size])
    {
      if size == 0 {
        assert Contents() == old(Contents()) + BytesBits(bytes[..0]);
        return;
      }
      MakeRoom(8 * size);
      WriteBytes(size, bytes);
      Extend(8 * size, BytesBits(bytes[..size]));
    }

    method WriteBytes(size: nat, bytes: array<byte>)
      requires Valid() && size <= bytes.Length && bytes != data && length + 8 * size <= datasize
      modifies data
      ensures Valid() && Contents() == old(Contents())
      ensures data[length..length + 8 * size] == BytesBits(bytes[..size])
    {
      hide *;
      Shape();
      NoBytes(bytes[..]);
      ghost var bits := Contents();
      var p := length;
      for i := 0 to size
        invariant p == length + 8 * i
        invariant data[..length] == bits
        invariant data[length..p] == BytesBits(bytes[..i])
      {
        ghost var before := data[..p];
        WriteByte(p, bytes[i]);
        assert data[..p] == before;
        assert data[..length] == before[..length] && data[length..p] == before[length..];
        BytesBitsSnoc(bytes[..i], bytes[i]);
        assert bytes[..i + 1] == bytes[..i] + [bytes[i]];
        assert data[length..p + 8] == data[length..p] + data[p..p + 8];
        p := p + 8;
      }
      StillValid(bits);
    }

    /** The inner loop of BitStream_writeBytes. */
    method WriteByte(p: nat, b: byte)
      requires p + 8 <= data.Length
      modifies data
      ensures data[p..p + 8] == ByteBits(b)
      ensures forall k :: 0 <= k < p || p + 8 <= k < data.Length ==> data[k] == old(data[k])
    {
      hide *;
      FirstMask();
      var mask := 0x80;
      for j := 0 to 8
        invariant j < 8 ==> mask == Pow2(7 - j)
        invariant forall k :: 0 <= k < p || p + 8 <= k < data.Length ==> data[k] == old(data[k])
        invariant forall k :: 0 <= k < j ==> data[p + k] == ByteBits(b)[k]
      {
        ByteBitAt(b, j);
        if b / mask % 2 == 1 {
          data[p + j] := 1;
        } else {
          data[p + j] := 0;
        }
        mask := mask / 2;
      }
    }

    /** The loop that shifts n bits, from bit p on, into a byte. */
    method Gather(p: nat, n: nat) returns (v: byte)
      requires Valid() && p + n <= length && n <= 8
      ensures v == Value(Contents()[p..p + n]) < Pow2(n)
    {
      hide *;
      Shape();
      ghost var bits := Contents();
      ValueNil();
      assert bits[p..p + 0] == [];
      v := 0;
      for j := 0 to n
        invariant v == Value(bits[p..p + j]) < Pow2(j)
      {
        Pow2Mono(j + 1, 8);
        RoomForBit(j, v);
        ValueSnoc(bits[p..p + j], bits[p + j]);
        assert bits[p..p + j + 1] == bits[p..p + j] + [bits[p + j]];
        v := 2 * v % 256 + data[p + j];
      }
    }

    /** The first loop of BitStream_toByte: the whole bytes. */
    method PackWhole(out: array<byte>, bytes: nat)
      requires Valid() && 8 * bytes <= length && bytes <= out.Length && out != data
      modifies out
      ensures out[..bytes] == Pack(Contents()[..8 * bytes])
    {
      hide Pack; hide Value; hide PackByte;
      ghost var bits := Contents();
      PackNil();
      assert bits[..8 * 0] == [];
      for i := 0 to bytes
        invariant out[..i] == Pack(bits[..8 * i])
      {
        var v := Gather(8 * i, 8);
        PackSnoc(bits[..8 * i], bits[8 * i..8 * i + 8]);
        assert bits[..8 * (i + 1)] == bits[..8 * i] + bits[8 * i..8 * i + 8];
        out[i] := v;
        assert out[..i + 1] == out[..i] + [v];
      }
    }

    /** BitStream_toByte: nothing for an empty stream, else the packed bytes. */
    method ToByte() returns (r: Option<array<byte>>)
      requires Valid()
      ensures Contents() == [] ==> r == None
      ensures Contents() != [] ==> r.Some? && fresh(r.value) && r.value[..] == Pack(Padded(Contents()))
    {
      hide *;
      Shape();
      if length == 0 {
        return None;
      }
      var size := length;
      var out := new byte[(size + 7) / 8](_ => 0);
      var bytes := size / 8;
      PackWhole(out, bytes);
      var oddbits := size % 8;
      if oddbits > 0 {
        var v := Gather(8 * bytes, oddbits);
        OddByte(Contents(), bytes, oddbits, v);
        out[bytes] := v * Pow2(8 - oddbits) % 256;
        assert out[..] == out[..bytes] + [out[bytes]];
      } else {
        PadNone(Contents());
        assert Contents() == Contents()[..8 * bytes] && out[..] == out[..bytes];
      }
      r := Some(out);
    }
  }

  lemma PadNone(bits: seq<bit>)
    requires |bits| % 8 == 0
    ensures Padded(bits) == bits
  {
  }

  /** memcpy to place `at`, between regions that do not overlap. */
  method Memcpy(dst: array<byte>, at: nat, src: array<byte>, n: nat)
    requires at + n <= dst.Length && n <= src.Length && (dst != src || n <= at)
    modifies dst
    ensures dst[..at] == old(dst[..at]) && dst[at..at + n] == old(src[..n])
  {
    forall i | 0 <= i < n {
      dst[at + i] := src[i];
    }
  }

  /** A value of n bits moved to the top of a byte still fits. */
  lemma ShiftFits(v: nat, n: nat)
    requires n <= 8 && v < Pow2(n)
    ensures v * Pow2(8 - n) < 256
  {
    Pow2Product(n, 8 - n);
    MulLess(v, Pow2(n), Pow2(8 - n), 0);
    assert Pow2(8) == 256;
  }

  /** The padding of an incomplete last byte. */
  lemma PackOdd(bits: seq<bit>, n: nat, odd: nat)
    requires |bits| == 8 * n + odd && 0 < odd < 8
    ensures Pack(Padded(bits)) == Pack(bits[..8 * n]) + [Value(bits[8 * n..]) * Pow2(8 - odd)]
  {
    hide *;
    var tail, zeros := bits[8 * n..], Zeros(8 - odd);
    ShiftUp(tail, 8 - odd);
    PackSnoc(bits[..8 * n], tail + zeros);
    PadTail(bits, n, odd);
  }

  /** The last byte, from the bits gathered for it. */
  lemma OddByte(bits: seq<bit>, n: nat, odd: nat, v: nat)
    requires |bits| == 8 * n + odd && 0 < odd < 8
    requires v == Value(bits[8 * n..8 * n + odd]) < Pow2(odd)
    ensures v * Pow2(8 - odd) < 256
    ensures Pack(Padded(bits)) == Pack(bits[..8 * n]) + [v * Pow2(8 - odd)]
  {
    hide *;
    assert bits[8 * n..8 * n + odd] == bits[8 * n..];
    ShiftFits(v, odd);
    PackOdd(bits, n, odd);
  }

  lemma PadTail(bits: seq<bit>, n: nat, odd: nat)
    requires |bits| == 8 * n + odd && 0 < odd < 8
    ensures Padded(bits) == bits[..8 * n] + (bits[8 * n..] + Zeros(8 - odd))
  {
    hide Zeros;
    assert |bits| % 8 == odd;
  }

  lemma NoBytes(bytes: seq<byte>)
    ensures BytesBits(bytes[..0]) == []
  {
  }

  lemma RoomForBit(j: nat, v: nat)
    requires v < Pow2(j) && j < 8 && Pow2(j + 1) <= Pow2(8)
    ensures Pow2(j + 1) == 2 * Pow2(j) && 2 * v + 1 < Pow2(j + 1) <= 256
  {
    assert Pow2(8) == 256;
  }

  lemma ValueNil()
    ensures Value([]) == 0 && Pow2(0) == 1
  {
  }

  lemma {:induction false} Pow2Mono(i: nat, j: nat)
    requires i <= j
    ensures Pow2(i) <= Pow2(j)
  {
    if i < j {
      Pow2Mono(i, j - 1);
    }
  }

  /** Zeros appended to a string multiply its value by a power of two. */
  lemma {:induction false} ShiftUp(bits: seq<bit>, n: nat)
    ensures Value(bits + Zeros(n)) == Value(bits) * Pow2(n)
  {
    hide Value;
    if n == 0 {
      assert bits + Zeros(0) == bits;
    } else {
      ShiftUp(bits, n - 1);
      ValueSnoc(bits + Zeros(n - 1), 0);
      assert bits + Zeros(n) == bits + Zeros(n - 1) + [0];
      Doubled(Value(bits), Pow2(n - 1));
    }
  }

  /** appendBytes on an empty stream, then toByte, gives the bytes back. */
  lemma BytesRoundTrip(bytes: seq<byte>)
    ensures Pack(Padded(BytesBits(bytes))) == bytes
  {
    PackRestores(bytes);
    assert Padded(BytesBits(bytes)) == BytesBits(bytes);
  }

}
