/** How the data and check bytes of the blocks of a QR symbol are laid out and read out in columns. */
module Interleave {
  import opened Arith
  import opened Bits

  /** spec[5] of QRspec_getEccSpec: b1 blocks of dl1 data bytes, then b2 of dl2, each with el check bytes. */
  datatype EccSpec = EccSpec(b1: nat, dl1: nat, el: nat, b2: nat, dl2: nat) {
    /** What every entry of the specification's table satisfies. */
    predicate Valid() {
      b1 >= 1 && dl1 >= 1 && 2 <= el <= 30 && (b2 > 0 ==> dl2 == dl1 + 1)
    }

    function Blocks(): nat { b1 + b2 }

    function DataLength(): nat { b1 * dl1 + b2 * dl2 }

    function EccLength(): nat { (b1 + b2) * el }

    /** Where block i starts in the data code. */
    function Start(i: nat): nat {
      if i <= b1 then i * dl1 else b1 * dl1 + (i - b1) * dl2
    }

    /** Where its check bytes start in the check code. */
    function EccStart(i: nat): nat { i * el }

    function Len(i: nat): nat {
      if i < b1 then dl1 else dl2
    }

    /** The byte QRraw_getCode takes at its c-th call, as an index into the data code. */
    function DataPos(c: nat): nat
      requires Valid()
    {
      var row, col := c % Blocks(), c / Blocks();
      Start(if col >= dl1 then row + b1 else row) + col
    }

    function EccPos(c: nat): nat
      requires Valid()
    {
      (c % Blocks()) * el + c / Blocks()
    }

    /** The block and the column of data byte d. */
    function RowOf(d: nat): nat
      requires Valid()
    {
      if d < b1 * dl1 then d / dl1 else b1 + (d - b1 * dl1) / (dl1 + 1)
    }

    function ColOf(d: nat): nat
      requires Valid()
    {
      if d < b1 * dl1 then d % dl1 else (d - b1 * dl1) % (dl1 + 1)
    }

    /** The call at which the byte in column col of block row comes out: columns first. */
    function CellTurn(row: nat, col: nat): nat
    {
      if col < dl1 || row < b1 then col * Blocks() + row else dl1 * Blocks() + (row - b1)
    }

    /** The inverse of DataPos. */
    function DataTurn(d: nat): nat
      requires Valid()
    {
      CellTurn(RowOf(d), ColOf(d))
    }

    function EccTurn(e: nat): nat
      requires Valid()
    {
      e % el * Blocks() + e / el
    }
  }

  /** The place of column col of block row: in range, and read at the turn shown. */
  lemma BlockCell(s: EccSpec, row: nat, col: nat)
    requires s.Valid() && row < s.Blocks() && col < s.Len(row)
    ensures s.Start(row) + col < s.DataLength()
    ensures s.RowOf(s.Start(row) + col) == row && s.ColOf(s.Start(row) + col) == col
  {
    if row < s.b1 {
      MulLess(row, s.b1, s.dl1, col);
      DivMod(s.dl1, row, col);
    } else {
      MulLess(row - s.b1, s.b2, s.dl2, col);
      DivMod(s.dl2, row - s.b1, col);
      assert s.Start(row) == s.b1 * s.dl1 + (row - s.b1) * s.dl2;
    }
  }

  lemma Total(s: EccSpec)
    requires s.Valid()
    ensures s.DataLength() == s.dl1 * s.Blocks() + s.b2
  {
  }

  /** Every call reads inside the data code, and DataTurn tells which call it was. */
  lemma DataTurnOfPos(s: EccSpec, c: nat)
    requires s.Valid() && c < s.DataLength()
    ensures s.DataPos(c) < s.DataLength() && s.DataTurn(s.DataPos(c)) == c
  {
    var row, col := PosCell(s, c);
    BlockCell(s, row, col);
  }

  /** The block and column read at call c. */
  lemma PosCell(s: EccSpec, c: nat) returns (row: nat, col: nat)
    requires s.Valid() && c < s.DataLength()
    ensures row < s.Blocks() && col < s.Len(row)
    ensures s.DataPos(c) == s.Start(row) + col && s.CellTurn(row, col) == c
    ensures row == (if col >= s.dl1 then c % s.Blocks() + s.b1 else c % s.Blocks()) && col == c / s.Blocks()
  {
    row, col := c % s.Blocks(), c / s.Blocks();
    Quotient(c, s.Blocks());
    Total(s);
    if col >= s.dl1 {
      MulMono(s.dl1, col, s.Blocks());
      if col > s.dl1 {
        MulMono(s.dl1 + 1, col, s.Blocks());
      }
      row := row + s.b1;
    }
  }

  lemma CellOf(s: EccSpec, d: nat)
    requires s.Valid() && d < s.DataLength()
    ensures s.RowOf(d) < s.Blocks() && s.ColOf(d) < s.Len(s.RowOf(d)) && s.Start(s.RowOf(d)) + s.ColOf(d) == d
  {
    if d < s.b1 * s.dl1 {
      DivLess(d, s.dl1, s.b1);
      Quotient(d, s.dl1);
    } else {
      var e := d - s.b1 * s.dl1;
      SecondKind(s, e);
      DivLess(e, s.dl2, s.b2);
      Quotient(e, s.dl2);
    }
  }

  lemma SecondKind(s: EccSpec, e: nat)
    requires s.Valid() && e < s.b2 * s.dl2
    ensures s.b2 > 0
  {
  }

  /** Every byte of every block comes out at some call: reading is a bijection. */
  lemma DataPosOfTurn(s: EccSpec, d: nat)
    requires s.Valid() && d < s.DataLength()
    ensures s.DataTurn(d) < s.DataLength() && s.DataPos(s.DataTurn(d)) == d
  {
    CellOf(s, d);
    CellPos(s, s.RowOf(d), s.ColOf(d));
  }

  lemma CellPos(s: EccSpec, row: nat, col: nat)
    requires s.Valid() && row < s.Blocks() && col < s.Len(row)
    ensures s.CellTurn(row, col) < s.DataLength()
    ensures s.DataPos(s.CellTurn(row, col)) == s.Start(row) + col
  {
    Total(s);
    var n := s.Blocks();
    if col < s.dl1 {
      DivMod(n, col, row);
      MulLess(col, s.dl1, n, row);
    } else {
      DivMod(n, s.dl1, row - s.b1);
    }
  }

  lemma EccTurnOfPos(s: EccSpec, c: nat)
    requires s.Valid() && c < s.EccLength()
    ensures s.EccPos(c) < s.EccLength() && s.EccTurn(s.EccPos(c)) == c
  {
    Transpose(c, s.Blocks(), s.el);
  }

  lemma EccPosOfTurn(s: EccSpec, e: nat)
    requires s.Valid() && e < s.EccLength()
    ensures s.EccTurn(e) < s.EccLength() && s.EccPos(s.EccTurn(e)) == e
  {
    Transpose(e, s.el, s.Blocks());
  }

  // ---- the stream of codes ----

  function DataStream(s: EccSpec, data: seq<byte>): (r: seq<byte>)
    requires s.Valid() && |data| == s.DataLength()
    ensures |r| == |data|
  {
    seq(|data|, c requires 0 <= c < |data| => (DataTurnOfPos(s, c); data[s.DataPos(c)]))
  }

  function EccStream(s: EccSpec, ecc: seq<byte>): (r: seq<byte>)
    requires s.Valid() && |ecc| == s.EccLength()
    ensures |r| == |ecc|
  {
    seq(|ecc|, c requires 0 <= c < |ecc| => (EccTurnOfPos(s, c); ecc[s.EccPos(c)]))
  }

  /** What a reader does: put each byte back where it was taken from. */
  function UnstreamData(s: EccSpec, codes: seq<byte>): (r: seq<byte>)
    requires s.Valid() && |codes| == s.DataLength()
    ensures |r| == |codes|
  {
    seq(|codes|, d requires 0 <= d < |codes| => (DataPosOfTurn(s, d); codes[s.DataTurn(d)]))
  }

  function UnstreamEcc(s: EccSpec, codes: seq<byte>): (r: seq<byte>)
    requires s.Valid() && |codes| == s.EccLength()
    ensures |r| == |codes|
  {
    seq(|codes|, e requires 0 <= e < |codes| => (EccPosOfTurn(s, e); codes[s.EccTurn(e)]))
  }

  lemma UnstreamRestores(s: EccSpec, data: seq<byte>, ecc: seq<byte>)
    requires s.Valid() && |data| == s.DataLength() && |ecc| == s.EccLength()
    ensures UnstreamData(s, DataStream(s, data)) == data
    ensures UnstreamEcc(s, EccStream(s, ecc)) == ecc
  {
    var r := UnstreamData(s, DataStream(s, data));
    forall d | 0 <= d < |data| ensures r[d] == data[d] {
      DataPosOfTurn(s, d);
    }
    var q := UnstreamEcc(s, EccStream(s, ecc));
    forall e | 0 <= e < |ecc| ensures q[e] == ecc[e] {
      EccPosOfTurn(s, e);
    }
  }

  // ---- section 6.6 of ISO/IEC 18004: the columns of the blocks, one after the other ----

  /** Column col of the blocks from row on; a block too short for it is passed over. */
  function Column(s: EccSpec, data: seq<byte>, col: nat, row: nat): seq<byte>
    requires s.Valid() && |data| == s.DataLength() && row <= s.Blocks()
    decreases s.Blocks() - row
  {
    if row == s.Blocks() then []
    else if col < s.Len(row) then
      BlockCell(s, row, col);
      [data[s.Start(row) + col]] + Column(s, data, col, row + 1)
    else Column(s, data, col, row + 1)
  }

  function Columns(s: EccSpec, data: seq<byte>, col: nat): seq<byte>
    requires s.Valid() && |data| == s.DataLength() && col <= s.dl1
    decreases s.dl1 - col
  {
    Column(s, data, col, 0) + if col < s.dl1 then Columns(s, data, col + 1) else []
  }

  /** A column from a block on that reaches it: one byte of every later block. */
  lemma {:induction false} ColumnAt(s: EccSpec, data: seq<byte>, col: nat, row: nat, j: nat)
    requires s.Valid() && |data| == s.DataLength() && row + j <= s.Blocks() && (row < s.Blocks() ==> col < s.Len(row))
    ensures |Column(s, data, col, row)| == s.Blocks() - row
    ensures row + j < s.Blocks() ==>
              s.Start(row + j) + col < |data| && Column(s, data, col, row)[j] == data[s.Start(row + j) + col]
    decreases s.Blocks() - row
  {
    hide EccSpec.Start;
    if row < s.Blocks() {
      BlockCell(s, row, col);
      ColumnAt(s, data, col, row + 1, if j == 0 then 0 else j - 1);
      assert Column(s, data, col, row) == [data[s.Start(row) + col]] + Column(s, data, col, row + 1);
    }
  }

  /** The blocks of the first kind are passed over in the last column. */
  lemma {:induction false} LastColumn(s: EccSpec, data: seq<byte>, row: nat)
    requires s.Valid() && |data| == s.DataLength() && row <= s.b1
    ensures Column(s, data, s.dl1, row) == Column(s, data, s.dl1, s.b1)
    decreases s.b1 - row
  {
    if row < s.b1 {
      LastColumn(s, data, row + 1);
    }
  }

  lemma {:induction false} ColumnsAt(s: EccSpec, data: seq<byte>, col: nat, j: nat)
    requires s.Valid() && |data| == s.DataLength() && col <= s.dl1
    requires col * s.Blocks() + j < |data|
    ensures j < |Columns(s, data, col)|
    ensures s.DataPos(col * s.Blocks() + j) < |data|
    ensures Columns(s, data, col)[j] == data[s.DataPos(col * s.Blocks() + j)]
    decreases s.dl1 - col
  {
    hide EccSpec.Start; hide EccSpec.DataTurn; hide Column;
    var n := s.Blocks();
    Total(s);
    DataTurnOfPos(s, col * n + j);
    if col == s.dl1 {
      LastColumn(s, data, 0);
      ColumnAt(s, data, col, s.b1, j);
      DivMod(n, col, j);
    } else {
      ColumnAt(s, data, col, 0, if j < n then j else 0);
      if j < n {
        DivMod(n, col, j);
      } else {
        assert (col + 1) * n + (j - n) == col * n + j;
        ColumnsAt(s, data, col + 1, j - n);
      }
    }
  }

  lemma {:induction false} ColumnsLength(s: EccSpec, data: seq<byte>, col: nat)
    requires s.Valid() && |data| == s.DataLength() && col <= s.dl1
    ensures |Columns(s, data, col)| + col * s.Blocks() == |data|
    decreases s.dl1 - col
  {
    Total(s);
    if col == s.dl1 {
      LastColumn(s, data, 0);
      ColumnAt(s, data, col, s.b1, 0);
    } else {
      ColumnAt(s, data, col, 0, 0);
      ColumnsLength(s, data, col + 1);
      assert (col + 1) * s.Blocks() == col * s.Blocks() + s.Blocks();
    }
  }

  /** The data codes come out in the standard's order. */
  lemma StreamIsColumns(s: EccSpec, data: seq<byte>)
    requires s.Valid() && |data| == s.DataLength()
    ensures DataStream(s, data) == Columns(s, data, 0)
  {
    hide EccSpec.DataPos; hide EccSpec.DataTurn; hide Columns;
    ColumnsLength(s, data, 0);
    forall c | 0 <= c < |data| ensures DataStream(s, data)[c] == Columns(s, data, 0)[c] {
      DataTurnOfPos(s, c);
      ColumnsAt(s, data, 0, c);
    }
  }

  /** So do the check codes: the blocks' check bytes, all of one length. */
  lemma EccStreamIsColumns(s: EccSpec, ecc: seq<byte>)
    requires s.Valid() && |ecc| == s.EccLength()
    ensures var t := EccSpec(s.Blocks(), s.el, s.el, 0, 0);
            t.DataLength() == |ecc| && EccStream(s, ecc) == Columns(t, ecc, 0)
  {
    var t := EccSpec(s.Blocks(), s.el, s.el, 0, 0);
    StreamIsColumns(t, ecc);
    hide Columns; hide EccStream; hide DataStream;
    forall c | 0 <= c < |ecc| ensures EccStream(s, ecc)[c] == DataStream(t, ecc)[c] {
      SameColumns(s, ecc, c);
    }
  }

  lemma SameColumns(s: EccSpec, ecc: seq<byte>, c: nat)
    requires s.Valid() && |ecc| == s.EccLength() && c < |ecc|
    ensures var t := EccSpec(s.Blocks(), s.el, s.el, 0, 0);
            t.DataLength() == |ecc| && EccStream(s, ecc)[c] == DataStream(t, ecc)[c]
  {
    var t := EccSpec(s.Blocks(), s.el, s.el, 0, 0);
    EccTurnOfPos(s, c);
    DataTurnOfPos(t, c);
    DivLess(c, s.Blocks(), s.el);
    assert t.Start(c % s.Blocks()) == c % s.Blocks() * s.el;
  }
}
