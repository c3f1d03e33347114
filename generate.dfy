/**
 * The pattern generator: the CRC tables it precomputes, the DP over the 18 tail sixes,
 * the DFS that restores the passwords from the DP's back pointers, and `generate`.
 */
module Generate {
  import opened Errors
  import opened Crc
  import opened Codec
  import opened CrcTables
  import opened Normalize
  import opened Decoder
  import opened Encoder
  import opened GenerateSpec

  // ---------------------------------------------------------------------------
  // The CRC tables.

  /** Rows 17 down to 14 of `crc16_table_tail`, one call of `crc_update` per part. */
  lemma Row17(j: bv8, a: bv16)
    requires Register(a) == Update(Zero, j << 2, 8)
    ensures Register(a) == Tail16(17, j)
  {
  }

  lemma Row16(j: bv8, a: bv16, b0: bv16, b1: bv16)
    requires Register(a) == Update(Zero, j >> 4, 2)
    requires Register(b0) == Update(Zero, j << 4, 8) && Register(b1) == Update(Register(b0), 0, 8)
    ensures Register(a ^ b1) == Tail16(16, j)
  {
    XorRegisters(a, b1, Update(Zero, j >> 4, 2), Update(Update(Zero, j << 4, 8), 0, 8));
  }

  lemma XorRegisters(a: bv16, b: bv16, ra: Register, rb: Register)
    requires Register(a) == ra && Register(b) == rb
    ensures Register(a ^ b) == Xor(ra, rb)
  {
  }

  lemma Row15(j: bv8, a0: bv16, a1: bv16, b0: bv16, b1: bv16, b2: bv16)
    requires Register(a0) == Update(Zero, j >> 2, 4) && Register(a1) == Update(Register(a0), 0, 8)
    requires Register(b0) == Update(Zero, j << 6, 8) && Register(b1) == Update(Register(b0), 0, 8)
    requires Register(b2) == Update(Register(b1), 0, 8)
    ensures Register(a1 ^ b2) == Tail16(15, j)
  {
    XorRegisters(a1, b2, Update(Update(Zero, j >> 2, 4), 0, 8), Update(Update(Update(Zero, j << 6, 8), 0, 8), 0, 8));
  }

  lemma Row14(j: bv8, a0: bv16, a1: bv16, a2: bv16)
    requires Register(a0) == Update(Zero, j, 6) && Register(a1) == Update(Register(a0), 0, 8)
    requires Register(a2) == Update(Register(a1), 0, 8)
    ensures Register(a2) == Tail16(14, j)
  {
  }

  /** A row below 14 is the row four later, advanced by three zero bytes. */
  lemma RowBelow(i: nat, j: bv8, x: bv16, a0: bv16, a1: bv16, a2: bv16)
    requires i < 14 && Register(x) == Tail16(i + 4, j)
    requires Register(a0) == Update(Register(x), 0, 8) && Register(a1) == Update(Register(a0), 0, 8)
    requires Register(a2) == Update(Register(a1), 0, 8)
    ensures Register(a2) == Tail16(i, j)
  {
  }

  /** A bv8 value read back from its index. */
  lemma IndexRoundTrip(x: bv8)
    ensures (x as int) as bv8 == x
  {
  }

  /** Entry `j` of rows 17, 16, 15 and 14 of `crc16_table_tail`, computed as `crc16_table_tail`'s first loop does. */
  method LastRowsAt(j: bv8) returns (e17: bv16, e16: bv16, e15: bv16, e14: bv16)
    ensures Register(e17) == Tail16(17, j) && Register(e16) == Tail16(16, j)
    ensures Register(e15) == Tail16(15, j) && Register(e14) == Tail16(14, j)
  {
    e17 := CrcUpdate(0, j << 2, 8);
    Row17(j, e17);

    var a := CrcUpdate(0, j >> 4, 2);
    var b0 := CrcUpdate(0, j << 4, 8);
    var b1 := CrcUpdate(b0, 0, 8);
    Row16(j, a, b0, b1);
    e16 := a ^ b1;

    var a0 := CrcUpdate(0, j >> 2, 4);
    var a1 := CrcUpdate(a0, 0, 8);
    b0 := CrcUpdate(0, j << 6, 8);
    b1 := CrcUpdate(b0, 0, 8);
    var b2 := CrcUpdate(b1, 0, 8);
    Row15(j, a0, a1, b0, b1, b2);
    e15 := a1 ^ b2;

    a0 := CrcUpdate(0, j, 6);
    a1 := CrcUpdate(a0, 0, 8);
    var a2 := CrcUpdate(a1, 0, 8);
    Row14(j, a0, a1, a2);
    e14 := a2;
  }

  /** The body of the first loop of `crc16_table_tail`: entry `j` of rows 17 down to 14. */
  method StoreLastRows(table: array2<bv16>, j: bv8)
    requires table.Length0 == 18 && table.Length1 == 64 && j < 64
    modifies table
    ensures forall r, c :: 0 <= r < 18 && 0 <= c < 64 && !(14 <= r && c == j as int) ==> table[r, c] == old(table[r, c])
    ensures forall r :: 14 <= r < 18 ==> Register(table[r, j as int]) == Tail16(r, j)
  {
    var e17, e16, e15, e14 := LastRowsAt(j);
    table[17, j as int] := e17;
    table[16, j as int] := e16;
    table[15, j as int] := e15;
    table[14, j as int] := e14;
    assert table[17, j as int] == e17 && table[16, j as int] == e16 && table[15, j as int] == e15;
    forall r | 14 <= r < 18
      ensures Register(table[r, j as int]) == Tail16(r, j)
    {
      if r == 17 {
      } else if r == 16 {
      } else if r == 15 {
      }
    }
  }

  /** The body of the second loop of `crc16_table_tail`: entry `j` of row `i`, from row `i + 4`. */
  method StoreRowBelow(table: array2<bv16>, i: nat, j: bv8)
    requires table.Length0 == 18 && table.Length1 == 64 && i < 14 && j < 64
    requires Register(table[i + 4, j as int]) == Tail16(i + 4, j)
    modifies table
    ensures forall r, c :: 0 <= r < 18 && 0 <= c < 64 && !(r == i && c == j as int) ==> table[r, c] == old(table[r, c])
    ensures Register(table[i, j as int]) == Tail16(i, j)
  {
    var x := table[i + 4, j as int];
    var a0 := CrcUpdate(x, 0, 8);
    var a1 := CrcUpdate(a0, 0, 8);
    var a2 := CrcUpdate(a1, 0, 8);
    RowBelow(i, j, x, a0, a1, a2);
    table[i, j as int] := a2;
  }

  /** The first loop of `crc16_table_tail`: rows 17 down to 14, entry by entry. */
  method FillLastRows(table: array2<bv16>)
    requires table.Length0 == 18 && table.Length1 == 64
    modifies table
    ensures forall i, j :: 14 <= i < 18 && 0 <= j < 64 ==> Register(table[i, j]) == Tail16(i, j as bv8)
  {
    var j: bv8 := 0;
    while j < 0x40
      invariant j <= 0x40
      invariant forall i, j' :: 14 <= i < 18 && 0 <= j' < j as int ==> Register(table[i, j']) == Tail16(i, j' as bv8)
    {
      StoreLastRows(table, j);
      IndexRoundTrip(j);
      j := j + 1;
    }
  }

  /** One round of the second loop of `crc16_table_tail`: row `i` from row `i + 4`. */
  method FillRowBelow(table: array2<bv16>, i: nat)
    requires table.Length0 == 18 && table.Length1 == 64 && i < 14
    requires forall i', j' :: i < i' < 18 && 0 <= j' < 64 ==> Register(table[i', j']) == Tail16(i', j' as bv8)
    modifies table
    ensures forall i', j' :: i <= i' < 18 && 0 <= j' < 64 ==> Register(table[i', j']) == Tail16(i', j' as bv8)
  {
    var j: bv8 := 0;
    while j < 0x40
      invariant j <= 0x40
      invariant forall i', j' :: i < i' < 18 && 0 <= j' < 64 ==> Register(table[i', j']) == Tail16(i', j' as bv8)
      invariant forall j' :: 0 <= j' < j as int ==> Register(table[i, j']) == Tail16(i, j' as bv8)
    {
      IndexRoundTrip(j);
      StoreRowBelow(table, i, j);
      j := j + 1;
    }
  }

  /**
   * `crc16_table_tail`: entry `[i][j]` is the CRC the tail six `i` with value `j`
   * contributes on its own (`Tail16`, which `TailWeight` ties to the CRC of the bytes).
   */
  method Crc16TableTail() returns (table: array2<bv16>)
    ensures fresh(table) && table.Length0 == 18 && table.Length1 == 64
    ensures forall i, j :: 0 <= i < 18 && 0 <= j < 64 ==> Register(table[i, j]) == Tail16(i, j as bv8)
  {
    table := new bv16[18, 64];
    FillLastRows(table);
    var i := 13;
    while true
      invariant 0 <= i <= 13
      invariant forall i', j' :: i < i' < 18 && 0 <= j' < 64 ==> Register(table[i', j']) == Tail16(i', j' as bv8)
      decreases i
    {
      FillRowBelow(table, i);
      if i == 0 {
        break;
      }
      i := i - 1;
    }
  }

  lemma LowIs(x: bv16, r: Register)
    requires Register(x) == r
    ensures (x & 0xFF) as bv8 == Low(r)
  {
  }

  /** `crc8_table_tail`: the low bytes of `crc16_table_tail`. */
  method Crc8TableTail() returns (table: array2<bv8>)
    ensures fresh(table) && table.Length0 == 18 && table.Length1 == 64
    ensures forall i, j :: 0 <= i < 18 && 0 <= j < 64 ==> table[i, j] == Tail8(i, j as bv8)
  {
    var crc16Table := Crc16TableTail();
    table := new bv8[18, 64];
    var i := 0;
    while i < 18
      modifies table
      invariant i <= 18
      invariant forall i', j' :: 0 <= i' < i && 0 <= j' < 64 ==> table[i', j'] == Tail8(i', j' as bv8)
    {
      var j := 0;
      while j < 0x40
        modifies table
        invariant j <= 0x40
        invariant forall i', j' :: 0 <= i' < i && 0 <= j' < 64 ==> table[i', j'] == Tail8(i', j' as bv8)
        invariant forall j' :: 0 <= j' < j ==> table[i, j'] == Tail8(i, j' as bv8)
      {
        table[i, j] := (crc16Table[i, j] & 0xFF) as bv8;
        LowIs(crc16Table[i, j], Tail16(i, j as bv8));
        j := j + 1;
      }
      i := i + 1;
    }
  }

  lemma HeadIs(j: bv8, x: bv16, a0: bv16, a1: bv16, a2: bv16)
    requires j < 16 && Register(x) == Tail16(3, j << 2)
    requires Register(a0) == Update(Register(x), 0, 8) && Register(a1) == Update(Register(a0), 0, 8)
    requires Register(a2) == Update(Register(a1), 0, 8)
    ensures (a2 & 0xFF) as bv8 == Head8(j)
  {
  }

  /** Entry `j` of `crc8_table_head`: row 3 of `crc16_table_tail` at `j << 2`, advanced by three zero bytes. */
  method HeadAt(crc16Table: array2<bv16>, j: bv8) returns (v: bv8)
    requires crc16Table.Length0 == 18 && crc16Table.Length1 == 64 && j < 16
    requires forall i, j' :: 0 <= i < 18 && 0 <= j' < 64 ==> Register(crc16Table[i, j']) == Tail16(i, j' as bv8)
    ensures v == Head8(j)
  {
    var x := crc16Table[3, (j << 2) as int];
    IndexRoundTrip(j << 2);
    var a0 := CrcUpdate(x, 0, 8);
    var a1 := CrcUpdate(a0, 0, 8);
    var a2 := CrcUpdate(a1, 0, 8);
    HeadIs(j, x, a0, a1, a2);
    v := (a2 & 0xFF) as bv8;
  }

  /** `crc8_table_head`: entry `j` is the CRC byte the top four bits of six 1 equal to `j` contribute. */
  method Crc8TableHead() returns (table: array<bv8>)
    ensures fresh(table) && table.Length == 16
    ensures forall j: bv8 :: j < 16 ==> table[j as int] == Head8(j)
  {
    var crc16Table := Crc16TableTail();
    table := new bv8[16];
    var j: bv8 := 0;
    while j < 0x10
      modifies table
      invariant j <= 0x10
      invariant forall j': bv8 :: j' < j ==> table[j' as int] == Head8(j')
    {
      table[j as int] := HeadAt(crc16Table, j);
      j := j + 1;
    }
  }

  // ---------------------------------------------------------------------------
  // Packing.

  /** One round of the loop of `sixs_to_bytes`: the three bytes of group `g`. */
  method StoreGroup(b: array<bv8>, s: seq<bv8>, g: nat)
    requires b.Length == 15 && |s| == 20 && g < 5
    modifies b
    ensures |BytesOf(s)| == 15
    ensures forall m :: 0 <= m < 15 && !(3 * g <= m < 3 * g + 3) ==> b[m] == old(b[m])
    ensures forall m :: 3 * g <= m < 3 * g + 3 ==> b[m] == BytesOf(s)[m]
  {
    b[3 * g] := s[4 * g] | (s[4 * g + 1] << 6);
    b[3 * g + 1] := (s[4 * g + 1] >> 2) | (s[4 * g + 2] << 4);
    b[3 * g + 2] := (s[4 * g + 2] >> 4) | (s[4 * g + 3] << 2);
    BytesOfAt(s, g);
  }

  /** `sixs_to_bytes`: the 15 bytes the 20 sixes pack into, group by group. */
  method SixsToBytes(sixs: array<bv8>) returns (bytes: seq<bv8>)
    requires sixs.Length == 20
    ensures bytes == BytesOf(sixs[..])
  {
    var b := new bv8[15];
    BytesOfLength(sixs[..]);
    for g := 0 to 5
      invariant forall m :: 0 <= m < 3 * g ==> b[m] == BytesOf(sixs[..])[m]
    {
      StoreGroup(b, sixs[..], g);
    }
    bytes := b[..];
  }

  // ---------------------------------------------------------------------------
  // The DP of `generate_dp`.

  /** Two bytes with the same index are the same. */
  lemma IndexInjective(a: bv8, b: bv8)
    requires a as int == b as int
    ensures a == b
  {
  }

  /** The shape of `dp`: 19 levels of 64 cums, 256 CRC bytes and 2 flags. */
  predicate DpShape(dp: array4<seq<DpTrace>>) {
    dp.Length0 == 19 && dp.Length1 == 64 && dp.Length2 == 256 && dp.Length3 == 2
  }

  /** The cell `dp[i][c][k][l]`. */
  function Cell(dp: array4<seq<DpTrace>>, i: nat, c: bv8, k: bv8, l: bv8): seq<DpTrace>
    requires DpShape(dp) && i < 19 && c < 64 && l < 2
    reads dp
  {
    dp[i, c as int, k as int, l as int]
  }

  /**
   * What `generate_dp` keeps true of `dp`: the only cell of level 0 that holds anything is
   * the initial one, with cum `cumIni`, CRC byte `crcIni` and flag 0; no cell holds more
   * than `nMax` back pointers; every back pointer of a level above 0 steps to its own
   * cell as the DP's step does; and every back pointer points to a cell that holds
   * something (the `debug_assert!` at the head of `Dfs::dfs`), so that following back
   * pointers from any non-empty cell ends in the initial cell.
   */
  ghost predicate DpOk(dp: array4<seq<DpTrace>>, tail: seq<Option<bv8>>, nMax: nat, cumIni: bv8, crcIni: bv8)
    requires |tail| == 18
    reads dp
  {
    && DpShape(dp)
    && (forall c: bv8, k: bv8, l: bv8 :: c < 64 && l < 2 && Cell(dp, 0, c, k, l) != [] ==>
          c == cumIni && k == crcIni && l == 0)
    && (forall i: nat, c: bv8, k: bv8, l: bv8 :: i < 19 && c < 64 && l < 2 ==> |Cell(dp, i, c, k, l)| <= nMax)
    && (forall i, c: bv8, k: bv8, l: bv8 :: 1 <= i < 19 && c < 64 && l < 2 ==>
          CellOk(tail, cumIni, crcIni, i, c, k, l, Cell(dp, i, c, k, l)))
    && DpBacked(dp)
  }

  /** Every back pointer in the cell of level `i`, cum `c`, CRC byte `k` and flag `l` points to a non-empty cell. */
  ghost predicate CellBacked(dp: array4<seq<DpTrace>>, i: nat, c: bv8, k: bv8, l: bv8)
    requires DpShape(dp) && 1 <= i < 19 && c < 64 && l < 2
    reads dp
  {
    forall n :: 0 <= n < |Cell(dp, i, c, k, l)| ==> Targeted(dp, i - 1, Cell(dp, i, c, k, l)[n])
  }

  /** The back pointer `t` of a cell of level `i + 1` points to a non-empty cell of level `i`. */
  ghost predicate Targeted(dp: array4<seq<DpTrace>>, i: nat, t: DpTrace)
    requires DpShape(dp) && i < 18
    reads dp
  {
    t.J() < 64 && t.L() < 2 && Cell(dp, i, t.J(), t.K(), t.L()) != []
  }

  /**
   * A back pointer of level `i` steps to its cell, and one of level 1 points to the
   * initial cell.
   */
  predicate TraceFrom(tail: seq<Option<bv8>>, cumIni: bv8, crcIni: bv8, i: nat, c: bv8, k: bv8, l: bv8, t: DpTrace)
    requires |tail| == 18 && 1 <= i <= 18
  {
    && TraceOk(tail, i, c, k, l, t)
    && (i == 1 ==> t.J() == cumIni && t.K() == crcIni && t.L() == 0)
  }

  /** Every back pointer in the cell of level `i`, cum `c`, CRC byte `k` and flag `l` steps to it. */
  predicate CellOk(tail: seq<Option<bv8>>, cumIni: bv8, crcIni: bv8, i: nat, c: bv8, k: bv8, l: bv8, traces: seq<DpTrace>)
    requires |tail| == 18 && 1 <= i <= 18
  {
    forall n :: 0 <= n < |traces| ==> TraceFrom(tail, cumIni, crcIni, i, c, k, l, traces[n])
  }

  /** Appending a back pointer that steps to the cell keeps the cell ok. */
  lemma CellPush(tail: seq<Option<bv8>>, cumIni: bv8, crcIni: bv8, i: nat, c: bv8, k: bv8, l: bv8,
                 traces: seq<DpTrace>, t: DpTrace)
    requires |tail| == 18 && 1 <= i <= 18
    requires CellOk(tail, cumIni, crcIni, i, c, k, l, traces) && TraceFrom(tail, cumIni, crcIni, i, c, k, l, t)
    ensures CellOk(tail, cumIni, crcIni, i, c, k, l, traces + [t])
  {
    forall n | 0 <= n < |traces + [t]|
      ensures TraceFrom(tail, cumIni, crcIni, i, c, k, l, (traces + [t])[n])
    {
      if n < |traces| {
        assert (traces + [t])[n] == traces[n];
      }
    }
  }

  /** After a push of a back pointer that steps to its cell, the cell `(i', c', k', l')` is ok if it was. */
  lemma PushCellOk(tail: seq<Option<bv8>>, cumIni: bv8, crcIni: bv8, i: nat, c: bv8, k: bv8, l: bv8, t: DpTrace,
                   i': nat, c': bv8, k': bv8, l': bv8, before: seq<DpTrace>, after: seq<DpTrace>)
    requires |tail| == 18 && 1 <= i < 19 && 1 <= i' < 19
    requires CellOk(tail, cumIni, crcIni, i', c', k', l', before) && TraceFrom(tail, cumIni, crcIni, i, c, k, l, t)
    requires after == if i' == i && c' == c && k' == k && l' == l then before + [t] else before
    ensures CellOk(tail, cumIni, crcIni, i', c', k', l', after)
  {
    if i' == i && c' == c && k' == k && l' == l {
      CellPush(tail, cumIni, crcIni, i, c, k, l, before, t);
    }
  }

  /** A cell other than `(i, c, k, l)` has other indices. */
  lemma Unstored(i: nat, c: bv8, k: bv8, l: bv8, i': nat, c': bv8, k': bv8, l': bv8)
    requires !(i' == i && c' == c && k' == k && l' == l)
    ensures !(i' == i && c' as int == c as int && k' as int == k as int && l' as int == l as int)
  {
    if i' == i && c' as int == c as int && k' as int == k as int && l' as int == l as int {
      IndexInjective(c', c);
      IndexInjective(k', k);
      IndexInjective(l', l);
    }
  }

  /** The store `dp[i][c][k][l] = traces`: that cell changes, and no other. */
  method SetCell(dp: array4<seq<DpTrace>>, i: nat, c: bv8, k: bv8, l: bv8, traces: seq<DpTrace>)
    requires DpShape(dp) && i < 19 && c < 64 && l < 2
    modifies dp
    ensures Cell(dp, i, c, k, l) == traces
    ensures forall i': nat, c': bv8, k': bv8, l': bv8 :: i' < 19 && c' < 64 && l' < 2 ==>
      (i' == i && c' == c && k' == k && l' == l) || Cell(dp, i', c', k', l') == old(Cell(dp, i', c', k', l'))
  {
    dp[i, c as int, k as int, l as int] := traces;
    forall i': nat, c': bv8, k': bv8, l': bv8 | i' < 19 && c' < 64 && l' < 2 && !(i' == i && c' == c && k' == k && l' == l)
      ensures Cell(dp, i', c', k', l') == old(Cell(dp, i', c', k', l'))
    {
      Unstored(i, c, k, l, i', c', k', l');
    }
  }

  /** Every back pointer above level 0 points to a non-empty cell. */
  ghost predicate DpBacked(dp: array4<seq<DpTrace>>)
    requires DpShape(dp)
    reads dp
  {
    forall i, c: bv8, k: bv8, l: bv8 {:trigger CellBacked(dp, i, c, k, l)} :: 1 <= i < 19 && c < 64 && l < 2 ==>
      CellBacked(dp, i, c, k, l)
  }

  /**
   * The store `dp[i][c][k][l] = traces + [t]` of a back pointer `t` to a non-empty cell:
   * no cell becomes empty, so every back pointer still points to a non-empty cell.
   */
  method AppendTrace(dp: array4<seq<DpTrace>>, i: nat, c: bv8, k: bv8, l: bv8, t: DpTrace)
    requires DpShape(dp) && 1 <= i < 19 && c < 64 && l < 2
    requires DpBacked(dp) && Targeted(dp, i - 1, t)
    modifies dp
    ensures DpBacked(dp)
    ensures Cell(dp, i, c, k, l) == old(Cell(dp, i, c, k, l)) + [t]
    ensures forall i': nat, c': bv8, k': bv8, l': bv8 :: i' < 19 && c' < 64 && l' < 2 ==>
      (i' == i && c' == c && k' == k && l' == l) || Cell(dp, i', c', k', l') == old(Cell(dp, i', c', k', l'))
  {
    var traces := Cell(dp, i, c, k, l);
    SetCell(dp, i, c, k, l, traces + [t]);
    forall i': nat, c': bv8, k': bv8, l': bv8 | i' < 19 && c' < 64 && l' < 2 && old(Cell(dp, i', c', k', l')) != []
      ensures Cell(dp, i', c', k', l') != []
    {
    }
    forall i', c': bv8, k': bv8, l': bv8 | 1 <= i' < 19 && c' < 64 && l' < 2
      ensures CellBacked(dp, i', c', k', l')
    {
      var same := i' == i && c' == c && k' == k && l' == l;
      var before := old(Cell(dp, i', c', k', l'));
      var after := Cell(dp, i', c', k', l');
      assert after == if same then before + [t] else before;
      assert old(CellBacked(dp, i', c', k', l'));
      forall n | 0 <= n < |after|
        ensures Targeted(dp, i' - 1, after[n])
      {
        if !(same && n == |before|) {
          var u := before[n];
          assert after[n] == u;
          assert old(Targeted(dp, i' - 1, u));
        }
      }
    }
  }

  /**
   * The push of `generate_dp`: the back pointer `t` goes into the cell of level `i`, cum
   * `c`, CRC byte `k` and flag `l` unless that cell already holds `nMax`.
   */
  method Push(dp: array4<seq<DpTrace>>, ghost tail: seq<Option<bv8>>, nMax: nat, ghost cumIni: bv8, ghost crcIni: bv8,
              i: nat, c: bv8, k: bv8, l: bv8, t: DpTrace)
    requires |tail| == 18 && DpOk(dp, tail, nMax, cumIni, crcIni)
    requires 1 <= i < 19 && c < 64 && l < 2 && TraceFrom(tail, cumIni, crcIni, i, c, k, l, t)
    requires Targeted(dp, i - 1, t)
    modifies dp
    ensures DpOk(dp, tail, nMax, cumIni, crcIni)
    ensures Cell(dp, i, c, k, l) ==
      if |old(Cell(dp, i, c, k, l))| < nMax then old(Cell(dp, i, c, k, l)) + [t] else old(Cell(dp, i, c, k, l))
    ensures forall i': nat, c': bv8, k': bv8, l': bv8 :: i' < 19 && c' < 64 && l' < 2 ==>
      (i' == i && c' == c && k' == k && l' == l) || Cell(dp, i', c', k', l') == old(Cell(dp, i', c', k', l'))
  {
    var traces := Cell(dp, i, c, k, l);
    if |traces| < nMax {
      AppendTrace(dp, i, c, k, l, t);
      forall i', c': bv8, k': bv8, l': bv8 | 1 <= i' < 19 && c' < 64 && l' < 2
        ensures CellOk(tail, cumIni, crcIni, i', c', k', l', Cell(dp, i', c', k', l'))
      {
        PushCellOk(tail, cumIni, crcIni, i, c, k, l, t, i', c', k', l', old(Cell(dp, i', c', k', l')), Cell(dp, i', c', k', l'));
      }
      forall c': bv8, k': bv8, l': bv8 | c' < 64 && l' < 2
        ensures Cell(dp, 0, c', k', l') == old(Cell(dp, 0, c', k', l'))
      {
      }
    }
  }

  /** A step the DP takes gives a back pointer that steps to the cell it lands in. */
  lemma StepTrace(tail: seq<Option<bv8>>, cumIni: bv8, crcIni: bv8, i: nat, j: bv8, k: bv8, l: bv8,
                  cum: bv8, six: bv8, crc: bv8, lNxt: bv8)
    requires |tail| == 18 && i < 18 && j < 64 && l < 2 && cum < 64 && cum in CumRange(tail[i])
    requires six == SixBetween(j, cum) && Allowed(i, l, six) && crc == k ^ Tail8(i, six) && lNxt == LNext(six)
    requires i == 0 ==> j == cumIni && k == crcIni && l == 0
    ensures TraceFrom(tail, cumIni, crcIni, i + 1, cum, crc, lNxt, NewTrace(j, k, l))
  {
  }

  /**
   * The step of the inner loop of `generate_dp` from cum `j`, CRC byte `k` and flag `l` of
   * level `i` to `cum`: whether the pruning lets it through, and the CRC byte and flag
   * of the cell it leads to.
   */
  method StepTo(crcTable: array2<bv8>, i: nat, j: bv8, k: bv8, l: bv8, cum: bv8) returns (ok: bool, crc: bv8, lNxt: bv8)
    requires crcTable.Length0 == 18 && crcTable.Length1 == 64
    requires forall i', j' :: 0 <= i' < 18 && 0 <= j' < 64 ==> crcTable[i', j'] == Tail8(i', j' as bv8)
    requires i < 18
    ensures ok <==> Allowed(i, l, SixBetween(j, cum))
    ensures ok ==> crc == k ^ Tail8(i, SixBetween(j, cum)) && lNxt == LNext(SixBetween(j, cum))
  {
    var six := (cum - (j + 4)) & 0x3F;
    ok, crc, lNxt := false, 0, 0;

    if i == 11 && (six >> 2) >= 7 {
      return;
    }
    if i == 12 && (six & 0xF) >= 7 {
      return;
    }
    if (i == 2 || i == 6) && (six & 0xF) == 15 {
      return;
    }
    if (i == 13 || i == 17) && (six >> 2) == 15 {
      return;
    }
    if (i == 3 || i == 7 || i == 13 || i == 17) && l == 1 && (six & 3) == 3 {
      return;
    }

    IndexRoundTrip(six);
    ok := true;
    crc := k ^ crcTable[i, six as int];
    lNxt := if (six >> 4) == 3 then 1 else 0;
  }

  /**
   * One cum of the inner loop of `generate_dp`: when the pruning allows the six from cum
   * `j` to `cum`, the cell of level `i + 1` it leads to gets a back pointer to the cell of
   * level `i`, cum `j`, CRC byte `k` and flag `l`.
   */
  method SpreadTo(dp: array4<seq<DpTrace>>, crcTable: array2<bv8>, ghost tail: seq<Option<bv8>>, nMax: nat,
                  ghost cumIni: bv8, ghost crcIni: bv8, i: nat, j: bv8, k: bv8, l: bv8, cum: bv8)
    requires |tail| == 18 && DpOk(dp, tail, nMax, cumIni, crcIni)
    requires crcTable.Length0 == 18 && crcTable.Length1 == 64
    requires forall i', j' :: 0 <= i' < 18 && 0 <= j' < 64 ==> crcTable[i', j'] == Tail8(i', j' as bv8)
    requires i < 18 && j < 64 && l < 2 && cum < 64 && cum in CumRange(tail[i])
    requires i == 0 ==> j == cumIni && k == crcIni && l == 0
    requires Cell(dp, i, j, k, l) != []
    modifies dp
    ensures DpOk(dp, tail, nMax, cumIni, crcIni)
    ensures forall i': nat, c': bv8, k': bv8, l': bv8 :: i' < 19 && c' < 64 && l' < 2 && i' != i + 1 ==>
      Cell(dp, i', c', k', l') == old(Cell(dp, i', c', k', l'))
  {
    var ok, crc, lNxt := StepTo(crcTable, i, j, k, l, cum);
    if ok {
      StepTrace(tail, cumIni, crcIni, i, j, k, l, cum, SixBetween(j, cum), crc, lNxt);
      assert Targeted(dp, i, NewTrace(j, k, l));
      Push(dp, tail, nMax, cumIni, crcIni, i + 1, cum, crc, lNxt, NewTrace(j, k, l));
    }
  }

  /**
   * One cell of the loop of `generate_dp`: every cum the pattern admits for tail six `i`
   * is tried from the cell of level `i`, cum `j`, CRC byte `k` and flag `l`.
   */
  method Spread(dp: array4<seq<DpTrace>>, crcTable: array2<bv8>, tail: seq<Option<bv8>>, nMax: nat,
                ghost cumIni: bv8, ghost crcIni: bv8, i: nat, j: bv8, k: bv8, l: bv8)
    requires |tail| == 18 && CumsBounded(tail) && DpOk(dp, tail, nMax, cumIni, crcIni)
    requires crcTable.Length0 == 18 && crcTable.Length1 == 64
    requires forall i', j' :: 0 <= i' < 18 && 0 <= j' < 64 ==> crcTable[i', j'] == Tail8(i', j' as bv8)
    requires i < 18 && j < 64 && l < 2 && Cell(dp, i, j, k, l) != []
    modifies dp
    ensures DpOk(dp, tail, nMax, cumIni, crcIni)
  {
    var cums := CumRange(tail[i]);
    for n := 0 to |cums|
      invariant DpOk(dp, tail, nMax, cumIni, crcIni) && Cell(dp, i, j, k, l) != []
    {
      SpreadTo(dp, crcTable, tail, nMax, cumIni, crcIni, i, j, k, l, cums[n]);
    }
  }

  /** The table of `ndvec!`: 19 levels of 64 cums, 256 CRC bytes and 2 flags, all empty. */
  method EmptyDp() returns (dp: array4<seq<DpTrace>>)
    ensures fresh(dp) && DpShape(dp)
    ensures forall i, c, k, l :: 0 <= i < 19 && 0 <= c < 64 && 0 <= k < 256 && 0 <= l < 2 ==> dp[i, c, k, l] == []
  {
    dp := new seq<DpTrace>[19, 64, 256, 2]((i, j, k, l) => []);
  }

  /** The cells of the DP before its loop: the initial cell holds one back pointer, the others nothing. */
  function InitialCell(cumIni: bv8, crcIni: bv8, i: int, c: int, k: int, l: int): seq<DpTrace>
    requires cumIni < 64
  {
    if i == 0 && c == cumIni as int && k == crcIni as int && l == 0 then [NewTrace(0, 0, 0)] else []
  }

  /** Before the loop, the initial cell is the only cell of level 0 that holds anything. */
  lemma InitialLevelZero(dp: array4<seq<DpTrace>>, cumIni: bv8, crcIni: bv8)
    requires cumIni < 64 && DpShape(dp)
    requires forall i, c, k, l :: 0 <= i < 19 && 0 <= c < 64 && 0 <= k < 256 && 0 <= l < 2 ==>
      dp[i, c, k, l] == InitialCell(cumIni, crcIni, i, c, k, l)
    ensures forall c: bv8, k: bv8, l: bv8 :: c < 64 && l < 2 && Cell(dp, 0, c, k, l) != [] ==>
      c == cumIni && k == crcIni && l == 0
  {
    forall c: bv8, k: bv8, l: bv8 | c < 64 && l < 2 && Cell(dp, 0, c, k, l) != []
      ensures c == cumIni && k == crcIni && l == 0
    {
      assert dp[0, c as int, k as int, l as int] == InitialCell(cumIni, crcIni, 0, c as int, k as int, l as int);
      IndexInjective(c, cumIni);
      IndexInjective(k, crcIni);
      IndexInjective(l, 0);
    }
  }

  /** Before the loop, no cell holds more than one back pointer. */
  lemma InitialBounded(dp: array4<seq<DpTrace>>, nMax: nat, cumIni: bv8, crcIni: bv8)
    requires nMax > 0 && cumIni < 64 && DpShape(dp)
    requires forall i, c, k, l :: 0 <= i < 19 && 0 <= c < 64 && 0 <= k < 256 && 0 <= l < 2 ==>
      dp[i, c, k, l] == InitialCell(cumIni, crcIni, i, c, k, l)
    ensures forall i: nat, c: bv8, k: bv8, l: bv8 :: i < 19 && c < 64 && l < 2 ==> |Cell(dp, i, c, k, l)| <= nMax
  {
    forall i: nat, c: bv8, k: bv8, l: bv8 | i < 19 && c < 64 && l < 2
      ensures |Cell(dp, i, c, k, l)| <= nMax
    {
      assert dp[i, c as int, k as int, l as int] == InitialCell(cumIni, crcIni, i, c as int, k as int, l as int);
      assert |InitialCell(cumIni, crcIni, i, c as int, k as int, l as int)| <= 1;
    }
  }

  /**
   * Before the loop, every cell above level 0 is empty, so its back pointers all step to
   * it and all point to non-empty cells.
   */
  lemma InitialCellsOk(dp: array4<seq<DpTrace>>, tail: seq<Option<bv8>>, cumIni: bv8, crcIni: bv8)
    requires |tail| == 18 && cumIni < 64 && DpShape(dp)
    requires forall i, c, k, l :: 0 <= i < 19 && 0 <= c < 64 && 0 <= k < 256 && 0 <= l < 2 ==>
      dp[i, c, k, l] == InitialCell(cumIni, crcIni, i, c, k, l)
    ensures forall i, c: bv8, k: bv8, l: bv8 :: 1 <= i < 19 && c < 64 && l < 2 ==>
      CellOk(tail, cumIni, crcIni, i, c, k, l, Cell(dp, i, c, k, l)) && CellBacked(dp, i, c, k, l)
  {
    forall i, c: bv8, k: bv8, l: bv8 | 1 <= i < 19 && c < 64 && l < 2
      ensures Cell(dp, i, c, k, l) == []
    {
      assert dp[i, c as int, k as int, l as int] == InitialCell(cumIni, crcIni, i, c as int, k as int, l as int);
    }
  }

  /** The DP before its loop is ok. */
  lemma InitialDpOk(dp: array4<seq<DpTrace>>, tail: seq<Option<bv8>>, nMax: nat, cumIni: bv8, crcIni: bv8)
    requires |tail| == 18 && nMax > 0 && cumIni < 64 && DpShape(dp)
    requires forall i, c, k, l :: 0 <= i < 19 && 0 <= c < 64 && 0 <= k < 256 && 0 <= l < 2 ==>
      dp[i, c, k, l] == InitialCell(cumIni, crcIni, i, c, k, l)
    ensures DpOk(dp, tail, nMax, cumIni, crcIni)
  {
    InitialLevelZero(dp, cumIni, crcIni);
    InitialBounded(dp, nMax, cumIni, crcIni);
    InitialCellsOk(dp, tail, cumIni, crcIni);
  }

  /** The DP table of `generate_dp` before its loop: empty but for the initial cell. */
  method NewDp(ghost tail: seq<Option<bv8>>, nMax: nat, cumIni: bv8, crcIni: bv8) returns (dp: array4<seq<DpTrace>>)
    requires |tail| == 18 && nMax > 0 && cumIni < 64
    ensures fresh(dp) && DpOk(dp, tail, nMax, cumIni, crcIni)
  {
    dp := EmptyDp();
    label Empty:
    dp[0, cumIni as int, crcIni as int, 0] := [NewTrace(0, 0, 0)];
    forall i, c, k, l | 0 <= i < 19 && 0 <= c < 64 && 0 <= k < 256 && 0 <= l < 2
      ensures dp[i, c, k, l] == InitialCell(cumIni, crcIni, i, c, k, l)
    {
      if i == 0 && c == cumIni as int && k == crcIni as int && l == 0 {
      } else {
        assert dp[i, c, k, l] == old@Empty(dp[i, c, k, l]);
      }
    }
    InitialDpOk(dp, tail, nMax, cumIni, crcIni);
  }

  /**
   * `generate_dp`: the DP over the 18 tail sixes from the head sixes `sixsHead`, then the
   * restoration of at most `nMax` byte sequences from it.
   */
  method GenerateDp(sixsHead: seq<bv8>, tail: seq<Option<bv8>>, nMax: nat) returns (bytess: seq<seq<bv8>>)
    requires |sixsHead| == 2 && AllSix(sixsHead) && |tail| == 18 && CumsBounded(tail) && nMax > 0
    ensures |bytess| <= nMax
    ensures forall n :: 0 <= n < |bytess| ==> Found(sixsHead, tail, bytess[n])
  {
    var crcTable := Crc8TableTail();
    var headTable := Crc8TableHead();
    var cumIni := (sixsHead[0] + sixsHead[1] + 8) & 0x3F;
    var crcIni := headTable[(sixsHead[1] >> 2) as int];
    var dp := NewDp(tail, nMax, cumIni, crcIni);

    var i := 0;
    while i < 18
      modifies dp
      invariant i <= 18 && DpOk(dp, tail, nMax, cumIni, crcIni)
    {
      var j: bv8 := 0;
      while j < 0x40
        modifies dp
        invariant j <= 0x40 && DpOk(dp, tail, nMax, cumIni, crcIni)
      {
        var k: bv8 := 0;
        while true
          modifies dp
          invariant DpOk(dp, tail, nMax, cumIni, crcIni)
          decreases 0xFF - k as int
        {
          var l: bv8 := 0;
          while l < 2
            modifies dp
            invariant l <= 2 && DpOk(dp, tail, nMax, cumIni, crcIni)
          {
            if Cell(dp, i, j, k, l) != [] {
              Spread(dp, crcTable, tail, nMax, cumIni, crcIni, i, j, k, l);
            }
            l := l + 1;
          }
          if k == 0xFF {
            break;
          }
          k := k + 1;
        }
        j := j + 1;
      }
      i := i + 1;
    }

    bytess := GenerateDpRestore(sixsHead, tail, nMax, dp, cumIni, crcIni);
  }

  // ---------------------------------------------------------------------------
  // The restoration of `generate_dp_restore`.

  /** The bytes of the sixes of a DP path completed back to level 0 are found. */
  method LeafBytes(ghost sixsHead: seq<bv8>, ghost tail: seq<Option<bv8>>, sixs: array<bv8>, ghost i: nat) returns (bytes: seq<bv8>)
    requires |sixsHead| == 2 && AllSix(sixsHead) && |tail| == 18 && i == 0
    requires sixs.Length == 20 && sixs[..2] == sixsHead
    requires Reached(tail, i, HeadCum(sixsHead), HeadCrc(sixsHead), 0, sixs[i + 2..], CrcExpect(sixsHead))
    ensures |bytes| == 15 && Found(sixsHead, tail, bytes)
  {
    bytes := SixsToBytes(sixs);
    assert sixs[..][..2] == sixsHead && sixs[..][2..] == sixs[2..];
    LeafReached(sixsHead, tail, sixs[..], i);
  }

  /** The suffix after a position holding `x` followed by `rest` is `rest`. */
  lemma DropFirst(s: seq<bv8>, n: nat, x: bv8, rest: seq<bv8>)
    requires n < |s| && s[n..] == [x] + rest
    ensures s[n + 1..] == rest
  {
    assert s[n + 1..] == s[n..][1..];
  }

  /** The depth-first search of `generate_dp_restore` over the back pointers of `dp`. */
  class Dfs {
    const nMax: nat
    const dp: array4<seq<DpTrace>>
    var bytess: seq<seq<bv8>>
    ghost const sixsHead: seq<bv8>
    ghost const tail: seq<Option<bv8>>
    ghost const cumIni: bv8
    ghost const crcIni: bv8

    /** The DP is ok from the head sixes' cell, and every byte sequence found so far is `Found`. */
    ghost predicate Valid()
      reads this, dp
    {
      && |sixsHead| == 2 && AllSix(sixsHead) && |tail| == 18
      && cumIni == HeadCum(sixsHead) && crcIni == HeadCrc(sixsHead)
      && DpOk(dp, tail, nMax, cumIni, crcIni)
      && |bytess| <= nMax
      && AllFound(sixsHead, tail, bytess)
    }

    constructor (nMax: nat, dp: array4<seq<DpTrace>>, ghost sixsHead: seq<bv8>, ghost tail: seq<Option<bv8>>,
                 ghost cumIni: bv8, ghost crcIni: bv8)
      requires |sixsHead| == 2 && AllSix(sixsHead) && |tail| == 18
      requires cumIni == HeadCum(sixsHead) && crcIni == HeadCrc(sixsHead)
      requires DpOk(dp, tail, nMax, cumIni, crcIni)
      ensures Valid() && bytess == []
      ensures this.nMax == nMax && this.dp == dp && this.sixsHead == sixsHead && this.tail == tail
      ensures this.cumIni == cumIni && this.crcIni == crcIni
    {
      this.nMax := nMax;
      this.dp := dp;
      this.bytess := [];
      this.sixsHead := sixsHead;
      this.tail := tail;
      this.cumIni := cumIni;
      this.crcIni := crcIni;
    }

    /**
     * `Dfs::dfs` from the cell of level `i`, cum `j`, CRC byte `k` and flag `l`, with the
     * sixes after tail six `i - 1` already in `sixs`: every path back to the initial cell
     * completes `sixs`, whose bytes are found, until `nMax` are found; the result says
     * whether they have been.
     */
    method Search(i: nat, j: bv8, k: bv8, l: bv8, sixs: array<bv8>) returns (full: bool)
      requires Valid() && i <= 18 && j < 64 && l < 2 && |bytess| < nMax
      requires Cell(dp, i, j, k, l) != []
      requires i == 0 ==> j == cumIni && k == crcIni && l == 0
      requires sixs.Length == 20 && sixs[..2] == sixsHead
      requires Reached(tail, i, j, k, l, sixs[i + 2..], CrcExpect(sixsHead))
      modifies this, sixs
      ensures Valid() && old(bytess) <= bytess
      ensures full <==> |bytess| == nMax
      ensures sixs[..2] == old(sixs[..2]) && sixs[i + 2..] == old(sixs[i + 2..])
      decreases i, 3
    {
      if i == 0 {
        full := Leaf(i, sixs);
        return;
      }

      var traces := Cell(dp, i, j, k, l);
      assert CellOk(tail, cumIni, crcIni, i, j, k, l, traces) && CellBacked(dp, i, j, k, l);
      for n := 0 to |traces|
        invariant Valid() && |bytess| < nMax && old(bytess) <= bytess
        invariant sixs[..2] == old(sixs[..2]) && sixs[i + 2..] == old(sixs[i + 2..])
      {
        full := Follow(i, j, k, l, traces[n], sixs);
        if full {
          return;
        }
      }
      full := false;
    }

    /**
     * The six between the cum of the back pointer `t` of a cell at level `i` and the cell's
     * cum `j`, stored as six `i + 1` of the password: the path from `t`'s cell continues.
     */
    method PutSix(i: nat, j: bv8, ghost k: bv8, ghost l: bv8, t: DpTrace, sixs: array<bv8>, ghost rest: seq<bv8>)
      requires Valid() && 1 <= i <= 18
      requires sixs.Length == 20 && sixs[i + 2..] == rest
      requires TraceOk(tail, i, j, k, l, t) && Reached(tail, i, j, k, l, rest, CrcExpect(sixsHead))
      modifies sixs
      ensures Valid()
      ensures sixs[..2] == old(sixs[..2]) && sixs[i + 1..] == [SixBetween(t.J(), j)] + rest
      ensures Reached(tail, i - 1, t.J(), t.K(), t.L(), [SixBetween(t.J(), j)] + rest, CrcExpect(sixsHead))
    {
      var six := (j - (t.J() + 4)) & 0x3F;
      sixs[i + 1] := six;
      ReachedBack(tail, i, j, k, l, t, rest, CrcExpect(sixsHead));
      assert sixs[i + 1..] == [six] + rest;
    }

    /** The leaf of `Dfs::dfs`: the sixes are complete, and their bytes are found. */
    method Leaf(i: nat, sixs: array<bv8>) returns (full: bool)
      requires Valid() && i == 0 && |bytess| < nMax
      requires sixs.Length == 20 && sixs[..2] == sixsHead
      requires Reached(tail, i, cumIni, crcIni, 0, sixs[i + 2..], CrcExpect(sixsHead))
      modifies this
      ensures Valid() && old(bytess) <= bytess && |bytess| == |old(bytess)| + 1
      ensures full <==> |bytess| == nMax
    {
      var bytes := LeafBytes(sixsHead, tail, sixs, i);
      AllFoundAppend(sixsHead, tail, bytess, bytes);
      bytess := bytess + [bytes];
      full := |bytess| == nMax;
    }

    /** One round of the loop of `Dfs::dfs`: the six the back pointer `t` gives, and the search from its cell. */
    method Follow(i: nat, j: bv8, k: bv8, l: bv8, t: DpTrace, sixs: array<bv8>) returns (full: bool)
      requires Valid() && 1 <= i <= 18 && j < 64 && l < 2 && |bytess| < nMax
      requires TraceFrom(tail, cumIni, crcIni, i, j, k, l, t) && Targeted(dp, i - 1, t)
      requires sixs.Length == 20 && sixs[..2] == sixsHead
      requires Reached(tail, i, j, k, l, sixs[i + 2..], CrcExpect(sixsHead))
      modifies this, sixs
      ensures Valid() && old(bytess) <= bytess
      ensures full <==> |bytess| == nMax
      ensures sixs[..2] == old(sixs[..2]) && sixs[i + 2..] == old(sixs[i + 2..])
      decreases i, 2
    {
      ghost var rest := sixs[i + 2..];
      PutSix(i, j, k, l, t, sixs, rest);
      full := Descend(i, t, SixBetween(t.J(), j), sixs, rest);
    }

    /** The recursive call of `Dfs::dfs` at the cell `t` points to, with six `i + 1` already stored. */
    method Descend(i: nat, t: DpTrace, ghost six: bv8, sixs: array<bv8>, ghost rest: seq<bv8>) returns (full: bool)
      requires Valid() && 1 <= i <= 18 && |bytess| < nMax && Targeted(dp, i - 1, t)
      requires i == 1 ==> t.J() == cumIni && t.K() == crcIni && t.L() == 0
      requires sixs.Length == 20 && sixs[..2] == sixsHead && sixs[i + 1..] == [six] + rest
      requires Reached(tail, i - 1, t.J(), t.K(), t.L(), [six] + rest, CrcExpect(sixsHead))
      modifies this, sixs
      ensures Valid() && old(bytess) <= bytess
      ensures full <==> |bytess| == nMax
      ensures sixs[..2] == old(sixs[..2]) && sixs[i + 2..] == rest
      decreases i, 1
    {
      full := Search(i - 1, t.J(), t.K(), t.L(), sixs);
      DropFirst(sixs[..], i + 1, six, rest);
    }

    /** The search from the cell of level 18 with cum `cum`, CRC byte `crcExpect` and flag `l`. */
    method Start(cum: bv8, crcExpect: bv8, l: bv8, sixs: array<bv8>) returns (full: bool)
      requires Valid() && cum < 64 && l < 2 && |bytess| < nMax
      requires crcExpect == CrcExpect(sixsHead) && Cell(dp, 18, cum, crcExpect, l) != []
      requires sixs.Length == 20 && sixs[..2] == sixsHead
      modifies this, sixs
      ensures Valid() && old(bytess) <= bytess
      ensures full <==> |bytess| == nMax
      ensures sixs[..2] == old(sixs[..2])
    {
      var i: nat := 18;
      ReachedEnd(tail, cum, crcExpect, l, crcExpect);
      assert sixs[i + 2..] == [];
      full := Search(i, cum, crcExpect, l, sixs);
    }

    /**
     * The loop of `generate_dp_restore` over the pairs of a cum of `cums` and a flag, cum
     * outer and flag inner: a search from each such cell of level 18 with CRC byte
     * `crcExpect` that holds anything, until `nMax` are found.
     */
    method SearchAll(cums: seq<bv8>, crcExpect: bv8, sixs: array<bv8>)
      requires Valid() && |bytess| < nMax && crcExpect == CrcExpect(sixsHead)
      requires tail[17].Some? ==> tail[17].value < 64
      requires cums == CumRange(tail[17])
      requires sixs.Length == 20 && sixs[..2] == sixsHead
      modifies this, sixs
      ensures Valid()
    {
      var m := 0;
      var full := false;
      while m < 2 * |cums| && !full
        invariant m <= 2 * |cums| && Valid() && (full || |bytess| < nMax) && sixs[..2] == sixsHead
      {
        var cum := cums[m / 2];
        var l: bv8 := if m % 2 == 0 then 0 else 1;
        CumRangeAt(tail[17], m / 2);
        if Cell(dp, 18, cum, crcExpect, l) != [] {
          full := Start(cum, crcExpect, l, sixs);
        }
        m := m + 1;
      }
    }
  }

  /** The sixes of the search: zero but for the head sixes. */
  method NewSixs(sixsHead: seq<bv8>) returns (sixs: array<bv8>)
    requires |sixsHead| == 2
    ensures fresh(sixs) && sixs.Length == 20 && sixs[..2] == sixsHead
  {
    sixs := new bv8[20];
    sixs[0] := sixsHead[0];
    sixs[1] := sixsHead[1];
    assert sixs[..2] == sixsHead;
  }

  /**
   * `generate_dp_restore`: a search from every cell of level 18 whose cum the pattern
   * admits for the last character and whose CRC byte is byte 0, until `nMax` are found.
   */
  method GenerateDpRestore(sixsHead: seq<bv8>, tail: seq<Option<bv8>>, nMax: nat, dp: array4<seq<DpTrace>>,
                           ghost cumIni: bv8, ghost crcIni: bv8) returns (bytess: seq<seq<bv8>>)
    requires |sixsHead| == 2 && AllSix(sixsHead) && |tail| == 18 && CumsBounded(tail) && nMax > 0
    requires cumIni == HeadCum(sixsHead) && crcIni == HeadCrc(sixsHead)
    requires DpOk(dp, tail, nMax, cumIni, crcIni)
    ensures |bytess| <= nMax
    ensures forall n :: 0 <= n < |bytess| ==> Found(sixsHead, tail, bytess[n])
  {
    var crcExpect := sixsHead[0] | (sixsHead[1] << 6);
    var dfs := new Dfs(nMax, dp, sixsHead, tail, cumIni, crcIni);
    var sixs := NewSixs(sixsHead);
    assert tail[17].Some? ==> tail[17].value < 64;
    dfs.SearchAll(CumRange(tail[17]), crcExpect, sixs);
    AllFoundIff(sixsHead, tail, dfs.bytess);
    bytess := dfs.bytess;
  }

  // ---------------------------------------------------------------------------
  // `generate`.

  /** The 15 bytes make a password that decodes and agrees with the normalized pattern. */
  predicate Good(pattern: string, bytes: seq<bv8>)
    requires |pattern| == 20
  {
    && |bytes| == 15 && |PasswordOf(bytes)| == 20
    && Decode(PasswordOf(bytes)).Ok? && Matches(pattern, PasswordOf(bytes))
  }

  /**
   * One round of the loop of `generate`: the head sixes that give the head cums `cum0`
   * and `cum1`, and at most `nRemain` byte sequences from the DP over the tail.
   */
  method GenerateHead(pattern: string, cum0: bv8, cum1: bv8, nRemain: nat) returns (partial: seq<seq<bv8>>)
    requires |pattern| == 20 && AllPatternChars(pattern) && nRemain > 0
    requires cum0 in CumRange(PatternCums(pattern)[0]) && cum1 in CumRange(PatternCums(pattern)[1])
    ensures |partial| <= nRemain
    ensures forall n :: 0 <= n < |partial| ==> Good(pattern, partial[n])
  {
    PatternCumsOf(pattern);
    var tail := PatternCums(pattern)[2..];
    assert CumsBounded(tail) by {
      forall i | 0 <= i < |tail| && tail[i].Some?
        ensures tail[i].value < 64
      {
        assert tail[i] == PatternCums(pattern)[i + 2];
      }
    }
    var sixsHead := [(cum0 - 4) & 0x3F, (cum1 - (cum0 + 4)) & 0x3F];
    partial := GenerateDp(sixsHead, tail, nRemain);
    forall n | 0 <= n < |partial|
      ensures Good(pattern, partial[n])
    {
      FoundMatches(pattern, cum0, cum1, partial[n]);
    }
  }

  /** The passwords of the byte sequences, in order (the final `map` of `generate`). */
  method Passwords(bytess: seq<seq<bv8>>) returns (passwords: seq<string>)
    requires forall n :: 0 <= n < |bytess| ==> |bytess[n]| == 15
    ensures |passwords| == |bytess|
    ensures forall n :: 0 <= n < |bytess| ==> passwords[n] == PasswordOf(bytess[n])
  {
    passwords := [];
    for n := 0 to |bytess|
      invariant |passwords| == n
      invariant forall m :: 0 <= m < n ==> passwords[m] == PasswordOf(bytess[m])
    {
      var password := BytesToPassword(bytess[n]);
      passwords := passwords + [password];
    }
  }

  /**
   * `generate`: the pattern's error when it does not normalize; otherwise at most `nMax`
   * passwords, each of 20 characters, each agreeing with the normalized pattern wherever
   * it is not the wildcard, and each decoding to a game state.
   */
  method Generate(pattern: string, nMax: nat) returns (r: Result<seq<string>>)
    ensures NormalizePattern(pattern).Err? ==> r == Err(NormalizePattern(pattern).error)
    ensures NormalizePattern(pattern).Ok? ==> r.Ok?
    ensures r.Ok? ==> |r.value| <= nMax
    ensures r.Ok? ==> forall n :: 0 <= n < |r.value| ==>
      |r.value[n]| == 20 && Decode(r.value[n]).Ok? && Matches(NormalizePattern(pattern).value, r.value[n])
  {
    var normalized :- NormalizePattern(pattern);
    var cums := PatternCums(normalized);
    var range0 := CumRange(cums[0]);
    var range1 := CumRange(cums[1]);

    var bytess: seq<seq<bv8>> := [];
    var nRemain: nat := nMax;
    // The pairs (cum0, cum1) of the product, cum0 outer, until `nRemain` runs out.
    var a := 0;
    while a < |range0| && nRemain > 0
      invariant a <= |range0| && |bytess| + nRemain == nMax
      invariant forall n :: 0 <= n < |bytess| ==> Good(normalized, bytess[n])
    {
      var b := 0;
      while b < |range1| && nRemain > 0
        invariant b <= |range1| && |bytess| + nRemain == nMax
        invariant forall n :: 0 <= n < |bytess| ==> Good(normalized, bytess[n])
      {
        var partial := GenerateHead(normalized, range0[a], range1[b], nRemain);
        nRemain := nRemain - |partial|;
        bytess := bytess + partial;
        b := b + 1;
      }
      a := a + 1;
    }

    var passwords := Passwords(bytess);
    forall n | 0 <= n < |passwords|
      ensures |passwords[n]| == 20 && Decode(passwords[n]).Ok? && Matches(normalized, passwords[n])
    {
      assert Good(normalized, bytess[n]);
    }
    r := Ok(passwords);
  }
}
