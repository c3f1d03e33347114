/**
 * The CRC tables of the pattern generator.  The CRC of a password covers bytes 1..14,
 * which hold the top four bits of six 1 and all six bits of sixes 2..19.  The CRC is
 * linear, so the CRC of those 14 bytes is the XOR, over the sixes, of the CRC of the 14
 * bytes in which only that one six is set: its "weight".  `crc16_table_tail` holds the
 * weights of sixes 2..19 (its row `i` is six `i + 2`), `crc8_table_tail` their low bytes
 * and `crc8_table_head` the low bytes of the weights of the four top bits of six 1.
 *
 * The tables are specified by functions that follow the `crc_update` formulas of
 * `crc16_table_tail`, `crc8_table_tail` and `crc8_table_head`; the lemmas prove those
 * formulas equal the weights, and the methods build the tables in arrays.
 */
module CrcTables {
  import opened Crc
  import opened Codec

  /** `n` zero values. */
  function Zeros(n: nat): (z: seq<bv8>)
    ensures |z| == n
  {
    seq(n, _ => 0)
  }

  lemma ZerosAppend(a: nat, b: nat)
    ensures Zeros(a) + Zeros(b) == Zeros(a + b)
  {
    assert forall i :: 0 <= i < a + b ==> (Zeros(a) + Zeros(b))[i] == 0;
  }

  lemma {:induction false} BytesOfZeros(n: nat)
    ensures BytesOf(Zeros(4 * n)) == Zeros(3 * n)
  {
    if n != 0 {
      assert Zeros(4 * n)[4..] == Zeros(4 * (n - 1));
      BytesOfZeros(n - 1);
      assert GroupBytes(0, 0, 0, 0) == Zeros(3);
      ZerosAppend(3, 3 * (n - 1));
    }
  }

  /** A zero register fed zero bytes stays zero. */
  lemma {:induction false} FoldZeros(n: nat)
    ensures Fold(Zero, Zeros(n)) == Zero
  {
    if n != 0 {
      UpdateZero(8);
      assert Zeros(n)[1..] == Zeros(n - 1);
      FoldZeros(n - 1);
    }
  }

  /** Leading zero bytes do not change the fold from a zero register. */
  lemma FoldAfterZeros(n: nat, x: seq<bv8>)
    ensures Fold(Zero, Zeros(n) + x) == Fold(Zero, x)
  {
    FoldAppend(Zero, Zeros(n), x);
    FoldZeros(n);
  }

  /** The register after three more zero bytes, `crc_update(crc_update(crc_update(r, 0, 8), 0, 8), 0, 8)`. */
  function Advance3(r: Register): Register {
    Update(Update(Update(r, 0, 8), 0, 8), 0, 8)
  }

  lemma FoldThreeZeros(r: Register, x: seq<bv8>)
    ensures Fold(r, x + Zeros(3)) == Advance3(Fold(r, x))
  {
    FoldAppend(r, x, Zeros(3));
    assert Zeros(3)[1..][1..][1..] == [];
  }

  // ---------------------------------------------------------------------------
  // Weights.

  /** The 20 sixes in which only six `p` is set, to `six`. */
  function Unit(p: nat, six: bv8): (u: seq<bv8>)
    requires p < 20
    ensures |u| == 20
  {
    Zeros(p) + [six] + Zeros(19 - p)
  }

  /** The CRC of bytes 1..14 of the bytes of `Unit(p, six)`. */
  function Weight(p: nat, six: bv8): Register
    requires p < 20
  {
    BytesOfLength(Unit(p, six));
    Fold(Zero, BytesOf(Unit(p, six))[1..])
  }

  /** A unit below six 16 is the same unit one group later, moved back by four zeros. */
  lemma UnitShift(p: nat, six: bv8)
    requires p < 16
    ensures Unit(p, six) == (Zeros(p) + [six] + Zeros(15 - p)) + Zeros(4)
    ensures Unit(p + 4, six) == Zeros(4) + (Zeros(p) + [six] + Zeros(15 - p))
  {
    ZerosAppend(15 - p, 4);
    ZerosAppend(4, p);
  }

  /** The bytes of a unit below six 16 are those of the unit one group later, moved by three bytes. */
  lemma UnitShiftBytes(p: nat, six: bv8)
    requires p < 16
    ensures |BytesOf(Zeros(p) + [six] + Zeros(15 - p))| == 12
    ensures BytesOf(Unit(p, six)) == BytesOf(Zeros(p) + [six] + Zeros(15 - p)) + Zeros(3)
    ensures BytesOf(Unit(p + 4, six)) == Zeros(3) + BytesOf(Zeros(p) + [six] + Zeros(15 - p))
  {
    var u16 := Zeros(p) + [six] + Zeros(15 - p);
    UnitShift(p, six);
    BytesOfAppend(u16, Zeros(4));
    BytesOfAppend(Zeros(4), u16);
    BytesOfZeros(1);
    BytesOfLength(u16);
  }

  /** Byte 0 of a unit is clear when the unit is past six 1, or is six 1 with its low two bits clear. */
  lemma UnitByteZero(p: nat, six: bv8)
    requires p < 16
    requires 2 <= p || (p == 1 && six & 3 == 0)
    ensures |BytesOf(Zeros(p) + [six] + Zeros(15 - p))| == 12
    ensures BytesOf(Zeros(p) + [six] + Zeros(15 - p))[0] == 0
  {
    var u16 := Zeros(p) + [six] + Zeros(15 - p);
    BytesOfGroup(u16, 0);
    assert u16[0] == 0;
    assert u16[1] == if p == 1 then six else 0;
    assert BytesOf(u16)[0] == u16[0] | (u16[1] << 6);
  }

  /**
   * The weight of a six is its weight one group later, advanced by three zero bytes:
   * this is the recurrence `table[i] = crc_update³(table[i + 4], 0, 8)` of `crc16_table_tail`.
   */
  lemma WeightShift(p: nat, six: bv8)
    requires p < 16
    requires 2 <= p || (p == 1 && six & 3 == 0)
    ensures Weight(p, six) == Advance3(Weight(p + 4, six))
  {
    var b := BytesOf(Zeros(p) + [six] + Zeros(15 - p));
    UnitShiftBytes(p, six);
    UnitByteZero(p, six);
    assert BytesOf(Unit(p, six))[1..] == b[1..] + Zeros(3);
    FoldThreeZeros(Zero, b[1..]);
    assert BytesOf(Unit(p + 4, six))[1..] == Zeros(2) + b;
    FoldAfterZeros(2, b);
    assert b == [0] + b[1..];
    UpdateZero(8);
  }

  lemma UnitHead(p: nat, six: bv8)
    requires 16 <= p < 20
    ensures Unit(p, six)[..16] == Zeros(16)
  {
    assert forall i :: 0 <= i < 16 ==> Unit(p, six)[i] == 0;
  }

  /** The bytes of a unit of the last group are twelve zeros and the bytes of that group. */
  lemma UnitLastBytes(p: nat, six: bv8)
    requires 16 <= p < 20
    ensures BytesOf(Unit(p, six)) == Zeros(12) + BytesOf(Unit(p, six)[16..])
  {
    var u := Unit(p, six);
    UnitHead(p, six);
    assert u == u[..16] + u[16..];
    BytesOfAppend(Zeros(16), u[16..]);
    BytesOfZeros(4);
  }

  /** Bytes 1..14 of a unit of the last group are eleven zeros and the bytes of that group. */
  lemma UnitLastGroup(p: nat, six: bv8)
    requires 16 <= p < 20
    ensures |BytesOf(Unit(p, six)[16..])| == 3
    ensures BytesOf(Unit(p, six))[1..] == Zeros(11) + BytesOf(Unit(p, six)[16..])
  {
    var g := BytesOf(Unit(p, six)[16..]);
    UnitLastBytes(p, six);
    BytesOfLength(Unit(p, six)[16..]);
    assert (Zeros(12) + g)[1..] == Zeros(12)[1..] + g;
    assert Zeros(12)[1..] == Zeros(11);
  }

  /** The weight of a six of the last group is the fold of that group's three bytes. */
  lemma WeightLastGroup(p: nat, six: bv8)
    requires 16 <= p < 20
    ensures |BytesOf(Unit(p, six)[16..])| == 3
    ensures Weight(p, six) == Fold(Zero, BytesOf(Unit(p, six)[16..]))
  {
    UnitLastGroup(p, six);
    FoldAfterZeros(11, BytesOf(Unit(p, six)[16..]));
  }

  /** The fold of three bytes from a zero register. */
  lemma FoldThree(g: seq<bv8>)
    requires |g| == 3
    ensures Fold(Zero, g) == Update(Update(Update(Zero, g[0], 8), g[1], 8), g[2], 8)
  {
    var r1 := Update(Zero, g[0], 8);
    var r2 := Update(r1, g[1], 8);
    assert Fold(Zero, g) == Fold(r1, g[1..]);
    assert Fold(r1, g[1..]) == Fold(r2, g[2..]);
    assert Fold(r2, g[2..]) == Fold(Update(r2, g[2], 8), g[3..]);
  }

  /** The bytes of a unit of six 0 are that six and fourteen zeros. */
  lemma UnitFirstBytes(six: bv8)
    requires six < 64
    ensures BytesOf(Unit(0, six)) == [six, 0, 0] + Zeros(12)
  {
    var u := Unit(0, six);
    ZerosAppend(3, 16);
    assert u == [six, 0, 0, 0] + Zeros(16);
    BytesOfAppend([six, 0, 0, 0], Zeros(16));
    BytesOfZeros(4);
    assert [six, 0, 0, 0][4..] == [];
    assert GroupBytes(six, 0, 0, 0) == [six, 0, 0];
  }

  /** Six 0 lies in byte 0 only, so it weighs nothing. */
  lemma WeightFirst(six: bv8)
    requires six < 64
    ensures Weight(0, six) == Zero
  {
    UnitFirstBytes(six);
    ZerosAppend(2, 12);
    assert ([six, 0, 0] + Zeros(12))[1..] == Zeros(14);
    FoldZeros(14);
  }

  /** Bytes 1..14 of a unit of six 1 hold only its top four bits. */
  lemma UnitOneBytes(six: bv8)
    ensures |BytesOf(Unit(1, six))| == 15
    ensures BytesOf(Unit(1, six))[1..] == [six >> 2, 0] + Zeros(12)
  {
    var u := Unit(1, six);
    ZerosAppend(2, 16);
    assert u == [0, six, 0, 0] + Zeros(16);
    BytesOfAppend([0, six, 0, 0], Zeros(16));
    BytesOfZeros(4);
    assert [0 as bv8, six, 0, 0][4..] == [];
    assert GroupBytes(0, six, 0, 0) == [six << 6, six >> 2, 0];
  }

  /** Only the top four bits of six 1 weigh: its low two bits lie in byte 0. */
  lemma WeightOne(six: bv8)
    ensures Weight(1, six) == Weight(1, (six >> 2) << 2)
  {
    UnitOneBytes(six);
    UnitOneBytes((six >> 2) << 2);
    assert ((six >> 2) << 2) >> 2 == six >> 2;
  }

  // ---------------------------------------------------------------------------
  // The tables, by the formulas of `crc16_table_tail`, `crc8_table_tail` and `crc8_table_head`.

  /** Entry `j` of row `i` of `crc16_table_tail`. */
  function Tail16(i: nat, j: bv8): Register
    requires i < 18
    decreases 18 - i
  {
    if i == 17 then Update(Zero, j << 2, 8)
    else if i == 16 then Xor(Update(Zero, j >> 4, 2), Update(Update(Zero, j << 4, 8), 0, 8))
    else if i == 15 then
      Xor(Update(Update(Zero, j >> 2, 4), 0, 8), Update(Update(Update(Zero, j << 6, 8), 0, 8), 0, 8))
    else if i == 14 then Update(Update(Update(Zero, j, 6), 0, 8), 0, 8)
    else Advance3(Tail16(i + 4, j))
  }

  /** Entry `j` of row `i` of `crc8_table_tail`: the low byte of the 16-bit entry. */
  function Tail8(i: nat, j: bv8): bv8
    requires i < 18
  {
    Low(Tail16(i, j))
  }

  /** Entry `j` of `crc8_table_head`: row 3, entry `j << 2`, advanced by three zero bytes. */
  function Head8(j: bv8): bv8
    requires j < 16
  {
    Low(Advance3(Tail16(3, j << 2)))
  }

  /** The bytes of one group of four sixes, as a sequence. */
  lemma BytesOfGroupOnly(s: seq<bv8>)
    requires |s| == 4
    ensures BytesOf(s) == GroupBytes(s[0], s[1], s[2], s[3])
  {
    assert s[4..] == [];
  }

  /** The bytes of the last group of a unit of that group, from the group's packing. */
  lemma WeightLastBytes(p: nat, six: bv8, g: seq<bv8>)
    requires 16 <= p < 20
    requires g == GroupBytes(Unit(p, six)[16], Unit(p, six)[17], Unit(p, six)[18], Unit(p, six)[19])
    ensures Weight(p, six) == Update(Update(Update(Zero, g[0], 8), g[1], 8), g[2], 8)
  {
    WeightLastGroup(p, six);
    BytesOfGroupOnly(Unit(p, six)[16..]);
    FoldThree(g);
  }

  /** A byte of at most `m` bits after a byte, split into the byte advanced by zero and the short update. */
  lemma UpdateAfter(a: Register, b: bv8, m: bv8)
    requires 1 <= m <= 7 && b >> m == 0
    ensures Update(a, b, 8) == Xor(Update(a, 0, 8), Update(Zero, b, m))
  {
    assert Xor(a, Zero) == a && 0 ^ b == b;
    UpdateLinear(a, Zero, 0, b, 8);
    UpdateNarrow(b, m);
  }

  lemma Tail17Weight(j: bv8)
    requires j < 64
    ensures Tail16(17, j) == Weight(19, j)
  {
    assert GroupBytes(0, 0, 0, j) == [0, 0, j << 2];
    WeightLastBytes(19, j, [0, 0, j << 2]);
    UpdateZero(8);
  }

  lemma Tail16Weight(j: bv8)
    requires j < 64
    ensures Tail16(16, j) == Weight(18, j)
  {
    assert GroupBytes(0, 0, j, 0) == [0, j << 4, j >> 4];
    WeightLastBytes(18, j, [0, j << 4, j >> 4]);
    UpdateZero(8);
    UpdateAfter(Update(Zero, j << 4, 8), j >> 4, 2);
  }

  lemma Tail15Weight(j: bv8)
    requires j < 64
    ensures Tail16(15, j) == Weight(17, j)
  {
    assert GroupBytes(0, j, 0, 0) == [j << 6, j >> 2, 0];
    WeightLastBytes(17, j, [j << 6, j >> 2, 0]);
    var a := Update(Zero, j << 6, 8);
    UpdateAfter(a, j >> 2, 4);
    UpdateLinear(Update(a, 0, 8), Update(Zero, j >> 2, 4), 0, 0, 8);
  }

  lemma Tail14Weight(j: bv8)
    requires j < 64
    ensures Tail16(14, j) == Weight(16, j)
  {
    assert GroupBytes(j, 0, 0, 0) == [j, 0, 0];
    WeightLastBytes(16, j, [j, 0, 0]);
    UpdateNarrow(j, 6);
  }

  lemma TailWeightBase(i: nat, j: bv8)
    requires 14 <= i < 18 && j < 64
    ensures Tail16(i, j) == Weight(i + 2, j)
  {
    var p := i + 2;
    if i == 17 {
      assert p == 19;
      Tail17Weight(j);
    } else if i == 16 {
      assert p == 18;
      Tail16Weight(j);
    } else if i == 15 {
      assert p == 17;
      Tail15Weight(j);
    } else {
      assert p == 16;
      Tail14Weight(j);
    }
  }

  lemma TailWeightStep(i: nat, j: bv8)
    requires i < 14 && j < 64
    requires Tail16(i + 4, j) == Weight(i + 6, j)
    ensures Tail16(i, j) == Weight(i + 2, j)
  {
    WeightShift(i + 2, j);
  }

  /** Row `i` of `crc16_table_tail` holds the weights of six `i + 2`. */
  lemma {:induction false} TailWeight(i: nat, j: bv8)
    requires i < 18 && j < 64
    ensures Tail16(i, j) == Weight(i + 2, j)
    decreases 18 - i
  {
    if 14 <= i {
      TailWeightBase(i, j);
    } else {
      TailWeight(i + 4, j);
      TailWeightStep(i, j);
    }
  }

  /** `crc8_table_head[j]` is the low byte of the weight of the top four bits `j` of six 1. */
  lemma HeadWeight(j: bv8)
    requires j < 16
    ensures Head8(j) == Low(Weight(1, j << 2))
  {
    TailWeight(3, j << 2);
    WeightShift(1, j << 2);
  }

  // ---------------------------------------------------------------------------
  // Linearity: the CRC of bytes 1..14 is the XOR of the weights of the sixes.

  /** The XOR of two bytes, kept behind a function so that sequence reasoning does not see bit-vectors. */
  function X8(a: bv8, b: bv8): bv8
  {
    a ^ b
  }

  /** The element-wise XOR of two sequences of equal length. */
  function XorBytes(a: seq<bv8>, b: seq<bv8>): (x: seq<bv8>)
    requires |a| == |b|
    ensures |x| == |a|
    decreases |a|
  {
    if |a| == 0 then [] else [X8(a[0], b[0])] + XorBytes(a[1..], b[1..])
  }

  lemma {:induction false} XorBytesAt(a: seq<bv8>, b: seq<bv8>, i: nat)
    requires |a| == |b| && i < |a|
    ensures XorBytes(a, b)[i] == X8(a[i], b[i])
    decreases i
  {
    if i != 0 {
      XorBytesAt(a[1..], b[1..], i - 1);
    }
  }

  lemma {:induction false} XorBytesAppend(a1: seq<bv8>, a2: seq<bv8>, b1: seq<bv8>, b2: seq<bv8>)
    requires |a1| == |b1| && |a2| == |b2|
    ensures XorBytes(a1 + a2, b1 + b2) == XorBytes(a1, b1) + XorBytes(a2, b2)
    decreases |a1|
  {
    if |a1| == 0 {
      assert a1 + a2 == a2 && b1 + b2 == b2;
    } else {
      assert (a1 + a2)[1..] == a1[1..] + a2 && (b1 + b2)[1..] == b1[1..] + b2;
      XorBytesAppend(a1[1..], a2, b1[1..], b2);
    }
  }

  lemma XorBytesTail(a: seq<bv8>, b: seq<bv8>)
    requires |a| == |b| && |a| > 0
    ensures XorBytes(a, b)[1..] == XorBytes(a[1..], b[1..])
  {
  }

  /** The fold is linear in the register and the bytes together. */
  lemma {:induction false} FoldXor(r1: Register, r2: Register, a: seq<bv8>, b: seq<bv8>)
    requires |a| == |b|
    ensures Fold(Xor(r1, r2), XorBytes(a, b)) == Xor(Fold(r1, a), Fold(r2, b))
    decreases |a|
  {
    if |a| != 0 {
      UpdateLinear(r1, r2, a[0], b[0], 8);
      XorBytesTail(a, b);
      FoldXor(Update(r1, a[0], 8), Update(r2, b[0], 8), a[1..], b[1..]);
    }
  }

  /** For sixes the packing ORs disjoint bits, so it is linear. */
  lemma GroupXor(s0: bv8, s1: bv8, s2: bv8, s3: bv8, t0: bv8, t1: bv8, t2: bv8, t3: bv8)
    requires s0 < 64 && s1 < 64 && s2 < 64 && t0 < 64 && t1 < 64 && t2 < 64
    ensures X8(s0, t0) | (X8(s1, t1) << 6) == X8(s0 | (s1 << 6), t0 | (t1 << 6))
    ensures (X8(s1, t1) >> 2) | (X8(s2, t2) << 4) == X8((s1 >> 2) | (s2 << 4), (t1 >> 2) | (t2 << 4))
    ensures (X8(s2, t2) >> 4) | (X8(s3, t3) << 2) == X8((s2 >> 4) | (s3 << 2), (t2 >> 4) | (t3 << 2))
  {
  }

  lemma GroupBytesAt(s0: bv8, s1: bv8, s2: bv8, s3: bv8)
    ensures var g := GroupBytes(s0, s1, s2, s3);
      g[0] == s0 | (s1 << 6) && g[1] == (s1 >> 2) | (s2 << 4) && g[2] == (s2 >> 4) | (s3 << 2)
  {
  }

  lemma XorOne(r: bv8, w: bv8)
    ensures XorBytes([r], [w]) == [X8(r, w)]
  {
    assert [r][1..] == [];
  }

  lemma XorTwo(q: bv8, r: bv8, v: bv8, w: bv8)
    ensures XorBytes([q, r], [v, w]) == [X8(q, v), X8(r, w)]
  {
    assert [q, r][1..] == [r] && [v, w][1..] == [w];
    XorOne(r, w);
  }

  lemma XorThree(p: bv8, q: bv8, r: bv8, u: bv8, v: bv8, w: bv8)
    ensures XorBytes([p, q, r], [u, v, w]) == [X8(p, u), X8(q, v), X8(r, w)]
  {
    assert [p, q, r][1..] == [q, r] && [u, v, w][1..] == [v, w];
    XorTwo(q, r, v, w);
  }

  lemma GroupBytesXor(a0: bv8, a1: bv8, a2: bv8, a3: bv8, b0: bv8, b1: bv8, b2: bv8, b3: bv8)
    requires a0 < 64 && a1 < 64 && a2 < 64 && b0 < 64 && b1 < 64 && b2 < 64
    ensures GroupBytes(X8(a0, b0), X8(a1, b1), X8(a2, b2), X8(a3, b3))
      == XorBytes(GroupBytes(a0, a1, a2, a3), GroupBytes(b0, b1, b2, b3))
  {
    var ga, gb := GroupBytes(a0, a1, a2, a3), GroupBytes(b0, b1, b2, b3);
    var gx := GroupBytes(X8(a0, b0), X8(a1, b1), X8(a2, b2), X8(a3, b3));
    GroupBytesAt(a0, a1, a2, a3);
    GroupBytesAt(b0, b1, b2, b3);
    GroupBytesAt(X8(a0, b0), X8(a1, b1), X8(a2, b2), X8(a3, b3));
    GroupXor(a0, a1, a2, a3, b0, b1, b2, b3);
    XorThree(ga[0], ga[1], ga[2], gb[0], gb[1], gb[2]);
    Display3(ga);
    Display3(gb);
    Display3(gx);
  }

  lemma Display3(g: seq<bv8>)
    requires |g| == 3
    ensures g == [g[0], g[1], g[2]]
  {
  }

  lemma XorBytesDrop4(a: seq<bv8>, b: seq<bv8>)
    requires |a| == |b| && |a| >= 4
    ensures XorBytes(a, b)[4..] == XorBytes(a[4..], b[4..])
  {
    XorBytesAppend(a[..4], a[4..], b[..4], b[4..]);
    assert a == a[..4] + a[4..] && b == b[..4] + b[4..];
  }

  lemma {:induction false} BytesOfXor(a: seq<bv8>, b: seq<bv8>)
    requires |a| == |b| && |a| % 4 == 0 && AllSix(a) && AllSix(b)
    ensures |BytesOf(a)| == |BytesOf(b)|
    ensures BytesOf(XorBytes(a, b)) == XorBytes(BytesOf(a), BytesOf(b))
    decreases |a|
  {
    BytesOfLength(a);
    BytesOfLength(b);
    if |a| != 0 {
      var x := XorBytes(a, b);
      XorBytesDrop4(a, b);
      XorBytesAt(a, b, 0);
      XorBytesAt(a, b, 1);
      XorBytesAt(a, b, 2);
      XorBytesAt(a, b, 3);
      BytesOfXor(a[4..], b[4..]);
      GroupBytesXor(a[0], a[1], a[2], a[3], b[0], b[1], b[2], b[3]);
      XorBytesAppend(GroupBytes(a[0], a[1], a[2], a[3]), BytesOf(a[4..]),
        GroupBytes(b[0], b[1], b[2], b[3]), BytesOf(b[4..]));
    }
  }

  /** The sixes before `m`, followed by zeros. */
  function Trunc(s: seq<bv8>, m: nat): (t: seq<bv8>)
    requires m <= |s|
    ensures |t| == |s|
  {
    s[..m] + Zeros(|s| - m)
  }

  lemma TruncAt(s: seq<bv8>, m: nat, i: nat)
    requires m <= |s| && i < |s|
    ensures Trunc(s, m)[i] == if i < m then s[i] else 0
  {
  }

  lemma UnitAt(p: nat, six: bv8, i: nat)
    requires p < 20 && i < 20
    ensures Unit(p, six)[i] == if i == p then six else 0
  {
  }

  lemma TruncStep(s: seq<bv8>, m: nat)
    requires |s| == 20 && m < 20
    ensures Trunc(s, m + 1) == XorBytes(Trunc(s, m), Unit(m, s[m]))
  {
    forall i | 0 <= i < 20
      ensures Trunc(s, m + 1)[i] == XorBytes(Trunc(s, m), Unit(m, s[m]))[i]
    {
      assert X8(s[i], 0) == s[i] && X8(0, s[m]) == s[m] && X8(0, 0) == 0;
      XorBytesAt(Trunc(s, m), Unit(m, s[m]), i);
      TruncAt(s, m + 1, i);
      TruncAt(s, m, i);
      UnitAt(m, s[m], i);
    }
  }

  lemma TruncSix(s: seq<bv8>, m: nat)
    requires |s| == 20 && m <= 20 && AllSix(s)
    ensures AllSix(Trunc(s, m))
  {
  }

  lemma UnitSix(p: nat, six: bv8)
    requires p < 20 && six < 64
    ensures AllSix(Unit(p, six))
  {
  }

  /** The CRC of bytes 1..14 of the bytes of the sixes before `m`. */
  function PrefixCrc(s: seq<bv8>, m: nat): Register
    requires |s| == 20 && m <= 20
  {
    BytesOfLength(Trunc(s, m));
    Fold(Zero, BytesOf(Trunc(s, m))[1..])
  }

  /** Each six adds its weight to the CRC. */
  lemma PrefixCrcStep(s: seq<bv8>, m: nat)
    requires |s| == 20 && m < 20 && AllSix(s)
    ensures PrefixCrc(s, m + 1) == Xor(PrefixCrc(s, m), Weight(m, s[m]))
  {
    var a, b := Trunc(s, m), Unit(m, s[m]);
    TruncStep(s, m);
    TruncSix(s, m);
    UnitSix(m, s[m]);
    BytesOfXor(a, b);
    BytesOfLength(a);
    BytesOfLength(b);
    XorBytesTail(BytesOf(a), BytesOf(b));
    FoldXor(Zero, Zero, BytesOf(a)[1..], BytesOf(b)[1..]);
    assert Xor(Zero, Zero) == Zero;
  }

  lemma PrefixCrcNone(s: seq<bv8>)
    requires |s| == 20
    ensures PrefixCrc(s, 0) == Zero
  {
    assert Trunc(s, 0) == Zeros(4 * 5);
    BytesOfZeros(5);
    assert Zeros(15)[1..] == Zeros(14);
    FoldZeros(14);
  }

  lemma PrefixCrcAll(s: seq<bv8>)
    requires |s| == 20
    ensures |BytesOf(s)| == 15
    ensures PrefixCrc(s, 20) == Fold(Zero, BytesOf(s)[1..])
  {
    assert Trunc(s, 20) == s;
    BytesOfLength(s);
  }

  // ---------------------------------------------------------------------------
  // What the generator uses: the CRC byte after the head and after each tail six.

  /** After the two head sixes the CRC byte is `crc8_table_head` at the top four bits of six 1. */
  lemma PrefixCrcHead(s: seq<bv8>)
    requires |s| == 20 && AllSix(s)
    ensures Low(PrefixCrc(s, 2)) == Head8(s[1] >> 2)
  {
    PrefixCrcNone(s);
    PrefixCrcStep(s, 0);
    PrefixCrcStep(s, 1);
    WeightFirst(s[0]);
    WeightOne(s[1]);
    HeadWeight(s[1] >> 2);
    assert Xor(Zero, Zero) == Zero;
    assert Xor(Zero, Weight(1, s[1])) == Weight(1, s[1]);
  }

  /** Tail six `i` (six `i + 2`) XORs `crc8_table_tail[i]` at its value into the CRC byte. */
  lemma PrefixCrcTail(s: seq<bv8>, i: nat)
    requires |s| == 20 && AllSix(s) && i < 18
    ensures Low(PrefixCrc(s, i + 3)) == Low(PrefixCrc(s, i + 2)) ^ Tail8(i, s[i + 2])
  {
    PrefixCrcStep(s, i + 2);
    TailWeight(i, s[i + 2]);
    LowXor(PrefixCrc(s, i + 2), Weight(i + 2, s[i + 2]));
  }

  /** The sixes of the last group only, after sixteen zero sixes. */
  lemma LastGroupCrc(b0: bv8, b1: bv8, b2: bv8)
    ensures var s := Zeros(16) + GroupSixes(b0, b1, b2);
      |s| == 20 && AllSix(s) && s[16..] == GroupSixes(b0, b1, b2)
    ensures var s := Zeros(16) + GroupSixes(b0, b1, b2);
      PrefixCrc(s, 16) == Zero && PrefixCrc(s, 20) == Fold(Zero, [b0, b1, b2])
  {
    var g := GroupSixes(b0, b1, b2);
    var s := Zeros(16) + g;
    GroupSixesBounded(b0, b1, b2);
    assert s[16..] == g;
    assert Trunc(s, 16) == Zeros(20) by {
      assert s[..16] == Zeros(16);
      ZerosAppend(16, 4);
    }
    BytesOfZeros(5);
    assert Zeros(15)[1..] == Zeros(14);
    FoldZeros(14);
    PrefixCrcAll(s);
    BytesOfAppend(Zeros(16), g);
    BytesOfZeros(4);
    assert g[4..] == [];
    GroupRoundTrip(b0, b1, b2);
    assert BytesOf(g) == [b0, b1, b2];
    assert BytesOf(s)[1..] == Zeros(11) + [b0, b1, b2];
    FoldAfterZeros(11, [b0, b1, b2]);
  }

  /**
   * The rows 14..17 of `crc16_table_tail` taken at the four sixes of a 3-byte group XOR
   * to the CRC of those three bytes: the table identity `test_crc16_table_tail` checks on one group.
   */
  lemma GroupTables(b0: bv8, b1: bv8, b2: bv8)
    ensures var g := GroupSixes(b0, b1, b2);
      Xor(Xor(Xor(Xor(Zero, Tail16(14, g[0])), Tail16(15, g[1])), Tail16(16, g[2])), Tail16(17, g[3]))
        == Fold(Zero, [b0, b1, b2])
  {
    var g := GroupSixes(b0, b1, b2);
    var s := Zeros(16) + g;
    LastGroupCrc(b0, b1, b2);
    GroupTablesSteps(s);
  }

  lemma GroupTablesSteps(s: seq<bv8>)
    requires |s| == 20 && AllSix(s)
    ensures Xor(Xor(Xor(Xor(PrefixCrc(s, 16), Tail16(14, s[16])), Tail16(15, s[17])), Tail16(16, s[18])), Tail16(17, s[19]))
      == PrefixCrc(s, 20)
  {
    TailStep(s, 14);
    TailStep(s, 15);
    TailStep(s, 16);
    TailStep(s, 17);
    XorChain(PrefixCrc(s, 16), PrefixCrc(s, 17), PrefixCrc(s, 18), PrefixCrc(s, 19), PrefixCrc(s, 20),
      Tail16(14, s[16]), Tail16(15, s[17]), Tail16(16, s[18]), Tail16(17, s[19]));
  }

  lemma XorChain(r0: Register, r1: Register, r2: Register, r3: Register, r4: Register,
                 t0: Register, t1: Register, t2: Register, t3: Register)
    requires r1 == Xor(r0, t0) && r2 == Xor(r1, t1) && r3 == Xor(r2, t2) && r4 == Xor(r3, t3)
    ensures Xor(Xor(Xor(Xor(r0, t0), t1), t2), t3) == r4
  {
  }

  /** Tail six `i` XORs its row of `crc16_table_tail` into the CRC register. */
  lemma TailStep(s: seq<bv8>, i: nat)
    requires |s| == 20 && AllSix(s) && i < 18
    ensures PrefixCrc(s, i + 3) == Xor(PrefixCrc(s, i + 2), Tail16(i, s[i + 2]))
  {
    PrefixCrcStep(s, i + 2);
    TailWeight(i, s[i + 2]);
  }
}
