/**
 * The bit-serial CRC of the password scheme: a 16-bit register shifted MSB first,
 * generator polynomial 0x1021 (x^16 + x^12 + x^5 + 1, the CRC-16-CCITT polynomial of
 * ITU-T Recommendation V.41), initial value 0 and no final XOR.
 *
 * Register values are wrapped in the datatype Register so that the GF(2)-linear
 * algebra of the register (Xor, Step, Clock) is stated over one uninterpreted value
 * and only the lemmas that look inside a value reason about its bits.
 */
module Crc {
  const Poly: bv16 := 0x1021

  /** The contents of the 16-bit CRC register. */
  datatype Register = Register(bits: bv16)

  const Zero := Register(0)

  function Xor(a: Register, b: Register): Register {
    Register(a.bits ^ b.bits)
  }

  /**
   * One clock of the register: shift left, and XOR the polynomial in when bit 15
   * fell out.  The polynomial is masked with the negated bit 15, which is the
   * conditional `crc ^= 0x1021` of `crc_update`'s loop without a branch (TopSet and
   * TopClear state both cases).
   */
  function Step(r: Register): Register {
    Register((r.bits << 1) ^ (-(r.bits >> 15) & Poly))
  }

  /** `n` clocks of the register. */
  function Clock(r: Register, n: bv8): Register
    decreases n, r
  {
    if n == 0 then r else Clock(Step(r), n - 1)
  }

  /** The low `nBits` bits of `data`, moved to the top of the register; higher bits drop out. */
  function Feed(data: bv8, nBits: bv8): Register
    requires 1 <= nBits <= 8
  {
    Register((data as bv16) << (16 - nBits as bv16))
  }

  /** The register after feeding the low `nBits` bits of `data`, most significant bit first. */
  function Update(pre: Register, data: bv8, nBits: bv8): Register
    requires 1 <= nBits <= 8
  {
    Clock(Xor(pre, Feed(data, nBits)), nBits)
  }

  /** One round of the shift loop of `crc_update`, on the bare 16-bit register. */
  function Round(crc: bv16): bv16 {
    if crc & (1 << 15) != 0 then (crc << 1) ^ 0x1021 else crc << 1
  }

  /** `crc_update`: XOR the data into the top of the register, then shift it `nBits` times. */
  method CrcUpdate(crcPre: bv16, data: bv8, nBits: bv8) returns (crc: bv16)
    requires 1 <= nBits <= 8
    ensures Register(crc) == Update(Register(crcPre), data, nBits)
  {
    crc := crcPre ^ ((data as bv16) << (16 - nBits));
    FeedIs(crcPre, data, nBits, crc);
    var i: bv8 := 0;
    while i < nBits
      invariant i <= nBits
      invariant Clock(Register(crc), nBits - i) == Update(Register(crcPre), data, nBits)
    {
      RoundIs(crc);
      ClockUnfold(Register(crc), nBits - i);
      crc := Round(crc);
      i := i + 1;
    }
  }

  lemma FeedIs(crcPre: bv16, data: bv8, nBits: bv8, crc: bv16)
    requires 1 <= nBits <= 8
    requires crc == crcPre ^ ((data as bv16) << (16 - nBits))
    ensures Register(crc) == Xor(Register(crcPre), Feed(data, nBits))
  {}

  lemma TopSet(pre: bv16)
    requires pre & 0x8000 != 0
    ensures Step(Register(pre)).bits == (pre << 1) ^ Poly
  {
    assert pre >> 15 == 1;
  }

  lemma TopClear(pre: bv16)
    requires pre & 0x8000 == 0
    ensures Step(Register(pre)).bits == pre << 1
  {
    assert pre >> 15 == 0;
  }

  /** One pass of `crc_update`'s `while` loop is one clock of the register. */
  lemma RoundIs(crc: bv16)
    ensures Register(Round(crc)) == Step(Register(crc))
  {
    if crc & 0x8000 != 0 {
      TopSet(crc);
    } else {
      TopClear(crc);
    }
  }

  lemma ClockUnfold(r: Register, n: bv8)
    requires n != 0
    ensures Clock(r, n) == Clock(Step(r), n - 1)
  {}

  /** The low byte of the register, which is what the password stores. */
  function Low(r: Register): bv8 {
    (r.bits & 0xFF) as bv8
  }

  /** The register after feeding `bytes` eight bits at a time, in order (the `fold` over `crc_update(crc, b, 8)` of `state_to_bytes` and `check_bytes_crc`). */
  function Fold(r: Register, bytes: seq<bv8>): Register
    decreases |bytes|
  {
    if |bytes| == 0 then r else Fold(Update(r, bytes[0], 8), bytes[1..])
  }

  // ---------------------------------------------------------------------------
  // Concrete vectors.

  /**
   * A zero register fed zero bits stays zero; one 1 bit yields the polynomial; the
   * 2-bit updates 0b10 and 0b11 give 0x2042 and 0x3063, and two 1-bit updates of 1
   * equal the 2-bit update of 0b11.
   */
  lemma SmallVectors()
    ensures Update(Zero, 0, 1) == Zero && Update(Zero, 0, 8) == Zero
    ensures Update(Zero, 1, 1).bits == 0x1021
    ensures Update(Zero, 2, 2).bits == 0x2042
    ensures Update(Zero, 3, 2).bits == 0x3063
    ensures Update(Update(Zero, 1, 1), 1, 1).bits == 0x3063
  {}

  /** Two 8-bit updates of 0xFF from a zero register give 0x1D0F. */
  lemma KnownVector()
    ensures Update(Update(Zero, 0xFF, 8), 0xFF, 8).bits == 0x1D0F
  {}

  // ---------------------------------------------------------------------------
  // Linearity over GF(2).

  lemma XorAssoc(a: Register, b: Register, c: Register)
    ensures Xor(Xor(a, b), c) == Xor(a, Xor(b, c))
  {}

  lemma XorRegroup(a: Register, b: Register, x: Register, y: Register)
    ensures Xor(Xor(a, b), Xor(x, y)) == Xor(Xor(a, x), Xor(b, y))
  {}

  lemma StepLinear(a: Register, b: Register)
    ensures Step(Xor(a, b)) == Xor(Step(a), Step(b))
  {}

  lemma {:induction false} ClockLinear(a: Register, b: Register, n: bv8)
    ensures Clock(Xor(a, b), n) == Xor(Clock(a, n), Clock(b, n))
    decreases n
  {
    if n != 0 {
      StepLinear(a, b);
      ClockLinear(Step(a), Step(b), n - 1);
    }
  }

  lemma FeedXor(d: bv8, e: bv8, nBits: bv8)
    requires 1 <= nBits <= 8
    ensures Feed(d ^ e, nBits) == Xor(Feed(d, nBits), Feed(e, nBits))
  {}

  /** XOR-linearity of `crc_update`, in the register and the data together. */
  lemma UpdateLinear(a: Register, b: Register, d: bv8, e: bv8, nBits: bv8)
    requires 1 <= nBits <= 8
    ensures Update(Xor(a, b), d ^ e, nBits) == Xor(Update(a, d, nBits), Update(b, e, nBits))
  {
    FeedXor(d, e, nBits);
    XorRegroup(a, b, Feed(d, nBits), Feed(e, nBits));
    ClockLinear(Xor(a, Feed(d, nBits)), Xor(b, Feed(e, nBits)), nBits);
  }

  lemma LowXor(a: Register, b: Register)
    ensures Low(Xor(a, b)) == Low(a) ^ Low(b)
  {}

  lemma {:induction false} ClockZero(n: bv8)
    ensures Clock(Zero, n) == Zero
    decreases n
  {
    if n != 0 {
      assert Step(Zero) == Zero;
      ClockZero(n - 1);
    }
  }

  /** A zero register fed zero bits stays zero, for every width. */
  lemma UpdateZero(nBits: bv8)
    requires 1 <= nBits <= 8
    ensures Update(Zero, 0, nBits) == Zero
  {
    assert Xor(Zero, Feed(0, nBits)) == Zero;
    ClockZero(nBits);
  }

  /** Eight clocks, written out. */
  lemma ClockEight(r: Register)
    ensures Clock(r, 8) == Step(Step(Step(Step(Step(Step(Step(Step(r))))))))
  {
    var r1 := Step(r);
    var r2 := Step(r1);
    var r3 := Step(r2);
    var r4 := Step(r3);
    var r5 := Step(r4);
    var r6 := Step(r5);
    var r7 := Step(r6);
    ClockUnfold(r, 8);
    ClockUnfold(r1, 7);
    ClockUnfold(r2, 6);
    ClockUnfold(r3, 5);
    ClockUnfold(r4, 4);
    ClockUnfold(r5, 3);
    ClockUnfold(r6, 2);
    ClockUnfold(r7, 1);
  }

  /** A nonzero byte fed to a zero register leaves a nonzero low byte. */
  lemma NonzeroLow(t: bv8)
    requires t != 0
    ensures Low(Update(Zero, t, 8)) != 0
  {
    ClockEight(Xor(Zero, Feed(t, 8)));
  }

  // ---------------------------------------------------------------------------
  // Only the low `nBits` bits of the data matter.

  /** The mask of the low `n` bits of a byte. */
  function Mask(n: bv8): bv8
    requires 1 <= n <= 8
  {
    0xFF >> (8 - n)
  }

  lemma LowBitsOnly(r: Register, data: bv8, nBits: bv8)
    requires 1 <= nBits <= 8
    ensures Update(r, data, nBits) == Update(r, data & Mask(nBits), nBits)
  {
    assert Feed(data, nBits) == Feed(data & Mask(nBits), nBits);
  }

  // ---------------------------------------------------------------------------
  // Splitting an update: feeding `a` bits and then `b` bits is feeding `a + b` bits.

  lemma {:induction false} ClockAdd(r: Register, a: bv8, b: bv8)
    requires a <= 8 && b <= 8
    ensures Clock(r, a + b) == Clock(Clock(r, a), b)
    decreases a
  {
    if a != 0 {
      ClockAdd(Step(r), a - 1, b);
    }
  }

  lemma ShiftFacts(x: bv16, k: bv8)
    requires 1 <= k <= 8
    requires x >> (16 - k as bv16) == 0
    ensures x & 0x8000 == 0
    ensures (x << 1) >> (16 - (k - 1) as bv16) == 0
    ensures (x << 1) << ((k - 1) as bv16) == x << (k as bv16)
  {}

  lemma ClockTopClear(r: Register, k: bv8)
    requires k != 0
    requires r.bits & 0x8000 == 0
    ensures Clock(r, k) == Clock(Register(r.bits << 1), k - 1)
  {
    TopClear(r.bits);
  }

  /** While no set bit reaches bit 15, clocking the register is a plain shift. */
  lemma {:induction false} ClockShift(r: Register, k: bv8)
    requires k <= 8
    requires r.bits >> (16 - k as bv16) == 0
    ensures Clock(r, k) == Register(r.bits << (k as bv16))
    decreases k
  {
    if k == 0 {
      assert r.bits << 0 == r.bits;
    } else {
      ShiftFacts(r.bits, k);
      ClockTopClear(r, k);
      ClockShift(Register(r.bits << 1), k - 1);
    }
  }

  /** The `b` low data bits of a split update, placed below the `a` high ones. */
  function Tail(lo: bv8, a: bv8, b: bv8): Register
    requires 1 <= a <= 8 && 1 <= b <= 8 && a + b <= 8
  {
    Register((lo as bv16) << (16 - (a + b) as bv16))
  }

  lemma JoinBits(hi: bv8, lo: bv8, b: bv8)
    requires 1 <= b <= 7
    requires lo >> b == 0
    ensures ((hi << b) | lo) as bv16 == ((hi << b) as bv16) ^ (lo as bv16)
  {}

  lemma ShiftXor(x: bv16, y: bv16, s: bv16)
    requires s <= 16
    ensures (x ^ y) << s == (x << s) ^ (y << s)
  {}

  lemma ShiftJoin(hi: bv8, a: bv8, b: bv8)
    requires 1 <= a <= 8 && 1 <= b <= 8 && a + b <= 8
    ensures ((hi << b) as bv16) << (16 - (a + b) as bv16) == (hi as bv16) << (16 - a as bv16)
  {}

  lemma FeedSplit(hi: bv8, lo: bv8, a: bv8, b: bv8)
    requires 1 <= a <= 8 && 1 <= b <= 8 && a + b <= 8
    requires lo >> b == 0
    ensures Feed((hi << b) | lo, a + b) == Xor(Feed(hi, a), Tail(lo, a, b))
  {
    var s := 16 - (a + b) as bv16;
    JoinBits(hi, lo, b);
    ShiftXor((hi << b) as bv16, lo as bv16, s);
    ShiftJoin(hi, a, b);
  }

  lemma TailTop(lo: bv8, a: bv8, b: bv8)
    requires 1 <= a <= 8 && 1 <= b <= 8 && a + b <= 8
    requires lo >> b == 0
    ensures Tail(lo, a, b).bits >> (16 - a as bv16) == 0
  {}

  lemma TailShift(lo: bv8, a: bv8, b: bv8)
    requires 1 <= a <= 8 && 1 <= b <= 8 && a + b <= 8
    requires lo >> b == 0
    ensures Tail(lo, a, b).bits << (a as bv16) == Feed(lo, b).bits
  {}

  /**
   * Splitting: an `a`-bit update of `hi` followed by a `b`-bit update of `lo` is one
   * `(a + b)`-bit update of `hi` and `lo` concatenated, when `lo` fits in `b` bits.
   */
  lemma UpdateSplit(c: Register, hi: bv8, lo: bv8, a: bv8, b: bv8)
    requires 1 <= a <= 8 && 1 <= b <= 8 && a + b <= 8
    requires lo >> b == 0
    ensures Update(Update(c, hi, a), lo, b) == Update(c, (hi << b) | lo, a + b)
  {
    var x := Xor(c, Feed(hi, a));
    var g := Tail(lo, a, b);
    FeedSplit(hi, lo, a, b);
    XorAssoc(c, Feed(hi, a), g);
    ClockAdd(Xor(x, g), a, b);
    ClockLinear(x, g, a);
    TailTop(lo, a, b);
    ClockShift(g, a);
    TailShift(lo, a, b);
  }

  /** Feeding a small value to a zero register as a whole byte equals feeding only its width. */
  lemma UpdateNarrow(d: bv8, m: bv8)
    requires 1 <= m <= 7
    requires d >> m == 0
    ensures Update(Zero, d, 8) == Update(Zero, d, m)
  {
    UpdateZero(8 - m);
    UpdateSplit(Zero, 0, d, 8 - m, m);
    assert (0 as bv8 << m) | d == d;
  }

  // ---------------------------------------------------------------------------
  // The byte fold.

  lemma {:induction false} FoldAppend(r: Register, a: seq<bv8>, b: seq<bv8>)
    ensures Fold(r, a + b) == Fold(Fold(r, a), b)
    decreases |a|
  {
    if |a| == 0 {
      assert a + b == b;
    } else {
      assert (a + b)[1..] == a[1..] + b;
      FoldAppend(Update(r, a[0], 8), a[1..], b);
    }
  }

  /** Folding one more byte is one more 8-bit update. */
  lemma FoldSnoc(r: Register, a: seq<bv8>, x: bv8)
    ensures Fold(r, a + [x]) == Update(Fold(r, a), x, 8)
  {
    FoldAppend(r, a, [x]);
    assert [x][1..] == [];
  }

  /** The byte-wise CRC fold `bytes.iter().fold(0, |crc, &b| crc_update(crc, b, 8))`. */
  method FoldBytes(bytes: seq<bv8>) returns (crc: bv16)
    ensures Register(crc) == Fold(Zero, bytes)
  {
    crc := 0;
    for i := 0 to |bytes|
      invariant Register(crc) == Fold(Zero, bytes[..i])
    {
      FoldSnoc(Zero, bytes[..i], bytes[i]);
      assert bytes[..i + 1] == bytes[..i] + [bytes[i]];
      crc := CrcUpdate(crc, bytes[i], 8);
    }
    assert bytes[..|bytes|] == bytes;
  }

  /** Two different bytes fed into the same register give two different low bytes. */
  lemma ByteChange(r: Register, x: bv8, y: bv8)
    requires x != y
    ensures Low(Update(r, y, 8)) != Low(Update(r, x, 8))
  {
    var t := x ^ y;
    assert x ^ t == y;
    assert Xor(r, Zero) == r;
    UpdateLinear(r, Zero, x, t, 8);
    LowXor(Update(r, x, 8), Update(Zero, t, 8));
    NonzeroLow(t);
  }
}
