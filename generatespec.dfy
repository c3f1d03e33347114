/**
 * What the pattern generator searches for, stated on the 20 sixes of a password.
 *
 * A password is fixed by its sixes `s`: its bytes are `BytesOf(s)` and its cums are
 * `CumsFrom(0, s)`.  The generator fixes the two head sixes, then runs a DP over the 18
 * tail sixes whose state after tail six `i - 1` is the cum of character `i + 1`, the CRC
 * byte so far, and whether the top two bits of the last six were both set.  This module
 * defines the DP's step (`Allowed`, `Chain`) and proves that a path through it is exactly
 * a password that decodes and agrees with the pattern.
 */
module GenerateSpec {
  import opened Errors
  import opened Crc
  import opened Alphabet
  import opened Codec
  import opened CrcTables
  import opened Normalize
  import opened Validate
  import opened GameStates
  import opened Decoder

  // ---------------------------------------------------------------------------
  // The back pointers of the DP.

  /** `DpTrace`: the CRC byte in bits 0-7, the cum in bits 8-13 and the flag in bit 14. */
  datatype DpTrace = DpTrace(bits: bv16) {
    /** `j`: the cum, which the mask keeps below 64. */
    function J(): (j: bv8)
      ensures j < 64
    {
      ((bits >> 8) & 0x3F) as bv8
    }

    function K(): bv8 {
      (bits & 0xFF) as bv8
    }

    /** `l`: the two top bits, so the flag of every trace with bit 15 clear. */
    function L(): (l: bv8)
      ensures l < 4
      ensures bits < 0x8000 ==> l < 2
    {
      (bits >> 14) as bv8
    }
  }

  /** `DpTrace::new`: the accessors read back the cum, the CRC byte and the flag. */
  function NewTrace(j: bv8, k: bv8, l: bv8): (t: DpTrace)
    requires j < 64 && l < 2
    ensures t.J() == j && t.K() == k && t.L() == l
  {
    DpTrace((k as bv16) | ((j as bv16) << 8) | ((l as bv16) << 14))
  }

  /** Conversely, every trace with bit 15 clear is the `DpTrace::new` of its own fields. */
  lemma TraceOfFields(t: DpTrace)
    requires t.bits < 0x8000
    ensures t == NewTrace(t.J(), t.K(), t.L())
  {
    var b := t.bits;
    assert b == (b & 0xFF) | (((b >> 8) & 0x3F) << 8) | ((b >> 14) << 14);
  }

  // ---------------------------------------------------------------------------
  // The pattern.

  /** `cum_range`: every cum for a wildcard, otherwise the one cum given. */
  function CumRange(opt: Option<bv8>): (r: seq<bv8>)
    ensures |r| == if opt.None? then 64 else 1
    ensures forall c :: c in r <==> if opt.None? then c < 64 else c == opt.value
  {
    match opt
    case None =>
      var r := seq(64, i requires 0 <= i < 64 => i as bv8);
      EveryCum(r);
      r
    case Some(x) => [x]
  }

  lemma EveryCum(r: seq<bv8>)
    requires r == seq(64, i requires 0 <= i < 64 => i as bv8)
    ensures forall c: bv8 :: c < 64 ==> c in r
  {
    forall c: bv8 | c < 64
      ensures c in r
    {
      assert r[c as int] == c;
    }
  }

  /** Every entry of a bounded cum's range is a cum in that range. */
  lemma CumRangeAt(opt: Option<bv8>, n: nat)
    requires opt.Some? ==> opt.value < 64
    requires n < |CumRange(opt)|
    ensures CumRange(opt)[n] < 64 && CumRange(opt)[n] in CumRange(opt)
  {
  }

  /** The cum of each character of a normalized pattern, none for the wildcard. */
  function PatternCums(pattern: string): (cums: seq<Option<bv8>>)
    requires |pattern| == 20
    ensures |cums| == 20
  {
    seq(20, i requires 0 <= i < 20 => PasswordCharToCum(pattern[i]))
  }

  /** The given cums are cums. */
  predicate CumsBounded(cums: seq<Option<bv8>>) {
    forall i :: 0 <= i < |cums| && cums[i].Some? ==> cums[i].value < 64
  }

  /** A password agrees with a pattern at each position that is not the wildcard. */
  predicate Matches(pattern: string, password: string)
    requires |pattern| == 20 && |password| == 20
  {
    forall i :: 0 <= i < 20 && pattern[i] != Wildcard ==> password[i] == pattern[i]
  }

  /** The pattern's cums are bounded, and a wildcard is exactly a position without a cum. */
  lemma PatternCumsOf(pattern: string)
    requires |pattern| == 20 && AllPatternChars(pattern)
    ensures CumsBounded(PatternCums(pattern))
    ensures forall i :: 0 <= i < 20 ==> (PatternCums(pattern)[i].None? <==> pattern[i] == Wildcard)
  {
    forall i | 0 <= i < 20
      ensures PatternCums(pattern)[i].Some? ==> PatternCums(pattern)[i].value < 64
      ensures PatternCums(pattern)[i].None? <==> pattern[i] == Wildcard
    {
      PasswordCharToCumInverse(pattern[i]);
    }
  }

  // ---------------------------------------------------------------------------
  // One step of the DP.

  /**
   * The pruning of `generate_dp`: may tail six `i` take the value `six` when `l` says
   * the top two bits of the six before were both set?  Tail six 11 holds the herb
   * count in its top four bits, tail six 12 the key count in its low four; tail sixes
   * 2, 3, 6, 7, 13 and 17 hold whole inventory nibbles or the high halves of ones that
   * started in the six before.
   */
  predicate Allowed(i: nat, l: bv8, six: bv8): (ok: bool)
    ensures !(i in {2, 3, 6, 7, 11, 12, 13, 17}) ==> ok
    ensures six == 0 ==> ok
  {
    && !(i == 11 && six >> 2 >= 7)
    && !(i == 12 && six & 0xF >= 7)
    && !((i == 2 || i == 6) && six & 0xF == 15)
    && !((i == 13 || i == 17) && six >> 2 == 15)
    && !((i == 3 || i == 7 || i == 13 || i == 17) && l == 1 && six & 3 == 3)
  }

  /** The flag of the next DP cell: whether the top two bits of `six` are both set. */
  function LNext(six: bv8): (l: bv8)
    ensures l < 2
    ensures l == 1 <==> six >> 4 == 3
  {
    if six >> 4 == 3 then 1 else 0
  }

  /** The cum the DP starts the tail from: that of character 1. */
  function HeadCum(sixsHead: seq<bv8>): bv8
    requires |sixsHead| == 2
  {
    (sixsHead[0] + sixsHead[1] + 8) & 0x3F
  }

  /** The CRC byte the DP starts the tail from. */
  function HeadCrc(sixsHead: seq<bv8>): bv8
    requires |sixsHead| == 2 && AllSix(sixsHead)
  {
    Head8(sixsHead[1] >> 2)
  }

  /** The CRC byte the DP must end with: byte 0 of the state bytes. */
  function CrcExpect(sixsHead: seq<bv8>): bv8
    requires |sixsHead| == 2
  {
    sixsHead[0] | (sixsHead[1] << 6)
  }

  /**
   * A path through the DP from tail level `i`, cum `j`, CRC byte `k` and flag `l`: the
   * sixes `rest` are tail sixes `i` to 17; each is allowed and lands on a cum the
   * pattern admits, and the CRC byte at the end is `crcExpect`.
   */
  predicate Chain(tail: seq<Option<bv8>>, i: nat, j: bv8, k: bv8, l: bv8, rest: seq<bv8>, crcExpect: bv8)
    requires |tail| == 18 && i <= 18 && |rest| == 18 - i
    decreases 18 - i
  {
    if i == 18 then
      k == crcExpect
    else
      var six := rest[0];
      var cum := NextCum(j, six);
      && six < 64 && cum in CumRange(tail[i]) && Allowed(i, l, six)
      && Chain(tail, i + 1, cum, k ^ Tail8(i, six), LNext(six), rest[1..], crcExpect)
  }

  /**
   * A back pointer `t` stored in the DP cell of tail level `i` >= 1 with cum `c`, CRC
   * byte `k` and flag `l`: the cell it points to at level `i - 1` steps to this one with
   * the six between the two cums, which the pattern admits and the pruning allows.
   */
  predicate TraceOk(tail: seq<Option<bv8>>, i: nat, c: bv8, k: bv8, l: bv8, t: DpTrace)
    requires |tail| == 18 && 1 <= i <= 18
  {
    var six := SixBetween(t.J(), c);
    && c < 64 && t.J() < 64 && t.L() < 2
    && c in CumRange(tail[i - 1]) && Allowed(i - 1, t.L(), six)
    && k == t.K() ^ Tail8(i - 1, six) && l == LNext(six)
  }

  /** Following a back pointer extends a path by the six between the two cums. */
  lemma ChainBack(tail: seq<Option<bv8>>, i: nat, c: bv8, k: bv8, l: bv8, t: DpTrace, rest: seq<bv8>, crcExpect: bv8)
    requires |tail| == 18 && 1 <= i <= 18 && |rest| == 18 - i
    requires TraceOk(tail, i, c, k, l, t) && Chain(tail, i, c, k, l, rest, crcExpect)
    ensures Chain(tail, i - 1, t.J(), t.K(), t.L(), [SixBetween(t.J(), c)] + rest, crcExpect)
  {
    var six := SixBetween(t.J(), c);
    NextCumSixBetween(t.J(), c);
    assert ([six] + rest)[0] == six && ([six] + rest)[1..] == rest;
    ChainUnfold(tail, i - 1, t.J(), t.K(), t.L(), [six] + rest, c, k, l, rest, crcExpect);
  }

  /**
   * A path, as the search carries it: `Chain` behind a two-step countdown (`ChainIn`).
   * The search only passes paths along and extends them with `ReachedBack`; the
   * countdown keeps the solver from unfolding the path inside the search, and
   * `ChainInIs` unfolds it in the lemmas that look inside.
   */
  predicate Reached(tail: seq<Option<bv8>>, i: nat, j: bv8, k: bv8, l: bv8, rest: seq<bv8>, crcExpect: bv8)
    requires |tail| == 18 && i <= 18 && |rest| == 18 - i
  {
    ChainIn(tail, i, j, k, l, rest, crcExpect, i + 2)
  }

  /** Solver aid: `Chain` after `steps` idle unfoldings; it means `Chain` (`ChainInIs`). */
  predicate ChainIn(tail: seq<Option<bv8>>, i: nat, j: bv8, k: bv8, l: bv8, rest: seq<bv8>, crcExpect: bv8, steps: nat)
    requires |tail| == 18 && i <= 18 && |rest| == 18 - i
    decreases steps
  {
    if steps == 0 then Chain(tail, i, j, k, l, rest, crcExpect) else ChainIn(tail, i, j, k, l, rest, crcExpect, steps - 1)
  }

  /** Solver aid: the countdown of `ChainIn` changes nothing. */
  lemma {:induction false} ChainInIs(tail: seq<Option<bv8>>, i: nat, j: bv8, k: bv8, l: bv8, rest: seq<bv8>, crcExpect: bv8, steps: nat)
    requires |tail| == 18 && i <= 18 && |rest| == 18 - i
    ensures ChainIn(tail, i, j, k, l, rest, crcExpect, steps) == Chain(tail, i, j, k, l, rest, crcExpect)
    decreases steps
  {
    if steps > 0 {
      ChainInIs(tail, i, j, k, l, rest, crcExpect, steps - 1);
    }
  }

  /** Solver aid: `Reached` is `Chain`; the lemmas below call it where they look inside a path. */
  lemma ReachedIs(tail: seq<Option<bv8>>, i: nat, j: bv8, k: bv8, l: bv8, rest: seq<bv8>, crcExpect: bv8)
    requires |tail| == 18 && i <= 18 && |rest| == 18 - i
    ensures Reached(tail, i, j, k, l, rest, crcExpect) == Chain(tail, i, j, k, l, rest, crcExpect)
  {
    ChainInIs(tail, i, j, k, l, rest, crcExpect, i + 2);
  }

  /** A search starts at a cell of level 18 whose CRC byte is the expected one. */
  lemma ReachedEnd(tail: seq<Option<bv8>>, j: bv8, k: bv8, l: bv8, crcExpect: bv8)
    requires |tail| == 18 && k == crcExpect
    ensures Reached(tail, 18, j, k, l, [], crcExpect)
  {
    ReachedIs(tail, 18, j, k, l, [], crcExpect);
  }

  /** Following a back pointer extends a reached path by the six between the two cums. */
  lemma ReachedBack(tail: seq<Option<bv8>>, i: nat, c: bv8, k: bv8, l: bv8, t: DpTrace, rest: seq<bv8>, crcExpect: bv8)
    requires |tail| == 18 && 1 <= i <= 18 && |rest| == 18 - i
    requires TraceOk(tail, i, c, k, l, t) && Reached(tail, i, c, k, l, rest, crcExpect)
    ensures Reached(tail, i - 1, t.J(), t.K(), t.L(), [SixBetween(t.J(), c)] + rest, crcExpect)
  {
    ReachedIs(tail, i, c, k, l, rest, crcExpect);
    ChainBack(tail, i, c, k, l, t, rest, crcExpect);
    ReachedIs(tail, i - 1, t.J(), t.K(), t.L(), [SixBetween(t.J(), c)] + rest, crcExpect);
  }

  /** The sixes of a path are sixes. */
  lemma {:induction false} ChainSix(tail: seq<Option<bv8>>, i: nat, j: bv8, k: bv8, l: bv8, rest: seq<bv8>, crcExpect: bv8)
    requires |tail| == 18 && i <= 18 && |rest| == 18 - i
    requires Chain(tail, i, j, k, l, rest, crcExpect)
    ensures AllSix(rest)
    decreases 18 - i
  {
    if i < 18 {
      var six := rest[0];
      ChainSix(tail, i + 1, NextCum(j, six), k ^ Tail8(i, six), LNext(six), rest[1..], crcExpect);
      assert rest == [six] + rest[1..];
    }
  }

  // ---------------------------------------------------------------------------
  // The same conditions on a whole sequence of sixes.

  /** The flag of tail level `i`: 0 at the start, then that of six `i + 1`. */
  function LBit(s: seq<bv8>, i: nat): bv8
    requires |s| == 20 && i < 19
  {
    if i == 0 then 0 else LNext(s[i + 1])
  }

  /** Tail six `t` lands on a cum the pattern admits and is allowed. */
  predicate StepOk(tail: seq<Option<bv8>>, s: seq<bv8>, t: nat)
    requires |tail| == 18 && |s| == 20 && t < 18
  {
    CumsFrom(0, s)[t + 2] in CumRange(tail[t]) && Allowed(t, LBit(s, t), s[t + 2])
  }

  /** The DP state on the way through `s` at tail level `i`, and the path from there is `s`'s tail. */
  predicate ChainAt(tail: seq<Option<bv8>>, s: seq<bv8>, i: nat, crcExpect: bv8)
    requires |tail| == 18 && |s| == 20 && i <= 18
  {
    Chain(tail, i, CumsFrom(0, s)[i + 1], Low(PrefixCrc(s, i + 2)), LBit(s, i), s[i + 2..], crcExpect)
  }

  /** Every tail six from `i` on is allowed and lands on a cum the pattern admits. */
  predicate StepsOk(tail: seq<Option<bv8>>, s: seq<bv8>, i: nat)
    requires |tail| == 18 && |s| == 20
  {
    forall t :: i <= t < 18 ==> StepOk(tail, s, t)
  }

  /** The path along `s` from tail level `i` exists exactly when each of its steps is ok and the CRC byte ends right. */
  lemma {:induction false} ChainIff(tail: seq<Option<bv8>>, s: seq<bv8>, i: nat, crcExpect: bv8)
    requires |tail| == 18 && |s| == 20 && AllSix(s) && i <= 18
    ensures ChainAt(tail, s, i, crcExpect) <==> StepsOk(tail, s, i) && Low(PrefixCrc(s, 20)) == crcExpect
    decreases 18 - i
  {
    if i < 18 {
      ChainIff(tail, s, i + 1, crcExpect);
      ChainStep(tail, s, i, crcExpect);
      StepsOkSplit(tail, s, i);
    }
  }

  lemma StepsOkSplit(tail: seq<Option<bv8>>, s: seq<bv8>, i: nat)
    requires |tail| == 18 && |s| == 20 && i < 18
    ensures StepsOk(tail, s, i) <==> StepOk(tail, s, i) && StepsOk(tail, s, i + 1)
  {
  }

  /** One step of the path along `s`. */
  lemma ChainStep(tail: seq<Option<bv8>>, s: seq<bv8>, i: nat, crcExpect: bv8)
    requires |tail| == 18 && |s| == 20 && AllSix(s) && i < 18
    ensures ChainAt(tail, s, i, crcExpect) <==> StepOk(tail, s, i) && ChainAt(tail, s, i + 1, crcExpect)
  {
    StepFacts(s, i);
    var j, k, l, rest := CumsFrom(0, s)[i + 1], Low(PrefixCrc(s, i + 2)), LBit(s, i), s[i + 2..];
    var j', k', l', rest' := CumsFrom(0, s)[i + 2], Low(PrefixCrc(s, i + 3)), LBit(s, i + 1), s[i + 3..];
    ChainAtIs(tail, s, i, crcExpect, j, k, l, rest);
    ChainAtIs(tail, s, i + 1, crcExpect, j', k', l', rest');
    StepOkIs(tail, s, i, j', l);
    ChainUnfold(tail, i, j, k, l, rest, j', k', l', rest', crcExpect);
  }

  /** Solver aid: `ChainAt` at step `i`, with the state of that step named. */
  lemma ChainAtIs(tail: seq<Option<bv8>>, s: seq<bv8>, i: nat, crcExpect: bv8, j: bv8, k: bv8, l: bv8, rest: seq<bv8>)
    requires |tail| == 18 && |s| == 20 && i <= 18
    requires j == CumsFrom(0, s)[i + 1] && k == Low(PrefixCrc(s, i + 2)) && l == LBit(s, i) && rest == s[i + 2..]
    ensures ChainAt(tail, s, i, crcExpect) == Chain(tail, i, j, k, l, rest, crcExpect)
  {
  }

  /** Solver aid: `StepOk` at step `i`, with the next cum and the flag named. */
  lemma StepOkIs(tail: seq<Option<bv8>>, s: seq<bv8>, i: nat, j': bv8, l: bv8)
    requires |tail| == 18 && |s| == 20 && i < 18
    requires j' == CumsFrom(0, s)[i + 2] && l == LBit(s, i)
    ensures StepOk(tail, s, i) == (j' in CumRange(tail[i]) && Allowed(i, l, s[i + 2]))
  {
  }

  /** One step of a path, with the next state given. */
  lemma ChainUnfold(tail: seq<Option<bv8>>, i: nat, j: bv8, k: bv8, l: bv8, rest: seq<bv8>,
                    j': bv8, k': bv8, l': bv8, rest': seq<bv8>, crcExpect: bv8)
    requires |tail| == 18 && i < 18 && |rest| == 18 - i && rest[0] < 64
    requires j' == NextCum(j, rest[0]) && k' == k ^ Tail8(i, rest[0]) && l' == LNext(rest[0]) && rest' == rest[1..]
    ensures Chain(tail, i, j, k, l, rest, crcExpect)
      <==> (j' in CumRange(tail[i]) && Allowed(i, l, rest[0]) && Chain(tail, i + 1, j', k', l', rest', crcExpect))
  {
  }

  /** Along `s`, one step of the DP goes from the state at level `i` to the state at level `i + 1`. */
  lemma StepFacts(s: seq<bv8>, i: nat)
    requires |s| == 20 && AllSix(s) && i < 18
    ensures NextCum(CumsFrom(0, s)[i + 1], s[i + 2]) == CumsFrom(0, s)[i + 2]
    ensures Low(PrefixCrc(s, i + 2)) ^ Tail8(i, s[i + 2]) == Low(PrefixCrc(s, i + 3))
    ensures s[i + 2..][0] == s[i + 2] && s[i + 2..][1..] == s[i + 3..] && LBit(s, i + 1) == LNext(s[i + 2])
  {
    CumsFromAt(0, s, i + 2);
    PrefixCrcTail(s, i);
  }

  // ---------------------------------------------------------------------------
  // The pruning is exact: the bytes of the sixes, read as a state, pass the field checks
  // of `decode` exactly when every tail six is allowed.

  /** The field checks `decode` runs after the CRC check. */
  predicate FieldsValid(state: GameState)
    requires |state.inventory| == 8
  {
    && ValidateHerbCount(state.herbCount).Ok?
    && ValidateKeyCount(state.keyCount).Ok?
    && ValidateInventory(state.inventory).Ok?
  }

  /** The three bytes of group `g` of the packed sixes. */
  lemma BytesOfAt(s: seq<bv8>, g: nat)
    requires |s| == 20 && g < 5
    ensures |BytesOf(s)| == 15
    ensures BytesOf(s)[3 * g] == s[4 * g] | (s[4 * g + 1] << 6)
    ensures BytesOf(s)[3 * g + 1] == (s[4 * g + 1] >> 2) | (s[4 * g + 2] << 4)
    ensures BytesOf(s)[3 * g + 2] == (s[4 * g + 2] >> 4) | (s[4 * g + 3] << 2)
  {
    BytesOfGroup(s, g);
    GroupBytesAt(s[4 * g], s[4 * g + 1], s[4 * g + 2], s[4 * g + 3]);
    var b := BytesOf(s);
    assert b[3 * g] == b[3 * g..3 * g + 3][0];
    assert b[3 * g + 1] == b[3 * g..3 * g + 3][1];
    assert b[3 * g + 2] == b[3 * g..3 * g + 3][2];
  }

  /** A byte `a | b << 6` with six `a`: its low nibble is `a`'s, its high one mixes `a` and `b`. */
  lemma NibblesOfLowPair(x: bv8, a: bv8, b: bv8)
    requires a < 64 && x == a | (b << 6)
    ensures x & 0xF == a & 0xF
    ensures x >> 4 == 15 <==> a >> 4 == 3 && b & 3 == 3
  {
  }

  /** A byte `a >> 4 | b << 2` with sixes `a` and `b`: its low nibble mixes them, its high one is `b`'s top four bits. */
  lemma NibblesOfHighPair(x: bv8, a: bv8, b: bv8)
    requires a < 64 && b < 64 && x == (a >> 4) | (b << 2)
    ensures x & 0xF == 15 <==> a >> 4 == 3 && b & 3 == 3
    ensures x >> 4 == b >> 2
  {
  }

  /** Byte 10, `a >> 2 | b << 4`: the herb count is `a`'s top four bits, the key count `b`'s low four. */
  lemma NibblesOfMiddle(x: bv8, a: bv8, b: bv8)
    requires a < 64 && x == (a >> 2) | (b << 4)
    ensures x & 0xF == a >> 2
    ensures x >> 4 == b & 0xF
  {
  }

  /** The conditions the pruning puts on the sixes, written out. */
  predicate SixesPruned(s: seq<bv8>)
    requires |s| == 20
  {
    && s[13] >> 2 <= 6 && s[14] & 0xF <= 6
    && s[4] & 0xF != 15 && !(s[4] >> 4 == 3 && s[5] & 3 == 3)
    && s[8] & 0xF != 15 && !(s[8] >> 4 == 3 && s[9] & 3 == 3)
    && s[15] >> 2 != 15 && !(s[14] >> 4 == 3 && s[15] & 3 == 3)
    && s[19] >> 2 != 15 && !(s[18] >> 4 == 3 && s[19] & 3 == 3)
  }

  /** Every tail six is allowed exactly when the conditions written out hold. */
  lemma AllowedIff(s: seq<bv8>)
    requires |s| == 20 && AllSix(s)
    ensures (forall t :: 0 <= t < 18 ==> Allowed(t, LBit(s, t), s[t + 2])) <==> SixesPruned(s)
  {
    if forall t :: 0 <= t < 18 ==> Allowed(t, LBit(s, t), s[t + 2]) {
      assert Allowed(2, LBit(s, 2), s[4]) && Allowed(3, LBit(s, 3), s[5]);
      assert Allowed(6, LBit(s, 6), s[8]) && Allowed(7, LBit(s, 7), s[9]);
      assert Allowed(11, LBit(s, 11), s[13]) && Allowed(12, LBit(s, 12), s[14]);
      assert Allowed(13, LBit(s, 13), s[15]) && Allowed(17, LBit(s, 17), s[19]);
    }
  }

  /** The state read from the bytes of `s` holds these herb and key counts and this inventory. */
  lemma FieldsOfSixes(s: seq<bv8>)
    requires |s| == 20 && AllSix(s)
    ensures |BytesOf(s)| == 15
    ensures var st := BytesToState(BytesOf(s));
      && st.herbCount == s[13] >> 2 && st.keyCount == s[14] & 0xF
      && (st.inventory[0] == 15 <==> s[18] >> 4 == 3 && s[19] & 3 == 3) && st.inventory[1] == s[19] >> 2
      && st.inventory[2] == s[4] & 0xF && (st.inventory[3] == 15 <==> s[4] >> 4 == 3 && s[5] & 3 == 3)
      && (st.inventory[4] == 15 <==> s[14] >> 4 == 3 && s[15] & 3 == 3) && st.inventory[5] == s[15] >> 2
      && st.inventory[6] == s[8] & 0xF && (st.inventory[7] == 15 <==> s[8] >> 4 == 3 && s[9] & 3 == 3)
  {
    BytesOfLength(s);
    var b := BytesOf(s);
    NibblesOfGroup1(s);
    NibblesOfGroup2(s);
    NibblesOfGroup3(s);
    NibblesOfGroup4(s);
    StateFields(b);
  }

  lemma NibblesOfGroup1(s: seq<bv8>)
    requires |s| == 20 && AllSix(s)
    ensures |BytesOf(s)| == 15
    ensures BytesOf(s)[3] & 0xF == s[4] & 0xF
    ensures BytesOf(s)[3] >> 4 == 15 <==> s[4] >> 4 == 3 && s[5] & 3 == 3
  {
    BytesOfAt(s, 1);
    NibblesOfLowPair(BytesOf(s)[3], s[4], s[5]);
  }

  lemma NibblesOfGroup2(s: seq<bv8>)
    requires |s| == 20 && AllSix(s)
    ensures |BytesOf(s)| == 15
    ensures BytesOf(s)[6] & 0xF == s[8] & 0xF
    ensures BytesOf(s)[6] >> 4 == 15 <==> s[8] >> 4 == 3 && s[9] & 3 == 3
  {
    BytesOfAt(s, 2);
    NibblesOfLowPair(BytesOf(s)[6], s[8], s[9]);
  }

  lemma NibblesOfGroup3(s: seq<bv8>)
    requires |s| == 20 && AllSix(s)
    ensures |BytesOf(s)| == 15
    ensures BytesOf(s)[10] & 0xF == s[13] >> 2 && BytesOf(s)[10] >> 4 == s[14] & 0xF
    ensures BytesOf(s)[11] & 0xF == 15 <==> s[14] >> 4 == 3 && s[15] & 3 == 3
    ensures BytesOf(s)[11] >> 4 == s[15] >> 2
  {
    BytesOfAt(s, 3);
    NibblesOfMiddle(BytesOf(s)[10], s[13], s[14]);
    NibblesOfHighPair(BytesOf(s)[11], s[14], s[15]);
  }

  lemma NibblesOfGroup4(s: seq<bv8>)
    requires |s| == 20 && AllSix(s)
    ensures |BytesOf(s)| == 15
    ensures BytesOf(s)[14] & 0xF == 15 <==> s[18] >> 4 == 3 && s[19] & 3 == 3
    ensures BytesOf(s)[14] >> 4 == s[19] >> 2
  {
    BytesOfAt(s, 4);
    NibblesOfHighPair(BytesOf(s)[14], s[18], s[19]);
  }

  /** The herb count, key count and inventory `bytes_to_state` reads. */
  lemma StateFields(b: seq<bv8>)
    requires |b| == 15
    ensures var st := BytesToState(b);
      && st.herbCount == b[10] & 0xF && st.keyCount == b[10] >> 4 && |st.inventory| == 8
      && st.inventory[0] == b[14] & 0xF && st.inventory[1] == b[14] >> 4
      && st.inventory[2] == b[3] & 0xF && st.inventory[3] == b[3] >> 4
      && st.inventory[4] == b[11] & 0xF && st.inventory[5] == b[11] >> 4
      && st.inventory[6] == b[6] & 0xF && st.inventory[7] == b[6] >> 4
  {
  }

  /** A nibble is a valid tool unless it is 15. */
  lemma ToolNibble(x: bv8)
    requires x < 16
    ensures ValidateTool(x).Ok? <==> x != 15
  {
  }

  /** The pruning is exact: every tail six is allowed iff the decoded state passes the field checks. */
  lemma PruningExact(s: seq<bv8>)
    requires |s| == 20 && AllSix(s)
    ensures |BytesOf(s)| == 15
    ensures (forall t :: 0 <= t < 18 ==> Allowed(t, LBit(s, t), s[t + 2])) <==> FieldsValid(BytesToState(BytesOf(s)))
  {
    AllowedIff(s);
    FieldsOfSixes(s);
    var inv := BytesToState(BytesOf(s)).inventory;
    BytesToStateRanges(BytesOf(s));
    forall j | 0 <= j < 8
      ensures ValidateTool(inv[j]).Ok? <==> inv[j] != 15
    {
      ToolNibble(inv[j]);
    }
  }

  // ---------------------------------------------------------------------------
  // A path through the DP is a password that decodes.

  /** Byte 0 of the packed sixes. */
  lemma ByteZero(s: seq<bv8>)
    requires |s| == 20
    ensures |BytesOf(s)| == 15 && BytesOf(s)[0] == s[0] | (s[1] << 6)
  {
    BytesOfAt(s, 0);
  }

  /**
   * The password of sixes `s` decodes exactly when every tail six is allowed and the CRC
   * byte after the last six is byte 0; it then decodes to the state its bytes hold.
   */
  lemma DecodeSixes(s: seq<bv8>)
    requires |s| == 20 && AllSix(s)
    ensures |BytesOf(s)| == 15
    ensures Decode(PasswordOf(BytesOf(s))).Ok? <==>
      (forall t :: 0 <= t < 18 ==> Allowed(t, LBit(s, t), s[t + 2])) && Low(PrefixCrc(s, 20)) == s[0] | (s[1] << 6)
    ensures Decode(PasswordOf(BytesOf(s))).Ok? ==> Decode(PasswordOf(BytesOf(s))).value == BytesToState(BytesOf(s))
  {
    BytesOfLength(s);
    DecodeBytes(BytesOf(s));
    PrefixCrcAll(s);
    ByteZero(s);
    PruningExact(s);
  }

  /** The password of 15 bytes decodes exactly when the CRC matches byte 0 and the fields pass their checks. */
  lemma DecodeBytes(b: seq<bv8>)
    requires |b| == 15
    ensures |PasswordOf(b)| == 20
    ensures Decode(PasswordOf(b)).Ok? <==> Low(Fold(Zero, b[1..])) == b[0] && FieldsValid(BytesToState(b))
    ensures Decode(PasswordOf(b)).Ok? ==> Decode(PasswordOf(b)).value == BytesToState(b)
  {
    PasswordOfValid(b);
    NormalizedPasswordFixed(PasswordOf(b));
    BytesOfPasswordOf(b);
  }

  /** The cums of the password of `s` are the cums of `s`. */
  lemma CumsOfSixes(s: seq<bv8>, k: nat)
    requires |s| == 20 && AllSix(s) && k < 20
    ensures |BytesOf(s)| == 15 && |PasswordOf(BytesOf(s))| == 20 && AllSix(CumsFrom(0, s))
    ensures PasswordOf(BytesOf(s))[k] == CumToPasswordChar(CumsFrom(0, s)[k])
  {
    BytesOfLength(s);
    PasswordOfValid(BytesOf(s));
    CumsFromBounded(0, s);
    SixesOfBytesOf(s);
    PasswordOfAt(BytesOf(s), k);
  }

  /** The cums of the two head characters. */
  lemma HeadCums(s: seq<bv8>)
    requires |s| == 20 && AllSix(s)
    ensures CumsFrom(0, s)[0] == NextCum(0, s[0])
    ensures CumsFrom(0, s)[1] == HeadCum(s[..2])
  {
    CumsFromAt(0, s, 0);
    CumsFromAt(0, s, 1);
  }

  /** The head sixes of `generate` for cums `cum0` and `cum1` lead to exactly those cums. */
  lemma HeadSixes(cum0: bv8, cum1: bv8)
    requires cum0 < 64 && cum1 < 64
    ensures NextCum(0, (cum0 - 4) & 0x3F) == cum0
    ensures HeadCum([(cum0 - 4) & 0x3F, (cum1 - (cum0 + 4)) & 0x3F]) == cum1
  {
  }

  /**
   * What the DP and the DFS find, on sixes: 20 sixes that start with the given head
   * sixes, whose tail sixes the pattern's tail cums admit and the pruning allows, and
   * whose CRC byte is byte 0.
   */
  predicate FoundSixes(sixsHead: seq<bv8>, tail: seq<Option<bv8>>, s: seq<bv8>)
    requires |sixsHead| == 2 && |tail| == 18
  {
    && |s| == 20 && AllSix(s)
    && s[..2] == sixsHead
    && StepsOk(tail, s, 0)
    && Low(PrefixCrc(s, 20)) == CrcExpect(sixsHead)
  }

  /** The same on the 15 bytes the sixes pack into. */
  predicate Found(sixsHead: seq<bv8>, tail: seq<Option<bv8>>, bytes: seq<bv8>)
    requires |sixsHead| == 2 && |tail| == 18
  {
    |bytes| == 15 && FoundSixes(sixsHead, tail, SixesOf(bytes))
  }

  /** Every byte sequence of `bytess` is `Found` (stated recursively, from the last one back). */
  predicate AllFound(sixsHead: seq<bv8>, tail: seq<Option<bv8>>, bytess: seq<seq<bv8>>)
    requires |sixsHead| == 2 && |tail| == 18
    decreases |bytess|
  {
    |bytess| == 0 || (AllFound(sixsHead, tail, bytess[..|bytess| - 1]) && Found(sixsHead, tail, bytess[|bytess| - 1]))
  }

  /** Appending a found byte sequence keeps every one found. */
  lemma AllFoundAppend(sixsHead: seq<bv8>, tail: seq<Option<bv8>>, bytess: seq<seq<bv8>>, bytes: seq<bv8>)
    requires |sixsHead| == 2 && |tail| == 18
    requires AllFound(sixsHead, tail, bytess) && Found(sixsHead, tail, bytes)
    ensures AllFound(sixsHead, tail, bytess + [bytes])
  {
    assert (bytess + [bytes])[..|bytess|] == bytess;
  }

  /** `AllFound` is the statement about every entry. */
  lemma {:induction false} AllFoundIff(sixsHead: seq<bv8>, tail: seq<Option<bv8>>, bytess: seq<seq<bv8>>)
    requires |sixsHead| == 2 && |tail| == 18
    ensures AllFound(sixsHead, tail, bytess) <==> forall n :: 0 <= n < |bytess| ==> Found(sixsHead, tail, bytess[n])
    decreases |bytess|
  {
    if |bytess| > 0 {
      var init := bytess[..|bytess| - 1];
      AllFoundIff(sixsHead, tail, init);
      assert forall n :: 0 <= n < |init| ==> init[n] == bytess[n];
    }
  }

  /**
   * A DP path from the head's cell at level `i` = 0, with the tail sixes of `s`, is the
   * path along `s`.  (The level is a parameter so that the solver does not evaluate the
   * CRC tables at the literal level 0.)
   */
  lemma LeafChain(sixsHead: seq<bv8>, tail: seq<Option<bv8>>, s: seq<bv8>, i: nat)
    requires |sixsHead| == 2 && AllSix(sixsHead) && |tail| == 18 && i == 0
    requires |s| == 20 && s[..2] == sixsHead
    requires Chain(tail, i, HeadCum(sixsHead), HeadCrc(sixsHead), 0, s[2..], CrcExpect(sixsHead))
    ensures AllSix(s) && ChainAt(tail, s, i, CrcExpect(sixsHead))
  {
    LeafSixes(sixsHead, tail, s, i);
    LeafState(sixsHead, s);
    ChainAtIs(tail, s, i, CrcExpect(sixsHead), HeadCum(sixsHead), HeadCrc(sixsHead), 0, s[2..]);
  }

  lemma LeafSixes(sixsHead: seq<bv8>, tail: seq<Option<bv8>>, s: seq<bv8>, i: nat)
    requires |sixsHead| == 2 && AllSix(sixsHead) && |tail| == 18 && i == 0
    requires |s| == 20 && s[..2] == sixsHead
    requires Chain(tail, i, HeadCum(sixsHead), HeadCrc(sixsHead), 0, s[2..], CrcExpect(sixsHead))
    ensures AllSix(s)
  {
    ChainSix(tail, i, HeadCum(sixsHead), HeadCrc(sixsHead), 0, s[2..], CrcExpect(sixsHead));
    forall k | 0 <= k < 20
      ensures s[k] < 64
    {
      if k < 2 {
        assert s[k] == sixsHead[k];
      } else {
        assert s[k] == s[2..][k - 2];
      }
    }
  }

  /** The head's cell at level 0 is the state along `s` at level 0. */
  lemma LeafState(sixsHead: seq<bv8>, s: seq<bv8>)
    requires |sixsHead| == 2 && |s| == 20 && AllSix(s) && s[..2] == sixsHead
    ensures AllSix(sixsHead)
    ensures HeadCum(sixsHead) == CumsFrom(0, s)[1] && HeadCrc(sixsHead) == Low(PrefixCrc(s, 2)) && LBit(s, 0) == 0
  {
    assert sixsHead[0] == s[0] && sixsHead[1] == s[1];
    HeadCums(s);
    PrefixCrcHead(s);
  }

  /** A DP path from the head's cell at level `i` = 0, with the head and tail sixes of `s`, is found. */
  lemma LeafFound(sixsHead: seq<bv8>, tail: seq<Option<bv8>>, s: seq<bv8>, i: nat)
    requires |sixsHead| == 2 && AllSix(sixsHead) && |tail| == 18 && i == 0
    requires |s| == 20 && s[..2] == sixsHead
    requires Chain(tail, i, HeadCum(sixsHead), HeadCrc(sixsHead), 0, s[2..], CrcExpect(sixsHead))
    ensures |BytesOf(s)| == 15 && Found(sixsHead, tail, BytesOf(s))
  {
    LeafChain(sixsHead, tail, s, i);
    ChainIff(tail, s, i, CrcExpect(sixsHead));
    BytesOfLength(s);
    SixesOfBytesOf(s);
  }
  /** The same for a reached path. */
  lemma LeafReached(sixsHead: seq<bv8>, tail: seq<Option<bv8>>, s: seq<bv8>, i: nat)
    requires |sixsHead| == 2 && AllSix(sixsHead) && |tail| == 18 && i == 0
    requires |s| == 20 && s[..2] == sixsHead
    requires Reached(tail, i, HeadCum(sixsHead), HeadCrc(sixsHead), 0, s[2..], CrcExpect(sixsHead))
    ensures |BytesOf(s)| == 15 && Found(sixsHead, tail, BytesOf(s))
  {
    ReachedIs(tail, i, HeadCum(sixsHead), HeadCrc(sixsHead), 0, s[2..], CrcExpect(sixsHead));
    LeafFound(sixsHead, tail, s, i);
  }


  /** The steps along `s` being ok include every tail six being allowed. */
  lemma StepsAllowed(tail: seq<Option<bv8>>, s: seq<bv8>)
    requires |tail| == 18 && |s| == 20 && StepsOk(tail, s, 0)
    ensures forall t :: 0 <= t < 18 ==> Allowed(t, LBit(s, t), s[t + 2])
  {
    forall t | 0 <= t < 18
      ensures Allowed(t, LBit(s, t), s[t + 2])
    {
      assert StepOk(tail, s, t);
    }
  }

  /** Found sixes make a password that decodes. */
  lemma FoundSixesDecode(sixsHead: seq<bv8>, tail: seq<Option<bv8>>, s: seq<bv8>)
    requires |sixsHead| == 2 && |tail| == 18 && FoundSixes(sixsHead, tail, s)
    ensures |BytesOf(s)| == 15 && Decode(PasswordOf(BytesOf(s))).Ok?
  {
    StepsAllowed(tail, s);
    assert s[0] == sixsHead[0] && s[1] == sixsHead[1];
    DecodeSixes(s);
  }

  /** Found bytes make a password that decodes. */
  lemma FoundDecodes(sixsHead: seq<bv8>, tail: seq<Option<bv8>>, bytes: seq<bv8>)
    requires |sixsHead| == 2 && |tail| == 18 && Found(sixsHead, tail, bytes)
    ensures Decode(PasswordOf(bytes)).Ok?
  {
    FoundSixesDecode(sixsHead, tail, SixesOf(bytes));
    BytesOfSixesOf(bytes);
  }

  /** A character whose cum the pattern admits is the pattern's character there. */
  lemma CharMatches(pattern: string, s: seq<bv8>, k: nat)
    requires |pattern| == 20 && AllPatternChars(pattern) && |s| == 20 && AllSix(s) && k < 20
    requires pattern[k] != Wildcard && CumsFrom(0, s)[k] in CumRange(PatternCums(pattern)[k])
    ensures |BytesOf(s)| == 15 && |PasswordOf(BytesOf(s))| == 20
    ensures PasswordOf(BytesOf(s))[k] == pattern[k]
  {
    CumsOfSixes(s, k);
    PasswordCharToCumInverse(pattern[k]);
  }

  /** Found sixes of head sixes made from cums the pattern's head admits have every cum admitted. */
  lemma CumsAdmitted(pattern: string, cum0: bv8, cum1: bv8, s: seq<bv8>)
    requires |pattern| == 20 && AllPatternChars(pattern)
    requires cum0 in CumRange(PatternCums(pattern)[0]) && cum1 in CumRange(PatternCums(pattern)[1])
    requires FoundSixes([(cum0 - 4) & 0x3F, (cum1 - (cum0 + 4)) & 0x3F], PatternCums(pattern)[2..], s)
    ensures forall k :: 0 <= k < 20 ==> CumsFrom(0, s)[k] in CumRange(PatternCums(pattern)[k])
  {
    PatternCumsOf(pattern);
    var tail := PatternCums(pattern)[2..];
    HeadCums(s);
    HeadSixes(cum0, cum1);
    forall k | 2 <= k < 20
      ensures CumsFrom(0, s)[k] in CumRange(PatternCums(pattern)[k])
    {
      assert StepOk(tail, s, k - 2);
    }
  }

  /**
   * Found bytes of head sixes made from cums the pattern's head admits make a password
   * that decodes and agrees with the pattern.
   */
  lemma FoundMatches(pattern: string, cum0: bv8, cum1: bv8, bytes: seq<bv8>)
    requires |pattern| == 20 && AllPatternChars(pattern)
    requires cum0 in CumRange(PatternCums(pattern)[0]) && cum1 in CumRange(PatternCums(pattern)[1])
    requires Found([(cum0 - 4) & 0x3F, (cum1 - (cum0 + 4)) & 0x3F], PatternCums(pattern)[2..], bytes)
    ensures |PasswordOf(bytes)| == 20
    ensures Decode(PasswordOf(bytes)).Ok? && Matches(pattern, PasswordOf(bytes))
  {
    var s := SixesOf(bytes);
    FoundDecodes([(cum0 - 4) & 0x3F, (cum1 - (cum0 + 4)) & 0x3F], PatternCums(pattern)[2..], bytes);
    CumsAdmitted(pattern, cum0, cum1, s);
    BytesOfSixesOf(bytes);
    forall k | 0 <= k < 20 && pattern[k] != Wildcard
      ensures PasswordOf(bytes)[k] == pattern[k]
    {
      CharMatches(pattern, s, k);
    }
  }
}
