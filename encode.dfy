/**
 * Encoding: a game state is laid out in 15 bytes, byte 0 holding the low byte of the
 * CRC of the other 14, and the bytes become the 20-character password.
 */
module Encoder {
  import opened Errors
  import opened Crc
  import opened Alphabet
  import opened Codec
  import opened Normalize
  import opened GameStates

  /** `u8::from(b)`. */
  function Bit(b: bool): bv8 {
    if b then 1 else 0
  }

  /** Bit `idx` of `x`, as 0 or 1. */
  function BitTest(x: bv8, idx: bv8): bv8
    requires idx < 8
  {
    if x & (1 << idx) != 0 then 1 else 0
  }

  function Lo(x: bv16): bv8 {
    (x & 0xFF) as bv8
  }

  function Hi(x: bv16): bv8 {
    (x >> 8) as bv8
  }

  /** The name characters `pack_hero_name` reads (at most the first 4) all have codes. */
  predicate PackableName(name: string) {
    forall i :: 0 <= i < |name| && i < 4 ==> PackHeroNameChar(name[i]).Some?
  }

  /** The 4 name codes, 0 where the name is shorter than 4 characters. */
  function PackedName(name: string): (packed: seq<bv8>)
    requires PackableName(name)
    ensures |packed| == 4
  {
    seq(4, i requires 0 <= i < 4 => if i < |name| then PackHeroNameChar(name[i]).value else 0)
  }

  /** `pack_hero_name`: the code of each of the first 4 characters. */
  method PackHeroName(name: string) returns (packed: seq<bv8>)
    requires PackableName(name)
    ensures packed == PackedName(name)
  {
    var a := new bv8[4](_ => 0);
    var n := if |name| < 4 then |name| else 4;
    for i := 0 to n
      invariant forall j :: 0 <= j < i ==> a[j] == PackHeroNameChar(name[j]).value
      invariant forall j :: i <= j < 4 ==> a[j] == 0
    {
      a[i] := PackHeroNameChar(name[i]).value;
    }
    packed := a[..];
  }

  /** Two 4-bit values in one byte, the first in the low nibble. */
  function NibblePair(lo: bv8, hi: bv8): bv8 {
    lo | (hi << 4)
  }

  /** Byte 8: shield in bits 0-1, armor in bits 2-4, weapon in bits 5-7. */
  function EquipmentByte(shield: bv8, armor: bv8, weapon: bv8): bv8 {
    shield | (armor << 2) | (weapon << 5)
  }

  /** Bytes 2 and 7: a name code in bits 0-5, a flag in bit 6 and a salt bit in bit 7. */
  function CodeFlagSaltByte(code: bv8, flag: bool, saltBit: bv8): bv8 {
    code | (Bit(flag) << 6) | (saltBit << 7)
  }

  /** Byte 5: a salt bit in bit 0, the golem flag in bit 1 and a name code in bits 2-7. */
  function SaltFlagCodeByte(saltBit: bv8, flag: bool, code: bv8): bv8 {
    saltBit | (Bit(flag) << 1) | (code << 2)
  }

  /** Byte 13: the ring flag in bit 0, a name code in bits 1-6 and the scale flag in bit 7. */
  function FlagCodeFlagByte(low: bool, code: bv8, high: bool): bv8 {
    Bit(low) | (code << 1) | (Bit(high) << 7)
  }

  /** Bytes 1 to 14 of the layout, given the packed name `p`. */
  function FieldBytes(s: GameState, p: seq<bv8>): (f: seq<bv8>)
    requires |p| == 4
    ensures |f| == 14
  {
    [ Lo(s.heroXp),
      CodeFlagSaltByte(p[2], s.flagGotDeathNecklace, BitTest(s.salt, 1)),
      NibblePair(s.inventory[2], s.inventory[3]),
      Lo(s.purse),
      SaltFlagCodeByte(BitTest(s.salt, 0), s.flagBeatedGolem, p[0]),
      NibblePair(s.inventory[6], s.inventory[7]),
      CodeFlagSaltByte(p[3], s.flagBeatedDragon, BitTest(s.salt, 2)),
      EquipmentByte(s.heroShield, s.heroArmor, s.heroWeapon),
      Hi(s.purse),
      NibblePair(s.herbCount, s.keyCount),
      NibblePair(s.inventory[4], s.inventory[5]),
      Hi(s.heroXp),
      FlagCodeFlagByte(s.flagEquipWarriorRing, p[1], s.flagEquipDragonScale),
      NibblePair(s.inventory[0], s.inventory[1]) ]
  }

  /** The 15 state bytes: the CRC byte over the 14 field bytes, then the field bytes. */
  function StateBytes(s: GameState): (bytes: seq<bv8>)
    requires PackableName(s.heroName)
    ensures |bytes| == 15
    ensures bytes[1..] == FieldBytes(s, PackedName(s.heroName))
    ensures bytes[0] == Low(Fold(Zero, bytes[1..]))
  {
    var fields := FieldBytes(s, PackedName(s.heroName));
    [Low(Fold(Zero, fields))] + fields
  }

  /** `state_to_bytes`: computes the 14 field bytes, then the CRC byte over them. */
  method StateToBytes(state: GameState) returns (bytes: seq<bv8>)
    requires PackableName(state.heroName)
    ensures bytes == StateBytes(state)
  {
    var p := PackHeroName(state.heroName);
    var b1 := Lo(state.heroXp);
    var b2 := CodeFlagSaltByte(p[2], state.flagGotDeathNecklace, BitTest(state.salt, 1));
    var b3 := NibblePair(state.inventory[2], state.inventory[3]);
    var b4 := Lo(state.purse);
    var b5 := SaltFlagCodeByte(BitTest(state.salt, 0), state.flagBeatedGolem, p[0]);
    var b6 := NibblePair(state.inventory[6], state.inventory[7]);
    var b7 := CodeFlagSaltByte(p[3], state.flagBeatedDragon, BitTest(state.salt, 2));
    var b8 := EquipmentByte(state.heroShield, state.heroArmor, state.heroWeapon);
    var b9 := Hi(state.purse);
    var b10 := NibblePair(state.herbCount, state.keyCount);
    var b11 := NibblePair(state.inventory[4], state.inventory[5]);
    var b12 := Hi(state.heroXp);
    var b13 := FlagCodeFlagByte(state.flagEquipWarriorRing, p[1], state.flagEquipDragonScale);
    var b14 := NibblePair(state.inventory[0], state.inventory[1]);
    var fields := [b1, b2, b3, b4, b5, b6, b7, b8, b9, b10, b11, b12, b13, b14];
    assert fields == FieldBytes(state, p);

    var crc := FoldBytes(fields);
    bytes := [Lo(crc)] + fields;
  }

  /** `bytes_to_password`: the cums of the sixes of each 3-byte group, as characters. */
  method BytesToPassword(bytes: seq<bv8>) returns (password: string)
    requires |bytes| == 15
    ensures password == PasswordOf(bytes)
  {
    PasswordOfValid(bytes);
    password := [];
    var cum: bv8 := 0;
    for g := 0 to 5
      invariant password == PasswordOf(bytes)[..4 * g]
      invariant cum == CumBefore(bytes, g)
    {
      var chunk := bytes[3 * g..3 * g + 3];
      var six := GroupSixes(chunk[0], chunk[1], chunk[2]);
      ghost var pre, start := cum, password;
      cum := NextCum(cum, six[0]);
      password := password + [CumToPasswordChar(cum)];
      ghost var c0 := cum;
      cum := NextCum(cum, six[1]);
      password := password + [CumToPasswordChar(cum)];
      ghost var c1 := cum;
      cum := NextCum(cum, six[2]);
      password := password + [CumToPasswordChar(cum)];
      ghost var c2 := cum;
      cum := NextCum(cum, six[3]);
      password := password + [CumToPasswordChar(cum)];
      ChunkStep(bytes, g, c0, c1, c2, cum);
    }
    assert PasswordOf(bytes)[..20] == PasswordOf(bytes);
  }

  /** The cum before group `g`: 0 before the first group. */
  function CumBefore(bytes: seq<bv8>, g: nat): bv8
    requires |bytes| == 15 && g <= 5
  {
    SixesOfLength(bytes);
    if g == 0 then 0 else CumsFrom(0, SixesOf(bytes))[4 * g - 1]
  }

  /** The four cums computed for group `g` are the next four cums of the password. */
  lemma ChunkStep(bytes: seq<bv8>, g: nat, c0: bv8, c1: bv8, c2: bv8, c3: bv8)
    requires |bytes| == 15 && g < 5
    requires var six := GroupSixes(bytes[3 * g], bytes[3 * g + 1], bytes[3 * g + 2]);
      && c0 == NextCum(CumBefore(bytes, g), six[0]) && c1 == NextCum(c0, six[1])
      && c2 == NextCum(c1, six[2]) && c3 == NextCum(c2, six[3])
    ensures c3 == CumBefore(bytes, g + 1)
    ensures |PasswordOf(bytes)| == 20
    ensures PasswordOf(bytes)[..4 * g + 4] == PasswordOf(bytes)[..4 * g]
      + [CumToPasswordChar(c0)] + [CumToPasswordChar(c1)] + [CumToPasswordChar(c2)] + [CumToPasswordChar(c3)]
  {
    ChunkCums(bytes, g, c0, c1, c2, c3);
    PasswordChunk(bytes, g);
  }

  lemma ChunkCums(bytes: seq<bv8>, g: nat, c0: bv8, c1: bv8, c2: bv8, c3: bv8)
    requires |bytes| == 15 && g < 5
    requires var six := GroupSixes(bytes[3 * g], bytes[3 * g + 1], bytes[3 * g + 2]);
      && c0 == NextCum(CumBefore(bytes, g), six[0]) && c1 == NextCum(c0, six[1])
      && c2 == NextCum(c1, six[2]) && c3 == NextCum(c2, six[3])
    ensures |SixesOf(bytes)| == 20
    ensures var cums := CumsFrom(0, SixesOf(bytes));
      c0 == cums[4 * g] && c1 == cums[4 * g + 1] && c2 == cums[4 * g + 2] && c3 == cums[4 * g + 3]
  {
    SixesOfLength(bytes);
    CumStepAt(bytes, g, 0, CumBefore(bytes, g), c0);
    CumStepAt(bytes, g, 1, c0, c1);
    CumStepAt(bytes, g, 2, c1, c2);
    CumStepAt(bytes, g, 3, c2, c3);
  }

  /** The cum computed from six `j` of group `g` and the cum before it is cum `4 * g + j`. */
  lemma CumStepAt(bytes: seq<bv8>, g: nat, j: nat, pre: bv8, cum: bv8)
    requires |bytes| == 15 && g < 5 && j < 4
    requires |SixesOf(bytes)| == 20
    requires pre == if 4 * g + j == 0 then 0 else CumsFrom(0, SixesOf(bytes))[4 * g + j - 1]
    requires cum == NextCum(pre, GroupSixes(bytes[3 * g], bytes[3 * g + 1], bytes[3 * g + 2])[j])
    ensures cum == CumsFrom(0, SixesOf(bytes))[4 * g + j]
  {
    SixesOfGroup(bytes, g);
    assert SixesOf(bytes)[4 * g + j] == SixesOf(bytes)[4 * g..4 * g + 4][j];
    CumsFromAt(0, SixesOf(bytes), 4 * g + j);
  }

  lemma PasswordChunk(bytes: seq<bv8>, g: nat)
    requires |bytes| == 15 && g < 5
    ensures |SixesOf(bytes)| == 20 && |PasswordOf(bytes)| == 20 && AllSix(CumsFrom(0, SixesOf(bytes)))
    ensures var cums := CumsFrom(0, SixesOf(bytes));
      PasswordOf(bytes)[..4 * g + 4] == PasswordOf(bytes)[..4 * g]
        + [CumToPasswordChar(cums[4 * g])] + [CumToPasswordChar(cums[4 * g + 1])]
        + [CumToPasswordChar(cums[4 * g + 2])] + [CumToPasswordChar(cums[4 * g + 3])]
  {
    PasswordOfValid(bytes);
    PasswordOfAt(bytes, 4 * g);
    PasswordOfAt(bytes, 4 * g + 1);
    PasswordOfAt(bytes, 4 * g + 2);
    PasswordOfAt(bytes, 4 * g + 3);
    PrefixFour(PasswordOf(bytes), 4 * g);
  }

  /** A prefix four characters longer is the shorter prefix and those four characters. */
  lemma PrefixFour(p: string, n: nat)
    requires n + 4 <= |p|
    ensures p[..n + 4] == p[..n] + [p[n]] + [p[n + 1]] + [p[n + 2]] + [p[n + 3]]
  {
  }

  /**
   * `encode`: the password of the normalized state.  Only the name is checked; the
   * numeric fields are laid out as they are, whatever their range.
   */
  function Encode(state: GameState): (r: Result<string>)
    ensures r.Ok? <==> state.Normalize().Ok?
    ensures r.Err? ==> r.error == InvalidGameState
    ensures r.Ok? ==> |r.value| == 20 && AllPasswordChars(r.value)
  {
    var normalized :- state.Normalize();
    PasswordOfValid(StateBytes(normalized));
    Ok(PasswordOf(StateBytes(normalized)))
  }
}
