/**
 * Decoding: a password back to its 15 bytes, the CRC check, and the byte layout read
 * back into a game state.
 */
module Decoder {
  import opened Errors
  import opened Crc
  import opened Alphabet
  import opened Codec
  import opened Normalize
  import opened Validate
  import opened GameStates
  import opened Encoder

  /** The cum before character `4 * g`: 0 before the first character. */
  function CumBeforeChar(password: string, g: nat): bv8
    requires |password| == 20 && AllPasswordChars(password) && g <= 5
  {
    if g == 0 then 0 else CumsOf(password)[4 * g - 1]
  }

  /**
   * `password_to_bytes`: each character's cum less the previous cum and 4 is a six, and
   * every four sixes are packed into the next three bytes.
   */
  method PasswordToBytes(password: string) returns (bytes: seq<bv8>)
    requires |password| == 20 && AllPasswordChars(password)
    ensures bytes == BytesOfPassword(password)
  {
    BytesOfPasswordLength(password);
    bytes := [];
    var pre: bv8 := 0;
    for g := 0 to 5
      invariant bytes == BytesOfPassword(password)[..3 * g]
      invariant pre == CumBeforeChar(password, g)
    {
      var chunk, cur := Chunk(password, g, pre);
      bytes := bytes + chunk;
      pre := cur;
    }
    assert BytesOfPassword(password)[..15] == BytesOfPassword(password);
  }

  /** Chunk `g` of the loop: characters `4 * g` to `4 * g + 3` give bytes `3 * g` to `3 * g + 2`. */
  method Chunk(password: string, g: nat, pre: bv8) returns (chunk: seq<bv8>, cur: bv8)
    requires |password| == 20 && AllPasswordChars(password) && g < 5
    requires pre == CumBeforeChar(password, g)
    ensures |BytesOfPassword(password)| == 15
    ensures BytesOfPassword(password)[..3 * g + 3] == BytesOfPassword(password)[..3 * g] + chunk
    ensures cur == CumBeforeChar(password, g + 1)
  {
    var cs := password[4 * g..4 * g + 4];
    CharsOfChunk(password, g);
    chunk, cur := FillChunk(cs, pre);
    ghost var cums := CumsOf(password);
    DecodeChunk(password, g, cums[4 * g], cums[4 * g + 1], cums[4 * g + 2], cur);
  }

  /** The `get_bits` closure: the six of character `c` after cum `pre`, and `c`'s cum as the new `pre`. */
  method GetBits(c: char, pre: bv8) returns (bits: bv8, cur: bv8)
    requires PasswordCharToCum(c).Some?
    ensures cur == PasswordCharToCum(c).value
    ensures bits == SixBetween(pre, cur) && bits < 64
  {
    cur := PasswordCharToCum(c).value;
    bits := SixBetween(pre, cur);
  }

  /** One pass of the chunk loop: the three bytes packed from the sixes of four characters. */
  method FillChunk(cs: string, pre: bv8) returns (chunk: seq<bv8>, cur: bv8)
    requires |cs| == 4 && forall i :: 0 <= i < 4 ==> PasswordCharToCum(cs[i]).Some?
    ensures cur == PasswordCharToCum(cs[3]).value
    ensures var c0 := PasswordCharToCum(cs[0]).value;
      var c1 := PasswordCharToCum(cs[1]).value;
      var c2 := PasswordCharToCum(cs[2]).value;
      chunk == GroupBytes(SixBetween(pre, c0), SixBetween(c0, c1), SixBetween(c1, c2), SixBetween(c2, cur))
  {
    var bits, p := GetBits(cs[0], pre);
    var b0 := bits;
    bits, p := GetBits(cs[1], p);
    b0 := b0 | (bits << 6);
    var b1 := bits >> 2;
    bits, p := GetBits(cs[2], p);
    b1 := b1 | (bits << 4);
    var b2 := bits >> 4;
    bits, cur := GetBits(cs[3], p);
    b2 := b2 | (bits << 2);
    chunk := [b0, b1, b2];
  }

  /** The four characters of chunk `g` have the cums `4 * g` to `4 * g + 3`. */
  lemma CharsOfChunk(password: string, g: nat)
    requires |password| == 20 && AllPasswordChars(password) && g < 5
    ensures var cs := password[4 * g..4 * g + 4];
      && PasswordCharToCum(cs[0]) == Some(CumsOf(password)[4 * g])
      && PasswordCharToCum(cs[1]) == Some(CumsOf(password)[4 * g + 1])
      && PasswordCharToCum(cs[2]) == Some(CumsOf(password)[4 * g + 2])
      && PasswordCharToCum(cs[3]) == Some(CumsOf(password)[4 * g + 3])
  {
  }

  /** The bytes of chunk `g` are the packing of its four sixes, each cum less the one before. */
  lemma DecodeChunk(password: string, g: nat, c0: bv8, c1: bv8, c2: bv8, c3: bv8)
    requires |password| == 20 && AllPasswordChars(password) && g < 5
    requires c0 == CumsOf(password)[4 * g] && c1 == CumsOf(password)[4 * g + 1]
    requires c2 == CumsOf(password)[4 * g + 2] && c3 == CumsOf(password)[4 * g + 3]
    ensures c3 == CumBeforeChar(password, g + 1)
    ensures |BytesOfPassword(password)| == 15
    ensures BytesOfPassword(password)[..3 * g + 3] == BytesOfPassword(password)[..3 * g]
      + GroupBytes(SixBetween(CumBeforeChar(password, g), c0), SixBetween(c0, c1), SixBetween(c1, c2), SixBetween(c2, c3))
  {
    CumBeforeNext(password, g);
    var sixes := SixesFrom(0, CumsOf(password));
    ChunkSixes(CumsOf(password), g, c0, c1, c2, c3);
    BytesPrefixGroup(sixes, g);
  }

  /** The four sixes of chunk `g` of a sequence of 20 cums, each the cum less the cum before it. */
  lemma ChunkSixes(cums: seq<bv8>, g: nat, c0: bv8, c1: bv8, c2: bv8, c3: bv8)
    requires |cums| == 20 && g < 5
    requires c0 == cums[4 * g] && c1 == cums[4 * g + 1] && c2 == cums[4 * g + 2] && c3 == cums[4 * g + 3]
    ensures |SixesFrom(0, cums)| == 20
    ensures SixesFrom(0, cums)[4 * g] == SixBetween(if g == 0 then 0 else cums[4 * g - 1], c0)
    ensures SixesFrom(0, cums)[4 * g + 1] == SixBetween(c0, c1)
    ensures SixesFrom(0, cums)[4 * g + 2] == SixBetween(c1, c2)
    ensures SixesFrom(0, cums)[4 * g + 3] == SixBetween(c2, c3)
  {
    SixesFromAt(0, cums, 4 * g);
    SixesFromAt(0, cums, 4 * g + 1);
    SixesFromAt(0, cums, 4 * g + 2);
    SixesFromAt(0, cums, 4 * g + 3);
  }

  lemma CumBeforeNext(password: string, g: nat)
    requires |password| == 20 && AllPasswordChars(password) && g < 5
    ensures CumBeforeChar(password, g + 1) == CumsOf(password)[4 * g + 3]
  {
  }

  /** The bytes up to group `g + 1` extend those up to group `g` by the packing of group `g`. */
  lemma BytesPrefixGroup(sixes: seq<bv8>, g: nat)
    requires |sixes| == 20 && g < 5
    ensures |BytesOf(sixes)| == 15
    ensures BytesOf(sixes)[..3 * g + 3]
      == BytesOf(sixes)[..3 * g] + GroupBytes(sixes[4 * g], sixes[4 * g + 1], sixes[4 * g + 2], sixes[4 * g + 3])
  {
    BytesOfGroup(sixes, g);
    var b := BytesOf(sixes);
    assert b[..3 * g + 3] == b[..3 * g] + b[3 * g..3 * g + 3];
  }

  // ---------------------------------------------------------------------------
  // The CRC check.

  /**
   * `check_bytes_crc`: byte 0 must be the low byte of the CRC fold over bytes 1 to 14;
   * otherwise the error carries byte 0 and the whole 16-bit CRC.
   */
  function CheckBytesCrc(bytes: seq<bv8>): (r: Result<()>)
    requires |bytes| == 15
    ensures r.Ok? <==> Low(Fold(Zero, bytes[1..])) == bytes[0]
    ensures r.Err? ==> r.error == CrcMismatch(bytes[0], Fold(Zero, bytes[1..]).bits)
  {
    var actual := Fold(Zero, bytes[1..]);
    if Low(actual) != bytes[0] then Err(CrcMismatch(bytes[0], actual.bits)) else Ok(())
  }

  /** The bytes `state_to_bytes` lays out always pass the CRC check. */
  lemma StateBytesPassCrc(s: GameState)
    requires PackableName(s.heroName)
    ensures CheckBytesCrc(StateBytes(s)) == Ok(())
  {
  }

  // ---------------------------------------------------------------------------
  // The byte layout read back.

  /** `bit_test` of `bytes_to_state`: whether bit `idx` of `x` is set. */
  function BitSet(x: bv8, idx: bv8): bool
    requires idx < 8
  {
    x & (1 << idx) != 0
  }

  /** `unpack_hero_name`: the name character of each of the 4 codes. */
  function UnpackHeroName(packed: seq<bv8>): (name: string)
    requires |packed| == 4 && AllSix(packed)
    ensures |name| == 4
  {
    seq(4, i requires 0 <= i < 4 => UnpackHeroNameChar(packed[i]))
  }

  /** The 4 name codes of the layout: bits 2-7 of byte 5, 1-6 of byte 13, 0-5 of bytes 2 and 7. */
  function NameCodes(bytes: seq<bv8>): (packed: seq<bv8>)
    requires |bytes| == 15
    ensures |packed| == 4 && AllSix(packed)
  {
    [bytes[5] >> 2, (bytes[13] >> 1) & 0x3F, bytes[2] & 0x3F, bytes[7] & 0x3F]
  }

  /** The 8 inventory nibbles: bytes 14, 3, 11 and 6, low nibble first. */
  function InventoryOf(bytes: seq<bv8>): Inventory
    requires |bytes| == 15
  {
    [ bytes[14] & 0xF, bytes[14] >> 4, bytes[3] & 0xF, bytes[3] >> 4,
      bytes[11] & 0xF, bytes[11] >> 4, bytes[6] & 0xF, bytes[6] >> 4 ]
  }

  /**
   * `bytes_to_state`: every field read from its bits.  The bit widths of the layout
   * bound the fields by themselves: the IDs and the salt fit 3 or 2 bits, the counts
   * and the tools 4 bits.
   */
  function BytesToState(bytes: seq<bv8>): (s: GameState)
    requires |bytes| == 15
    ensures s.heroWeapon <= 7 && s.heroArmor <= 7 && s.heroShield <= 3 && s.salt <= 7
    ensures s.herbCount <= 15 && s.keyCount <= 15
    ensures forall j :: 0 <= j < 8 ==> s.inventory[j] <= 15
  {
    GameState(
      UnpackHeroName(NameCodes(bytes)),
      (bytes[1] as bv16) | ((bytes[12] as bv16) << 8),
      (bytes[4] as bv16) | ((bytes[9] as bv16) << 8),
      bytes[8] >> 5,
      (bytes[8] >> 2) & 0x7,
      bytes[8] & 0x3,
      bytes[10] & 0xF,
      bytes[10] >> 4,
      InventoryOf(bytes),
      BitSet(bytes[13], 7),
      BitSet(bytes[13], 0),
      BitSet(bytes[2], 6),
      BitSet(bytes[5], 1),
      BitSet(bytes[7], 6),
      Bit(BitSet(bytes[5], 0)) | (Bit(BitSet(bytes[2], 7)) << 1) | (Bit(BitSet(bytes[7], 7)) << 2))
  }

  /** Every name the layout can hold is normalized: each of its characters is a name character. */
  lemma BytesToStateRanges(bytes: seq<bv8>)
    requires |bytes| == 15
    ensures BytesToState(bytes).IsNormalized()
  {
    var name := BytesToState(bytes).heroName;
    forall i | 0 <= i < 4
      ensures PackHeroNameChar(name[i]).Some?
    {
      UnpackHeroNameCharInverse(NameCodes(bytes)[i]);
    }
  }

  // ---------------------------------------------------------------------------
  // Reading back each byte of the layout.  Each lemma speaks of a byte `x` known to be
  // one layout byte and says what `bytes_to_state` reads from it.

  lemma ReadWord(x: bv16, lo: bv8, hi: bv8)
    requires lo == Lo(x) && hi == Hi(x)
    ensures (lo as bv16) | ((hi as bv16) << 8) == x
  {
  }

  lemma ReadNibbles(x: bv8, lo: bv8, hi: bv8)
    requires lo < 16 && hi < 16 && x == NibblePair(lo, hi)
    ensures x & 0xF == lo && x >> 4 == hi
  {
  }

  lemma ReadEquipment(x: bv8, shield: bv8, armor: bv8, weapon: bv8)
    requires shield < 4 && armor < 8 && weapon < 8 && x == EquipmentByte(shield, armor, weapon)
    ensures x >> 5 == weapon && (x >> 2) & 0x7 == armor && x & 0x3 == shield
  {
  }

  lemma ReadCodeFlagSalt(x: bv8, code: bv8, flag: bool, saltBit: bv8)
    requires code < 64 && saltBit < 2 && x == CodeFlagSaltByte(code, flag, saltBit)
    ensures x & 0x3F == code && BitSet(x, 6) == flag && Bit(BitSet(x, 7)) == saltBit
  {
  }

  lemma ReadSaltFlagCode(x: bv8, saltBit: bv8, flag: bool, code: bv8)
    requires saltBit < 2 && code < 64 && x == SaltFlagCodeByte(saltBit, flag, code)
    ensures x >> 2 == code && BitSet(x, 1) == flag && Bit(BitSet(x, 0)) == saltBit
  {
  }

  lemma ReadFlagCodeFlag(x: bv8, low: bool, code: bv8, high: bool)
    requires code < 64 && x == FlagCodeFlagByte(low, code, high)
    ensures BitSet(x, 0) == low && (x >> 1) & 0x3F == code && BitSet(x, 7) == high
  {
  }

  /** The salt is split into its three bits and joined again. */
  lemma ReadSalt(salt: bv8)
    requires salt < 8
    ensures BitTest(salt, 0) < 2 && BitTest(salt, 1) < 2 && BitTest(salt, 2) < 2
    ensures BitTest(salt, 0) | (BitTest(salt, 1) << 1) | (BitTest(salt, 2) << 2) == salt
  {
  }

  // ---------------------------------------------------------------------------
  // The layout is a bijection between normalized in-range states and CRC-valid bytes.

  /** Packing a normalized name and unpacking the codes gives the name back. */
  lemma UnpackPackedName(name: string)
    requires |name| == 4 && AllNameChars(name)
    ensures PackableName(name) && AllSix(PackedName(name))
    ensures UnpackHeroName(PackedName(name)) == name
  {
    forall i | 0 <= i < 4
      ensures PackedName(name)[i] < 64 && UnpackHeroNameChar(PackedName(name)[i]) == name[i]
    {
      PackHeroNameCharInverse(name[i]);
    }
  }

  /** Unpacking 4 codes and packing the name gives the codes back. */
  lemma PackUnpackedName(packed: seq<bv8>)
    requires |packed| == 4 && AllSix(packed)
    ensures PackableName(UnpackHeroName(packed))
    ensures PackedName(UnpackHeroName(packed)) == packed
  {
    forall i | 0 <= i < 4
      ensures PackHeroNameChar(UnpackHeroName(packed)[i]) == Some(packed[i])
    {
      UnpackHeroNameCharInverse(packed[i]);
    }
  }

  /** Byte `k` of the state bytes is field byte `k - 1`. */
  lemma StateBytesAt(s: GameState)
    requires PackableName(s.heroName)
    ensures var b, f := StateBytes(s), FieldBytes(s, PackedName(s.heroName));
      && b[1] == f[0] && b[2] == f[1] && b[3] == f[2] && b[4] == f[3] && b[5] == f[4]
      && b[6] == f[5] && b[7] == f[6] && b[8] == f[7] && b[9] == f[8] && b[10] == f[9]
      && b[11] == f[10] && b[12] == f[11] && b[13] == f[12] && b[14] == f[13]
  {
    var b := StateBytes(s);
    assert forall k :: 1 <= k < 15 ==> b[k] == b[1..][k - 1];
  }

  /** The field bytes that hold the name codes, flags and salt bits. */
  lemma FieldBytesNamed(s: GameState, p: seq<bv8>)
    requires |p| == 4
    ensures var f := FieldBytes(s, p);
      && f[1] == CodeFlagSaltByte(p[2], s.flagGotDeathNecklace, BitTest(s.salt, 1))
      && f[4] == SaltFlagCodeByte(BitTest(s.salt, 0), s.flagBeatedGolem, p[0])
      && f[6] == CodeFlagSaltByte(p[3], s.flagBeatedDragon, BitTest(s.salt, 2))
      && f[12] == FlagCodeFlagByte(s.flagEquipWarriorRing, p[1], s.flagEquipDragonScale)
  {
  }

  /** The field bytes that hold the numbers. */
  lemma FieldBytesNumbers(s: GameState, p: seq<bv8>)
    requires |p| == 4
    ensures var f := FieldBytes(s, p);
      && f[0] == Lo(s.heroXp) && f[11] == Hi(s.heroXp) && f[3] == Lo(s.purse) && f[8] == Hi(s.purse)
      && f[7] == EquipmentByte(s.heroShield, s.heroArmor, s.heroWeapon)
      && f[9] == NibblePair(s.herbCount, s.keyCount)
  {
  }

  /** The field bytes that hold the inventory. */
  lemma FieldBytesInventory(s: GameState, p: seq<bv8>)
    requires |p| == 4
    ensures var f := FieldBytes(s, p);
      && f[13] == NibblePair(s.inventory[0], s.inventory[1])
      && f[2] == NibblePair(s.inventory[2], s.inventory[3])
      && f[10] == NibblePair(s.inventory[4], s.inventory[5])
      && f[5] == NibblePair(s.inventory[6], s.inventory[7])
  {
  }

  lemma ReadName(b: seq<bv8>, s: GameState, salt: bv8)
    requires |b| == 15 && s.IsNormalized()
    ensures PackableName(s.heroName)
    requires var p := PackedName(s.heroName);
      && b[2] == CodeFlagSaltByte(p[2], s.flagGotDeathNecklace, BitTest(salt, 1))
      && b[5] == SaltFlagCodeByte(BitTest(salt, 0), s.flagBeatedGolem, p[0])
      && b[7] == CodeFlagSaltByte(p[3], s.flagBeatedDragon, BitTest(salt, 2))
      && b[13] == FlagCodeFlagByte(s.flagEquipWarriorRing, p[1], s.flagEquipDragonScale)
    ensures NameCodes(b) == PackedName(s.heroName)
  {
    UnpackPackedName(s.heroName);
    var p := PackedName(s.heroName);
    ReadCodeFlagSalt(b[2], p[2], s.flagGotDeathNecklace, BitTest(salt, 1));
    ReadSaltFlagCode(b[5], BitTest(salt, 0), s.flagBeatedGolem, p[0]);
    ReadCodeFlagSalt(b[7], p[3], s.flagBeatedDragon, BitTest(salt, 2));
    ReadFlagCodeFlag(b[13], s.flagEquipWarriorRing, p[1], s.flagEquipDragonScale);
    CodesRead(b, p);
  }

  /** The name codes are the four values read from bytes 5, 13, 2 and 7. */
  lemma CodesRead(b: seq<bv8>, p: seq<bv8>)
    requires |b| == 15 && |p| == 4
    requires b[5] >> 2 == p[0] && (b[13] >> 1) & 0x3F == p[1] && b[2] & 0x3F == p[2] && b[7] & 0x3F == p[3]
    ensures NameCodes(b) == p
  {
  }

  lemma ReadNumbers(b: seq<bv8>, s: GameState)
    requires |b| == 15 && s.InRange()
    requires b[1] == Lo(s.heroXp) && b[12] == Hi(s.heroXp) && b[4] == Lo(s.purse) && b[9] == Hi(s.purse)
    requires b[8] == EquipmentByte(s.heroShield, s.heroArmor, s.heroWeapon)
    requires b[10] == NibblePair(s.herbCount, s.keyCount)
    ensures (b[1] as bv16) | ((b[12] as bv16) << 8) == s.heroXp
    ensures (b[4] as bv16) | ((b[9] as bv16) << 8) == s.purse
    ensures b[8] >> 5 == s.heroWeapon && (b[8] >> 2) & 0x7 == s.heroArmor && b[8] & 0x3 == s.heroShield
    ensures b[10] & 0xF == s.herbCount && b[10] >> 4 == s.keyCount
  {
    ReadWord(s.heroXp, b[1], b[12]);
    ReadWord(s.purse, b[4], b[9]);
    ReadEquipment(b[8], s.heroShield, s.heroArmor, s.heroWeapon);
    ReadNibbles(b[10], s.herbCount, s.keyCount);
  }

  lemma ReadInventory(b: seq<bv8>, inv: Inventory)
    requires |b| == 15 && forall j :: 0 <= j < 8 ==> inv[j] <= 14
    requires b[14] == NibblePair(inv[0], inv[1]) && b[3] == NibblePair(inv[2], inv[3])
    requires b[11] == NibblePair(inv[4], inv[5]) && b[6] == NibblePair(inv[6], inv[7])
    ensures InventoryOf(b) == inv
  {
    ReadNibbles(b[14], inv[0], inv[1]);
    ReadNibbles(b[3], inv[2], inv[3]);
    ReadNibbles(b[11], inv[4], inv[5]);
    ReadNibbles(b[6], inv[6], inv[7]);
    NibblesRead(b, inv);
  }

  /** The inventory is the eight nibbles read from bytes 14, 3, 11 and 6. */
  lemma NibblesRead(b: seq<bv8>, inv: Inventory)
    requires |b| == 15
    requires b[14] & 0xF == inv[0] && b[14] >> 4 == inv[1] && b[3] & 0xF == inv[2] && b[3] >> 4 == inv[3]
    requires b[11] & 0xF == inv[4] && b[11] >> 4 == inv[5] && b[6] & 0xF == inv[6] && b[6] >> 4 == inv[7]
    ensures InventoryOf(b) == inv
  {
  }

  lemma ReadFlags(b: seq<bv8>, s: GameState)
    requires |b| == 15 && s.InRange() && s.IsNormalized()
    ensures PackableName(s.heroName)
    requires var p := PackedName(s.heroName);
      && b[2] == CodeFlagSaltByte(p[2], s.flagGotDeathNecklace, BitTest(s.salt, 1))
      && b[5] == SaltFlagCodeByte(BitTest(s.salt, 0), s.flagBeatedGolem, p[0])
      && b[7] == CodeFlagSaltByte(p[3], s.flagBeatedDragon, BitTest(s.salt, 2))
      && b[13] == FlagCodeFlagByte(s.flagEquipWarriorRing, p[1], s.flagEquipDragonScale)
    ensures BitSet(b[13], 7) == s.flagEquipDragonScale && BitSet(b[13], 0) == s.flagEquipWarriorRing
    ensures BitSet(b[2], 6) == s.flagGotDeathNecklace && BitSet(b[5], 1) == s.flagBeatedGolem
    ensures BitSet(b[7], 6) == s.flagBeatedDragon
    ensures Bit(BitSet(b[5], 0)) | (Bit(BitSet(b[2], 7)) << 1) | (Bit(BitSet(b[7], 7)) << 2) == s.salt
  {
    UnpackPackedName(s.heroName);
    var p := PackedName(s.heroName);
    ReadSalt(s.salt);
    ReadCodeFlagSalt(b[2], p[2], s.flagGotDeathNecklace, BitTest(s.salt, 1));
    ReadSaltFlagCode(b[5], BitTest(s.salt, 0), s.flagBeatedGolem, p[0]);
    ReadCodeFlagSalt(b[7], p[3], s.flagBeatedDragon, BitTest(s.salt, 2));
    ReadFlagCodeFlag(b[13], s.flagEquipWarriorRing, p[1], s.flagEquipDragonScale);
    SaltRead(Bit(BitSet(b[5], 0)), Bit(BitSet(b[2], 7)), Bit(BitSet(b[7], 7)), s.salt);
  }

  lemma SaltRead(x: bv8, y: bv8, z: bv8, salt: bv8)
    requires salt <= 7
    requires x == BitTest(salt, 0) && y == BitTest(salt, 1) && z == BitTest(salt, 2)
    ensures x | (y << 1) | (z << 2) == salt
  {
    ReadSalt(salt);
  }

  /** `bytes_to_state` inverts `state_to_bytes` on normalized states whose fields are in range. */
  lemma BytesToStateBytes(s: GameState)
    requires s.InRange() && s.IsNormalized()
    ensures PackableName(s.heroName)
    ensures BytesToState(StateBytes(s)) == s
  {
    UnpackPackedName(s.heroName);
    var b := StateBytes(s);
    StateBytesAt(s);
    FieldBytesNamed(s, PackedName(s.heroName));
    FieldBytesNumbers(s, PackedName(s.heroName));
    FieldBytesInventory(s, PackedName(s.heroName));
    ReadName(b, s, s.salt);
    ReadNumbers(b, s);
    ReadInventory(b, s.inventory);
    ReadFlags(b, s);
  }

  // ---------------------------------------------------------------------------
  // Every CRC-valid byte array is the layout of the state read from it.

  lemma WriteWord(x: bv16, lo: bv8, hi: bv8)
    requires x == (lo as bv16) | ((hi as bv16) << 8)
    ensures Lo(x) == lo && Hi(x) == hi
  {
  }

  lemma WriteNibbles(x: bv8, lo: bv8, hi: bv8)
    requires lo == x & 0xF && hi == x >> 4
    ensures NibblePair(lo, hi) == x
  {
  }

  lemma WriteEquipment(x: bv8, shield: bv8, armor: bv8, weapon: bv8)
    requires shield == x & 0x3 && armor == (x >> 2) & 0x7 && weapon == x >> 5
    ensures EquipmentByte(shield, armor, weapon) == x
  {
  }

  lemma WriteCodeFlagSalt(x: bv8, code: bv8, flag: bool, saltBit: bv8)
    requires code == x & 0x3F && flag == BitSet(x, 6) && saltBit == Bit(BitSet(x, 7))
    ensures CodeFlagSaltByte(code, flag, saltBit) == x
  {
  }

  lemma WriteSaltFlagCode(x: bv8, saltBit: bv8, flag: bool, code: bv8)
    requires saltBit == Bit(BitSet(x, 0)) && flag == BitSet(x, 1) && code == x >> 2
    ensures SaltFlagCodeByte(saltBit, flag, code) == x
  {
  }

  lemma WriteFlagCodeFlag(x: bv8, low: bool, code: bv8, high: bool)
    requires low == BitSet(x, 0) && code == (x >> 1) & 0x3F && high == BitSet(x, 7)
    ensures FlagCodeFlagByte(low, code, high) == x
  {
  }

  /** The three salt bits read from the bytes are the bits `state_to_bytes` writes back. */
  lemma WriteSalt(x: bool, y: bool, z: bool, salt: bv8)
    requires salt == Bit(x) | (Bit(y) << 1) | (Bit(z) << 2)
    ensures BitTest(salt, 0) == Bit(x) && BitTest(salt, 1) == Bit(y) && BitTest(salt, 2) == Bit(z)
  {
  }

  /** The inventory nibbles read from `b` are packed back into the bytes they came from. */
  lemma WriteInventory(b: seq<bv8>, inv: Inventory)
    requires |b| == 15 && inv == InventoryOf(b)
    ensures NibblePair(inv[0], inv[1]) == b[14] && NibblePair(inv[2], inv[3]) == b[3]
    ensures NibblePair(inv[4], inv[5]) == b[11] && NibblePair(inv[6], inv[7]) == b[6]
  {
    assert inv[0] == b[14] & 0xF && inv[1] == b[14] >> 4 && inv[2] == b[3] & 0xF && inv[3] == b[3] >> 4;
    assert inv[4] == b[11] & 0xF && inv[5] == b[11] >> 4 && inv[6] == b[6] & 0xF && inv[7] == b[6] >> 4;
    WriteNibbles(b[14], inv[0], inv[1]);
    WriteNibbles(b[3], inv[2], inv[3]);
    WriteNibbles(b[11], inv[4], inv[5]);
    WriteNibbles(b[6], inv[6], inv[7]);
  }

  /** The numbers read from `b` are laid out into the bytes they came from. */
  lemma WriteNumbers(b: seq<bv8>, d: GameState)
    requires |b| == 15
    requires d.heroXp == (b[1] as bv16) | ((b[12] as bv16) << 8)
    requires d.purse == (b[4] as bv16) | ((b[9] as bv16) << 8)
    requires d.heroWeapon == b[8] >> 5 && d.heroArmor == (b[8] >> 2) & 0x7 && d.heroShield == b[8] & 0x3
    requires d.herbCount == b[10] & 0xF && d.keyCount == b[10] >> 4
    ensures Lo(d.heroXp) == b[1] && Hi(d.heroXp) == b[12] && Lo(d.purse) == b[4] && Hi(d.purse) == b[9]
    ensures EquipmentByte(d.heroShield, d.heroArmor, d.heroWeapon) == b[8]
    ensures NibblePair(d.herbCount, d.keyCount) == b[10]
  {
    WriteWord(d.heroXp, b[1], b[12]);
    WriteWord(d.purse, b[4], b[9]);
    WriteEquipment(b[8], d.heroShield, d.heroArmor, d.heroWeapon);
    WriteNibbles(b[10], d.herbCount, d.keyCount);
  }

  /** The salt bit, death-necklace flag and name code 2 read from byte 2 are laid out into it again. */
  lemma WriteByte2(b: seq<bv8>, d: GameState, p: seq<bv8>)
    requires |b| == 15 && |p| == 4 && p[2] == b[2] & 0x3F && d.flagGotDeathNecklace == BitSet(b[2], 6)
    requires d.salt == Bit(BitSet(b[5], 0)) | (Bit(BitSet(b[2], 7)) << 1) | (Bit(BitSet(b[7], 7)) << 2)
    ensures CodeFlagSaltByte(p[2], d.flagGotDeathNecklace, BitTest(d.salt, 1)) == b[2]
  {
    WriteSalt(BitSet(b[5], 0), BitSet(b[2], 7), BitSet(b[7], 7), d.salt);
    WriteCodeFlagSalt(b[2], p[2], d.flagGotDeathNecklace, BitTest(d.salt, 1));
  }

  /** The salt bit, golem flag and name code 0 read from byte 5 are laid out into it again. */
  lemma WriteByte5(b: seq<bv8>, d: GameState, p: seq<bv8>)
    requires |b| == 15 && |p| == 4 && p[0] == b[5] >> 2 && d.flagBeatedGolem == BitSet(b[5], 1)
    requires d.salt == Bit(BitSet(b[5], 0)) | (Bit(BitSet(b[2], 7)) << 1) | (Bit(BitSet(b[7], 7)) << 2)
    ensures SaltFlagCodeByte(BitTest(d.salt, 0), d.flagBeatedGolem, p[0]) == b[5]
  {
    WriteSalt(BitSet(b[5], 0), BitSet(b[2], 7), BitSet(b[7], 7), d.salt);
    WriteSaltFlagCode(b[5], BitTest(d.salt, 0), d.flagBeatedGolem, p[0]);
  }

  /** The salt bit, dragon flag and name code 3 read from byte 7 are laid out into it again. */
  lemma WriteByte7(b: seq<bv8>, d: GameState, p: seq<bv8>)
    requires |b| == 15 && |p| == 4 && p[3] == b[7] & 0x3F && d.flagBeatedDragon == BitSet(b[7], 6)
    requires d.salt == Bit(BitSet(b[5], 0)) | (Bit(BitSet(b[2], 7)) << 1) | (Bit(BitSet(b[7], 7)) << 2)
    ensures CodeFlagSaltByte(p[3], d.flagBeatedDragon, BitTest(d.salt, 2)) == b[7]
  {
    WriteSalt(BitSet(b[5], 0), BitSet(b[2], 7), BitSet(b[7], 7), d.salt);
    WriteCodeFlagSalt(b[7], p[3], d.flagBeatedDragon, BitTest(d.salt, 2));
  }

  /** The two equipment flags and name code 1 read from byte 13 are laid out into it again. */
  lemma WriteByte13(b: seq<bv8>, d: GameState, p: seq<bv8>)
    requires |b| == 15 && |p| == 4 && p[1] == (b[13] >> 1) & 0x3F
    requires d.flagEquipDragonScale == BitSet(b[13], 7) && d.flagEquipWarriorRing == BitSet(b[13], 0)
    ensures FlagCodeFlagByte(d.flagEquipWarriorRing, p[1], d.flagEquipDragonScale) == b[13]
  {
    WriteFlagCodeFlag(b[13], d.flagEquipWarriorRing, p[1], d.flagEquipDragonScale);
  }

  /** Fourteen bytes equal one by one to bytes 1 to 14 of `b` are `b[1..]`. */
  lemma CollectFields(b: seq<bv8>, f: seq<bv8>)
    requires |b| == 15 && |f| == 14
    requires f[0] == b[1] && f[1] == b[2] && f[2] == b[3] && f[3] == b[4] && f[4] == b[5]
    requires f[5] == b[6] && f[6] == b[7] && f[7] == b[8] && f[8] == b[9] && f[9] == b[10]
    requires f[10] == b[11] && f[11] == b[12] && f[12] == b[13] && f[13] == b[14]
    ensures f == b[1..]
  {
  }

  /** No bit of bytes 1 to 14 is lost: laying out the state read from `b` gives those bytes back. */
  lemma StateBytesOfBytes(b: seq<bv8>)
    requires |b| == 15
    ensures PackableName(BytesToState(b).heroName)
    ensures FieldBytes(BytesToState(b), PackedName(BytesToState(b).heroName)) == b[1..]
  {
    var d := BytesToState(b);
    PackUnpackedName(NameCodes(b));
    var p := PackedName(d.heroName);
    WriteInventory(b, d.inventory);
    WriteNumbers(b, d);
    assert p[0] == b[5] >> 2 && p[1] == (b[13] >> 1) & 0x3F && p[2] == b[2] & 0x3F && p[3] == b[7] & 0x3F;
    WriteByte2(b, d, p);
    WriteByte5(b, d, p);
    WriteByte7(b, d, p);
    WriteByte13(b, d, p);
    FieldBytesNamed(d, p);
    FieldBytesNumbers(d, p);
    FieldBytesInventory(d, p);
    CollectFields(b, FieldBytes(d, p));
  }

  /** `state_to_bytes` inverts `bytes_to_state` on every byte array whose CRC byte is right. */
  lemma StateBytesOfState(b: seq<bv8>)
    requires |b| == 15 && CheckBytesCrc(b).Ok?
    ensures PackableName(BytesToState(b).heroName)
    ensures StateBytes(BytesToState(b)) == b
  {
    StateBytesOfBytes(b);
    var sb := StateBytes(BytesToState(b));
    assert sb[0] == b[0];
    SameHeadTail(sb, b);
  }

  lemma SameHeadTail(a: seq<bv8>, b: seq<bv8>)
    requires |a| == |b| > 0 && a[0] == b[0] && a[1..] == b[1..]
    ensures a == b
  {
    assert forall k :: 1 <= k < |a| ==> a[k] == a[1..][k - 1];
  }

  // ---------------------------------------------------------------------------
  // `decode`.

  /**
   * `decode`: normalize the text, read its 15 bytes, check the CRC, read the state,
   * then check the herb count, the key count and the inventory, in that order.  The
   * other fields need no check: the layout gives them too few bits to go out of range.
   */
  function Decode(password: string): (r: Result<GameState>)
    ensures NormalizePassword(password).Err? ==> r == Err(InvalidPassword)
    ensures r.Err? ==> r.error == InvalidPassword || r.error.CrcMismatch? || r.error == InvalidGameState
    ensures r.Ok? ==> r.value.Validate().Ok? && r.value.IsNormalized()
  {
    var normalized :- NormalizePassword(password);
    BytesOfPasswordLength(normalized);
    var bytes := BytesOfPassword(normalized);
    var _ :- CheckBytesCrc(bytes);
    var state := BytesToState(bytes);
    var _ :- ValidateHerbCount(state.herbCount);
    var _ :- ValidateKeyCount(state.keyCount);
    var _ :- ValidateInventory(state.inventory);
    BytesToStateRanges(bytes);
    NormalizedNameFixed(state.heroName);
    Ok(state)
  }

  /** Any password `encode` makes decodes to the normalized state: `decode(encode(s)) == s.normalize()`. */
  lemma DecodeEncode(s: GameState)
    requires s.Validate().Ok?
    ensures Encode(s).Ok?
    ensures Decode(Encode(s).value) == s.Normalize()
  {
    var n := s.Normalize().value;
    assert n.InRange();
    BytesToStateBytes(n);
    var b := StateBytes(n);
    PasswordOfValid(b);
    NormalizedPasswordFixed(PasswordOf(b));
    BytesOfPasswordOf(b);
    StateBytesPassCrc(n);
  }

  /** Any password `decode` accepts is the one `encode` makes from the result, once normalized. */
  lemma EncodeDecode(password: string)
    requires Decode(password).Ok?
    ensures Encode(Decode(password).value) == NormalizePassword(password)
  {
    var np := NormalizePassword(password).value;
    BytesOfPasswordLength(np);
    var b := BytesOfPassword(np);
    var d := BytesToState(b);
    assert Decode(password).value == d;
    NormalizedStateFixed(d);
    StateBytesOfState(b);
    PasswordOfBytesOf(np);
  }

  /** A well-formed password whose CRC byte is wrong is rejected with both CRC values, before any field check. */
  lemma DecodeCrcMismatch(password: string)
    requires NormalizePassword(password).Ok?
    ensures |BytesOfPassword(NormalizePassword(password).value)| == 15
    ensures var b := BytesOfPassword(NormalizePassword(password).value);
      Low(Fold(Zero, b[1..])) != b[0] ==> Decode(password) == Err(CrcMismatch(b[0], Fold(Zero, b[1..]).bits))
  {
    BytesOfPasswordLength(NormalizePassword(password).value);
  }

  // Changing the last character.

  /** Replacing character 19 by another password character keeps cums 0..18 and changes cum 19. */
  lemma LastCums(p: string, c: char)
    requires |p| == 20 && AllPasswordChars(p)
    requires PasswordCharToCum(c).Some? && c != p[19]
    ensures |p[..19] + [c]| == 20 && AllPasswordChars(p[..19] + [c])
    ensures forall k :: 0 <= k < 19 ==> CumsOf(p[..19] + [c])[k] == CumsOf(p)[k]
    ensures CumsOf(p[..19] + [c])[19] != CumsOf(p)[19]
  {
    var q := p[..19] + [c];
    assert forall k :: 0 <= k < 19 ==> q[k] == p[k];
    assert q[19] == c;
    PasswordCharToCumInverse(c);
    PasswordCharToCumInverse(p[19]);
  }

  /** Cum sequences that agree below 19 and differ at 19 have sixes that do the same. */
  lemma LastSixes(cp: seq<bv8>, cq: seq<bv8>)
    requires |cp| == 20 && |cq| == 20 && AllSix(cp) && AllSix(cq)
    requires forall k :: 0 <= k < 19 ==> cq[k] == cp[k]
    requires cq[19] != cp[19]
    ensures forall k :: 0 <= k < 19 ==> SixesFrom(0, cq)[k] == SixesFrom(0, cp)[k]
    ensures SixesFrom(0, cq)[19] != SixesFrom(0, cp)[19]
  {
    forall k | 0 <= k < 19
      ensures SixesFrom(0, cq)[k] == SixesFrom(0, cp)[k]
    {
      SixesFromAt(0, cq, k);
      SixesFromAt(0, cp, k);
    }
    SixesFromAt(0, cq, 19);
    SixesFromAt(0, cp, 19);
    NextCumSixBetween(cp[18], cp[19]);
    NextCumSixBetween(cp[18], cq[19]);
  }

  /** The bytes of a final group of four sixes follow the bytes of the sixes before it. */
  lemma BytesOfLastGroup(s: seq<bv8>)
    requires |s| == 20
    ensures BytesOf(s) == BytesOf(s[..16]) + GroupBytes(s[16], s[17], s[18], s[19])
    ensures |BytesOf(s[..16])| == 12
  {
    BytesOfAppend(s[..16], s[16..]);
    assert s[..16] + s[16..] == s;
    assert s[16..][4..] == [];
    BytesOfLength(s[..16]);
  }

  /** The last group changes only in its last byte when only its last six changes. */
  lemma LastGroupBytes(s0: bv8, s1: bv8, s2: bv8, a: bv8, b: bv8)
    requires s2 < 64 && a < 64 && b < 64 && a != b
    ensures GroupBytes(s0, s1, s2, b)[..2] == GroupBytes(s0, s1, s2, a)[..2]
    ensures GroupBytes(s0, s1, s2, b)[2] != GroupBytes(s0, s1, s2, a)[2]
  {
    assert ((s2 >> 4) | (a << 2)) >> 2 == a;
    assert ((s2 >> 4) | (b << 2)) >> 2 == b;
  }

  /** Two sequences with a common 12-element head and tails differing only at their end. */
  lemma SameHeadLastDiffers(head: seq<bv8>, x: seq<bv8>, y: seq<bv8>)
    requires |head| == 12 && |x| == 3 && |y| == 3
    requires y[..2] == x[..2] && y[2] != x[2]
    ensures (head + y)[..14] == (head + x)[..14]
    ensures (head + y)[14] != (head + x)[14]
  {
    assert (head + y)[..14] == head + y[..2];
    assert (head + x)[..14] == head + x[..2];
  }

  /** Sixes that agree below 19 and differ at 19 give bytes that agree below 14 and differ at 14. */
  lemma LastBytes(sp: seq<bv8>, sq: seq<bv8>)
    requires |sp| == 20 && |sq| == 20 && AllSix(sp) && AllSix(sq)
    requires forall k :: 0 <= k < 19 ==> sq[k] == sp[k]
    requires sq[19] != sp[19]
    ensures |BytesOf(sp)| == 15 && |BytesOf(sq)| == 15
    ensures BytesOf(sq)[..14] == BytesOf(sp)[..14]
    ensures BytesOf(sq)[14] != BytesOf(sp)[14]
  {
    assert sq[..16] == sp[..16];
    BytesOfLastGroup(sp);
    BytesOfLastGroup(sq);
    LastGroupBytes(sp[16], sp[17], sp[18], sp[19], sq[19]);
    SameHeadLastDiffers(BytesOf(sp[..16]), GroupBytes(sp[16], sp[17], sp[18], sp[19]),
      GroupBytes(sp[16], sp[17], sp[18], sq[19]));
  }

  /** A change of byte 14 alone turns a CRC match into a mismatch. */
  lemma LastByteCrc(bp: seq<bv8>, bq: seq<bv8>)
    requires |bp| == 15 && |bq| == 15
    requires bq[..14] == bp[..14] && bq[14] != bp[14]
    requires Low(Fold(Zero, bp[1..])) == bp[0]
    ensures Low(Fold(Zero, bq[1..])) != bq[0]
  {
    assert bp[1..] == bp[1..14] + [bp[14]];
    assert bq[1..] == bp[1..14] + [bq[14]];
    assert bq[0] == bp[0];
    FoldSnoc(Zero, bp[1..14], bp[14]);
    FoldSnoc(Zero, bp[1..14], bq[14]);
    ByteChange(Fold(Zero, bp[1..14]), bp[14], bq[14]);
  }

  /**
   * Replacing the last character of a password that decodes by any other password
   * character makes `decode` report a CRC mismatch.
   */
  lemma LastCharMismatch(p: string, c: char)
    requires |p| == 20 && AllPasswordChars(p) && Decode(p).Ok?
    requires PasswordCharToCum(c).Some? && c != p[19]
    ensures Decode(p[..19] + [c]).Err? && Decode(p[..19] + [c]).error.CrcMismatch?
  {
    var q := p[..19] + [c];
    NormalizedPasswordFixed(p);
    BytesOfPasswordLength(p);
    assert CheckBytesCrc(BytesOfPassword(p)).Ok?;
    LastCums(p, c);
    CumsOfValid(p);
    CumsOfValid(q);
    var cp, cq := CumsOf(p), CumsOf(q);
    LastSixes(cp, cq);
    SixesFromBounded(0, cp);
    SixesFromBounded(0, cq);
    LastBytes(SixesFrom(0, cp), SixesFrom(0, cq));
    LastByteCrc(BytesOfPassword(p), BytesOfPassword(q));
    NormalizedPasswordFixed(q);
    DecodeCrcMismatch(q);
  }
}
