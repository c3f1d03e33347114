/**
 * The two 64-symbol alphabets of the password scheme: the password alphabet, indexed
 * by the running sum ("cum") of the 6-bit values, and the hero-name alphabet, indexed
 * by the 6-bit name code.  Each alphabet appears twice in the library, once as an
 * array indexed by the code and once as a map from character to code; the lemmas
 * here prove that the two agree and that each map is defined on exactly the 64
 * characters of its array.
 */
module Alphabet {
  import opened Errors

  /**
   * `cum_to_password_char`: the password character of a cum (the cum must be below 64).
   * None of them is the wildcard of a pattern.
   */
  function CumToPasswordChar(cum: bv8): (c: char)
    requires cum < 64
    ensures c != '?'
  {
    match cum
    case 0x00 => 'あ'
    case 0x01 => 'い'
    case 0x02 => 'う'
    case 0x03 => 'え'
    case 0x04 => 'お'
    case 0x05 => 'か'
    case 0x06 => 'き'
    case 0x07 => 'く'
    case 0x08 => 'け'
    case 0x09 => 'こ'
    case 0x0A => 'さ'
    case 0x0B => 'し'
    case 0x0C => 'す'
    case 0x0D => 'せ'
    case 0x0E => 'そ'
    case 0x0F => 'た'
    case 0x10 => 'ち'
    case 0x11 => 'つ'
    case 0x12 => 'て'
    case 0x13 => 'と'
    case 0x14 => 'な'
    case 0x15 => 'に'
    case 0x16 => 'ぬ'
    case 0x17 => 'ね'
    case 0x18 => 'の'
    case 0x19 => 'は'
    case 0x1A => 'ひ'
    case 0x1B => 'ふ'
    case 0x1C => 'へ'
    case 0x1D => 'ほ'
    case 0x1E => 'ま'
    case 0x1F => 'み'
    case 0x20 => 'む'
    case 0x21 => 'め'
    case 0x22 => 'も'
    case 0x23 => 'や'
    case 0x24 => 'ゆ'
    case 0x25 => 'よ'
    case 0x26 => 'ら'
    case 0x27 => 'り'
    case 0x28 => 'る'
    case 0x29 => 'れ'
    case 0x2A => 'ろ'
    case 0x2B => 'わ'
    case 0x2C => 'が'
    case 0x2D => 'ぎ'
    case 0x2E => 'ぐ'
    case 0x2F => 'げ'
    case 0x30 => 'ご'
    case 0x31 => 'ざ'
    case 0x32 => 'じ'
    case 0x33 => 'ず'
    case 0x34 => 'ぜ'
    case 0x35 => 'ぞ'
    case 0x36 => 'だ'
    case 0x37 => 'ぢ'
    case 0x38 => 'づ'
    case 0x39 => 'で'
    case 0x3A => 'ど'
    case 0x3B => 'ば'
    case 0x3C => 'び'
    case 0x3D => 'ぶ'
    case 0x3E => 'べ'
    case 0x3F => 'ぼ'
  }

  /** `password_char_to_cum`: the cum of a password character, if it is one; a cum fits in six bits. */
  function PasswordCharToCum(c: char): (r: Option<bv8>)
    ensures r.Some? ==> r.value >> 6 == 0
  {
    match c
    case 'あ' => Some(0x00)
    case 'い' => Some(0x01)
    case 'う' => Some(0x02)
    case 'え' => Some(0x03)
    case 'お' => Some(0x04)
    case 'か' => Some(0x05)
    case 'き' => Some(0x06)
    case 'く' => Some(0x07)
    case 'け' => Some(0x08)
    case 'こ' => Some(0x09)
    case 'さ' => Some(0x0A)
    case 'し' => Some(0x0B)
    case 'す' => Some(0x0C)
    case 'せ' => Some(0x0D)
    case 'そ' => Some(0x0E)
    case 'た' => Some(0x0F)
    case 'ち' => Some(0x10)
    case 'つ' => Some(0x11)
    case 'て' => Some(0x12)
    case 'と' => Some(0x13)
    case 'な' => Some(0x14)
    case 'に' => Some(0x15)
    case 'ぬ' => Some(0x16)
    case 'ね' => Some(0x17)
    case 'の' => Some(0x18)
    case 'は' => Some(0x19)
    case 'ひ' => Some(0x1A)
    case 'ふ' => Some(0x1B)
    case 'へ' => Some(0x1C)
    case 'ほ' => Some(0x1D)
    case 'ま' => Some(0x1E)
    case 'み' => Some(0x1F)
    case 'む' => Some(0x20)
    case 'め' => Some(0x21)
    case 'も' => Some(0x22)
    case 'や' => Some(0x23)
    case 'ゆ' => Some(0x24)
    case 'よ' => Some(0x25)
    case 'ら' => Some(0x26)
    case 'り' => Some(0x27)
    case 'る' => Some(0x28)
    case 'れ' => Some(0x29)
    case 'ろ' => Some(0x2A)
    case 'わ' => Some(0x2B)
    case 'が' => Some(0x2C)
    case 'ぎ' => Some(0x2D)
    case 'ぐ' => Some(0x2E)
    case 'げ' => Some(0x2F)
    case 'ご' => Some(0x30)
    case 'ざ' => Some(0x31)
    case 'じ' => Some(0x32)
    case 'ず' => Some(0x33)
    case 'ぜ' => Some(0x34)
    case 'ぞ' => Some(0x35)
    case 'だ' => Some(0x36)
    case 'ぢ' => Some(0x37)
    case 'づ' => Some(0x38)
    case 'で' => Some(0x39)
    case 'ど' => Some(0x3A)
    case 'ば' => Some(0x3B)
    case 'び' => Some(0x3C)
    case 'ぶ' => Some(0x3D)
    case 'べ' => Some(0x3E)
    case 'ぼ' => Some(0x3F)
    case _ => None
  }

  /**
   * `unpack_hero_name_char`: the name character of a 6-bit code (the code must be below 64).
   * The long-vowel mark is not among them: name normalization writes it as '-'.
   */
  function UnpackHeroNameChar(b: bv8): (c: char)
    requires b < 64
    ensures c != '\U{30FC}'
  {
    match b
    case 0x00 => '0'
    case 0x01 => '1'
    case 0x02 => '2'
    case 0x03 => '3'
    case 0x04 => '4'
    case 0x05 => '5'
    case 0x06 => '6'
    case 0x07 => '7'
    case 0x08 => '8'
    case 0x09 => '9'
    case 0x0A => 'あ'
    case 0x0B => 'い'
    case 0x0C => 'う'
    case 0x0D => 'え'
    case 0x0E => 'お'
    case 0x0F => 'か'
    case 0x10 => 'き'
    case 0x11 => 'く'
    case 0x12 => 'け'
    case 0x13 => 'こ'
    case 0x14 => 'さ'
    case 0x15 => 'し'
    case 0x16 => 'す'
    case 0x17 => 'せ'
    case 0x18 => 'そ'
    case 0x19 => 'た'
    case 0x1A => 'ち'
    case 0x1B => 'つ'
    case 0x1C => 'て'
    case 0x1D => 'と'
    case 0x1E => 'な'
    case 0x1F => 'に'
    case 0x20 => 'ぬ'
    case 0x21 => 'ね'
    case 0x22 => 'の'
    case 0x23 => 'は'
    case 0x24 => 'ひ'
    case 0x25 => 'ふ'
    case 0x26 => 'へ'
    case 0x27 => 'ほ'
    case 0x28 => 'ま'
    case 0x29 => 'み'
    case 0x2A => 'む'
    case 0x2B => 'め'
    case 0x2C => 'も'
    case 0x2D => 'や'
    case 0x2E => 'ゆ'
    case 0x2F => 'よ'
    case 0x30 => 'ら'
    case 0x31 => 'り'
    case 0x32 => 'る'
    case 0x33 => 'れ'
    case 0x34 => 'ろ'
    case 0x35 => 'わ'
    case 0x36 => 'を'
    case 0x37 => 'ん'
    case 0x38 => 'っ'
    case 0x39 => 'ゃ'
    case 0x3A => 'ゅ'
    case 0x3B => 'ょ'
    case 0x3C => '゛'
    case 0x3D => '゜'
    case 0x3E => '-'
    case 0x3F => ' '
  }

  /**
   * `pack_hero_name_char`: the 6-bit code of a name character, if it is one; a code fits
   * in six bits, and the long-vowel mark has none.
   */
  function PackHeroNameChar(c: char): (r: Option<bv8>)
    ensures r.Some? ==> r.value >> 6 == 0
    ensures c == '\U{30FC}' ==> r.None?
  {
    match c
    case '0' => Some(0x00)
    case '1' => Some(0x01)
    case '2' => Some(0x02)
    case '3' => Some(0x03)
    case '4' => Some(0x04)
    case '5' => Some(0x05)
    case '6' => Some(0x06)
    case '7' => Some(0x07)
    case '8' => Some(0x08)
    case '9' => Some(0x09)
    case 'あ' => Some(0x0A)
    case 'い' => Some(0x0B)
    case 'う' => Some(0x0C)
    case 'え' => Some(0x0D)
    case 'お' => Some(0x0E)
    case 'か' => Some(0x0F)
    case 'き' => Some(0x10)
    case 'く' => Some(0x11)
    case 'け' => Some(0x12)
    case 'こ' => Some(0x13)
    case 'さ' => Some(0x14)
    case 'し' => Some(0x15)
    case 'す' => Some(0x16)
    case 'せ' => Some(0x17)
    case 'そ' => Some(0x18)
    case 'た' => Some(0x19)
    case 'ち' => Some(0x1A)
    case 'つ' => Some(0x1B)
    case 'て' => Some(0x1C)
    case 'と' => Some(0x1D)
    case 'な' => Some(0x1E)
    case 'に' => Some(0x1F)
    case 'ぬ' => Some(0x20)
    case 'ね' => Some(0x21)
    case 'の' => Some(0x22)
    case 'は' => Some(0x23)
    case 'ひ' => Some(0x24)
    case 'ふ' => Some(0x25)
    case 'へ' => Some(0x26)
    case 'ほ' => Some(0x27)
    case 'ま' => Some(0x28)
    case 'み' => Some(0x29)
    case 'む' => Some(0x2A)
    case 'め' => Some(0x2B)
    case 'も' => Some(0x2C)
    case 'や' => Some(0x2D)
    case 'ゆ' => Some(0x2E)
    case 'よ' => Some(0x2F)
    case 'ら' => Some(0x30)
    case 'り' => Some(0x31)
    case 'る' => Some(0x32)
    case 'れ' => Some(0x33)
    case 'ろ' => Some(0x34)
    case 'わ' => Some(0x35)
    case 'を' => Some(0x36)
    case 'ん' => Some(0x37)
    case 'っ' => Some(0x38)
    case 'ゃ' => Some(0x39)
    case 'ゅ' => Some(0x3A)
    case 'ょ' => Some(0x3B)
    case '゛' => Some(0x3C)
    case '゜' => Some(0x3D)
    case '-' => Some(0x3E)
    case ' ' => Some(0x3F)
    case _ => None
  }

  // ---------------------------------------------------------------------------
  // The password alphabet.

  /** Every character the map accepts has a cum below 64, and the array maps that cum back to it. */
  lemma PasswordCharToCumInverse(c: char)
    ensures PasswordCharToCum(c).Some? ==>
      PasswordCharToCum(c).value < 64 && CumToPasswordChar(PasswordCharToCum(c).value) == c
  {
    match c
    case 'あ' =>
    case 'い' =>
    case 'う' =>
    case 'え' =>
    case 'お' =>
    case 'か' =>
    case 'き' =>
    case 'く' =>
    case 'け' =>
    case 'こ' =>
    case 'さ' =>
    case 'し' =>
    case 'す' =>
    case 'せ' =>
    case 'そ' =>
    case 'た' =>
    case 'ち' =>
    case 'つ' =>
    case 'て' =>
    case 'と' =>
    case 'な' =>
    case 'に' =>
    case 'ぬ' =>
    case 'ね' =>
    case 'の' =>
    case 'は' =>
    case 'ひ' =>
    case 'ふ' =>
    case 'へ' =>
    case 'ほ' =>
    case 'ま' =>
    case 'み' =>
    case 'む' =>
    case 'め' =>
    case 'も' =>
    case 'や' =>
    case 'ゆ' =>
    case 'よ' =>
    case 'ら' =>
    case 'り' =>
    case 'る' =>
    case 'れ' =>
    case 'ろ' =>
    case 'わ' =>
    case 'が' =>
    case 'ぎ' =>
    case 'ぐ' =>
    case 'げ' =>
    case 'ご' =>
    case 'ざ' =>
    case 'じ' =>
    case 'ず' =>
    case 'ぜ' =>
    case 'ぞ' =>
    case 'だ' =>
    case 'ぢ' =>
    case 'づ' =>
    case 'で' =>
    case 'ど' =>
    case 'ば' =>
    case 'び' =>
    case 'ぶ' =>
    case 'べ' =>
    case 'ぼ' =>
    case _ =>
  }

  lemma CumCovered0(v: bv8)
    requires 0 <= v < 20
    ensures exists c :: PasswordCharToCum(c) == Some(v)
  {
    match v
    case 0x00 => assert PasswordCharToCum('あ') == Some(0x00);
    case 0x01 => assert PasswordCharToCum('い') == Some(0x01);
    case 0x02 => assert PasswordCharToCum('う') == Some(0x02);
    case 0x03 => assert PasswordCharToCum('え') == Some(0x03);
    case 0x04 => assert PasswordCharToCum('お') == Some(0x04);
    case 0x05 => assert PasswordCharToCum('か') == Some(0x05);
    case 0x06 => assert PasswordCharToCum('き') == Some(0x06);
    case 0x07 => assert PasswordCharToCum('く') == Some(0x07);
    case 0x08 => assert PasswordCharToCum('け') == Some(0x08);
    case 0x09 => assert PasswordCharToCum('こ') == Some(0x09);
    case 0x0A => assert PasswordCharToCum('さ') == Some(0x0A);
    case 0x0B => assert PasswordCharToCum('し') == Some(0x0B);
    case 0x0C => assert PasswordCharToCum('す') == Some(0x0C);
    case 0x0D => assert PasswordCharToCum('せ') == Some(0x0D);
    case 0x0E => assert PasswordCharToCum('そ') == Some(0x0E);
    case 0x0F => assert PasswordCharToCum('た') == Some(0x0F);
    case 0x10 => assert PasswordCharToCum('ち') == Some(0x10);
    case 0x11 => assert PasswordCharToCum('つ') == Some(0x11);
    case 0x12 => assert PasswordCharToCum('て') == Some(0x12);
    case 0x13 => assert PasswordCharToCum('と') == Some(0x13);
  }

  lemma CumCovered1(v: bv8)
    requires 20 <= v < 32
    ensures exists c :: PasswordCharToCum(c) == Some(v)
  {
    match v
    case 0x14 => assert PasswordCharToCum('な') == Some(0x14);
    case 0x15 => assert PasswordCharToCum('に') == Some(0x15);
    case 0x16 => assert PasswordCharToCum('ぬ') == Some(0x16);
    case 0x17 => assert PasswordCharToCum('ね') == Some(0x17);
    case 0x18 => assert PasswordCharToCum('の') == Some(0x18);
    case 0x19 => assert PasswordCharToCum('は') == Some(0x19);
    case 0x1A => assert PasswordCharToCum('ひ') == Some(0x1A);
    case 0x1B => assert PasswordCharToCum('ふ') == Some(0x1B);
    case 0x1C => assert PasswordCharToCum('へ') == Some(0x1C);
    case 0x1D => assert PasswordCharToCum('ほ') == Some(0x1D);
    case 0x1E => assert PasswordCharToCum('ま') == Some(0x1E);
    case 0x1F => assert PasswordCharToCum('み') == Some(0x1F);
  }

  lemma CumCovered2(v: bv8)
    requires 32 <= v < 42
    ensures exists c :: PasswordCharToCum(c) == Some(v)
  {
    match v
    case 0x20 => assert PasswordCharToCum('む') == Some(0x20);
    case 0x21 => assert PasswordCharToCum('め') == Some(0x21);
    case 0x22 => assert PasswordCharToCum('も') == Some(0x22);
    case 0x23 => assert PasswordCharToCum('や') == Some(0x23);
    case 0x24 => assert PasswordCharToCum('ゆ') == Some(0x24);
    case 0x25 => assert PasswordCharToCum('よ') == Some(0x25);
    case 0x26 => assert PasswordCharToCum('ら') == Some(0x26);
    case 0x27 => assert PasswordCharToCum('り') == Some(0x27);
    case 0x28 => assert PasswordCharToCum('る') == Some(0x28);
    case 0x29 => assert PasswordCharToCum('れ') == Some(0x29);
  }

  lemma CumCovered3(v: bv8)
    requires 42 <= v < 50
    ensures exists c :: PasswordCharToCum(c) == Some(v)
  {
    match v
    case 0x2A => assert PasswordCharToCum('ろ') == Some(0x2A);
    case 0x2B => assert PasswordCharToCum('わ') == Some(0x2B);
    case 0x2C => assert PasswordCharToCum('が') == Some(0x2C);
    case 0x2D => assert PasswordCharToCum('ぎ') == Some(0x2D);
    case 0x2E => assert PasswordCharToCum('ぐ') == Some(0x2E);
    case 0x2F => assert PasswordCharToCum('げ') == Some(0x2F);
    case 0x30 => assert PasswordCharToCum('ご') == Some(0x30);
    case 0x31 => assert PasswordCharToCum('ざ') == Some(0x31);
  }

  lemma CumCovered4(v: bv8)
    requires 50 <= v < 57
    ensures exists c :: PasswordCharToCum(c) == Some(v)
  {
    match v
    case 0x32 => assert PasswordCharToCum('じ') == Some(0x32);
    case 0x33 => assert PasswordCharToCum('ず') == Some(0x33);
    case 0x34 => assert PasswordCharToCum('ぜ') == Some(0x34);
    case 0x35 => assert PasswordCharToCum('ぞ') == Some(0x35);
    case 0x36 => assert PasswordCharToCum('だ') == Some(0x36);
    case 0x37 => assert PasswordCharToCum('ぢ') == Some(0x37);
    case 0x38 => assert PasswordCharToCum('づ') == Some(0x38);
  }

  lemma CumCovered5(v: bv8)
    requires 57 <= v < 64
    ensures exists c :: PasswordCharToCum(c) == Some(v)
  {
    match v
    case 0x39 => assert PasswordCharToCum('で') == Some(0x39);
    case 0x3A => assert PasswordCharToCum('ど') == Some(0x3A);
    case 0x3B => assert PasswordCharToCum('ば') == Some(0x3B);
    case 0x3C => assert PasswordCharToCum('び') == Some(0x3C);
    case 0x3D => assert PasswordCharToCum('ぶ') == Some(0x3D);
    case 0x3E => assert PasswordCharToCum('べ') == Some(0x3E);
    case 0x3F => assert PasswordCharToCum('ぼ') == Some(0x3F);
  }

  /** Every cum below 64 is the value of some character under the map. */
  lemma CumCovered(v: bv8)
    requires v < 64
    ensures exists c :: PasswordCharToCum(c) == Some(v)
  {
    if v < 20 {
      CumCovered0(v);
    } else if v < 32 {
      CumCovered1(v);
    } else if v < 42 {
      CumCovered2(v);
    } else if v < 50 {
      CumCovered3(v);
    } else if v < 57 {
      CumCovered4(v);
    } else {
      CumCovered5(v);
    }
  }

  /** The map sends the array's character for `cum` back to `cum`. */
  lemma CumToPasswordCharInverse(cum: bv8)
    requires cum < 64
    ensures PasswordCharToCum(CumToPasswordChar(cum)) == Some(cum)
  {
    CumCovered(cum);
    var c :| PasswordCharToCum(c) == Some(cum);
    PasswordCharToCumInverse(c);
  }

  /** The map is defined exactly on the 64 characters of the array. */
  lemma PasswordAlphabetExact(c: char)
    ensures PasswordCharToCum(c).Some? <==> exists cum: bv8 :: cum < 64 && CumToPasswordChar(cum) == c
  {
    if cum: bv8 :| cum < 64 && CumToPasswordChar(cum) == c {
      CumToPasswordCharInverse(cum);
    }
    PasswordCharToCumInverse(c);
  }

  // ---------------------------------------------------------------------------
  // The hero-name alphabet.

  /** Every character the map accepts has a code below 64, and the array maps that code back to it. */
  lemma PackHeroNameCharInverse(c: char)
    ensures PackHeroNameChar(c).Some? ==>
      PackHeroNameChar(c).value < 64 && UnpackHeroNameChar(PackHeroNameChar(c).value) == c
  {
    match c
    case '0' =>
    case '1' =>
    case '2' =>
    case '3' =>
    case '4' =>
    case '5' =>
    case '6' =>
    case '7' =>
    case '8' =>
    case '9' =>
    case 'あ' =>
    case 'い' =>
    case 'う' =>
    case 'え' =>
    case 'お' =>
    case 'か' =>
    case 'き' =>
    case 'く' =>
    case 'け' =>
    case 'こ' =>
    case 'さ' =>
    case 'し' =>
    case 'す' =>
    case 'せ' =>
    case 'そ' =>
    case 'た' =>
    case 'ち' =>
    case 'つ' =>
    case 'て' =>
    case 'と' =>
    case 'な' =>
    case 'に' =>
    case 'ぬ' =>
    case 'ね' =>
    case 'の' =>
    case 'は' =>
    case 'ひ' =>
    case 'ふ' =>
    case 'へ' =>
    case 'ほ' =>
    case 'ま' =>
    case 'み' =>
    case 'む' =>
    case 'め' =>
    case 'も' =>
    case 'や' =>
    case 'ゆ' =>
    case 'よ' =>
    case 'ら' =>
    case 'り' =>
    case 'る' =>
    case 'れ' =>
    case 'ろ' =>
    case 'わ' =>
    case 'を' =>
    case 'ん' =>
    case 'っ' =>
    case 'ゃ' =>
    case 'ゅ' =>
    case 'ょ' =>
    case '゛' =>
    case '゜' =>
    case '-' =>
    case ' ' =>
    case _ =>
  }

  lemma CodeCovered0(v: bv8)
    requires 0 <= v < 20
    ensures exists c :: PackHeroNameChar(c) == Some(v)
  {
    match v
    case 0x00 => assert PackHeroNameChar('0') == Some(0x00);
    case 0x01 => assert PackHeroNameChar('1') == Some(0x01);
    case 0x02 => assert PackHeroNameChar('2') == Some(0x02);
    case 0x03 => assert PackHeroNameChar('3') == Some(0x03);
    case 0x04 => assert PackHeroNameChar('4') == Some(0x04);
    case 0x05 => assert PackHeroNameChar('5') == Some(0x05);
    case 0x06 => assert PackHeroNameChar('6') == Some(0x06);
    case 0x07 => assert PackHeroNameChar('7') == Some(0x07);
    case 0x08 => assert PackHeroNameChar('8') == Some(0x08);
    case 0x09 => assert PackHeroNameChar('9') == Some(0x09);
    case 0x0A => assert PackHeroNameChar('あ') == Some(0x0A);
    case 0x0B => assert PackHeroNameChar('い') == Some(0x0B);
    case 0x0C => assert PackHeroNameChar('う') == Some(0x0C);
    case 0x0D => assert PackHeroNameChar('え') == Some(0x0D);
    case 0x0E => assert PackHeroNameChar('お') == Some(0x0E);
    case 0x0F => assert PackHeroNameChar('か') == Some(0x0F);
    case 0x10 => assert PackHeroNameChar('き') == Some(0x10);
    case 0x11 => assert PackHeroNameChar('く') == Some(0x11);
    case 0x12 => assert PackHeroNameChar('け') == Some(0x12);
    case 0x13 => assert PackHeroNameChar('こ') == Some(0x13);
  }

  lemma CodeCovered1(v: bv8)
    requires 20 <= v < 32
    ensures exists c :: PackHeroNameChar(c) == Some(v)
  {
    match v
    case 0x14 => assert PackHeroNameChar('さ') == Some(0x14);
    case 0x15 => assert PackHeroNameChar('し') == Some(0x15);
    case 0x16 => assert PackHeroNameChar('す') == Some(0x16);
    case 0x17 => assert PackHeroNameChar('せ') == Some(0x17);
    case 0x18 => assert PackHeroNameChar('そ') == Some(0x18);
    case 0x19 => assert PackHeroNameChar('た') == Some(0x19);
    case 0x1A => assert PackHeroNameChar('ち') == Some(0x1A);
    case 0x1B => assert PackHeroNameChar('つ') == Some(0x1B);
    case 0x1C => assert PackHeroNameChar('て') == Some(0x1C);
    case 0x1D => assert PackHeroNameChar('と') == Some(0x1D);
    case 0x1E => assert PackHeroNameChar('な') == Some(0x1E);
    case 0x1F => assert PackHeroNameChar('に') == Some(0x1F);
  }

  lemma CodeCovered2(v: bv8)
    requires 32 <= v < 42
    ensures exists c :: PackHeroNameChar(c) == Some(v)
  {
    match v
    case 0x20 => assert PackHeroNameChar('ぬ') == Some(0x20);
    case 0x21 => assert PackHeroNameChar('ね') == Some(0x21);
    case 0x22 => assert PackHeroNameChar('の') == Some(0x22);
    case 0x23 => assert PackHeroNameChar('は') == Some(0x23);
    case 0x24 => assert PackHeroNameChar('ひ') == Some(0x24);
    case 0x25 => assert PackHeroNameChar('ふ') == Some(0x25);
    case 0x26 => assert PackHeroNameChar('へ') == Some(0x26);
    case 0x27 => assert PackHeroNameChar('ほ') == Some(0x27);
    case 0x28 => assert PackHeroNameChar('ま') == Some(0x28);
    case 0x29 => assert PackHeroNameChar('み') == Some(0x29);
  }

  lemma CodeCovered3(v: bv8)
    requires 42 <= v < 50
    ensures exists c :: PackHeroNameChar(c) == Some(v)
  {
    match v
    case 0x2A => assert PackHeroNameChar('む') == Some(0x2A);
    case 0x2B => assert PackHeroNameChar('め') == Some(0x2B);
    case 0x2C => assert PackHeroNameChar('も') == Some(0x2C);
    case 0x2D => assert PackHeroNameChar('や') == Some(0x2D);
    case 0x2E => assert PackHeroNameChar('ゆ') == Some(0x2E);
    case 0x2F => assert PackHeroNameChar('よ') == Some(0x2F);
    case 0x30 => assert PackHeroNameChar('ら') == Some(0x30);
    case 0x31 => assert PackHeroNameChar('り') == Some(0x31);
  }

  lemma CodeCovered4(v: bv8)
    requires 50 <= v < 57
    ensures exists c :: PackHeroNameChar(c) == Some(v)
  {
    match v
    case 0x32 => assert PackHeroNameChar('る') == Some(0x32);
    case 0x33 => assert PackHeroNameChar('れ') == Some(0x33);
    case 0x34 => assert PackHeroNameChar('ろ') == Some(0x34);
    case 0x35 => assert PackHeroNameChar('わ') == Some(0x35);
    case 0x36 => assert PackHeroNameChar('を') == Some(0x36);
    case 0x37 => assert PackHeroNameChar('ん') == Some(0x37);
    case 0x38 => assert PackHeroNameChar('っ') == Some(0x38);
  }

  lemma CodeCovered5(v: bv8)
    requires 57 <= v < 64
    ensures exists c :: PackHeroNameChar(c) == Some(v)
  {
    match v
    case 0x39 => assert PackHeroNameChar('ゃ') == Some(0x39);
    case 0x3A => assert PackHeroNameChar('ゅ') == Some(0x3A);
    case 0x3B => assert PackHeroNameChar('ょ') == Some(0x3B);
    case 0x3C => assert PackHeroNameChar('゛') == Some(0x3C);
    case 0x3D => assert PackHeroNameChar('゜') == Some(0x3D);
    case 0x3E => assert PackHeroNameChar('-') == Some(0x3E);
    case 0x3F => assert PackHeroNameChar(' ') == Some(0x3F);
  }

  /** Every code below 64 is the value of some character under the map. */
  lemma CodeCovered(v: bv8)
    requires v < 64
    ensures exists c :: PackHeroNameChar(c) == Some(v)
  {
    if v < 20 {
      CodeCovered0(v);
    } else if v < 32 {
      CodeCovered1(v);
    } else if v < 42 {
      CodeCovered2(v);
    } else if v < 50 {
      CodeCovered3(v);
    } else if v < 57 {
      CodeCovered4(v);
    } else {
      CodeCovered5(v);
    }
  }

  /** The map sends the array's character for `b` back to `b`. */
  lemma UnpackHeroNameCharInverse(b: bv8)
    requires b < 64
    ensures PackHeroNameChar(UnpackHeroNameChar(b)) == Some(b)
  {
    CodeCovered(b);
    var c :| PackHeroNameChar(c) == Some(b);
    PackHeroNameCharInverse(c);
  }

  /** The map is defined exactly on the 64 characters of the array. */
  lemma NameAlphabetExact(c: char)
    ensures PackHeroNameChar(c).Some? <==> exists b: bv8 :: b < 64 && UnpackHeroNameChar(b) == c
  {
    if b: bv8 :| b < 64 && UnpackHeroNameChar(b) == c {
      UnpackHeroNameCharInverse(b);
    }
    PackHeroNameCharInverse(c);
  }
}
