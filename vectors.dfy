/**
 * The concrete cases of the repository's unit tests, stated on the model: the hero
 * name normalizations, the two states of the encode and decode tests with their 15
 * state bytes and 20-character passwords, the password whose eighth tool is out of
 * range and the password whose last character was changed.  The CRC and the
 * password are evaluated on literals through two equivalent formulations proved
 * equal to the model's own: the CRC one byte at a time as eight conditional shifts,
 * the password one group of three bytes at a time.
 */
module Vectors {
  import opened Errors
  import opened Crc
  import opened Alphabet
  import opened Codec
  import opened Normalize
  import opened GameStates
  import opened Encoder
  import opened Validate
  import opened Decoder

  /** One byte of `crc_update` written as eight conditional shifts. */
  function ByteRounds(r: bv16, x: bv8): bv16 {
    Round(Round(Round(Round(Round(Round(Round(Round(r ^ ((x as bv16) << 8)))))))))
  }

  lemma ByteRoundsIs(r: bv16, x: bv8)
    ensures Update(Register(r), x, 8) == Register(ByteRounds(r, x))
  {
    var r0 := Xor(Register(r), Feed(x, 8));
    ClockEight(r0);
    RoundIs(r0.bits);
    RoundIs(Round(r0.bits));
    RoundIs(Round(Round(r0.bits)));
    RoundIs(Round(Round(Round(r0.bits))));
    RoundIs(Round(Round(Round(Round(r0.bits)))));
    RoundIs(Round(Round(Round(Round(Round(r0.bits))))));
    RoundIs(Round(Round(Round(Round(Round(Round(r0.bits)))))));
    RoundIs(Round(Round(Round(Round(Round(Round(Round(r0.bits))))))));
  }

  /** The CRC of a byte sequence, one byte at a time through `ByteRounds`. */
  function FoldRounds(r: bv16, bytes: seq<bv8>): bv16
    decreases |bytes|
  {
    if |bytes| == 0 then r else FoldRounds(ByteRounds(r, bytes[0]), bytes[1..])
  }

  lemma {:induction false} FoldRoundsIs(r: bv16, bytes: seq<bv8>)
    ensures Fold(Register(r), bytes) == Register(FoldRounds(r, bytes))
    decreases |bytes|
  {
    if |bytes| != 0 {
      ByteRoundsIs(r, bytes[0]);
      FoldRoundsIs(ByteRounds(r, bytes[0]), bytes[1..]);
    }
  }

  lemma ExpandCons(c: char, rest: string)
    ensures ExpandHeroName([c] + rest) == NormalizeHeroNameChar(c) + ExpandHeroName(rest)
  {
    assert ([c] + rest)[1..] == rest;
  }

  /** A name whose expansion is 4 name characters normalizes to that expansion. */
  lemma NormalizesToFour(name: string, a: char, b: char, c: char, d: char)
    requires ExpandHeroName(name) == [a, b, c, d]
    requires PackHeroNameChar(a).Some? && PackHeroNameChar(b).Some?
    requires PackHeroNameChar(c).Some? && PackHeroNameChar(d).Some?
    ensures NormalizeHeroName(name) == Ok([a, b, c, d])
  {
    assert [a, b, c, d] + Spaces(0) == [a, b, c, d];
  }

  lemma ExpandNameOfA()
    ensures ExpandHeroName("しどー") == ['し', 'と', '゛', '-']
  {
    assert NormalizeHeroNameChar('し') == ['し'];
    assert NormalizeHeroNameChar('ど') == ['と', '゛'];
    assert NormalizeHeroNameChar('ー') == ['-'];
    ExpandCons('ー', []);
    ExpandCons('ど', ['ー']);
    ExpandCons('し', ['ど', 'ー']);
    assert "しどー" == ['し', 'ど', 'ー'];
  }

  /** The name of the encode test, "しどー" (voiced shi, to, long dash), normalizes to "しと゛-". */
  lemma NormalizeNameOfA()
    ensures NormalizeHeroName("しどー") == Ok("しと゛-")
  {
    ExpandNameOfA();
    PackedOfA();
    NormalizesToFour("しどー", 'し', 'と', '゛', '-');
    assert "しと゛-" == ['し', 'と', '゛', '-'];
  }

  lemma ExpandVoicedName()
    ensures ExpandHeroName("がぱ") == ['か', '゛', 'は', '゜']
  {
    assert NormalizeHeroNameChar('が') == ['か', '゛'];
    assert NormalizeHeroNameChar('ぱ') == ['は', '゜'];
    ExpandCons('ぱ', []);
    ExpandCons('が', ['ぱ']);
    assert "がぱ" == ['が', 'ぱ'];
  }

  /** Voiced and semi-voiced kana split into a base kana and a spacing mark: "がぱ" becomes "か゛は゜". */
  lemma NormalizeVoicedName()
    ensures NormalizeHeroName("がぱ") == Ok("か゛は゜")
  {
    ExpandVoicedName();
    PackedFour('か', '゛', 'は', '゜');
    NormalizesToFour("がぱ", 'か', '゛', 'は', '゜');
    assert "か゛は゜" == ['か', '゛', 'は', '゜'];
  }

  /** The empty name pads to four spaces. */
  lemma NormalizeEmptyName()
    ensures NormalizeHeroName("") == Ok("    ")
  {
    assert ExpandHeroName("") == [];
    assert forall i :: 0 <= i < 4 ==> Spaces(4)[i] == ' ';
    assert [] + Spaces(4) == "    ";
  }

  /** Five spaces are one character too many. */
  lemma RejectLongName()
    ensures NormalizeHeroName("     ").Err?
  {
    assert NormalizeHeroNameChar(' ') == [' '];
    ExpandCons(' ', []);
    ExpandCons(' ', [' ']);
    ExpandCons(' ', [' ', ' ']);
    ExpandCons(' ', [' ', ' ', ' ']);
    ExpandCons(' ', [' ', ' ', ' ', ' ']);
    assert "     " == [' ', ' ', ' ', ' ', ' '];
  }

  /** A voiced kana in fourth place expands the name to five characters. */
  lemma RejectLongExpansion()
    ensures NormalizeHeroName("あああが").Err?
  {
    assert NormalizeHeroNameChar('あ') == ['あ'];
    assert NormalizeHeroNameChar('が') == ['か', '゛'];
    ExpandCons('が', []);
    ExpandCons('あ', ['が']);
    ExpandCons('あ', ['あ', 'が']);
    ExpandCons('あ', ['あ', 'あ', 'が']);
    assert "あああが" == ['あ', 'あ', 'あ', 'が'];
  }

  /** A Latin letter has no name code. */
  lemma RejectLatinName()
    ensures NormalizeHeroName("A").Err?
  {
    assert NormalizeHeroNameChar('A') == ['A'];
    ExpandCons('A', []);
    assert "A" == ['A'];
    assert PackHeroNameChar('A').None?;
  }

  lemma ExpandLongVowelName()
    ensures ExpandHeroName("がー　") == ['か', '゛', '-', ' ']
  {
    assert NormalizeHeroNameChar('が') == ['か', '゛'];
    assert NormalizeHeroNameChar('ー') == ['-'];
    assert NormalizeHeroNameChar('　') == [' '];
    ExpandCons('　', []);
    ExpandCons('ー', ['　']);
    ExpandCons('が', ['ー', '　']);
    assert "がー　" == ['が', 'ー', '　'];
  }

  lemma NormalizeLongVowelName()
    ensures NormalizeHeroName("がー　") == Ok("か゛- ")
  {
    ExpandLongVowelName();
    PackedFour('か', '゛', '-', ' ');
    NormalizesToFour("がー　", 'か', '゛', '-', ' ');
    assert "か゛- " == ['か', '゛', '-', ' '];
  }

  lemma NormalizeStateName(s: GameState, name: string)
    requires NormalizeHeroName(s.heroName) == Ok(name)
    ensures s.Normalize() == Ok(s.(heroName := name))
  {
  }

  /** Normalizing a state rewrites only its name: "がー　" becomes "か゛- ". */
  lemma NormalizeLongVowelState()
    ensures Default().(heroName := "がー　").Normalize() == Ok(Default().(heroName := "か゛- "))
  {
    NormalizeLongVowelName();
    NormalizeStateName(Default().(heroName := "がー　"), "か゛- ");
  }

  /** A state whose name is "A" does not normalize. */
  lemma RejectLatinState()
    ensures Default().(heroName := "A").Normalize().Err?
  {
    RejectLatinName();
  }

  /** Cum `j` (0 to 3) of a group of three bytes, after the cum `pre`. */
  function GroupCum(b0: bv8, b1: bv8, b2: bv8, pre: bv8, j: nat): (cum: bv8)
    requires j < 4
    ensures cum < 64
    decreases j
  {
    NextCum(if j == 0 then pre else GroupCum(b0, b1, b2, pre, j - 1), GroupSixes(b0, b1, b2)[j])
  }

  /** The four password characters of a group of three bytes, after the cum `pre`. */
  function GroupChars(b0: bv8, b1: bv8, b2: bv8, pre: bv8): string {
    [ CumToPasswordChar(GroupCum(b0, b1, b2, pre, 0)), CumToPasswordChar(GroupCum(b0, b1, b2, pre, 1)),
      CumToPasswordChar(GroupCum(b0, b1, b2, pre, 2)), CumToPasswordChar(GroupCum(b0, b1, b2, pre, 3)) ]
  }

  lemma GroupStep(bytes: seq<bv8>, g: nat)
    requires |bytes| == 15 && g < 5
    ensures |PasswordOf(bytes)| == 20
    ensures var pre := CumBefore(bytes, g);
      && CumBefore(bytes, g + 1) == GroupCum(bytes[3 * g], bytes[3 * g + 1], bytes[3 * g + 2], pre, 3)
      && PasswordOf(bytes)[..4 * g + 4]
        == PasswordOf(bytes)[..4 * g] + GroupChars(bytes[3 * g], bytes[3 * g + 1], bytes[3 * g + 2], pre)
  {
    var pre := CumBefore(bytes, g);
    var b0, b1, b2 := bytes[3 * g], bytes[3 * g + 1], bytes[3 * g + 2];
    ChunkStep(bytes, g, GroupCum(b0, b1, b2, pre, 0), GroupCum(b0, b1, b2, pre, 1),
      GroupCum(b0, b1, b2, pre, 2), GroupCum(b0, b1, b2, pre, 3));
  }

  /** The cum before group `g`, group by group. */
  function ChainCum(b: seq<bv8>, g: nat): (cum: bv8)
    requires |b| == 15 && g <= 5
    decreases g
  {
    if g == 0 then 0 else GroupCum(b[3 * (g - 1)], b[3 * (g - 1) + 1], b[3 * (g - 1) + 2], ChainCum(b, g - 1), 3)
  }

  /** The password characters of the first `g` groups. */
  function ChainChars(b: seq<bv8>, g: nat): string
    requires |b| == 15 && g <= 5
    decreases g
  {
    if g == 0 then [] else
      ChainChars(b, g - 1) + GroupChars(b[3 * (g - 1)], b[3 * (g - 1) + 1], b[3 * (g - 1) + 2], ChainCum(b, g - 1))
  }

  lemma {:induction false} ChainIs(b: seq<bv8>, g: nat)
    requires |b| == 15 && g <= 5
    ensures |PasswordOf(b)| == 20
    ensures CumBefore(b, g) == ChainCum(b, g) && PasswordOf(b)[..4 * g] == ChainChars(b, g)
    decreases g
  {
    PasswordOfValid(b);
    if g != 0 {
      ChainIs(b, g - 1);
      ChainStep(b, g - 1);
    }
  }

  lemma ChainStep(b: seq<bv8>, k: nat)
    requires |b| == 15 && k < 5 && |PasswordOf(b)| == 20
    requires CumBefore(b, k) == ChainCum(b, k) && PasswordOf(b)[..4 * k] == ChainChars(b, k)
    ensures CumBefore(b, k + 1) == ChainCum(b, k + 1) && PasswordOf(b)[..4 * (k + 1)] == ChainChars(b, k + 1)
  {
    GroupStep(b, k);
  }

  /** The password of 15 bytes is the characters of its five groups, chained through their last cums. */
  lemma PasswordOfGroups(b: seq<bv8>)
    requires |b| == 15
    ensures PasswordOf(b) == ChainChars(b, 5)
  {
    ChainIs(b, 5);
    assert PasswordOf(b)[..20] == PasswordOf(b);
  }

  lemma ChainLevel(b: seq<bv8>, g: nat, pre: bv8, b0: bv8, b1: bv8, b2: bv8)
    requires |b| == 15 && g < 5 && b[3 * g] == b0 && b[3 * g + 1] == b1 && b[3 * g + 2] == b2
    requires ChainCum(b, g) == pre
    ensures ChainCum(b, g + 1) == GroupCum(b0, b1, b2, pre, 3)
    ensures ChainChars(b, g + 1) == ChainChars(b, g) + GroupChars(b0, b1, b2, pre)
  {
  }

  /** A password that `encode` produced for a valid state decodes to that state, normalized. */
  lemma DecodeOfEncoded(s: GameState, p: string)
    requires s.Validate().Ok? && Encode(s) == Ok(p)
    ensures Decode(p) == s.Normalize()
  {
    DecodeEncode(s);
  }

  /**
   * The state of the encode test, with the name spelled "しどー"; the decode test expects
   * it back with the name normalized.
   */
  function StateA(): GameState {
    GameState("しどー", 1234, 5678, 5, 5, 2, 6, 6, [1, 2, 3, 4, 5, 6, 7, 8], true, true, true, true, true, 5)
  }

  lemma StateBytesFrom(s: GameState, packed: seq<bv8>, fields: seq<bv8>, crc: bv8)
    requires PackableName(s.heroName) && PackedName(s.heroName) == packed
    requires FieldBytes(s, packed) == fields && Low(Fold(Zero, fields)) == crc
    ensures StateBytes(s) == [crc] + fields
  {
  }

  lemma PackedFour(a: char, b: char, c: char, d: char)
    requires PackHeroNameChar(a).Some? && PackHeroNameChar(b).Some?
    requires PackHeroNameChar(c).Some? && PackHeroNameChar(d).Some?
    ensures PackableName([a, b, c, d])
    ensures PackedName([a, b, c, d])
      == [PackHeroNameChar(a).value, PackHeroNameChar(b).value, PackHeroNameChar(c).value, PackHeroNameChar(d).value]
  {
  }

  lemma PackedOfA()
    ensures PackableName("しと゛-") && PackedName("しと゛-") == [0x15, 0x1D, 0x3C, 0x3E]
  {
    assert PackHeroNameChar('し') == Some(0x15) && PackHeroNameChar('と') == Some(0x1D);
    assert PackHeroNameChar('゛') == Some(0x3C) && PackHeroNameChar('-') == Some(0x3E);
    PackedFour('し', 'と', '゛', '-');
    assert "しと゛-" == ['し', 'と', '゛', '-'];
  }

  lemma FieldsOfA()
    ensures FieldBytes(StateA().(heroName := "しと゛-"), [0x15, 0x1D, 0x3C, 0x3E]) == [210, 124, 67, 46, 87, 135, 254, 182, 22, 102, 101, 4, 187, 33]
  {
  }

  lemma CrcOfA()
    ensures Low(Fold(Zero, [210, 124, 67, 46, 87, 135, 254, 182, 22, 102, 101, 4, 187, 33])) == 173
  {
    FoldRoundsIs(0, [210, 124, 67, 46, 87, 135, 254, 182, 22, 102, 101, 4, 187, 33]);
  }

  /** The state normalizes to the name "しと゛-" and lays out as its CRC byte and 14 field bytes. */
  lemma StateBytesOfA()
    ensures StateA().Normalize() == Ok(StateA().(heroName := "しと゛-"))
    ensures StateBytes(StateA().(heroName := "しと゛-")) == [173] + [210, 124, 67, 46, 87, 135, 254, 182, 22, 102, 101, 4, 187, 33]
  {
    NormalizeNameOfA();
    PackedOfA();
    FieldsOfA();
    CrcOfA();
    StateBytesFrom(StateA().(heroName := "しと゛-"), [0x15, 0x1D, 0x3C, 0x3E], [210, 124, 67, 46, 87, 135, 254, 182, 22, 102, 101, 4, 187, 33], 173);
  }

  lemma PasswordOfAGroup0()
    ensures GroupChars(173, 210, 124, 0) == "ざぼちず"
    ensures GroupCum(173, 210, 124, 0, 3) == 51
  {
  }

  lemma PasswordOfAGroup1()
    ensures GroupChars(67, 46, 87, 51) == "どぢぎき"
    ensures GroupCum(67, 46, 87, 51, 3) == 6
  {
  }

  lemma PasswordOfAGroup2()
    ensures GroupChars(135, 254, 182, 6) == "つたうず"
    ensures GroupCum(135, 254, 182, 6, 3) == 51
  {
  }

  lemma PasswordOfAGroup3()
    ensures GroupChars(22, 102, 101, 51) == "せれえむ"
    ensures GroupCum(22, 102, 101, 51, 3) == 32
  {
  }

  lemma PasswordOfAGroup4()
    ensures GroupChars(4, 187, 33, 32) == "るのぢえ"
    ensures GroupCum(4, 187, 33, 32, 3) == 3
  {
  }

  lemma PasswordOfALevel0(b: seq<bv8>)
    requires b == [173] + [210, 124, 67, 46, 87, 135, 254, 182, 22, 102, 101, 4, 187, 33]
    requires ChainCum(b, 0) == 0
    ensures ChainCum(b, 1) == 51
    ensures ChainChars(b, 1) == ChainChars(b, 0) + "ざぼちず"
  {
    PasswordOfAGroup0();
    ChainLevel(b, 0, 0, 173, 210, 124);
  }

  lemma PasswordOfALevel1(b: seq<bv8>)
    requires b == [173] + [210, 124, 67, 46, 87, 135, 254, 182, 22, 102, 101, 4, 187, 33]
    requires ChainCum(b, 1) == 51
    ensures ChainCum(b, 2) == 6
    ensures ChainChars(b, 2) == ChainChars(b, 1) + "どぢぎき"
  {
    PasswordOfAGroup1();
    ChainLevel(b, 1, 51, 67, 46, 87);
  }

  lemma PasswordOfALevel2(b: seq<bv8>)
    requires b == [173] + [210, 124, 67, 46, 87, 135, 254, 182, 22, 102, 101, 4, 187, 33]
    requires ChainCum(b, 2) == 6
    ensures ChainCum(b, 3) == 51
    ensures ChainChars(b, 3) == ChainChars(b, 2) + "つたうず"
  {
    PasswordOfAGroup2();
    ChainLevel(b, 2, 6, 135, 254, 182);
  }

  lemma PasswordOfALevel3(b: seq<bv8>)
    requires b == [173] + [210, 124, 67, 46, 87, 135, 254, 182, 22, 102, 101, 4, 187, 33]
    requires ChainCum(b, 3) == 51
    ensures ChainCum(b, 4) == 32
    ensures ChainChars(b, 4) == ChainChars(b, 3) + "せれえむ"
  {
    PasswordOfAGroup3();
    ChainLevel(b, 3, 51, 22, 102, 101);
  }

  lemma PasswordOfALevel4(b: seq<bv8>)
    requires b == [173] + [210, 124, 67, 46, 87, 135, 254, 182, 22, 102, 101, 4, 187, 33]
    requires ChainCum(b, 4) == 32
    ensures ChainCum(b, 5) == 3
    ensures ChainChars(b, 5) == ChainChars(b, 4) + "るのぢえ"
  {
    PasswordOfAGroup4();
    ChainLevel(b, 4, 32, 4, 187, 33);
  }

  lemma PasswordOfAChain(b: seq<bv8>)
    requires b == [173] + [210, 124, 67, 46, 87, 135, 254, 182, 22, 102, 101, 4, 187, 33]
    ensures PasswordOf(b) == [] + "ざぼちず" + "どぢぎき" + "つたうず" + "せれえむ" + "るのぢえ"
  {
    PasswordOfGroups(b);
    assert ChainCum(b, 0) == 0 && ChainChars(b, 0) == [];
    PasswordOfALevel0(b);
    PasswordOfALevel1(b);
    PasswordOfALevel2(b);
    PasswordOfALevel3(b);
    PasswordOfALevel4(b);
  }

  lemma PasswordOfA()
    ensures PasswordOf([173] + [210, 124, 67, 46, 87, 135, 254, 182, 22, 102, 101, 4, 187, 33]) == "ざぼちずどぢぎきつたうずせれえむるのぢえ"
  {
    PasswordOfAChain([173] + [210, 124, 67, 46, 87, 135, 254, 182, 22, 102, 101, 4, 187, 33]);
    assert [] + "ざぼちず" + "どぢぎき" + "つたうず" + "せれえむ" + "るのぢえ" == "ざぼちずどぢぎきつたうずせれえむるのぢえ";
  }

  lemma ValidA()
    ensures StateA().Validate().Ok?
  {
    NormalizeNameOfA();
  }

  /** The encode test: the state encodes to the password "ざぼちずどぢぎきつたうずせれえむるのぢえ". */
  lemma EncodeA()
    ensures Encode(StateA()) == Ok("ざぼちずどぢぎきつたうずせれえむるのぢえ")
  {
    StateBytesOfA();
    PasswordOfA();
  }

  /** The decode test: that password decodes to the state with its name normalized. */
  lemma DecodeA()
    ensures Decode("ざぼちずどぢぎきつたうずせれえむるのぢえ") == Ok(GameState("しと゛-", 1234, 5678, 5, 5, 2, 6, 6, [1, 2, 3, 4, 5, 6, 7, 8], true, true, true, true, true, 5))
  {
    EncodeA();
    ValidA();
    StateBytesOfA();
    DecodeOfEncoded(StateA(), "ざぼちずどぢぎきつたうずせれえむるのぢえ");
  }

  lemma PackedOfDefault()
    ensures PackableName("    ") && PackedName("    ") == [0x3F, 0x3F, 0x3F, 0x3F]
  {
    assert PackHeroNameChar(' ') == Some(0x3F);
    PackedFour(' ', ' ', ' ', ' ');
    assert "    " == [' ', ' ', ' ', ' '];
  }

  lemma FieldsOfDefault()
    ensures FieldBytes(Default().(heroName := "    "), [0x3F, 0x3F, 0x3F, 0x3F]) == [0, 63, 0, 0, 252, 0, 63, 0, 0, 0, 0, 0, 126, 0]
  {
  }

  lemma CrcOfDefault()
    ensures Low(Fold(Zero, [0, 63, 0, 0, 252, 0, 63, 0, 0, 0, 0, 0, 126, 0])) == 13
  {
    FoldRoundsIs(0, [0, 63, 0, 0, 252, 0, 63, 0, 0, 0, 0, 0, 126, 0]);
  }

  /** The default state: its empty name pads to four spaces, code 0x3F each. */
  lemma StateBytesOfDefault()
    ensures Default().Normalize() == Ok(Default().(heroName := "    "))
    ensures StateBytes(Default().(heroName := "    ")) == [13] + [0, 63, 0, 0, 252, 0, 63, 0, 0, 0, 0, 0, 126, 0]
  {
    DefaultNormalize();
    PackedOfDefault();
    FieldsOfDefault();
    CrcOfDefault();
    StateBytesFrom(Default().(heroName := "    "), [0x3F, 0x3F, 0x3F, 0x3F], [0, 63, 0, 0, 252, 0, 63, 0, 0, 0, 0, 0, 126, 0], 13);
  }

  lemma PasswordOfDefaultGroup0()
    ensures GroupChars(13, 0, 63, 0) == "つにこへ"
    ensures GroupCum(13, 0, 63, 0, 3) == 28
  {
  }

  lemma PasswordOfDefaultGroup1()
    ensures GroupChars(0, 0, 252, 28) == "むゆるわ"
    ensures GroupCum(0, 0, 252, 28, 3) == 43
  {
  }

  lemma PasswordOfDefaultGroup2()
    ensures GroupChars(0, 63, 0, 43) == "げげだど"
    ensures GroupCum(0, 63, 0, 43, 3) == 58
  {
  }

  lemma PasswordOfDefaultGroup3()
    ensures GroupChars(0, 0, 0, 58) == "べうきさ"
    ensures GroupCum(0, 0, 0, 58, 3) == 10
  {
  }

  lemma PasswordOfDefaultGroup4()
    ensures GroupChars(0, 126, 0, 10) == "そさには"
    ensures GroupCum(0, 126, 0, 10, 3) == 25
  {
  }

  lemma PasswordOfDefaultLevel0(b: seq<bv8>)
    requires b == [13] + [0, 63, 0, 0, 252, 0, 63, 0, 0, 0, 0, 0, 126, 0]
    requires ChainCum(b, 0) == 0
    ensures ChainCum(b, 1) == 28
    ensures ChainChars(b, 1) == ChainChars(b, 0) + "つにこへ"
  {
    PasswordOfDefaultGroup0();
    ChainLevel(b, 0, 0, 13, 0, 63);
  }

  lemma PasswordOfDefaultLevel1(b: seq<bv8>)
    requires b == [13] + [0, 63, 0, 0, 252, 0, 63, 0, 0, 0, 0, 0, 126, 0]
    requires ChainCum(b, 1) == 28
    ensures ChainCum(b, 2) == 43
    ensures ChainChars(b, 2) == ChainChars(b, 1) + "むゆるわ"
  {
    PasswordOfDefaultGroup1();
    ChainLevel(b, 1, 28, 0, 0, 252);
  }

  lemma PasswordOfDefaultLevel2(b: seq<bv8>)
    requires b == [13] + [0, 63, 0, 0, 252, 0, 63, 0, 0, 0, 0, 0, 126, 0]
    requires ChainCum(b, 2) == 43
    ensures ChainCum(b, 3) == 58
    ensures ChainChars(b, 3) == ChainChars(b, 2) + "げげだど"
  {
    PasswordOfDefaultGroup2();
    ChainLevel(b, 2, 43, 0, 63, 0);
  }

  lemma PasswordOfDefaultLevel3(b: seq<bv8>)
    requires b == [13] + [0, 63, 0, 0, 252, 0, 63, 0, 0, 0, 0, 0, 126, 0]
    requires ChainCum(b, 3) == 58
    ensures ChainCum(b, 4) == 10
    ensures ChainChars(b, 4) == ChainChars(b, 3) + "べうきさ"
  {
    PasswordOfDefaultGroup3();
    ChainLevel(b, 3, 58, 0, 0, 0);
  }

  lemma PasswordOfDefaultLevel4(b: seq<bv8>)
    requires b == [13] + [0, 63, 0, 0, 252, 0, 63, 0, 0, 0, 0, 0, 126, 0]
    requires ChainCum(b, 4) == 10
    ensures ChainCum(b, 5) == 25
    ensures ChainChars(b, 5) == ChainChars(b, 4) + "そさには"
  {
    PasswordOfDefaultGroup4();
    ChainLevel(b, 4, 10, 0, 126, 0);
  }

  lemma PasswordOfDefaultChain(b: seq<bv8>)
    requires b == [13] + [0, 63, 0, 0, 252, 0, 63, 0, 0, 0, 0, 0, 126, 0]
    ensures PasswordOf(b) == [] + "つにこへ" + "むゆるわ" + "げげだど" + "べうきさ" + "そさには"
  {
    PasswordOfGroups(b);
    assert ChainCum(b, 0) == 0 && ChainChars(b, 0) == [];
    PasswordOfDefaultLevel0(b);
    PasswordOfDefaultLevel1(b);
    PasswordOfDefaultLevel2(b);
    PasswordOfDefaultLevel3(b);
    PasswordOfDefaultLevel4(b);
  }

  lemma PasswordOfDefault()
    ensures PasswordOf([13] + [0, 63, 0, 0, 252, 0, 63, 0, 0, 0, 0, 0, 126, 0]) == "つにこへむゆるわげげだどべうきさそさには"
  {
    PasswordOfDefaultChain([13] + [0, 63, 0, 0, 252, 0, 63, 0, 0, 0, 0, 0, 126, 0]);
    assert [] + "つにこへ" + "むゆるわ" + "げげだど" + "べうきさ" + "そさには" == "つにこへむゆるわげげだどべうきさそさには";
  }

  /** The encode test: the default state encodes to "つにこへむゆるわげげだどべうきさそさには". */
  lemma EncodeDefault()
    ensures Encode(Default()) == Ok("つにこへむゆるわげげだどべうきさそさには")
  {
    StateBytesOfDefault();
    PasswordOfDefault();
  }

  /** The decode test: that password decodes to the normalized default state. */
  lemma DecodeDefault()
    ensures Decode("つにこへむゆるわげげだどべうきさそさには") == Default().Normalize()
  {
    EncodeDefault();
    DefaultNormalize();
    DecodeEncode(Default());
  }

  /** Bytes that pass the CRC check but carry an out-of-range tool are rejected as an invalid state. */
  lemma DecodeRejectsTool(b: seq<bv8>)
    requires |b| == 15 && Low(Fold(Zero, b[1..])) == b[0]
    requires ValidateInventory(BytesToState(b).inventory).Err?
    ensures Decode(PasswordOf(b)) == Err(InvalidGameState)
  {
    var p := PasswordOf(b);
    BytesOfPasswordOf(b);
    NormalizedPasswordFixed(p);
    assert CheckBytesCrc(BytesOfPassword(p)) == Ok(());
  }

  lemma CrcOfToolFifteen()
    ensures Low(Fold(Zero, [210, 124, 67, 46, 87, 247, 254, 182, 22, 102, 101, 4, 187, 33])) == 118
  {
    FoldRoundsIs(0, [210, 124, 67, 46, 87, 247, 254, 182, 22, 102, 101, 4, 187, 33]);
  }

  lemma PasswordOfToolFifteenGroup0()
    ensures GroupChars(118, 210, 124, 0) == "どくのば"
    ensures GroupCum(118, 210, 124, 0, 3) == 59
  {
  }

  lemma PasswordOfToolFifteenGroup1()
    ensures GroupChars(67, 46, 87, 59) == "うぼぞそ"
    ensures GroupCum(67, 46, 87, 59, 3) == 14
  {
  }

  lemma PasswordOfToolFifteenGroup2()
    ensures GroupChars(247, 254, 182, 14) == "こけばが"
    ensures GroupCum(247, 254, 182, 14, 3) == 44
  {
  }

  lemma PasswordOfToolFifteenGroup3()
    ensures GroupChars(22, 102, 101, 44) == "きもびは"
    ensures GroupCum(22, 102, 101, 44, 3) == 25
  {
  }

  lemma PasswordOfToolFifteenGroup4()
    ensures GroupChars(4, 187, 33, 25) == "めつごび"
    ensures GroupCum(4, 187, 33, 25, 3) == 60
  {
  }

  lemma PasswordOfToolFifteenLevel0(b: seq<bv8>)
    requires b == [118] + [210, 124, 67, 46, 87, 247, 254, 182, 22, 102, 101, 4, 187, 33]
    requires ChainCum(b, 0) == 0
    ensures ChainCum(b, 1) == 59
    ensures ChainChars(b, 1) == ChainChars(b, 0) + "どくのば"
  {
    PasswordOfToolFifteenGroup0();
    ChainLevel(b, 0, 0, 118, 210, 124);
  }

  lemma PasswordOfToolFifteenLevel1(b: seq<bv8>)
    requires b == [118] + [210, 124, 67, 46, 87, 247, 254, 182, 22, 102, 101, 4, 187, 33]
    requires ChainCum(b, 1) == 59
    ensures ChainCum(b, 2) == 14
    ensures ChainChars(b, 2) == ChainChars(b, 1) + "うぼぞそ"
  {
    PasswordOfToolFifteenGroup1();
    ChainLevel(b, 1, 59, 67, 46, 87);
  }

  lemma PasswordOfToolFifteenLevel2(b: seq<bv8>)
    requires b == [118] + [210, 124, 67, 46, 87, 247, 254, 182, 22, 102, 101, 4, 187, 33]
    requires ChainCum(b, 2) == 14
    ensures ChainCum(b, 3) == 44
    ensures ChainChars(b, 3) == ChainChars(b, 2) + "こけばが"
  {
    PasswordOfToolFifteenGroup2();
    ChainLevel(b, 2, 14, 247, 254, 182);
  }

  lemma PasswordOfToolFifteenLevel3(b: seq<bv8>)
    requires b == [118] + [210, 124, 67, 46, 87, 247, 254, 182, 22, 102, 101, 4, 187, 33]
    requires ChainCum(b, 3) == 44
    ensures ChainCum(b, 4) == 25
    ensures ChainChars(b, 4) == ChainChars(b, 3) + "きもびは"
  {
    PasswordOfToolFifteenGroup3();
    ChainLevel(b, 3, 44, 22, 102, 101);
  }

  lemma PasswordOfToolFifteenLevel4(b: seq<bv8>)
    requires b == [118] + [210, 124, 67, 46, 87, 247, 254, 182, 22, 102, 101, 4, 187, 33]
    requires ChainCum(b, 4) == 25
    ensures ChainCum(b, 5) == 60
    ensures ChainChars(b, 5) == ChainChars(b, 4) + "めつごび"
  {
    PasswordOfToolFifteenGroup4();
    ChainLevel(b, 4, 25, 4, 187, 33);
  }

  lemma PasswordOfToolFifteenChain(b: seq<bv8>)
    requires b == [118] + [210, 124, 67, 46, 87, 247, 254, 182, 22, 102, 101, 4, 187, 33]
    ensures PasswordOf(b) == [] + "どくのば" + "うぼぞそ" + "こけばが" + "きもびは" + "めつごび"
  {
    PasswordOfGroups(b);
    assert ChainCum(b, 0) == 0 && ChainChars(b, 0) == [];
    PasswordOfToolFifteenLevel0(b);
    PasswordOfToolFifteenLevel1(b);
    PasswordOfToolFifteenLevel2(b);
    PasswordOfToolFifteenLevel3(b);
    PasswordOfToolFifteenLevel4(b);
  }

  lemma PasswordOfToolFifteen()
    ensures PasswordOf([118] + [210, 124, 67, 46, 87, 247, 254, 182, 22, 102, 101, 4, 187, 33]) == "どくのばうぼぞそこけばがきもびはめつごび"
  {
    PasswordOfToolFifteenChain([118] + [210, 124, 67, 46, 87, 247, 254, 182, 22, 102, 101, 4, 187, 33]);
    assert [] + "どくのば" + "うぼぞそ" + "こけばが" + "きもびは" + "めつごび" == "どくのばうぼぞそこけばがきもびはめつごび";
  }

  /**
   * The decode test: the password of the decode test's state with its eighth tool set
   * to 15 passes the CRC check and is rejected as an invalid state.
   */
  lemma DecodeToolFifteen()
    ensures Decode("どくのばうぼぞそこけばがきもびはめつごび") == Err(InvalidGameState)
  {
    var b := [118] + [210, 124, 67, 46, 87, 247, 254, 182, 22, 102, 101, 4, 187, 33];
    CrcOfToolFifteen();
    PasswordOfToolFifteen();
    assert b[1..] == [210, 124, 67, 46, 87, 247, 254, 182, 22, 102, 101, 4, 187, 33];
    assert BytesToState(b).inventory[7] == 15;
    DecodeRejectsTool(b);
  }

  /** A password that differs from a decodable one only in its last character, by another password character. */
  lemma ReplaceLast(p: string, q: string)
    requires |p| == 20 && AllPasswordChars(p) && Decode(p).Ok?
    requires |q| == 20 && q[..19] == p[..19] && PasswordCharToCum(q[19]).Some? && q[19] != p[19]
    ensures Decode(q).Err? && Decode(q).error.CrcMismatch?
  {
    SplitLast(q);
    LastCharMismatch(p, q[19]);
  }

  lemma SplitLast(s: string)
    requires |s| > 0
    ensures s == s[..|s| - 1] + [s[|s| - 1]]
  {
  }

  lemma SnocPrefix(a: string, x: char, y: char)
    ensures |a + [x]| == |a| + 1 && (a + [x])[..|a|] == (a + [y])[..|a|] && (a + [y])[|a|] == y
  {
    assert (a + [x])[..|a|] == a;
    assert (a + [y])[..|a|] == a;
  }

  lemma PasswordADecodes(p: string)
    requires p == "ざぼちずどぢぎきつたうずせれえむるのぢえ"
    ensures |p| == 20 && AllPasswordChars(p) && Decode(p).Ok?
  {
    EncodeA();
    DecodeA();
  }

  lemma SplitLastA(p: string, q: string)
    requires p == "ざぼちずどぢぎきつたうずせれえむるのぢえ"
    requires q == "ざぼちずどぢぎきつたうずせれえむるのぢお"
    ensures p == "ざぼちずどぢぎきつたうずせれえむるのぢ" + ['え']
    ensures q == "ざぼちずどぢぎきつたうずせれえむるのぢ" + ['お']
  {
  }

  /** The decode test's last case: password A with its last character changed fails the CRC check. */
  lemma DecodeLastCharChanged(p: string, q: string)
    requires p == "ざぼちずどぢぎきつたうずせれえむるのぢえ"
    requires q == "ざぼちずどぢぎきつたうずせれえむるのぢお"
    ensures Decode(q).Err? && Decode(q).error.CrcMismatch?
  {
    PasswordADecodes(p);
    SplitLastA(p, q);
    SnocPrefix("ざぼちずどぢぎきつたうずせれえむるのぢ", 'え', 'お');
    assert PasswordCharToCum('お').Some?;
    ReplaceLast(p, q);
  }
}
