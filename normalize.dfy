/**
 * Normalization of the three kinds of user text: hero names, passwords and
 * generator patterns.  Each one expands every character to zero or more characters
 * (a flat map), keeps one character more than the accepted length, and then checks
 * the length and the alphabet.
 */
module Normalize {
  import opened Errors
  import opened Alphabet
  import opened Codec

  /** `char::is_whitespace`: the code points with the Unicode White_Space property. */
  predicate IsWhitespace(c: char) {
    var n := c as int;
    (0x09 <= n <= 0x0D) || n == 0x20 || n == 0x85 || n == 0xA0 || n == 0x1680
    || (0x2000 <= n <= 0x200A) || n == 0x2028 || n == 0x2029 || n == 0x202F
    || n == 0x205F || n == 0x3000
  }

  /** The first `n` characters of `s` (all of them when there are fewer), as `take(n)`. */
  function Take(s: string, n: nat): string {
    if |s| <= n then s else s[..n]
  }

  predicate NoWhitespace(s: string) {
    forall i :: 0 <= i < |s| ==> !IsWhitespace(s[i])
  }

  // ---------------------------------------------------------------------------
  // Hero names.

  /** Every character is one of the hero-name alphabet. */
  predicate AllNameChars(s: string) {
    forall i :: 0 <= i < |s| ==> PackHeroNameChar(s[i]).Some?
  }

  /**
   * `normalize_hero_name_char`: full-width digits become ASCII digits, voiced and
   * semi-voiced kana split into the base kana and a separate mark, the combining
   * marks become the spacing marks, dash-like characters become '-', and the
   * ideographic space becomes ' '.  Every other character is kept.
   */
  function NormalizeHeroNameChar(c: char): (cs: string)
    ensures 1 <= |cs| <= 2
  {
    match c
    case '０' => ['0']
    case '１' => ['1']
    case '２' => ['2']
    case '３' => ['3']
    case '４' => ['4']
    case '５' => ['5']
    case '６' => ['6']
    case '７' => ['7']
    case '８' => ['8']
    case '９' => ['9']
    case 'が' => ['か', '゛']
    case 'ぎ' => ['き', '゛']
    case 'ぐ' => ['く', '゛']
    case 'げ' => ['け', '゛']
    case 'ご' => ['こ', '゛']
    case 'ざ' => ['さ', '゛']
    case 'じ' => ['し', '゛']
    case 'ず' => ['す', '゛']
    case 'ぜ' => ['せ', '゛']
    case 'ぞ' => ['そ', '゛']
    case 'だ' => ['た', '゛']
    case 'ぢ' => ['ち', '゛']
    case 'づ' => ['つ', '゛']
    case 'で' => ['て', '゛']
    case 'ど' => ['と', '゛']
    case 'ば' => ['は', '゛']
    case 'び' => ['ひ', '゛']
    case 'ぶ' => ['ふ', '゛']
    case 'べ' => ['へ', '゛']
    case 'ぼ' => ['ほ', '゛']
    case 'ぱ' => ['は', '゜']
    case 'ぴ' => ['ひ', '゜']
    case 'ぷ' => ['ふ', '゜']
    case 'ぺ' => ['へ', '゜']
    case 'ぽ' => ['ほ', '゜']
    case '\U{3094}' => ['う', '゛'] // う with dakuten
    case '\U{3099}' => ['゛'] // combining dakuten
    case '\U{309A}' => ['゜'] // combining handakuten
    case '\U{2010}' => ['-'] // hyphen
    case '\U{2011}' => ['-'] // non-breaking hyphen
    case '\U{2012}' => ['-'] // figure dash
    case '\U{2013}' => ['-'] // en dash
    case '\U{2014}' => ['-'] // em dash
    case '\U{2015}' => ['-'] // horizontal bar
    case '\U{2212}' => ['-'] // minus sign
    case '\U{30FC}' => ['-'] // full-width prolonged sound mark
    case '\U{FF70}' => ['-'] // half-width prolonged sound mark
    case '\U{3000}' => [' '] // ideographic space
    case _ => [c]

  }

  /** Every character the table produces is a name character. */
  lemma NameTableTargets(c: char)
    ensures NormalizeHeroNameChar(c) == [c] || AllNameChars(NormalizeHeroNameChar(c))
  {
    match c
    case '\U{FF10}' =>
    case '\U{FF11}' =>
    case '\U{FF12}' =>
    case '\U{FF13}' =>
    case '\U{FF14}' =>
    case '\U{FF15}' =>
    case '\U{FF16}' =>
    case '\U{FF17}' =>
    case '\U{FF18}' =>
    case '\U{FF19}' =>
    case '\U{304C}' =>
    case '\U{304E}' =>
    case '\U{3050}' =>
    case '\U{3052}' =>
    case '\U{3054}' =>
    case '\U{3056}' =>
    case '\U{3058}' =>
    case '\U{305A}' =>
    case '\U{305C}' =>
    case '\U{305E}' =>
    case '\U{3060}' =>
    case '\U{3062}' =>
    case '\U{3065}' =>
    case '\U{3067}' =>
    case '\U{3069}' =>
    case '\U{3070}' =>
    case '\U{3073}' =>
    case '\U{3076}' =>
    case '\U{3079}' =>
    case '\U{307C}' =>
    case '\U{3071}' =>
    case '\U{3074}' =>
    case '\U{3077}' =>
    case '\U{307A}' =>
    case '\U{307D}' =>
    case '\U{3094}' =>
    case '\U{3099}' =>
    case '\U{309A}' =>
    case '\U{2010}' =>
    case '\U{2011}' =>
    case '\U{2012}' =>
    case '\U{2013}' =>
    case '\U{2014}' =>
    case '\U{2015}' =>
    case '\U{2212}' =>
    case '\U{30FC}' =>
    case '\U{FF70}' =>
    case '\U{3000}' =>
    case _ =>
  }

  /** The flat map of `NormalizeHeroNameChar` over a name. */
  function ExpandHeroName(name: string): string
    decreases |name|
  {
    if |name| == 0 then [] else NormalizeHeroNameChar(name[0]) + ExpandHeroName(name[1..])
  }

  /** `count` ASCII spaces. */
  function Spaces(count: nat): (s: string)
    ensures |s| == count
  {
    seq(count, _ => ' ')
  }

  /**
   * `normalize_hero_name`: the expanded name must have at most 4 characters, all from
   * the name alphabet; it is then padded with spaces to exactly 4.
   */
  function NormalizeHeroName(name: string): (r: Result<string>)
    ensures r.Ok? <==> |ExpandHeroName(name)| <= 4 && AllNameChars(ExpandHeroName(name))
    ensures r.Err? ==> r.error == InvalidGameState
    ensures r.Ok? ==> |r.value| == 4 && AllNameChars(r.value)
    ensures r.Ok? ==> r.value == ExpandHeroName(name) + Spaces(4 - |ExpandHeroName(name)|)
  {
    var cs := Take(ExpandHeroName(name), 4 + 1);
    if |cs| > 4 then
      Err(InvalidGameState)
    else if exists i :: 0 <= i < |cs| && PackHeroNameChar(cs[i]).None? then
      Err(InvalidGameState)
    else
      assert PackHeroNameChar(' ').Some?;
      Ok(cs + Spaces(4 - |cs|))
  }

  /** The characters of the name alphabet are not rewritten. */
  lemma NameCharFixed(c: char)
    requires PackHeroNameChar(c).Some?
    ensures NormalizeHeroNameChar(c) == [c]
  {
    RewrittenCodes(c);
    NameCodes(c);
  }

  /** The code points of the characters the name table rewrites. */
  predicate IsRewrittenCode(n: int) {
    n == 0xFF10 || n == 0xFF11 || n == 0xFF12 || n == 0xFF13 || n == 0xFF14 || n == 0xFF15 || n == 0xFF16 || n == 0xFF17 || n == 0xFF18 || n == 0xFF19 || n == 0x304C || n == 0x304E || n == 0x3050 || n == 0x3052 || n == 0x3054 || n == 0x3056 || n == 0x3058 || n == 0x305A || n == 0x305C || n == 0x305E || n == 0x3060 || n == 0x3062 || n == 0x3065 || n == 0x3067 || n == 0x3069 || n == 0x3070 || n == 0x3073 || n == 0x3076 || n == 0x3079 || n == 0x307C || n == 0x3071 || n == 0x3074 || n == 0x3077 || n == 0x307A || n == 0x307D || n == 0x3094 || n == 0x3099 || n == 0x309A || n == 0x2010 || n == 0x2011 || n == 0x2012 || n == 0x2013 || n == 0x2014 || n == 0x2015 || n == 0x2212 || n == 0x30FC || n == 0xFF70 || n == 0x3000
  }

  /** The code points of the name alphabet. */
  predicate IsNameCode(n: int) {
    n == 0x0030 || n == 0x0031 || n == 0x0032 || n == 0x0033 || n == 0x0034 || n == 0x0035 || n == 0x0036 || n == 0x0037 || n == 0x0038 || n == 0x0039 || n == 0x3042 || n == 0x3044 || n == 0x3046 || n == 0x3048 || n == 0x304A || n == 0x304B || n == 0x304D || n == 0x304F || n == 0x3051 || n == 0x3053 || n == 0x3055 || n == 0x3057 || n == 0x3059 || n == 0x305B || n == 0x305D || n == 0x305F || n == 0x3061 || n == 0x3064 || n == 0x3066 || n == 0x3068 || n == 0x306A || n == 0x306B || n == 0x306C || n == 0x306D || n == 0x306E || n == 0x306F || n == 0x3072 || n == 0x3075 || n == 0x3078 || n == 0x307B || n == 0x307E || n == 0x307F || n == 0x3080 || n == 0x3081 || n == 0x3082 || n == 0x3084 || n == 0x3086 || n == 0x3088 || n == 0x3089 || n == 0x308A || n == 0x308B || n == 0x308C || n == 0x308D || n == 0x308F || n == 0x3092 || n == 0x3093 || n == 0x3063 || n == 0x3083 || n == 0x3085 || n == 0x3087 || n == 0x309B || n == 0x309C || n == 0x002D || n == 0x0020
  }

  lemma RewrittenCodes(c: char)
    ensures NormalizeHeroNameChar(c) != [c] ==> IsRewrittenCode(c as int)
  {
    match c
    case '\U{FF10}' =>
    case '\U{FF11}' =>
    case '\U{FF12}' =>
    case '\U{FF13}' =>
    case '\U{FF14}' =>
    case '\U{FF15}' =>
    case '\U{FF16}' =>
    case '\U{FF17}' =>
    case '\U{FF18}' =>
    case '\U{FF19}' =>
    case '\U{304C}' =>
    case '\U{304E}' =>
    case '\U{3050}' =>
    case '\U{3052}' =>
    case '\U{3054}' =>
    case '\U{3056}' =>
    case '\U{3058}' =>
    case '\U{305A}' =>
    case '\U{305C}' =>
    case '\U{305E}' =>
    case '\U{3060}' =>
    case '\U{3062}' =>
    case '\U{3065}' =>
    case '\U{3067}' =>
    case '\U{3069}' =>
    case '\U{3070}' =>
    case '\U{3073}' =>
    case '\U{3076}' =>
    case '\U{3079}' =>
    case '\U{307C}' =>
    case '\U{3071}' =>
    case '\U{3074}' =>
    case '\U{3077}' =>
    case '\U{307A}' =>
    case '\U{307D}' =>
    case '\U{3094}' =>
    case '\U{3099}' =>
    case '\U{309A}' =>
    case '\U{2010}' =>
    case '\U{2011}' =>
    case '\U{2012}' =>
    case '\U{2013}' =>
    case '\U{2014}' =>
    case '\U{2015}' =>
    case '\U{2212}' =>
    case '\U{30FC}' =>
    case '\U{FF70}' =>
    case '\U{3000}' =>
    case _ =>
  }

  lemma NameCodes(c: char)
    ensures PackHeroNameChar(c).Some? ==> IsNameCode(c as int)
  {
    match c
    case '0' =>
    case '1' =>
    case '2' =>
    case '3' =>
    case '4' =>
    case '5' =>
    case '6' =>
    case '7' =>
    case '8' =>
    case '9' =>
    case 'あ' =>
    case 'い' =>
    case 'う' =>
    case 'え' =>
    case 'お' =>
    case 'か' =>
    case 'き' =>
    case 'く' =>
    case 'け' =>
    case 'こ' =>
    case 'さ' =>
    case 'し' =>
    case 'す' =>
    case 'せ' =>
    case 'そ' =>
    case 'た' =>
    case 'ち' =>
    case 'つ' =>
    case 'て' =>
    case 'と' =>
    case 'な' =>
    case 'に' =>
    case 'ぬ' =>
    case 'ね' =>
    case 'の' =>
    case 'は' =>
    case 'ひ' =>
    case 'ふ' =>
    case 'へ' =>
    case 'ほ' =>
    case 'ま' =>
    case 'み' =>
    case 'む' =>
    case 'め' =>
    case 'も' =>
    case 'や' =>
    case 'ゆ' =>
    case 'よ' =>
    case 'ら' =>
    case 'り' =>
    case 'る' =>
    case 'れ' =>
    case 'ろ' =>
    case 'わ' =>
    case 'を' =>
    case 'ん' =>
    case 'っ' =>
    case 'ゃ' =>
    case 'ゅ' =>
    case 'ょ' =>
    case '゛' =>
    case '゜' =>
    case '-' =>
    case ' ' =>
    case _ =>
  }

  lemma {:induction false} ExpandNameFixed(s: string)
    requires AllNameChars(s)
    ensures ExpandHeroName(s) == s
    decreases |s|
  {
    if |s| != 0 {
      NameCharFixed(s[0]);
      ExpandNameFixed(s[1..]);
      assert s == [s[0]] + s[1..];
    }
  }

  /** A normalized name is returned unchanged. */
  lemma NormalizedNameFixed(n: string)
    requires |n| == 4 && AllNameChars(n)
    ensures NormalizeHeroName(n) == Ok(n)
  {
    ExpandNameFixed(n);
    assert n + Spaces(0) == n;
  }

  /** Normalizing a name twice gives the same result as normalizing it once. */
  lemma NormalizeHeroNameIdempotent(name: string)
    requires NormalizeHeroName(name).Ok?
    ensures NormalizeHeroName(NormalizeHeroName(name).value) == NormalizeHeroName(name)
  {
    NormalizedNameFixed(NormalizeHeroName(name).value);
  }

  // ---------------------------------------------------------------------------
  // Passwords.

  /** `normalize_password_char`: whitespace is dropped, every other character kept. */
  function NormalizePasswordChar(c: char): string {
    if IsWhitespace(c) then [] else [c]
  }

  function ExpandPassword(password: string): string
    decreases |password|
  {
    if |password| == 0 then [] else NormalizePasswordChar(password[0]) + ExpandPassword(password[1..])
  }

  /**
   * `normalize_password`: after the whitespace is dropped, exactly 20 characters must
   * remain, all from the password alphabet.
   */
  function NormalizePassword(password: string): (r: Result<string>)
    ensures r.Ok? <==> |ExpandPassword(password)| == 20 && AllPasswordChars(ExpandPassword(password))
    ensures r.Ok? ==> r.value == ExpandPassword(password)
    ensures r.Err? ==> r.error == InvalidPassword
  {
    var cs := Take(ExpandPassword(password), 20 + 1);
    if |cs| != 20 then
      Err(InvalidPassword)
    else if exists i :: 0 <= i < |cs| && PasswordCharToCum(cs[i]).None? then
      Err(InvalidPassword)
    else
      Ok(cs)
  }

  /** Dropping whitespace keeps the order of the other characters: it distributes over `+`. */
  lemma {:induction false} ExpandPasswordAppend(a: string, b: string)
    ensures ExpandPassword(a + b) == ExpandPassword(a) + ExpandPassword(b)
    decreases |a|
  {
    if |a| == 0 {
      assert a + b == b;
    } else {
      assert (a + b)[1..] == a[1..] + b;
      ExpandPasswordAppend(a[1..], b);
    }
  }

  /** The expansion holds no whitespace, and a text without whitespace is its own expansion. */
  lemma {:induction false} ExpandPasswordStrips(s: string)
    ensures NoWhitespace(ExpandPassword(s))
    ensures NoWhitespace(s) ==> ExpandPassword(s) == s
    decreases |s|
  {
    if |s| != 0 {
      ExpandPasswordStrips(s[1..]);
      assert s == [s[0]] + s[1..];
    }
  }

  /** The password characters are hiragana, none of them whitespace. */
  lemma PasswordCharNotWhitespace(c: char)
    requires PasswordCharToCum(c).Some?
    ensures !IsWhitespace(c)
  {
    PasswordCharToCumInverse(c);
    CumCharHiragana(PasswordCharToCum(c).value);
  }

  lemma CumCharHiragana(cum: bv8)
    requires cum < 64
    ensures 0x3041 <= CumToPasswordChar(cum) as int <= 0x3094
  {}

  /** A normalized password is returned unchanged. */
  lemma NormalizedPasswordFixed(p: string)
    requires |p| == 20 && AllPasswordChars(p)
    ensures NormalizePassword(p) == Ok(p)
  {
    forall i | 0 <= i < |p|
      ensures !IsWhitespace(p[i])
    {
      PasswordCharNotWhitespace(p[i]);
    }
    ExpandPasswordStrips(p);
  }

  lemma NormalizePasswordIdempotent(password: string)
    requires NormalizePassword(password).Ok?
    ensures NormalizePassword(NormalizePassword(password).value) == NormalizePassword(password)
  {
    NormalizedPasswordFixed(NormalizePassword(password).value);
  }

  // ---------------------------------------------------------------------------
  // Patterns.

  /** The wildcard of a pattern. */
  const Wildcard: char := '?'

  /** A pattern character: a password character or the wildcard. */
  predicate IsPatternChar(c: char) {
    PasswordCharToCum(c).Some? || c == Wildcard
  }

  predicate AllPatternChars(s: string) {
    forall i :: 0 <= i < |s| ==> IsPatternChar(s[i])
  }

  /** `normalize_pattern_char`: the full-width '？' becomes '?', whitespace is dropped. */
  function NormalizePatternChar(c: char): string {
    if c == '\U{FF1F}' then [Wildcard] else if IsWhitespace(c) then [] else [c]
  }

  function ExpandPattern(pattern: string): string
    decreases |pattern|
  {
    if |pattern| == 0 then [] else NormalizePatternChar(pattern[0]) + ExpandPattern(pattern[1..])
  }

  /**
   * `normalize_pattern`: after expansion exactly 20 characters must remain, each a
   * password character or '?'.  A wrong length is `InvalidPattern`; a bad character,
   * as the code has it, is `InvalidPassword`.
   */
  function NormalizePattern(pattern: string): (r: Result<string>)
    ensures r.Ok? <==> |ExpandPattern(pattern)| == 20 && AllPatternChars(ExpandPattern(pattern))
    ensures r.Ok? ==> r.value == ExpandPattern(pattern)
    ensures r.Err? ==> r.error == if |ExpandPattern(pattern)| != 20 then InvalidPattern else InvalidPassword
  {
    var cs := Take(ExpandPattern(pattern), 20 + 1);
    if |cs| != 20 then
      Err(InvalidPattern)
    else if exists i :: 0 <= i < |cs| && !IsPatternChar(cs[i]) then
      Err(InvalidPassword)
    else
      Ok(cs)
  }

  lemma {:induction false} ExpandPatternFixed(s: string)
    requires AllPatternChars(s)
    ensures ExpandPattern(s) == s
    decreases |s|
  {
    if |s| != 0 {
      if s[0] != Wildcard {
        PasswordCharNotWhitespace(s[0]);
      }
      ExpandPatternFixed(s[1..]);
      assert s == [s[0]] + s[1..];
    }
  }

  /** A normalized pattern is returned unchanged. */
  lemma NormalizedPatternFixed(p: string)
    requires |p| == 20 && AllPatternChars(p)
    ensures NormalizePattern(p) == Ok(p)
  {
    ExpandPatternFixed(p);
  }

  /** A password is a pattern without wildcards. */
  lemma PasswordIsPattern(p: string)
    requires NormalizePassword(p).Ok?
    ensures NormalizePattern(NormalizePassword(p).value) == NormalizePassword(p)
  {
    NormalizedPatternFixed(NormalizePassword(p).value);
  }
}
