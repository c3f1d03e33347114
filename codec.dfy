/**
 * The text coding of the 15 state bytes.  Every 3 bytes are cut into 4 six-bit values
 * ("sixes"), and each six becomes the running sum ("cum") of the previous cum, the six
 * and 4, modulo 64, written as a character of the password alphabet.  The functions
 * here are the specifications of the loops in `bytes_to_password`, `password_to_bytes`
 * and `sixs_to_bytes`; the methods that run those loops are proved equal to them.
 */
module Codec {
  import opened Errors
  import opened Alphabet

  /** Every element is a six-bit value. */
  predicate AllSix(s: seq<bv8>) {
    forall i :: 0 <= i < |s| ==> s[i] < 64
  }

  // ---------------------------------------------------------------------------
  // Bytes and sixes: 3 bytes | abcdefgh | ijklmnop | qrstuvwx | hold the 4 sixes
  // cdefgh, mnopab, wxijkl and qrstuv.

  /** The four sixes of one 3-byte group: low 6 bits, 2 + 4 bits, 4 + 2 bits, high 6 bits. */
  function GroupSixes(b0: bv8, b1: bv8, b2: bv8): seq<bv8> {
    [b0 & 0x3F, (b0 >> 6) | ((b1 & 0xF) << 2), (b1 >> 4) | ((b2 & 0x3) << 4), b2 >> 2]
  }

  /** The three bytes of one group of four sixes. */
  function GroupBytes(s0: bv8, s1: bv8, s2: bv8, s3: bv8): seq<bv8> {
    [s0 | (s1 << 6), (s1 >> 2) | (s2 << 4), (s2 >> 4) | (s3 << 2)]
  }

  function SixesOf(bytes: seq<bv8>): seq<bv8>
    requires |bytes| % 3 == 0
    decreases |bytes|
  {
    if |bytes| == 0 then [] else GroupSixes(bytes[0], bytes[1], bytes[2]) + SixesOf(bytes[3..])
  }

  function BytesOf(sixes: seq<bv8>): seq<bv8>
    requires |sixes| % 4 == 0
    decreases |sixes|
  {
    if |sixes| == 0 then []
    else GroupBytes(sixes[0], sixes[1], sixes[2], sixes[3]) + BytesOf(sixes[4..])
  }

  lemma GroupSixesBounded(b0: bv8, b1: bv8, b2: bv8)
    ensures AllSix(GroupSixes(b0, b1, b2))
  {}

  lemma GroupRoundTrip(b0: bv8, b1: bv8, b2: bv8)
    ensures var s := GroupSixes(b0, b1, b2); GroupBytes(s[0], s[1], s[2], s[3]) == [b0, b1, b2]
  {}

  lemma GroupRoundTripSixes(s0: bv8, s1: bv8, s2: bv8, s3: bv8)
    requires s0 < 64 && s1 < 64 && s2 < 64 && s3 < 64
    ensures var b := GroupBytes(s0, s1, s2, s3); GroupSixes(b[0], b[1], b[2]) == [s0, s1, s2, s3]
  {}

  lemma {:induction false} SixesOfLength(bytes: seq<bv8>)
    requires |bytes| % 3 == 0
    ensures |SixesOf(bytes)| == |bytes| / 3 * 4
    ensures AllSix(SixesOf(bytes))
    decreases |bytes|
  {
    if |bytes| != 0 {
      GroupSixesBounded(bytes[0], bytes[1], bytes[2]);
      SixesOfLength(bytes[3..]);
    }
  }

  lemma {:induction false} BytesOfLength(sixes: seq<bv8>)
    requires |sixes| % 4 == 0
    ensures |BytesOf(sixes)| == |sixes| / 4 * 3
    ensures |BytesOf(sixes)| % 3 == 0
    decreases |sixes|
  {
    if |sixes| != 0 {
      BytesOfLength(sixes[4..]);
    }
  }

  /** Packing the sixes of a byte string gives the byte string back. */
  lemma {:induction false} BytesOfSixesOf(bytes: seq<bv8>)
    requires |bytes| % 3 == 0
    ensures |SixesOf(bytes)| % 4 == 0
    ensures BytesOf(SixesOf(bytes)) == bytes
    decreases |bytes|
  {
    SixesOfLength(bytes);
    if |bytes| != 0 {
      var s := SixesOf(bytes);
      SixesOfLength(bytes[3..]);
      assert s[4..] == SixesOf(bytes[3..]);
      GroupRoundTrip(bytes[0], bytes[1], bytes[2]);
      BytesOfSixesOf(bytes[3..]);
      assert bytes == [bytes[0], bytes[1], bytes[2]] + bytes[3..];
    }
  }

  /** Cutting one packed group in front of a byte string gives its four sixes back. */
  lemma GroupBytesThenSixes(s0: bv8, s1: bv8, s2: bv8, s3: bv8, rest: seq<bv8>)
    requires s0 < 64 && s1 < 64 && s2 < 64 && s3 < 64
    requires |rest| % 3 == 0
    ensures SixesOf(GroupBytes(s0, s1, s2, s3) + rest) == [s0, s1, s2, s3] + SixesOf(rest)
  {
    var b := GroupBytes(s0, s1, s2, s3) + rest;
    assert b[3..] == rest;
    GroupRoundTripSixes(s0, s1, s2, s3);
  }

  /** The same, for a group of four sixes given as a sequence. */
  lemma SixesOfGroupBytes(q: seq<bv8>, rest: seq<bv8>)
    requires |q| == 4 && q[0] < 64 && q[1] < 64 && q[2] < 64 && q[3] < 64
    requires |rest| % 3 == 0
    ensures SixesOf(GroupBytes(q[0], q[1], q[2], q[3]) + rest) == q + SixesOf(rest)
  {
    GroupBytesThenSixes(q[0], q[1], q[2], q[3], rest);
    FourOf(q);
  }

  lemma FourOf(q: seq<bv8>)
    requires |q| == 4
    ensures [q[0], q[1], q[2], q[3]] == q
  {
  }

  /** Cutting the packed bytes of six-bit values gives the values back. */
  lemma {:induction false} SixesOfBytesOf(sixes: seq<bv8>)
    requires |sixes| % 4 == 0
    requires AllSix(sixes)
    ensures |BytesOf(sixes)| % 3 == 0
    ensures SixesOf(BytesOf(sixes)) == sixes
    decreases |sixes|
  {
    BytesOfLength(sixes);
    if |sixes| != 0 {
      var rest := BytesOf(sixes[4..]);
      BytesOfLength(sixes[4..]);
      SixesOfGroupBytes(sixes[..4], rest);
      SixesOfBytesOf(sixes[4..]);
      assert sixes[..4] + sixes[4..] == sixes;
    }
  }

  /** The sixes of group `g` of a byte string are the four sixes of its three bytes. */
  lemma {:induction false} SixesOfGroup(bytes: seq<bv8>, g: nat)
    requires |bytes| % 3 == 0 && g < |bytes| / 3
    ensures |SixesOf(bytes)| == |bytes| / 3 * 4
    ensures SixesOf(bytes)[4 * g..4 * g + 4] == GroupSixes(bytes[3 * g], bytes[3 * g + 1], bytes[3 * g + 2])
    decreases g
  {
    SixesOfLength(bytes);
    SixesOfLength(bytes[3..]);
    if g != 0 {
      SixesOfGroup(bytes[3..], g - 1);
      assert SixesOf(bytes)[4..] == SixesOf(bytes[3..]);
    }
  }

  /** Packing distributes over concatenation at a group boundary. */
  lemma {:induction false} BytesOfAppend(a: seq<bv8>, b: seq<bv8>)
    requires |a| % 4 == 0 && |b| % 4 == 0
    ensures BytesOf(a + b) == BytesOf(a) + BytesOf(b)
    decreases |a|
  {
    if |a| != 0 {
      assert (a + b)[4..] == a[4..] + b;
      BytesOfAppend(a[4..], b);
    } else {
      assert a + b == b;
    }
  }

  /** The bytes of group `g` of a sequence of sixes are the three bytes of its four sixes. */
  lemma {:induction false} BytesOfGroup(sixes: seq<bv8>, g: nat)
    requires |sixes| % 4 == 0 && g < |sixes| / 4
    ensures |BytesOf(sixes)| == |sixes| / 4 * 3
    ensures BytesOf(sixes)[3 * g..3 * g + 3] == GroupBytes(sixes[4 * g], sixes[4 * g + 1], sixes[4 * g + 2], sixes[4 * g + 3])
    decreases g
  {
    BytesOfLength(sixes);
    BytesOfLength(sixes[4..]);
    if g != 0 {
      BytesOfGroup(sixes[4..], g - 1);
      assert BytesOf(sixes)[3..] == BytesOf(sixes[4..]);
    }
  }

  // ---------------------------------------------------------------------------
  // Sixes and cums.

  /** The next cum: the previous cum plus the six plus 4, modulo 64. */
  function NextCum(pre: bv8, six: bv8): (cum: bv8)
    ensures cum < 64
  {
    (pre + six + 4) & 0x3F
  }

  /** The six between two cums, `cur.wrapping_sub(pre + 4) & 0x3F`. */
  function SixBetween(pre: bv8, cur: bv8): bv8 {
    (cur - (pre + 4)) & 0x3F
  }

  lemma SixBetweenNextCum(pre: bv8, six: bv8)
    requires six < 64
    ensures SixBetween(pre, NextCum(pre, six)) == six
  {}

  lemma NextCumSixBetween(pre: bv8, cur: bv8)
    requires cur < 64
    ensures NextCum(pre, SixBetween(pre, cur)) == cur
  {}

  /** The cums of `sixes`, starting after the cum `pre`. */
  function CumsFrom(pre: bv8, sixes: seq<bv8>): (cums: seq<bv8>)
    ensures |cums| == |sixes|
    decreases |sixes|
  {
    if |sixes| == 0 then [] else [NextCum(pre, sixes[0])] + CumsFrom(NextCum(pre, sixes[0]), sixes[1..])
  }

  /** The sixes of `cums`, starting after the cum `pre`. */
  function SixesFrom(pre: bv8, cums: seq<bv8>): (sixes: seq<bv8>)
    ensures |sixes| == |cums|
    decreases |cums|
  {
    if |cums| == 0 then [] else [SixBetween(pre, cums[0])] + SixesFrom(cums[0], cums[1..])
  }

  lemma {:induction false} CumsFromBounded(pre: bv8, sixes: seq<bv8>)
    ensures AllSix(CumsFrom(pre, sixes))
    decreases |sixes|
  {
    if |sixes| != 0 {
      CumsFromBounded(NextCum(pre, sixes[0]), sixes[1..]);
    }
  }

  lemma {:induction false} SixesFromBounded(pre: bv8, cums: seq<bv8>)
    ensures AllSix(SixesFrom(pre, cums))
    decreases |cums|
  {
    if |cums| != 0 {
      SixesFromBounded(cums[0], cums[1..]);
    }
  }

  lemma {:induction false} SixesFromCumsFrom(pre: bv8, sixes: seq<bv8>)
    requires AllSix(sixes)
    ensures SixesFrom(pre, CumsFrom(pre, sixes)) == sixes
    decreases |sixes|
  {
    if |sixes| != 0 {
      SixBetweenNextCum(pre, sixes[0]);
      SixesFromCumsFrom(NextCum(pre, sixes[0]), sixes[1..]);
    }
  }

  lemma {:induction false} CumsFromSixesFrom(pre: bv8, cums: seq<bv8>)
    requires AllSix(cums)
    ensures CumsFrom(pre, SixesFrom(pre, cums)) == cums
    decreases |cums|
  {
    if |cums| != 0 {
      NextCumSixBetween(pre, cums[0]);
      CumsFromSixesFrom(cums[0], cums[1..]);
    }
  }

  /** Cum `k` is the next cum after cum `k - 1` (after `pre` for the first one). */
  lemma {:induction false} CumsFromAt(pre: bv8, sixes: seq<bv8>, k: nat)
    requires k < |sixes|
    ensures CumsFrom(pre, sixes)[k] == NextCum(if k == 0 then pre else CumsFrom(pre, sixes)[k - 1], sixes[k])
    decreases k
  {
    if k != 0 {
      CumsFromAt(NextCum(pre, sixes[0]), sixes[1..], k - 1);
    }
  }

  /** Six `k` lies between cum `k - 1` (or `pre`) and cum `k`. */
  lemma {:induction false} SixesFromAt(pre: bv8, cums: seq<bv8>, k: nat)
    requires k < |cums|
    ensures SixesFrom(pre, cums)[k] == SixBetween(if k == 0 then pre else cums[k - 1], cums[k])
    decreases k
  {
    if k != 0 {
      SixesFromAt(cums[0], cums[1..], k - 1);
    }
  }

  // ---------------------------------------------------------------------------
  // Cums and characters.

  /** The password characters of a sequence of cums. */
  function CharsOf(cums: seq<bv8>): (text: string)
    requires AllSix(cums)
    ensures |text| == |cums|
  {
    seq(|cums|, i requires 0 <= i < |cums| => CumToPasswordChar(cums[i]))
  }

  /** Every character is one of the password alphabet. */
  predicate AllPasswordChars(text: string) {
    forall i :: 0 <= i < |text| ==> PasswordCharToCum(text[i]).Some?
  }

  /** The cums of a text of password characters. */
  function CumsOf(text: string): (cums: seq<bv8>)
    requires AllPasswordChars(text)
    ensures |cums| == |text|
  {
    seq(|text|, i requires 0 <= i < |text| => PasswordCharToCum(text[i]).value)
  }

  lemma CharsOfValid(cums: seq<bv8>)
    requires AllSix(cums)
    ensures AllPasswordChars(CharsOf(cums))
    ensures CumsOf(CharsOf(cums)) == cums
  {
    forall i | 0 <= i < |cums|
      ensures PasswordCharToCum(CharsOf(cums)[i]) == Some(cums[i])
    {
      CumToPasswordCharInverse(cums[i]);
    }
  }

  lemma CumsOfValid(text: string)
    requires AllPasswordChars(text)
    ensures AllSix(CumsOf(text))
    ensures CharsOf(CumsOf(text)) == text
  {
    forall i | 0 <= i < |text|
      ensures CumsOf(text)[i] < 64 && CumToPasswordChar(CumsOf(text)[i]) == text[i]
    {
      PasswordCharToCumInverse(text[i]);
    }
  }

  // ---------------------------------------------------------------------------
  // The whole coding.

  /** The password of 15 state bytes: 20 characters, starting from cum 0. */
  function PasswordOf(bytes: seq<bv8>): (password: string)
    requires |bytes| == 15
  {
    SixesOfLength(bytes);
    CumsFromBounded(0, SixesOf(bytes));
    CharsOf(CumsFrom(0, SixesOf(bytes)))
  }

  /** Character `k` of the password is the character of cum `k`. */
  lemma PasswordOfAt(bytes: seq<bv8>, k: nat)
    requires |bytes| == 15 && k < 20
    ensures |SixesOf(bytes)| == 20 && AllSix(CumsFrom(0, SixesOf(bytes)))
    ensures PasswordOf(bytes)[k] == CumToPasswordChar(CumsFrom(0, SixesOf(bytes))[k])
  {
    SixesOfLength(bytes);
    CumsFromBounded(0, SixesOf(bytes));
  }

  /** The 15 state bytes of a text of 20 password characters. */
  function BytesOfPassword(password: string): (bytes: seq<bv8>)
    requires |password| == 20 && AllPasswordChars(password)
  {
    BytesOf(SixesFrom(0, CumsOf(password)))
  }

  /** `bytes_to_password` emits exactly 20 characters, all from the password alphabet. */
  lemma PasswordOfValid(bytes: seq<bv8>)
    requires |bytes| == 15
    ensures |PasswordOf(bytes)| == 20
    ensures AllPasswordChars(PasswordOf(bytes))
  {
    SixesOfLength(bytes);
    CumsFromBounded(0, SixesOf(bytes));
    CharsOfValid(CumsFrom(0, SixesOf(bytes)));
  }

  lemma BytesOfPasswordLength(password: string)
    requires |password| == 20 && AllPasswordChars(password)
    ensures |BytesOfPassword(password)| == 15
  {
    BytesOfLength(SixesFrom(0, CumsOf(password)));
  }

  /** `password_to_bytes` inverts `bytes_to_password`. */
  lemma BytesOfPasswordOf(bytes: seq<bv8>)
    requires |bytes| == 15
    ensures |PasswordOf(bytes)| == 20 && AllPasswordChars(PasswordOf(bytes))
    ensures BytesOfPassword(PasswordOf(bytes)) == bytes
  {
    PasswordOfValid(bytes);
    SixesOfLength(bytes);
    var cums := CumsFrom(0, SixesOf(bytes));
    CumsFromBounded(0, SixesOf(bytes));
    CharsOfValid(cums);
    SixesFromCumsFrom(0, SixesOf(bytes));
    BytesOfSixesOf(bytes);
  }

  /** `bytes_to_password` inverts `password_to_bytes`: a password is determined by its bytes. */
  lemma PasswordOfBytesOf(password: string)
    requires |password| == 20 && AllPasswordChars(password)
    ensures |BytesOfPassword(password)| == 15
    ensures PasswordOf(BytesOfPassword(password)) == password
  {
    BytesOfPasswordLength(password);
    var cums := CumsOf(password);
    CumsOfValid(password);
    var sixes := SixesFrom(0, cums);
    SixesFromBounded(0, cums);
    SixesOfBytesOf(sixes);
    CumsFromSixesFrom(0, cums);
  }
}
